/** The blinds line transform (plug-ins/common/blinds.c, blindsapply) as
    functions over sequences: fill with the background pixel, copy each
    segment's centre pixel, then copy the two halves of each segment pulled
    toward its centre by `dx`. A pixel is one element of type T. */
module BlindsTransform {
  import opened BlindsPlan

  lemma ScaleFloorBounds(ang: real, k: int)
    requires 0.0 <= ang <= 1.0 && k >= 0
    ensures 0 <= (ang * (k as real)).Floor <= k
  {
    var kr := k as real;
    var x := ang * kr;
    assert kr - x == (1.0 - ang) * kr;
    assert 0.0 <= x <= kr;
    assert x.Floor as real <= x < x.Floor as real + 1.0;
  }

  /** The displacement of step i in a half of width fw: the truncation of
      `ang * (fw - i % fw)`, where `ang = 1 - |cos(angle)|`. */
  function Dx(ang: real, fw: int, i: int): (dx: int)
    requires 0.0 <= ang <= 1.0 && 0 <= i < fw
    ensures 0 <= dx <= fw - i
  {
    assert i % fw == i;
    ScaleFloorBounds(ang, fw - i);
    (ang * ((fw - i % fw) as real)).Floor
  }

  lemma DxZero(fw: int, i: int)
    requires 0 <= i < fw
    ensures Dx(0.0, fw, i) == 0
  {
  }

  function Fill<T>(n: nat, bg: T): seq<T>
  {
    seq(n, _ => bg)
  }

  /** The centre loop from segment `ws[0]` at offset `off` on. */
  function CopyCentres<T>(src: seq<T>, line: seq<T>, ws: seq<int>, off: int): (r: seq<T>)
    requires |line| == |src| && Fits(ws, off, |src|)
    ensures |r| == |line|
    decreases |ws|
  {
    if ws == [] then line
    else
      var point := off + ws[0] / 2;
      CopyCentres(src, line[point := src[point]], ws[1..], off + ws[0])
  }

  /** Source index of the right-half copy of step i. */
  function RightSrc(off: int, w: int, i: int): int
  {
    off + w - (i + 1) - w % 2
  }

  /** Step i of the displacement loop of the segment [off, off + w): the
      left-half pixel moves right by dx, the mirrored right-half pixel moves
      left by dx. */
  function DisplaceStep<T>(src: seq<T>, line: seq<T>, off: int, w: int, ang: real, i: int): (r: seq<T>)
    requires |line| == |src| && 0 <= off && off + w <= |src|
    requires 0 <= i < w / 2 && 0.0 <= ang <= 1.0
    ensures |r| == |line|
  {
    var dx := Dx(ang, w / 2, i);
    var right := RightSrc(off, w, i);
    line[off + i + dx := src[off + i]][right - dx := src[right]]
  }

  /** Steps i, i + 1, ..., w / 2 - 1 of the displacement loop of one segment. */
  function DisplaceSegment<T>(src: seq<T>, line: seq<T>, off: int, w: int, ang: real, i: int): (r: seq<T>)
    requires |line| == |src| && 0 <= off && off + w <= |src|
    requires 0 <= i <= w / 2 && 0.0 <= ang <= 1.0
    ensures |r| == |line|
    decreases w / 2 - i
  {
    if i == w / 2 then line
    else DisplaceSegment(src, DisplaceStep(src, line, off, w, ang, i), off, w, ang, i + 1)
  }

  /** The displacement loop over the segments from `ws[0]` at `off` on. */
  function DisplaceAll<T>(src: seq<T>, line: seq<T>, ws: seq<int>, off: int, ang: real): (r: seq<T>)
    requires |line| == |src| && Fits(ws, off, |src|) && 0.0 <= ang <= 1.0
    ensures |r| == |line|
    decreases |ws|
  {
    if ws == [] then line
    else DisplaceAll(src, DisplaceSegment(src, line, off, ws[0], ang, 0), ws[1..], off + ws[0], ang)
  }

  /** Segment k of a plan that fits is displaced first, then the rest. */
  lemma DisplaceAllAt<T>(src: seq<T>, line: seq<T>, ws: seq<int>, k: int, off: int, ang: real)
    requires |line| == |src| && 0 <= k < |ws| && Fits(ws[k..], off, |src|) && 0.0 <= ang <= 1.0
    ensures 0 <= off && 0 <= ws[k] && off + ws[k] <= |src| && Fits(ws[k + 1..], off + ws[k], |src|)
    ensures DisplaceAll(src, line, ws[k..], off, ang)
         == DisplaceAll(src, DisplaceSegment(src, line, off, ws[k], ang, 0), ws[k + 1..], off + ws[k], ang)
  {
    assert ws[k..][0] == ws[k];
    assert ws[k..][1..] == ws[k + 1..];
  }

  /** The line `blindsapply` writes for source line `src`. */
  function BlindsLine<T>(src: seq<T>, numsegs: int, ang: real, bg: T): (out: seq<T>)
    requires |src| >= 1 && numsegs >= 1 && 0.0 <= ang <= 1.0
    ensures |out| == |src|
  {
    PlanFits(|src|, numsegs, 0, |src|);
    var ws := Plan(|src|, numsegs);
    DisplaceAll(src, CopyCentres(src, Fill(|src|, bg), ws, 0), ws, 0, ang)
  }

  // ---------------------------------------------------------------------
  // Centre copies

  /** p is the centre `off + w / 2` of one of the segments. */
  ghost predicate IsCentre(ws: seq<int>, off: int, p: int)
    decreases |ws|
  {
    ws != [] && (p == off + ws[0] / 2 || IsCentre(ws[1..], off + ws[0], p))
  }

  /** After the centre loop, each segment's centre pixel is the source pixel
      at the same index and every other pixel is unchanged. */
  lemma {:induction false} CopyCentresAt<T>(src: seq<T>, line: seq<T>, ws: seq<int>, off: int, p: int)
    requires |line| == |src| && Fits(ws, off, |src|) && 0 <= p < |line|
    ensures CopyCentres(src, line, ws, off)[p] == if IsCentre(ws, off, p) then src[p] else line[p]
    decreases |ws|
  {
    if ws != [] {
      var point := off + ws[0] / 2;
      CopyCentresAt(src, line[point := src[point]], ws[1..], off + ws[0], p);
    }
  }

  // ---------------------------------------------------------------------
  // Locality of the displacement loop

  /** Every pixel of `r` is the pixel of `line`, or a copy of a source pixel
      of [s, e) placed inside [s, e). */
  ghost predicate DerivedWithin<T>(r: seq<T>, line: seq<T>, src: seq<T>, s: int, e: int)
  {
    |r| == |line| &&
    forall p :: 0 <= p < |r| ==>
      r[p] == line[p] || (s <= p < e && exists q :: s <= q < e && 0 <= q < |src| && r[p] == src[q])
  }

  lemma DerivedStep<T>(src: seq<T>, line: seq<T>, off: int, w: int, ang: real, i: int)
    requires |line| == |src| && 0 <= off && off + w <= |src|
    requires 0 <= i < w / 2 && 0.0 <= ang <= 1.0
    ensures DerivedWithin(DisplaceStep(src, line, off, w, ang, i), line, src, off, off + w)
  {
    var r := DisplaceStep(src, line, off, w, ang, i);
    var dx := Dx(ang, w / 2, i);
    var right := RightSrc(off, w, i);
    forall p | 0 <= p < |r|
      ensures r[p] == line[p] || (off <= p < off + w && exists q :: off <= q < off + w && 0 <= q < |src| && r[p] == src[q])
    {
      if p == right - dx {
        assert r[p] == src[right];
      } else if p == off + i + dx {
        assert r[p] == src[off + i];
      }
    }
  }

  lemma DerivedTrans<T>(r: seq<T>, m: seq<T>, line: seq<T>, src: seq<T>, s: int, e: int)
    requires DerivedWithin(r, m, src, s, e) && DerivedWithin(m, line, src, s, e)
    ensures DerivedWithin(r, line, src, s, e)
  {
  }

  /** The displacement loop of one segment writes only inside the segment,
      and only copies of source pixels of that segment. */
  lemma {:induction false} DisplaceSegmentDerived<T>(src: seq<T>, line: seq<T>, off: int, w: int, ang: real, i: int)
    requires |line| == |src| && 0 <= off && off + w <= |src|
    requires 0 <= i <= w / 2 && 0.0 <= ang <= 1.0
    ensures DerivedWithin(DisplaceSegment(src, line, off, w, ang, i), line, src, off, off + w)
    decreases w / 2 - i
  {
    if i < w / 2 {
      var m := DisplaceStep(src, line, off, w, ang, i);
      DerivedStep(src, line, off, w, ang, i);
      DisplaceSegmentDerived(src, m, off, w, ang, i + 1);
      DerivedTrans(DisplaceSegment(src, m, off, w, ang, i + 1), m, line, src, off, off + w);
    }
  }

  /** The displacement loop from offset `off` on leaves every pixel before `off`
      alone. */
  lemma {:induction false} DisplaceAllBelow<T>(src: seq<T>, line: seq<T>, ws: seq<int>, off: int, ang: real, p: int)
    requires |line| == |src| && Fits(ws, off, |src|) && 0.0 <= ang <= 1.0
    requires 0 <= p < off && p < |line|
    ensures DisplaceAll(src, line, ws, off, ang)[p] == line[p]
    decreases |ws|
  {
    if ws != [] {
      var m := DisplaceSegment(src, line, off, ws[0], ang, 0);
      DisplaceSegmentDerived(src, line, off, ws[0], ang, 0);
      DisplaceAllBelow(src, m, ws[1..], off + ws[0], ang, p);
    }
  }

  /** Inside [s, e) every pixel is the background or a copy of a source
      pixel of [s, e). */
  ghost predicate SegmentLocal<T>(line: seq<T>, src: seq<T>, bg: T, s: int, e: int)
  {
    forall p :: s <= p < e && 0 <= p < |line| ==>
      line[p] == bg || exists q :: s <= q < e && 0 <= q < |src| && line[p] == src[q]
  }

  /** SegmentLocal for each of the segments `ws` laid out from `off`. */
  ghost predicate Local<T>(line: seq<T>, src: seq<T>, bg: T, ws: seq<int>, off: int)
    decreases |ws|
  {
    ws == [] ||
    (SegmentLocal(line, src, bg, off, off + ws[0]) && Local(line, src, bg, ws[1..], off + ws[0]))
  }

  lemma {:induction false} LocalFill<T>(n: nat, src: seq<T>, bg: T, ws: seq<int>, off: int)
    ensures Local(Fill(n, bg), src, bg, ws, off)
    decreases |ws|
  {
    if ws != [] {
      LocalFill(n, src, bg, ws[1..], off + ws[0]);
    }
  }

  /** Copying a source pixel to its own index keeps every segment local. */
  lemma {:induction false} LocalIdentityWrite<T>(line: seq<T>, src: seq<T>, bg: T, ws: seq<int>, off: int, p: int)
    requires |line| == |src| && 0 <= p < |line| && Local(line, src, bg, ws, off)
    ensures Local(line[p := src[p]], src, bg, ws, off)
    decreases |ws|
  {
    if ws != [] {
      LocalIdentityWrite(line, src, bg, ws[1..], off + ws[0], p);
      var l2 := line[p := src[p]];
      forall p' | off <= p' < off + ws[0] && 0 <= p' < |l2|
        ensures l2[p'] == bg || exists q :: off <= q < off + ws[0] && 0 <= q < |src| && l2[p'] == src[q]
      {
        if p' == p {
          assert l2[p'] == src[p];
        } else {
          assert l2[p'] == line[p'];
        }
      }
    }
  }

  lemma {:induction false} LocalCopyCentres<T>(src: seq<T>, line: seq<T>, bg: T, cs: seq<int>, coff: int, ws: seq<int>, off: int)
    requires |line| == |src| && Fits(cs, coff, |src|) && Local(line, src, bg, ws, off)
    ensures Local(CopyCentres(src, line, cs, coff), src, bg, ws, off)
    decreases |cs|
  {
    if cs != [] {
      var point := coff + cs[0] / 2;
      LocalIdentityWrite(line, src, bg, ws, off, point);
      LocalCopyCentres(src, line[point := src[point]], bg, cs[1..], coff + cs[0], ws, off);
    }
  }

  /** Local from `off` on depends only on the pixels at or after `off`. */
  lemma {:induction false} LocalFrame<T>(line: seq<T>, line2: seq<T>, src: seq<T>, bg: T, ws: seq<int>, off: int)
    requires |line2| == |line| && Fits(ws, off, |line|)
    requires forall p :: 0 <= off <= p < |line| ==> line2[p] == line[p]
    requires Local(line, src, bg, ws, off)
    ensures Local(line2, src, bg, ws, off)
    decreases |ws|
  {
    if ws != [] {
      LocalFrame(line, line2, src, bg, ws[1..], off + ws[0]);
    }
  }

  /** The displacement loop keeps every segment local. */
  lemma {:induction false} LocalDisplaceAll<T>(src: seq<T>, line: seq<T>, bg: T, ws: seq<int>, off: int, ang: real)
    requires |line| == |src| && Fits(ws, off, |src|) && 0.0 <= ang <= 1.0
    requires Local(line, src, bg, ws, off)
    ensures Local(DisplaceAll(src, line, ws, off, ang), src, bg, ws, off)
    decreases |ws|
  {
    if ws != [] {
      var w := ws[0];
      var m := DisplaceSegment(src, line, off, w, ang, 0);
      DisplaceSegmentDerived(src, line, off, w, ang, 0);
      assert SegmentLocal(m, src, bg, off, off + w);
      LocalFrame(line, m, src, bg, ws[1..], off + w);
      LocalDisplaceAll(src, m, bg, ws[1..], off + w, ang);
      var out := DisplaceAll(src, m, ws[1..], off + w, ang);
      forall p | 0 <= p < off + w && p < |m|
        ensures out[p] == m[p]
      {
        DisplaceAllBelow(src, m, ws[1..], off + w, ang, p);
      }
      assert SegmentLocal(out, src, bg, off, off + w);
    }
  }

  lemma {:induction false} LocalAt<T>(line: seq<T>, src: seq<T>, bg: T, ws: seq<int>, off: int, k: nat)
    requires Local(line, src, bg, ws, off) && k < |ws|
    ensures SegmentLocal(line, src, bg, off + Start(ws, k), off + Start(ws, k) + ws[k])
    decreases k
  {
    if k > 0 {
      assert ws[..k][1..] == ws[1..][..k - 1];
      assert Start(ws, k) == ws[0] + Start(ws[1..], k - 1);
      LocalAt(line, src, bg, ws[1..], off + ws[0], k - 1);
    }
  }

  /** Every output pixel of segment k is the background pixel or a copy of a
      source pixel of the same segment. */
  lemma BlindsLineLocal<T>(src: seq<T>, numsegs: int, ang: real, bg: T, k: nat)
    requires |src| >= 1 && numsegs >= 1 && 0.0 <= ang <= 1.0 && k < numsegs
    ensures var ws := Plan(|src|, numsegs);
      var s := Start(ws, k);
      forall p :: s <= p < s + ws[k] ==>
        && 0 <= p < |src|
        && (|| BlindsLine(src, numsegs, ang, bg)[p] == bg
            || exists q :: s <= q < s + ws[k] && 0 <= q < |src| && BlindsLine(src, numsegs, ang, bg)[p] == src[q])
  {
    var ws := Plan(|src|, numsegs);
    PlanFits(|src|, numsegs, 0, |src|);
    var filled := Fill(|src|, bg);
    LocalFill(|src|, src, bg, ws, 0);
    LocalCopyCentres(src, filled, bg, ws, 0, ws, 0);
    LocalDisplaceAll(src, CopyCentres(src, filled, ws, 0), bg, ws, 0, ang);
    LocalAt(BlindsLine(src, numsegs, ang, bg), src, bg, ws, 0, k);
    StartBounds(ws, 0, |src|, k);
  }

  lemma {:induction false} StartBounds(ws: seq<int>, off: int, n: int, k: nat)
    requires Fits(ws, off, n) && k < |ws|
    ensures 0 <= off + Start(ws, k) && off + Start(ws, k) + ws[k] <= n
    decreases k
  {
    if k > 0 {
      assert ws[..k][1..] == ws[1..][..k - 1];
      assert Start(ws, k) == ws[0] + Start(ws[1..], k - 1);
      StartBounds(ws[1..], off + ws[0], n, k - 1);
    }
  }

  // ---------------------------------------------------------------------
  // The last pixel of an odd segment

  /** p is the last pixel of one of the segments that is odd and at least
      three pixels wide. */
  ghost predicate OddTail(ws: seq<int>, off: int, p: int)
    decreases |ws|
  {
    ws != [] &&
    ((ws[0] % 2 == 1 && ws[0] >= 3 && p == off + ws[0] - 1) || OddTail(ws[1..], off + ws[0], p))
  }

  lemma {:induction false} CentreAbove(ws: seq<int>, off: int, n: int, p: int)
    requires Fits(ws, off, n)
    ensures IsCentre(ws, off, p) ==> off <= p
    decreases |ws|
  {
    if ws != [] {
      CentreAbove(ws[1..], off + ws[0], n, p);
    }
  }

  lemma {:induction false} OddTailAbove(ws: seq<int>, off: int, n: int, p: int)
    requires Fits(ws, off, n)
    ensures OddTail(ws, off, p) ==> off + 2 <= p
    decreases |ws|
  {
    if ws != [] {
      OddTailAbove(ws[1..], off + ws[0], n, p);
    }
  }

  /** The last pixel of an odd segment of width three or more is not the
      centre of any segment. */
  lemma {:induction false} OddTailNotCentre(ws: seq<int>, off: int, n: int, p: int)
    requires Fits(ws, off, n) && OddTail(ws, off, p)
    ensures !IsCentre(ws, off, p)
    decreases |ws|
  {
    var w := ws[0];
    CentreAbove(ws[1..], off + w, n, p);
    OddTailAbove(ws[1..], off + w, n, p);
    if !(w % 2 == 1 && w >= 3 && p == off + w - 1) {
      OddTailNotCentre(ws[1..], off + w, n, p);
    }
  }

  /** The displacement loop of an odd segment never writes its last pixel:
      the right-half index subtracts `w % 2`. */
  lemma {:induction false} DisplaceSegmentKeepsTail<T>(src: seq<T>, line: seq<T>, off: int, w: int, ang: real, i: int)
    requires |line| == |src| && 0 <= off && off + w <= |src|
    requires 0 <= i <= w / 2 && 0.0 <= ang <= 1.0
    requires w % 2 == 1 && w >= 3
    ensures DisplaceSegment(src, line, off, w, ang, i)[off + w - 1] == line[off + w - 1]
    decreases w / 2 - i
  {
    if i < w / 2 {
      var m := DisplaceStep(src, line, off, w, ang, i);
      assert m[off + w - 1] == line[off + w - 1];
      DisplaceSegmentKeepsTail(src, m, off, w, ang, i + 1);
    }
  }

  lemma {:induction false} DisplaceAllKeepsOddTail<T>(src: seq<T>, line: seq<T>, ws: seq<int>, off: int, ang: real, p: int)
    requires |line| == |src| && Fits(ws, off, |src|) && 0.0 <= ang <= 1.0
    requires OddTail(ws, off, p)
    ensures 0 <= p < |line| && DisplaceAll(src, line, ws, off, ang)[p] == line[p]
    decreases |ws|
  {
    var w := ws[0];
    var m := DisplaceSegment(src, line, off, w, ang, 0);
    OddTailAbove(ws[1..], off + w, |src|, p);
    if w % 2 == 1 && w >= 3 && p == off + w - 1 {
      DisplaceSegmentKeepsTail(src, line, off, w, ang, 0);
      DisplaceAllBelow(src, m, ws[1..], off + w, ang, p);
    } else {
      DisplaceSegmentDerived(src, line, off, w, ang, 0);
      DisplaceAllKeepsOddTail(src, m, ws[1..], off + w, ang, p);
    }
  }

  /** In every odd segment of width three or more the last pixel stays the
      background pixel, whatever the angle. */
  lemma BlindsLineOddTail<T>(src: seq<T>, numsegs: int, ang: real, bg: T, p: int)
    requires |src| >= 1 && numsegs >= 1 && 0.0 <= ang <= 1.0
    requires OddTail(Plan(|src|, numsegs), 0, p)
    ensures 0 <= p < |src| && BlindsLine(src, numsegs, ang, bg)[p] == bg
  {
    var ws := Plan(|src|, numsegs);
    PlanFits(|src|, numsegs, 0, |src|);
    var centred := CopyCentres(src, Fill(|src|, bg), ws, 0);
    DisplaceAllKeepsOddTail(src, centred, ws, 0, ang, p);
    OddTailNotCentre(ws, 0, |src|, p);
    CopyCentresAt(src, Fill(|src|, bg), ws, 0, p);
  }

  lemma {:induction false} OddTailAt(ws: seq<int>, off: int, n: int, k: nat)
    requires Fits(ws, off, n) && k < |ws| && ws[k] % 2 == 1 && ws[k] >= 3
    ensures OddTail(ws, off, off + Start(ws, k) + ws[k] - 1)
    decreases k
  {
    if k > 0 {
      assert ws[..k][1..] == ws[1..][..k - 1];
      assert Start(ws, k) == ws[0] + Start(ws[1..], k - 1);
      OddTailAt(ws[1..], off + ws[0], n, k - 1);
    }
  }

  /** Segment k of odd width w >= 3 ends in a background pixel. */
  lemma BlindsOddSegmentEndsInBackground<T>(src: seq<T>, numsegs: int, ang: real, bg: T, k: nat)
    requires |src| >= 1 && numsegs >= 1 && 0.0 <= ang <= 1.0 && k < numsegs
    requires Plan(|src|, numsegs)[k] % 2 == 1 && Plan(|src|, numsegs)[k] >= 3
    ensures 0 <= SegmentEnd(Plan(|src|, numsegs), k) < |src|
    ensures BlindsLine(src, numsegs, ang, bg)[SegmentEnd(Plan(|src|, numsegs), k)] == bg
  {
    PlanOddTail(|src|, numsegs, k);
    BlindsLineOddTail(src, numsegs, ang, bg, SegmentEnd(Plan(|src|, numsegs), k));
  }

  /** Index of the last pixel of segment k. */
  function SegmentEnd(ws: seq<int>, k: nat): int
    requires k < |ws|
  {
    Start(ws, k) + ws[k] - 1
  }

  lemma PlanOddTail(n: int, numsegs: int, k: nat)
    requires n >= 1 && numsegs >= 1 && k < numsegs
    requires Plan(n, numsegs)[k] % 2 == 1 && Plan(n, numsegs)[k] >= 3
    ensures OddTail(Plan(n, numsegs), 0, SegmentEnd(Plan(n, numsegs), k))
  {
    PlanFits(n, numsegs, 0, n);
    OddTailAt(Plan(n, numsegs), 0, n, k);
  }

  // ---------------------------------------------------------------------
  // Zero displacement angle

  /** p lies in the part [off, off + w - w % 2) of a segment that the
      displacement loop covers when dx is always 0. */
  ghost predicate Covered(ws: seq<int>, off: int, p: int)
    decreases |ws|
  {
    ws != [] && ((off <= p < off + ws[0] - ws[0] % 2) || Covered(ws[1..], off + ws[0], p))
  }

  lemma {:induction false} CoveredAbove(ws: seq<int>, off: int, n: int, p: int)
    requires Fits(ws, off, n)
    ensures Covered(ws, off, p) ==> off <= p
    decreases |ws|
  {
    if ws != [] {
      CoveredAbove(ws[1..], off + ws[0], n, p);
    }
  }

  lemma {:induction false} DisplaceSegmentZero<T>(src: seq<T>, line: seq<T>, off: int, w: int, i: int, p: int)
    requires |line| == |src| && 0 <= off && off + w <= |src|
    requires 0 <= i <= w / 2 && 0 <= p < |line|
    ensures DisplaceSegment(src, line, off, w, 0.0, i)[p]
         == if off + i <= p < off + w - i - w % 2 then src[p] else line[p]
    decreases w / 2 - i
  {
    if i < w / 2 {
      var m := DisplaceStep(src, line, off, w, 0.0, i);
      DxZero(w / 2, i);
      assert m[p] == if p == off + i || p == RightSrc(off, w, i) then src[p] else line[p];
      DisplaceSegmentZero(src, m, off, w, i + 1, p);
    }
  }

  lemma {:induction false} DisplaceAllZero<T>(src: seq<T>, line: seq<T>, ws: seq<int>, off: int, p: int)
    requires |line| == |src| && Fits(ws, off, |src|) && 0 <= p < |line|
    ensures DisplaceAll(src, line, ws, off, 0.0)[p] == if Covered(ws, off, p) then src[p] else line[p]
    decreases |ws|
  {
    if ws != [] {
      var m := DisplaceSegment(src, line, off, ws[0], 0.0, 0);
      DisplaceSegmentZero(src, line, off, ws[0], 0, p);
      DisplaceAllZero(src, m, ws[1..], off + ws[0], p);
    }
  }

  /** A run of segments with positive total width has its first pixel covered
      or a centre. */
  lemma {:induction false} FirstPixelReached(ws: seq<int>, off: int, n: int)
    requires Fits(ws, off, n) && Sum(ws) > 0
    ensures Covered(ws, off, off) || IsCentre(ws, off, off)
    decreases |ws|
  {
    if ws[0] == 0 {
      FirstPixelReached(ws[1..], off, n);
    }
  }

  /** With dx always 0, a pixel is reached by a copy exactly when it is not
      the last pixel of an odd segment of width three or more. */
  lemma {:induction false} ReachedUnlessOddTail(ws: seq<int>, off: int, n: int, p: int)
    requires Fits(ws, off, n) && off <= p < off + Sum(ws)
    ensures (Covered(ws, off, p) || IsCentre(ws, off, p)) == !OddTail(ws, off, p)
    decreases |ws|
  {
    var w := ws[0];
    var rest := ws[1..];
    CoveredAbove(rest, off + w, n, p);
    CentreAbove(rest, off + w, n, p);
    OddTailAbove(rest, off + w, n, p);
    if w == 0 {
      ReachedUnlessOddTail(rest, off, n, p);
      if p == off {
        FirstPixelReached(rest, off, n);
      }
    } else if p >= off + w {
      ReachedUnlessOddTail(rest, off + w, n, p);
    }
  }

  /** With a zero displacement angle the line is the source line, except
      that the last pixel of every odd segment of width three or more is the
      background pixel. */
  lemma BlindsLineZeroAngle<T>(src: seq<T>, numsegs: int, bg: T, p: int)
    requires |src| >= 1 && numsegs >= 1 && 0 <= p < |src|
    ensures BlindsLine(src, numsegs, 0.0, bg)[p]
         == if OddTail(Plan(|src|, numsegs), 0, p) then bg else src[p]
  {
    var ws := Plan(|src|, numsegs);
    PlanFits(|src|, numsegs, 0, |src|);
    PlanSum(|src|, numsegs);
    var filled := Fill(|src|, bg);
    var centred := CopyCentres(src, filled, ws, 0);
    DisplaceAllZero(src, centred, ws, 0, p);
    CopyCentresAt(src, filled, ws, 0, p);
    ReachedUnlessOddTail(ws, 0, |src|, p);
  }

  // ---------------------------------------------------------------------
  // The centre pixel

  /** Index of the centre pixel of segment k. */
  function SegmentCentre(ws: seq<int>, k: nat): int
    requires k < |ws|
  {
    Start(ws, k) + ws[k] / 2
  }

  lemma {:induction false} StartNonNegative(ws: seq<int>, off: int, n: int, k: nat)
    requires Fits(ws, off, n) && k <= |ws|
    ensures Start(ws, k) >= 0
    decreases k
  {
    if k > 0 {
      assert ws[..k][1..] == ws[1..][..k - 1];
      assert Start(ws, k) == ws[0] + Start(ws[1..], k - 1);
      StartNonNegative(ws[1..], off + ws[0], n, k - 1);
    }
  }

  lemma {:induction false} CentreAt(ws: seq<int>, off: int, n: int, k: nat)
    requires Fits(ws, off, n) && k < |ws|
    ensures IsCentre(ws, off, off + SegmentCentre(ws, k))
    decreases k
  {
    if k > 0 {
      assert ws[..k][1..] == ws[1..][..k - 1];
      assert Start(ws, k) == ws[0] + Start(ws[1..], k - 1);
      CentreAt(ws[1..], off + ws[0], n, k - 1);
    }
  }

  lemma DxLast(ang: real, fw: int)
    requires 0.0 <= ang < 1.0 && fw >= 1
    ensures Dx(ang, fw, fw - 1) == 0
  {
    assert (fw - 1) % fw == fw - 1;
    assert ang * ((fw - (fw - 1)) as real) == ang;
  }

  /** With `ang < 1` the last step of a segment of width two or more has
      dx = 0, and its right-half write copies the centre pixel onto itself. */
  lemma {:induction false} DisplaceSegmentKeepsCentre<T>(src: seq<T>, line: seq<T>, off: int, w: int, ang: real, i: int)
    requires |line| == |src| && 0 <= off && off + w <= |src|
    requires 0 <= i < w / 2 && 0.0 <= ang < 1.0
    ensures DisplaceSegment(src, line, off, w, ang, i)[off + w / 2] == src[off + w / 2]
    decreases w / 2 - i
  {
    var m := DisplaceStep(src, line, off, w, ang, i);
    if i == w / 2 - 1 {
      DxLast(ang, w / 2);
      assert RightSrc(off, w, i) == off + w / 2;
    } else {
      DisplaceSegmentKeepsCentre(src, m, off, w, ang, i + 1);
    }
  }

  /** The displacement loop leaves the centre pixel of segment k holding
      the source pixel, once the centre loop has put it there. */
  lemma {:induction false} DisplaceAllKeepsCentre<T>(src: seq<T>, line: seq<T>, ws: seq<int>, off: int, ang: real, k: nat)
    requires |line| == |src| && Fits(ws, off, |src|) && 0.0 <= ang < 1.0
    requires k < |ws| && ws[k] >= 1
    requires 0 <= off + SegmentCentre(ws, k) < |src|
    requires line[off + SegmentCentre(ws, k)] == src[off + SegmentCentre(ws, k)]
    ensures DisplaceAll(src, line, ws, off, ang)[off + SegmentCentre(ws, k)] == src[off + SegmentCentre(ws, k)]
    decreases k
  {
    var w := ws[0];
    var c := off + SegmentCentre(ws, k);
    var m := DisplaceSegment(src, line, off, w, ang, 0);
    if k == 0 {
      if w >= 2 {
        DisplaceSegmentKeepsCentre(src, line, off, w, ang, 0);
      }
      assert m[c] == src[c];
      DisplaceAllBelow(src, m, ws[1..], off + w, ang, c);
    } else {
      assert ws[..k][1..] == ws[1..][..k - 1];
      assert Start(ws, k) == w + Start(ws[1..], k - 1);
      StartNonNegative(ws[1..], off + w, |src|, k - 1);
      DisplaceSegmentDerived(src, line, off, w, ang, 0);
      assert m[c] == line[c];
      DisplaceAllKeepsCentre(src, m, ws[1..], off + w, ang, k - 1);
    }
  }

  lemma LineKeepsCentre<T>(src: seq<T>, ws: seq<int>, ang: real, bg: T, k: nat)
    requires Fits(ws, 0, |src|) && 0.0 <= ang < 1.0 && k < |ws| && ws[k] >= 1
    ensures 0 <= SegmentCentre(ws, k) < |src|
    ensures DisplaceAll(src, CopyCentres(src, Fill(|src|, bg), ws, 0), ws, 0, ang)[SegmentCentre(ws, k)]
         == src[SegmentCentre(ws, k)]
  {
    StartBounds(ws, 0, |src|, k);
    var c := SegmentCentre(ws, k);
    var filled := Fill(|src|, bg);
    CentreAt(ws, 0, |src|, k);
    CopyCentresAt(src, filled, ws, 0, c);
    DisplaceAllKeepsCentre(src, CopyCentres(src, filled, ws, 0), ws, 0, ang, k);
  }

  /** For every angle below the full turn, the centre pixel of each
      non-empty segment (the hinge of the blind) is the source pixel. */
  lemma BlindsLineKeepsCentre<T>(src: seq<T>, numsegs: int, ang: real, bg: T, k: nat)
    requires |src| >= 1 && numsegs >= 1 && 0.0 <= ang < 1.0 && k < numsegs
    requires Plan(|src|, numsegs)[k] >= 1
    ensures 0 <= SegmentCentre(Plan(|src|, numsegs), k) < |src|
    ensures BlindsLine(src, numsegs, ang, bg)[SegmentCentre(Plan(|src|, numsegs), k)]
         == src[SegmentCentre(Plan(|src|, numsegs), k)]
  {
    PlanFits(|src|, numsegs, 0, |src|);
    LineKeepsCentre(src, Plan(|src|, numsegs), ang, bg, k);
  }

  /** At `ang = 1` the last step of a segment has dx = 1 and the hinge
      moves: one segment of four pixels puts pixel 1 at the centre. */
  lemma BlindsLineCentreMovesAtFullAngle()
    ensures SegmentCentre(Plan(4, 1), 0) == 2
    ensures BlindsLine([10, 11, 12, 13], 1, 1.0, 0)[2] == 11
  {
  }

  // ---------------------------------------------------------------------
  // Values of the whole line

  /** Every pixel of `line` is the background pixel or some source pixel. */
  ghost predicate Drawn<T>(line: seq<T>, src: seq<T>, bg: T)
  {
    forall p :: 0 <= p < |line| ==> line[p] == bg || exists q :: 0 <= q < |src| && line[p] == src[q]
  }

  lemma {:induction false} DrawnDisplaceAll<T>(src: seq<T>, line: seq<T>, bg: T, ws: seq<int>, off: int, ang: real)
    requires |line| == |src| && Fits(ws, off, |src|) && 0.0 <= ang <= 1.0 && Drawn(line, src, bg)
    ensures Drawn(DisplaceAll(src, line, ws, off, ang), src, bg)
    decreases |ws|
  {
    if ws != [] {
      var m := DisplaceSegment(src, line, off, ws[0], ang, 0);
      DisplaceSegmentDerived(src, line, off, ws[0], ang, 0);
      DrawnDisplaceAll(src, m, bg, ws[1..], off + ws[0], ang);
    }
  }

  /** The transformed line holds only the background pixel and source
      pixels. */
  lemma BlindsLineDrawn<T>(src: seq<T>, numsegs: int, ang: real, bg: T)
    requires |src| >= 1 && numsegs >= 1 && 0.0 <= ang <= 1.0
    ensures forall p :: 0 <= p < |src| ==>
      BlindsLine(src, numsegs, ang, bg)[p] == bg || exists q :: 0 <= q < |src| && BlindsLine(src, numsegs, ang, bg)[p] == src[q]
  {
    var ws := Plan(|src|, numsegs);
    PlanFits(|src|, numsegs, 0, |src|);
    var filled := Fill(|src|, bg);
    var centred := CopyCentres(src, filled, ws, 0);
    forall p | 0 <= p < |src|
      ensures centred[p] == bg || exists q :: 0 <= q < |src| && centred[p] == src[q]
    {
      CopyCentresAt(src, filled, ws, 0, p);
    }
    DrawnDisplaceAll(src, centred, bg, ws, 0, ang);
  }

  // ---------------------------------------------------------------------
  // The row map of horizontal blinds

  /** The column `1, 2, ..., n` that horizontal blinds push through the line
      transform: entry y names source row y + 1, so that 0 is left for a
      background row. */
  function RowNumbers(n: nat): seq<int>
  {
    seq(n, y => y + 1)
  }

  /** Destination row y of horizontal blinds shows source row `m[y] - 1`,
      or the background when the entry is 0: every entry is 0 or the number
      of an existing row. */
  function RowMap(height: int, numsegs: int, ang: real): (m: seq<int>)
    requires height >= 1 && numsegs >= 1 && 0.0 <= ang <= 1.0
    ensures |m| == height
    ensures forall y :: 0 <= y < height ==> 0 <= m[y] <= height
  {
    BlindsLineDrawn(RowNumbers(height), numsegs, ang, 0);
    BlindsLine(RowNumbers(height), numsegs, ang, 0)
  }

  /** The preview keeps its row numbers in bytes: entry y is (y + 1) modulo
      256, so a preview taller than 255 rows loses row numbers to 0. */
  function PreviewRowNumbers(n: nat): seq<int>
  {
    seq(n, y => (y + 1) % 256)
  }

  /** The row map of the horizontal preview: every entry is 0 or the number
      of an existing row, and fits a byte. */
  function PreviewRowMap(height: int, numsegs: int, ang: real): (m: seq<int>)
    requires height >= 1 && numsegs >= 1 && 0.0 <= ang <= 1.0
    ensures |m| == height
    ensures forall y :: 0 <= y < height ==> 0 <= m[y] <= height && m[y] < 256
  {
    BlindsLineDrawn(PreviewRowNumbers(height), numsegs, ang, 0);
    BlindsLine(PreviewRowNumbers(height), numsegs, ang, 0)
  }

  /** Up to 255 rows the byte row numbers do not wrap and the preview uses
      the row map of the full render. */
  lemma PreviewRowMapAgrees(height: int, numsegs: int, ang: real)
    requires 1 <= height <= 255 && numsegs >= 1 && 0.0 <= ang <= 1.0
    ensures PreviewRowMap(height, numsegs, ang) == RowMap(height, numsegs, ang)
  {
    assert PreviewRowNumbers(height) == RowNumbers(height);
  }
}
