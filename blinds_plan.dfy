/** The segment plan of the blinds filter (plug-ins/common/blinds.c,
    blindsapply, first loop): a line of `width` pixels is cut into `numsegs`
    segments ("fans"); each width is the remaining length divided by the
    remaining number of segments. */
module BlindsPlan {
  import opened Arith

  /** Size of the static `fanwidths` array. */
  const MAX_FANS := 100

  function Sum(ws: seq<int>): int
  {
    if ws == [] then 0 else ws[0] + Sum(ws[1..])
  }

  function Repeat(v: int, n: nat): seq<int>
  {
    seq(n, _ => v)
  }

  /** The widths `fanwidths[0..n)` computed from `available`: each is the
      still available length divided by the number of segments still to come. */
  function Plan(available: int, n: nat): (ws: seq<int>)
    ensures |ws| == n
    decreases n
  {
    if n == 0 then [] else [available / n] + Plan(available - available / n, n - 1)
  }

  lemma {:induction false} SumAppend(a: seq<int>, b: seq<int>)
    ensures Sum(a + b) == Sum(a) + Sum(b)
  {
    if a != [] {
      assert (a + b)[1..] == a[1..] + b;
      SumAppend(a[1..], b);
    } else {
      assert a + b == b;
    }
  }

  lemma {:induction false} SumRepeat(v: int, n: nat)
    ensures Sum(Repeat(v, n)) == v * n
  {
    if n > 0 {
      assert Repeat(v, n)[1..] == Repeat(v, n - 1);
      SumRepeat(v, n - 1);
    }
  }

  /** The widths add up to the line length, whatever the divisibility. */
  lemma {:induction false} PlanSum(width: int, n: nat)
    requires n >= 1
    ensures Sum(Plan(width, n)) == width
    decreases n
  {
    var q := width / n;
    var ws := Plan(width, n);
    assert ws == [q] + Plan(width - q, n - 1);
    assert ws[1..] == Plan(width - q, n - 1);
    assert Sum(ws) == q + Sum(Plan(width - q, n - 1));
    if n > 1 {
      PlanSum(width - q, n - 1);
    } else {
      assert Plan(width - q, 0) == [];
    }
  }

  /** What is left after the first segment, in quotient/remainder form. */
  lemma RestAfterFirst(width: int, n: int)
    requires n >= 2
    ensures width - width / n == (width / n) * (n - 1) + width % n
  {
    var q, r := width / n, width % n;
    assert width == n * q + r;
    assert q * (n - 1) == q * n - q;
  }

  /** Closed form of the plan: `n - width % n` segments of the floor width
      followed by `width % n` segments one pixel wider. */
  lemma {:induction false} PlanShape(width: int, n: nat)
    requires width >= 0 && n >= 1
    ensures Plan(width, n) == Repeat(width / n, n - width % n) + Repeat(width / n + 1, width % n)
    decreases n
  {
    var q, r := width / n, width % n;
    if n == 1 {
      assert q == width && r == 0;
    } else {
      var rest := width - q;
      RestAfterFirst(width, n);
      if r < n - 1 {
        DivModUnique(rest, n - 1, q, r);
        PlanShape(rest, n - 1);
        ShapeFloorFirst(width, n);
      } else {
        assert rest == (q + 1) * (n - 1) by {
          assert q * (n - 1) + (n - 1) == (q + 1) * (n - 1);
        }
        DivModUnique(rest, n - 1, q + 1, 0);
        PlanShape(rest, n - 1);
        ShapeCeilFirst(width, n);
      }
    }
  }

  /** The inductive step of PlanShape when the first segment is a floor one:
      it joins the floor run of the remaining plan. */
  lemma ShapeFloorFirst(width: int, n: int)
    requires width >= 0 && n >= 2 && width % n < n - 1
    requires Plan(width - width / n, n - 1)
      == Repeat(width / n, n - 1 - width % n) + Repeat(width / n + 1, width % n)
    ensures Plan(width, n) == Repeat(width / n, n - width % n) + Repeat(width / n + 1, width % n)
  {
    var q, r := width / n, width % n;
    assert Plan(width, n) == [q] + Plan(width - q, n - 1);
    assert [q] + Repeat(q, n - 1 - r) == Repeat(q, n - r);
    assert [q] + (Repeat(q, n - 1 - r) + Repeat(q + 1, r))
        == ([q] + Repeat(q, n - 1 - r)) + Repeat(q + 1, r);
  }

  /** The inductive step of PlanShape when n - 1 segments are wider: the
      first segment is the only floor one. */
  lemma ShapeCeilFirst(width: int, n: int)
    requires width >= 0 && n >= 2 && width % n == n - 1
    requires Plan(width - width / n, n - 1)
      == Repeat(width / n + 1, n - 1) + Repeat(width / n + 2, 0)
    ensures Plan(width, n) == Repeat(width / n, n - width % n) + Repeat(width / n + 1, width % n)
  {
    var q := width / n;
    assert Plan(width, n) == [q] + Plan(width - q, n - 1);
    assert Repeat(q + 2, 0) == [];
    assert Repeat(q, 1) == [q];
  }

  /** Every width is the floor of width/n, or its ceiling when n does not
      divide width; widths never decrease along the line. */
  lemma PlanBalanced(width: int, n: nat)
    requires width >= 0 && n >= 1
    ensures forall k :: 0 <= k < n ==>
      Plan(width, n)[k] == width / n || (width % n != 0 && Plan(width, n)[k] == width / n + 1)
    ensures forall k, l :: 0 <= k <= l < n ==> Plan(width, n)[k] <= Plan(width, n)[l]
  {
    PlanShape(width, n);
  }

  /** With more segments than pixels the surplus segments are empty and all
      come first, followed by one-pixel segments. */
  lemma PlanMoreSegmentsThanPixels(width: int, n: nat)
    requires 0 <= width < n
    ensures Plan(width, n) == Repeat(0, n - width) + Repeat(1, width)
  {
    PlanShape(width, n);
    DivModUnique(width, n, 0, width);
  }

  /** Offset of segment k: the running `available` of the later loops. */
  function Start(ws: seq<int>, k: nat): int
    requires k <= |ws|
  {
    Sum(ws[..k])
  }

  /** The segments from `off` on lie inside a line of `n` pixels, and so does
      each segment's centre point `off + w / 2`. */
  ghost predicate Fits(ws: seq<int>, off: int, n: int)
  {
    ws == [] ||
    (0 <= off && 0 <= ws[0] && off + ws[0] <= n && off + ws[0] / 2 < n
     && Fits(ws[1..], off + ws[0], n))
  }

  /** The first share `available / m` never exceeds what is available, and
      leaves something over while further segments follow. */
  lemma FirstShare(available: int, m: int)
    requires available >= 1 && m >= 1
    ensures 0 <= available / m <= available
    ensures m >= 2 ==> available / m < available
  {
    DivModBounds(available, m);
    var q := available / m;
    if m >= 2 {
      MulMono(2, m, q);
    }
  }

  /** For a non-empty line every segment and every centre index stays inside
      the line, zero-width segments included (they precede all others). */
  lemma {:induction false} PlanFits(available: int, m: nat, off: int, n: int)
    requires available >= 1 && off >= 0 && off + available <= n
    ensures Fits(Plan(available, m), off, n)
    decreases m
  {
    if m > 0 {
      var q := available / m;
      FirstShare(available, m);
      var ws := Plan(available, m);
      assert ws[0] == q;
      assert ws[1..] == Plan(available - q, m - 1);
      if m > 1 {
        PlanFits(available - q, m - 1, off + q, n);
      } else {
        assert ws[1..] == [];
      }
    }
  }
}
