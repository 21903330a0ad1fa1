/** The blinds filter as the plug-in runs it (plug-ins/common/blinds.c): the
    line transform `blindsapply` working in place on pixel rows, with the
    static `fanwidths` table it fills, and the loops of the preview and of
    the full render that apply it to rows or, through an index map, to whole
    rows of the image. A pixel (bpp bytes in the plug-in) is one element of
    type T. */
module Blinds {
  import opened BlindsPlan
  import opened BlindsTransform
  import opened Arith

  /** Rows or columns fetched from the image per chunk. */
  const STEP := 40

  /** Writing index `off + p` of a buffer changes pixel p of the line
      [off, off + n) and nothing outside it. */
  lemma LineWrite<T>(before: seq<T>, after: seq<T>, off: int, n: int, p: int, v: T)
    requires 0 <= off && 0 <= p < n && off + n <= |before| && after == before[off + p := v]
    ensures after[off..off + n] == before[off..off + n][p := v]
    ensures after[..off] == before[..off] && after[off + n..] == before[off + n..]
  {
  }

  /** The size of the chunk that starts at `pos`: STEP, or what is left of
      the `total` rows or columns. */
  function ChunkStep(pos: int, total: int): (step: int)
    requires 0 <= pos < total
    ensures 1 <= step <= STEP && pos + step <= total
    ensures step == STEP || pos + step == total
  {
    if pos + STEP > total then total - pos else STEP
  }

  /** The chunks start at 0, STEP, 2 * STEP, ...: every index below `total`
      lies in exactly one of them. */
  lemma ChunksTile(total: int, r: int)
    requires 0 <= r < total
    ensures var s := (r / STEP) * STEP; 0 <= s <= r < s + ChunkStep(s, total)
    ensures forall j :: 0 <= j * STEP < total && j * STEP <= r < j * STEP + ChunkStep(j * STEP, total) ==> j == r / STEP
  {
    var q := r / STEP;
    assert r == q * STEP + r % STEP;
    forall j | 0 <= j * STEP < total && j * STEP <= r < j * STEP + ChunkStep(j * STEP, total)
      ensures j == q
    {
      DivModUnique(r, STEP, j, r - j * STEP);
    }
  }

  /** Row r of a buffer holding `count` rows of `width` pixels each. */
  function RowAt<T>(buf: seq<T>, width: int, count: int, r: int): (row: seq<T>)
    requires 0 <= r < count && 0 <= width && count * width <= |buf|
    ensures |row| == width
  {
    RowSpan(r, count, width);
    buf[r * width .. r * width + width]
  }

  /** Two buffers that agree on their first n rows agree on each of them. */
  lemma RowAtFrame<T>(b1: seq<T>, b2: seq<T>, width: int, count: int, n: int, r: int)
    requires 0 <= r < n <= count && 0 <= width && count * width <= |b1| && count * width <= |b2|
    requires b1[..n * width] == b2[..n * width]
    ensures RowAt(b1, width, count, r) == RowAt(b2, width, count, r)
  {
    RowSpan(r, n, width);
    var lo := r * width;
    var p1, p2 := b1[..n * width], b2[..n * width];
    assert RowAt(b1, width, count, r) == p1[lo .. lo + width];
    assert RowAt(b2, width, count, r) == p2[lo .. lo + width];
  }

  /** Rows [0, n) of the flat buffer `buf`, `count` rows of `width` pixels,
      are `want[0..n)`. */
  ghost predicate RowsAre<T>(buf: seq<T>, want: seq<seq<T>>, width: int, count: int, n: int)
  {
    0 <= width && 0 <= n <= count && |want| == count && count * width <= |buf|
    && forall k :: 0 <= k < n ==> RowAt(buf, width, count, k) == want[k]
  }

  /** Writing row y, and nothing before it, extends the rows in place by one. */
  lemma RowsAreStep<T>(before: seq<T>, after: seq<T>, want: seq<seq<T>>, width: int, count: int, y: int)
    requires RowsAre(before, want, width, count, y) && y < count
    requires |after| == |before| && 0 <= y * width && y * width + width <= count * width
    requires after[..y * width] == before[..y * width]
    requires after[y * width .. y * width + width] == want[y]
    ensures RowsAre(after, want, width, count, y + 1)
  {
    assert RowAt(after, width, count, y) == after[y * width .. y * width + width];
    forall k | 0 <= k < y
      ensures RowAt(after, width, count, k) == want[k]
    {
      RowAtFrame(after, before, width, count, y, k);
    }
  }

  /** The first n rows of a buffer of rows of `width` pixels. */
  function FirstRows<T>(buf: seq<T>, width: int, n: int): (rows: seq<seq<T>>)
    requires 0 <= n && 0 <= width && n * width <= |buf|
    ensures Rect(rows, n, width)
  {
    seq(n, r requires 0 <= r < n => RowAt(buf, width, n, r))
  }

  function Max(a: int, b: int): int
  {
    if a >= b then a else b
  }

  /** A selection of `height` rows of `width` pixels. */
  ghost predicate Rect<T>(img: seq<seq<T>>, height: int, width: int)
  {
    |img| == height && forall r :: 0 <= r < height ==> |img[r]| == width
  }

  /** Rows laid out one after another, as in a buffer with a rowstride of
      one row. */
  function Flatten<T>(rows: seq<seq<T>>): seq<T>
  {
    if rows == [] then [] else rows[0] + Flatten(rows[1..])
  }

  lemma {:induction false} FlattenLength<T>(rows: seq<seq<T>>, width: int)
    requires Rect(rows, |rows|, width) && width >= 0
    ensures |Flatten(rows)| == |rows| * width
  {
    if rows != [] {
      assert Rect(rows[1..], |rows| - 1, width);
      FlattenLength(rows[1..], width);
      assert |rows| * width == width + (|rows| - 1) * width;
    }
  }

  /** Row r of the laid-out buffer is the r-th row. */
  lemma {:induction false} FlattenRow<T>(rows: seq<seq<T>>, width: int, r: int)
    requires Rect(rows, |rows|, width) && width >= 0 && 0 <= r < |rows|
    ensures |Flatten(rows)| == |rows| * width && RowAt(Flatten(rows), width, |rows|, r) == rows[r]
  {
    FlattenLength(rows, width);
    var rest := Flatten(rows[1..]);
    assert Flatten(rows) == rows[0] + rest;
    assert Rect(rows[1..], |rows| - 1, width);
    FlattenLength(rows[1..], width);
    if r > 0 {
      var lo := (r - 1) * width;
      assert r * width == lo + width;
      RowSpan(r - 1, |rows| - 1, width);
      FlattenRow(rows[1..], width, r - 1);
      assert RowAt(rest, width, |rows| - 1, r - 1) == rest[lo..lo + width];
      assert (rows[0] + rest)[lo + width..lo + width + width] == rest[lo..lo + width];
    } else {
      assert (rows[0] + rest)[..width] == rows[0];
    }
  }

  /** A row of a buffer depends only on the buffer's first `count` rows. */
  lemma RowAtPrefix<T>(buf: seq<T>, pre: seq<T>, width: int, count: int, r: int)
    requires 0 <= r < count && 0 <= width && count * width <= |buf| && pre == buf[..count * width]
    ensures RowAt(buf, width, count, r) == RowAt(pre, width, count, r)
  {
    RowSpan(r, count, width);
  }

  /** `gegl_buffer_get` of the rows [y, y + count) of the selection into
      `buf`, one row every `width` pixels. */
  method GetRows<T>(src: seq<seq<T>>, width: int, y: int, count: int, buf: array<T>)
    requires Rect(src, |src|, width) && width >= 0
    requires 0 <= y && 0 <= count && y + count <= |src| && count * width <= buf.Length
    modifies buf
    ensures buf[..count * width] == Flatten(src[y .. y + count])
    ensures buf[count * width..] == old(buf[count * width..])
  {
    assert Rect(src[y .. y + count], count, width);
    FlattenLength(src[y .. y + count], width);
    var content := Flatten(src[y .. y + count]);
    forall j | 0 <= j < count * width {
      buf[j] := content[j];
    }
  }

  /** The column stripe [x, x + count) of every row. */
  function Stripe<T>(src: seq<seq<T>>, x: int, count: int): (rows: seq<seq<T>>)
    requires 0 <= x && 0 <= count && forall r :: 0 <= r < |src| ==> x + count <= |src[r]|
    ensures Rect(rows, |src|, count)
  {
    seq(|src|, r requires 0 <= r < |src| => src[r][x .. x + count])
  }

  /** `gegl_buffer_get` of the columns [x, x + count) of every row of the
      selection into `buf`, one row every `count` pixels. */
  method GetColumns<T>(src: seq<seq<T>>, width: int, x: int, count: int, buf: array<T>)
    requires Rect(src, |src|, width)
    requires 0 <= x && 0 <= count && x + count <= width && |src| * count <= buf.Length
    modifies buf
    ensures buf[..|src| * count] == Flatten(Stripe(src, x, count))
    ensures buf[|src| * count..] == old(buf[|src| * count..])
  {
    FlattenLength(Stripe(src, x, count), count);
    var content := Flatten(Stripe(src, x, count));
    forall j | 0 <= j < |src| * count {
      buf[j] := content[j];
    }
  }

  /** `gegl_buffer_set` of `rows` at row y. */
  function PutRows<T>(img: seq<seq<T>>, y: int, rows: seq<seq<T>>): (r: seq<seq<T>>)
    requires 0 <= y && y + |rows| <= |img|
    ensures |r| == |img|
    ensures forall k :: 0 <= k < |img| ==> r[k] == if y <= k < y + |rows| then rows[k - y] else img[k]
  {
    img[..y] + rows + img[y + |rows|..]
  }

  /** `gegl_buffer_set` of the column stripe `cols` (one entry per row) at
      column x. */
  function PutColumns<T>(img: seq<seq<T>>, x: int, count: int, cols: seq<seq<T>>): (r: seq<seq<T>>)
    requires |cols| == |img| && 0 <= x && 0 <= count
    requires forall k :: 0 <= k < |img| ==> |cols[k]| == count && x + count <= |img[k]|
    ensures |r| == |img|
    ensures forall k, c :: 0 <= k < |img| && 0 <= c < |img[k]| ==>
      |r[k]| == |img[k]| && r[k][c] == if x <= c < x + count then cols[k][c - x] else img[k][c]
  {
    seq(|img|, k requires 0 <= k < |img| => img[k][..x] + cols[k] + img[k][x + count..])
  }

  /** `memcpy` of n pixels; every source pixel is read before any is
      written. */
  method Copy<T>(from: array<T>, fromOff: int, to: array<T>, toOff: int, n: int)
    requires 0 <= n && 0 <= fromOff && fromOff + n <= from.Length && 0 <= toOff && toOff + n <= to.Length
    modifies to
    ensures to[toOff .. toOff + n] == old(from[fromOff .. fromOff + n])
    ensures to[..toOff] == old(to[..toOff]) && to[toOff + n..] == old(to[toOff + n..])
  {
    forall j | 0 <= j < n {
      to[toOff + j] := from[fromOff + j];
    }
  }

  /** Destination row for row-map entry m: the background row for 0, source
      row m - 1 otherwise. */
  function MappedRow<T>(src: seq<seq<T>>, width: int, bg: T, m: int): seq<T>
    requires 0 <= width && 0 <= m <= |src|
  {
    if m == 0 then Fill(width, bg) else src[m - 1]
  }

  /** The blinds transform of each of the `count` rows of `buf`. */
  function BlindsLines<T>(buf: seq<T>, width: int, count: int, bg: T, numsegs: int, ang: real): (lines: seq<seq<T>>)
    requires width >= 1 && 0 <= count && count * width <= |buf| && numsegs >= 1 && 0.0 <= ang <= 1.0
    ensures |lines| == count
  {
    seq(count, r requires 0 <= r < count => BlindsLine(RowAt(buf, width, count, r), numsegs, ang, bg))
  }

  /** The destination row of each entry of the row map `m`. */
  function MappedRows<T>(src: seq<seq<T>>, width: int, bg: T, m: seq<int>): (rows: seq<seq<T>>)
    requires 0 <= width && forall k :: 0 <= k < |m| ==> 0 <= m[k] <= |src|
    ensures |rows| == |m|
  {
    seq(|m|, k requires 0 <= k < |m| => MappedRow(src, width, bg, m[k]))
  }

  /** One `memcpy` of the row loop: the background row for entry 0, the
      fetched row m - 1 otherwise, written at `doff`. */
  method CopyMappedRow<T>(src: seq<seq<T>>, width: int, x: int, step: int, srcRows: array<T>, dst: array<T>,
                          m: int, desRows: array<T>, doff: int, bg: T)
    requires Rect(src, |src|, width) && 0 <= x && 1 <= step <= STEP && x + step <= width
    requires |src| * step <= srcRows.Length && STEP <= dst.Length
    requires 0 <= doff && doff + step <= desRows.Length
    requires srcRows[..|src| * step] == Flatten(Stripe(src, x, step))
    requires dst[..STEP] == Fill(STEP, bg)
    requires 0 <= m <= |src|
    modifies desRows
    ensures desRows[doff .. doff + step] == MappedRow(src, width, bg, m)[x .. x + step]
    ensures desRows[..doff] == old(desRows[..doff])
  {
    if m == 0 {
      Copy(dst, 0, desRows, doff, step);
      assert Fill(width, bg)[x .. x + step] == old(dst[0 .. step]);
    } else {
      FetchedRow(srcRows[..], src, width, x, step, m - 1);
      Copy(srcRows, step * (m - 1), desRows, doff, step);
    }
  }

  /** Row r of the fetched stripe sits at `step * r` in the stripe buffer. */
  lemma FetchedRow<T>(fetched: seq<T>, src: seq<seq<T>>, width: int, x: int, step: int, r: int)
    requires Rect(src, |src|, width) && 0 <= x && 1 <= step && x + step <= width
    requires |src| * step <= |fetched| && fetched[..|src| * step] == Flatten(Stripe(src, x, step))
    requires 0 <= r < |src|
    ensures 0 <= step * r && step * r + step <= |fetched|
    ensures fetched[step * r .. step * r + step] == src[r][x .. x + step]
  {
    RowSpan(r, |src|, step);
    FlattenRow(Stripe(src, x, step), step, r);
    RowAtPrefix(fetched, Flatten(Stripe(src, x, step)), step, |src|, r);
    assert r * step == step * r;
  }

  /** The row loop of one stripe of horizontal blinds: each destination row
      is the background row `dst` or the fetched row named by the map. */
  method MapStripe<T>(src: seq<seq<T>>, width: int, x: int, step: int, srcRows: array<T>, dst: array<T>,
                      dr: array<int>, desRows: array<T>, bg: T)
    requires Rect(src, |src|, width) && |src| >= 1 && 0 <= x && 1 <= step <= STEP && x + step <= width
    requires |src| * step <= srcRows.Length && |src| * step <= desRows.Length && STEP <= dst.Length
    requires desRows != srcRows && desRows != dst && desRows as object != dr
    requires srcRows[..|src| * step] == Flatten(Stripe(src, x, step))
    requires dst[..STEP] == Fill(STEP, bg)
    requires dr.Length == |src| && forall y :: 0 <= y < |src| ==> 0 <= dr[y] <= |src|
    modifies desRows
    ensures forall r :: 0 <= r < |src| ==>
      RowAt(desRows[..], step, |src|, r) == MappedRow(src, width, bg, dr[r])[x .. x + step]
  {
    var height := |src|;
    var rr := 0;
    while rr < height
      invariant 0 <= rr <= height
      invariant forall r :: 0 <= r < rr ==>
        RowAt(desRows[..], step, height, r) == MappedRow(src, width, bg, dr[r])[x .. x + step]
    {
      RowSpan(rr, height, step);
      ghost var before := desRows[..];
      CopyMappedRow(src, width, x, step, srcRows, dst, dr[rr], desRows, rr * step, bg);
      forall r | 0 <= r < rr
        ensures RowAt(desRows[..], step, height, r) == MappedRow(src, width, bg, dr[r])[x .. x + step]
      {
        RowAtFrame(desRows[..], before, step, height, rr, r);
      }
      rr := rr + 1;
    }
  }

  /** One stripe of horizontal blinds: fetch columns [x, x + step), map
      the rows, write the stripe back. */
  method HorizontalStripe<T>(src: seq<seq<T>>, width: int, x: int, step: int, srcRows: array<T>, dst: array<T>,
                             dr: array<int>, desRows: array<T>, bg: T, img: seq<seq<T>>)
    returns (dest: seq<seq<T>>)
    requires Rect(src, |src|, width) && Rect(img, |src|, width) && |src| >= 1
    requires 0 <= x && 1 <= step <= STEP && x + step <= width
    requires |src| * step <= srcRows.Length && |src| * step <= desRows.Length && STEP <= dst.Length
    requires desRows != srcRows && desRows != dst && desRows as object != dr
    requires srcRows != dst && srcRows as object != dr
    requires dst[..STEP] == Fill(STEP, bg)
    requires dr.Length == |src| && forall y :: 0 <= y < |src| ==> 0 <= dr[y] <= |src|
    modifies srcRows, desRows
    ensures Rect(dest, |src|, width)
    ensures forall r, c :: 0 <= r < |src| && 0 <= c < width ==>
      dest[r][c] == if x <= c < x + step then MappedRow(src, width, bg, dr[r])[c] else img[r][c]
  {
    var height := |src|;
    GetColumns(src, width, x, step, srcRows);
    MapStripe(src, width, x, step, srcRows, dst, dr, desRows, bg);
    var stripe := FirstRows(desRows[..], step, height);
    assert forall r :: 0 <= r < height ==> stripe[r] == MappedRow(src, width, bg, dr[r])[x .. x + step];
    dest := PutColumns(img, x, step, stripe);
    forall r, c | 0 <= r < height && 0 <= c < width
      ensures dest[r][c] == if x <= c < x + step then MappedRow(src, width, bg, dr[r])[c] else img[r][c]
    {
      if x <= c < x + step {
        assert dest[r][c] == stripe[r][c - x];
      }
    }
  }

  /** The stripe loop of horizontal blinds: STEP columns at a time, every
      row of the selection is replaced as the row map says. */
  method HorizontalStripes<T>(src: seq<seq<T>>, width: int, height: int, srcRows: array<T>, dst: array<T>,
                              dr: array<int>, desRows: array<T>, bg: T)
    returns (dest: seq<seq<T>>)
    requires Rect(src, height, width) && height >= 1 && width >= 1
    requires height * STEP <= srcRows.Length && height * STEP <= desRows.Length && STEP <= dst.Length
    requires desRows != srcRows && desRows != dst && desRows as object != dr
    requires srcRows != dst && srcRows as object != dr
    requires dst[..STEP] == Fill(STEP, bg)
    requires dr.Length == height && forall y :: 0 <= y < height ==> 0 <= dr[y] <= height
    modifies srcRows, desRows
    ensures |dest| == height
    ensures forall r :: 0 <= r < height ==> dest[r] == MappedRow(src, width, bg, dr[r])
  {
    dest := src;
    var x := 0;
    while x < width
      invariant 0 <= x
      invariant Rect(dest, height, width)
      invariant forall r, c :: 0 <= r < height && 0 <= c < width && c < x ==>
        dest[r][c] == MappedRow(src, width, bg, dr[r])[c]
    {
      var step := ChunkStep(x, width);
      MulMono(step, STEP, height);
      assert height * step <= height * STEP;
      dest := HorizontalStripe(src, width, x, step, srcRows, dst, dr, desRows, bg, dest);
      x := x + STEP;
    }
    forall r | 0 <= r < height
      ensures dest[r] == MappedRow(src, width, bg, dr[r])
    {
      assert |dest[r]| == width == |MappedRow(src, width, bg, dr[r])|;
    }
  }

  /** Row y of the horizontal preview as the plug-in draws it: an entry 0
      copies buffer row 0, which by then already holds preview row 0. */
  function PreviewRowAsWritten<T>(rows: seq<seq<T>>, width: int, bg: T, m: seq<int>, y: int): seq<T>
    requires 0 <= width && |m| == |rows| && 0 <= y < |m|
    requires forall k :: 0 <= k < |m| ==> 0 <= m[k] <= |rows|
  {
    if m[y] == 0 then MappedRow(rows, width, bg, m[0]) else rows[m[y] - 1]
  }

  /** With the angle 0, three rows and one segment the row map is [1, 2, 0]:
      row 0 is a source row, so the background row 2 of the preview shows
      source row 0 instead of the background the full render draws. */
  lemma PreviewBackgroundRowShowsSourceRow()
    ensures PreviewRowMap(3, 1, 0.0) == [1, 2, 0]
    ensures PreviewRowAsWritten([[7], [8], [9]], 1, 0, PreviewRowMap(3, 1, 0.0), 2) == [7]
    ensures MappedRow([[7], [8], [9]], 1, 0, PreviewRowMap(3, 1, 0.0)[2]) == [0]
  {
    var src := PreviewRowNumbers(3);
    assert src == [1, 2, 3];
    assert Plan(3, 1) == [3] + Plan(0, 0);
    assert Plan(3, 1) == [3];
    assert !OddTail(Plan(3, 1), 0, 0) && !OddTail(Plan(3, 1), 0, 1);
    assert OddTail(Plan(3, 1), 0, 2);
    BlindsLineZeroAngle(src, 1, 0, 0);
    BlindsLineZeroAngle(src, 1, 0, 1);
    BlindsLineZeroAngle(src, 1, 0, 2);
    assert Fill(1, 0) == [0];
  }

  /** Every row of the horizontal preview as the plug-in draws it. */
  function PreviewRowsAsWritten<T>(rows: seq<seq<T>>, width: int, bg: T, m: seq<int>): (out: seq<seq<T>>)
    requires 0 <= width && |m| == |rows|
    requires forall k :: 0 <= k < |m| ==> 0 <= m[k] <= |rows|
    ensures |out| == |m|
  {
    seq(|m|, y requires 0 <= y < |m| => PreviewRowAsWritten(rows, width, bg, m, y))
  }

  /** The row loop of the horizontal preview as written: row y copies the
      thumbnail row the map names, or buffer row 0. */
  method DrawPreviewRowsAsWritten<T>(cache: array<T>, buffer: array<T>, dr: array<int>, width: int, height: int, bg: T)
    requires width >= 1 && height >= 1 && cache.Length == height * width && buffer.Length == height * width
    requires buffer != cache && buffer as object != dr
    requires buffer[0 .. width] == Fill(width, bg)
    requires dr.Length == height && forall k :: 0 <= k < height ==> 0 <= dr[k] <= height
    modifies buffer
    ensures forall y :: 0 <= y < height ==>
      RowAt(buffer[..], width, height, y) == PreviewRowAsWritten(FirstRows(cache[..], width, height), width, bg, dr[..], y)
  {
    ghost var rows := FirstRows(cache[..], width, height);
    ghost var want := PreviewRowsAsWritten(rows, width, bg, dr[..]);
    var y := 0;
    while y < height
      invariant 0 <= y <= height
      invariant y == 0 ==> buffer[0 .. width] == Fill(width, bg)
      invariant RowsAre(buffer[..], want, width, height, y)
    {
      DrawPreviewRowAsWritten(cache, buffer, dr, width, height, bg, y, rows, want);
      y := y + 1;
    }
  }

  /** One iteration of the row loop as written: row y is drawn and the rows
      above it stay as they were. */
  method DrawPreviewRowAsWritten<T>(cache: array<T>, buffer: array<T>, dr: array<int>, width: int, height: int,
                                    bg: T, y: int, ghost rows: seq<seq<T>>, ghost want: seq<seq<T>>)
    requires width >= 1 && height >= 1 && cache.Length == height * width && buffer.Length == height * width
    requires buffer != cache && buffer as object != dr
    requires dr.Length == height && forall k :: 0 <= k < height ==> 0 <= dr[k] <= height
    requires rows == FirstRows(cache[..], width, height) && 0 <= y < height
    requires want == PreviewRowsAsWritten(rows, width, bg, dr[..])
    requires y == 0 ==> buffer[0 .. width] == Fill(width, bg)
    requires RowsAre(buffer[..], want, width, height, y)
    modifies buffer
    ensures RowsAre(buffer[..], want, width, height, y + 1)
  {
    RowSpan(y, height, width);
    ghost var before := buffer[..];
    if dr[y] == 0 {
      assert before[0 .. width] == want[y] by {
        if y > 0 {
          assert before[0 .. width] == RowAt(before, width, height, 0);
        }
      }
      Copy(buffer, 0, buffer, y * width, width);
    } else {
      RowSpan(dr[y] - 1, height, width);
      assert cache[(dr[y] - 1) * width .. (dr[y] - 1) * width + width] == want[y];
      Copy(cache, (dr[y] - 1) * width, buffer, y * width, width);
    }
    RowsAreStep(before, buffer[..], want, width, height, y);
  }


  /** The row loop of the corrected horizontal preview: background rows come
      from `bgRow`. */
  method DrawPreviewRows<T>(cache: array<T>, buffer: array<T>, bgRow: array<T>, dr: array<int>,
                            width: int, height: int, bg: T)
    requires width >= 1 && height >= 1 && cache.Length == height * width && buffer.Length == height * width
    requires buffer != cache && buffer != bgRow && buffer as object != dr
    requires bgRow[..] == Fill(width, bg)
    requires dr.Length == height && forall k :: 0 <= k < height ==> 0 <= dr[k] <= height
    modifies buffer
    ensures forall y :: 0 <= y < height ==>
      RowAt(buffer[..], width, height, y) == MappedRow(FirstRows(cache[..], width, height), width, bg, dr[y])
  {
    ghost var rows := FirstRows(cache[..], width, height);
    ghost var want := MappedRows(rows, width, bg, dr[..]);
    var y := 0;
    while y < height
      invariant 0 <= y <= height
      invariant RowsAre(buffer[..], want, width, height, y)
    {
      DrawPreviewRow(cache, buffer, bgRow, dr, width, height, bg, y, rows, want);
      y := y + 1;
    }
  }

  /** One iteration of the corrected row loop. */
  method DrawPreviewRow<T>(cache: array<T>, buffer: array<T>, bgRow: array<T>, dr: array<int>,
                           width: int, height: int, bg: T, y: int, ghost rows: seq<seq<T>>, ghost want: seq<seq<T>>)
    requires width >= 1 && height >= 1 && cache.Length == height * width && buffer.Length == height * width
    requires buffer != cache && buffer != bgRow && buffer as object != dr
    requires bgRow[..] == Fill(width, bg)
    requires dr.Length == height && forall k :: 0 <= k < height ==> 0 <= dr[k] <= height
    requires rows == FirstRows(cache[..], width, height) && 0 <= y < height
    requires want == MappedRows(rows, width, bg, dr[..])
    requires RowsAre(buffer[..], want, width, height, y)
    modifies buffer
    ensures RowsAre(buffer[..], want, width, height, y + 1)
  {
    RowSpan(y, height, width);
    ghost var before := buffer[..];
    if dr[y] == 0 {
      Copy(bgRow, 0, buffer, y * width, width);
    } else {
      RowSpan(dr[y] - 1, height, width);
      assert want[y] == cache[(dr[y] - 1) * width .. (dr[y] - 1) * width + width];
      Copy(cache, (dr[y] - 1) * width, buffer, y * width, width);
    }
    RowsAreStep(before, buffer[..], want, width, height, y);
  }

  /** The filter's static state: the `fanwidths` table shared by every call
      of `blindsapply`. */
  class BlindsFilter {
    const fanwidths: array<int>

    ghost predicate Valid()
      reads this
    {
      fanwidths.Length == MAX_FANS
    }

    constructor ()
      ensures Valid() && fresh(fanwidths)
    {
      fanwidths := new int[MAX_FANS];
    }

    /** First loop of `blindsapply`: the background fill of the destination
        line. */
    static method FillBackground<T>(drow: array<T>, doff: int, width: int, bg: T)
      requires 0 <= doff && 0 <= width && doff + width <= drow.Length
      modifies drow
      ensures drow[doff..doff + width] == Fill(width, bg)
      ensures drow[..doff] == old(drow[..doff]) && drow[doff + width..] == old(drow[doff + width..])
    {
      var i := 0;
      while i < width
        invariant 0 <= i <= width
        invariant forall j :: doff <= j < doff + i ==> drow[j] == bg
        invariant forall j :: 0 <= j < drow.Length && !(doff <= j < doff + i) ==> drow[j] == old(drow[j])
      {
        drow[doff + i] := bg;
        i := i + 1;
      }
    }

    /** Second loop: each segment width is what is still available divided
        by the number of segments still to come. */
    method ComputeFanwidths(width: int, numsegs: int)
      requires Valid() && 1 <= numsegs <= fanwidths.Length
      modifies fanwidths
      ensures fanwidths[..numsegs] == Plan(width, numsegs)
      ensures fanwidths[numsegs..] == old(fanwidths[numsegs..])
    {
      var available := width;
      var i := 0;
      while i < numsegs
        invariant 0 <= i <= numsegs
        invariant fanwidths[..i] + Plan(available, numsegs - i) == Plan(width, numsegs)
        invariant fanwidths[numsegs..] == old(fanwidths[numsegs..])
      {
        ghost var rest := Plan(available, numsegs - i);
        assert rest == [available / (numsegs - i)] + Plan(available - available / (numsegs - i), numsegs - i - 1);
        fanwidths[i] := available / (numsegs - i);
        available := available - fanwidths[i];
        assert fanwidths[..i + 1] == fanwidths[..i] + [rest[0]];
        i := i + 1;
      }
    }

    /** Third loop: the centre pixel of every segment is copied across. */
    method CopyCentresIn<T>(srow: array<T>, soff: int, drow: array<T>, doff: int, width: int, numsegs: int)
      requires Valid() && 1 <= numsegs <= fanwidths.Length && width >= 1
      requires srow as object != drow && drow as object != fanwidths
      requires 0 <= soff && soff + width <= srow.Length && 0 <= doff && doff + width <= drow.Length
      requires fanwidths[..numsegs] == Plan(width, numsegs)
      modifies drow
      ensures Fits(Plan(width, numsegs), 0, width)
      ensures drow[doff..doff + width]
           == CopyCentres(srow[soff..soff + width], old(drow[doff..doff + width]), Plan(width, numsegs), 0)
      ensures drow[..doff] == old(drow[..doff]) && drow[doff + width..] == old(drow[doff + width..])
    {
      ghost var ws := fanwidths[..numsegs];
      ghost var src := srow[soff..soff + width];
      PlanFits(width, numsegs, 0, width);
      ghost var target := CopyCentres(src, drow[doff..doff + width], ws, 0);
      var available := 0;
      var k := 1;
      assert ws[k - 1..] == ws;
      while k <= numsegs
        invariant 1 <= k <= numsegs + 1
        invariant Fits(ws[k - 1..], available, width)
        invariant CopyCentres(src, drow[doff..doff + width], ws[k - 1..], available) == target
        invariant drow[..doff] == old(drow[..doff]) && drow[doff + width..] == old(drow[doff + width..])
      {
        assert fanwidths[k - 1] == ws[k - 1] == ws[k - 1..][0];
        assert ws[k - 1..][1..] == ws[k..];
        var point := available + fanwidths[k - 1] / 2;
        available := available + fanwidths[k - 1];
        ghost var before := drow[..];
        drow[doff + point] := srow[soff + point];
        LineWrite(before, drow[..], doff, width, point, src[point]);
        k := k + 1;
      }
    }

    /** The displacement loop of one segment [off, off + w) of the line. */
    static method DisplaceSegmentIn<T>(srow: array<T>, soff: int, drow: array<T>, doff: int, width: int,
                                       off: int, w: int, ang: real)
      requires srow != drow && 0.0 <= ang <= 1.0
      requires 0 <= soff && soff + width <= srow.Length && 0 <= doff && doff + width <= drow.Length
      requires 0 <= off && 0 <= w && off + w <= width
      modifies drow
      ensures drow[doff..doff + width]
           == DisplaceSegment(srow[soff..soff + width], old(drow[doff..doff + width]), off, w, ang, 0)
      ensures drow[..doff] == old(drow[..doff]) && drow[doff + width..] == old(drow[doff + width..])
    {
      ghost var src := srow[soff..soff + width];
      ghost var target := DisplaceSegment(src, drow[doff..doff + width], off, w, ang, 0);
      var i := 0;
      while i < w / 2
        invariant 0 <= i <= w / 2
        invariant DisplaceSegment(src, drow[doff..doff + width], off, w, ang, i) == target
        invariant drow[..doff] == old(drow[..doff]) && drow[doff + width..] == old(drow[doff + width..])
      {
        DisplacePair(srow, soff, drow, doff, width, off, w, ang, i);
        i := i + 1;
      }
    }

    /** Iteration i of the displacement loop of the segment [off, off + w):
        the two pixel moves of one step. */
    static method DisplacePair<T>(srow: array<T>, soff: int, drow: array<T>, doff: int, width: int,
                                  off: int, w: int, ang: real, i: int)
      requires srow != drow && 0.0 <= ang <= 1.0
      requires 0 <= soff && soff + width <= srow.Length && 0 <= doff && doff + width <= drow.Length
      requires 0 <= off && 0 <= w && off + w <= width && 0 <= i < w / 2
      modifies drow
      ensures drow[doff..doff + width]
           == DisplaceStep(srow[soff..soff + width], old(drow[doff..doff + width]), off, w, ang, i)
      ensures drow[..doff] == old(drow[..doff]) && drow[doff + width..] == old(drow[doff + width..])
    {
      ghost var src := srow[soff..soff + width];
      ghost var line := drow[doff..doff + width];
      var fw := w / 2;
      var dx := Dx(ang, fw, i);
      ghost var before := drow[..];
      drow[doff + off + i + dx] := srow[soff + off + i];
      LineWrite(before, drow[..], doff, width, off + i + dx, src[off + i]);
      var j := i + 1;
      ghost var right := RightSrc(off, w, i);
      before := drow[..];
      drow[doff + off + w - j - w % 2 - dx] := srow[soff + off + w - j - w % 2];
      LineWrite(before, drow[..], doff, width, right - dx, src[right]);
    }

    /** Last loop: in every segment the left half moves right by dx and the
        mirrored right half moves left by dx. */
    method DisplaceIn<T>(srow: array<T>, soff: int, drow: array<T>, doff: int, width: int, numsegs: int, ang: real)
      requires Valid() && 1 <= numsegs <= fanwidths.Length && width >= 1 && 0.0 <= ang <= 1.0
      requires srow as object != drow && drow as object != fanwidths
      requires 0 <= soff && soff + width <= srow.Length && 0 <= doff && doff + width <= drow.Length
      requires fanwidths[..numsegs] == Plan(width, numsegs)
      requires Fits(Plan(width, numsegs), 0, width)
      modifies drow
      ensures drow[doff..doff + width]
           == DisplaceAll(srow[soff..soff + width], old(drow[doff..doff + width]), Plan(width, numsegs), 0, ang)
      ensures drow[..doff] == old(drow[..doff]) && drow[doff + width..] == old(drow[doff + width..])
    {
      ghost var ws := fanwidths[..numsegs];
      ghost var src := srow[soff..soff + width];
      ghost var target := DisplaceAll(src, drow[doff..doff + width], ws, 0, ang);
      var available := 0;
      var k := 0;
      assert ws[k..] == ws;
      while k < numsegs
        invariant 0 <= k <= numsegs
        invariant Fits(ws[k..], available, width)
        invariant DisplaceAll(src, drow[doff..doff + width], ws[k..], available, ang) == target
        invariant drow[..doff] == old(drow[..doff]) && drow[doff + width..] == old(drow[doff + width..])
      {
        DisplaceSegmentAt(srow, soff, drow, doff, width, numsegs, ang, k, available, ws, target);
        available := available + fanwidths[k];
        k := k + 1;
      }
    }

    /** Iteration k of the last loop: segment k is displaced, and what is left
        to do is the displacement of the segments after it. */
    method DisplaceSegmentAt<T>(srow: array<T>, soff: int, drow: array<T>, doff: int, width: int, numsegs: int,
                                ang: real, k: int, available: int, ghost ws: seq<int>, ghost target: seq<T>)
      requires Valid() && 0 <= k < numsegs <= fanwidths.Length && 0.0 <= ang <= 1.0
      requires srow as object != drow && drow as object != fanwidths
      requires 0 <= soff && soff + width <= srow.Length && 0 <= doff && doff + width <= drow.Length
      requires ws == fanwidths[..numsegs] && Fits(ws[k..], available, width)
      requires DisplaceAll(srow[soff..soff + width], drow[doff..doff + width], ws[k..], available, ang) == target
      modifies drow
      ensures Fits(ws[k + 1..], available + fanwidths[k], width)
      ensures DisplaceAll(srow[soff..soff + width], drow[doff..doff + width], ws[k + 1..], available + fanwidths[k], ang)
           == target
      ensures drow[..doff] == old(drow[..doff]) && drow[doff + width..] == old(drow[doff + width..])
    {
      assert fanwidths[k] == ws[k];
      DisplaceAllAt(srow[soff..soff + width], drow[doff..doff + width], ws, k, available, ang);
      DisplaceSegmentIn(srow, soff, drow, doff, width, available, fanwidths[k], ang);
    }

    /** `blindsapply`: the destination line becomes the blinds transform of
        the source line, and `fanwidths` holds the segment plan. */
    method BlindsApply<T>(srow: array<T>, soff: int, drow: array<T>, doff: int, width: int, bg: T, numsegs: int, ang: real)
      requires Valid() && 1 <= numsegs <= fanwidths.Length && width >= 1 && 0.0 <= ang <= 1.0
      requires srow as object != drow && drow as object != fanwidths && srow as object != fanwidths
      requires 0 <= soff && soff + width <= srow.Length && 0 <= doff && doff + width <= drow.Length
      modifies drow, fanwidths
      ensures drow[doff..doff + width] == BlindsLine(old(srow[soff..soff + width]), numsegs, ang, bg)
      ensures drow[..doff] == old(drow[..doff]) && drow[doff + width..] == old(drow[doff + width..])
      ensures fanwidths[..numsegs] == Plan(width, numsegs)
      ensures fanwidths[numsegs..] == old(fanwidths[numsegs..])
    {
      FillBackground(drow, doff, width, bg);
      ComputeFanwidths(width, numsegs);
      CopyCentresIn(srow, soff, drow, doff, width, numsegs);
      DisplaceIn(srow, soff, drow, doff, width, numsegs, ang);
    }
  
    /** `blindsapply` on each of `count` consecutive rows of `width` pixels:
        the chunk loop of vertical blinds (count = STEP) and the row loop of
        the vertical preview (count = height). */
    method BlindsRows<T>(srcRows: array<T>, desRows: array<T>, width: int, count: int, bg: T, numsegs: int, ang: real)
      requires Valid() && 1 <= numsegs <= fanwidths.Length && width >= 1 && count >= 0 && 0.0 <= ang <= 1.0
      requires srcRows != desRows && desRows as object != fanwidths && srcRows as object != fanwidths
      requires count * width <= srcRows.Length && count * width <= desRows.Length
      modifies desRows, fanwidths
      ensures forall r :: 0 <= r < count ==>
        RowAt(desRows[..], width, count, r) == BlindsLine(RowAt(srcRows[..], width, count, r), numsegs, ang, bg)
      ensures count >= 1 ==> fanwidths[..numsegs] == Plan(width, numsegs)
      ensures fanwidths[numsegs..] == old(fanwidths[numsegs..])
    {
      ghost var want := BlindsLines(srcRows[..], width, count, bg, numsegs, ang);
      var rr := 0;
      while rr < count
        invariant 0 <= rr <= count
        invariant RowsAre(desRows[..], want, width, count, rr)
        invariant rr > 0 ==> fanwidths[..numsegs] == Plan(width, numsegs)
        invariant fanwidths[numsegs..] == old(fanwidths[numsegs..])
      {
        BlindsRow(srcRows, desRows, width, count, rr, bg, numsegs, ang, want);
        rr := rr + 1;
      }
    }

    /** One iteration of the row loop: row rr goes through `blindsapply` and
        the rows above it stay as they were. */
    method BlindsRow<T>(srcRows: array<T>, desRows: array<T>, width: int, count: int, rr: int,
                        bg: T, numsegs: int, ang: real, ghost want: seq<seq<T>>)
      requires Valid() && 1 <= numsegs <= fanwidths.Length && width >= 1 && 0 <= rr < count && 0.0 <= ang <= 1.0
      requires srcRows != desRows && desRows as object != fanwidths && srcRows as object != fanwidths
      requires count * width <= srcRows.Length && count * width <= desRows.Length
      requires want == BlindsLines(srcRows[..], width, count, bg, numsegs, ang)
      requires RowsAre(desRows[..], want, width, count, rr)
      modifies desRows, fanwidths
      ensures RowsAre(desRows[..], want, width, count, rr + 1)
      ensures fanwidths[..numsegs] == Plan(width, numsegs)
      ensures fanwidths[numsegs..] == old(fanwidths[numsegs..])
    {
      RowSpan(rr, count, width);
      ghost var before := desRows[..];
      assert srcRows[rr * width .. rr * width + width] == RowAt(srcRows[..], width, count, rr);
      BlindsApply(srcRows, rr * width, desRows, rr * width, width, bg, numsegs, ang);
      RowsAreStep(before, desRows[..], want, width, count, rr);
    }

    /** Vertical blinds (`apply_blinds`): the selection is fetched STEP rows
        at a time, every row of the chunk buffer goes through `blindsapply`,
        and the first `step` rows are written back. An empty selection leaves
        the drawable alone. */
    method ApplyVertical<T>(src: seq<seq<T>>, width: int, height: int, bg: T, numsegs: int, ang: real)
      returns (dest: seq<seq<T>>)
      requires Valid() && 1 <= numsegs <= fanwidths.Length && 0.0 <= ang <= 1.0
      requires 0 <= width && 0 <= height && Rect(src, height, width)
      modifies fanwidths
      ensures width == 0 || height == 0 ==> dest == src && fanwidths[..] == old(fanwidths[..])
      ensures width >= 1 ==> |dest| == height
      ensures width >= 1 ==> forall r :: 0 <= r < height ==> dest[r] == BlindsLine(src[r], numsegs, ang, bg)
      ensures width >= 1 && height >= 1 ==> fanwidths[..numsegs] == Plan(width, numsegs)
      ensures fanwidths[numsegs..] == old(fanwidths[numsegs..])
    {
      if width == 0 || height == 0 {
        return src;
      }
      var size := Max(width, height) * STEP;
      MulMono(width, Max(width, height), STEP);
      var srcRows := new T[size](_ => bg);
      var desRows := new T[size](_ => bg);
      dest := src;
      var y := 0;
      while y < height
        invariant 0 <= y
        invariant Rect(dest, height, width)
        invariant forall r :: 0 <= r < y && r < height ==> dest[r] == BlindsLine(src[r], numsegs, ang, bg)
        invariant y > 0 ==> fanwidths[..numsegs] == Plan(width, numsegs)
        invariant fanwidths[numsegs..] == old(fanwidths[numsegs..])
      {
        var step := ChunkStep(y, height);
        MulMono(step, STEP, width);
        GetRows(src, width, y, step, srcRows);
        ghost var fetched := srcRows[..];
        BlindsRows(srcRows, desRows, width, STEP, bg, numsegs, ang);
        assert Rect(src[y .. y + step], step, width);
        forall r | 0 <= r < step
          ensures FirstRows(desRows[..], width, step)[r] == BlindsLine(src[y + r], numsegs, ang, bg)
        {
          RowSpan(r, step, width);
          assert FirstRows(desRows[..], width, step)[r] == RowAt(desRows[..], width, STEP, r);
          assert RowAt(srcRows[..], width, STEP, r) == RowAt(fetched, width, step, r);
          FlattenRow(src[y .. y + step], width, r);
          RowAtPrefix(fetched, Flatten(src[y .. y + step]), width, step, r);
          assert src[y .. y + step][r] == src[y + r];
        }
        dest := PutRows(dest, y, FirstRows(desRows[..], width, step));
        y := y + STEP;
      }
    }
  
    /** The row map of horizontal blinds: `sr[y] = y + 1`, then
        `blindsapply` on the integers with a zero background. */
    method MapRows(height: int, numsegs: int, ang: real) returns (dr: array<int>)
      requires Valid() && 1 <= numsegs <= fanwidths.Length && height >= 1 && 0.0 <= ang <= 1.0
      modifies fanwidths
      ensures fresh(dr) && dr[..] == RowMap(height, numsegs, ang)
      ensures fanwidths[..numsegs] == Plan(height, numsegs)
      ensures fanwidths[numsegs..] == old(fanwidths[numsegs..])
    {
      var sr := new int[height];
      dr := new int[height](_ => 0);
      var y := 0;
      while y < height
        invariant 0 <= y <= height
        invariant sr[..y] == RowNumbers(y)
        modifies sr
      {
        sr[y] := y + 1;
        y := y + 1;
      }
      assert sr[..] == sr[..height];
      BlindsApply(sr, 0, dr, 0, height, 0, numsegs, ang);
      assert dr[..] == dr[0..height];
    }

    /** Horizontal blinds (`apply_blinds`): the column of row numbers goes
        through `blindsapply` once, with a zero background, and the result
        serves as the row map for every stripe of STEP columns. */
    method ApplyHorizontal<T>(src: seq<seq<T>>, width: int, height: int, bg: T, numsegs: int, ang: real)
      returns (dest: seq<seq<T>>)
      requires Valid() && 1 <= numsegs <= fanwidths.Length && 0.0 <= ang <= 1.0
      requires 0 <= width && 0 <= height && Rect(src, height, width)
      modifies fanwidths
      ensures width == 0 || height == 0 ==> dest == src && fanwidths[..] == old(fanwidths[..])
      ensures width >= 1 && height >= 1 ==> |dest| == height
      ensures width >= 1 && height >= 1 ==> forall r :: 0 <= r < height ==>
        dest[r] == MappedRow(src, width, bg, RowMap(height, numsegs, ang)[r])
      ensures width >= 1 && height >= 1 ==> fanwidths[..numsegs] == Plan(height, numsegs)
      ensures fanwidths[numsegs..] == old(fanwidths[numsegs..])
    {
      if width == 0 || height == 0 {
        return src;
      }
      var size := Max(width, height) * STEP;
      MulMono(height, Max(width, height), STEP);
      assert height * STEP <= size;
      var srcRows := new T[size](_ => bg);
      var desRows := new T[size](_ => bg);
      var dr := MapRows(height, numsegs, ang);
      var dst := new T[STEP](_ => bg);
      FillBackground(dst, 0, STEP, bg);
      dest := HorizontalStripes(src, width, height, srcRows, dst, dr, desRows, bg);
    }
  
    /** Vertical preview (`dialog_update_preview`): `blindsapply` on every row
        of the thumbnail. */
    method PreviewVertical<T>(cache: array<T>, width: int, height: int, bg: T, numsegs: int, ang: real)
      returns (buffer: array<T>)
      requires Valid() && 1 <= numsegs <= fanwidths.Length && 0.0 <= ang <= 1.0
      requires width >= 1 && height >= 1 && cache.Length == height * width && cache as object != fanwidths
      modifies fanwidths
      ensures fresh(buffer) && buffer.Length == height * width
      ensures forall y :: 0 <= y < height ==>
        RowAt(buffer[..], width, height, y) == BlindsLine(RowAt(cache[..], width, height, y), numsegs, ang, bg)
      ensures fanwidths[..numsegs] == Plan(width, numsegs)
      ensures fanwidths[numsegs..] == old(fanwidths[numsegs..])
    {
      buffer := new T[height * width](_ => bg);
      BlindsRows(cache, buffer, width, height, bg, numsegs, ang);
    }

    /** The byte row numbers and their map for the horizontal preview. */
    method PreviewMapRows(height: int, numsegs: int, ang: real) returns (dr: array<int>)
      requires Valid() && 1 <= numsegs <= fanwidths.Length && height >= 1 && 0.0 <= ang <= 1.0
      modifies fanwidths
      ensures fresh(dr) && dr[..] == PreviewRowMap(height, numsegs, ang)
      ensures fanwidths[..numsegs] == Plan(height, numsegs)
      ensures fanwidths[numsegs..] == old(fanwidths[numsegs..])
    {
      var sr := new int[height];
      dr := new int[height](_ => 0);
      var y := 0;
      while y < height
        invariant 0 <= y <= height
        invariant sr[..y] == PreviewRowNumbers(y)
        modifies sr
      {
        sr[y] := (y + 1) % 256;
        y := y + 1;
      }
      assert sr[..] == sr[..height];
      BlindsApply(sr, 0, dr, 0, height, 0, numsegs, ang);
      assert dr[..] == dr[0..height];
    }

    /** Horizontal preview (`dialog_update_preview`) as written: only buffer
        row 0 is filled with the background, and every background row copies
        buffer row 0 at the time of the copy. */
    method PreviewHorizontal<T>(cache: array<T>, width: int, height: int, bg: T, numsegs: int, ang: real)
      returns (buffer: array<T>)
      requires Valid() && 1 <= numsegs <= fanwidths.Length && 0.0 <= ang <= 1.0
      requires width >= 1 && height >= 1 && cache.Length == height * width && cache as object != fanwidths
      modifies fanwidths
      ensures fresh(buffer) && buffer.Length == height * width
      ensures forall y :: 0 <= y < height ==>
        RowAt(buffer[..], width, height, y)
        == PreviewRowAsWritten(FirstRows(cache[..], width, height), width, bg, PreviewRowMap(height, numsegs, ang), y)
      ensures fanwidths[..numsegs] == Plan(height, numsegs)
      ensures fanwidths[numsegs..] == old(fanwidths[numsegs..])
    {
      buffer := new T[height * width](_ => bg);
      RowSpan(0, height, width);
      FillBackground(buffer, 0, width, bg);
      var dr := PreviewMapRows(height, numsegs, ang);
      DrawPreviewRowsAsWritten(cache, buffer, dr, width, height, bg);
    }

    /** Horizontal preview with its background rows taken from a row of its
        own that nothing overwrites, as the full render does with `dst`:
        every row is the row the map names, and up to 255 rows the preview
        shows exactly the rows of the full render. */
    method PreviewHorizontalCorrected<T>(cache: array<T>, width: int, height: int, bg: T, numsegs: int, ang: real)
      returns (buffer: array<T>)
      requires Valid() && 1 <= numsegs <= fanwidths.Length && 0.0 <= ang <= 1.0
      requires width >= 1 && height >= 1 && cache.Length == height * width && cache as object != fanwidths
      modifies fanwidths
      ensures fresh(buffer) && buffer.Length == height * width
      ensures forall y :: 0 <= y < height ==>
        RowAt(buffer[..], width, height, y)
        == MappedRow(FirstRows(cache[..], width, height), width, bg, PreviewRowMap(height, numsegs, ang)[y])
      ensures height <= 255 ==> forall y :: 0 <= y < height ==>
        RowAt(buffer[..], width, height, y)
        == MappedRow(FirstRows(cache[..], width, height), width, bg, RowMap(height, numsegs, ang)[y])
      ensures fanwidths[..numsegs] == Plan(height, numsegs)
      ensures fanwidths[numsegs..] == old(fanwidths[numsegs..])
    {
      buffer := new T[height * width](_ => bg);
      var bgRow := new T[width](_ => bg);
      FillBackground(bgRow, 0, width, bg);
      var dr := PreviewMapRows(height, numsegs, ang);
      DrawPreviewRows(cache, buffer, bgRow, dr, width, height, bg);
      if height <= 255 {
        PreviewRowMapAgrees(height, numsegs, ang);
      }
    }
  }
}
