/** The state and pixel loops of the checkerboard filter
    (plug-ins/common/checkerboard.c): the static table cache of `inblock`,
    `checkerboard_func` writing one pixel into a byte buffer, and the
    preview and render loops of `do_checkerboard_pattern`. */
module Checkerboard {
  import opened Arith
  import opened CheckerRule

  lemma SquareStrict(a: int, b: int)
    requires 0 <= a < b
    ensures a * a < b * b
  {
    MulMono(a, b, a);
    MulMono(a + 1, b, b);
  }

  /** Equal table lengths mean equal sizes. */
  lemma SquareInjective(a: int, b: int)
    requires a >= 0 && b >= 0 && a * a == b * b
    ensures a == b
  {
    if a != b {
      if a < b { SquareStrict(a, b); } else { SquareStrict(b, a); }
    }
  }

  /** After `px` is written at `off` behind the bytes `done`, the buffer
      starts with `done + px`. */
  lemma Splice(after: seq<byte>, before: seq<byte>, off: int, px: seq<byte>, done: seq<byte>)
    requires 0 <= off && off + |px| <= |before| && before[..off] == done
    requires after == before[..off] + px + before[off + |px|..]
    ensures |after| == |before| && after[..off + |px|] == done + px
  {
    assert after[..off + |px|] == (before[..off] + px + before[off + |px|..])[..off + |px|];
  }

  /** The static variables `in` and `len` of `inblock`. */
  class InBlockCache {
    var table: array?<int>
    var len: int
    /** The size the table was built for. */
    ghost var tableSize: int

    ghost predicate Valid()
      reads this, table
    {
      table != null ==>
        tableSize >= 2 && SizeFits(tableSize) && len == tableSize * tableSize
        && table.Length == len && table[..] == Table(tableSize)
    }

    constructor()
      ensures Valid() && table == null && len == -1
    {
      table := null;
      len := -1;
    }

    /** The nested loops that fill the table: runs of lengths 1..size, then
        size - 1..1, starting with 1 and toggled after each run. */
    static method FillTable(t: array<int>, size: int)
      requires size >= 1 && t.Length == size * size
      modifies t
      ensures t[..] == Table(size)
    {
      var i, cell := FillFirstHalf(t, size);
      i := FillSecondHalf(t, size, i, cell);
      assert t[..] == t[..i];
    }

    /** `for (j = 1; j <= size; j++)`: runs of lengths 1, 2, ..., size. */
    static method FillFirstHalf(t: array<int>, size: int) returns (i: int, cell: int)
      requires size >= 1 && t.Length == size * size
      modifies t
      ensures 0 <= i <= t.Length && (cell == 0 || cell == 1)
      ensures t[..i] + Runs(Down(size - 1), cell) == Table(size)
    {
      i := 0;
      cell := 1;
      var j := 1;
      while j <= size
        invariant 1 <= j <= size + 1 && (cell == 0 || cell == 1) && 0 <= i <= t.Length
        invariant t[..i] + Runs(Up(j, size) + Down(size - 1), cell) == Table(size)
      {
        var rest := Up(j + 1, size) + Down(size - 1);
        assert Up(j, size) + Down(size - 1) == [j] + rest;
        i := FillRun(t, i, cell, j, rest, Table(size));
        cell := Toggle(cell);
        j := j + 1;
      }
      assert Up(j, size) + Down(size - 1) == Down(size - 1);
    }

    /** `for (j = size - 1; j >= 1; j--)`: runs of lengths size - 1, ..., 1. */
    static method FillSecondHalf(t: array<int>, size: int, i0: int, cell0: int) returns (i: int)
      requires size >= 1 && t.Length == size * size && 0 <= i0 <= t.Length && (cell0 == 0 || cell0 == 1)
      requires t[..i0] + Runs(Down(size - 1), cell0) == Table(size)
      modifies t
      ensures i == t.Length && t[..i] == Table(size)
    {
      i := i0;
      var cell := cell0;
      var j := size - 1;
      while j >= 1
        invariant 0 <= j <= size - 1 && (cell == 0 || cell == 1) && 0 <= i <= t.Length
        invariant t[..i] + Runs(Down(j), cell) == Table(size)
      {
        assert Down(j) == [j] + Down(j - 1);
        i := FillRun(t, i, cell, j, Down(j - 1), Table(size));
        cell := Toggle(cell);
        j := j - 1;
      }
      assert Down(j) == [];
      assert t[..i] == Table(size);
    }

    /** One `for (k = 0; k < j; k++) in[i++] = cell;` loop. */
    static method FillRun(t: array<int>, i0: int, cell: int, j: nat, rest: seq<nat>, ghost whole: seq<int>)
      returns (i: int)
      requires 0 <= i0 <= t.Length && |whole| == t.Length
      requires t[..i0] + Runs([j] + rest, cell) == whole
      modifies t
      ensures 0 <= i <= t.Length
      ensures t[..i] + Runs(rest, Toggle(cell)) == whole
      ensures i == i0 + j
    {
      assert ([j] + rest)[1..] == rest;
      i := i0;
      var k := 0;
      while k < j
        invariant 0 <= k <= j && i == i0 + k && i <= t.Length
        invariant t[..i] + Run(cell, j - k) + Runs(rest, Toggle(cell)) == whole
      {
        assert Run(cell, j - k) == [cell] + Run(cell, j - k - 1);
        t[i] := cell;
        assert t[..i + 1] == t[..i] + [cell];
        i := i + 1;
        k := k + 1;
      }
    }

    /** `inblock(pos, size)`: the table is rebuilt when `len` no longer
        matches `size * size` (or was never built) and reused otherwise; the
        answer depends on `pos` and `size` alone. */
    method InBlock(pos: int, size: int) returns (v: int)
      requires Valid() && pos >= 0 && SizeFits(size)
      modifies this
      ensures Valid() && v == CheckerRule.InBlock(pos, size)
      ensures table != null && tableSize == EffectiveSize(size)
      ensures old(table) != null && old(len) == EffectiveSize(size) * EffectiveSize(size)
        ==> table == old(table)
      ensures old(table) == null || old(len) != EffectiveSize(size) * EffectiveSize(size)
        ==> fresh(table)
    {
      var s := size;
      if s == 1 {
        s := 2;
      }
      if table != null && len != s * s {
        table := null;
      }
      len := s * s;
      if table == null {
        var t := new int[len];
        FillTable(t, s);
        table := t;
        tableSize := s;
      } else {
        SquareInjective(tableSize, s);
      }
      MulMono(2, s, s);
      v := table[pos % (len - 1)];
    }
  }

  /** The plug-in's settings `cvals` (mode and check size) together with the
      `inblock` cache the pixel rule consults. */
  class CheckerboardFilter {
    var psychobilly: bool
    var size: int
    const cache: InBlockCache

    ghost predicate Valid()
      reads this, cache, cache.table
    {
      cache.Valid()
    }

    constructor(psychobilly: bool, size: int)
      ensures Valid() && this.psychobilly == psychobilly && this.size == size
    {
      this.psychobilly := psychobilly;
      this.size := size;
      cache := new InBlockCache();
    }

    /** A check size below 1 becomes 1, to keep the division defined. */
    method ClampCheckSize()
      modifies this
      ensures size == ClampSize(old(size)) && psychobilly == old(psychobilly)
    {
      if size < 1 {
        size := 1;
      }
    }

    /** The value `val` of `checkerboard_func`: whether (x, y) takes the
        foreground colour. */
    method Decide(x: int, y: int) returns (val: bool)
      requires Valid() && x >= 0 && y >= 0 && size >= 1 && (psychobilly ==> SizeFits(size))
      modifies cache
      ensures Valid() && val == IsForeground(x, y, size, psychobilly)
    {
      if psychobilly {
        var vx := cache.InBlock(x, size);
        var vy := cache.InBlock(y, size);
        val := vx != vy;
      } else {
        var xp := x / size;
        var yp := y / size;
        val := xp % 2 != yp % 2;
      }
    }

    /** The channel loop of `checkerboard_func`: bytes `off .. off + bpp`
        take the chosen colour and no other byte changes. */
    static method WritePixel(dest: array<byte>, off: int, bpp: int, param: Param, val: bool)
      requires ValidParam(param) && 0 <= bpp <= 4 && 0 <= off && off + bpp <= dest.Length
      modifies dest
      ensures dest[..] == old(dest[..off]) + PixelBytes(param, bpp, val) + old(dest[off + bpp..])
    {
      ghost var px := PixelBytes(param, bpp, val);
      var b := 0;
      while b < bpp
        invariant 0 <= b <= bpp
        invariant dest[..off] == old(dest[..off]) && dest[off + b..] == old(dest[off + b..])
        invariant dest[off..off + b] == px[..b]
      {
        dest[off + b] := if val then param.fg[b] else param.bg[b];
        b := b + 1;
      }
      assert dest[..] == dest[..off] + dest[off..off + bpp] + dest[off + bpp..];
    }

    /** `checkerboard_func`: decide the colour of (x, y) and write its first
        `bpp` channels at `dest[off..]`, leaving every other byte alone. */
    method CheckerboardFunc(x: int, y: int, dest: array<byte>, off: int, bpp: int, param: Param)
      requires Valid() && CanDraw(x, y, bpp, param, size, psychobilly)
      requires 0 <= off && off + bpp <= dest.Length
      modifies cache, dest
      ensures Valid()
      ensures dest[..] == old(dest[..off])
        + PixelBytes(param, bpp, IsForeground(x, y, size, psychobilly)) + old(dest[off + bpp..])
    {
      var val := Decide(x, y);
      WritePixel(dest, off, bpp, param, val);
    }

    /** A `checkerboard_func` call for pixel n of a block at (x0, y0): the
        block's first n + 1 pixels are then in place. */
    method DrawPixel(x: int, y: int, buf: array<byte>, off: int, bpp: int, param: Param,
                     ghost x0: int, ghost y0: int, ghost width: int, ghost n: int)
      requires Valid() && width >= 1 && Drawn(buf, off, x0, y0, width, n, bpp, param)
      requires x == x0 + n % width && y == y0 + n / width
      requires off + bpp <= buf.Length
      modifies cache, buf
      ensures Valid() && Drawn(buf, off + bpp, x0, y0, width, n + 1, bpp, param)
    {
      DivModBounds(n, width);
      ghost var before := buf[..];
      ghost var done := Pixels(x0, y0, width, n, bpp, param, size, psychobilly);
      ghost var px := PixelBytes(param, bpp, IsForeground(x, y, size, psychobilly));
      assert PixelOf(x0, y0, width, n, bpp, param, size, psychobilly) == px;
      assert Pixels(x0, y0, width, n + 1, bpp, param, size, psychobilly) == done + px;
      CheckerboardFunc(x, y, buf, off, bpp, param);
      Splice(buf[..], before, off, px, done);
    }

    /** The preview branch of `do_checkerboard_pattern`: after the size clamp,
        pixel i of a `width` by `height` preview at (x1, y1) is the point
        (x1 + i % width, y1 + i / width). */
    method Preview(x1: int, y1: int, width: int, height: int, bpp: int, param: Param)
      returns (buffer: array<byte>)
      requires Valid() && x1 >= 0 && y1 >= 0 && width >= 0 && height >= 0
      requires 0 <= bpp <= 4 && ValidParam(param) && (psychobilly ==> SizeFits(ClampSize(size)))
      modifies this, cache
      ensures Valid() && size == ClampSize(old(size)) && psychobilly == old(psychobilly)
      ensures fresh(buffer)
      ensures buffer[..] == Pixels(x1, y1, width, width * height, bpp, param, size, psychobilly)
    {
      ClampCheckSize();
      buffer := new byte[width * height * bpp];
      DrawPreview(x1, y1, width, height, buffer, bpp, param);
    }

    /** The loop over the preview's pixels, once the buffer exists. */
    method DrawPreview(x1: int, y1: int, width: int, height: int, buffer: array<byte>, bpp: int, param: Param)
      requires Valid() && CanDraw(x1, y1, bpp, param, size, psychobilly) && width >= 0 && height >= 0
      requires buffer.Length == width * height * bpp
      modifies cache, buffer
      ensures Valid()
      ensures buffer[..] == Pixels(x1, y1, width, width * height, bpp, param, size, psychobilly)
    {
      var i := 0;
      while i < width * height
        invariant 0 <= i <= width * height && Valid()
        invariant Drawn(buffer, i * bpp, x1, y1, width, i, bpp, param)
        modifies cache, buffer
      {
        PreviewPixel(x1, y1, width, height, buffer, i, bpp, param);
        i := i + 1;
      }
      assert buffer[..] == buffer[..i * bpp];
    }

    /** One iteration of the preview loop: pixel i goes to byte i * bpp. */
    method PreviewPixel(x1: int, y1: int, width: int, height: int, buffer: array<byte>, i: int,
                        bpp: int, param: Param)
      requires Valid() && width >= 0 && height >= 0
      requires 0 <= i < width * height && buffer.Length == width * height * bpp
      requires Drawn(buffer, i * bpp, x1, y1, width, i, bpp, param)
      modifies cache, buffer
      ensures Valid() && Drawn(buffer, (i + 1) * bpp, x1, y1, width, i + 1, bpp, param)
    {
      PositiveFactor(width, height);
      PixelSlot(i, width * height, bpp);
      DrawPixel(x1 + i % width, y1 + i / width, buffer, i * bpp, bpp, param, x1, y1, width, i);
    }

    /** One region of the full render: row y1, column x1 of a `width` by
        `height` region at (rx, ry) is the point (rx + x1, ry + y1), written
        `y1 * width * bpp + x1 * bpp` bytes into `dest`. */
    method RenderRegion(rx: int, ry: int, width: int, height: int, dest: array<byte>, bpp: int, param: Param)
      requires Valid() && CanDraw(rx, ry, bpp, param, size, psychobilly) && width >= 0 && height >= 0
      requires dest.Length == height * width * bpp
      modifies cache, dest
      ensures Valid()
      ensures dest[..] == Pixels(rx, ry, width, height * width, bpp, param, size, psychobilly)
    {
      var d := 0;
      var y1 := 0;
      while y1 < height
        invariant 0 <= y1 <= height && Valid()
        invariant d == y1 * width * bpp && Drawn(dest, d, rx, ry, width, y1 * width, bpp, param)
        modifies cache, dest
      {
        d := RenderRegionRow(rx, ry, width, height, y1, d, dest, bpp, param);
        y1 := y1 + 1;
      }
      assert dest[..] == dest[..d];
    }

    /** One iteration of the row loop: row y1 is drawn and `d` advances by
        one row of bytes. */
    method RenderRegionRow(rx: int, ry: int, width: int, height: int, y1: int, d0: int, dest: array<byte>,
                           bpp: int, param: Param) returns (d: int)
      requires Valid() && width >= 0 && 0 <= y1 < height && dest.Length == height * width * bpp
      requires d0 == y1 * width * bpp && Drawn(dest, d0, rx, ry, width, y1 * width, bpp, param)
      modifies cache, dest
      ensures Valid() && d == (y1 + 1) * width * bpp
      ensures Drawn(dest, d, rx, ry, width, (y1 + 1) * width, bpp, param)
    {
      RowOffset(y1, width, height, bpp);
      d := RenderRow(rx, ry, width, y1, d0, dest, bpp, param, y1 * width);
      assert y1 * width + width == (y1 + 1) * width;
    }

    /** The first n pixels of a `width`-wide block at (x0, y0) fill
        `buf[..off]`. */
    ghost predicate Drawn(buf: array<byte>, off: int, x0: int, y0: int, width: int, n: int, bpp: int, param: Param)
      reads this, buf
    {
      CanDraw(x0, y0, bpp, param, size, psychobilly) && n >= 0 && (width >= 1 || n == 0)
      && 0 <= off <= buf.Length && buf[..off] == Pixels(x0, y0, width, n, bpp, param, size, psychobilly)
    }

    /** The inner loop over the columns of region row y1, whose pixels are
        numbered from n0 and whose bytes start at d0. */
    method RenderRow(rx: int, ry: int, width: int, y1: int, d0: int, dest: array<byte>,
                     bpp: int, param: Param, ghost n0: int) returns (d: int)
      requires Valid() && 0 <= y1 && width >= 0 && n0 == y1 * width
      requires d0 + width * bpp <= dest.Length
      requires Drawn(dest, d0, rx, ry, width, n0, bpp, param)
      modifies cache, dest
      ensures Valid() && d == d0 + width * bpp
      ensures Drawn(dest, d, rx, ry, width, n0 + width, bpp, param)
    {
      var x1 := 0;
      while x1 < width
        invariant 0 <= x1 <= width && Valid()
        invariant Drawn(dest, d0 + x1 * bpp, rx, ry, width, n0 + x1, bpp, param)
        modifies cache, dest
      {
        RenderPixel(rx, ry, width, y1, x1, d0, dest, bpp, param, n0);
        x1 := x1 + 1;
      }
      assert x1 == width;
      d := d0 + width * bpp;
    }

    /** One iteration of the column loop: column x1 of region row y1 goes
        to byte d0 + x1 * bpp. */
    method RenderPixel(rx: int, ry: int, width: int, y1: int, x1: int, d0: int, dest: array<byte>,
                       bpp: int, param: Param, ghost n0: int)
      requires Valid() && 0 <= y1 && 0 <= x1 < width && n0 == y1 * width
      requires d0 + width * bpp <= dest.Length
      requires Drawn(dest, d0 + x1 * bpp, rx, ry, width, n0 + x1, bpp, param)
      modifies cache, dest
      ensures Valid()
      ensures Drawn(dest, d0 + (x1 + 1) * bpp, rx, ry, width, n0 + x1 + 1, bpp, param)
    {
      ColumnStep(n0, y1, x1, width, bpp);
      DrawPixel(rx + x1, ry + y1, dest, d0 + x1 * bpp, bpp, param, rx, ry, width, n0 + x1);
    }
  }
}
