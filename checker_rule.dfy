/** The pixel rule of the checkerboard filter (plug-ins/common/checkerboard.c,
    checkerboard_func and inblock) as functions: the regular rule compares
    the parities of the check indices of x and y, the "psychobilly" rule
    compares two lookups in a table of alternating runs of lengths
    1, 2, ..., size, size - 1, ..., 1. */
module CheckerRule {
  import opened Arith

  /** Largest value of a `gint`. */
  const GINT_MAX := 0x7fff_ffff

  newtype byte = x: int | 0 <= x < 256

  /** `cell = !cell` on a table cell. */
  function Toggle(cell: int): int
  {
    if cell == 0 then 1 else 0
  }

  function Run(cell: int, n: nat): seq<int>
  {
    seq(n, _ => cell)
  }

  /** The run lengths j, j + 1, ..., size of the first half of the table. */
  function Up(j: nat, size: int): seq<nat>
    decreases size - j
  {
    if j > size then [] else [j] + Up(j + 1, size)
  }

  /** The run lengths j, j - 1, ..., 1 of the second half of the table. */
  function Down(j: int): seq<nat>
    decreases j
  {
    if j < 1 then [] else [j] + Down(j - 1)
  }

  function Total(ls: seq<nat>): nat
  {
    if ls == [] then 0 else ls[0] + Total(ls[1..])
  }

  /** Runs of the lengths `ls`, the first holding `cell` and each following
      one the toggled value: as long as the lengths add up to, and made of
      0s and 1s when `cell` is. */
  function Runs(ls: seq<nat>, cell: int): (r: seq<int>)
    ensures |r| == Total(ls)
    ensures cell == 0 || cell == 1 ==> forall p :: 0 <= p < |r| ==> r[p] == 0 || r[p] == 1
    decreases |ls|
  {
    if ls == [] then [] else Run(cell, ls[0]) + Runs(ls[1..], Toggle(cell))
  }


  lemma {:induction false} TotalAppend(a: seq<nat>, b: seq<nat>)
    ensures Total(a + b) == Total(a) + Total(b)
  {
    if a != [] {
      assert (a + b)[1..] == a[1..] + b;
      TotalAppend(a[1..], b);
    } else {
      assert a + b == b;
    }
  }

  lemma {:induction false} TotalUp(j: nat, size: int)
    requires 1 <= j <= size + 1
    ensures 2 * Total(Up(j, size)) == (size - j + 1) * (size + j)
    decreases size - j
  {
    if j <= size {
      TotalUp(j + 1, size);
      assert (size - j + 1) * (size + j) == 2 * j + (size - j) * (size + j + 1);
    }
  }

  lemma {:induction false} TotalDown(j: int)
    requires j >= 0
    ensures 2 * Total(Down(j)) == j * (j + 1)
    decreases j
  {
    if j >= 1 {
      TotalDown(j - 1);
      assert j * (j + 1) == 2 * j + (j - 1) * j;
    }
  }

  lemma TableLength(size: int)
    requires size >= 1
    ensures Total(Up(1, size) + Down(size - 1)) == size * size
  {
    TotalAppend(Up(1, size), Down(size - 1));
    TotalUp(1, size);
    TotalDown(size - 1);
    assert size * (size + 1) + (size - 1) * size == 2 * (size * size);
  }

  /** The table `in` that `inblock` builds for a check size: the runs fill
      exactly size * size slots. */
  function Table(size: int): (t: seq<int>)
    requires size >= 1
    ensures |t| == size * size
  {
    TableLength(size);
    Runs(Up(1, size) + Down(size - 1), 1)
  }

  /** The 0-based number of the run that slot p of `Runs(ls, _)` lies in. */
  function RunOf(ls: seq<nat>, p: int): nat
    requires 0 <= p < Total(ls)
    decreases |ls|
  {
    if p < ls[0] then 0 else 1 + RunOf(ls[1..], p - ls[0])
  }

  /** Slot p holds the first value in even-numbered runs and the toggled one
      in odd-numbered runs. */
  lemma {:induction false} RunsAt(ls: seq<nat>, cell: int, p: int)
    requires 0 <= p < Total(ls) && (cell == 0 || cell == 1)
    ensures Runs(ls, cell)[p] == if RunOf(ls, p) % 2 == 0 then cell else Toggle(cell)
    decreases |ls|
  {
    if p >= ls[0] {
      RunsAt(ls[1..], Toggle(cell), p - ls[0]);
      assert Toggle(Toggle(cell)) == cell;
    }
  }

  /** A table slot is 1 exactly when it lies in the first, third, fifth, ...
      run. */
  lemma TableAt(size: int, p: int)
    requires size >= 1 && 0 <= p < size * size
    ensures Table(size)[p] == 1 <==> RunOf(Up(1, size) + Down(size - 1), p) % 2 == 0
  {
    TableLength(size);
    RunsAt(Up(1, size) + Down(size - 1), 1, p);
  }

  /** `inblock` replaces size 1 by 2 before using it. */
  function EffectiveSize(size: int): int
  {
    if size == 1 then 2 else size
  }

  /** Largest check size whose table length `size * size` is a `gint`. */
  const MAX_TABLE_SIZE := 46340

  /** Check sizes for which `inblock` computes its table length without
      overflow. */
  predicate SizeFits(size: int)
  {
    1 <= size <= MAX_TABLE_SIZE
  }

  /** SizeFits admits exactly the sizes whose table length is a `gint`. */
  lemma SizeFitsExactly(size: int)
    requires size >= 1
    ensures SizeFits(size) <==> EffectiveSize(size) * EffectiveSize(size) <= GINT_MAX
  {
    var s := EffectiveSize(size);
    if s <= MAX_TABLE_SIZE {
      MulMono(s, MAX_TABLE_SIZE, s);
      MulMono(s, MAX_TABLE_SIZE, MAX_TABLE_SIZE);
    } else {
      MulMono(MAX_TABLE_SIZE + 1, s, s);
      MulMono(MAX_TABLE_SIZE + 1, s, MAX_TABLE_SIZE + 1);
    }
  }

  /** The index `inblock` reads: never the last slot of the table. */
  function LookupIndex(pos: int, size: int): (k: int)
    requires pos >= 0 && SizeFits(size)
    ensures var s := EffectiveSize(size); 0 <= k <= s * s - 2
  {
    var s := EffectiveSize(size);
    MulMono(2, s, s);
    pos % (s * s - 1)
  }

  /** The value `inblock(pos, size)` returns. */
  function InBlock(pos: int, size: int): (v: int)
    requires pos >= 0 && SizeFits(size)
    ensures v == 0 || v == 1
  {
    Table(EffectiveSize(size))[LookupIndex(pos, size)]
  }

  /** inblock is periodic in pos with period size * size - 1. */
  lemma InBlockPeriodic(pos: int, size: int)
    requires pos >= 0 && SizeFits(size)
    ensures var s := EffectiveSize(size);
      InBlock(pos + (s * s - 1), size) == InBlock(pos, size)
  {
    var s := EffectiveSize(size);
    var d := s * s - 1;
    MulMono(2, s, s);
    DivModUnique(pos + d, d, pos / d + 1, pos % d);
  }

  /** Size 1 gives the pattern of size 2. */
  lemma InBlockSizeOne(pos: int)
    requires pos >= 0
    ensures InBlock(pos, 1) == InBlock(pos, 2)
  {
  }

  /** A check size below 1 becomes 1 before any pixel is computed. */
  function ClampSize(size: int): (s: int)
    ensures s >= 1 && (size >= 1 ==> s == size)
  {
    if size < 1 then 1 else size
  }

  /** Whether pixel (x, y) takes the foreground colour. The regular rule is
      `(x / size) & 1 != (y / size) & 1`, where `n & 1` is `n % 2` for the
      non-negative quotients. */
  predicate IsForeground(x: int, y: int, size: int, psychobilly: bool): (fg: bool)
    requires x >= 0 && y >= 0 && size >= 1 && (psychobilly ==> SizeFits(size))
    ensures !psychobilly ==> (fg <==> (x / size + y / size) % 2 == 1)
    ensures psychobilly ==> (fg <==> InBlock(x, size) + InBlock(y, size) == 1)
  {
    if psychobilly then InBlock(x, size) != InBlock(y, size)
    else (x / size) % 2 != (y / size) % 2
  }

  /** In the regular pattern one check further right is the other colour. */
  lemma RegularNextCheck(x: int, y: int, size: int)
    requires x >= 0 && y >= 0 && size >= 1
    ensures IsForeground(x + size, y, size, false) == !IsForeground(x, y, size, false)
  {
    DivModUnique(x + size, size, x / size + 1, x % size);
  }

  /** Both patterns are symmetric in x and y and leave the diagonal in the
      background colour. */
  lemma Symmetric(x: int, y: int, size: int, psychobilly: bool)
    requires x >= 0 && y >= 0 && size >= 1 && (psychobilly ==> SizeFits(size))
    ensures IsForeground(x, y, size, psychobilly) == IsForeground(y, x, size, psychobilly)
    ensures !IsForeground(x, x, size, psychobilly)
  {
  }

  /** In the regular pattern every check is a solid `size` by `size` square:
      each pixel of check (cx, cy) takes the colour given by the parity of
      `cx + cy`. */
  lemma RegularSolidCheck(cx: int, cy: int, size: int, i: int, j: int)
    requires cx >= 0 && cy >= 0 && size >= 1 && 0 <= i < size && 0 <= j < size
    ensures cx * size + i >= 0 && cy * size + j >= 0
    ensures IsForeground(cx * size + i, cy * size + j, size, false) <==> (cx + cy) % 2 == 1
  {
    MulMono(0, cx, size);
    MulMono(0, cy, size);
    DivModUnique(cx * size + i, size, cx, i);
    DivModUnique(cy * size + j, size, cy, j);
  }

  /** The colours of `CheckerboardParam_t`: four bytes each. */
  datatype Param = Param(fg: seq<byte>, bg: seq<byte>)

  predicate ValidParam(param: Param)
  {
    |param.fg| == 4 && |param.bg| == 4
  }

  /** The bytes `checkerboard_func` writes for one pixel: channel b is fg[b]
      or bg[b]. */
  function PixelBytes(param: Param, bpp: int, foreground: bool): (px: seq<byte>)
    requires ValidParam(param) && 0 <= bpp <= 4
    ensures |px| == bpp
    ensures forall b :: 0 <= b < bpp ==> px[b] == if foreground then param.fg[b] else param.bg[b]
  {
    if foreground then param.fg[..bpp] else param.bg[..bpp]
  }

  /** The arguments under which a block of pixels can be drawn. */
  predicate CanDraw(x0: int, y0: int, bpp: int, param: Param, size: int, psychobilly: bool)
  {
    x0 >= 0 && y0 >= 0 && 0 <= bpp <= 4 && ValidParam(param) && size >= 1
    && (psychobilly ==> SizeFits(size))
  }

  /** The bytes of pixel i, in row-major order, of a block `width` pixels
      wide whose top-left pixel is (x0, y0): the point
      (x0 + i % width, y0 + i / width). */
  function PixelOf(x0: int, y0: int, width: int, i: int, bpp: int, param: Param,
                   size: int, psychobilly: bool): (px: seq<byte>)
    requires CanDraw(x0, y0, bpp, param, size, psychobilly) && width >= 1 && i >= 0
    ensures |px| == bpp
  {
    DivModBounds(i, width);
    PixelBytes(param, bpp, IsForeground(x0 + i % width, y0 + i / width, size, psychobilly))
  }

  /** The bytes of the first n pixels of that block. */
  function Pixels(x0: int, y0: int, width: int, n: nat, bpp: int, param: Param,
                  size: int, psychobilly: bool): (r: seq<byte>)
    requires CanDraw(x0, y0, bpp, param, size, psychobilly) && (width >= 1 || n == 0)
    ensures |r| == n * bpp
    decreases n
  {
    if n == 0 then []
    else
      assert (n - 1) * bpp + bpp == n * bpp;
      Pixels(x0, y0, width, n - 1, bpp, param, size, psychobilly)
      + PixelOf(x0, y0, width, n - 1, bpp, param, size, psychobilly)
  }

  /** Drawing more pixels only appends to the block. */
  lemma {:induction false} PixelsPrefix(x0: int, y0: int, width: int, n: nat, m: nat, bpp: int, param: Param,
                                        size: int, psychobilly: bool)
    requires CanDraw(x0, y0, bpp, param, size, psychobilly) && width >= 1 && m <= n
    ensures var whole := Pixels(x0, y0, width, n, bpp, param, size, psychobilly);
      var part := Pixels(x0, y0, width, m, bpp, param, size, psychobilly);
      |part| <= |whole| && whole[..|part|] == part
    decreases n
  {
    if m < n {
      PixelsPrefix(x0, y0, width, n - 1, m, bpp, param, size, psychobilly);
      var front := Pixels(x0, y0, width, n - 1, bpp, param, size, psychobilly);
      var px := PixelOf(x0, y0, width, n - 1, bpp, param, size, psychobilly);
      var part := Pixels(x0, y0, width, m, bpp, param, size, psychobilly);
      assert (front + px)[..|part|] == front[..|part|];
    }
  }

  /** Byte b of pixel i of the first n is byte b of `PixelOf(.., i, ..)`. */
  lemma PixelsAt(x0: int, y0: int, width: int, n: nat, bpp: int, param: Param,
                 size: int, psychobilly: bool, i: int, b: int)
    requires CanDraw(x0, y0, bpp, param, size, psychobilly) && width >= 1
    requires 0 <= i < n && 0 <= b < bpp
    ensures i * bpp + b < |Pixels(x0, y0, width, n, bpp, param, size, psychobilly)|
      && Pixels(x0, y0, width, n, bpp, param, size, psychobilly)[i * bpp + b]
        == PixelOf(x0, y0, width, i, bpp, param, size, psychobilly)[b]
  {
    PixelsPrefix(x0, y0, width, n, i + 1, bpp, param, size, psychobilly);
    var front := Pixels(x0, y0, width, i, bpp, param, size, psychobilly);
    var px := PixelOf(x0, y0, width, i, bpp, param, size, psychobilly);
    assert Pixels(x0, y0, width, i + 1, bpp, param, size, psychobilly) == front + px;
    assert (front + px)[|front| + b] == px[b];
  }

  /** Pixel r * width + c is the point (x0 + c, y0 + r). */
  lemma PixelOfGrid(x0: int, y0: int, width: int, bpp: int, param: Param,
                    size: int, psychobilly: bool, r: int, c: int)
    requires CanDraw(x0, y0, bpp, param, size, psychobilly)
    requires 0 <= r && 0 <= c < width
    ensures r * width + c >= 0
    ensures PixelOf(x0, y0, width, r * width + c, bpp, param, size, psychobilly)
      == PixelBytes(param, bpp, IsForeground(x0 + c, y0 + r, size, psychobilly))
  {
    MulMono(0, r, width);
    DivModUnique(r * width + c, width, r, c);
  }

  /** A block of `width` by `height` pixels shows, at row r and column c,
      the colour of the point (x0 + c, y0 + r). */
  lemma PixelsGrid(x0: int, y0: int, width: nat, height: nat, bpp: int, param: Param,
                   size: int, psychobilly: bool, r: int, c: int, b: int)
    requires CanDraw(x0, y0, bpp, param, size, psychobilly)
    requires 0 <= r < height && 0 <= c < width && 0 <= b < bpp
    ensures (r * width + c) * bpp + b < |Pixels(x0, y0, width, height * width, bpp, param, size, psychobilly)|
      && Pixels(x0, y0, width, height * width, bpp, param, size, psychobilly)[(r * width + c) * bpp + b]
        == PixelBytes(param, bpp, IsForeground(x0 + c, y0 + r, size, psychobilly))[b]
  {
    RowSpan(r, height, width);
    PixelOfGrid(x0, y0, width, bpp, param, size, psychobilly, r, c);
    PixelsAt(x0, y0, width, height * width, bpp, param, size, psychobilly, r * width + c, b);
  }
}
