/** Grey-level erosion of an RGB image with a window mask (the program calls it dilation, after the dark strokes). */
module Erosion {
  type level = v: int | 0 <= v <= 255

  datatype RGB = RGB(red: level, green: level, blue: level)

  /** Channel 0, 1 or 2 of a pixel. */
  function Channel(p: RGB, k: int): level {
    if k == 0 then p.red else if k == 1 then p.green else p.blue
  }

  function MinRGB(p: RGB, q: RGB): RGB {
    RGB(if p.red < q.red then p.red else q.red, if p.green < q.green then p.green else q.green,
        if p.blue < q.blue then p.blue else q.blue)
  }

  /** Which cells of the window count. */
  type Mask = (int, int) -> bool

  datatype Picture = Picture(pixels: seq<RGB>, width: nat, height: nat) {
    predicate Ok() {
      |pixels| == width * height
    }
  }

  function Reach(size: nat): int {
    (size - 1) / 2
  }

  /** The whole window around row x, column y lies in the picture. */
  predicate Interior(width: nat, height: nat, size: nat, x: int, y: int) {
    && size % 2 == 1
    && Reach(size) <= x < height - Reach(size)
    && Reach(size) <= y < width - Reach(size)
  }

  function Index(width: nat, row: int, col: int): int {
    row * width + col
  }

  lemma IndexInRange(width: nat, height: nat, row: int, col: int)
    requires 0 <= row < height && 0 <= col < width
    ensures 0 <= Index(width, row, col) < width * height
  {
    assert row * width >= 0;
    assert (row + 1) * width <= height * width;
  }

  /** Row-major positions of different cells differ. */
  lemma IndexInjective(width: nat, row: int, col: int, row': int, col': int)
    requires 0 <= col < width && 0 <= col' < width && (row != row' || col != col')
    ensures Index(width, row, col) != Index(width, row', col')
  {
    if row < row' {
      assert (row + 1) * width <= row' * width;
    } else if row' < row {
      assert (row' + 1) * width <= row * width;
    }
  }

  predicate InWindow(size: nat, xk: int, yk: int) {
    0 <= xk < size && 0 <= yk < size
  }

  /** The pixel under window cell (xk, yk) when the window is centred on (x, y). */
  function Under(pic: Picture, size: nat, x: int, y: int, xk: int, yk: int): RGB
    requires pic.Ok() && Interior(pic.width, pic.height, size, x, y) && InWindow(size, xk, yk)
  {
    IndexInRange(pic.width, pic.height, x - Reach(size) + xk, y - Reach(size) + yk);
    pic.pixels[Index(pic.width, x - Reach(size) + xk, y - Reach(size) + yk)]
  }

  /** Channel k of the window, as a grid of numbers. */
  function Cells(pic: Picture, size: nat, x: int, y: int, k: int): (int, int) -> int
    requires pic.Ok() && Interior(pic.width, pic.height, size, x, y)
  {
    (xk: int, yk: int) => if InWindow(size, xk, yk) then Channel(Under(pic, size, x, y, xk, yk), k) else 255
  }

  /** v is the minimum of the selected cells, or 255 when none is selected. */
  ghost predicate IsMinimum(size: nat, mask: Mask, cells: (int, int) -> int, v: int) {
    && (forall xk, yk :: InWindow(size, xk, yk) && mask(xk, yk) ==> v <= cells(xk, yk))
    && (v == 255 || exists xk, yk :: InWindow(size, xk, yk) && mask(xk, yk) && v == cells(xk, yk))
  }

  ghost predicate IsErosion(pic: Picture, size: nat, mask: Mask, x: int, y: int, p: RGB)
    requires pic.Ok() && Interior(pic.width, pic.height, size, x, y)
  {
    forall k :: 0 <= k < 3 ==> IsMinimum(size, mask, Cells(pic, size, x, y, k), Channel(p, k))
  }

  /** The selected cells already visited when the loops stand at (yk, xk). */
  function Visited(mask: Mask, xk: int, yk: int): Mask {
    (xi: int, yi: int) => mask(xi, yi) && (yi < yk || (yi == yk && xi < xk))
  }

  /** One pass of the inner loop body. */
  lemma VisitCell(size: nat, mask: Mask, cells: (int, int) -> int, xk: int, yk: int, v: int, w: int)
    requires InWindow(size, xk, yk) && IsMinimum(size, Visited(mask, xk, yk), cells, v)
    requires w == if mask(xk, yk) && cells(xk, yk) < v then cells(xk, yk) else v
    ensures IsMinimum(size, Visited(mask, xk + 1, yk), cells, w)
  {
    var before, after := Visited(mask, xk, yk), Visited(mask, xk + 1, yk);
    assert forall xi, yi :: after(xi, yi) <==> before(xi, yi) || (mask(xi, yi) && xi == xk && yi == yk);
    if w != v {
      assert after(xk, yk);
    } else if v != 255 {
      var xi, yi :| InWindow(size, xi, yi) && before(xi, yi) && v == cells(xi, yi);
      assert after(xi, yi);
    }
  }

  /** Masks that agree inside the window have the same minimum. */
  lemma SameCells(size: nat, m: Mask, n: Mask, cells: (int, int) -> int, v: int)
    requires forall xi, yi :: InWindow(size, xi, yi) ==> m(xi, yi) == n(xi, yi)
    ensures IsMinimum(size, m, cells, v) ==> IsMinimum(size, n, cells, v)
  {
  }

  ghost predicate AllChannels(pic: Picture, size: nat, mask: Mask, x: int, y: int, xk: int, yk: int, p: RGB)
    requires pic.Ok() && Interior(pic.width, pic.height, size, x, y)
  {
    IsErosion(pic, size, Visited(mask, xk, yk), x, y, p)
  }

  lemma VisitPixel(pic: Picture, size: nat, mask: Mask, x: int, y: int, xk: int, yk: int, p: RGB, q: RGB)
    requires pic.Ok() && Interior(pic.width, pic.height, size, x, y) && InWindow(size, xk, yk)
    requires AllChannels(pic, size, mask, x, y, xk, yk, p)
    requires q == if mask(xk, yk) then MinRGB(Under(pic, size, x, y, xk, yk), p) else p
    ensures AllChannels(pic, size, mask, x, y, xk + 1, yk, q)
  {
    var after := Visited(mask, xk + 1, yk);
    forall k | 0 <= k < 3 ensures IsMinimum(size, after, Cells(pic, size, x, y, k), Channel(q, k)) {
      VisitCell(size, mask, Cells(pic, size, x, y, k), xk, yk, Channel(p, k), Channel(q, k));
    }
  }

  lemma SamePixel(pic: Picture, size: nat, m: Mask, n: Mask, x: int, y: int, p: RGB)
    requires pic.Ok() && Interior(pic.width, pic.height, size, x, y) && IsErosion(pic, size, m, x, y, p)
    requires forall xi, yi :: InWindow(size, xi, yi) ==> m(xi, yi) == n(xi, yi)
    ensures IsErosion(pic, size, n, x, y, p)
  {
    forall k | 0 <= k < 3 ensures IsMinimum(size, n, Cells(pic, size, x, y, k), Channel(p, k)) {
      SameCells(size, m, n, Cells(pic, size, x, y, k), Channel(p, k));
    }
  }

  /** The running minima of one pixel: three accumulators starting at 255 over the two window loops. */
  method SinglePixel(pic: Picture, size: nat, mask: Mask, x: int, y: int) returns (acc: RGB)
    requires pic.Ok() && Interior(pic.width, pic.height, size, x, y)
    ensures IsErosion(pic, size, mask, x, y, acc)
  {
    acc := RGB(255, 255, 255);
    for yk := 0 to size
      invariant AllChannels(pic, size, mask, x, y, 0, yk, acc)
    {
      for xk := 0 to size
        invariant AllChannels(pic, size, mask, x, y, xk, yk, acc)
      {
        ghost var p := acc;
        if mask(xk, yk) {
          acc := MinRGB(Under(pic, size, x, y, xk, yk), acc);
        }
        VisitPixel(pic, size, mask, x, y, xk, yk, p, acc);
      }
      SamePixel(pic, size, Visited(mask, size, yk), Visited(mask, 0, yk + 1), x, y, acc);
    }
    SamePixel(pic, size, Visited(mask, 0, size), mask, x, y, acc);
  }

  /** What the whole pass leaves: interior pixels eroded, each with its own mask, the border as it was. */
  ghost predicate Eroded(pic: Picture, size: nat, masks: (int, int) -> Mask, was: seq<RGB>, now: seq<RGB>,
                         row: int, col: int)
    requires pic.Ok() && |was| == |now| == |pic.pixels| && 0 <= row < pic.height && 0 <= col < pic.width
  {
    IndexInRange(pic.width, pic.height, row, col);
    var i := Index(pic.width, row, col);
    if Interior(pic.width, pic.height, size, row, col) then IsErosion(pic, size, masks(row, col), row, col, now[i])
    else now[i] == was[i]
  }

  /** dilation: the two image loops over the interior, writing the second map. */
  method Dilation(pic: Picture, size: nat, masks: (int, int) -> Mask, newMap: array<RGB>)
    requires pic.Ok() && size % 2 == 1 && newMap.Length == |pic.pixels|
    modifies newMap
    ensures forall row, col :: 0 <= row < pic.height && 0 <= col < pic.width ==>
              Eroded(pic, size, masks, old(newMap[..]), newMap[..], row, col)
  {
    ghost var was := newMap[..];
    var reach := Reach(size);
    var row := reach;
    while row < pic.height - reach
      invariant reach <= row
      invariant Progress(pic, size, masks, was, newMap[..], row, reach)
      decreases pic.height - row
    {
      var col := reach;
      while col < pic.width - reach
        invariant reach <= row < pic.height - reach && reach <= col
        invariant Progress(pic, size, masks, was, newMap[..], row, col)
        decreases pic.width - col
      {
        var p := SinglePixel(pic, size, masks(row, col), row, col);
        IndexInRange(pic.width, pic.height, row, col);
        ghost var now := newMap[..];
        newMap[Index(pic.width, row, col)] := p;
        assert newMap[..] == now[Index(pic.width, row, col) := p];
        WritePixel(pic, size, masks, was, now, row, col, p);
        col := col + 1;
      }
      NextRow(pic, size, masks, was, newMap[..], row, col);
      row := row + 1;
    }
    AllRows(pic, size, masks, was, newMap[..], row);
  }

  /** Reading a picture fills both maps with it, so after a pass the border of the second map is the input's. */
  method DilatePicture(pic: Picture, size: nat, masks: (int, int) -> Mask) returns (newMap: array<RGB>)
    requires pic.Ok() && size % 2 == 1
    ensures fresh(newMap) && newMap.Length == |pic.pixels|
    ensures forall row, col :: 0 <= row < pic.height && 0 <= col < pic.width ==>
              Eroded(pic, size, masks, pic.pixels, newMap[..], row, col)
  {
    newMap := new RGB[|pic.pixels|](i requires 0 <= i < |pic.pixels| => pic.pixels[i]);
    assert newMap[..] == pic.pixels;
    Dilation(pic, size, masks, newMap);
  }

  predicate Before(row: int, col: int, r: int, c: int) {
    r < row || (r == row && c < col)
  }

  ghost predicate CellDone(pic: Picture, size: nat, masks: (int, int) -> Mask, was: seq<RGB>, now: seq<RGB>,
                           row: int, col: int, r: int, c: int)
    requires pic.Ok() && |was| == |now| == |pic.pixels| && 0 <= r < pic.height && 0 <= c < pic.width
  {
    if Before(row, col, r, c) then Eroded(pic, size, masks, was, now, r, c)
    else IndexInRange(pic.width, pic.height, r, c); now[Index(pic.width, r, c)] == was[Index(pic.width, r, c)]
  }

  /** Cells before (row, col) are finished, the others untouched. */
  ghost predicate Progress(pic: Picture, size: nat, masks: (int, int) -> Mask, was: seq<RGB>, now: seq<RGB>,
                           row: int, col: int)
    requires pic.Ok() && |was| == |pic.pixels|
  {
    && |now| == |was|
    && forall r, c :: 0 <= r < pic.height && 0 <= c < pic.width ==> CellDone(pic, size, masks, was, now, row, col, r, c)
  }

  lemma WritePixel(pic: Picture, size: nat, masks: (int, int) -> Mask, was: seq<RGB>, now: seq<RGB>,
                   row: int, col: int, p: RGB)
    requires pic.Ok() && |was| == |pic.pixels| && Interior(pic.width, pic.height, size, row, col)
    requires Progress(pic, size, masks, was, now, row, col) && IsErosion(pic, size, masks(row, col), row, col, p)
    requires 0 <= Index(pic.width, row, col) < |now|
    ensures Progress(pic, size, masks, was, now[Index(pic.width, row, col) := p], row, col + 1)
  {
    var i := Index(pic.width, row, col);
    var now', col' := now[i := p], col + 1;
    forall r, c | 0 <= r < pic.height && 0 <= c < pic.width
      ensures CellDone(pic, size, masks, was, now', row, col', r, c)
    {
      assert CellDone(pic, size, masks, was, now, row, col, r, c);
      IndexInRange(pic.width, pic.height, r, c);
      if r != row || c != col {
        IndexInjective(pic.width, r, c, row, col);
      }
    }
  }

  /** The last columns of a row are border, and so are the first of the next. */
  lemma NextRow(pic: Picture, size: nat, masks: (int, int) -> Mask, was: seq<RGB>, now: seq<RGB>, row: int, col: int)
    requires pic.Ok() && |was| == |pic.pixels| && size % 2 == 1 && col >= pic.width - Reach(size)
    requires Progress(pic, size, masks, was, now, row, col)
    ensures Progress(pic, size, masks, was, now, row + 1, Reach(size))
  {
    var row', col' := row + 1, Reach(size);
    forall r, c | 0 <= r < pic.height && 0 <= c < pic.width
      ensures CellDone(pic, size, masks, was, now, row', col', r, c)
    {
      assert CellDone(pic, size, masks, was, now, row, col, r, c);
    }
  }

  lemma AllRows(pic: Picture, size: nat, masks: (int, int) -> Mask, was: seq<RGB>, now: seq<RGB>, row: int)
    requires pic.Ok() && |was| == |pic.pixels| && size % 2 == 1 && row >= pic.height - Reach(size)
    requires Progress(pic, size, masks, was, now, row, Reach(size))
    ensures forall r, c :: 0 <= r < pic.height && 0 <= c < pic.width ==> Eroded(pic, size, masks, was, now, r, c)
  {
    forall r, c | 0 <= r < pic.height && 0 <= c < pic.width ensures Eroded(pic, size, masks, was, now, r, c) {
      assert CellDone(pic, size, masks, was, now, row, Reach(size), r, c);
    }
  }

  // ----- laws

  /** Smaller cells have a smaller minimum. */
  lemma MonotoneInCells(size: nat, mask: Mask, a: (int, int) -> int, b: (int, int) -> int, v: int, w: int)
    requires forall xk, yk :: InWindow(size, xk, yk) && mask(xk, yk) ==> a(xk, yk) <= b(xk, yk)
    requires IsMinimum(size, mask, a, v) && IsMinimum(size, mask, b, w) && v <= 255
    ensures v <= w
  {
    if w != 255 {
      var xk, yk :| InWindow(size, xk, yk) && mask(xk, yk) && w == b(xk, yk);
      assert v <= a(xk, yk);
    }
  }

  /** A darker picture erodes to a darker picture. */
  lemma MonotoneInPicture(a: Picture, b: Picture, size: nat, mask: Mask, x: int, y: int, p: RGB, q: RGB, k: int)
    requires a.Ok() && b.Ok() && a.width == b.width && a.height == b.height && Interior(a.width, a.height, size, x, y)
    requires 0 <= k < 3 && forall i :: 0 <= i < |a.pixels| ==> Channel(a.pixels[i], k) <= Channel(b.pixels[i], k)
    requires IsErosion(a, size, mask, x, y, p) && IsErosion(b, size, mask, x, y, q)
    ensures Channel(p, k) <= Channel(q, k)
  {
    var f, g := Cells(a, size, x, y, k), Cells(b, size, x, y, k);
    forall xk, yk | InWindow(size, xk, yk) ensures f(xk, yk) <= g(xk, yk) {
      IndexInRange(a.width, a.height, x - Reach(size) + xk, y - Reach(size) + yk);
    }
    MonotoneInCells(size, mask, f, g, Channel(p, k), Channel(q, k));
  }

  /** A larger mask erodes more; with equal masks, the minimum is unique. */
  lemma AntitoneInMask(size: nat, m: Mask, n: Mask, cells: (int, int) -> int, v: int, w: int)
    requires forall xk, yk :: InWindow(size, xk, yk) && m(xk, yk) ==> n(xk, yk)
    requires IsMinimum(size, m, cells, v) && IsMinimum(size, n, cells, w) && w <= 255
    ensures w <= v
  {
    if v != 255 {
      var xk, yk :| InWindow(size, xk, yk) && m(xk, yk) && v == cells(xk, yk);
      assert n(xk, yk);
    }
  }

  // ----- the eight directional masks

  /** kernel0 to kernel7, row by row. */
  function Kernel(direction: int): (k: seq<seq<int>>)
    ensures |k| == 9 && forall i :: 0 <= i < 9 ==> |k[i]| == 9
  {
    match direction
    case 0 => [
      [0, 0, 0, 0, 0, 0, 0, 0, 0],
      [0, 0, 0, 0, 0, 0, 0, 0, 0],
      [0, 0, 0, 0, 0, 0, 0, 0, 0],
      [0, 0, 0, 0, 0, 0, 0, 0, 0],
      [1, 1, 1, 1, 1, 1, 1, 1, 1],
      [0, 0, 0, 0, 0, 0, 0, 0, 0],
      [0, 0, 0, 0, 0, 0, 0, 0, 0],
      [0, 0, 0, 0, 0, 0, 0, 0, 0],
      [0, 0, 0, 0, 0, 0, 0, 0, 0]]
    case 1 => [
      [0, 0, 0, 0, 0, 0, 0, 0, 0],
      [0, 0, 0, 0, 0, 0, 0, 0, 0],
      [0, 0, 0, 0, 0, 0, 0, 0, 2],
      [0, 0, 0, 0, 0, 0, 2, 0, 0],
      [0, 0, 0, 0, 1, 0, 0, 0, 0],
      [0, 0, 2, 0, 0, 0, 0, 0, 0],
      [2, 0, 0, 0, 0, 0, 0, 0, 0],
      [0, 0, 0, 0, 0, 0, 0, 0, 0],
      [0, 0, 0, 0, 0, 0, 0, 0, 0]]
    case 2 => [
      [0, 0, 0, 0, 0, 0, 0, 0, 1],
      [0, 0, 0, 0, 0, 0, 0, 1, 0],
      [0, 0, 0, 0, 0, 0, 1, 0, 0],
      [0, 0, 0, 0, 0, 1, 0, 0, 0],
      [0, 0, 0, 0, 1, 0, 0, 0, 0],
      [0, 0, 0, 1, 0, 0, 0, 0, 0],
      [0, 0, 1, 0, 0, 0, 0, 0, 0],
      [0, 1, 0, 0, 0, 0, 0, 0, 0],
      [1, 0, 0, 0, 0, 0, 0, 0, 0]]
    case 3 => [
      [0, 0, 0, 0, 0, 0, 2, 0, 0],
      [0, 0, 0, 0, 0, 0, 0, 0, 0],
      [0, 0, 0, 0, 0, 2, 0, 0, 0],
      [0, 0, 0, 0, 0, 0, 0, 0, 0],
      [0, 0, 0, 0, 1, 0, 0, 0, 0],
      [0, 0, 0, 0, 0, 0, 0, 0, 0],
      [0, 0, 0, 2, 0, 0, 0, 0, 0],
      [0, 0, 0, 0, 0, 0, 0, 0, 0],
      [0, 0, 2, 0, 0, 0, 0, 0, 0]]
    case 4 => [
      [0, 0, 0, 0, 1, 0, 0, 0, 0],
      [0, 0, 0, 0, 1, 0, 0, 0, 0],
      [0, 0, 0, 0, 1, 0, 0, 0, 0],
      [0, 0, 0, 0, 1, 0, 0, 0, 0],
      [0, 0, 0, 0, 1, 0, 0, 0, 0],
      [0, 0, 0, 0, 1, 0, 0, 0, 0],
      [0, 0, 0, 0, 1, 0, 0, 0, 0],
      [0, 0, 0, 0, 1, 0, 0, 0, 0],
      [0, 0, 0, 0, 1, 0, 0, 0, 0]]
    case 5 => [
      [0, 0, 2, 0, 0, 0, 0, 0, 0],
      [0, 0, 0, 0, 0, 0, 0, 0, 0],
      [0, 0, 0, 2, 0, 0, 0, 0, 0],
      [0, 0, 0, 0, 0, 0, 0, 0, 0],
      [0, 0, 0, 0, 1, 0, 0, 0, 0],
      [0, 0, 0, 0, 0, 0, 0, 0, 0],
      [0, 0, 0, 0, 0, 2, 0, 0, 0],
      [0, 0, 0, 0, 0, 0, 0, 0, 0],
      [0, 0, 0, 0, 0, 0, 2, 0, 0]]
    case 6 => [
      [1, 0, 0, 0, 0, 0, 0, 0, 0],
      [0, 1, 0, 0, 0, 0, 0, 0, 0],
      [0, 0, 1, 0, 0, 0, 0, 0, 0],
      [0, 0, 0, 1, 0, 0, 0, 0, 0],
      [0, 0, 0, 0, 1, 0, 0, 0, 0],
      [0, 0, 0, 0, 0, 1, 0, 0, 0],
      [0, 0, 0, 0, 0, 0, 1, 0, 0],
      [0, 0, 0, 0, 0, 0, 0, 1, 0],
      [0, 0, 0, 0, 0, 0, 0, 0, 1]]
    case _ => [
      [0, 0, 0, 0, 0, 0, 0, 0, 0],
      [0, 0, 0, 0, 0, 0, 0, 0, 0],
      [2, 0, 0, 0, 0, 0, 0, 0, 0],
      [0, 0, 2, 0, 0, 0, 0, 0, 0],
      [0, 0, 0, 0, 1, 0, 0, 0, 0],
      [0, 0, 0, 0, 0, 0, 2, 0, 0],
      [0, 0, 0, 0, 0, 0, 0, 0, 2],
      [0, 0, 0, 0, 0, 0, 0, 0, 0],
      [0, 0, 0, 0, 0, 0, 0, 0, 0]]
  }

  /** The nonzero cells of kernel0 to kernel7: a 9x9 stroke through the centre in one of eight directions. */
  predicate Stroke(direction: int, xk: int, yk: int) {
    var x, y := xk - 4, yk - 4;
    match direction
    case 0 => x == 0
    case 1 => y == -2 * x
    case 2 => y == -x
    case 3 => 2 * y == -x
    case 4 => y == 0
    case 5 => 2 * y == x
    case 6 => y == x
    case _ => y == 2 * x
  }

  /** The threshold ladder on the hue. */
  function DirectionFor(hue: real): int {
    if hue < 22.5 then 0 else if hue < 45.0 then 1 else if hue < 67.5 then 2 else if hue < 90.0 then 3
    else if hue < 112.5 then 4 else if hue < 135.0 then 5 else if hue < 157.5 then 6 else if hue < 180.0 then 7
    else if hue < 202.5 then 0 else if hue < 225.0 then 1 else if hue < 247.5 then 2 else if hue < 270.0 then 3
    else if hue < 292.5 then 4 else if hue < 315.0 then 5 else if hue < 337.5 then 6 else 7
  }

  /** Sixteen equal sectors of 22.5 degrees, opposite ones alike; anything outside counts to the nearest sector. */
  lemma DirectionIsSector(hue: real)
    ensures 0.0 <= hue < 360.0 ==> DirectionFor(hue) == (hue / 22.5).Floor % 8
    ensures hue < 0.0 ==> DirectionFor(hue) == 0
    ensures hue >= 360.0 ==> DirectionFor(hue) == 7
  {
    var s := (hue / 22.5).Floor;
    assert s as real <= hue / 22.5 < s as real + 1.0;
  }

  /** The cells a kernel selects. */
  function StrokeMask(direction: int): Mask {
    (xk: int, yk: int) => InWindow(9, xk, yk) && Kernel(direction)[xk][yk] != 0
  }

  const FULL: Mask := (xk: int, yk: int) => true

  /** Which cells each kernel selects: the 9x9 window's middle row for direction 0, its middle column for direction 4,
      and the strokes of slope one, two and a half for the others. */
  lemma KernelIsStroke(direction: int, xk: int, yk: int)
    requires 0 <= direction < 8 && InWindow(9, xk, yk)
    ensures StrokeMask(direction)(xk, yk) <==> Stroke(direction, xk, yk)
  {
    match direction
    case 0 => Kernel0Cells(xk, yk);
    case 1 => Kernel1Cells(xk, yk);
    case 2 => Kernel2Cells(xk, yk);
    case 3 => Kernel3Cells(xk, yk);
    case 4 => Kernel4Cells(xk, yk);
    case 5 => Kernel5Cells(xk, yk);
    case 6 => Kernel6Cells(xk, yk);
    case 7 => Kernel7Cells(xk, yk);
  }

  lemma Kernel0Cells(xk: int, yk: int)
    requires InWindow(9, xk, yk)
    ensures Kernel(0)[xk][yk] != 0 <==> Stroke(0, xk, yk)
  {
  }

  lemma Kernel1Cells(xk: int, yk: int)
    requires InWindow(9, xk, yk)
    ensures Kernel(1)[xk][yk] != 0 <==> Stroke(1, xk, yk)
  {
  }

  lemma Kernel2Cells(xk: int, yk: int)
    requires InWindow(9, xk, yk)
    ensures Kernel(2)[xk][yk] != 0 <==> Stroke(2, xk, yk)
  {
  }

  lemma Kernel3Cells(xk: int, yk: int)
    requires InWindow(9, xk, yk)
    ensures Kernel(3)[xk][yk] != 0 <==> Stroke(3, xk, yk)
  {
  }

  lemma Kernel4Cells(xk: int, yk: int)
    requires InWindow(9, xk, yk)
    ensures Kernel(4)[xk][yk] != 0 <==> Stroke(4, xk, yk)
  {
  }

  lemma Kernel5Cells(xk: int, yk: int)
    requires InWindow(9, xk, yk)
    ensures Kernel(5)[xk][yk] != 0 <==> Stroke(5, xk, yk)
  {
  }

  lemma Kernel6Cells(xk: int, yk: int)
    requires InWindow(9, xk, yk)
    ensures Kernel(6)[xk][yk] != 0 <==> Stroke(6, xk, yk)
  {
  }

  lemma Kernel7Cells(xk: int, yk: int)
    requires InWindow(9, xk, yk)
    ensures Kernel(7)[xk][yk] != 0 <==> Stroke(7, xk, yk)
  {
  }

  /** The mask the hue map selects for each pixel. */
  function MasksFor(pic: Picture, hues: seq<real>): (int, int) -> Mask
    requires pic.Ok() && |hues| == |pic.pixels|
  {
    (row: int, col: int) =>
      if 0 <= row < pic.height && 0 <= col < pic.width then
        IndexInRange(pic.width, pic.height, row, col);
        StrokeMask(DirectionFor(hues[Index(pic.width, row, col)]))
      else FULL
  }

  function FullMasks(): (int, int) -> Mask {
    (row: int, col: int) => FULL
  }

  /** At every interior pixel and for every hue: full-window erosion <= directional erosion <= input. */
  lemma StrokeSandwich(pic: Picture, hue: real, x: int, y: int, full: RGB, stroke: RGB, k: int)
    requires pic.Ok() && Interior(pic.width, pic.height, 9, x, y) && 0 <= k < 3
    requires IsErosion(pic, 9, FULL, x, y, full) && IsErosion(pic, 9, StrokeMask(DirectionFor(hue)), x, y, stroke)
    ensures 0 <= Index(pic.width, x, y) < |pic.pixels|
    ensures Channel(full, k) <= Channel(stroke, k) <= Channel(pic.pixels[Index(pic.width, x, y)], k)
  {
    var m := StrokeMask(DirectionFor(hue));
    AntitoneInMask(9, m, FULL, Cells(pic, 9, x, y, k), Channel(stroke, k), Channel(full, k));
    KernelIsStroke(DirectionFor(hue), 4, 4);
    assert InWindow(9, 4, 4) && m(4, 4);
    IndexInRange(pic.width, pic.height, x, y);
    assert Under(pic, 9, x, y, 4, 4) == pic.pixels[Index(pic.width, x, y)];
  }

  /** What the two programs make of one picture, for every hue map: at every pixel, border included, the full-window
      result is no brighter than the directional one, and that no brighter than the input. */
  lemma DirectionalSandwich(pic: Picture, hues: seq<real>, full: seq<RGB>, stroke: seq<RGB>, row: int, col: int, k: int)
    requires pic.Ok() && |hues| == |full| == |stroke| == |pic.pixels|
    requires 0 <= row < pic.height && 0 <= col < pic.width && 0 <= k < 3
    requires Eroded(pic, 9, FullMasks(), pic.pixels, full, row, col)
    requires Eroded(pic, 9, MasksFor(pic, hues), pic.pixels, stroke, row, col)
    ensures var i := Index(pic.width, row, col);
            && 0 <= i < |pic.pixels|
            && Channel(full[i], k) <= Channel(stroke[i], k) <= Channel(pic.pixels[i], k)
  {
    IndexInRange(pic.width, pic.height, row, col);
    var i := Index(pic.width, row, col);
    if Interior(pic.width, pic.height, 9, row, col) {
      StrokeSandwich(pic, hues[i], row, col, full[i], stroke[i], k);
    }
  }

  // ----- what a pass leaves, pixel by pixel

  /** Pixel (r, c) lies in the window of the given size around (x, y) and the mask selects it. */
  predicate Selected(size: nat, mask: Mask, x: int, y: int, r: int, c: int) {
    var h := (size - 1) / 2;
    x - h <= r <= x + h && y - h <= c <= y + h && mask(r - x + h, c - y + h)
  }

  function PixelAt(pic: Picture, r: int, c: int): RGB
    requires pic.Ok() && 0 <= r < pic.height && 0 <= c < pic.width
  {
    IndexInRange(pic.width, pic.height, r, c);
    pic.pixels[r * pic.width + c]
  }

  /** A pixel of the picture that the mask selects. */
  predicate Shows(pic: Picture, size: nat, mask: Mask, x: int, y: int, r: int, c: int) {
    0 <= r < pic.height && 0 <= c < pic.width && Selected(size, mask, x, y, r, c)
  }

  /** p is at most every selected pixel, channel by channel, and each channel is that of a selected pixel or 255. */
  ghost predicate LocalMinimum(pic: Picture, size: nat, mask: Mask, x: int, y: int, p: RGB)
    requires pic.Ok()
  {
    && (forall r, c :: Shows(pic, size, mask, x, y, r, c) ==>
          var q := PixelAt(pic, r, c);
          p.red <= q.red && p.green <= q.green && p.blue <= q.blue)
    && (p.red == 255 || exists r, c :: Shows(pic, size, mask, x, y, r, c) && PixelAt(pic, r, c).red == p.red)
    && (p.green == 255 || exists r, c :: Shows(pic, size, mask, x, y, r, c) && PixelAt(pic, r, c).green == p.green)
    && (p.blue == 255 || exists r, c :: Shows(pic, size, mask, x, y, r, c) && PixelAt(pic, r, c).blue == p.blue)
  }

  lemma CellOfPixel(pic: Picture, size: nat, mask: Mask, x: int, y: int, r: int, c: int, k: int)
    requires pic.Ok() && Interior(pic.width, pic.height, size, x, y) && Selected(size, mask, x, y, r, c)
    ensures var xk, yk := r - x + Reach(size), c - y + Reach(size);
            && 0 <= r < pic.height && 0 <= c < pic.width && InWindow(size, xk, yk) && mask(xk, yk)
            && Cells(pic, size, x, y, k)(xk, yk) == Channel(PixelAt(pic, r, c), k)
  {
  }

  lemma PixelOfCell(pic: Picture, size: nat, mask: Mask, x: int, y: int, xk: int, yk: int, k: int)
    requires pic.Ok() && Interior(pic.width, pic.height, size, x, y) && InWindow(size, xk, yk) && mask(xk, yk)
    ensures var r, c := x - Reach(size) + xk, y - Reach(size) + yk;
            && 0 <= r < pic.height && 0 <= c < pic.width && Selected(size, mask, x, y, r, c)
            && Cells(pic, size, x, y, k)(xk, yk) == Channel(PixelAt(pic, r, c), k)
  {
  }

  lemma ChannelAttained(pic: Picture, size: nat, mask: Mask, x: int, y: int, p: RGB, k: int) returns (r: int, c: int)
    requires pic.Ok() && Interior(pic.width, pic.height, size, x, y) && IsErosion(pic, size, mask, x, y, p)
    requires 0 <= k < 3 && Channel(p, k) != 255
    ensures Shows(pic, size, mask, x, y, r, c)
    ensures Channel(PixelAt(pic, r, c), k) == Channel(p, k)
  {
    assert IsMinimum(size, mask, Cells(pic, size, x, y, k), Channel(p, k));
    var xk, yk :| InWindow(size, xk, yk) && mask(xk, yk) && Channel(p, k) == Cells(pic, size, x, y, k)(xk, yk);
    r, c := x - Reach(size) + xk, y - Reach(size) + yk;
    PixelOfCell(pic, size, mask, x, y, xk, yk, k);
  }

  /** The running minima over the window cells are the minima over the pixels the mask selects around (x, y). */
  lemma ErosionIsLocalMinimum(pic: Picture, size: nat, mask: Mask, x: int, y: int, p: RGB)
    requires pic.Ok() && Interior(pic.width, pic.height, size, x, y) && IsErosion(pic, size, mask, x, y, p)
    ensures LocalMinimum(pic, size, mask, x, y, p)
  {
    forall r, c | Shows(pic, size, mask, x, y, r, c)
      ensures var q := PixelAt(pic, r, c);
              p.red <= q.red && p.green <= q.green && p.blue <= q.blue
    {
      forall k | 0 <= k < 3 ensures Channel(p, k) <= Channel(PixelAt(pic, r, c), k) {
        CellOfPixel(pic, size, mask, x, y, r, c, k);
        assert IsMinimum(size, mask, Cells(pic, size, x, y, k), Channel(p, k));
      }
      assert Channel(p, 0) <= Channel(PixelAt(pic, r, c), 0) && Channel(p, 1) <= Channel(PixelAt(pic, r, c), 1);
      assert Channel(p, 2) <= Channel(PixelAt(pic, r, c), 2);
    }
    if p.red != 255 {
      var r, c := ChannelAttained(pic, size, mask, x, y, p, 0);
    }
    if p.green != 255 {
      var r, c := ChannelAttained(pic, size, mask, x, y, p, 1);
    }
    if p.blue != 255 {
      var r, c := ChannelAttained(pic, size, mask, x, y, p, 2);
    }
  }

  /** The cells of the stroke the hue calls for. */
  function HueMask(hue: real): Mask {
    (xk: int, yk: int) => Stroke(DirectionFor(hue), xk, yk)
  }

  /** The directional pass, pixel by pixel: four pixels or more from every edge, each channel is the minimum over the
      stroke that the hue at that very pixel calls for; nearer to an edge the input stays. */
  lemma DirectionalPassExactly(pic: Picture, hues: seq<real>, out: seq<RGB>, row: int, col: int)
    requires pic.Ok() && |hues| == |out| == |pic.pixels| && 0 <= row < pic.height && 0 <= col < pic.width
    requires Eroded(pic, 9, MasksFor(pic, hues), pic.pixels, out, row, col)
    ensures var i := row * pic.width + col;
            && 0 <= i < |out|
            && if 4 <= row < pic.height - 4 && 4 <= col < pic.width - 4
               then LocalMinimum(pic, 9, HueMask(hues[i]), row, col, out[i])
               else out[i] == PixelAt(pic, row, col)
  {
    IndexInRange(pic.width, pic.height, row, col);
    var i := Index(pic.width, row, col);
    if Interior(pic.width, pic.height, 9, row, col) {
      var m, n := StrokeMask(DirectionFor(hues[i])), HueMask(hues[i]);
      forall xk, yk | InWindow(9, xk, yk) ensures m(xk, yk) == n(xk, yk) {
        KernelIsStroke(DirectionFor(hues[i]), xk, yk);
      }
      SamePixel(pic, 9, m, n, row, col, out[i]);
      ErosionIsLocalMinimum(pic, 9, n, row, col, out[i]);
    }
  }

  /** The full-window pass likewise. */
  lemma FullPassExactly(pic: Picture, size: nat, out: seq<RGB>, row: int, col: int)
    requires pic.Ok() && size % 2 == 1 && |out| == |pic.pixels| && 0 <= row < pic.height && 0 <= col < pic.width
    requires Eroded(pic, size, FullMasks(), pic.pixels, out, row, col)
    ensures var i, h := row * pic.width + col, (size - 1) / 2;
            && 0 <= i < |out|
            && if h <= row < pic.height - h && h <= col < pic.width - h
               then LocalMinimum(pic, size, FULL, row, col, out[i])
               else out[i] == PixelAt(pic, row, col)
  {
    IndexInRange(pic.width, pic.height, row, col);
    var i := Index(pic.width, row, col);
    if Interior(pic.width, pic.height, size, row, col) {
      ErosionIsLocalMinimum(pic, size, FULL, row, col, out[i]);
    }
  }
}
