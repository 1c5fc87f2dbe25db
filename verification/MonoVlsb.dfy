/**
 The monochrome frame buffer: eight vertically adjacent pixels to a byte, lowest bit on top. The
 buffer as a value comes first, with what one pixel write does to every pixel; the class below
 changes it in place. `framebuf` and its only concrete store are one class here.
 */
module MonoVlsb {
  import opened Basics

  const UINT16_LIMIT := 0x1_0000

  // ---------------------------------------------------------------- bits of a byte

  predicate Bit(b: bv8, o: bv8)
    requires o < 8
  {
    (b >> o) & 1 == 1
  }

  function WithBit(b: bv8, o: bv8, on: bool): bv8
    requires o < 8
  {
    (b & !((1 as bv8) << o)) | ((if on then 1 as bv8 else 0 as bv8) << o)
  }

  lemma BitOfWithBit(b: bv8, o: bv8, on: bool, p: bv8)
    requires o < 8 && p < 8
    ensures Bit(WithBit(b, o, on), p) == if p == o then on else Bit(b, p)
  {
  }

  function Offset(y: nat): (o: bv8)
    ensures o < 8
  {
    (y % 8) as bv8
  }

  lemma MaskedBit(b: bv8, o: bv8, m: bv8)
    requires o < 8 && m == (1 as bv8) << o
    ensures Bit(b, o) <==> b & m != 0
    ensures WithBit(b, o, true) == b | m && WithBit(b, o, false) == b & !m
  {
  }

  lemma OffsetMask(y: nat)
    ensures (1 as bv8) << Offset(y) == [1, 2, 4, 8, 16, 32, 64, 128][y % 8]
  {
    var k := y % 8;
    if k < 4 {
      assert if k == 0 then Offset(y) == 0 else if k == 1 then Offset(y) == 1
             else if k == 2 then Offset(y) == 2 else Offset(y) == 3;
    } else {
      assert if k == 4 then Offset(y) == 4 else if k == 5 then Offset(y) == 5
             else if k == 6 then Offset(y) == 6 else Offset(y) == 7;
    }
  }

  /** The bit of a pixel row within its byte: the topmost of eight rows is the lowest bit. */
  lemma LowestBitOnTop(y: nat, b: bv8)
    ensures var m: bv8 := [1, 2, 4, 8, 16, 32, 64, 128][y % 8];
            && (Bit(b, Offset(y)) <==> b & m != 0)
            && WithBit(b, Offset(y), true) == b | m && WithBit(b, Offset(y), false) == b & !m
  {
    OffsetMask(y);
    hide Bit, WithBit, Offset;
    MaskedBit(b, Offset(y), [1, 2, 4, 8, 16, 32, 64, 128][y % 8]);
  }

  lemma OffsetInjective(y: nat, z: nat)
    ensures Offset(y) == Offset(z) <==> y % 8 == z % 8
  {
  }

  lemma MulMonotone(d: nat, a: nat, b: nat)
    requires a <= b
    ensures d * a <= d * b && a * d <= b * d
  {
  }

  // ---------------------------------------------------------------- the buffer as a value

  datatype Geometry = Geometry(width: nat, height: nat, stride: nat, offset: nat) {
    function Pages(): nat {
      height / 8 + if height % 8 != 0 then 1 else 0
    }

    /** Every byte row keeps clear of the next, if there is one, and the last ends within the buffer. */
    predicate Fits(size: nat) {
      && width < UINT16_LIMIT && height < UINT16_LIMIT && (width <= stride || Pages() <= 1)
      && (width > 0 && height > 0 ==> (Pages() - 1) * stride + width + offset <= size)
    }

    /** A pixel of the display, or one of the bits that pad its last byte row. */
    predicate InStore(x: int, y: int) {
      0 <= x < width && 0 <= y < 8 * Pages()
    }

    predicate InDisplay(x: int, y: int) {
      0 <= x < width && 0 <= y < height
    }

    function Index(x: nat, y: nat): nat {
      y / 8 * stride + x + offset
    }
  }

  lemma IndexFits(g: Geometry, size: nat, x: nat, y: nat)
    requires g.Fits(size) && g.InStore(x, y)
    ensures g.Index(x, y) < size
  {
    MulMonotone(g.stride, y / 8, g.Pages() - 1);
  }

  lemma DisplayInStore(g: Geometry, x: int, y: int)
    requires g.InDisplay(x, y)
    ensures g.InStore(x, y)
  {
  }

  lemma RowsApart(s: nat, a: nat, x: nat, b: nat, z: nat)
    requires x < s && z < s && a * s + x == b * s + z
    ensures a == b && x == z
  {
    if a < b {
      MulMonotone(s, a + 1, b);
    } else if b < a {
      MulMonotone(s, b + 1, a);
    }
  }

  lemma IndexInjective(g: Geometry, size: nat, x: nat, y: nat, x': nat, y': nat)
    requires g.Fits(size) && g.InStore(x, y) && g.InStore(x', y')
    ensures g.Index(x, y) == g.Index(x', y') <==> x == x' && y / 8 == y' / 8
  {
    if g.Pages() <= 1 {
      assert y / 8 == 0 && y' / 8 == 0;
    } else if g.Index(x, y) == g.Index(x', y') {
      RowsApart(g.stride, y / 8, x, y' / 8, x');
    }
  }

  /** In a buffer of this size every display pixel has a place, and no two have the same bit. */
  ghost predicate Usable(g: Geometry, size: nat) {
    && (forall x, y :: g.InDisplay(x, y) ==> g.Index(x, y) < size)
    && (forall x, y, x', y' :: g.InDisplay(x, y) && g.InDisplay(x', y') && (x, y) != (x', y') ==>
          g.Index(x, y) != g.Index(x', y') || y % 8 != y' % 8)
  }

  /** `Fits` is that, in numbers. */
  lemma FitsMeansUsable(g: Geometry, size: nat)
    requires g.width < UINT16_LIMIT && g.height < UINT16_LIMIT
    ensures g.Fits(size) <==> Usable(g, size)
  {
    if g.Fits(size) {
      FitsIsUsable(g, size);
    } else if g.width > 0 && g.height > 0 {
      if g.width > g.stride && g.Pages() > 1 {
        assert g.InDisplay(g.stride, 0) && g.InDisplay(0, 8);
        assert g.Index(g.stride, 0) == g.Index(0, 8);
      } else {
        assert g.InDisplay(g.width - 1, g.height - 1);
        assert (g.height - 1) / 8 == g.Pages() - 1;
        assert g.Index(g.width - 1, g.height - 1) >= size;
      }
    }
  }

  lemma FitsIsUsable(g: Geometry, size: nat)
    requires g.Fits(size)
    ensures Usable(g, size)
  {
    hide Geometry.Fits, Geometry.Index;
    forall x, y | g.InDisplay(x, y)
      ensures g.Index(x, y) < size
    {
      IndexFits(g, size, x, y);
    }
    forall x, y, x', y' | g.InDisplay(x, y) && g.InDisplay(x', y') && (x, y) != (x', y')
      ensures g.Index(x, y) != g.Index(x', y') || y % 8 != y' % 8
    {
      IndexInjective(g, size, x, y, x', y');
    }
  }

  /** The rows are as far apart as they are long, or there are no two rows to keep apart. */
  predicate RowsClear(g: Geometry) {
    g.stride == g.width || g.width == 0 || g.Pages() <= 1
  }

  lemma LastRowFits(w: nat, n: nat, stride: nat)
    requires w > 0 && n > 0 && w <= stride
    ensures n * stride + w <= w * (n + 1) <==> stride == w
  {
    if stride > w {
      MulMonotone(n, w + 1, stride);
      assert n * (w + 1) == n * w + n && w * (n + 1) == n * w + w;
    }
  }

  /** A buffer of the size that is allocated is usable exactly when the rows are clear. */
  lemma AllocationFits(g: Geometry)
    requires g.width < UINT16_LIMIT && g.height < UINT16_LIMIT
    ensures Usable(g, g.width * g.Pages() + g.offset) <==> RowsClear(g)
  {
    FitsMeansUsable(g, g.width * g.Pages() + g.offset);
    hide Usable;
    if g.width > 0 && g.Pages() > 1 && g.width <= g.stride {
      LastRowFits(g.width, g.Pages() - 1, g.stride);
    }
  }

  /** The row coordinate after `k` increments of 16 bits. */
  function Row(y: nat, k: nat): nat {
    (y + k) % UINT16_LIMIT
  }

  /** Bit `o` of byte `b` is one of the `w` bits from (x, row) on. */
  predicate InRow(g: Geometry, x: nat, row: nat, w: nat, b: int, o: bv8) {
    o == Offset(row) && g.Index(x, row) <= b < g.Index(x, row) + w
  }

  /** ... or is so for one of the `h` rows from `y` on. */
  predicate InRows(g: Geometry, x: nat, y: nat, w: nat, h: nat, b: int, o: bv8) {
    h > 0 && (InRows(g, x, y, w, h - 1, b, o) || InRow(g, x, Row(y, h - 1), w, b, o))
  }

  /** The row counter has 16 bits: behind row 65535 comes row 0. */
  lemma RowWraps(y: nat, k: nat)
    requires y < 65536 && k < 65536
    ensures Row(y, k) == if y + k < 65536 then y + k else y + k - 65536
  {
  }

  /** The bits of a rectangle, row by row: bit `row % 8` of `w` bytes, from byte `x` of the row's byte row on. */
  lemma {:induction false} RowsInBits(g: Geometry, x: nat, y: nat, w: nat, h: nat, b: int, o: bv8)
    ensures InRows(g, x, y, w, h, b, o) <==>
            exists k :: 0 <= k < h &&
              var row, start := Row(y, k), Row(y, k) / 8 * g.stride + x + g.offset;
              o as int == row % 8 && start <= b < start + w
  {
    if h > 0 {
      RowsInBits(g, x, y, w, h - 1, b, o);
      OffsetIsRow(Row(y, h - 1), o);
    }
  }

  lemma OffsetIsRow(row: nat, o: bv8)
    ensures o == Offset(row) <==> o as int == row % 8
  {
  }

  /** The bits of the rectangle have the colour, all others are as before. */
  ghost predicate Painted(g: Geometry, before: seq<bv8>, now: seq<bv8>, x: nat, y: nat, w: nat, h: nat, on: bool) {
    && |now| == |before|
    && forall b, o :: 0 <= b < |now| && o < 8 ==>
         Bit(now[b], o) == if InRows(g, x, y, w, h, b, o) then on else Bit(before[b], o)
  }

  lemma RowIsPixels(g: Geometry, size: nat, x: nat, row: nat, w: nat, x': nat, y': nat)
    requires g.Fits(size) && x + w <= g.width && row < g.height && g.InStore(x', y')
    ensures InRow(g, x, row, w, g.Index(x', y'), Offset(y')) <==> x <= x' < x + w && y' == row
  {
    OffsetInjective(row, y');
    hide Offset, Geometry.Fits, Geometry.InStore, Geometry.Pages;
    if InRow(g, x, row, w, g.Index(x', y'), Offset(y')) {
      var col := x + (g.Index(x', y') - g.Index(x, row));
      assert g.Index(col, row) == g.Index(x', y');
      DisplayInStore(g, col, row);
      IndexInjective(g, size, col, row, x', y');
    }
  }

  /** For a rectangle on the display the bits are its pixels. */
  lemma {:induction false} RowsArePixels(g: Geometry, size: nat, x: nat, y: nat, w: nat, h: nat, x': nat, y': nat)
    requires g.Fits(size) && x + w <= g.width && y + h <= g.height && g.InStore(x', y')
    ensures InRows(g, x, y, w, h, g.Index(x', y'), Offset(y')) <==> x <= x' < x + w && y <= y' < y + h
    decreases h
  {
    if h > 0 {
      assert Row(y, h - 1) == y + h - 1;
      hide InRow, Row, Offset, Geometry.Fits, Geometry.InStore, Geometry.Index;
      RowsArePixels(g, size, x, y, w, h - 1, x', y');
      RowIsPixels(g, size, x, y + h - 1, w, x', y');
    }
  }

  lemma PaintedPixels(g: Geometry, before: seq<bv8>, now: seq<bv8>, x: nat, y: nat, w: nat, h: nat, on: bool)
    requires g.Fits(|before|) && x + w <= g.width && y + h <= g.height
    requires Painted(g, before, now, x, y, w, h, on)
    ensures forall x', y' :: g.InStore(x', y') ==>
              Pixel(g, now, x', y') == if x <= x' < x + w && y <= y' < y + h then on else Pixel(g, before, x', y')
  {
    hide Bit, Offset, Geometry.Fits, Geometry.Index, Geometry.InStore, InRows;
    forall x', y' | g.InStore(x', y')
      ensures Pixel(g, now, x', y') == if x <= x' < x + w && y <= y' < y + h then on else Pixel(g, before, x', y')
    {
      assert x' >= 0 && y' >= 0 by { InStoreIsNat(g, x', y'); }
      IndexFits(g, |before|, x', y');
      RowsArePixels(g, |before|, x, y, w, h, x', y');
    }
  }

  lemma InStoreIsNat(g: Geometry, x: int, y: int)
    requires g.InStore(x, y)
    ensures x >= 0 && y >= 0
  {
  }

  function Pixel(g: Geometry, buf: seq<bv8>, x: int, y: int): bool
    requires g.Fits(|buf|) && g.InStore(x, y)
  {
    IndexFits(g, |buf|, x, y);
    Bit(buf[g.Index(x, y)], Offset(y))
  }

  lemma AllDark(g: Geometry, buf: seq<bv8>)
    requires g.Fits(|buf|) && forall i :: 0 <= i < |buf| ==> buf[i] == 0
    ensures forall x, y :: g.InStore(x, y) ==> !Pixel(g, buf, x, y)
  {
    hide Geometry.Index, Geometry.Fits, Offset;
    forall x, y | g.InStore(x, y)
      ensures !Pixel(g, buf, x, y)
    {
      IndexFits(g, |buf|, x, y);
    }
  }

  function PutPixel(g: Geometry, buf: seq<bv8>, x: int, y: int, on: bool): (buf': seq<bv8>)
    requires g.Fits(|buf|) && g.InStore(x, y)
    ensures |buf'| == |buf|
  {
    IndexFits(g, |buf|, x, y);
    buf[g.Index(x, y) := WithBit(buf[g.Index(x, y)], Offset(y), on)]
  }

  lemma PixelOfPut(g: Geometry, buf: seq<bv8>, x: int, y: int, on: bool, x': int, y': int)
    requires g.Fits(|buf|) && g.InStore(x, y) && g.InStore(x', y')
    ensures Pixel(g, PutPixel(g, buf, x, y, on), x', y') == if x' == x && y' == y then on else Pixel(g, buf, x', y')
  {
    hide Bit, WithBit, Offset;
    IndexFits(g, |buf|, x, y);
    IndexFits(g, |buf|, x', y');
    IndexInjective(g, |buf|, x, y, x', y');
    OffsetInjective(y, y');
    BitOfWithBit(buf[g.Index(x, y)], Offset(y), on, Offset(y'));
  }

  /** Writing one pixel changes that pixel and no other, not even one in the same byte. */
  lemma PutChangesOnePixel(g: Geometry, buf: seq<bv8>, x: int, y: int, on: bool)
    requires g.Fits(|buf|) && g.InStore(x, y)
    ensures forall x', y' :: g.InStore(x', y') ==>
              Pixel(g, PutPixel(g, buf, x, y, on), x', y') == if x' == x && y' == y then on else Pixel(g, buf, x', y')
  {
    hide Pixel, PutPixel;
    forall x', y' | g.InStore(x', y')
      ensures Pixel(g, PutPixel(g, buf, x, y, on), x', y') == if x' == x && y' == y then on else Pixel(g, buf, x', y')
    {
      PixelOfPut(g, buf, x, y, on, x', y');
    }
  }

  // ---------------------------------------------------------------- lines

  /** A line from one end point to the other, in the terms of its longer and its shorter extent. */
  datatype Line = Line(x1: nat, y1: nat, x2: nat, y2: nat) {
    function Dx(): nat {
      if x2 > x1 then x2 - x1 else x1 - x2
    }

    function Dy(): nat {
      if y2 > y1 then y2 - y1 else y1 - y2
    }

    predicate Steep() {
      Dy() > Dx()
    }

    function Major(): nat {
      if Steep() then Dy() else Dx()
    }

    function Minor(): nat {
      if Steep() then Dx() else Dy()
    }

    function Sx(): int {
      if x2 > x1 then 1 else -1
    }

    function Sy(): int {
      if y2 > y1 then 1 else -1
    }

    /** The exact height of the line after `i` steps, rounded to the nearest whole step, half up. */
    function Height(i: nat): nat {
      if Major() == 0 then 0 else Rounded(Minor(), Major(), i)
    }

    /** The point drawn after `i` steps along the longer extent. */
    function Point(i: nat): (int, int) {
      if Steep() then (x1 + Sx() * Height(i), y1 + Sy() * i) else (x1 + Sx() * i, y1 + Sy() * Height(i))
    }

    /** One of the first `n` points. */
    predicate Drawn(n: nat, x: int, y: int) {
      var i := if Steep() then Sy() * (y - y1) else Sx() * (x - x1);
      0 <= i < n && Point(i) == (x, y)
    }
  }

  function Rounded(m: nat, d: nat, i: nat): nat
    requires d > 0
  {
    (2 * m * i + d) / (2 * d)
  }

  lemma DivisionBounds(n: nat, d: nat)
    requires d > 0
    ensures d * (n / d) <= n < d * (n / d) + d
  {
  }

  lemma RoundedBounds(m: nat, d: nat, i: nat)
    requires d > 0
    ensures var k := Rounded(m, d, i);
            2 * d * k <= 2 * m * i + d < 2 * d * k + 2 * d
  {
    DivisionBounds(2 * m * i + d, 2 * d);
  }

  lemma RoundedUnique(m: nat, d: nat, i: nat, k: nat)
    requires d > 0 && 2 * d * k <= 2 * m * i + d < 2 * d * k + 2 * d
    ensures k == Rounded(m, d, i)
  {
    RoundedBounds(m, d, i);
    var r := Rounded(m, d, i);
    if k < r {
      MulMonotone(2 * d, k + 1, r);
    } else if r < k {
      MulMonotone(2 * d, r + 1, k);
    }
  }

  /** One step along the longer extent moves at most one step along the shorter. */
  lemma RoundedSteps(m: nat, d: nat, i: nat)
    requires d > 0 && m <= d
    ensures Rounded(m, d, i) <= Rounded(m, d, i + 1) <= Rounded(m, d, i) + 1
  {
    hide Rounded;
    var k := Rounded(m, d, i);
    RoundedBounds(m, d, i);
    assert 2 * m * (i + 1) == 2 * m * i + 2 * m;
    assert 2 * d * (k + 1) == 2 * d * k + 2 * d;
    RoundedUnique(m, d, i + 1, if 2 * m * (i + 1) + d < 2 * d * (k + 1) then k else k + 1);
  }

  lemma RoundedEnds(m: nat, d: nat)
    requires d > 0
    ensures Rounded(m, d, 0) == 0 && Rounded(m, d, d) == m
  {
    RoundedUnique(m, d, 0, 0);
    assert 2 * d * m == 2 * m * d;
    RoundedUnique(m, d, d, m);
  }

  lemma {:induction false} RoundedMonotone(m: nat, d: nat, i: nat, j: nat)
    requires d > 0 && m <= d && i <= j
    ensures Rounded(m, d, i) <= Rounded(m, d, j)
    decreases j - i
  {
    if i < j {
      RoundedSteps(m, d, j - 1);
      RoundedMonotone(m, d, i, j - 1);
    }
  }

  /** The drawn line starts and ends at its end points and stays within their box. */
  lemma LineStaysInBox(l: Line, i: nat)
    requires i <= l.Major()
    ensures l.Point(0) == (l.x1, l.y1) && l.Point(l.Major()) == (l.x2, l.y2)
    ensures l.Height(i) <= l.Minor()
    ensures var (x, y) := l.Point(i);
            && (l.x1 <= x <= l.x2 || l.x2 <= x <= l.x1) && (l.y1 <= y <= l.y2 || l.y2 <= y <= l.y1)
  {
    hide Rounded;
    if l.Major() > 0 {
      RoundedEnds(l.Minor(), l.Major());
      RoundedMonotone(l.Minor(), l.Major(), i, l.Major());
    }
  }

  /** Consecutive points are neighbours. */
  lemma LineIsConnected(l: Line, i: nat)
    requires i < l.Major()
    ensures var (x, y), (x', y') := l.Point(i), l.Point(i + 1);
            -1 <= x' - x <= 1 && -1 <= y' - y <= 1 && (x, y) != (x', y')
  {
    hide Rounded;
    RoundedSteps(l.Minor(), l.Major(), i);
  }

  lemma Twice(a: int, b: int)
    ensures 2 * a * b == 2 * (a * b)
  {
  }

  lemma HalfAtMost(m: nat, d: nat, i: nat, k: nat)
    requires d > 0 && k == Rounded(m, d, i)
    ensures 2 * (d * k) - d <= 2 * (m * i) <= 2 * (d * k) + d
  {
    RoundedBounds(m, d, i);
    hide Rounded;
    Twice(m, i);
    Twice(d, k);
  }

  /** No point is further than half a pixel, measured along the shorter extent, from the exact line. */
  lemma LineIsAccurate(l: Line, i: nat)
    requires i <= l.Major()
    ensures 2 * (l.Major() * l.Height(i)) - l.Major() <= 2 * (l.Minor() * i)
    ensures 2 * (l.Minor() * i) <= 2 * (l.Major() * l.Height(i)) + l.Major()
  {
    hide Rounded, Line.Dx, Line.Dy;
    if l.Major() > 0 {
      HalfAtMost(l.Minor(), l.Major(), i, l.Height(i));
    } else {
      assert l.Major() == 0 && i == 0;
    }
  }

  lemma OneHalf()
    ensures Rounded(1, 2, 1) == 1
  {
  }

  /** A point halfway between two pixels goes to the one further along. */
  lemma HalfGoesOn()
    ensures Line(0, 0, 2, 1).Point(1) == (1, 1) && Line(0, 0, 1, 2).Point(1) == (1, 1)
    ensures Line(2, 1, 0, 0).Point(1) == (1, 0) && Line(0, 1, 2, 0).Point(1) == (1, 0)
  {
    OneHalf();
    hide Rounded;
  }

  // ---------------------------------------------------------------- scrolling and copying

  /** Where a scroll or a copy by (dx, dy) takes the pixel at (x, y) from. */
  predicate Shifted(g: Geometry, from: Geometry, dx: int, dy: int, x: int, y: int) {
    g.InDisplay(x, y) && from.InDisplay(x - dx, y - dy)
  }

  /** One dimension of a scroll: where the loop starts, stops, and which way it goes. */
  datatype Sweep = Sweep(size: nat, step: int) {
    function First(): int {
      if step < 0 then 0 else size - 1
    }

    function End(): int {
      if step < 0 then size + step else step - 1
    }

    function Direction(): int {
      if step < 0 then 1 else -1
    }

    /** There is nothing to move. */
    predicate Empty() {
      if step < 0 then End() <= 0 else End() >= First()
    }

    /** The positions the loop variable takes, its end value included. */
    predicate Inside(v: int) {
      if step < 0 then 0 <= v <= End() else End() <= v <= First()
    }

    /** `v` was passed before `now`. */
    predicate Behind(v: int, now: int) {
      if step < 0 then v < now else v > now
    }
  }

  /** Rows behind `row`, and the part of `row` behind `col`, are moved; all else is as before. */
  ghost predicate Moved(g: Geometry, before: seq<bv8>, now: seq<bv8>, h: Sweep, v: Sweep, col: int, row: int)
    requires g.Fits(|before|) && |now| == |before|
  {
    forall x, y {:trigger g.InStore(x, y)} :: g.InStore(x, y) ==>
      Pixel(g, now, x, y) ==
        if Shifted(g, g, h.step, v.step, x, y) && (v.Behind(y, row) || (y == row && h.Behind(x, col)))
        then Pixel(g, before, x - h.step, y - v.step) else Pixel(g, before, x, y)
  }

  lemma NothingMoved(g: Geometry, before: seq<bv8>, h: Sweep, v: Sweep)
    requires g.Fits(|before|) && h.size == g.width && v.size == g.height
    ensures Moved(g, before, before, h, v, h.First(), v.First())
  {
  }

  /** The source of the next pixel has not been overwritten yet. */
  lemma SourceIntact(g: Geometry, before: seq<bv8>, now: seq<bv8>, h: Sweep, v: Sweep, x: int, y: int)
    requires g.Fits(|before|) && |now| == |before| && Moved(g, before, now, h, v, x, y)
    requires Shifted(g, g, h.step, v.step, x, y)
    ensures Pixel(g, now, x - h.step, y - v.step) == Pixel(g, before, x - h.step, y - v.step)
  {
    hide Pixel;
    DisplayInStore(g, x - h.step, y - v.step);
  }

  lemma MoveNext(g: Geometry, before: seq<bv8>, now: seq<bv8>, h: Sweep, v: Sweep, x: int, y: int)
    requires g.Fits(|before|) && |now| == |before| && Moved(g, before, now, h, v, x, y)
    requires Shifted(g, g, h.step, v.step, x, y)
    ensures Moved(g, before, PutPixel(g, now, x, y, Pixel(g, before, x - h.step, y - v.step)), h, v, x + h.Direction(),
                  y)
  {
    hide Pixel, PutPixel;
    PutChangesOnePixel(g, now, x, y, Pixel(g, before, x - h.step, y - v.step));
  }

  lemma RowMoved(g: Geometry, before: seq<bv8>, now: seq<bv8>, h: Sweep, v: Sweep, y: int)
    requires g.Fits(|before|) && |now| == |before| && Moved(g, before, now, h, v, h.End(), y)
    requires h.size == g.width && !h.Empty()
    ensures Moved(g, before, now, h, v, h.First(), y + v.Direction())
  {
  }

  lemma AllMoved(g: Geometry, before: seq<bv8>, now: seq<bv8>, h: Sweep, v: Sweep)
    requires g.Fits(|before|) && |now| == |before| && Moved(g, before, now, h, v, h.First(), v.End())
    requires h.size == g.width && v.size == g.height && !v.Empty()
    ensures forall x, y {:trigger g.InStore(x, y)} :: g.InStore(x, y) ==>
              Pixel(g, now, x, y) ==
              if Shifted(g, g, h.step, v.step, x, y) then Pixel(g, before, x - h.step, y - v.step)
              else Pixel(g, before, x, y)
  {
  }

  /** A picture to copy, and the one-row palette that maps its colours, if any. */
  datatype Sprite = Sprite(g: Geometry, bits: seq<bv8>, mapped: bool, paletteG: Geometry, paletteBits: seq<bv8>) {
    predicate Valid() {
      g.Fits(|bits|) && (mapped ==> paletteG.Fits(|paletteBits|) && paletteG.InDisplay(1, 0))
    }

    function Colour(x: int, y: int): bv32
      requires Valid() && g.InStore(x, y)
    {
      var on := Pixel(g, bits, x, y);
      if (if mapped then Pixel(paletteG, paletteBits, if on then 1 else 0, 0) else on) then 1 else 0
    }
  }

  /** Rows above `row` and the part of `row` left of `col` are copied. */
  ghost predicate Copied(g: Geometry, before: seq<bv8>, now: seq<bv8>, sprite: Sprite, dx: int, dy: int, key: bv32,
                         col: int, row: int)
    requires g.Fits(|before|) && |now| == |before| && sprite.Valid()
  {
    forall x, y {:trigger g.InStore(x, y)} :: g.InStore(x, y) ==>
      Pixel(g, now, x, y) ==
        if Shifted(g, sprite.g, dx, dy, x, y) && (y < row || (y == row && x < col))
          && sprite.Colour(x - dx, y - dy) != key
        then sprite.Colour(x - dx, y - dy) != 0 else Pixel(g, before, x, y)
  }

  lemma NothingCopied(g: Geometry, before: seq<bv8>, sprite: Sprite, dx: int, dy: int, key: bv32)
    requires g.Fits(|before|) && sprite.Valid()
    ensures Copied(g, before, before, sprite, dx, dy, key, Max(0, dx), Max(0, dy))
  {
  }

  lemma CopyNext(g: Geometry, before: seq<bv8>, now: seq<bv8>, sprite: Sprite, dx: int, dy: int, key: bv32, x: int,
                 y: int)
    requires g.Fits(|before|) && |now| == |before| && sprite.Valid()
             && Copied(g, before, now, sprite, dx, dy, key, x, y)
    requires Shifted(g, sprite.g, dx, dy, x, y)
    ensures var c := sprite.Colour(x - dx, y - dy);
            Copied(g, before, if c != key then PutPixel(g, now, x, y, c != 0) else now, sprite, dx, dy, key, x + 1, y)
  {
    hide Pixel, PutPixel, Sprite.Colour;
    PutChangesOnePixel(g, now, x, y, sprite.Colour(x - dx, y - dy) != 0);
  }

  lemma RowCopied(g: Geometry, before: seq<bv8>, now: seq<bv8>, sprite: Sprite, dx: int, dy: int, key: bv32, row: int)
    requires g.Fits(|before|) && |now| == |before| && sprite.Valid()
    requires Copied(g, before, now, sprite, dx, dy, key, Min(g.width, dx + sprite.g.width), row)
    ensures Copied(g, before, now, sprite, dx, dy, key, Max(0, dx), row + 1)
  {
  }

  lemma AllCopied(g: Geometry, before: seq<bv8>, now: seq<bv8>, sprite: Sprite, dx: int, dy: int, key: bv32)
    requires g.Fits(|before|) && |now| == |before| && sprite.Valid()
    requires Copied(g, before, now, sprite, dx, dy, key, Max(0, dx), Min(g.height, dy + sprite.g.height))
    ensures forall x, y {:trigger g.InStore(x, y)} :: g.InStore(x, y) ==>
              Pixel(g, now, x, y) ==
                if Shifted(g, sprite.g, dx, dy, x, y) && sprite.Colour(x - dx, y - dy) != key
                then sprite.Colour(x - dx, y - dy) != 0 else Pixel(g, before, x, y)
  {
  }

  // ---------------------------------------------------------------- the frame buffer in place

  class FrameBuffer {
    const g: Geometry
    const buffer: array<bv8>

    ghost predicate Valid() {
      g.Fits(buffer.Length)
    }

    /** The pixel as a value of the current buffer. */
    ghost function At(x: int, y: int): bool
      requires Valid() && g.InStore(x, y)
      reads buffer
    {
      Pixel(g, buffer[..], x, y)
    }

    /** All dark. The size follows the width, not the stride, so that not every stride makes a usable buffer. */
    constructor (width: nat, height: nat, stride: nat, offset: nat)
      requires width < UINT16_LIMIT && height < UINT16_LIMIT
      ensures fresh(buffer) && g == Geometry(width, height, if stride == 0 then width else stride, offset)
      ensures Valid() <==> Usable(g, buffer.Length)
      ensures Valid() <==> RowsClear(g)
      ensures buffer.Length == width * ((height + 7) / 8) + offset
              && forall i :: 0 <= i < buffer.Length ==> buffer[i] == 0
      ensures Valid() ==> forall x, y :: g.InStore(x, y) ==> !At(x, y)
    {
      g := Geometry(width, height, if stride == 0 then width else stride, offset);
      var pages := height / 8 + if height % 8 != 0 then 1 else 0;
      buffer := new bv8[width * pages + offset](i => 0);
      new;
      assert buffer.Length == g.width * g.Pages() + g.offset;
      AllocationFits(g);
      FitsMeansUsable(g, buffer.Length);
      hide Geometry.Fits, Geometry.Pages, Pixel, RowsClear, Usable;
      if Valid() {
        AllDark(g, buffer[..]);
      }
    }

    method SetPixel(x: nat, y: nat, color: bv32)
      requires Valid() && g.InDisplay(x, y)
      modifies buffer
      ensures buffer[..] == PutPixel(g, old(buffer[..]), x, y, color != 0)
      ensures var at, m: bv8 := y / 8 * g.stride + x + g.offset, [1, 2, 4, 8, 16, 32, 64, 128][y % 8];
              && at < buffer.Length
              && buffer[at] == (if color != 0 then old(buffer[at]) | m else old(buffer[at]) & !m)
              && forall i :: 0 <= i < buffer.Length && i != at ==> buffer[i] == old(buffer[i])
      ensures forall x', y' :: g.InStore(x', y') ==>
                At(x', y') == if x' == x && y' == y then color != 0 else old(At(x', y'))
    {
      hide Bit, WithBit, Offset, Pixel;
      IndexFits(g, buffer.Length, x, y);
      LowestBitOnTop(y, buffer[g.Index(x, y)]);
      ghost var before := buffer[..];
      PutChangesOnePixel(g, before, x, y, color != 0);
      var index := y / 8 * g.stride + x + g.offset;
      var offset := Offset(y);
      buffer[index] := WithBit(buffer[index], offset, color != 0);
      assert buffer[..] == PutPixel(g, before, x, y, color != 0);
    }

    method GetPixel(x: nat, y: nat) returns (color: bv32)
      requires Valid() && g.InDisplay(x, y)
      ensures color == if Pixel(g, buffer[..], x, y) then 1 else 0
      ensures var at := y / 8 * g.stride + x + g.offset;
              at < buffer.Length && color == if buffer[at] & [1, 2, 4, 8, 16, 32, 64, 128][y % 8] != 0 then 1 else 0
    {
      IndexFits(g, buffer.Length, x, y);
      LowestBitOnTop(y, buffer[g.Index(x, y)]);
      color := ((buffer[y / 8 * g.stride + x + g.offset] >> Offset(y)) & 1) as bv32;
      assert buffer[..][g.Index(x, y)] == buffer[g.Index(x, y)];
    }

    /**
     The rectangle is not clipped: byte by byte it is written where it is told to, as long as that is
     in the buffer. On the display exactly its pixels take the colour.
     */
    method FillRect(x: nat, y: nat, w: nat, h: nat, color: bv32)
      requires x < UINT16_LIMIT && y < UINT16_LIMIT && w < UINT16_LIMIT && h < UINT16_LIMIT
      requires forall k :: 0 <= k < h && w > 0 ==> g.Index(x + w - 1, Row(y, k)) < buffer.Length
      modifies buffer
      ensures Painted(g, old(buffer[..]), buffer[..], x, y, w, h, color != 0)
      ensures Valid() && x + w <= g.width && y + h <= g.height ==>
                forall x', y' :: g.InStore(x', y') ==>
                  At(x', y') == if x <= x' < x + w && y <= y' < y + h then color != 0 else old(At(x', y'))
    {
      hide Pixel, Bit, WithBit, Offset, Geometry.Fits;
      ghost var before := buffer[..];
      var row := y;
      for i := 0 to h
        invariant row == Row(y, i)
        invariant Painted(g, before, buffer[..], x, y, w, i, color != 0)
      {
        FillRow(x, row, w, color);
        row := (row + 1) % UINT16_LIMIT;
      }
      if Valid() && x + w <= g.width && y + h <= g.height {
        PaintedPixels(g, before, buffer[..], x, y, w, h, color != 0);
      }
    }

    /** One row of it. */
    method FillRow(x: nat, row: nat, w: nat, color: bv32)
      requires w > 0 ==> g.Index(x + w - 1, row) < buffer.Length
      modifies buffer
      ensures forall b, o :: 0 <= b < buffer.Length && o < 8 ==>
                Bit(buffer[b], o) == if InRow(g, x, row, w, b, o) then color != 0 else Bit(old(buffer[b]), o)
      ensures var start, m: bv8 := row / 8 * g.stride + x + g.offset, [1, 2, 4, 8, 16, 32, 64, 128][row % 8];
              forall b :: 0 <= b < buffer.Length ==>
                buffer[b] ==
                  if !(start <= b < start + w) then old(buffer[b])
                  else if color != 0 then old(buffer[b]) | m else old(buffer[b]) & !m
    {
      hide Bit, WithBit, Offset;
      ghost var start := row / 8 * g.stride + x + g.offset;
      var b := row / 8 * g.stride + x + g.offset;
      var offset := Offset(row);
      for i := 0 to w
        invariant b == start + i
        invariant forall c :: 0 <= c < buffer.Length ==>
                    buffer[c] == if start <= c < start + i then WithBit(old(buffer[c]), offset, color != 0)
                      else old(buffer[c])
      {
        buffer[b] := WithBit(buffer[b], offset, color != 0);
        b := b + 1;
      }
      forall c, o: bv8 | 0 <= c < buffer.Length && o < 8
        ensures Bit(buffer[c], o) == if InRow(g, x, row, w, c, o) then color != 0 else Bit(old(buffer[c]), o)
      {
        BitOfWithBit(old(buffer[c]), offset, color != 0, o);
      }
      forall c | 0 <= c < buffer.Length
        ensures var m: bv8 := [1, 2, 4, 8, 16, 32, 64, 128][row % 8];
                buffer[c] ==
                  if !(start <= c < start + w) then old(buffer[c])
                  else if color != 0 then old(buffer[c]) | m else old(buffer[c]) & !m
      {
        LowestBitOnTop(row, old(buffer[c]));
      }
    }

    /**
     Moves the picture by (xstep, ystep) in place: every pixel whose source lies on the display ends
     as that source was, all others stay.
     */
    method Scroll(xstep: int, ystep: int)
      requires Valid() && -0x8000 <= xstep < 0x8000 && -0x8000 <= ystep < 0x8000
      modifies buffer
      ensures forall x, y :: g.InStore(x, y) ==>
                At(x, y) ==
                  if && x < g.width && y < g.height
                     && 0 <= x - xstep < g.width && 0 <= y - ystep < g.height
                  then old(At(x - xstep, y - ystep)) else old(At(x, y))
    {
      hide Pixel, PutPixel, Moved;
      ghost var before := buffer[..];
      ghost var h, v := Sweep(g.width, xstep), Sweep(g.height, ystep);
      var sx, y, xend, yend, dx, dy;
      if xstep < 0 {
        sx := 0;
        xend := g.width + xstep;
        if xend <= 0 {
          return;
        }
        dx := 1;
      } else {
        sx := g.width - 1;
        xend := xstep - 1;
        if xend >= sx {
          return;
        }
        dx := -1;
      }
      if ystep < 0 {
        y := 0;
        yend := g.height + ystep;
        if yend <= 0 {
          return;
        }
        dy := 1;
      } else {
        y := g.height - 1;
        yend := ystep - 1;
        if yend >= y {
          return;
        }
        dy := -1;
      }
      NothingMoved(g, before, h, v);
      while y != yend
        invariant v.Inside(y) && Moved(g, before, buffer[..], h, v, sx, y)
        decreases dy * (yend - y)
      {
        var x := sx;
        while x != xend
          invariant h.Inside(x) && Moved(g, before, buffer[..], h, v, x, y)
          decreases dx * (xend - x)
        {
          MoveOne(before, Sweep(g.width, xstep), Sweep(g.height, ystep), x, y);
          x := x + dx;
        }
        RowMoved(g, before, buffer[..], h, v, y);
        y := y + dy;
      }
      AllMoved(g, before, buffer[..], h, v);
    }

    /** The body of the scroll loops. */
    method MoveOne(ghost before: seq<bv8>, h: Sweep, v: Sweep, x: int, y: int)
      requires Valid() && |before| == buffer.Length && Moved(g, before, buffer[..], h, v, x, y)
      requires Shifted(g, g, h.step, v.step, x, y)
      modifies buffer
      ensures Moved(g, before, buffer[..], h, v, x + h.Direction(), y)
    {
      hide Pixel, PutPixel, Moved;
      SourceIntact(g, before, buffer[..], h, v, x, y);
      MoveNext(g, before, buffer[..], h, v, x, y);
      var color := GetPixel(x - h.step, y - v.step);
      SetPixel(x, y, color);
    }

    /** This buffer's picture, seen through an optional palette. */
    ghost function Through(palette: FrameBuffer?): (sprite: Sprite)
      requires Valid() && (palette != null ==> palette.Valid() && palette.g.InDisplay(1, 0))
      reads buffer, if palette != null then {palette.buffer} else {}
      ensures sprite.Valid() && sprite.g == g
    {
      Sprite(g, buffer[..], palette != null, if palette != null then palette.g else g,
             if palette != null then palette.buffer[..] else buffer[..])
    }

    /**
     Copies `source` to (x, y), clipped to the display. A pixel changes only where the source covers
     it with a mapped colour other than `key`, and then takes that colour.
     */
    method Blit(source: FrameBuffer, x: int, y: int, key: bv32, palette: FrameBuffer?)
      requires Valid() && source.Valid() && source.buffer != buffer
      requires palette != null ==> palette.Valid() && palette.g.InDisplay(1, 0) && palette.buffer != buffer
      requires -0x8000 <= x < 0x8000 && -0x8000 <= y < 0x8000
      modifies buffer
      ensures forall px, py {:trigger g.InStore(px, py)} :: g.InStore(px, py) ==>
                if && px < g.width && py < g.height
                   && 0 <= px - x < source.g.width && 0 <= py - y < source.g.height then
                  source.g.InStore(px - x, py - y) &&
                  var on := source.At(px - x, py - y);
                  var shown := if palette == null then on else palette.At(if on then 1 else 0, 0);
                  At(px, py) == if (if shown then 1 else 0) != key then shown else old(At(px, py))
                else At(px, py) == old(At(px, py))
    {
      hide Pixel, PutPixel, Copied, Sprite.Colour, Through, Geometry.Fits;
      if x >= g.width || y >= g.height || -x >= source.g.width || -y >= source.g.height {
        return;
      }
      CopyClipped(source, x, y, key, palette);
      forall px, py {:trigger g.InStore(px, py)} | g.InDisplay(px, py) && source.g.InDisplay(px - x, py - y)
        ensures source.g.InStore(px - x, py - y)
                && (palette != null ==> palette.g.InStore(0, 0) && palette.g.InStore(1, 0))
        ensures source.Through(palette).Colour(px - x, py - y) ==
                if (if palette == null then source.At(px - x, py - y)
                    else if source.At(px - x, py - y) then palette.At(1, 0) else palette.At(0, 0)) then 1 else 0
      {
        source.ColourShown(palette, px - x, py - y);
      }
    }

    /** The loops of the copy. */
    method CopyClipped(source: FrameBuffer, x: int, y: int, key: bv32, palette: FrameBuffer?)
      requires Valid() && source.Valid() && source.buffer != buffer
      requires palette != null ==> palette.Valid() && palette.g.InDisplay(1, 0) && palette.buffer != buffer
      requires x < g.width && y < g.height && -x < source.g.width && -y < source.g.height
      modifies buffer
      ensures source.Through(palette) == old(source.Through(palette))
      ensures var sprite := source.Through(palette);
              forall px, py {:trigger g.InStore(px, py)} :: g.InStore(px, py) ==>
                At(px, py) ==
                  if Shifted(g, source.g, x, y, px, py) && sprite.Colour(px - x, py - y) != key
                  then sprite.Colour(px - x, py - y) != 0
                  else old(At(px, py))
    {
      hide Pixel, PutPixel, Copied, Sprite.Colour;
      ghost var sprite := source.Through(palette);
      assert sprite.g == source.g;
      hide Through, Geometry.Fits;
      ghost var before := buffer[..];
      var x0, y0 := Max(0, x), Max(0, y);
      var x1, y1 := Max(0, -x), Max(0, -y);
      var x0end, y0end := Min(g.width, x + source.g.width), Min(g.height, y + source.g.height);
      NothingCopied(g, before, sprite, x, y, key);
      while y0 < y0end
        invariant Max(0, y) <= y0 <= y0end && y1 == y0 - y && source.Through(palette) == sprite
        invariant Copied(g, before, buffer[..], sprite, x, y, key, x0, y0)
      {
        var cx1, cx0 := x1, x0;
        while cx0 < x0end
          invariant x0 <= cx0 <= x0end && cx1 == cx0 - x && source.Through(palette) == sprite
          invariant Copied(g, before, buffer[..], sprite, x, y, key, cx0, y0)
        {
          CopyOne(before, source, x, y, key, palette, cx0, y0);
          cx0, cx1 := cx0 + 1, cx1 + 1;
        }
        RowCopied(g, before, buffer[..], sprite, x, y, key, y0);
        y0, y1 := y0 + 1, y1 + 1;
      }
      AllCopied(g, before, buffer[..], sprite, x, y, key);
    }

    /** What the mapped colour of a pixel is: through a palette, its first or second pixel. */
    lemma ColourShown(palette: FrameBuffer?, x: int, y: int)
      requires Valid() && g.InDisplay(x, y)
      requires palette != null ==> palette.Valid() && palette.g.InDisplay(1, 0)
      ensures g.InStore(x, y) && (palette != null ==> palette.g.InStore(0, 0) && palette.g.InStore(1, 0))
      ensures Through(palette).Colour(x, y) ==
              if (if palette == null then At(x, y) else if At(x, y) then palette.At(1, 0) else palette.At(0, 0))
              then 1 else 0
    {
      hide Pixel;
      DisplayInStore(g, x, y);
    }

    /** The body of the copy loops. */
    method CopyOne(ghost before: seq<bv8>, source: FrameBuffer, dx: int, dy: int, key: bv32, palette: FrameBuffer?,
                   x: int, y: int)
      requires Valid() && source.Valid() && source.buffer != buffer && |before| == buffer.Length
      requires palette != null ==> palette.Valid() && palette.g.InDisplay(1, 0) && palette.buffer != buffer
      requires Shifted(g, source.g, dx, dy, x, y)
      requires Copied(g, before, buffer[..], source.Through(palette), dx, dy, key, x, y)
      modifies buffer
      ensures source.Through(palette) == old(source.Through(palette))
      ensures Copied(g, before, buffer[..], source.Through(palette), dx, dy, key, x + 1, y)
    {
      hide Pixel, PutPixel, Copied;
      ghost var sprite := source.Through(palette);
      var col := source.GetPixel(x - dx, y - dy);
      if palette != null {
        col := palette.GetPixel(if col == 0 then 0 else 1, 0);
      }
      assert col == sprite.Colour(x - dx, y - dy);
      CopyNext(g, before, buffer[..], sprite, dx, dy, key, x, y);
      if col != key {
        SetPixel(x, y, col);
      }
    }

    /** The first `n` points of the line are drawn over `before`, as far as they lie on the display. */
    ghost predicate Shows(l: Line, n: nat, before: seq<bv8>, on: bool)
      requires Valid() && |before| == buffer.Length
      reads buffer
    {
      forall x, y :: g.InStore(x, y) ==>
        At(x, y) == if g.InDisplay(x, y) && l.Drawn(n, x, y) then on else Pixel(g, before, x, y)
    }

    /** Draws the next point of the line if it lies on the display. */
    method Plot(x: nat, y: nat, color: bv32, ghost l: Line, ghost i: nat, ghost before: seq<bv8>)
      requires Valid() && |before| == buffer.Length && Shows(l, i, before, color != 0) && l.Point(i) == (x, y)
      modifies buffer
      ensures Shows(l, i + 1, before, color != 0)
    {
      hide Pixel, PutPixel, Rounded, Line.Point, Line.Drawn, Line.Height;
      DrawnStep(l, i);
      if x < g.width && y < g.height {
        SetPixel(x, y, color);
      }
    }

    /** Exactly the rounded points that lie on the display are drawn, the end point included. */
    method DrawLine(x1: nat, y1: nat, x2: nat, y2: nat, color: bv32)
      requires Valid() && x1 < UINT16_LIMIT && y1 < UINT16_LIMIT && x2 < UINT16_LIMIT && y2 < UINT16_LIMIT
      modifies buffer
      ensures var l := Line(x1, y1, x2, y2);
              forall x, y :: g.InStore(x, y) ==>
                At(x, y) == if g.InDisplay(x, y) && l.Drawn(l.Major() + 1, x, y) then color != 0 else old(At(x, y))
    {
      ghost var l, before := Line(x1, y1, x2, y2), buffer[..];
      NothingDrawn(l);
      assert Shows(l, 0, before, color != 0);
      hide Pixel, PutPixel, Rounded, Line.Point, Line.Drawn, Line.Height;
      Trace(x1, y1, x2, y2, color, l, before);
      assert Shows(l, l.Major() + 1, before, color != 0);
    }

    /** The loop of the source. All coordinates stay between the end points. */
    method Trace(x1: nat, y1: nat, x2: nat, y2: nat, color: bv32, ghost l: Line, ghost before: seq<bv8>)
      requires Valid() && x1 < UINT16_LIMIT && y1 < UINT16_LIMIT && x2 < UINT16_LIMIT && y2 < UINT16_LIMIT
      requires l == Line(x1, y1, x2, y2) && |before| == buffer.Length && Shows(l, 0, before, color != 0)
      modifies buffer
      ensures Shows(l, l.Major() + 1, before, color != 0)
    {
      hide Shows, Rounded, Line.Point, Line.Height;
      var dx, dy := x2 - x1, y2 - y1;
      var sx, sy := 1, 1;
      if dx <= 0 {
        dx, sx := -dx, -1;
      }
      if dy <= 0 {
        dy, sy := -dy, -1;
      }
      var a: int, b: int := x1, y1;
      var steep := dy > dx;
      if steep {
        a, b := b, a;
        dx, dy := dy, dx;
        sx, sy := sy, sx;
      }
      assert dx == l.Major() && dy == l.Minor() && steep == l.Steep();
      assert sx == (if steep then l.Sy() else l.Sx()) && sy == if steep then l.Sx() else l.Sy();
      var e := 2 * dy - dx;
      LineStaysInBox(l, 0);
      ErrorStarts(l);
      for i := 0 to dx
        invariant 0 <= a < UINT16_LIMIT && 0 <= b < UINT16_LIMIT
        invariant l.Point(i) == if steep then (b, a) else (a, b)
        invariant e == ErrorTerm(l, i)
        invariant Shows(l, i, before, color != 0)
      {
        if steep {
          Plot(b, a, color, l, i, before);
        } else {
          Plot(a, b, color, l, i, before);
        }
        ErrorDecides(l, i);
        PointStep(l, i);
        LineStaysInBox(l, i + 1);
        ghost var b0, e0, turns := b, e, 0;
        while e >= 0
          invariant turns <= 1
          invariant turns == 0 ==> b == b0 && e == e0
          invariant turns == 1 ==> b == b0 + sy && e == e0 - 2 * dx && e0 >= 0
          decreases 1 - turns
        {
          b := b + sy;
          e := e - 2 * dx;
          turns := turns + 1;
        }
        a := a + sx;
        e := e + 2 * dy;
      }
      LineStaysInBox(l, l.Major());
      Plot(x2, y2, color, l, l.Major(), before);
    }
  }

  /** The decision variable at the top of step `i`. */
  ghost function ErrorTerm(l: Line, i: nat): int {
    2 * l.Minor() * (i + 1) - l.Major() - 2 * l.Major() * l.Height(i)
  }

  lemma ErrorStarts(l: Line)
    ensures ErrorTerm(l, 0) == 2 * l.Minor() - l.Major()
  {
  }

  /** The decision variable tells whether the shorter extent moves; the inner loop never runs twice. */
  lemma ErrorDecides(l: Line, i: nat)
    requires i < l.Major()
    ensures var e := ErrorTerm(l, i);
            && e < 2 * l.Major()
            && l.Height(i + 1) == (if e >= 0 then l.Height(i) + 1 else l.Height(i))
            && ErrorTerm(l, i + 1) == (if e >= 0 then e - 2 * l.Major() else e) + 2 * l.Minor()
  {
    hide Rounded;
    var m, d := l.Minor(), l.Major();
    var k := l.Height(i);
    RoundedBounds(m, d, i);
    assert 2 * m * (i + 1) == 2 * m * i + 2 * m;
    assert 2 * m * (i + 2) == 2 * m * (i + 1) + 2 * m;
    assert 2 * d * (k + 1) == 2 * d * k + 2 * d;
    assert 2 * d * (k + 2) == 2 * d * (k + 1) + 2 * d;
    RoundedUnique(m, d, i + 1, if ErrorTerm(l, i) >= 0 then k + 1 else k);
  }

  lemma PointStep(l: Line, i: nat)
    requires i < l.Major()
    ensures var (x, y), up := l.Point(i), l.Height(i + 1) == l.Height(i) + 1;
            l.Height(i) <= l.Height(i + 1) <= l.Height(i) + 1 ==>
            l.Point(i + 1) ==
              if l.Steep() then (if up then x + l.Sx() else x, y + l.Sy())
              else (x + l.Sx(), if up then y + l.Sy() else y)
  {
  }

  lemma NothingDrawn(l: Line)
    ensures forall x, y :: !l.Drawn(0, x, y)
  {
  }

  lemma DrawnStep(l: Line, i: nat)
    ensures forall x, y :: l.Drawn(i + 1, x, y) <==> l.Drawn(i, x, y) || l.Point(i) == (x, y)
  {
    hide Rounded, Line.Height;
  }
}
