/**
 * Where the scroll bar draws its thumb (apps/texelterm/scrollbar.go:847-932),
 * in thirds of a row. Float arithmetic is taken as exact real arithmetic.
 */
module Thumb {
  import opened Prelude
  import opened Ratios

  /** Offset and physical lines count wrapped lines; logical lines do not. */
  datatype Scroll = Scroll(offset: int, viewport: nat, logical: int, physical: int)

  datatype Position = Position(start: int, end: int, smooth: bool)

  function Ceil(x: real): int {
    -(-x).Floor
  }

  /** Go's division truncates. */
  function ThirdDown(n: int): int {
    if n >= 0 then n / 3 * 3 else -(-n / 3) * 3
  }

  function RawSize(total: int, viewport: nat, logical: int): real
    requires logical > 0
  {
    total as real * viewport as real / logical as real
  }

  /** The thumb's length before it is snapped to rows. */
  function Size(total: int, viewport: nat, logical: int): int
    requires logical > 0
  {
    var size := Trunc(RawSize(total, viewport, logical));
    var size1 := if size < 1 then 1 else size;
    if size1 > total then total else size1
  }

  /** How much of the way to the oldest line is left. */
  function Left(offset: int, maxScroll: int): real
    requires maxScroll > 0
  {
    1.0 - offset as real / maxScroll as real
  }

  /** The part of the free track above the thumb. */
  function Above(room: int, offset: int, maxScroll: int): real
    requires maxScroll > 0
  {
    room as real * Left(offset, maxScroll)
  }

  predicate Scrollable(height: int, s: Scroll) {
    height > 2 && s.logical > s.viewport && s.physical > s.viewport
  }

  /** The position before the final clamps. */
  function Unclamped(height: int, s: Scroll): Position
    requires Scrollable(height, s)
  {
    var total := height * 3;
    var size := Size(total, s.viewport, s.logical);
    var top := Ceil(Above(total - size, s.offset, s.physical - s.viewport));
    if RawSize(total, s.viewport, s.logical) < 3.0 then Position(top, top + size, true)
    else
      var start := ThirdDown(top);
      var rows := ThirdDown((if size < 3 then 3 else size) + 2);
      Position(start, start + rows, false)
  }

  function ThumbPosition(height: int, s: Scroll): Position {
    if !Scrollable(height, s) then Position(0, height * 3, false)
    else
      var p := Unclamped(height, s);
      Position(if p.start < 0 then 0 else p.start, if p.end > height * 3 then height * 3 else p.end, p.smooth)
  }

  // --------------------------------------------------------------- arithmetic

  lemma {:induction false} Scales(a: real, x: real, y: real)
    requires a >= 0.0 && x <= y
    ensures a * x <= a * y
  {
  }

  lemma {:induction false} RatioAtMost(a: real, b: real, c: real)
    requires a >= 0.0 && 0.0 <= b < c
    ensures 0.0 <= a * b / c && (a > 0.0 ==> a * b / c < a)
  {
    Product(a, b);
    DivideBy(a * b, c);
    if a > 0.0 {
      LessTimes(b, c, a);
      CancelStrict(a * b / c, a, c);
    }
  }

  lemma {:induction false} LessTimes(b: real, c: real, a: real)
    requires a > 0.0 && b < c
    ensures a * b < a * c
  {
  }

  lemma {:induction false} LeftFalls(x: int, y: int, m: int)
    requires m > 0 && 0 <= x <= y <= m
    ensures 0.0 <= Left(y, m) <= Left(x, m) <= 1.0 && Left(0, m) == 1.0 && Left(m, m) == 0.0
  {
    var z := m as real;
    DivideRises(0.0, x as real, z);
    DivideRises(x as real, y as real, z);
    DivideRises(y as real, z, z);
  }

  lemma {:induction false} DivideRises(x: real, y: real, z: real)
    requires z > 0.0 && x <= y
    ensures x / z <= y / z && 0.0 / z == 0.0 && z / z == 1.0
  {
  }

  /** The space above the thumb is all of the room at offset 0, none at the far end, and shrinks between. */
  lemma {:induction false} AboveFalls(room: int, x: int, y: int, maxScroll: int)
    requires room >= 0 && maxScroll > 0 && 0 <= x <= y <= maxScroll
    ensures 0.0 <= Above(room, y, maxScroll) <= Above(room, x, maxScroll) <= room as real
    ensures Above(room, 0, maxScroll) == room as real && Above(room, maxScroll, maxScroll) == 0.0
  {
    hide Left;
    LeftFalls(x, y, maxScroll);
    var a := room as real;
    Scales(a, Left(y, maxScroll), Left(x, maxScroll));
    Scales(a, 0.0, Left(y, maxScroll));
    Scales(a, Left(x, maxScroll), 1.0);
  }

  lemma {:induction false} CeilMonotone(x: real, y: real)
    requires x <= y
    ensures Ceil(x) <= Ceil(y)
  {
  }

  lemma {:induction false} CeilOfInt(n: int)
    ensures Ceil(n as real) == n
  {
    assert -(n as real) == (-n) as real;
  }

  lemma {:induction false} SizeFits(height: int, s: Scroll)
    requires Scrollable(height, s)
    ensures 1 <= Size(height * 3, s.viewport, s.logical) <= height * 3
    ensures RawSize(height * 3, s.viewport, s.logical) >= 3.0 ==> Size(height * 3, s.viewport, s.logical) >= 3
    ensures RawSize(height * 3, s.viewport, s.logical) < 3.0 ==> Size(height * 3, s.viewport, s.logical) <= 2
  {
    RatioAtMost((height * 3) as real, s.viewport as real, s.logical as real);
  }

  // --------------------------------------------------------------- properties

  /** The rows a thumb spans in whole-row mode; no offset enters into it. */
  function RowSpan(height: int, s: Scroll): int
    requires s.logical > 0
  {
    (Size(height * 3, s.viewport, s.logical) + 2) / 3 * 3
  }

  predicate InRange(s: Scroll) {
    0 <= s.offset <= s.physical - s.viewport
  }

  lemma {:induction false} TopInRoom(height: int, s: Scroll)
    requires Scrollable(height, s) && InRange(s)
    ensures 0 <= Ceil(Above(height * 3 - Size(height * 3, s.viewport, s.logical), s.offset, s.physical - s.viewport))
              <= height * 3 - Size(height * 3, s.viewport, s.logical)
  {
    hide Above, Ceil, Size;
    SizeFits(height, s);
    var room, m := height * 3 - Size(height * 3, s.viewport, s.logical), s.physical - s.viewport;
    AboveFalls(room, s.offset, s.offset, m);
    CeilMonotone(0 as real, Above(room, s.offset, m));
    CeilMonotone(Above(room, s.offset, m), room as real);
    CeilOfInt(0);
    CeilOfInt(room);
  }

  /** The whole part of a product over a product. */
  lemma {:induction false} WholePart(total: nat, viewport: nat, logical: int)
    requires logical > 0
    ensures var n := Trunc(RawSize(total, viewport, logical));
      n >= 0 && n * logical <= total * viewport < (n + 1) * logical
    ensures RawSize(total, viewport, logical) < 3.0 <==> total * viewport < 3 * logical
  {
    var z, q := logical as real, RawSize(total, viewport, logical);
    RealProduct(total, viewport);
    DivideBy((total * viewport) as real, z);
    assert q * z == (total * viewport) as real;
    if q < 0.0 { LessTimes(q, 0.0, z); }
    var n := Trunc(q);
    WholeAtMost(n, q, logical, total * viewport);
    WholeAbove(n + 1, q, logical, total * viewport);
    if q < 3.0 { WholeAbove(3, q, logical, total * viewport); } else { WholeAtMost(3, q, logical, total * viewport); }
  }

  lemma WholeAtMost(n: int, q: real, m: int, x: int)
    requires m > 0 && q * m as real == x as real && n as real <= q
    ensures n * m <= x
  {
    Scales(m as real, n as real, q);
    RealProduct(n, m);
  }

  lemma WholeAbove(n: int, q: real, m: int, x: int)
    requires m > 0 && q * m as real == x as real && q < n as real
    ensures x < n * m
  {
    LessTimes(q, n as real, m as real);
    RealProduct(n, m);
  }

  lemma WholeBelow(n: int, q: real, m: int, x: int)
    requires m > 0 && q * m as real == x as real && n as real < q
    ensures n * m < x
  {
    LessTimes(n as real, q, m as real);
    RealProduct(n, m);
  }

  lemma WholeAtLeast(n: int, q: real, m: int, x: int)
    requires m > 0 && q * m as real == x as real && q <= n as real
    ensures x <= n * m
  {
    Scales(m as real, q, n as real);
    RealProduct(n, m);
  }

  lemma RealProduct(a: int, b: int)
    ensures (a * b) as real == a as real * b as real
  {
  }

  /** A ceiling of the part of the room above the thumb. */
  lemma {:induction false} TopIs(room: int, offset: int, maxScroll: int)
    requires maxScroll > 0
    ensures var top := Ceil(Above(room, offset, maxScroll));
      (top - 1) * maxScroll < room * (maxScroll - offset) <= top * maxScroll
  {
    hide Above, Left;
    var m, above := maxScroll as real, Above(room, offset, maxScroll);
    var top := Ceil(above);
    AboveTimes(room, offset, maxScroll);
    RealProduct(room, maxScroll - offset);
    WholeBelow(top - 1, above, maxScroll, room * (maxScroll - offset));
    WholeAtLeast(top, above, maxScroll, room * (maxScroll - offset));
  }

  lemma AboveTimes(room: int, offset: int, maxScroll: int)
    requires maxScroll > 0
    ensures Above(room, offset, maxScroll) * maxScroll as real == room as real * (maxScroll - offset) as real
  {
    var m, left := maxScroll as real, Left(offset, maxScroll);
    DivideBy(offset as real, m);
    assert left * m == m - offset as real;
    assert room as real * left * m == room as real * (left * m);
  }

  /**
   * How long the thumb is and where it begins, in thirds of a row: its size is
   * the whole part of the track in proportion to the lines in view, at least one
   * third, and below it lies that part of the free track that has been scrolled
   * back, rounded to a third, or below three thirds of size to whole rows.
   */
  lemma {:induction false} ThumbProportional(height: int, s: Scroll) returns (size: int)
    requires Scrollable(height, s) && InRange(s)
    ensures var p, total, m := ThumbPosition(height, s), 3 * height, s.physical - s.viewport;
      && 1 <= size <= total && (p.smooth <==> total * s.viewport < 3 * s.logical)
      && (size * s.logical <= total * s.viewport < (size + 1) * s.logical
          || (size == 1 && total * s.viewport < s.logical))
      && (p.smooth ==>
            && p.end - p.start == size
            && (p.start - 1) * m < (total - size) * (m - s.offset) <= p.start * m)
      && (!p.smooth ==>
            && p.start % 3 == 0 && p.end % 3 == 0 && size <= p.end - p.start <= size + 2
            && (p.start - 1) * m < (total - size) * (m - s.offset) <= (p.start + 2) * m)
  {
    hide Above, Ceil, RawSize, Size, ThumbPosition;
    var total, m := 3 * height, s.physical - s.viewport;
    size := Size(total, s.viewport, s.logical);
    SizeFits(height, s);
    SizeIs(total, s.viewport, s.logical);
    ThumbRounds(height, s);
    TopIs(total - size, s.offset, m);
    var top := Ceil(Above(total - size, s.offset, m));
    var p := ThumbPosition(height, s);
    if !p.smooth {
      Rows(p.start - 1, top - 1, m);
      Rows(top, p.start + 2, m);
    }
  }

  /** A track of two rows or less, or with all lines in view, is all thumb. */
  lemma {:induction false} ThumbFull(height: int, s: Scroll)
    requires height <= 2 || s.logical <= s.viewport || s.physical <= s.viewport
    ensures ThumbPosition(height, s) == Position(0, 3 * height, false)
  {
  }

  /** The position is the size and the top as they are, or rounded outward to rows. */
  lemma {:induction false} ThumbRounds(height: int, s: Scroll)
    requires Scrollable(height, s) && InRange(s)
    ensures var p, size := ThumbPosition(height, s), Size(height * 3, s.viewport, s.logical);
      var top := Ceil(Above(height * 3 - size, s.offset, s.physical - s.viewport));
      && (p.smooth <==> RawSize(height * 3, s.viewport, s.logical) < 3.0)
      && (p.smooth ==> p.start == top && p.end == top + size)
      && (!p.smooth ==>
            && p.start % 3 == 0 && p.end % 3 == 0 && p.start <= top <= p.start + 2
            && size <= p.end - p.start <= size + 2)
  {
    hide Above, Ceil, RawSize, Size;
    SizeFits(height, s);
    TopInRoom(height, s);
    ThumbFits(height, s);
  }

  lemma Rows(a: int, b: int, m: int)
    requires m > 0 && a <= b
    ensures a * m <= b * m
  {
  }

  lemma {:induction false} SizeIs(total: nat, viewport: nat, logical: int)
    requires logical > viewport && total > 0
    ensures var n := Size(total, viewport, logical);
      || n * logical <= total * viewport < (n + 1) * logical
      || (n == 1 && total * viewport < logical)
    ensures RawSize(total, viewport, logical) < 3.0 <==> total * viewport < 3 * logical
  {
    hide RawSize;
    WholePart(total, viewport, logical);
    RawBelow(total, viewport, logical);
  }

  lemma {:induction false} RawBelow(total: nat, viewport: nat, logical: int)
    requires logical > viewport && total > 0
    ensures 0.0 <= RawSize(total, viewport, logical) < total as real
  {
    RatioAtMost(total as real, viewport as real, logical as real);
  }

  /** The thumb lies on the track without the clamps acting, and its length is the same at every offset. */
  lemma {:induction false} ThumbFits(height: int, s: Scroll)
    requires Scrollable(height, s) && InRange(s)
    ensures ThumbPosition(height, s) == Unclamped(height, s)
    ensures var p := ThumbPosition(height, s);
      && 0 <= p.start < p.end <= height * 3
      && p.end - p.start == if p.smooth then Size(height * 3, s.viewport, s.logical) else RowSpan(height, s)
  {
    hide Above, Ceil, Size, RawSize;
    SizeFits(height, s);
    TopInRoom(height, s);
  }

  /** In whole-row mode both ends are on row boundaries, at least one row apart. */
  lemma {:induction false} WholeRows(height: int, s: Scroll)
    requires Scrollable(height, s) && InRange(s) && RawSize(height * 3, s.viewport, s.logical) >= 3.0
    ensures var p := ThumbPosition(height, s);
      !p.smooth && p.start % 3 == 0 && p.end % 3 == 0 && p.end - p.start == RowSpan(height, s) >= 3
  {
    hide Above, Ceil, Size, RawSize;
    SizeFits(height, s);
    TopInRoom(height, s);
  }

  /** Scrolling back never moves the thumb down. */
  lemma {:induction false} ThumbRises(height: int, s: Scroll, offset: int)
    requires Scrollable(height, s) && 0 <= s.offset <= offset <= s.physical - s.viewport
    ensures ThumbPosition(height, s.(offset := offset)).start <= ThumbPosition(height, s).start
    ensures ThumbPosition(height, s.(offset := offset)).end <= ThumbPosition(height, s).end
  {
    hide Above, Ceil, Size, RawSize;
    var room, m := height * 3 - Size(height * 3, s.viewport, s.logical), s.physical - s.viewport;
    SizeFits(height, s);
    AboveFalls(room, s.offset, offset, m);
    CeilMonotone(Above(room, offset, m), Above(room, s.offset, m));
    TopInRoom(height, s);
    TopInRoom(height, s.(offset := offset));
  }

  /** The newest line puts the thumb at the bottom of the track and the oldest at its top. */
  lemma {:induction false} ThumbReachesEnds(height: int, s: Scroll)
    requires Scrollable(height, s)
    ensures ThumbPosition(height, s.(offset := 0)).end == height * 3
    ensures ThumbPosition(height, s.(offset := s.physical - s.viewport)).start == 0
  {
    hide Above, Ceil, Size, RawSize;
    var m := s.physical - s.viewport;
    var room := height * 3 - Size(height * 3, s.viewport, s.logical);
    SizeFits(height, s);
    AboveFalls(room, 0, m, m);
    CeilOfInt(room);
    CeilOfInt(0);
  }
}
