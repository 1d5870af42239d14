/**
 * The wire form of a pane's content update (protocol/buffer_delta.go), as a
 * writer, a reader and the laws between them. Text is the string's bytes and
 * float32 fields are their 32 bits.
 */
module BufferDeltas {
  import opened Prelude
  import opened Bytes

  const MaxDecorRowIdx := 4096

  datatype DynColor = DynColor(kind: Byte, base: U32, target: U32, easing: Byte,
                               speed: U32, min: U32, max: U32, stops: seq<ColorStop>)
  datatype ColorStop = ColorStop(position: U32, color: DynColor)
  datatype StyleEntry = StyleEntry(attrFlags: U16, fgModel: Byte, fgValue: U32, bgModel: Byte, bgValue: U32,
                                   dynFG: DynColor, dynBG: DynColor)
  datatype CellSpan = CellSpan(startCol: U16, text: seq<Byte>, styleIndex: U16)
  datatype RowDelta = RowDelta(row: U16, spans: seq<CellSpan>)
  datatype BufferDelta = BufferDelta(paneID: Id, revision: U32, flags: Byte, rowBase: I64,
                                     styles: seq<StyleEntry>, rows: seq<RowDelta>, decorRows: seq<RowDelta>)

  const NoColor := DynColor(0, 0, 0, 0, 0, 0, 0, [])

  /** AttrHasDynamic, bit 8 of the attribute flags. */
  predicate HasDynamic(flags: U16) {
    flags / 256 % 2 == 1
  }

  /** Gradients carry stops. */
  predicate Gradient(d: DynColor) { d.kind >= 4 }

  // ----------------------------------------------------------------- writing

  function WriteBase(d: DynColor): (b: seq<Byte>)
    ensures |b| == 22
  {
    [d.kind] + Put32(d.base) + Put32(d.target) + [d.easing] + Put32(d.speed) + Put32(d.min) + Put32(d.max)
  }

  function WriteStop(s: ColorStop): (b: seq<Byte>)
    ensures |b| == 26
  {
    Put32(s.position) + WriteBase(s.color)
  }

  function WriteColor(d: DynColor): seq<Byte> {
    WriteBase(d) + if Gradient(d) then [|d.stops| % 256] + Concat(WriteStop, d.stops) else []
  }

  function WriteStyleBase(s: StyleEntry): (b: seq<Byte>)
    ensures |b| == 12
  {
    Put16(s.attrFlags) + [s.fgModel] + Put32(s.fgValue) + [s.bgModel] + Put32(s.bgValue)
  }

  function WriteStyle(s: StyleEntry): seq<Byte> {
    WriteStyleBase(s) + if HasDynamic(s.attrFlags) then WriteColor(s.dynFG) + WriteColor(s.dynBG) else []
  }

  function WriteSpan(s: CellSpan): seq<Byte> {
    Put16(s.startCol) + Put16(|s.text| % 0x1_0000) + Put16(s.styleIndex) + s.text
  }

  function WriteRow(r: RowDelta): seq<Byte> {
    Put16(r.row) + Put16(|r.spans| % 0x1_0000) + Concat(WriteSpan, r.spans)
  }

  function WriteList<T>(write: T -> seq<Byte>, xs: seq<T>): seq<Byte> {
    Put16(|xs| % 0x1_0000) + Concat(write, xs)
  }

  function WriteHeader(d: BufferDelta): (b: seq<Byte>)
    ensures |b| == 29
  {
    d.paneID + Put32(d.revision) + [d.flags] + Put64(FromI64(d.rowBase))
  }

  function WriteDelta(d: BufferDelta): seq<Byte> {
    WriteHeader(d) + WriteList(WriteStyle, d.styles) + WriteList(WriteRow, d.rows) + WriteList(WriteRow, d.decorRows)
  }

  // ----------------------------------------------------- the writer's checks

  function ColorError(d: DynColor): Option<Error> {
    if Gradient(d) && |d.stops| > 0xFF then Some(BufferTooLarge) else None
  }

  function StyleError(s: StyleEntry): Option<Error> {
    if !HasDynamic(s.attrFlags) then None
    else if ColorError(s.dynFG).Some? then ColorError(s.dynFG)
    else ColorError(s.dynBG)
  }

  function SpanError(styleCount: nat): CellSpan -> Option<Error> {
    (s: CellSpan) =>
      if |s.text| > Limit then Some(InvalidSpan)
      else if s.styleIndex >= styleCount then Some(StyleIndexOutOfRange)
      else None
  }

  /** A row; decoration rows have their index checked first. */
  function RowError(styleCount: nat, decor: bool): RowDelta -> Option<Error> {
    (r: RowDelta) =>
      if decor && r.row > MaxDecorRowIdx then Some(InvalidSpan)
      else if |r.spans| > Limit then Some(BufferTooLarge)
      else FirstError(SpanError(styleCount), r.spans)
  }

  /** The first check of EncodeBufferDelta that fails, in the order of the code. */
  function DeltaError(d: BufferDelta): Option<Error> {
    if |d.styles| > Limit || |d.rows| > Limit then Some(BufferTooLarge)
    else if FirstError(StyleError, d.styles).Some? then FirstError(StyleError, d.styles)
    else if FirstError(RowError(|d.styles|, false), d.rows).Some? then FirstError(RowError(|d.styles|, false), d.rows)
    else if |d.decorRows| > Limit then Some(BufferTooLarge)
    else FirstError(RowError(|d.styles|, true), d.decorRows)
  }

  function Encode(d: BufferDelta): Result<seq<Byte>> {
    match DeltaError(d)
    case Some(e) => Err(e)
    case None => Ok(WriteDelta(d))
  }

  // ----------------------------------------------------------------- reading

  function BaseAt(b: seq<Byte>, k: nat): DynColor
    requires k + 22 <= |b|
  {
    DynColor(b[k], Get32(b, k + 1), Get32(b, k + 5), b[k + 9], Get32(b, k + 10), Get32(b, k + 14), Get32(b, k + 18), [])
  }

  function ReadStop(b: seq<Byte>): Read<ColorStop> {
    if |b| < 26 then Bad(Panic) else Got(ColorStop(Get32(b, 0), BaseAt(b, 4)), b[26..])
  }

  /** One descriptor; nothing checks that its 22 bytes are there. */
  function ReadColor(b: seq<Byte>): Read<DynColor> {
    if |b| < 22 then Bad(Panic)
    else
      var d := BaseAt(b, 0);
      if !Gradient(d) then Got(d, b[22..])
      else if |b| < 23 then Bad(PayloadShort)
      else if |b| - 23 < b[22] as int * 26 then Bad(PayloadShort)
      else match Many(ReadStop, b[22], b[23..])
        case Bad(e) => Bad(e)
        case Got(stops, rest) => Got(d.(stops := stops), rest)
  }

  function StyleAt(b: seq<Byte>): StyleEntry
    requires |b| >= 12
  {
    StyleEntry(Get16(b, 0), b[2], Get32(b, 3), b[7], Get32(b, 8), NoColor, NoColor)
  }

  function ReadStyle(b: seq<Byte>): Read<StyleEntry> {
    if |b| < 12 then Bad(PayloadShort)
    else
      var s := StyleAt(b);
      if !HasDynamic(s.attrFlags) then Got(s, b[12..])
      else if |b| - 12 < 44 then Bad(PayloadShort)
      else match ReadColor(b[12..])
        case Bad(e) => Bad(e)
        case Got(fg, r) =>
          match ReadColor(r)
          case Bad(e) => Bad(e)
          case Got(bg, rest) => Got(s.(dynFG := fg, dynBG := bg), rest)
  }

  function ReadSpan(styleCount: nat): seq<Byte> -> Read<CellSpan> {
    (b: seq<Byte>) =>
      if |b| < 6 then Bad(PayloadShort)
      else if |b| - 6 < Get16(b, 2) then Bad(PayloadShort)
      else if Get16(b, 4) >= styleCount then Bad(StyleIndexOutOfRange)
      else Got(CellSpan(Get16(b, 0), b[6..6 + Get16(b, 2)], Get16(b, 4)), b[6 + Get16(b, 2)..])
  }

  /** A row; decoration rows also have their index checked before their spans are read. */
  function ReadRow(styleCount: nat, decor: bool): seq<Byte> -> Read<RowDelta> {
    (b: seq<Byte>) =>
      if |b| < 4 then Bad(PayloadShort)
      else if decor && Get16(b, 0) > MaxDecorRowIdx then Bad(InvalidSpan)
      else match Many(ReadSpan(styleCount), Get16(b, 2), b[4..])
        case Bad(e) => Bad(e)
        case Got(spans, rest) => Got(RowDelta(Get16(b, 0), spans), rest)
  }

  function ReadList<T>(read: seq<Byte> -> Read<T>, b: seq<Byte>): Read<seq<T>> {
    if |b| < 2 then Bad(PayloadShort) else Many(read, Get16(b, 0), b[2..])
  }

  function Decode(b: seq<Byte>): Result<BufferDelta> {
    if |b| < 29 then Err(PayloadShort)
    else match ReadList(ReadStyle, b[29..])
      case Bad(e) => Err(e)
      case Got(styles, r) =>
        match ReadList(ReadRow(|styles|, false), r)
        case Bad(e) => Err(e)
        case Got(rows, r') =>
          match ReadList(ReadRow(|styles|, true), r')
          case Bad(e) => Err(e)
          case Got(decor, rest) =>
            if rest != [] then Err(PayloadShort)
            else Ok(BufferDelta(b[..16], Get32(b, 16), b[20], ToI64(Get64(b, 21)), styles, rows, decor))
  }

  // -------------------------------------------------------------- normal form

  /** Stops only on gradients, and never nested. */
  predicate NormalColor(d: DynColor) {
    if Gradient(d) then |d.stops| <= 0xFF && forall i :: 0 <= i < |d.stops| ==> d.stops[i].color.stops == []
    else d.stops == []
  }

  /** Descriptors only behind AttrHasDynamic. */
  predicate NormalStyle(s: StyleEntry) {
    if HasDynamic(s.attrFlags) then NormalColor(s.dynFG) && NormalColor(s.dynBG)
    else s.dynFG == NoColor && s.dynBG == NoColor
  }

  predicate PlainStop(s: ColorStop) { s.color.stops == [] }

  function GoodSpan(styleCount: nat): CellSpan -> bool {
    (s: CellSpan) => |s.text| <= Limit && s.styleIndex < styleCount
  }

  function GoodRow(styleCount: nat, decor: bool): RowDelta -> bool {
    (r: RowDelta) =>
      && |r.spans| <= Limit && (decor ==> r.row <= MaxDecorRowIdx)
      && forall i :: 0 <= i < |r.spans| ==> GoodSpan(styleCount)(r.spans[i])
  }

  /** What Decode can produce: every list in its limits and every style in normal form. */
  predicate Normal(d: BufferDelta) {
    && |d.styles| <= Limit && |d.rows| <= Limit && |d.decorRows| <= Limit
    && (forall i :: 0 <= i < |d.styles| ==> NormalStyle(d.styles[i]))
    && (forall i :: 0 <= i < |d.rows| ==> GoodRow(|d.styles|, false)(d.rows[i]))
    && (forall i :: 0 <= i < |d.decorRows| ==> GoodRow(|d.styles|, true)(d.decorRows[i]))
  }

  // ------------------------------------------------------------- record laws

  lemma {:induction false} BaseReads(d: DynColor, a: seq<Byte>, c: seq<Byte>)
    ensures |a + WriteBase(d) + c| >= |a| + 22
    ensures BaseAt(a + WriteBase(d) + c, |a|) == d.(stops := [])
  {
    hide Put32, Get32;
    Len32(d.base);
    Len32(d.target);
    Len32(d.speed);
    Len32(d.min);
    Len32(d.max);
    var b := a + WriteBase(d) + c;
    var p0, p1, p2 := Put32(d.base), Put32(d.target), Put32(d.speed);
    var p3, p4 := Put32(d.min), Put32(d.max);
    assert b == (a + [d.kind]) + p0 + (p1 + [d.easing] + p2 + p3 + p4 + c);
    Read32(d.base, a + [d.kind], p1 + [d.easing] + p2 + p3 + p4 + c);
    assert b == (a + [d.kind] + p0) + p1 + ([d.easing] + p2 + p3 + p4 + c);
    Read32(d.target, a + [d.kind] + p0, [d.easing] + p2 + p3 + p4 + c);
    assert b == (a + [d.kind] + p0 + p1 + [d.easing]) + p2 + (p3 + p4 + c);
    Read32(d.speed, a + [d.kind] + p0 + p1 + [d.easing], p3 + p4 + c);
    assert b == (a + [d.kind] + p0 + p1 + [d.easing] + p2) + p3 + (p4 + c);
    Read32(d.min, a + [d.kind] + p0 + p1 + [d.easing] + p2, p4 + c);
    assert b == (a + [d.kind] + p0 + p1 + [d.easing] + p2 + p3) + p4 + c;
    Read32(d.max, a + [d.kind] + p0 + p1 + [d.easing] + p2 + p3, c);
  }

  lemma {:induction false} BaseWrites(b: seq<Byte>, k: nat)
    requires k + 22 <= |b|
    ensures WriteBase(BaseAt(b, k)) == b[k..k + 22]
  {
    hide Put32, Get32;
    Write32(b, k + 1);
    Write32(b, k + 5);
    Write32(b, k + 10);
    Write32(b, k + 14);
    Write32(b, k + 18);
    assert [b[k]] == b[k..k + 1] && [b[k + 9]] == b[k + 9..k + 10];
    Join(b, k, k + 1, k + 5);
    Join(b, k, k + 5, k + 9);
    Join(b, k, k + 9, k + 10);
    Join(b, k, k + 10, k + 14);
    Join(b, k, k + 14, k + 18);
    Join(b, k, k + 18, k + 22);
  }

  lemma {:induction false} StopLaws()
    ensures ReadsBack(ReadStop, WriteStop, PlainStop) && WritesBack(ReadStop, WriteStop, PlainStop)
  {
    forall x, rest | PlainStop(x) ensures ReadStop(WriteStop(x) + rest) == Got(x, rest) { StopReads(x, rest); }
    forall b | ReadStop(b).Got?
      ensures PlainStop(ReadStop(b).value) && b == WriteStop(ReadStop(b).value) + ReadStop(b).rest
    {
      StopWrites(b);
    }
  }

  lemma {:induction false} StopReads(x: ColorStop, rest: seq<Byte>)
    requires PlainStop(x)
    ensures ReadStop(WriteStop(x) + rest) == Got(x, rest)
  {
    hide Put32, Get32, WriteBase, BaseAt;
    var b := WriteStop(x) + rest;
    assert b == [] + Put32(x.position) + (WriteBase(x.color) + rest);
    Read32(x.position, [], WriteBase(x.color) + rest);
    assert b == Put32(x.position) + WriteBase(x.color) + rest;
    BaseReads(x.color, Put32(x.position), rest);
    assert b[26..] == rest;
  }

  lemma {:induction false} StopWrites(b: seq<Byte>)
    requires ReadStop(b).Got?
    ensures PlainStop(ReadStop(b).value) && b == WriteStop(ReadStop(b).value) + ReadStop(b).rest
  {
    hide Put32, Get32, WriteBase;
    Write32(b, 0);
    BaseWrites(b, 4);
    Join(b, 0, 4, 26);
    assert b == b[0..26] + b[26..];
  }

  lemma {:induction false} ColorReads(x: DynColor, rest: seq<Byte>)
    requires NormalColor(x)
    ensures ReadColor(WriteColor(x) + rest) == Got(x, rest)
  {
    hide Put32, Get32, WriteBase, BaseAt, ReadStop, WriteStop, Many, Concat, ReadsBack, WritesBack;
    var tail := if Gradient(x) then [|x.stops| % 256] + Concat(WriteStop, x.stops) else [];
    var b := WriteColor(x) + rest;
    assert b == [] + WriteBase(x) + (tail + rest);
    BaseReads(x, [], tail + rest);
    if Gradient(x) {
      var stops := Concat(WriteStop, x.stops) + rest;
      assert b[22] == |x.stops| && b[23..] == stops;
      StopLaws();
      ManyReadsBack(ReadStop, WriteStop, PlainStop, x.stops, rest);
      ConcatLength(WriteStop, x.stops, 26);
    } else {
      assert b[22..] == rest;
    }
  }

  lemma {:induction false} ConcatLength<T>(write: T -> seq<Byte>, xs: seq<T>, size: nat)
    requires forall i :: 0 <= i < |xs| ==> |write(xs[i])| == size
    ensures |Concat(write, xs)| == |xs| * size
  {
    if xs != [] { ConcatLength(write, xs[1..], size); }
  }

  lemma {:induction false} ColorWrites(b: seq<Byte>)
    requires ReadColor(b).Got?
    ensures NormalColor(ReadColor(b).value) && b == WriteColor(ReadColor(b).value) + ReadColor(b).rest
  {
    hide Put32, Get32, WriteBase, ReadStop, WriteStop, Many, Concat, ReadsBack, WritesBack;
    var x, rest := ReadColor(b).value, ReadColor(b).rest;
    BaseWrites(b, 0);
    BaseIgnoresStops(BaseAt(b, 0), x.stops);
    assert b == b[0..22] + b[22..];
    if Gradient(x) {
      StopLaws();
      ManyWritesBack(ReadStop, WriteStop, PlainStop, b[22], b[23..]);
      assert b[22..] == [b[22]] + b[23..];
    }
  }

  lemma {:induction false} BaseIgnoresStops(d: DynColor, stops: seq<ColorStop>)
    ensures WriteBase(d.(stops := stops)) == WriteBase(d)
  {
  }

  lemma {:induction false} StyleBaseReads(s: StyleEntry, c: seq<Byte>)
    ensures |WriteStyleBase(s) + c| >= 12
    ensures StyleAt(WriteStyleBase(s) + c) == s.(dynFG := NoColor, dynBG := NoColor)
  {
    hide Put32, Get32, Put16, Get16;
    var b := WriteStyleBase(s) + c;
    var p0, p1, p2 := Put16(s.attrFlags), Put32(s.fgValue), Put32(s.bgValue);
    assert b == [] + p0 + ([s.fgModel] + p1 + [s.bgModel] + p2 + c);
    Read16(s.attrFlags, [], [s.fgModel] + p1 + [s.bgModel] + p2 + c);
    Len16(s.attrFlags);
    Len32(s.fgValue);
    Len16(s.attrFlags);
    Len32(s.bgValue);
    assert b == (p0 + [s.fgModel]) + p1 + ([s.bgModel] + p2 + c);
    Read32(s.fgValue, p0 + [s.fgModel], [s.bgModel] + p2 + c);
    assert b == (p0 + [s.fgModel] + p1 + [s.bgModel]) + p2 + c;
    Read32(s.bgValue, p0 + [s.fgModel] + p1 + [s.bgModel], c);
  }

  lemma {:induction false} StyleBaseWrites(b: seq<Byte>)
    requires |b| >= 12
    ensures WriteStyleBase(StyleAt(b)) == b[..12]
  {
    hide Put32, Get32, Put16, Get16;
    Write16(b, 0);
    Write32(b, 3);
    Write32(b, 8);
    assert [b[2]] == b[2..3] && [b[7]] == b[7..8];
    Join(b, 0, 2, 3);
    Join(b, 0, 3, 7);
    Join(b, 0, 7, 8);
    Join(b, 0, 8, 12);
  }

  lemma {:induction false} StyleReads(x: StyleEntry, rest: seq<Byte>)
    requires NormalStyle(x)
    ensures ReadStyle(WriteStyle(x) + rest) == Got(x, rest)
  {
    hide WriteStyleBase, StyleAt, WriteColor, ReadColor, HasDynamic, NormalColor, Put16, Put32, Get16, Get32;
    var tail := if HasDynamic(x.attrFlags) then WriteColor(x.dynFG) + WriteColor(x.dynBG) else [];
    var b := WriteStyle(x) + rest;
    assert b == WriteStyleBase(x) + (tail + rest);
    StyleBaseReads(x, tail + rest);
    assert b[12..] == tail + rest;
    if HasDynamic(x.attrFlags) {
      assert tail + rest == WriteColor(x.dynFG) + (WriteColor(x.dynBG) + rest);
      ColorReads(x.dynFG, WriteColor(x.dynBG) + rest);
      ColorReads(x.dynBG, rest);
      ColorLength(x.dynFG);
      ColorLength(x.dynBG);
    } else {
      assert b[12..] == rest;
    }
  }

  lemma {:induction false} ColorLength(d: DynColor)
    ensures |WriteColor(d)| >= 22
  {
  }

  lemma {:induction false} StyleWrites(b: seq<Byte>)
    requires ReadStyle(b).Got?
    ensures NormalStyle(ReadStyle(b).value) && b == WriteStyle(ReadStyle(b).value) + ReadStyle(b).rest
  {
    hide WriteStyleBase, WriteColor, ReadColor, HasDynamic, NormalColor, Put16, Put32, Get16, Get32;
    StyleBaseWrites(b);
    var x := ReadStyle(b).value;
    StyleIgnoresColors(StyleAt(b), x.dynFG, x.dynBG);
    assert b == b[..12] + b[12..];
    if HasDynamic(x.attrFlags) {
      ColorWrites(b[12..]);
      ColorWrites(ReadColor(b[12..]).rest);
    }
  }

  lemma {:induction false} StyleIgnoresColors(s: StyleEntry, fg: DynColor, bg: DynColor)
    ensures WriteStyleBase(s.(dynFG := fg, dynBG := bg)) == WriteStyleBase(s)
  {
  }

  lemma {:induction false} StyleLaws()
    ensures ReadsBack(ReadStyle, WriteStyle, NormalStyle) && WritesBack(ReadStyle, WriteStyle, NormalStyle)
  {
    hide ReadStyle, WriteStyle, NormalStyle;
    forall x, rest | NormalStyle(x) ensures ReadStyle(WriteStyle(x) + rest) == Got(x, rest) { StyleReads(x, rest); }
    forall b | ReadStyle(b).Got?
      ensures NormalStyle(ReadStyle(b).value) && b == WriteStyle(ReadStyle(b).value) + ReadStyle(b).rest
    {
      StyleWrites(b);
    }
  }

  lemma {:induction false} SpanReads(n: nat, x: CellSpan, rest: seq<Byte>)
    requires GoodSpan(n)(x)
    ensures ReadSpan(n)(WriteSpan(x) + rest) == Got(x, rest)
  {
    hide Put16, Get16;
    var b := WriteSpan(x) + rest;
    var len := |x.text|;
    var p0, p1, p2 := Put16(x.startCol), Put16(len), Put16(x.styleIndex);
    Len16(x.startCol);
    Len16(len);
    Len16(x.styleIndex);
    assert b == [] + p0 + (p1 + p2 + x.text + rest);
    Read16(x.startCol, [], p1 + p2 + x.text + rest);
    assert b == p0 + p1 + (p2 + x.text + rest);
    Read16(len, p0, p2 + x.text + rest);
    assert b == (p0 + p1) + p2 + (x.text + rest);
    Read16(x.styleIndex, p0 + p1, x.text + rest);
    assert b[6..6 + len] == x.text && b[6 + len..] == rest;
  }

  lemma {:induction false} SpanWrites(n: nat, b: seq<Byte>)
    requires ReadSpan(n)(b).Got?
    ensures var r := ReadSpan(n)(b); GoodSpan(n)(r.value) && b == WriteSpan(r.value) + r.rest
  {
    hide Put16, Get16;
    Write16(b, 0);
    Write16(b, 2);
    Write16(b, 4);
    Join(b, 0, 2, 4);
    Join(b, 0, 4, 6);
    var len: int := Get16(b, 2);
    Join(b, 0, 6, 6 + len);
    assert b == b[0..6 + len] + b[6 + len..];
  }

  lemma {:induction false} SpanLaws(n: nat)
    ensures ReadsBack(ReadSpan(n), WriteSpan, GoodSpan(n)) && WritesBack(ReadSpan(n), WriteSpan, GoodSpan(n))
  {
    hide ReadSpan, WriteSpan, GoodSpan;
    forall x, rest | GoodSpan(n)(x) ensures ReadSpan(n)(WriteSpan(x) + rest) == Got(x, rest) { SpanReads(n, x, rest); }
    forall b | ReadSpan(n)(b).Got?
      ensures GoodSpan(n)(ReadSpan(n)(b).value) && b == WriteSpan(ReadSpan(n)(b).value) + ReadSpan(n)(b).rest
    {
      SpanWrites(n, b);
    }
  }

  lemma {:induction false} RowReads(n: nat, decor: bool, x: RowDelta, rest: seq<Byte>)
    requires GoodRow(n, decor)(x)
    ensures ReadRow(n, decor)(WriteRow(x) + rest) == Got(x, rest)
  {
    hide Put16, Get16, ReadSpan, WriteSpan, GoodSpan, Many, Concat, ReadsBack, WritesBack;
    var b := WriteRow(x) + rest;
    var count := |x.spans|;
    var p0, p1, c := Put16(x.row), Put16(count), Concat(WriteSpan, x.spans);
    Len16(x.row);
    Len16(count);
    assert b == [] + p0 + (p1 + c + rest);
    Read16(x.row, [], p1 + c + rest);
    assert b == p0 + p1 + (c + rest);
    Read16(count, p0, c + rest);
    assert b[4..] == c + rest;
    SpanLaws(n);
    ManyReadsBack(ReadSpan(n), WriteSpan, GoodSpan(n), x.spans, rest);
  }

  lemma {:induction false} RowWrites(n: nat, decor: bool, b: seq<Byte>)
    requires ReadRow(n, decor)(b).Got?
    ensures var r := ReadRow(n, decor)(b); GoodRow(n, decor)(r.value) && b == WriteRow(r.value) + r.rest
  {
    hide Put16, Get16, ReadSpan, WriteSpan, GoodSpan, Many, Concat, ReadsBack, WritesBack;
    Write16(b, 0);
    Write16(b, 2);
    Join(b, 0, 2, 4);
    assert b == b[0..4] + b[4..];
    SpanLaws(n);
    ManyWritesBack(ReadSpan(n), WriteSpan, GoodSpan(n), Get16(b, 2), b[4..]);
  }

  lemma {:induction false} RowLaws(n: nat, decor: bool)
    ensures ReadsBack(ReadRow(n, decor), WriteRow, GoodRow(n, decor))
    ensures WritesBack(ReadRow(n, decor), WriteRow, GoodRow(n, decor))
  {
    hide ReadRow, WriteRow, GoodRow;
    forall x, rest | GoodRow(n, decor)(x) ensures ReadRow(n, decor)(WriteRow(x) + rest) == Got(x, rest) {
      RowReads(n, decor, x, rest);
    }
    forall b | ReadRow(n, decor)(b).Got?
      ensures GoodRow(n, decor)(ReadRow(n, decor)(b).value)
      ensures b == WriteRow(ReadRow(n, decor)(b).value) + ReadRow(n, decor)(b).rest
    {
      RowWrites(n, decor, b);
    }
  }

  lemma {:induction false} ListReads<T(!new)>(read: seq<Byte> -> Read<T>, write: T -> seq<Byte>, ok: T -> bool,
                                             xs: seq<T>, rest: seq<Byte>)
    requires ReadsBack(read, write, ok) && |xs| <= Limit && forall i :: 0 <= i < |xs| ==> ok(xs[i])
    ensures ReadList(read, WriteList(write, xs) + rest) == Got(xs, rest)
  {
    hide Put16, Get16, Many, Concat, ReadsBack;
    var b, c := WriteList(write, xs) + rest, Concat(write, xs);
    Len16(|xs|);
    assert b == [] + Put16(|xs|) + (c + rest);
    Read16(|xs|, [], c + rest);
    assert b[2..] == c + rest;
    ManyReadsBack(read, write, ok, xs, rest);
  }

  lemma {:induction false} ListWrites<T>(read: seq<Byte> -> Read<T>, write: T -> seq<Byte>, ok: T -> bool, b: seq<Byte>)
    requires WritesBack(read, write, ok) && ReadList(read, b).Got?
    ensures var r := ReadList(read, b);
      && |r.value| <= Limit && b == WriteList(write, r.value) + r.rest
      && forall i :: 0 <= i < |r.value| ==> ok(r.value[i])
  {
    hide Put16, Get16, Many, Concat, WritesBack;
    Write16(b, 0);
    assert b == b[0..2] + b[2..];
    ManyWritesBack(read, write, ok, Get16(b, 0), b[2..]);
  }

  // ------------------------------------------------------------------- header

  /** Where the fixed fields of a payload stand. */
  function HeaderAt(b: seq<Byte>): BufferDelta
    requires |b| >= 29
  {
    BufferDelta(b[..16], Get32(b, 16), b[20], ToI64(Get64(b, 21)), [], [], [])
  }

  lemma {:induction false} HeaderReads(d: BufferDelta, c: seq<Byte>)
    ensures |WriteHeader(d) + c| >= 29 && (WriteHeader(d) + c)[29..] == c
    ensures HeaderAt(WriteHeader(d) + c) == d.(styles := [], rows := [], decorRows := [])
  {
    hide Put32, Get32, Put64, Get64;
    var b := WriteHeader(d) + c;
    var p0, p1 := Put32(d.revision), Put64(FromI64(d.rowBase));
    Len32(d.revision);
    Len64(FromI64(d.rowBase));
    assert b == d.paneID + p0 + ([d.flags] + p1 + c);
    Read32(d.revision, d.paneID, [d.flags] + p1 + c);
    assert b == (d.paneID + p0 + [d.flags]) + p1 + c;
    Read64(FromI64(d.rowBase), d.paneID + p0 + [d.flags], c);
    assert b[..16] == d.paneID;
  }

  lemma {:induction false} HeaderWrites(b: seq<Byte>, d: BufferDelta)
    requires |b| >= 29 && d.(styles := [], rows := [], decorRows := []) == HeaderAt(b)
    ensures WriteHeader(d) == b[..29]
  {
    hide Put32, Get32, Put64, Get64;
    Write32(b, 16);
    Write64(b, 21);
    assert d.paneID == b[0..16] && [b[20]] == b[20..21];
    Join(b, 0, 16, 20);
    Join(b, 0, 20, 21);
    Join(b, 0, 21, 29);
  }

  // -------------------------------------------------------------- round trips

  /** Decoding what was written gives back every delta in normal form. */
  lemma {:induction false} DecodeEncode(d: BufferDelta)
    requires Normal(d)
    ensures Decode(WriteDelta(d)) == Ok(d)
  {
    hide WriteHeader, WriteList, ReadList, ReadsBack, WritesBack, ReadStyle, WriteStyle, NormalStyle, ReadRow, WriteRow,
      GoodRow, Get32, Get64;
    var n := |d.styles|;
    var styles, rows := WriteList(WriteStyle, d.styles), WriteList(WriteRow, d.rows);
    var decor := WriteList(WriteRow, d.decorRows);
    assert WriteDelta(d) == WriteHeader(d) + (styles + (rows + decor));
    HeaderReads(d, styles + (rows + decor));
    StyleLaws();
    ListReads(ReadStyle, WriteStyle, NormalStyle, d.styles, rows + decor);
    RowLaws(n, false);
    ListReads(ReadRow(n, false), WriteRow, GoodRow(n, false), d.rows, decor);
    RowLaws(n, true);
    ListReads(ReadRow(n, true), WriteRow, GoodRow(n, true), d.decorRows, []);
    assert decor + [] == decor;
  }

  /** Every accepted payload decodes to a delta in normal form and is that delta's only encoding. */
  lemma {:induction false} EncodeDecode(b: seq<Byte>)
    requires Decode(b).Ok?
    ensures Normal(Decode(b).value) && Encode(Decode(b).value) == Ok(b)
  {
    hide WriteHeader, WriteList, ReadList, ReadsBack, WritesBack, ReadStyle, WriteStyle, NormalStyle, ReadRow, WriteRow,
      GoodRow, Get32, Get64, DeltaError;
    var d := Decode(b).value;
    HeaderWrites(b, d);
    StyleLaws();
    ListWrites(ReadStyle, WriteStyle, NormalStyle, b[29..]);
    var r := ReadList(ReadStyle, b[29..]).rest;
    RowLaws(|d.styles|, false);
    ListWrites(ReadRow(|d.styles|, false), WriteRow, GoodRow(|d.styles|, false), r);
    var r' := ReadList(ReadRow(|d.styles|, false), r).rest;
    RowLaws(|d.styles|, true);
    ListWrites(ReadRow(|d.styles|, true), WriteRow, GoodRow(|d.styles|, true), r');
    var styles, rows := WriteList(WriteStyle, d.styles), WriteList(WriteRow, d.rows);
    var decor := WriteList(WriteRow, d.decorRows);
    assert b == b[..29] + b[29..];
    assert b[..29] + (styles + (rows + (decor + []))) == b[..29] + styles + rows + decor;
    NormalEncodes(d);
  }

  lemma {:induction false} RowErrorNone(n: nat, r: RowDelta)
    ensures RowError(n, false)(r) == None <==> GoodRow(n, false)(r)
    ensures RowError(n, true)(r) == None <==> GoodRow(n, true)(r)
  {
    FirstErrorNone(SpanError(n), r.spans);
    forall s: CellSpan ensures SpanError(n)(s) == None <==> GoodSpan(n)(s) {}
  }

  predicate LongColor(d: DynColor) { d.kind >= 4 && |d.stops| > 255 }

  predicate LongStyle(s: StyleEntry) {
    s.attrFlags / 256 % 2 == 1 && (LongColor(s.dynFG) || LongColor(s.dynBG))
  }

  ghost predicate StylePast(rows: seq<RowDelta>, n: nat) {
    exists i, j :: 0 <= i < |rows| && 0 <= j < |rows[i].spans| && rows[i].spans[j].styleIndex >= n
  }

  ghost predicate TextTooLong(rows: seq<RowDelta>) {
    exists i, j :: 0 <= i < |rows| && 0 <= j < |rows[i].spans| && |rows[i].spans[j].text| > 65535
  }

  /** Why a row is refused. */
  lemma {:induction false} RowRefused(rows: seq<RowDelta>, n: nat, decor: bool)
    requires FirstError(RowError(n, decor), rows).Some?
    ensures match FirstError(RowError(n, decor), rows).value
      case BufferTooLarge => exists i :: 0 <= i < |rows| && |rows[i].spans| > 65535
      case StyleIndexOutOfRange => StylePast(rows, n)
      case InvalidSpan =>
        TextTooLong(rows) || (decor && exists i :: 0 <= i < |rows| && rows[i].row > 4096)
      case _ => false
  {
    var i := FirstErrorOf(RowError(n, decor), rows);
    if !(decor && rows[i].row > MaxDecorRowIdx) && |rows[i].spans| <= Limit {
      var j := FirstErrorOf(SpanError(n), rows[i].spans);
      assert SpanError(n)(rows[i].spans[j]) == FirstError(RowError(n, decor), rows);
    }
  }

  /**
   * Each refusal has its reason: a list too long for its count, a style index
   * past the table, a text too long, or a decoration row past 4096.
   */
  lemma {:induction false} RefusedBecause(d: BufferDelta)
    requires Encode(d).Err?
    ensures match Encode(d).error
      case BufferTooLarge =>
        || |d.styles| > 65535 || |d.rows| > 65535 || |d.decorRows| > 65535
        || (exists i :: 0 <= i < |d.styles| && LongStyle(d.styles[i]))
        || (exists i :: 0 <= i < |d.rows| && |d.rows[i].spans| > 65535)
        || (exists i :: 0 <= i < |d.decorRows| && |d.decorRows[i].spans| > 65535)
      case StyleIndexOutOfRange =>
        StylePast(d.rows, |d.styles|) || StylePast(d.decorRows, |d.styles|)
      case InvalidSpan =>
        || TextTooLong(d.rows) || TextTooLong(d.decorRows)
        || (exists i :: 0 <= i < |d.decorRows| && d.decorRows[i].row > 4096)
      case _ => false
  {
    hide RowError, StylePast, TextTooLong, FirstError, WriteDelta;
    if FirstError(StyleError, d.styles).Some? {
      var i := FirstErrorOf(StyleError, d.styles);
      assert LongStyle(d.styles[i]);
    }
    if FirstError(RowError(|d.styles|, false), d.rows).Some? { RowRefused(d.rows, |d.styles|, false); }
    if FirstError(RowError(|d.styles|, true), d.decorRows).Some? { RowRefused(d.decorRows, |d.styles|, true); }
  }

  /** And what it takes keeps within all of these. */
  lemma {:induction false} AcceptedWithin(d: BufferDelta)
    requires Encode(d).Ok?
    ensures |d.styles| <= 65535 && |d.rows| <= 65535 && |d.decorRows| <= 65535
    ensures forall i :: 0 <= i < |d.styles| ==> !LongStyle(d.styles[i])
    ensures !StylePast(d.rows, |d.styles|) && !StylePast(d.decorRows, |d.styles|)
    ensures !TextTooLong(d.rows) && !TextTooLong(d.decorRows)
    ensures forall i :: 0 <= i < |d.rows| ==> |d.rows[i].spans| <= 65535
    ensures forall i :: 0 <= i < |d.decorRows| ==> |d.decorRows[i].spans| <= 65535 && d.decorRows[i].row <= 4096
  {
    hide WriteDelta, DeltaError;
    EncodableExactly(d);
    forall i | 0 <= i < |d.styles| ensures !LongStyle(d.styles[i]) { assert StyleError(d.styles[i]) == None; }
    forall i | 0 <= i < |d.rows| ensures GoodRow(|d.styles|, false)(d.rows[i]) {}
    forall i | 0 <= i < |d.decorRows| ensures GoodRow(|d.styles|, true)(d.decorRows[i]) {}
  }

  /** What the writer refuses: a list over its limit, a bad row or an oversized gradient. */
  lemma {:induction false} EncodableExactly(d: BufferDelta)
    ensures DeltaError(d) == None <==>
            && |d.styles| <= Limit && |d.rows| <= Limit && |d.decorRows| <= Limit
            && (forall i :: 0 <= i < |d.styles| ==> StyleError(d.styles[i]) == None)
            && (forall i :: 0 <= i < |d.rows| ==> GoodRow(|d.styles|, false)(d.rows[i]))
            && (forall i :: 0 <= i < |d.decorRows| ==> GoodRow(|d.styles|, true)(d.decorRows[i]))
  {
    hide StyleError, RowError, GoodRow;
    var n := |d.styles|;
    FirstErrorNone(StyleError, d.styles);
    FirstErrorNone(RowError(n, false), d.rows);
    FirstErrorNone(RowError(n, true), d.decorRows);
    forall r: RowDelta
      ensures RowError(n, false)(r) == None <==> GoodRow(n, false)(r)
      ensures RowError(n, true)(r) == None <==> GoodRow(n, true)(r)
    {
      RowErrorNone(n, r);
    }
  }

  lemma {:induction false} NormalEncodes(d: BufferDelta)
    requires Normal(d)
    ensures Encode(d) == Ok(WriteDelta(d))
  {
    hide DeltaError, GoodRow, WriteDelta;
    EncodableExactly(d);
  }

  // ------------------------------------------------------- what encoding drops

  function Each<T>(f: T -> T, xs: seq<T>): seq<T> {
    seq(|xs|, i requires 0 <= i < |xs| => f(xs[i]))
  }

  function CanonStop(s: ColorStop): ColorStop { s.(color := s.color.(stops := [])) }

  function CanonColor(d: DynColor): DynColor {
    d.(stops := if Gradient(d) then Each(CanonStop, d.stops) else [])
  }

  function CanonStyle(s: StyleEntry): StyleEntry {
    if HasDynamic(s.attrFlags) then s.(dynFG := CanonColor(s.dynFG), dynBG := CanonColor(s.dynBG))
    else s.(dynFG := NoColor, dynBG := NoColor)
  }

  /** The delta without what the wire form does not carry. */
  function Canon(d: BufferDelta): BufferDelta {
    d.(styles := Each(CanonStyle, d.styles))
  }

  lemma {:induction false} EachWrites<T>(f: T -> T, write: T -> seq<Byte>, xs: seq<T>)
    requires forall i :: 0 <= i < |xs| ==> write(f(xs[i])) == write(xs[i])
    ensures Concat(write, Each(f, xs)) == Concat(write, xs)
  {
    if xs != [] {
      EachWrites(f, write, xs[1..]);
      assert Each(f, xs)[1..] == Each(f, xs[1..]);
    }
  }

  lemma {:induction false} CanonColorWrites(d: DynColor)
    ensures WriteColor(CanonColor(d)) == WriteColor(d)
  {
    hide WriteBase, Put32;
    forall i | 0 <= i < |d.stops| ensures WriteStop(CanonStop(d.stops[i])) == WriteStop(d.stops[i]) {
      BaseIgnoresStops(d.stops[i].color, []);
    }
    EachWrites(CanonStop, WriteStop, d.stops);
    BaseIgnoresStops(d, CanonColor(d).stops);
  }

  lemma {:induction false} CanonColorNormal(d: DynColor)
    ensures ColorError(d) == None ==> NormalColor(CanonColor(d))
    ensures NormalColor(d) ==> CanonColor(d) == d && ColorError(d) == None
  {
    if Gradient(d) {
      forall i | 0 <= i < |d.stops| ensures CanonColor(d).stops[i] == CanonStop(d.stops[i]) {}
    }
    if NormalColor(d) { assert CanonColor(d).stops == d.stops; }
  }

  lemma {:induction false} CanonStyleWrites(s: StyleEntry)
    ensures WriteStyle(CanonStyle(s)) == WriteStyle(s)
    ensures StyleError(s) == None ==> NormalStyle(CanonStyle(s))
    ensures NormalStyle(s) ==> CanonStyle(s) == s && StyleError(s) == None
  {
    hide WriteColor, WriteStyleBase, HasDynamic, CanonColor, NormalColor, ColorError;
    CanonColorWrites(s.dynFG);
    CanonColorWrites(s.dynBG);
    CanonColorNormal(s.dynFG);
    CanonColorNormal(s.dynBG);
    StyleIgnoresColors(s, CanonStyle(s).dynFG, CanonStyle(s).dynBG);
  }

  /** Encoding then decoding gives the delta's canonical form, whatever the delta. */
  lemma {:induction false} DecodeEncodeCanon(d: BufferDelta)
    requires Encode(d).Ok?
    ensures Decode(Encode(d).value) == Ok(Canon(d)) && Normal(Canon(d))
  {
    hide WriteStyle, WriteRow, GoodRow, StyleError, NormalStyle, CanonStyle, WriteHeader, DeltaError, Decode;
    EncodableExactly(d);
    forall i | 0 <= i < |d.styles|
      ensures WriteStyle(CanonStyle(d.styles[i])) == WriteStyle(d.styles[i]) && NormalStyle(CanonStyle(d.styles[i]))
    {
      CanonStyleWrites(d.styles[i]);
    }
    EachWrites(CanonStyle, WriteStyle, d.styles);
    HeaderIgnoresLists(d, Canon(d));
    DecodeEncode(Canon(d));
  }

  lemma {:induction false} HeaderIgnoresLists(d: BufferDelta, e: BufferDelta)
    requires d.paneID == e.paneID && d.revision == e.revision && d.flags == e.flags && d.rowBase == e.rowBase
    ensures WriteHeader(d) == WriteHeader(e)
  {
  }

  /** The round trip is exact for the deltas in normal form and for no other. */
  lemma {:induction false} RoundTripExactly(d: BufferDelta)
    requires Encode(d).Ok?
    ensures Decode(Encode(d).value) == Ok(d) <==> Normal(d)
  {
    hide GoodRow, NormalStyle, CanonStyle, DeltaError, Decode, WriteDelta;
    DecodeEncodeCanon(d);
    if Normal(d) {
      forall i | 0 <= i < |d.styles| ensures CanonStyle(d.styles[i]) == d.styles[i] { CanonStyleWrites(d.styles[i]); }
      assert Each(CanonStyle, d.styles) == d.styles;
    }
  }

  /** Two deltas with the same encoding have the same canonical form, and conversely. */
  lemma {:induction false} SameEncoding(d: BufferDelta, e: BufferDelta)
    requires Encode(d).Ok? && Encode(e).Ok?
    ensures Encode(d) == Encode(e) <==> Canon(d) == Canon(e)
  {
    hide DeltaError, Decode, WriteDelta, Canon;
    DecodeEncodeCanon(d);
    DecodeEncodeCanon(e);
    CanonEncodes(d);
    CanonEncodes(e);
  }

  lemma {:induction false} CanonEncodes(d: BufferDelta)
    requires Encode(d).Ok?
    ensures Encode(Canon(d)) == Encode(d)
  {
    hide WriteStyle, WriteRow, DeltaError, CanonStyle, WriteHeader, Decode;
    DecodeEncodeCanon(d);
    NormalEncodes(Canon(d));
    forall i | 0 <= i < |d.styles| ensures WriteStyle(CanonStyle(d.styles[i])) == WriteStyle(d.styles[i]) {
      CanonStyleWrites(d.styles[i]);
    }
    EachWrites(CanonStyle, WriteStyle, d.styles);
    HeaderIgnoresLists(d, Canon(d));
  }

  // ------------------------------------------------- reading past the payload

  /**
   * The style at the front carries a gradient foreground after which fewer
   * than 22 bytes are left for the background.
   */
  predicate CutShort(b: seq<Byte>) {
    && |b| >= 56 && HasDynamic(Get16(b, 0)) && b[12] >= 4
    && 0 <= |b| - 35 - 26 * b[34] as int < 22
  }

  /** The only panic: the length test covers two descriptors without their stops. */
  lemma {:induction false} StylePanicsExactly(b: seq<Byte>)
    ensures ReadStyle(b) == Bad(Panic) <==> CutShort(b)
  {
    hide HasDynamic, Get16, Get32;
    if |b| >= 56 {
      ColorPanics(b[12..]);
      assert b[12..][0] == b[12] && b[12..][22] == b[34];
      if ReadColor(b[12..]).Got? { ColorPanics(ReadColor(b[12..]).rest); }
    }
  }

  lemma {:induction false} ColorPanics(b: seq<Byte>)
    ensures ReadColor(b) == Bad(Panic) <==> |b| < 22
    ensures ReadColor(b).Bad? && |b| >= 22 ==> b[0] >= 4
    ensures ReadColor(b).Got? && b[0] < 4 ==> |ReadColor(b).rest| == |b| - 22
    ensures |b| >= 23 && b[0] >= 4 ==>
            && (ReadColor(b).Got? <==> |b| - 23 >= 26 * b[22] as int)
            && (ReadColor(b).Got? ==> |ReadColor(b).rest| == |b| - 23 - 26 * b[22] as int)
  {
    hide Get32, WriteBase;
    if |b| >= 23 && b[0] >= 4 && |b| - 23 >= b[22] as int * 26 { StopsFit(b[22], b[23..]); }
  }

  lemma {:induction false} StopsFit(n: nat, b: seq<Byte>)
    requires |b| >= 26 * n
    ensures Many(ReadStop, n, b).Got? && |Many(ReadStop, n, b).rest| == |b| - 26 * n
  {
    hide Get32;
    if n > 0 { StopsFit(n - 1, b[26..]); }
  }

  lemma {:induction false} ManyFailsAt<T>(read: seq<Byte> -> Read<T>, n: nat, b: seq<Byte>, k: nat, e: Error)
    requires k < n && Many(read, k, b).Got? && read(Many(read, k, b).rest) == Bad(e)
    ensures Many(read, n, b) == Bad(e)
  {
    if k > 0 { ManyFailsAt(read, n - 1, read(b).rest, k - 1, e); }
  }

  lemma {:induction false} ManyFailsWhere<T>(read: seq<Byte> -> Read<T>, n: nat, b: seq<Byte>, e: Error)
    returns (k: nat)
    requires Many(read, n, b) == Bad(e)
    ensures k < n && Many(read, k, b).Got? && read(Many(read, k, b).rest) == Bad(e)
  {
    if read(b).Bad? {
      k := 0;
    } else {
      var j := ManyFailsWhere(read, n - 1, read(b).rest, e);
      k := j + 1;
    }
  }

  /** A reading loop fails with the error of the first record it cannot read. */
  lemma {:induction false} ManyFails<T>(read: seq<Byte> -> Read<T>, n: nat, b: seq<Byte>, e: Error)
    ensures Many(read, n, b) == Bad(e) <==>
            exists k: nat :: k < n && Many(read, k, b).Got? && read(Many(read, k, b).rest) == Bad(e)
  {
    hide Many;
    if Many(read, n, b) == Bad(e) {
      var k := ManyFailsWhere(read, n, b, e);
    }
    forall k: nat | k < n && Many(read, k, b).Got? && read(Many(read, k, b).rest) == Bad(e)
      ensures Many(read, n, b) == Bad(e)
    {
      ManyFailsAt(read, n, b, k, e);
    }
  }

  lemma {:induction false} RowsNeverPanic(n: nat, decor: bool, count: nat, b: seq<Byte>)
    ensures Many(ReadRow(n, decor), count, b) != Bad(Panic)
  {
    if count > 0 {
      if |b| >= 4 { SpansNeverPanic(n, Get16(b, 2), b[4..]); }
      var r := ReadRow(n, decor)(b);
      if r.Got? { RowsNeverPanic(n, decor, count - 1, r.rest); }
    }
  }

  lemma {:induction false} SpansNeverPanic(n: nat, count: nat, b: seq<Byte>)
    ensures Many(ReadSpan(n), count, b) != Bad(Panic)
  {
    hide Get16;
    if count > 0 {
      var r := ReadSpan(n)(b);
      if r.Got? { SpansNeverPanic(n, count - 1, r.rest); }
    }
  }

  /** Decoding runs off its input exactly when the first unreadable style is cut short. */
  lemma {:induction false} DecodePanicsExactly(b: seq<Byte>)
    ensures Decode(b) == Err(Panic) <==>
            && |b| >= 31
            && exists k: nat ::
              && k < Get16(b, 29) && Many(ReadStyle, k, b[31..]).Got?
              && CutShort(Many(ReadStyle, k, b[31..]).rest)
  {
    hide ReadStyle, ReadRow, Get16, Get32, Get64, CutShort;
    if |b| >= 31 {
      var tail := b[31..];
      assert b[29..][2..] == tail;
      Get16Shift(b);
      ManyFails(ReadStyle, Get16(b, 29), tail, Panic);
      forall k: nat | k < Get16(b, 29) && Many(ReadStyle, k, tail).Got?
        ensures ReadStyle(Many(ReadStyle, k, tail).rest) == Bad(Panic) <==> CutShort(Many(ReadStyle, k, tail).rest)
      {
        StylePanicsExactly(Many(ReadStyle, k, tail).rest);
      }
    }
    forall n: nat, decor: bool, r: seq<Byte> ensures ReadList(ReadRow(n, decor), r) != Bad(Panic) {
      if |r| >= 2 { RowsNeverPanic(n, decor, Get16(r, 0), r[2..]); }
    }
  }

  lemma {:induction false} Get16Shift(b: seq<Byte>)
    requires |b| >= 31
    ensures Get16(b[29..], 0) == Get16(b, 29)
  {
  }

  /** Such a payload exists: 87 bytes, one style whose foreground is a gradient without stops. */
  lemma {:induction false} DecodeCanPanic()
    ensures exists b: seq<Byte> :: |b| == 87 && Decode(b) == Err(Panic)
  {
    hide Decode, ReadStyle;
    var b: seq<Byte> := seq(87, i => if i == 29 || i == 32 then 1 else if i == 43 then 4 else 0);
    var tail := b[31..];
    assert Many(ReadStyle, 0, tail) == Got([], tail);
    assert tail[0] == b[31] == 0 && tail[1] == b[32] == 1 && tail[12] == b[43] == 4 && tail[34] == b[65] == 0;
    assert CutShort(tail) by { assert Get16(tail, 0) == 256; }
    assert Get16(b, 29) == 1;
    DecodePanicsExactly(b);
  }
}
