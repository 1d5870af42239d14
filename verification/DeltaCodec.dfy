/**
 * EncodeBufferDelta and DecodeBufferDelta as they run: a buffer that grows and
 * a slice that shrinks (protocol/buffer_delta.go:124-454).
 */
module DeltaCodec {
  import opened Prelude
  import opened Bytes
  import opened BufferDeltas

  // ----------------------------------------------------------------- encoding

  /** One descriptor with its gradient stops (protocol/buffer_delta.go:159-216). */
  method AppendColor(buf: seq<Byte>, d: DynColor) returns (out: seq<Byte>, err: Option<Error>)
    ensures err == ColorError(d) && (err == None ==> out == buf + WriteColor(d))
  {
    hide WriteBase, WriteStop;
    out, err := buf + WriteBase(d), None;
    if d.kind >= 4 {
      if |d.stops| > 0xFF { return out, Some(BufferTooLarge); }
      out := out + [|d.stops| as Byte];
      ghost var start := out;
      for i := 0 to |d.stops|
        invariant out == start + Concat(WriteStop, d.stops[..i])
      {
        out := out + WriteStop(d.stops[i]);
        ConcatNext(WriteStop, d.stops, i);
      }
      assert d.stops[..|d.stops|] == d.stops;
    }
  }

  /** The style table (protocol/buffer_delta.go:142-218). */
  method AppendStyles(buf: seq<Byte>, styles: seq<StyleEntry>) returns (out: seq<Byte>, err: Option<Error>)
    ensures err == FirstError(StyleError, styles) && (err == None ==> out == buf + Concat(WriteStyle, styles))
  {
    hide WriteStyleBase, WriteColor, ColorError, FirstError, Concat, HasDynamic;
    out, err := buf, None;
    assert Concat(WriteStyle, styles[..0]) == [] by { ConcatNone(WriteStyle); }
    for i := 0 to |styles|
      invariant err == None && out == buf + Concat(WriteStyle, styles[..i])
      invariant forall j :: 0 <= j < i ==> StyleError(styles[j]) == None
    {
      var s := styles[i];
      ghost var before := out;
      out := out + WriteStyleBase(s);
      if HasDynamic(s.attrFlags) {
        out, err := AppendColor(out, s.dynFG);
        if err.Some? { FirstErrorAt(StyleError, styles, i); return; }
        out, err := AppendColor(out, s.dynBG);
        if err.Some? { FirstErrorAt(StyleError, styles, i); return; }
      }
      assert out == before + WriteStyle(s);
      ConcatNext(WriteStyle, styles, i);
    }
    assert styles[..|styles|] == styles;
    FirstErrorNone(StyleError, styles);
  }

  /** The spans of one row (protocol/buffer_delta.go:233-255, 277-299). */
  method AppendSpans(buf: seq<Byte>, spans: seq<CellSpan>, styleCount: nat) returns (out: seq<Byte>, err: Option<Error>)
    ensures err == FirstError(SpanError(styleCount), spans)
    ensures err == None ==> out == buf + Concat(WriteSpan, spans)
  {
    hide FirstError, Concat, Put16;
    out, err := buf, None;
    assert Concat(WriteSpan, spans[..0]) == [] by { ConcatNone(WriteSpan); }
    for i := 0 to |spans|
      invariant out == buf + Concat(WriteSpan, spans[..i])
      invariant forall j :: 0 <= j < i ==> SpanError(styleCount)(spans[j]) == None
    {
      var s := spans[i];
      if |s.text| > 0xFFFF {
        FirstErrorAt(SpanError(styleCount), spans, i);
        return out, Some(InvalidSpan);
      }
      if s.styleIndex as int >= styleCount {
        FirstErrorAt(SpanError(styleCount), spans, i);
        return out, Some(StyleIndexOutOfRange);
      }
      ghost var before := out;
      out := out + Put16(s.startCol) + Put16(|s.text| as U16) + Put16(s.styleIndex);
      if |s.text| > 0 { out := out + s.text; }
      assert out == before + WriteSpan(s);
      ConcatNext(WriteSpan, spans, i);
    }
    assert spans[..|spans|] == spans;
    FirstErrorNone(SpanError(styleCount), spans);
  }

  /** The rows, or the decoration rows with their index test (protocol/buffer_delta.go:223-256, 264-300). */
  method AppendRows(buf: seq<Byte>, rows: seq<RowDelta>, styleCount: nat, decor: bool)
    returns (out: seq<Byte>, err: Option<Error>)
    ensures err == FirstError(RowError(styleCount, decor), rows)
    ensures err == None ==> out == buf + Concat(WriteRow, rows)
  {
    hide FirstError, Concat, Put16, SpanError;
    ghost var check := RowError(styleCount, decor);
    out, err := buf, None;
    assert Concat(WriteRow, rows[..0]) == [] by { ConcatNone(WriteRow); }
    for i := 0 to |rows|
      invariant err == None && out == buf + Concat(WriteRow, rows[..i])
      invariant forall j :: 0 <= j < i ==> check(rows[j]) == None
    {
      var r := rows[i];
      if decor && r.row > MaxDecorRowIdx {
        FirstErrorAt(check, rows, i);
        return out, Some(InvalidSpan);
      }
      if |r.spans| > 0xFFFF {
        FirstErrorAt(check, rows, i);
        return out, Some(BufferTooLarge);
      }
      ghost var before := out;
      out := out + Put16(r.row) + Put16(|r.spans| as U16);
      out, err := AppendSpans(out, r.spans, styleCount);
      if err.Some? { FirstErrorAt(check, rows, i); return; }
      assert out == before + WriteRow(r);
      ConcatNext(WriteRow, rows, i);
    }
    assert rows[..|rows|] == rows;
    FirstErrorNone(check, rows);
  }

  /** The payload of a delta, or the first of its checks that fails. */
  method EncodeBufferDelta(d: BufferDelta) returns (r: Result<seq<Byte>>)
    ensures r == Encode(d)
  {
    hide FirstError, Concat, Put16, Put32, Put64, StyleError, RowError;
    var buf: seq<Byte> := d.paneID;
    buf := buf + Put32(d.revision) + [d.flags] + Put64(FromI64(d.rowBase));
    if |d.styles| > 0xFFFF || |d.rows| > 0xFFFF { return Err(BufferTooLarge); }
    buf := buf + Put16(|d.styles| as U16);
    var err;
    buf, err := AppendStyles(buf, d.styles);
    if err.Some? { return Err(err.value); }
    buf := buf + Put16(|d.rows| as U16);
    buf, err := AppendRows(buf, d.rows, |d.styles|, false);
    if err.Some? { return Err(err.value); }
    if |d.decorRows| > 0xFFFF { return Err(BufferTooLarge); }
    buf := buf + Put16(|d.decorRows| as U16);
    buf, err := AppendRows(buf, d.decorRows, |d.styles|, true);
    if err.Some? { return Err(err.value); }
    assert buf == WriteDelta(d);
    return Ok(buf);
  }

  // ----------------------------------------------------------------- decoding

  /** One descriptor with its gradient stops (protocol/buffer_delta.go:338-369). */
  method DecodeColor(payload: seq<Byte>) returns (r: Read<DynColor>)
    ensures r == ReadColor(payload)
  {
    hide Get32;
    if |payload| < 22 { return Bad(Panic); }
    var d, b := BaseAt(payload, 0), payload[22..];
    if d.kind >= 4 {
      if |b| < 1 { return Bad(PayloadShort); }
      var stopCount := b[0] as int;
      b := b[1..];
      if |b| < stopCount * 26 { return Bad(PayloadShort); }
      ghost var start := b;
      ManyStart(ReadStop, stopCount, start);
      var stops := [];
      for j := 0 to stopCount
        invariant |b| >= 26 * (stopCount - j)
        invariant After(stops, Many(ReadStop, stopCount - j, b)) == Many(ReadStop, stopCount, start)
      {
        ManyNext(ReadStop, stops, stopCount - j, b);
        stops := stops + [ColorStop(Get32(b, 0), BaseAt(b, 4))];
        b := b[26..];
      }
      ManyDone(ReadStop, stops, b);
      d := d.(stops := stops);
    }
    return Got(d, b);
  }

  /** The style table (protocol/buffer_delta.go:322-372). */
  method DecodeStyles(count: nat, payload: seq<Byte>) returns (r: Read<seq<StyleEntry>>)
    ensures r == Many(ReadStyle, count, payload)
  {
    hide Many, After, Get16, Get32, HasDynamic, ReadColor;
    var b, styles := payload, [];
    ManyStart(ReadStyle, count, b);
    for i := 0 to count
      invariant After(styles, Many(ReadStyle, count - i, b)) == Many(ReadStyle, count, payload)
    {
      ManyNext(ReadStyle, styles, count - i, b);
      if |b| < 12 { return Bad(PayloadShort); }
      var s := StyleAt(b);
      b := b[12..];
      if HasDynamic(s.attrFlags) {
        if |b| < 44 { return Bad(PayloadShort); }
        var fg := DecodeColor(b);
        if fg.Bad? { return Bad(fg.error); }
        b := fg.rest;
        var bg := DecodeColor(b);
        if bg.Bad? { return Bad(bg.error); }
        b := bg.rest;
        s := s.(dynFG := fg.value, dynBG := bg.value);
      }
      styles := styles + [s];
    }
    ManyDone(ReadStyle, styles, b);
    return Got(styles, b);
  }

  /** The spans of one row (protocol/buffer_delta.go:387-405, 429-447). */
  method DecodeSpans(count: nat, styleCount: nat, payload: seq<Byte>) returns (r: Read<seq<CellSpan>>)
    ensures r == Many(ReadSpan(styleCount), count, payload)
  {
    hide Many, After, Get16;
    var b, spans := payload, [];
    ghost var read := ReadSpan(styleCount);
    ManyStart(read, count, b);
    for s := 0 to count
      invariant After(spans, Many(read, count - s, b)) == Many(read, count, payload)
    {
      ManyNext(read, spans, count - s, b);
      if |b| < 6 { return Bad(PayloadShort); }
      var startCol, textLen, styleIndex := Get16(b, 0), Get16(b, 2), Get16(b, 4);
      ghost var whole := b;
      b := b[6..];
      if |b| < textLen as int { return Bad(PayloadShort); }
      var text := b[..textLen];
      b := b[textLen..];
      assert text == whole[6..6 + textLen as int] && b == whole[6 + textLen as int..];
      if styleIndex as int >= styleCount { return Bad(StyleIndexOutOfRange); }
      spans := spans + [CellSpan(startCol, text, styleIndex)];
    }
    ManyDone(read, spans, b);
    return Got(spans, b);
  }

  /** The rows, or the decoration rows with their index test (protocol/buffer_delta.go:380-407, 416-449). */
  method DecodeRows(count: nat, styleCount: nat, decor: bool, payload: seq<Byte>) returns (r: Read<seq<RowDelta>>)
    ensures r == Many(ReadRow(styleCount, decor), count, payload)
  {
    hide Many, After, Get16, ReadSpan;
    var b, rows := payload, [];
    ghost var read := ReadRow(styleCount, decor);
    ManyStart(read, count, b);
    for i := 0 to count
      invariant After(rows, Many(read, count - i, b)) == Many(read, count, payload)
    {
      ManyNext(read, rows, count - i, b);
      if |b| < 4 { return Bad(PayloadShort); }
      var row, spanCount := Get16(b, 0), Get16(b, 2);
      b := b[4..];
      if decor && row > MaxDecorRowIdx { return Bad(InvalidSpan); }
      var spans := DecodeSpans(spanCount, styleCount, b);
      if spans.Bad? { return Bad(spans.error); }
      b := spans.rest;
      rows := rows + [RowDelta(row, spans.value)];
    }
    ManyDone(read, rows, b);
    return Got(rows, b);
  }

  /** The delta in a payload; Panic stands for reading past its end. */
  method DecodeBufferDelta(payload: seq<Byte>) returns (r: Result<BufferDelta>)
    ensures r == Decode(payload)
  {
    hide Many, Get16, Get32, Get64, ReadStyle, ReadRow;
    var b := payload;
    if |b| < 29 { return Err(PayloadShort); }
    var paneID, revision, flags, rowBase := b[..16], Get32(b, 16), b[20], ToI64(Get64(b, 21));
    b := b[29..];
    if |b| < 2 { return Err(PayloadShort); }
    var styleCount := Get16(b, 0);
    b := b[2..];
    var styles := DecodeStyles(styleCount, b);
    if styles.Bad? { return Err(styles.error); }
    StyleCount(styleCount, b);
    b := styles.rest;
    if |b| < 2 { return Err(PayloadShort); }
    var rows := DecodeRows(Get16(b, 0), styleCount, false, b[2..]);
    if rows.Bad? { return Err(rows.error); }
    b := rows.rest;
    if |b| < 2 { return Err(PayloadShort); }
    var decor := DecodeRows(Get16(b, 0), styleCount, true, b[2..]);
    if decor.Bad? { return Err(decor.error); }
    if |decor.rest| != 0 { return Err(PayloadShort); }
    return Ok(BufferDelta(paneID, revision, flags, rowBase, styles.value, rows.value, decor.value));
  }

  lemma {:induction false} StyleCount(n: nat, b: seq<Byte>)
    requires Many(ReadStyle, n, b).Got?
    ensures |Many(ReadStyle, n, b).value| == n
  {
    hide ReadStyle;
    StyleLaws();
    ManyWritesBack(ReadStyle, WriteStyle, NormalStyle, n, b);
  }
}
