/**
 * Painting spans of text onto a row of cells, as both client caches do
 * (client/pane_cache.go:161-191, client/buffercache.go:199-219, 534-544).
 * How bytes become runes and how a style entry becomes a terminal style are
 * functions of a Render; nothing is assumed about them.
 */
module SpanPaint {
  import opened Bytes
  import opened BufferDeltas

  type Rune = int
  type Style = int
  datatype Cell = Cell(ch: Rune, style: Style, dynFG: DynColor, dynBG: DynColor)
  type Row = seq<Cell>
  datatype Render = Render(runes: seq<Byte> -> seq<Rune>, style: StyleEntry -> Style, plain: Style)

  function Blank(r: Render): Cell {
    Cell(32, r.plain, NoColor, NoColor)
  }

  /** A cell of a span: its style entry when there is one, dynamic colours only behind their flag. */
  function CellOf(r: Render, styles: seq<StyleEntry>, s: CellSpan, ch: Rune): Cell {
    if s.styleIndex >= |styles| then Cell(ch, r.plain, NoColor, NoColor)
    else
      var entry := styles[s.styleIndex];
      var dynamic := HasDynamic(entry.attrFlags);
      Cell(ch, r.style(entry), if dynamic then entry.dynFG else NoColor, if dynamic then entry.dynBG else NoColor)
  }

  function End(r: Render, s: CellSpan): nat {
    s.startCol + |r.runes(s.text)|
  }

  predicate Covers(r: Render, s: CellSpan, c: nat) {
    s.startCol <= c < End(r, s)
  }

  function Extended(r: Render, row: Row, n: nat): Row {
    if |row| >= n then row else row + seq(n - |row|, _ => Blank(r))
  }

  function PaintSpan(r: Render, styles: seq<StyleEntry>, row: Row, s: CellSpan): Row {
    var out := Extended(r, row, End(r, s));
    var runes := r.runes(s.text);
    out[..s.startCol] + seq(|runes|, i requires 0 <= i < |runes| => CellOf(r, styles, s, runes[i])) + out[End(r, s)..]
  }

  /** Spans painted in order over a row. */
  function Painted(r: Render, styles: seq<StyleEntry>, row: Row, spans: seq<CellSpan>): Row
    decreases |spans|
  {
    if spans == [] then row else Painted(r, styles, PaintSpan(r, styles, row, spans[0]), spans[1..])
  }

  // ----------------------------------------------------------- what it means

  lemma {:induction false} PaintSpanCell(r: Render, styles: seq<StyleEntry>, row: Row, s: CellSpan, c: nat)
    ensures var out := PaintSpan(r, styles, row, s);
      && |out| == (if |row| >= End(r, s) then |row| else End(r, s))
      && (c < |out| ==> out[c] == if Covers(r, s, c) then CellOf(r, styles, s, r.runes(s.text)[c - s.startCol])
                                  else if c < |row| then row[c]
                                  else Blank(r))
  {
    hide CellOf;
  }

  /** A column shows the last span that covers it. */
  lemma {:induction false} LastWriterWins(r: Render, styles: seq<StyleEntry>, row: Row, spans: seq<CellSpan>,
                                          i: nat, c: nat)
    requires i < |spans| && Covers(r, spans[i], c)
    requires forall j :: i < j < |spans| ==> !Covers(r, spans[j], c)
    ensures var out := Painted(r, styles, row, spans);
      && c < |out| && out[c] == CellOf(r, styles, spans[i], r.runes(spans[i].text)[c - spans[i].startCol])
    decreases |spans|
  {
    hide PaintSpan, CellOf;
    var row' := PaintSpan(r, styles, row, spans[0]);
    PaintSpanCell(r, styles, row, spans[0], c);
    if i == 0 {
      Untouched(r, styles, row', spans[1..], c);
    } else {
      LastWriterWins(r, styles, row', spans[1..], i - 1, c);
    }
  }

  /**
   * A painted cell has the letter it is given, the entry's style and, behind bit
   * 8 of the entry's flags, its dynamic colours; without an entry it is plain.
   */
  lemma {:induction false} CellIs(r: Render, styles: seq<StyleEntry>, s: CellSpan, ch: Rune)
    ensures var c := CellOf(r, styles, s, ch);
      && c.ch == ch
      && (s.styleIndex >= |styles| ==> c.style == r.plain && c.dynFG == c.dynBG == NoColor)
      && (s.styleIndex < |styles| ==>
            var e := styles[s.styleIndex];
            && c.style == r.style(e)
            && (e.attrFlags / 256 % 2 == 1 ==> c.dynFG == e.dynFG && c.dynBG == e.dynBG)
            && (e.attrFlags / 256 % 2 == 0 ==> c.dynFG == c.dynBG == NoColor))
    ensures Blank(r) == Cell(' ' as int, r.plain, NoColor, NoColor)
  {
  }

  /** The span painted last shows all its letters, from its first column on. */
  lemma {:induction false} LastSpanShows(r: Render, styles: seq<StyleEntry>, row: Row, spans: seq<CellSpan>,
                                         s: CellSpan, i: nat)
    requires i < |r.runes(s.text)|
    ensures var out := Painted(r, styles, row, spans + [s]);
      s.startCol + i < |out| && out[s.startCol + i] == CellOf(r, styles, s, r.runes(s.text)[i])
  {
    hide Painted, CellOf;
    assert (spans + [s])[|spans|] == s;
    LastWriterWins(r, styles, row, spans + [s], |spans|, s.startCol + i);
  }

  /** A column no span covers keeps its cell, and is blank where the row had none. */
  lemma {:induction false} Untouched(r: Render, styles: seq<StyleEntry>, row: Row, spans: seq<CellSpan>, c: nat)
    requires forall j :: 0 <= j < |spans| ==> !Covers(r, spans[j], c)
    ensures var out := Painted(r, styles, row, spans);
      && (c < |row| ==> c < |out| && out[c] == row[c]) && (|row| <= c < |out| ==> out[c] == Blank(r))
    decreases |spans|
  {
    hide PaintSpan, CellOf;
    if spans != [] {
      PaintSpanCell(r, styles, row, spans[0], c);
      Untouched(r, styles, PaintSpan(r, styles, row, spans[0]), spans[1..], c);
    }
  }

  /** The row is as long as it was, or as the farthest span end. */
  lemma {:induction false} PaintedLength(r: Render, styles: seq<StyleEntry>, row: Row, spans: seq<CellSpan>)
    ensures var n := |Painted(r, styles, row, spans)|;
      && n >= |row| && (forall i :: 0 <= i < |spans| ==> n >= End(r, spans[i]))
      && (n == |row| || exists i :: 0 <= i < |spans| && n == End(r, spans[i]))
    decreases |spans|
  {
    hide PaintSpan, End;
    if spans != [] {
      var row' := PaintSpan(r, styles, row, spans[0]);
      PaintSpanCell(r, styles, row, spans[0], 0);
      PaintedLength(r, styles, row', spans[1..]);
      forall i | 1 <= i < |spans| ensures |Painted(r, styles, row, spans)| >= End(r, spans[i]) {
        assert spans[1..][i - 1] == spans[i];
      }
      if |Painted(r, styles, row, spans)| != |row'| {
        var k :| 0 <= k < |spans| - 1 && |Painted(r, styles, row', spans[1..])| == End(r, spans[1..][k]);
        assert spans[k + 1] == spans[1..][k];
      }
    }
  }

  /** Painting in two batches is painting at once. */
  lemma {:induction false} PaintedTwice(r: Render, styles: seq<StyleEntry>, row: Row, a: seq<CellSpan>,
                                        b: seq<CellSpan>)
    ensures Painted(r, styles, Painted(r, styles, row, a), b) == Painted(r, styles, row, a + b)
    decreases |a|
  {
    hide PaintSpan;
    if a == [] {
      assert a + b == b;
    } else {
      assert (a + b)[1..] == a[1..] + b;
      PaintedTwice(r, styles, PaintSpan(r, styles, row, a[0]), a[1..], b);
    }
  }

  lemma {:induction false} PaintedNext(r: Render, styles: seq<StyleEntry>, row: Row, spans: seq<CellSpan>, i: nat)
    requires i < |spans|
    ensures Painted(r, styles, row, spans[..i + 1]) ==
            PaintSpan(r, styles, Painted(r, styles, row, spans[..i]), spans[i])
  {
    hide PaintSpan;
    PaintedTwice(r, styles, row, spans[..i], [spans[i]]);
    assert spans[..i + 1] == spans[..i] + [spans[i]];
    var before := Painted(r, styles, row, spans[..i]);
    assert [spans[i]][1..] == [];
    assert Painted(r, styles, before, [spans[i]]) == Painted(r, styles, PaintSpan(r, styles, before, spans[i]), []);
  }

  // ------------------------------------------------------------------- methods

  /** Grow a row to n cells with blanks (client/buffercache.go:534-544). */
  method EnsureRowLength(r: Render, row: Row, n: nat) returns (out: Row)
    ensures out == Extended(r, row, n)
  {
    if |row| >= n { return row; }
    out := row;
    for i := |row| to n
      invariant out == row + seq(i - |row|, _ => Blank(r))
    {
      out := out + [Blank(r)];
    }
  }

  /** Overwrite the cells under a span, the row being long enough. */
  method WriteRunes(r: Render, styles: seq<StyleEntry>, row: Row, s: CellSpan) returns (out: Row)
    requires |row| >= End(r, s)
    ensures out == PaintSpan(r, styles, row, s)
  {
    hide CellOf;
    var runes := r.runes(s.text);
    var start := s.startCol as int;
    out := row;
    for i := 0 to |runes|
      invariant |out| == |row|
      invariant forall c :: 0 <= c < |out| ==>
        out[c] == if start <= c < start + i then CellOf(r, styles, s, runes[c - start]) else row[c]
    {
      out := out[start + i := CellOf(r, styles, s, runes[i])];
    }
    forall c | 0 <= c < |out| ensures out[c] == PaintSpan(r, styles, row, s)[c] { PaintSpanCell(r, styles, row, s, c); }
  }

  lemma {:induction false} ExtendFirst(r: Render, styles: seq<StyleEntry>, row: Row, s: CellSpan)
    ensures PaintSpan(r, styles, Extended(r, row, End(r, s)), s) == PaintSpan(r, styles, row, s)
  {
  }

  /** decodeSpans: a row from nothing (client/pane_cache.go:161-183). */
  method DecodeSpans(r: Render, styles: seq<StyleEntry>, spans: seq<CellSpan>) returns (row: Row)
    ensures row == Painted(r, styles, [], spans)
  {
    hide PaintSpan, Extended, End;
    row := [];
    for k := 0 to |spans|
      invariant row == Painted(r, styles, [], spans[..k])
    {
      ExtendedLength(r, row, End(r, spans[k]));
      ExtendFirst(r, styles, row, spans[k]);
      PaintedNext(r, styles, [], spans, k);
      row := EnsureRowLength(r, row, End(r, spans[k]));
      row := WriteRunes(r, styles, row, spans[k]);
    }
    assert spans[..|spans|] == spans;
  }

  /** The painting loop of BufferCache.ApplyDelta: over the row already there (client/buffercache.go:199-219). */
  method PaintOver(r: Render, styles: seq<StyleEntry>, base: Row, spans: seq<CellSpan>) returns (row: Row)
    ensures row == Painted(r, styles, base, spans)
  {
    hide PaintSpan, Extended, End;
    row := base;
    for k := 0 to |spans|
      invariant row == Painted(r, styles, base, spans[..k])
    {
      ExtendedLength(r, row, End(r, spans[k]));
      ExtendFirst(r, styles, row, spans[k]);
      PaintedNext(r, styles, base, spans, k);
      row := EnsureRowLength(r, row, End(r, spans[k]));
      row := WriteRunes(r, styles, row, spans[k]);
    }
    assert spans[..|spans|] == spans;
  }

  lemma {:induction false} ExtendedLength(r: Render, row: Row, n: nat)
    ensures |Extended(r, row, n)| >= n
  {
  }
}
