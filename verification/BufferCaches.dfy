/**
 * The client's screen-row cache (client/buffercache.go:179-280): deltas painted
 * over the rows already there, and its agreement with the pane cache.
 */
module BufferCaches {
  import opened Prelude
  import opened Bytes
  import opened BufferDeltas
  import opened SpanPaint
  import P = PaneCaches

  datatype View = View(revision: U32, rows: map<U16, Row>, decorRows: map<U16, Row>)
  const NewPane := View(0, map[], map[])

  function RowIn(rows: map<U16, Row>, k: U16): Row {
    if k in rows then rows[k] else []
  }

  function PaintRows(r: Render, styles: seq<StyleEntry>, rows: map<U16, Row>, deltas: seq<RowDelta>): map<U16, Row> {
    if deltas == [] then rows
    else
      var before, last := PaintRows(r, styles, rows, deltas[..|deltas| - 1]), deltas[|deltas| - 1];
      before[last.row := Painted(r, styles, RowIn(before, last.row), last.spans)]
  }

  /** A pane after a delta; one older than the pane is ignored. */
  function Applied(r: Render, v: View, d: BufferDelta): View {
    if d.revision < v.revision then v
    else View(d.revision, PaintRows(r, d.styles, v.rows, d.rows), PaintRows(r, d.styles, v.decorRows, d.decorRows))
  }

  // ------------------------------------------------------------ what it means

  /** All spans a delta paints on row k, in order. */
  function SpansOn(deltas: seq<RowDelta>, k: U16): seq<CellSpan> {
    if deltas == [] then []
    else
      var last := deltas[|deltas| - 1];
      SpansOn(deltas[..|deltas| - 1], k) + (if last.row == k then last.spans else [])
  }

  /** A row ends up painted with all its spans at once, and is created if the delta names it. */
  lemma {:induction false} RowsArePainted(r: Render, styles: seq<StyleEntry>, rows: map<U16, Row>,
                                          deltas: seq<RowDelta>, k: U16)
    ensures var out := PaintRows(r, styles, rows, deltas);
      && (k in out <==> k in rows || exists i :: 0 <= i < |deltas| && deltas[i].row == k)
      && RowIn(out, k) == Painted(r, styles, RowIn(rows, k), SpansOn(deltas, k))
    decreases |deltas|
  {
    hide Painted;
    if deltas == [] {
      PaintedNone(r, styles, RowIn(rows, k));
    } else {
      var n := |deltas| - 1;
      RowsArePainted(r, styles, rows, deltas[..n], k);
      assert forall i :: 0 <= i < n ==> deltas[..n][i] == deltas[i];
      if deltas[n].row == k {
        PaintedTwice(r, styles, RowIn(rows, k), SpansOn(deltas[..n], k), deltas[n].spans);
      } else {
        assert SpansOn(deltas, k) == SpansOn(deltas[..n], k);
      }
    }
  }

  lemma {:induction false} PaintedNone(r: Render, styles: seq<StyleEntry>, row: Row)
    ensures Painted(r, styles, row, []) == row
  {
  }

  // ------------------------------------------------- agreement of the caches

  predicate Named(deltas: seq<RowDelta>, k: U16) {
    exists i :: 0 <= i < |deltas| && deltas[i].row == k
  }

  /** The spans of the last of the rows that name k. */
  function LastOn(deltas: seq<RowDelta>, k: U16): seq<CellSpan> {
    if deltas == [] then []
    else if deltas[|deltas| - 1].row == k then deltas[|deltas| - 1].spans
    else LastOn(deltas[..|deltas| - 1], k)
  }

  /** The spans of the rows that name k before the last one does. */
  function EarlierOn(deltas: seq<RowDelta>, k: U16): seq<CellSpan> {
    if deltas == [] then []
    else if deltas[|deltas| - 1].row == k then SpansOn(deltas[..|deltas| - 1], k)
    else EarlierOn(deltas[..|deltas| - 1], k)
  }

  lemma {:induction false} SpansInTwo(deltas: seq<RowDelta>, k: U16)
    ensures SpansOn(deltas, k) == EarlierOn(deltas, k) + LastOn(deltas, k)
    decreases |deltas|
  {
    if deltas != [] {
      SpansInTwo(deltas[..|deltas| - 1], k);
      if deltas[|deltas| - 1].row != k { assert SpansOn(deltas, k) == SpansOn(deltas[..|deltas| - 1], k); }
    }
  }

  predicate Covered(r: Render, spans: seq<CellSpan>, c: nat) {
    exists i :: 0 <= i < |spans| && Covers(r, spans[i], c)
  }

  /** Nothing of the row below shows once spans are painted over it, not even its length. */
  predicate Hides(r: Render, styles: seq<StyleEntry>, below: Row, spans: seq<CellSpan>) {
    && |below| <= |Painted(r, styles, [], spans)|
    && forall c :: 0 <= c < |below| && !Covered(r, spans, c) ==> below[c] == Blank(r)
  }

  /** A column some span covers shows the same whatever lay below. */
  lemma {:induction false} CoveredSame(r: Render, styles: seq<StyleEntry>, x: Row, y: Row, spans: seq<CellSpan>, c: nat)
    requires Covered(r, spans, c)
    ensures c < |Painted(r, styles, x, spans)| && c < |Painted(r, styles, y, spans)|
    ensures Painted(r, styles, x, spans)[c] == Painted(r, styles, y, spans)[c]
  {
    hide Painted, Covers, CellOf;
    var i := LastCover(r, spans, c);
    LastWriterWins(r, styles, x, spans, i, c);
    LastWriterWins(r, styles, y, spans, i, c);
  }

  lemma {:induction false} LastCover(r: Render, spans: seq<CellSpan>, c: nat) returns (i: nat)
    requires Covered(r, spans, c)
    ensures i < |spans| && Covers(r, spans[i], c) && forall j :: i < j < |spans| ==> !Covers(r, spans[j], c)
    decreases |spans|
  {
    hide Covers;
    var n := |spans| - 1;
    if Covers(r, spans[n], c) {
      i := n;
    } else {
      var k :| 0 <= k < |spans| && Covers(r, spans[k], c);
      assert spans[..n][k] == spans[k];
      i := LastCover(r, spans[..n], c);
      forall j | i < j < n ensures !Covers(r, spans[j], c) { assert spans[j] == spans[..n][j]; }
    }
  }

  lemma {:induction false} PaintedWide(r: Render, styles: seq<StyleEntry>, below: Row, spans: seq<CellSpan>)
    ensures var n, m := |Painted(r, styles, below, spans)|, |Painted(r, styles, [], spans)|;
      n == if |below| <= m then m else |below|
  {
    hide Painted, End;
    PaintedLength(r, styles, below, spans);
    PaintedLength(r, styles, [], spans);
  }

  /** Painting over a row and painting on nothing give the same exactly when nothing of the row shows. */
  lemma {:induction false} HidesExactly(r: Render, styles: seq<StyleEntry>, below: Row, spans: seq<CellSpan>)
    ensures Painted(r, styles, below, spans) == Painted(r, styles, [], spans) <==> Hides(r, styles, below, spans)
  {
    hide Painted, Covers, Blank;
    var out, bare := Painted(r, styles, below, spans), Painted(r, styles, [], spans);
    PaintedWide(r, styles, below, spans);
    forall c: nat | c < |out| && !Covered(r, spans, c)
      ensures out[c] == (if c < |below| then below[c] else Blank(r)) && (c < |bare| ==> bare[c] == Blank(r))
    {
      Untouched(r, styles, below, spans, c);
      Untouched(r, styles, [], spans, c);
    }
    if Hides(r, styles, below, spans) {
      forall c: nat | c < |out| ensures out[c] == bare[c] {
        if Covered(r, spans, c) { CoveredSame(r, styles, below, [], spans, c); }
      }
      assert out == bare;
    }
  }

  lemma {:induction false} KeysDiffer(d: BufferDelta, a: U16, b: U16)
    requires a != b
    ensures P.Wrap(d.rowBase + a) != P.Wrap(d.rowBase + b)
  {
  }

  lemma {:induction false} NamedIsLast(r: Render, d: BufferDelta, rows: seq<RowDelta>, k: U16)
    requires Named(rows, k)
    ensures P.NamedIn(r, d, rows, P.Wrap(d.rowBase + k)) == Some(Painted(r, d.styles, [], LastOn(rows, k)))
    ensures P.AltNamed(r, d, rows, k) == Some(Painted(r, d.styles, [], LastOn(rows, k)))
    decreases |rows|
  {
    hide P.Wrap, Painted;
    var n := |rows| - 1;
    if rows[n].row != k {
      KeysDiffer(d, rows[n].row, k);
      var i :| 0 <= i < |rows| && rows[i].row == k;
      assert rows[..n][i] == rows[i];
      NamedIsLast(r, d, rows[..n], k);
    }
  }

  /** What the pane cache holds for row k of a delta it has just merged. */
  function PaneRow(r: Render, d: BufferDelta, s: P.State, k: U16): Row {
    var after := P.Step(r, s, P.Update(d));
    if P.AltDelta(d) then P.AltRow(after.alt, k)
    else
      var key := P.Wrap(d.rowBase + k);
      if key in after.main then after.main[key] else []
  }

  /** What a fresh buffer cache holds for it. */
  function BufferRow(r: Render, d: BufferDelta, k: U16): Row {
    RowIn(Applied(r, NewPane, d).rows, k)
  }

  /**
   * The two caches hold the same for a row exactly when the last of the delta's
   * rows that name it hides what the earlier ones painted.
   */
  lemma {:induction false} CachesAgreeExactly(r: Render, d: BufferDelta, s: P.State, k: U16)
    requires Named(d.rows, k)
    ensures PaneRow(r, d, s, k) == BufferRow(r, d, k) <==>
            Hides(r, d.styles, Painted(r, d.styles, [], EarlierOn(d.rows, k)), LastOn(d.rows, k))
  {
    hide Painted, PaintRows, P.StoreDelta, P.NamedIn, P.AltNamed, P.StoreAlt, P.Wrap, P.AltRow, Hides, Named;
    var earlier, last := EarlierOn(d.rows, k), LastOn(d.rows, k);
    RowsArePainted(r, d.styles, map[], d.rows, k);
    SpansInTwo(d.rows, k);
    PaintedTwice(r, d.styles, [], earlier, last);
    HidesExactly(r, d.styles, Painted(r, d.styles, [], earlier), last);
    NamedIsLast(r, d, d.rows, k);
    var main := if P.AltDelta(d) && !s.altScreen then map[] else s.main;
    P.StoreDeltaRow(r, d, main, d.rows, P.Wrap(d.rowBase + k));
    P.StoreAltRow(r, d, if !P.AltDelta(d) then [] else s.alt, d.rows, k);
  }

  /** For a whole delta: on every row it names. */
  lemma {:induction false} DeltasAgreeExactly(r: Render, d: BufferDelta, s: P.State)
    ensures (forall k: U16 :: Named(d.rows, k) ==> PaneRow(r, d, s, k) == BufferRow(r, d, k)) <==>
            (forall k: U16 :: Named(d.rows, k) ==>
               Hides(r, d.styles, Painted(r, d.styles, [], EarlierOn(d.rows, k)), LastOn(d.rows, k)))
  {
    hide Painted, PaneRow, BufferRow, Hides, Named;
    forall k: U16 | Named(d.rows, k)
      ensures PaneRow(r, d, s, k) == BufferRow(r, d, k) <==>
              Hides(r, d.styles, Painted(r, d.styles, [], EarlierOn(d.rows, k)), LastOn(d.rows, k))
    {
      CachesAgreeExactly(r, d, s, k);
    }
  }

  predicate DistinctRows(deltas: seq<RowDelta>) {
    forall i, j :: 0 <= i < j < |deltas| ==> deltas[i].row != deltas[j].row
  }

  lemma {:induction false} NothingEarlier(deltas: seq<RowDelta>, k: U16)
    requires DistinctRows(deltas)
    ensures EarlierOn(deltas, k) == []
    decreases |deltas|
  {
    if deltas != [] {
      if deltas[|deltas| - 1].row == k {
        SpansOfNone(deltas[..|deltas| - 1], k);
      } else {
        NothingEarlier(deltas[..|deltas| - 1], k);
      }
    }
  }

  lemma {:induction false} SpansOfNone(deltas: seq<RowDelta>, k: U16)
    requires forall i :: 0 <= i < |deltas| ==> deltas[i].row != k
    ensures SpansOn(deltas, k) == []
    decreases |deltas|
  {
    if deltas != [] { SpansOfNone(deltas[..|deltas| - 1], k); }
  }

  /**
   * For a delta whose row indices are distinct, a fresh buffer cache and the
   * pane cache in any state hold equal rows.
   */
  lemma {:induction false} CachesAgree(r: Render, d: BufferDelta, s: P.State, k: U16)
    requires DistinctRows(d.rows) && Named(d.rows, k)
    ensures PaneRow(r, d, s, k) == BufferRow(r, d, k) == Painted(r, d.styles, [], LastOn(d.rows, k))
  {
    hide Painted, PaneRow, PaintRows, Named;
    CachesAgreeExactly(r, d, s, k);
    NothingEarlier(d.rows, k);
    PaintedNone(r, d.styles, []);
    RowsArePainted(r, d.styles, map[], d.rows, k);
    SpansInTwo(d.rows, k);
    assert [] + LastOn(d.rows, k) == LastOn(d.rows, k);
  }

  /** A received delta that names row 0 with one letter and then with nothing. */
  function Twice(): BufferDelta {
    var id: Id := [0, 0, 0, 0, 0, 0, 0, 0, 0, 0, 0, 0, 0, 0, 0, 0];
    BufferDelta(id, 0, 0, 0, [StyleEntry(0, 0, 0, 0, 0, NoColor, NoColor)],
                [RowDelta(0, [CellSpan(0, [65], 0)]), RowDelta(0, [])], [])
  }

  lemma {:induction false} TwiceNames()
    ensures var rows := Twice().rows;
      Named(rows, 0) && EarlierOn(rows, 0) == [CellSpan(0, [65], 0)] && LastOn(rows, 0) == []
  {
    var rows := Twice().rows;
    var one := rows[0];
    assert rows[0].row == 0 && rows[..1] == [one] && [one][..0] == [];
    assert SpansOn([one], 0) == SpansOn([], 0) + one.spans == one.spans;
  }

  lemma {:induction false} TwiceNormal()
    ensures Normal(Twice())
  {
    var d := Twice();
    assert GoodSpan(1)(d.rows[0].spans[0]);
  }

  /** With a row named twice they can differ, on a delta that can be received. */
  lemma {:induction false} CachesCanDiffer(r: Render, s: P.State)
    requires |r.runes([65])| == 1
    ensures Normal(Twice()) && Named(Twice().rows, 0) && PaneRow(r, Twice(), s, 0) != BufferRow(r, Twice(), 0)
  {
    hide Painted, PaneRow, BufferRow, Normal, Named, Twice, EarlierOn, LastOn;
    TwiceNormal();
    TwiceNames();
    var d, span := Twice(), CellSpan(0, [65], 0);
    PaintedNone(r, d.styles, []);
    PaintedLength(r, d.styles, [], [span]);
    assert End(r, [span][0]) == 1;
    CachesAgreeExactly(r, d, s, 0);
  }

  // ----------------------------------------------------- what a delta changes

  /** One row of either map before and after painting these rows of a delta over it. */
  ghost predicate RowPainted(r: Render, d: BufferDelta, deltas: seq<RowDelta>, before: map<U16, Row>,
                             after: map<U16, Row>, k: U16) {
    && (k in after <==> k in before || Named(deltas, k))
    && RowIn(after, k) == Painted(r, d.styles, RowIn(before, k), SpansOn(deltas, k))
  }

  /**
   * A delta at least as new as the pane paints its rows over the content and its
   * decoration rows over the decoration; an older one changes nothing.
   */
  lemma {:induction false} DeltaPaints(r: Render, v: View, d: BufferDelta)
    ensures var w := Applied(r, v, d);
      && (d.revision < v.revision ==> w == v)
      && (d.revision >= v.revision ==>
            && w.revision == d.revision
            && (forall k: U16 :: RowPainted(r, d, d.rows, v.rows, w.rows, k))
            && (forall k: U16 :: RowPainted(r, d, d.decorRows, v.decorRows, w.decorRows, k)))
  {
    hide Painted, PaintRows, SpansOn;
    forall k: U16 ensures RowPainted(r, d, d.rows, v.rows, PaintRows(r, d.styles, v.rows, d.rows), k) {
      RowsArePainted(r, d.styles, v.rows, d.rows, k);
    }
    forall k: U16
      ensures RowPainted(r, d, d.decorRows, v.decorRows, PaintRows(r, d.styles, v.decorRows, d.decorRows), k)
    {
      RowsArePainted(r, d.styles, v.decorRows, d.decorRows, k);
    }
  }

  // --------------------------------------------------------------------- runs

  function RunDeltas(r: Render, v: View, ds: seq<BufferDelta>): View {
    if ds == [] then v else Applied(r, RunDeltas(r, v, ds[..|ds| - 1]), ds[|ds| - 1])
  }

  /** A pane's revision never falls, and no delta older than it changes it. */
  lemma {:induction false} RevisionsRise(r: Render, v: View, ds: seq<BufferDelta>, i: nat)
    requires i < |ds|
    ensures RunDeltas(r, v, ds).revision >= v.revision && RunDeltas(r, v, ds).revision >= ds[i].revision
    ensures forall d: BufferDelta :: d.revision < ds[i].revision ==> RunDeltas(r, v, ds + [d]) == RunDeltas(r, v, ds)
    decreases |ds|
  {
    hide PaintRows;
    var n := |ds| - 1;
    if i < n { RevisionsRise(r, v, ds[..n], i); } else if n > 0 { RevisionsRise(r, v, ds[..n], n - 1); }
    forall d: BufferDelta | d.revision < ds[i].revision ensures RunDeltas(r, v, ds + [d]) == RunDeltas(r, v, ds) {
      assert (ds + [d])[..|ds|] == ds;
    }
  }

  /** Delta i is at least as new as the pane and as all deltas before it. */
  predicate Timely(v: View, ds: seq<BufferDelta>, i: nat) {
    i < |ds| && ds[i].revision >= v.revision && forall j :: 0 <= j < i ==> ds[i].revision >= ds[j].revision
  }

  /** Those are the deltas that take effect. */
  lemma {:induction false} TimelyExactly(r: Render, v: View, ds: seq<BufferDelta>, i: nat)
    requires i < |ds|
    ensures ds[i].revision >= RunDeltas(r, v, ds[..i]).revision <==> Timely(v, ds, i)
  {
    hide PaintRows;
    forall j: nat | j < i ensures RunDeltas(r, v, ds[..i]).revision >= ds[j].revision {
      RevisionsRise(r, v, ds[..i], j);
    }
    if i > 0 { RevisionsRise(r, v, ds[..i], 0); }
    RevisionReached(r, v, ds[..i]);
  }

  lemma {:induction false} RevisionReached(r: Render, v: View, ds: seq<BufferDelta>)
    ensures var now := RunDeltas(r, v, ds).revision;
      now == v.revision || exists j :: 0 <= j < |ds| && ds[j].revision == now
    decreases |ds|
  {
    hide PaintRows;
    if ds != [] {
      var n := |ds| - 1;
      RevisionReached(r, v, ds[..n]);
      assert forall j :: 0 <= j < n ==> ds[..n][j] == ds[j];
    }
  }

  /** The rows of a delta that are content, or those that are decoration. */
  function RowsOf(d: BufferDelta, decor: bool): seq<RowDelta> {
    if decor then d.decorRows else d.rows
  }

  function RowNow(v: View, decor: bool, k: U16): Row {
    RowIn(if decor then v.decorRows else v.rows, k)
  }

  /** No span of the timely deltas from i on covers column c of row k. */
  ghost predicate Quiet(r: Render, v: View, ds: seq<BufferDelta>, decor: bool, k: U16, c: nat, i: nat) {
    forall j: nat :: i <= j < |ds| && Timely(v, ds, j) ==> !Covered(r, SpansOn(RowsOf(ds[j], decor), k), c)
  }

  lemma {:induction false} QuietBefore(r: Render, v: View, ds: seq<BufferDelta>, decor: bool, k: U16, c: nat, i: nat)
    requires ds != [] && Quiet(r, v, ds, decor, k, c, i)
    ensures Quiet(r, v, ds[..|ds| - 1], decor, k, c, i)
  {
    var before := ds[..|ds| - 1];
    forall j: nat | i <= j < |before| && Timely(v, before, j)
      ensures !Covered(r, SpansOn(RowsOf(before[j], decor), k), c)
    {
      assert before[j] == ds[j] && forall l :: 0 <= l < j ==> before[l] == ds[l];
      assert Timely(v, ds, j);
    }
  }

  lemma {:induction false} LastStep(r: Render, v: View, ds: seq<BufferDelta>, decor: bool, k: U16)
    requires ds != []
    ensures var n := |ds| - 1;
      RowNow(RunDeltas(r, v, ds), decor, k) ==
      if Timely(v, ds, n) then Painted(r, ds[n].styles, RowNow(RunDeltas(r, v, ds[..n]), decor, k),
                                       SpansOn(RowsOf(ds[n], decor), k))
      else RowNow(RunDeltas(r, v, ds[..n]), decor, k)
  {
    hide Painted, PaintRows, SpansOn, Applied, Timely;
    var n := |ds| - 1;
    TimelyExactly(r, v, ds, n);
    var before := RunDeltas(r, v, ds[..n]);
    DeltaPaints(r, before, ds[n]);
    if Timely(v, ds, n) {
      assert RowPainted(r, ds[n], ds[n].rows, before.rows, Applied(r, before, ds[n]).rows, k);
      assert RowPainted(r, ds[n], ds[n].decorRows, before.decorRows, Applied(r, before, ds[n]).decorRows, k);
    }
  }

  /** A column nothing covers since keeps its cell. */
  lemma {:induction false} ColumnStays(r: Render, v: View, ds: seq<BufferDelta>, decor: bool, k: U16, c: nat, i: nat)
    requires i <= |ds| && Quiet(r, v, ds, decor, k, c, i) && c < |RowNow(RunDeltas(r, v, ds[..i]), decor, k)|
    ensures var row := RowNow(RunDeltas(r, v, ds), decor, k);
      c < |row| && row[c] == RowNow(RunDeltas(r, v, ds[..i]), decor, k)[c]
    decreases |ds|
  {
    hide Painted, RowNow, Timely, SpansOn, RunDeltas;
    if i == |ds| {
      assert ds[..i] == ds;
    } else {
      var n := |ds| - 1;
      assert ds[..n][..i] == ds[..i];
      QuietBefore(r, v, ds, decor, k, c, i);
      ColumnStays(r, v, ds[..n], decor, k, c, i);
      LastStep(r, v, ds, decor, k);
      if Timely(v, ds, n) {
        var spans := SpansOn(RowsOf(ds[n], decor), k);
        assert forall j :: 0 <= j < |spans| ==> !Covers(r, spans[j], c) by { assert !Covered(r, spans, c); }
        Untouched(r, ds[n].styles, RowNow(RunDeltas(r, v, ds[..n]), decor, k), spans, c);
      }
    }
  }

  /**
   * Over any run, a column of a content or decoration row shows the last span
   * that covers it in the last of the timely deltas that has one there.
   */
  lemma {:induction false} ColumnShows(r: Render, v: View, ds: seq<BufferDelta>, decor: bool, k: U16, c: nat, i: nat,
                                       j: nat)
    requires i < |ds| && Timely(v, ds, i) && Quiet(r, v, ds, decor, k, c, i + 1)
    requires var spans := SpansOn(RowsOf(ds[i], decor), k);
      j < |spans| && Covers(r, spans[j], c) && forall l :: j < l < |spans| ==> !Covers(r, spans[l], c)
    ensures var row, span := RowNow(RunDeltas(r, v, ds), decor, k), SpansOn(RowsOf(ds[i], decor), k)[j];
      c < |row| && row[c] == CellOf(r, ds[i].styles, span, r.runes(span.text)[c - span.startCol])
  {
    hide Painted, RowNow, SpansOn, RunDeltas, CellOf, Covers;
    var upto := ds[..i + 1];
    assert upto[..i] == ds[..i] && upto[i] == ds[i] && forall l :: 0 <= l < i ==> upto[l] == ds[l];
    assert Timely(v, upto, i);
    LastStep(r, v, upto, decor, k);
    LastWriterWins(r, ds[i].styles, RowNow(RunDeltas(r, v, ds[..i]), decor, k), SpansOn(RowsOf(ds[i], decor), k), j, c);
    ColumnStays(r, v, ds, decor, k, c, i + 1);
  }

  // -------------------------------------------------------------------- class

  /** The loop over a delta's rows; content and decoration rows share its shape. */
  method PaintAll(r: Render, styles: seq<StyleEntry>, base: map<U16, Row>, deltas: seq<RowDelta>)
    returns (rows: map<U16, Row>)
    ensures rows == PaintRows(r, styles, base, deltas)
  {
    hide Painted;
    rows := base;
    for i := 0 to |deltas|
      invariant rows == PaintRows(r, styles, base, deltas[..i])
    {
      assert deltas[..i + 1][..i] == deltas[..i];
      var row := if deltas[i].row in rows then rows[deltas[i].row] else [];
      row := PaintOver(r, styles, row, deltas[i].spans);
      rows := rows[deltas[i].row := row];
    }
    assert deltas[..|deltas|] == deltas;
  }

  class PaneState {
    const id: Id
    var revision: U32
    var rows: map<U16, Row>
    var decorRows: map<U16, Row>

    constructor (id: Id)
      ensures this.id == id && Now() == NewPane
    {
      this.id, revision, rows, decorRows := id, 0, map[], map[];
    }

    function Now(): View
      reads this
    {
      View(revision, rows, decorRows)
    }

    /** The part of ApplyDelta under the pane's own lock (client/buffercache.go:190-276). */
    method Apply(r: Render, d: BufferDelta)
      modifies this
      ensures Now() == Applied(r, old(Now()), d)
    {
      hide PaintRows;
      if d.revision < revision { return; }
      rows := PaintAll(r, d.styles, rows, d.rows);
      if |d.decorRows| > 0 {
        decorRows := PaintAll(r, d.styles, decorRows, d.decorRows);
      } else {
        NothingPainted(r, d.styles, decorRows);
      }
      revision := d.revision;
    }
  }

  class BufferCache {
    var panes: map<Id, PaneState>

    constructor ()
      ensures Valid() && panes == map[]
    {
      panes := map[];
    }

    /** Panes are filed under their own identifier, so no two share a record. */
    ghost predicate Valid()
      reads this
    {
      forall id :: id in panes ==> panes[id].id == id
    }

    ghost function Views(): map<Id, View>
      reads this, panes.Values
    {
      map id | id in panes :: panes[id].Now()
    }

    /** Merge a delta; only its own pane changes (client/buffercache.go:179-280). */
    method ApplyDelta(r: Render, d: BufferDelta)
      requires Valid()
      modifies this, panes.Values
      ensures Valid()
      ensures var before := old(Views());
        Views() == before[d.paneID := Applied(r, if d.paneID in before then before[d.paneID] else NewPane, d)]
      ensures forall id :: id in old(panes) ==> id in panes && panes[id] == old(panes)[id]
    {
      hide Applied;
      ghost var before := Views();
      var pane;
      if d.paneID in panes {
        pane := panes[d.paneID];
      } else {
        pane := new PaneState(d.paneID);
        panes := panes[d.paneID := pane];
      }
      pane.Apply(r, d);
      assert Views() == before[d.paneID := pane.Now()];
    }
  }

  lemma {:induction false} NothingPainted(r: Render, styles: seq<StyleEntry>, rows: map<U16, Row>)
    ensures PaintRows(r, styles, rows, []) == rows
  {
  }
}
