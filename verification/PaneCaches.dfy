/**
 * The sparse row cache of a pane (client/pane_cache.go), refining the log of
 * the messages and evictions it has seen.
 */
module PaneCaches {
  import opened Prelude
  import opened Bytes
  import opened BufferDeltas
  import opened SpanPaint

  const MinI64 := -0x8000_0000_0000_0000
  const MaxI64 := 0x7FFF_FFFF_FFFF_FFFF

  datatype LogicalRow = LogicalRow(globalIdx: I64, spans: seq<CellSpan>)
  datatype FetchRangeResponse = FetchRangeResponse(revision: U32, flags: Byte, styles: seq<StyleEntry>,
                                                             rows: seq<LogicalRow>)

  datatype State = State(altScreen: bool, main: map<I64, Row>, alt: seq<Row>, revision: U32)
  const Empty := State(false, map[], [], 0)

  datatype Event =
    | Update(delta: BufferDelta)
    | Fetched(response: FetchRangeResponse)
    | Evicted(lo: I64, hi: I64, overscan: I64)

  /** Go's int64 arithmetic wraps around. */
  function Wrap(x: int): I64 {
    var u := x % 0x1_0000_0000_0000_0000;
    if u > MaxI64 then u - 0x1_0000_0000_0000_0000 else u
  }

  /** BufferDeltaAltScreen and FetchRangeAltScreenActive are both bit 0. */
  predicate AltDelta(d: BufferDelta) { d.flags % 2 == 1 }
  predicate AltResponse(f: FetchRangeResponse) { f.flags % 2 == 1 }

  function Key(d: BufferDelta, row: RowDelta): I64 {
    Wrap(d.rowBase + row.row)
  }

  // ---------------------------------------------------------------- one event

  function DeltaRow(r: Render, d: BufferDelta, row: RowDelta): Row {
    Painted(r, d.styles, [], row.spans)
  }

  function StoreDelta(r: Render, d: BufferDelta, main: map<I64, Row>, rows: seq<RowDelta>): map<I64, Row> {
    if rows == [] then main
    else StoreDelta(r, d, main, rows[..|rows| - 1])[Key(d, rows[|rows| - 1]) := DeltaRow(r, d, rows[|rows| - 1])]
  }

  function StoreFetch(r: Render, f: FetchRangeResponse, main: map<I64, Row>, rows: seq<LogicalRow>): map<I64, Row> {
    if rows == [] then main
    else
      var last := rows[|rows| - 1];
      StoreFetch(r, f, main, rows[..|rows| - 1])[last.globalIdx := Painted(r, f.styles, [], last.spans)]
  }

  function PutAlt(alt: seq<Row>, k: nat, row: Row): seq<Row> {
    (if k < |alt| then alt else alt + seq(k + 1 - |alt|, _ => []))[k := row]
  }

  function StoreAlt(r: Render, d: BufferDelta, alt: seq<Row>, rows: seq<RowDelta>): seq<Row> {
    if rows == [] then alt
    else PutAlt(StoreAlt(r, d, alt, rows[..|rows| - 1]), rows[|rows| - 1].row, DeltaRow(r, d, rows[|rows| - 1]))
  }

  /** The rows an eviction keeps: the window widened on both sides, in wrapping arithmetic. */
  predicate Kept(gid: I64, lo: I64, hi: I64, overscan: I64) {
    var o := if overscan < 0 then 0 else overscan;
    var band := Wrap(o + o / 2);
    Wrap(lo - band) <= gid <= Wrap(hi + band)
  }

  function KeepNear(main: map<I64, Row>, lo: I64, hi: I64, overscan: I64): map<I64, Row> {
    map gid | gid in main && Kept(gid, lo, hi, overscan) :: main[gid]
  }

  function Step(r: Render, s: State, e: Event): State {
    match e
    case Update(d) =>
      var alt := AltDelta(d);
      var main := if alt && !s.altScreen then map[] else s.main;
      var rows := if !alt then [] else s.alt;
      State(alt, if alt then main else StoreDelta(r, d, main, d.rows),
            if alt then StoreAlt(r, d, rows, d.rows) else rows,
            if d.revision > s.revision then d.revision else s.revision)
    case Fetched(f) =>
      if !Accepts(s, f) then s
      else s.(main := StoreFetch(r, f, s.main, f.rows), revision := f.revision)
    case Evicted(lo, hi, overscan) => s.(main := KeepNear(s.main, lo, hi, overscan))
  }

  /** The coherence rule: a response older than the cache is dropped. */
  predicate Accepts(s: State, f: FetchRangeResponse) {
    !AltResponse(f) && f.revision >= s.revision
  }

  function Run(r: Render, log: seq<Event>): State {
    if log == [] then Empty else Step(r, Run(r, log[..|log| - 1]), log[|log| - 1])
  }

  // ------------------------------------------------------- what the log says

  /** The row of the last of the delta's rows that names gid. */
  function NamedIn(r: Render, d: BufferDelta, rows: seq<RowDelta>, gid: I64): Option<Row> {
    if rows == [] then None
    else if Key(d, rows[|rows| - 1]) == gid then Some(DeltaRow(r, d, rows[|rows| - 1]))
    else NamedIn(r, d, rows[..|rows| - 1], gid)
  }

  function FetchedIn(r: Render, f: FetchRangeResponse, rows: seq<LogicalRow>, gid: I64): Option<Row> {
    if rows == [] then None
    else if rows[|rows| - 1].globalIdx == gid then Some(Painted(r, f.styles, [], rows[|rows| - 1].spans))
    else FetchedIn(r, f, rows[..|rows| - 1], gid)
  }

  /** What an event that meets state s writes at gid. */
  function Writes(r: Render, s: State, e: Event, gid: I64): Option<Row> {
    match e
    case Update(d) => if AltDelta(d) then None else NamedIn(r, d, d.rows, gid)
    case Fetched(f) => if Accepts(s, f) then FetchedIn(r, f, f.rows, gid) else None
    case Evicted(_, _, _) => None
  }

  /** The event drops gid: it enters the alt-screen, or evicts around another window. */
  predicate Drops(s: State, e: Event, gid: I64) {
    match e
    case Update(d) => AltDelta(d) && !s.altScreen
    case Fetched(_) => false
    case Evicted(lo, hi, overscan) => !Kept(gid, lo, hi, overscan)
  }

  /** Event i writes gid and no later event writes or drops it. */
  ghost predicate LastWritten(r: Render, log: seq<Event>, i: nat, gid: I64) {
    && i < |log| && Writes(r, Run(r, log[..i]), log[i], gid).Some?
    && forall j :: i < j < |log| ==>
         && Writes(r, Run(r, log[..j]), log[j], gid) == None && !Drops(Run(r, log[..j]), log[j], gid)
  }

  lemma {:induction false} StoreDeltaRow(r: Render, d: BufferDelta, main: map<I64, Row>, rows: seq<RowDelta>, gid: I64)
    ensures var out := StoreDelta(r, d, main, rows);
      match NamedIn(r, d, rows, gid)
      case Some(row) => gid in out && out[gid] == row
      case None => (gid in out <==> gid in main) && (gid in main ==> out[gid] == main[gid])
    decreases |rows|
  {
    hide Key, DeltaRow;
    if rows != [] { StoreDeltaRow(r, d, main, rows[..|rows| - 1], gid); }
  }

  lemma {:induction false} StoreFetchRow(r: Render, f: FetchRangeResponse, main: map<I64, Row>, rows: seq<LogicalRow>,
                                         gid: I64)
    ensures var out := StoreFetch(r, f, main, rows);
      match FetchedIn(r, f, rows, gid)
      case Some(row) => gid in out && out[gid] == row
      case None => (gid in out <==> gid in main) && (gid in main ==> out[gid] == main[gid])
    decreases |rows|
  {
    hide Painted;
    if rows != [] { StoreFetchRow(r, f, main, rows[..|rows| - 1], gid); }
  }

  lemma {:induction false} StepRow(r: Render, s: State, e: Event, gid: I64)
    ensures var out := Step(r, s, e).main;
      match Writes(r, s, e, gid)
      case Some(row) => gid in out && out[gid] == row
      case None =>
        && (gid in out <==> gid in s.main && !Drops(s, e, gid)) && (gid in out ==> out[gid] == s.main[gid])
  {
    hide StoreDelta, StoreFetch, NamedIn, FetchedIn, Kept, StoreAlt;
    match e
    case Update(d) => StoreDeltaRow(r, d, if AltDelta(d) && !s.altScreen then map[] else s.main, d.rows, gid);
    case Fetched(f) => StoreFetchRow(r, f, s.main, f.rows, gid);
    case Evicted(_, _, _) =>
  }

  /**
   * After any run, a row is cached exactly when some event wrote it and none
   * since wrote or dropped it, and it is that event's row.
   */
  lemma {:induction false} RowIsLastWritten(r: Render, log: seq<Event>, gid: I64)
    ensures gid in Run(r, log).main <==> exists i: nat :: LastWritten(r, log, i, gid)
    ensures forall i: nat :: LastWritten(r, log, i, gid) ==>
      && gid in Run(r, log).main && Writes(r, Run(r, log[..i]), log[i], gid) == Some(Run(r, log).main[gid])
    decreases |log|
  {
    hide Step, Writes, Drops;
    if log != [] {
      var n := |log| - 1;
      var before := log[..n];
      RowIsLastWritten(r, before, gid);
      StepRow(r, Run(r, before), log[n], gid);
      forall j: nat | j < n ensures before[..j] == log[..j] {}
      if Writes(r, Run(r, before), log[n], gid).Some? {
        assert LastWritten(r, log, n, gid);
        forall i: nat | LastWritten(r, log, i, gid) ensures i == n {}
      } else {
        forall i: nat ensures LastWritten(r, log, i, gid) <==>
                              LastWritten(r, before, i, gid) && !Drops(Run(r, before), log[n], gid) {
          LastWrittenNext(r, log, i, gid);
        }
        if i: nat :| LastWritten(r, before, i, gid) { assert before[i] == log[i] && before[..i] == log[..i]; }
      }
    }
  }

  lemma {:induction false} LastWrittenNext(r: Render, log: seq<Event>, i: nat, gid: I64)
    requires log != [] && Writes(r, Run(r, log[..|log| - 1]), log[|log| - 1], gid) == None
    ensures LastWritten(r, log, i, gid) <==>
            && LastWritten(r, log[..|log| - 1], i, gid) && !Drops(Run(r, log[..|log| - 1]), log[|log| - 1], gid)
  {
    hide Run, Writes, Drops;
    var n := |log| - 1;
    var before := log[..n];
    forall j: nat | j < n ensures before[..j] == log[..j] && before[j] == log[j] {}
    if LastWritten(r, before, i, gid) && !Drops(Run(r, before), log[n], gid) {
      forall j | i < j < |log|
        ensures Writes(r, Run(r, log[..j]), log[j], gid) == None && !Drops(Run(r, log[..j]), log[j], gid)
      {
        if j < n { assert Writes(r, Run(r, before[..j]), before[j], gid) == None; }
      }
    }
    if LastWritten(r, log, i, gid) {
      assert i < n;
      forall j | i < j < n
        ensures Writes(r, Run(r, before[..j]), before[j], gid) == None && !Drops(Run(r, before[..j]), before[j], gid)
      {
      }
    }
  }

  // ------------------------------------------------------- revisions and modes

  /** The revision of an accepted message. */
  function Stamp(s: State, e: Event): Option<U32> {
    match e
    case Update(d) => Some(d.revision)
    case Fetched(f) => if Accepts(s, f) then Some(f.revision) else None
    case Evicted(_, _, _) => None
  }

  lemma {:induction false} StepRevision(r: Render, s: State, e: Event)
    ensures Step(r, s, e).revision == match Stamp(s, e)
      case None => s.revision
      case Some(v) => if v > s.revision then v else s.revision
  {
    hide StoreDelta, StoreFetch, StoreAlt, KeepNear;
  }

  /** The revision never falls along a run. */
  lemma {:induction false} RevisionGrows(r: Render, log: seq<Event>, i: nat)
    requires i <= |log|
    ensures Run(r, log[..i]).revision <= Run(r, log).revision
    decreases |log|
  {
    hide Step, Stamp;
    if i == |log| {
      assert log[..i] == log;
    } else {
      var n := |log| - 1;
      assert log[..n][..i] == log[..i];
      RevisionGrows(r, log[..n], i);
      StepRevision(r, Run(r, log[..n]), log[n]);
    }
  }

  /** The cache's revision is the largest one accepted, or 0 before any. */
  lemma {:induction false} RevisionIsLargest(r: Render, log: seq<Event>)
    ensures forall i: nat :: i < |log| && Stamp(Run(r, log[..i]), log[i]).Some? ==>
      Stamp(Run(r, log[..i]), log[i]).value <= Run(r, log).revision
    ensures Run(r, log).revision == 0 ||
            exists i: nat :: i < |log| && Stamp(Run(r, log[..i]), log[i]) == Some(Run(r, log).revision)
  {
    hide Step, Stamp;
    forall i: nat | i < |log| && Stamp(Run(r, log[..i]), log[i]).Some?
      ensures Stamp(Run(r, log[..i]), log[i]).value <= Run(r, log).revision
    {
      StepRevision(r, Run(r, log[..i]), log[i]);
      assert log[..i + 1][..i] == log[..i];
      RevisionGrows(r, log, i + 1);
    }
    if Run(r, log).revision != 0 { var i := RevisionReached(r, log); }
  }

  lemma {:induction false} RevisionReached(r: Render, log: seq<Event>) returns (i: nat)
    requires Run(r, log).revision != 0
    ensures i < |log| && Stamp(Run(r, log[..i]), log[i]) == Some(Run(r, log).revision)
    decreases |log|
  {
    hide Step, Stamp;
    var n := |log| - 1;
    StepRevision(r, Run(r, log[..n]), log[n]);
    if Run(r, log).revision == Run(r, log[..n]).revision {
      i := RevisionReached(r, log[..n]);
      assert log[..n][..i] == log[..i];
    } else {
      i := n;
    }
  }

  /** The mode is that of the last update, and outside the alt-screen there are no alt rows. */
  lemma {:induction false} ModeIsLastUpdate(r: Render, log: seq<Event>)
    ensures Run(r, log).altScreen <==>
            exists i :: 0 <= i < |log| && log[i].Update? && AltDelta(log[i].delta)
                        && forall j :: i < j < |log| ==> !log[j].Update?
    ensures !Run(r, log).altScreen ==> Run(r, log).alt == []
    decreases |log|
  {
    hide StoreDelta, StoreFetch, StoreAlt, Kept, AltDelta;
    if log != [] {
      var n := |log| - 1;
      var before := log[..n];
      ModeIsLastUpdate(r, before);
      assert forall j :: 0 <= j < n ==> before[j] == log[j];
      if !log[n].Update? && Run(r, before).altScreen {
        var i :| 0 <= i < n && before[i].Update? && AltDelta(before[i].delta)
                 && forall j :: i < j < n ==> !before[j].Update?;
        assert log[i].Update? && forall j :: i < j < |log| ==> !log[j].Update?;
      }
    }
  }

  // --------------------------------------------------------------- alt-screen

  /** A row of the alt buffer; rows it does not reach are empty. */
  function AltRow(alt: seq<Row>, k: nat): Row {
    if k < |alt| then alt[k] else []
  }

  function AltNamed(r: Render, d: BufferDelta, rows: seq<RowDelta>, k: nat): Option<Row> {
    if rows == [] then None
    else if rows[|rows| - 1].row == k then Some(DeltaRow(r, d, rows[|rows| - 1]))
    else AltNamed(r, d, rows[..|rows| - 1], k)
  }

  function AltWrites(r: Render, e: Event, k: nat): Option<Row> {
    if e.Update? && AltDelta(e.delta) then AltNamed(r, e.delta, e.delta.rows, k) else None
  }

  predicate LeavesAlt(e: Event) {
    e.Update? && !AltDelta(e.delta)
  }

  /** Event i writes alt row k, and no later event writes it or leaves the alt-screen. */
  ghost predicate AltLastWritten(r: Render, log: seq<Event>, i: nat, k: nat) {
    && i < |log| && AltWrites(r, log[i], k).Some?
    && forall j :: i < j < |log| ==> AltWrites(r, log[j], k) == None && !LeavesAlt(log[j])
  }

  lemma {:induction false} StoreAltRow(r: Render, d: BufferDelta, alt: seq<Row>, rows: seq<RowDelta>, k: nat)
    ensures AltRow(StoreAlt(r, d, alt, rows), k) == match AltNamed(r, d, rows, k)
      case Some(row) => row
      case None => AltRow(alt, k)
    decreases |rows|
  {
    hide DeltaRow;
    if rows != [] { StoreAltRow(r, d, alt, rows[..|rows| - 1], k); }
  }

  lemma {:induction false} StepAltRow(r: Render, s: State, e: Event, k: nat)
    ensures AltRow(Step(r, s, e).alt, k) == match AltWrites(r, e, k)
      case Some(row) => row
      case None => if LeavesAlt(e) then [] else AltRow(s.alt, k)
  {
    hide StoreDelta, StoreFetch, StoreAlt, AltNamed, KeepNear;
    if e.Update? && AltDelta(e.delta) { StoreAltRow(r, e.delta, s.alt, e.delta.rows, k); }
  }

  /** An alt row is the one last written since the alt-screen was entered, or empty. */
  lemma {:induction false} AltRowIsLastWritten(r: Render, log: seq<Event>, k: nat)
    ensures forall i: nat :: AltLastWritten(r, log, i, k) ==>
              AltWrites(r, log[i], k) == Some(AltRow(Run(r, log).alt, k))
    ensures (forall i: nat :: !AltLastWritten(r, log, i, k)) ==> AltRow(Run(r, log).alt, k) == []
    decreases |log|
  {
    hide Step, AltWrites, LeavesAlt, AltRow;
    if log == [] {
      AltRowOfNone(k);
    } else {
      var n := |log| - 1;
      var before, last := log[..n], log[n];
      AltRowIsLastWritten(r, before, k);
      StepAltRow(r, Run(r, before), last, k);
      if AltWrites(r, last, k).Some? {
        assert AltLastWritten(r, log, n, k);
      } else {
        forall i: nat ensures AltLastWritten(r, log, i, k) <==> AltLastWritten(r, before, i, k) && !LeavesAlt(last) {
          AltLastWrittenNext(r, log, i, k);
        }
        forall i: nat | i < n ensures before[i] == log[i] {}
      }
    }
  }

  lemma {:induction false} AltRowOfNone(k: nat)
    ensures AltRow([], k) == []
  {
  }

  lemma {:induction false} AltLastWrittenNext(r: Render, log: seq<Event>, i: nat, k: nat)
    requires log != [] && AltWrites(r, log[|log| - 1], k) == None
    ensures AltLastWritten(r, log, i, k) <==>
            AltLastWritten(r, log[..|log| - 1], i, k) && !LeavesAlt(log[|log| - 1])
  {
    hide AltWrites, LeavesAlt;
    var n := |log| - 1;
    var before := log[..n];
    forall j: nat | j < n ensures before[j] == log[j] {}
    if AltLastWritten(r, log, i, k) {
      assert i < n;
      forall j | i < j < n ensures AltWrites(r, before[j], k) == None && !LeavesAlt(before[j]) {}
    }
    if AltLastWritten(r, before, i, k) && !LeavesAlt(log[n]) {
      forall j | i < j < |log| ensures AltWrites(r, log[j], k) == None && !LeavesAlt(log[j]) {
        if j < n { assert before[j] == log[j]; }
      }
    }
  }

  // ----------------------------------------------------------------- eviction

  /** The width of the margin an eviction keeps on each side. */
  function Band(overscan: I64): nat {
    var o := if overscan < 0 then 0 else overscan;
    o + o / 2
  }

  /** An eviction keeps all of its window exactly when the margins do not run past 64 bits. */
  lemma {:induction false} EvictKeepsWindow(lo: I64, hi: I64, overscan: I64)
    requires lo <= hi
    ensures (forall gid: I64 :: lo <= gid <= hi ==> Kept(gid, lo, hi, overscan)) <==>
            lo - Band(overscan) >= MinI64 && hi + Band(overscan) <= MaxI64
  {
    hide Wrap;
    EvictBounds(lo, hi, overscan);
    if lo - Band(overscan) < MinI64 { assert !Kept(lo, lo, hi, overscan); }
    if hi + Band(overscan) > MaxI64 { assert !Kept(hi, lo, hi, overscan); }
  }

  lemma {:induction false} EvictBounds(lo: I64, hi: I64, overscan: I64)
    ensures var band := Wrap(Band(overscan)); var b := Band(overscan);
      && Wrap(lo - band) == (if lo - b >= MinI64 then lo - b else lo - b + 0x1_0000_0000_0000_0000)
      && Wrap(hi + band) == (if hi + b <= MaxI64 then hi + b else hi + b - 0x1_0000_0000_0000_0000)
  {
    hide Wrap;
    var b, band := Band(overscan), Wrap(Band(overscan));
    WrapOnce(b);
    WrapOnce(lo - b);
    WrapOnce(hi + b);
    if band != b {
      WrapTurn(lo - b);
      WrapTurn(hi + band);
    }
  }

  /** Wrapping takes off at most one turn this close to the range. */
  lemma {:induction false} WrapOnce(x: int)
    requires 3 * MinI64 <= x <= 3 * MaxI64
    ensures Wrap(x) == if x < MinI64 then x + 0x1_0000_0000_0000_0000
                       else if x > MaxI64 then x - 0x1_0000_0000_0000_0000
                       else x
  {
  }

  lemma {:induction false} WrapTurn(x: int)
    ensures Wrap(x + 0x1_0000_0000_0000_0000) == Wrap(x)
  {
  }

  lemma {:induction false} IntervalSize(s: set<I64>, lo: int, hi: int)
    requires forall x :: x in s ==> lo <= x <= hi
    ensures |s| <= if lo <= hi then hi - lo + 1 else 0
    decreases hi - lo
  {
    if lo > hi {
      assert s == {};
    } else {
      var rest := set x | x in s && x < hi;
      IntervalSize(rest, lo, hi - 1);
      if hi in s { assert s == rest + {hi as I64}; } else { assert s == rest; }
    }
  }

  /**
   * An eviction keeps exactly the cached rows of the window widened by one and a
   * half times the overscan (none if that is negative), each as it was, while the
   * margins stay within 64 bits; once one runs past them, it keeps the rows
   * between the bounds as they come out on the other side.
   */
  lemma {:induction false} EvictKeepsExactly(r: Render, s: State, lo: I64, hi: I64, overscan: I64)
    ensures var main := Step(r, s, Evicted(lo, hi, overscan)).main;
      var o := if overscan < 0 then 0 else overscan;
      var from := if lo - (o + o / 2) >= MinI64 then lo - (o + o / 2)
                  else lo - (o + o / 2) + 0x1_0000_0000_0000_0000;
      var to := if hi + (o + o / 2) <= MaxI64 then hi + (o + o / 2)
                else hi + (o + o / 2) - 0x1_0000_0000_0000_0000;
      && Step(r, s, Evicted(lo, hi, overscan)) == s.(main := main)
      && forall gid: I64 ::
           (gid in main <==> gid in s.main && from <= gid <= to) && (gid in main ==> main[gid] == s.main[gid])
  {
    hide Wrap;
    EvictBounds(lo, hi, overscan);
  }

  /** Record i is the last one that names gid. */
  predicate LastNaming(rows: seq<LogicalRow>, i: nat, gid: I64) {
    i < |rows| && rows[i].globalIdx == gid && forall j :: i < j < |rows| ==> rows[j].globalIdx != gid
  }

  /** Row gid before and after the records: painted from the last one naming it, or left. */
  ghost predicate RowFetched(r: Render, f: FetchRangeResponse, rows: seq<LogicalRow>, before: map<I64, Row>,
                             after: map<I64, Row>, gid: I64) {
    && ((forall j :: 0 <= j < |rows| ==> rows[j].globalIdx != gid) ==>
          (gid in after <==> gid in before) && (gid in before ==> after[gid] == before[gid]))
    && (forall i: nat | LastNaming(rows, i, gid) ::
          gid in after && after[gid] == Painted(r, f.styles, [], rows[i].spans))
  }

  /**
   * A response takes effect exactly when it is not for the alt-screen (bit 0 of
   * its flags) and not older than the cache; then each row it names is the one
   * painted from the last record naming it, and the others stay.
   */
  lemma {:induction false} FetchTakesEffect(r: Render, s: State, f: FetchRangeResponse)
    ensures var s' := Step(r, s, Fetched(f));
      && (f.flags % 2 == 1 || f.revision < s.revision ==> s' == s)
      && (f.flags % 2 == 0 && f.revision >= s.revision ==>
            && s' == s.(main := s'.main, revision := f.revision)
            && forall gid: I64 :: RowFetched(r, f, f.rows, s.main, s'.main, gid))
  {
    hide StoreFetch, RowFetched;
    forall gid: I64 ensures RowFetched(r, f, f.rows, s.main, StoreFetch(r, f, s.main, f.rows), gid) {
      RecordsStore(r, f, s.main, f.rows, gid);
    }
  }

  lemma {:induction false} RecordsStore(r: Render, f: FetchRangeResponse, main: map<I64, Row>, rows: seq<LogicalRow>,
                                        gid: I64)
    ensures RowFetched(r, f, rows, main, StoreFetch(r, f, main, rows), gid)
  {
    hide Painted, StoreFetch, FetchedIn;
    StoreFetchRow(r, f, main, rows, gid);
    if forall j :: 0 <= j < |rows| ==> rows[j].globalIdx != gid { NotFetched(r, f, rows, gid); }
    forall i: nat | LastNaming(rows, i, gid)
      ensures FetchedIn(r, f, rows, gid) == Some(Painted(r, f.styles, [], rows[i].spans))
    {
      FetchedLast(r, f, rows, i, gid);
    }
  }

  lemma {:induction false} NotFetched(r: Render, f: FetchRangeResponse, rows: seq<LogicalRow>, gid: I64)
    requires forall j :: 0 <= j < |rows| ==> rows[j].globalIdx != gid
    ensures FetchedIn(r, f, rows, gid) == None
    decreases |rows|
  {
    if rows != [] { NotFetched(r, f, rows[..|rows| - 1], gid); }
  }

  lemma {:induction false} FetchedLast(r: Render, f: FetchRangeResponse, rows: seq<LogicalRow>, i: nat, gid: I64)
    requires LastNaming(rows, i, gid)
    ensures FetchedIn(r, f, rows, gid) == Some(Painted(r, f.styles, [], rows[i].spans))
    decreases |rows|
  {
    hide Painted;
    var n := |rows| - 1;
    if i < n {
      assert rows[n].globalIdx != gid && rows[..n][i] == rows[i];
      FetchedLast(r, f, rows[..n], i, gid);
    }
  }

  /**
   * An update is for the alt-screen by bit 0 of its flags. Entering it empties
   * the main rows, leaving it the alt rows; the revision never falls.
   */
  lemma {:induction false} UpdateSwitches(r: Render, s: State, d: BufferDelta)
    ensures var s' := Step(r, s, Update(d));
      && s'.altScreen == (d.flags % 2 == 1)
      && (s'.altScreen && !s.altScreen ==> s'.main == map[]) && (s'.altScreen && s.altScreen ==> s'.main == s.main)
      && (!s'.altScreen ==> s'.alt == [])
      && s'.revision == (if d.revision >= s.revision then d.revision else s.revision)
  {
    hide Painted, StoreDelta, StoreAlt;
  }

  /** After an eviction the cache holds at most the window and its margins. */
  lemma {:induction false} EvictBoundsSize(r: Render, s: State, lo: I64, hi: I64, overscan: I64)
    requires lo - Band(overscan) >= MinI64 && hi + Band(overscan) <= MaxI64
    ensures var width := hi - lo + 1 + 2 * Band(overscan);
      |Step(r, s, Evicted(lo, hi, overscan)).main| <= if width > 0 then width else 0
  {
    hide Wrap;
    EvictBounds(lo, hi, overscan);
    var main := Step(r, s, Evicted(lo, hi, overscan)).main;
    IntervalSize(main.Keys, lo - Band(overscan), hi + Band(overscan));
    assert |main| == |main.Keys|;
  }

  // ------------------------------------------------------------- missing rows

  function Missing(main: map<I64, Row>, lo: int, hi: int): seq<I64>
    requires MinI64 <= lo && hi <= MaxI64
    decreases hi - lo
  {
    if lo > hi then [] else (if lo in main then [] else [lo]) + Missing(main, lo + 1, hi)
  }

  lemma {:induction false} MissingMembers(main: map<I64, Row>, lo: int, hi: int)
    requires MinI64 <= lo && hi <= MaxI64
    ensures forall gid: I64 :: gid in Missing(main, lo, hi) <==> lo <= gid <= hi && gid !in main
    decreases hi - lo
  {
    if lo <= hi {
      MissingMembers(main, lo + 1, hi);
      var first: seq<I64> := if lo in main then [] else [lo];
      forall gid: I64 ensures gid in Missing(main, lo, hi) <==> gid in first || gid in Missing(main, lo + 1, hi) {}
    }
  }

  /** Exactly the rows of the range that are not cached, in ascending order. */
  lemma {:induction false} MissingExactly(main: map<I64, Row>, lo: int, hi: int)
    requires MinI64 <= lo && hi <= MaxI64
    ensures forall gid: I64 :: gid in Missing(main, lo, hi) <==> lo <= gid <= hi && gid !in main
    ensures forall i, j :: 0 <= i < j < |Missing(main, lo, hi)| ==> Missing(main, lo, hi)[i] < Missing(main, lo, hi)[j]
    decreases hi - lo
  {
    MissingMembers(main, lo, hi);
    if lo <= hi {
      var m, rest := Missing(main, lo, hi), Missing(main, lo + 1, hi);
      MissingExactly(main, lo + 1, hi);
      if lo !in main {
        forall i, j | 0 <= i < j < |m| ensures m[i] < m[j] {
          assert m[j] == rest[j - 1] && rest[j - 1] in rest;
          if i > 0 { assert m[i] == rest[i - 1]; }
        }
      }
    }
  }

  lemma {:induction false} NoneMissing(main: map<I64, Row>, lo: int, hi: int)
    requires MinI64 <= lo && hi <= MaxI64 && forall gid: I64 :: lo <= gid <= hi ==> gid in main
    ensures Missing(main, lo, hi) == []
    decreases hi - lo
  {
    if lo <= hi { NoneMissing(main, lo + 1, hi); }
  }

  lemma {:induction false} MissingDepends(a: map<I64, Row>, b: map<I64, Row>, lo: int, hi: int)
    requires MinI64 <= lo && hi <= MaxI64 && forall gid: I64 :: lo <= gid <= hi ==> (gid in a <==> gid in b)
    ensures Missing(a, lo, hi) == Missing(b, lo, hi)
    decreases hi - lo
  {
    if lo <= hi { MissingDepends(a, b, lo + 1, hi); }
  }

  /** Evicting around a window leaves what is missing from it unchanged. */
  lemma {:induction false} EvictKeepsMissing(r: Render, s: State, lo: I64, hi: I64, overscan: I64, from: I64, to: I64)
    requires lo - Band(overscan) >= MinI64 && hi + Band(overscan) <= MaxI64 && lo <= from && to <= hi
    ensures Missing(Step(r, s, Evicted(lo, hi, overscan)).main, from, to) == Missing(s.main, from, to)
  {
    if lo <= hi { EvictKeepsWindow(lo, hi, overscan); }
    MissingDepends(Step(r, s, Evicted(lo, hi, overscan)).main, s.main, from, to);
  }

  /** An accepted response that names every missing row of a range leaves none missing. */
  lemma {:induction false} FetchFills(r: Render, s: State, f: FetchRangeResponse, lo: I64, hi: I64)
    requires Accepts(s, f)
    requires forall gid: I64 :: gid in Missing(s.main, lo, hi) ==>
      exists i :: 0 <= i < |f.rows| && f.rows[i].globalIdx == gid
    ensures Missing(Step(r, s, Fetched(f)).main, lo, hi) == []
  {
    hide StoreFetch, FetchedIn, Missing, Accepts, Painted;
    var out := Step(r, s, Fetched(f)).main;
    MissingExactly(s.main, lo, hi);
    forall gid: I64 | lo <= gid <= hi ensures gid in out {
      StoreFetchRow(r, f, s.main, f.rows, gid);
      if gid !in s.main {
        var i :| 0 <= i < |f.rows| && f.rows[i].globalIdx == gid;
        FetchNames(r, f, f.rows, i);
      }
    }
    NoneMissing(out, lo, hi);
  }

  lemma {:induction false} FetchNames(r: Render, f: FetchRangeResponse, rows: seq<LogicalRow>, i: nat)
    requires i < |rows|
    ensures FetchedIn(r, f, rows, rows[i].globalIdx).Some?
    decreases |rows|
  {
    if i < |rows| - 1 { FetchNames(r, f, rows[..|rows| - 1], i); }
  }

  /** A response older than the cache changes nothing. */
  lemma {:induction false} StaleFetchIgnored(r: Render, log: seq<Event>, f: FetchRangeResponse, i: nat)
    requires i < |log| && Stamp(Run(r, log[..i]), log[i]).Some?
    requires f.revision < Stamp(Run(r, log[..i]), log[i]).value
    ensures Run(r, log + [Fetched(f)]) == Run(r, log)
  {
    hide StoreFetch, Stamp;
    RevisionIsLargest(r, log);
    assert (log + [Fetched(f)])[..|log|] == log;
  }

  // -------------------------------------------------------------------- class

  class PaneCache {
    var altScreen: bool
    var main: map<I64, Row>
    var alt: seq<Row>
    var revision: U32

    function Now(): State
      reads this
    {
      State(altScreen, main, alt, revision)
    }

    /** Outside the alt-screen there are no alt rows. */
    predicate Valid()
      reads this
    {
      !altScreen ==> alt == []
    }

    constructor ()
      ensures Valid() && Now() == Empty
    {
      altScreen, main, alt, revision := false, map[], [], 0;
    }

    /** Merge an update (client/pane_cache.go:47-75). */
    method ApplyDelta(r: Render, d: BufferDelta)
      requires Valid()
      modifies this
      ensures Valid() && Now() == Step(r, old(Now()), Update(d))
    {
      hide Painted, Key;
      var isAlt := d.flags % 2 != 0;
      if isAlt != altScreen {
        altScreen := isAlt;
        if isAlt {
          main := map[];
        } else {
          alt := [];
        }
      }
      if d.revision > revision { revision := d.revision; }
      ghost var main0, alt0 := main, alt;
      for i := 0 to |d.rows|
        invariant altScreen == isAlt && revision == Step(r, old(Now()), Update(d)).revision
        invariant main == if isAlt then main0 else StoreDelta(r, d, main0, d.rows[..i])
        invariant alt == if isAlt then StoreAlt(r, d, alt0, d.rows[..i]) else alt0
      {
        var row := d.rows[i];
        assert d.rows[..i + 1][..i] == d.rows[..i];
        var cells := DecodeSpans(r, d.styles, row.spans);
        if isAlt {
          AltPut(row.row, cells);
        } else {
          var gid := Wrap(d.rowBase + row.row);
          assert gid == Key(d, row) by { KeyIs(d, row); }
          main := main[gid := cells];
        }
      }
      assert d.rows[..|d.rows|] == d.rows;
    }

    /** Store an alt-screen row, growing the buffer to reach it (client/pane_cache.go:152-157). */
    method AltPut(k: nat, cells: Row)
      modifies this`alt
      ensures alt == PutAlt(old(alt), k, cells)
    {
      while k >= |alt|
        invariant |old(alt)| <= |alt|
        invariant alt == old(alt) + seq(|alt| - |old(alt)|, _ => [])
        invariant |alt| <= if k + 1 > |old(alt)| then k + 1 else |old(alt)|
        decreases k - |alt|
      {
        alt := alt + [[]];
      }
      alt := alt[k := cells];
    }

    /** Merge rows fetched on demand (client/pane_cache.go:78-97). */
    method ApplyFetchRange(r: Render, f: FetchRangeResponse)
      requires Valid()
      modifies this
      ensures Valid() && Now() == Step(r, old(Now()), Fetched(f))
    {
      hide Painted;
      if f.flags % 2 != 0 { return; }
      if f.revision < revision { return; }
      if f.revision > revision { revision := f.revision; }
      for i := 0 to |f.rows|
        invariant Valid() && main == StoreFetch(r, f, old(main), f.rows[..i])
        invariant altScreen == old(altScreen) && alt == old(alt) && revision == f.revision
      {
        assert f.rows[..i + 1][..i] == f.rows[..i];
        var cells := DecodeSpans(r, f.styles, f.rows[i].spans);
        main := main[f.rows[i].globalIdx := cells];
      }
      assert f.rows[..|f.rows|] == f.rows;
    }

    /** Drop the rows outside the widened window (client/pane_cache.go:122-136). */
    method Evict(lo: I64, hi: I64, overscan: I64)
      requires Valid()
      modifies this
      ensures Valid() && Now() == old(Now()).(main := KeepNear(old(main), lo, hi, overscan))
    {
      hide Wrap;
      var o := if overscan < 0 then 0 else overscan;
      var band := Wrap(o + o / 2);
      var lowerBound, upperBound := Wrap(lo - band), Wrap(hi + band);
      var keys := main.Keys;
      while keys != {}
        invariant keys <= main.Keys <= old(main).Keys
        invariant forall k :: k in main ==> main[k] == old(main)[k]
        invariant forall k :: k in old(main) ==> (k in main <==> k in keys || lowerBound <= k <= upperBound)
        invariant altScreen == old(altScreen) && alt == old(alt) && revision == old(revision)
        decreases |keys|
      {
        var k :| k in keys;
        if k < lowerBound || k > upperBound { main := main - {k}; }
        keys := keys - {k};
      }
      forall k ensures k in main <==> k in KeepNear(old(main), lo, hi, overscan) {}
      assert main == KeepNear(old(main), lo, hi, overscan);
    }

    /** The rows of the range to be fetched (client/pane_cache.go:140-150). */
    method MissingRows(lo: I64, hi: I64) returns (miss: seq<I64>)
      requires hi < MaxI64
      ensures miss == Missing(main, lo, hi)
    {
      miss := [];
      var gid: int := lo;
      while gid <= hi
        invariant lo <= gid && (gid <= hi + 1 || gid == lo)
        invariant miss + Missing(main, gid, hi) == Missing(main, lo, hi)
        decreases hi - gid
      {
        if gid !in main { miss := miss + [gid]; }
        gid := gid + 1;
      }
    }
  }

  lemma {:induction false} KeyIs(d: BufferDelta, row: RowDelta)
    ensures Key(d, row) == Wrap(d.rowBase + row.row)
  {
  }
}
