/**
 * What is on the wire, byte by byte (protocol/buffer_delta.go:124-454,
 * protocol/messages.go:963-1149, protocol/protocol.go:108-195): where each field
 * of a delta, a snapshot and a frame stands and how its bytes add up to it.
 */
module WireLayout {
  import opened Prelude
  import opened Bytes
  import D = BufferDeltas
  import S = TreeSnapshots
  import F = Framing

  // ---------------------------------------------------------------- integers

  /** The two bytes from k on are v, the lowest first. */
  predicate Is16(b: seq<Byte>, k: nat, v: int) {
    k + 2 <= |b| && v == b[k] as int + 256 * b[k + 1] as int
  }

  predicate Is32(b: seq<Byte>, k: nat, v: int) {
    k + 4 <= |b| && v == b[k] as int + 256 * b[k + 1] as int + 65536 * b[k + 2] as int + 16777216 * b[k + 3] as int
  }

  predicate Is64(b: seq<Byte>, k: nat, v: int) {
    k + 8 <= |b| &&
    v == b[k] as int + 256 * b[k + 1] as int + 65536 * b[k + 2] as int + 16777216 * b[k + 3] as int
         + 4294967296 * b[k + 4] as int + 1099511627776 * b[k + 5] as int
         + 281474976710656 * b[k + 6] as int + 72057594037927936 * b[k + 7] as int
  }

  /** Two's complement in 32 and 64 bits. */
  predicate IsSigned32(b: seq<Byte>, k: nat, v: int) {
    Is32(b, k, if v < 0 then v + 4294967296 else v)
  }

  predicate IsSigned64(b: seq<Byte>, k: nat, v: int) {
    Is64(b, k, if v < 0 then v + 18446744073709551616 else v)
  }

  function Power(i: nat): nat {
    if i == 0 then 1 else 256 * Power(i - 1)
  }

  /** The number the first n bytes from k on add up to. */
  function Total(b: seq<Byte>, k: nat, n: nat): nat
    requires k + n <= |b|
    decreases n
  {
    if n == 0 then 0 else b[k] as int + 256 * Total(b, k + 1, n - 1)
  }

  lemma {:induction false} TotalByte(b: seq<Byte>, k: nat, n: nat, i: nat)
    requires k + n <= |b| && i < n
    ensures Power(i) > 0 && b[k + i] == Total(b, k, n) / Power(i) % 256
    decreases i
  {
    var rest := Total(b, k + 1, n - 1);
    assert Total(b, k, n) == b[k] as int + 256 * rest;
    if i > 0 {
      TotalByte(b, k + 1, n - 1, i - 1);
      DivideTwice(b[k], rest, Power(i - 1));
    }
  }

  lemma DivideTwice(low: Byte, rest: nat, p: nat)
    requires p > 0
    ensures (low as int + 256 * rest) / (256 * p) == rest / p
  {
    var q, m := rest / p, rest % p;
    assert rest == q * p + m;
    assert low as int + 256 * rest == q * (256 * p) + (256 * m + low);
    Quotient(low as int + 256 * rest, 256 * p, q, 256 * m + low);
  }

  lemma Quotient(x: nat, d: nat, q: nat, r: nat)
    requires d > 0 && r < d && x == q * d + r
    ensures x / d == q
  {
    if x / d < q {
      Below(x / d, q, d);
    } else if x / d > q {
      Below(q, x / d, d);
    }
  }

  lemma Below(a: nat, b: nat, d: nat)
    requires a < b
    ensures a * d + d <= b * d
  {
    assert (b - a - 1) * d >= 0;
    assert (b - a - 1) * d == b * d - a * d - d;
  }

  lemma {:induction false} TotalOfTwo(b: seq<Byte>, k: nat)
    requires k + 2 <= |b|
    ensures Is16(b, k, Total(b, k, 2))
  {
    assert Total(b, k + 1, 1) == b[k + 1] as int + 256 * Total(b, k + 2, 0);
  }

  lemma {:induction false} TotalOfFour(b: seq<Byte>, k: nat)
    requires k + 4 <= |b|
    ensures Is32(b, k, Total(b, k, 4))
  {
    TotalOfTwo(b, k + 2);
    assert Total(b, k + 1, 3) == b[k + 1] as int + 256 * Total(b, k + 2, 2);
  }

  lemma {:induction false} TotalOfEight(b: seq<Byte>, k: nat)
    requires k + 8 <= |b|
    ensures Is64(b, k, Total(b, k, 8))
  {
    TotalOfFour(b, k + 4);
    assert Total(b, k + 3, 5) == b[k + 3] as int + 256 * Total(b, k + 4, 4);
    assert Total(b, k + 2, 6) == b[k + 2] as int + 256 * Total(b, k + 3, 5);
    assert Total(b, k + 1, 7) == b[k + 1] as int + 256 * Total(b, k + 2, 6);
  }

  /** Byte i of an integer field is the value divided by 256 to the i, modulo 256. */
  lemma {:induction false} FieldBytes(b: seq<Byte>, k: nat, v: int, i: nat)
    ensures Power(i) > 0
    ensures Is16(b, k, v) && i < 2 ==> b[k + i] == v / Power(i) % 256
    ensures Is32(b, k, v) && i < 4 ==> b[k + i] == v / Power(i) % 256
    ensures Is64(b, k, v) && i < 8 ==> b[k + i] == v / Power(i) % 256
  {
    PowerPositive(i);
    if Is16(b, k, v) && i < 2 {
      TotalOfTwo(b, k);
      TotalByte(b, k, 2, i);
    }
    if Is32(b, k, v) && i < 4 {
      TotalOfFour(b, k);
      TotalByte(b, k, 4, i);
    }
    if Is64(b, k, v) && i < 8 {
      TotalOfEight(b, k);
      TotalByte(b, k, 8, i);
    }
  }

  lemma {:induction false} PowerPositive(i: nat)
    ensures Power(i) > 0
  {
    if i > 0 { PowerPositive(i - 1); }
  }

  // -------------------------------------------------------------------- lists

  /** The records one after the other and nothing else, each as `form` says. */
  ghost predicate Listed<T(!new)>(form: (T, seq<Byte>) -> bool, xs: seq<T>, b: seq<Byte>) {
    if xs == [] then b == []
    else exists cut: nat :: cut <= |b| && form(xs[0], b[..cut]) && Listed(form, xs[1..], b[cut..])
  }

  /** A 16-bit count and the records. */
  ghost predicate Counted<T(!new)>(form: (T, seq<Byte>) -> bool, xs: seq<T>, b: seq<Byte>) {
    |b| >= 2 && Is16(b, 0, |xs|) && Listed(form, xs, b[2..])
  }

  lemma {:induction false} ConcatListed<T(!new)>(form: (T, seq<Byte>) -> bool, write: T -> seq<Byte>, xs: seq<T>)
    requires forall i :: 0 <= i < |xs| ==> form(xs[i], write(xs[i]))
    ensures Listed(form, xs, Concat(write, xs))
  {
    if xs != [] {
      var b, cut := Concat(write, xs), |write(xs[0])|;
      ConcatListed(form, write, xs[1..]);
      assert b[..cut] == write(xs[0]) && b[cut..] == Concat(write, xs[1..]);
    }
  }

  /** Records of one size lie at multiples of it. */
  lemma {:induction false} ConcatChunk<T>(write: T -> seq<Byte>, xs: seq<T>, size: nat, i: nat)
    requires i < |xs| && forall j :: 0 <= j < |xs| ==> |write(xs[j])| == size
    ensures |Concat(write, xs)| >= size * i + size
    ensures Concat(write, xs)[size * i..size * i + size] == write(xs[i])
  {
    var b, rest := Concat(write, xs), Concat(write, xs[1..]);
    assert b == write(xs[0]) + rest;
    if i > 0 {
      ConcatChunk(write, xs[1..], size, i - 1);
      assert size * i == size + size * (i - 1);
      assert b[size * i..size * i + size] == rest[size * (i - 1)..size * (i - 1) + size];
    }
  }

  lemma {:induction false} GetIs(b: seq<Byte>, k: nat)
    ensures k + 2 <= |b| ==> Is16(b, k, Get16(b, k))
    ensures k + 4 <= |b| ==> Is32(b, k, Get32(b, k))
    ensures k + 8 <= |b| ==> Is64(b, k, Get64(b, k))
  {
  }

  // ------------------------------------------------------------------- deltas

  /** The 22 bytes of a colour descriptor from k on. */
  predicate BaseIs(d: D.DynColor, b: seq<Byte>, k: nat) {
    && k + 22 <= |b| && b[k] == d.kind && Is32(b, k + 1, d.base) && Is32(b, k + 5, d.target) && b[k + 9] == d.easing
    && Is32(b, k + 10, d.speed) && Is32(b, k + 14, d.min) && Is32(b, k + 18, d.max)
  }

  /** A descriptor; kinds from 4 on have a byte for the number of stops and 26 bytes for each. */
  ghost predicate ColorIs(d: D.DynColor, b: seq<Byte>) {
    && BaseIs(d, b, 0)
    && if d.kind < 4 then |b| == 22
       else
         && |b| == 23 + 26 * |d.stops| && b[22] == |d.stops|
         && forall i :: 0 <= i < |d.stops| ==>
              Is32(b, 23 + 26 * i, d.stops[i].position) && BaseIs(d.stops[i].color, b, 27 + 26 * i)
  }

  /** A style; its two dynamic colours follow when bit 8 of the flags is set. */
  ghost predicate StyleIs(s: D.StyleEntry, b: seq<Byte>) {
    && |b| >= 12 && Is16(b, 0, s.attrFlags) && b[2] == s.fgModel && Is32(b, 3, s.fgValue)
    && b[7] == s.bgModel && Is32(b, 8, s.bgValue)
    && if s.attrFlags / 256 % 2 == 1 then
         exists cut: nat :: 12 <= cut <= |b| && ColorIs(s.dynFG, b[12..cut]) && ColorIs(s.dynBG, b[cut..])
       else |b| == 12
  }

  ghost predicate SpanIs(s: D.CellSpan, b: seq<Byte>) {
    |b| >= 6 && Is16(b, 0, s.startCol) && Is16(b, 2, |s.text|) && Is16(b, 4, s.styleIndex) && b[6..] == s.text
  }

  ghost predicate RowIs(r: D.RowDelta, b: seq<Byte>) {
    |b| >= 4 && Is16(b, 0, r.row) && Counted(SpanIs, r.spans, b[2..])
  }

  /** The fixed 29 bytes: pane, revision, flags and row base. */
  predicate DeltaHeadIs(d: D.BufferDelta, b: seq<Byte>) {
    |b| == 29 && b[..16] == d.paneID && Is32(b, 16, d.revision) && b[20] == d.flags && IsSigned64(b, 21, d.rowBase)
  }

  /** A delta's payload: head, style table, rows and decoration rows. */
  ghost predicate DeltaIs(d: D.BufferDelta, b: seq<Byte>) {
    exists head, styles, rows, decor ::
      && DeltaHeadIs(d, head) && Counted(StyleIs, d.styles, styles)
      && Counted(RowIs, d.rows, rows) && Counted(RowIs, d.decorRows, decor)
      && b == head + styles + rows + decor
  }

  lemma {:induction false} BaseLaid(d: D.DynColor, a: seq<Byte>, c: seq<Byte>)
    ensures BaseIs(d, a + D.WriteBase(d) + c, |a|)
  {
    hide D.WriteBase, Get32, Is32;
    var b := a + D.WriteBase(d) + c;
    D.BaseReads(d, a, c);
    assert D.BaseAt(b, |a|).max == d.max && D.BaseAt(b, |a|).kind == d.kind;
    GetIs(b, |a| + 1);
    GetIs(b, |a| + 5);
    GetIs(b, |a| + 10);
    GetIs(b, |a| + 14);
    GetIs(b, |a| + 18);
  }

  lemma {:induction false} StopLaid(s: D.ColorStop, b: seq<Byte>, k: nat)
    requires k + 26 <= |b| && b[k..k + 26] == D.WriteStop(s)
    ensures Is32(b, k, s.position) && BaseIs(s.color, b, k + 4)
  {
    hide D.WriteBase, Put32, Get32, Is32, BaseIs;
    var p := Put32(s.position);
    Len32(s.position);
    assert b == b[..k] + b[k..k + 26] + b[k + 26..];
    assert b == b[..k] + p + (D.WriteBase(s.color) + b[k + 26..]);
    Read32(s.position, b[..k], D.WriteBase(s.color) + b[k + 26..]);
    GetIs(b, k);
    assert b == (b[..k] + p) + D.WriteBase(s.color) + b[k + 26..];
    BaseLaid(s.color, b[..k] + p, b[k + 26..]);
  }

  lemma {:induction false} StopsLaid(stops: seq<D.ColorStop>, b: seq<Byte>, i: nat)
    requires i < |stops| && |b| >= 23 && b[23..] == Concat(D.WriteStop, stops)
    ensures Is32(b, 23 + 26 * i, stops[i].position) && BaseIs(stops[i].color, b, 27 + 26 * i)
  {
    hide D.WriteStop, Concat, BaseIs, Is32;
    var all, k := Concat(D.WriteStop, stops), 23 + 26 * i;
    ConcatChunk(D.WriteStop, stops, 26, i);
    assert b[k..k + 26] == all[26 * i..26 * i + 26];
    StopLaid(stops[i], b, k);
  }

  lemma {:induction false} ColorLaid(d: D.DynColor)
    requires D.ColorError(d) == None
    ensures ColorIs(d, D.WriteColor(d))
  {
    hide D.WriteBase, D.WriteStop, BaseIs, Is32, Concat;
    var b := D.WriteColor(d);
    var tail := if D.Gradient(d) then [|d.stops| % 256] + Concat(D.WriteStop, d.stops) else [];
    assert b == [] + D.WriteBase(d) + tail;
    BaseLaid(d, [], tail);
    if D.Gradient(d) {
      D.ConcatLength(D.WriteStop, d.stops, 26);
      assert b[23..] == Concat(D.WriteStop, d.stops);
      forall i | 0 <= i < |d.stops|
        ensures Is32(b, 23 + 26 * i, d.stops[i].position) && BaseIs(d.stops[i].color, b, 27 + 26 * i)
      {
        StopsLaid(d.stops, b, i);
      }
    }
  }

  lemma {:induction false} StyleLaid(s: D.StyleEntry)
    requires D.StyleError(s) == None
    ensures StyleIs(s, D.WriteStyle(s))
  {
    hide D.WriteStyleBase, D.WriteColor, ColorIs, Get16, Get32, Is16, Is32, D.ColorError;
    var fg, bg := D.WriteColor(s.dynFG), D.WriteColor(s.dynBG);
    var tail := if D.HasDynamic(s.attrFlags) then fg + bg else [];
    var b := D.WriteStyle(s);
    assert b == D.WriteStyleBase(s) + tail;
    D.StyleBaseReads(s, tail);
    assert D.StyleAt(b).attrFlags == s.attrFlags && D.StyleAt(b).fgModel == s.fgModel;
    GetIs(b, 0);
    GetIs(b, 3);
    GetIs(b, 8);
    if D.HasDynamic(s.attrFlags) {
      ColorLaid(s.dynFG);
      ColorLaid(s.dynBG);
      var cut := 12 + |fg|;
      assert b[12..cut] == fg && b[cut..] == bg;
    }
  }

  lemma {:induction false} SpanLaid(s: D.CellSpan)
    requires |s.text| <= 0xFFFF
    ensures SpanIs(s, D.WriteSpan(s))
  {
  }

  lemma {:induction false} CountedLaid<T(!new)>(form: (T, seq<Byte>) -> bool, write: T -> seq<Byte>, xs: seq<T>)
    requires |xs| <= 0xFFFF && forall i :: 0 <= i < |xs| ==> form(xs[i], write(xs[i]))
    ensures Counted(form, xs, D.WriteList(write, xs))
  {
    ConcatListed(form, write, xs);
    assert D.WriteList(write, xs)[2..] == Concat(write, xs);
  }

  lemma {:induction false} RowLaid(r: D.RowDelta, styleCount: nat, decor: bool)
    requires D.GoodRow(styleCount, decor)(r)
    ensures RowIs(r, D.WriteRow(r))
  {
    hide SpanIs, D.WriteSpan, Counted;
    forall i | 0 <= i < |r.spans| ensures SpanIs(r.spans[i], D.WriteSpan(r.spans[i])) { SpanLaid(r.spans[i]); }
    CountedLaid(SpanIs, D.WriteSpan, r.spans);
    assert D.WriteRow(r) == Put16(r.row) + D.WriteList(D.WriteSpan, r.spans);
    assert D.WriteRow(r)[2..] == D.WriteList(D.WriteSpan, r.spans);
  }

  lemma {:induction false} DeltaHeadLaid(d: D.BufferDelta)
    ensures DeltaHeadIs(d, D.WriteHeader(d))
  {
    hide Put32, Put64, Get32, Get64, Is32, Is64;
    var b, v := D.WriteHeader(d), FromI64(d.rowBase);
    Len32(d.revision);
    Len64(v);
    assert b == d.paneID + Put32(d.revision) + ([d.flags] + Put64(v));
    Read32(d.revision, d.paneID, [d.flags] + Put64(v));
    assert b == (d.paneID + Put32(d.revision) + [d.flags]) + Put64(v) + [];
    Read64(v, d.paneID + Put32(d.revision) + [d.flags], []);
    GetIs(b, 16);
    GetIs(b, 21);
  }

  /** Every payload the encoder makes has this layout. */
  lemma {:induction false} EncodedDelta(d: D.BufferDelta)
    requires D.Encode(d).Ok?
    ensures DeltaIs(d, D.Encode(d).value)
  {
    hide D.WriteHeader, DeltaHeadIs, Counted, StyleIs, RowIs, D.WriteStyle, D.WriteRow, D.StyleError, D.GoodRow,
      D.WriteList, D.DeltaError;
    D.EncodableExactly(d);
    DeltaHeadLaid(d);
    forall i | 0 <= i < |d.styles| ensures StyleIs(d.styles[i], D.WriteStyle(d.styles[i])) { StyleLaid(d.styles[i]); }
    forall i | 0 <= i < |d.rows| ensures RowIs(d.rows[i], D.WriteRow(d.rows[i])) {
      RowLaid(d.rows[i], |d.styles|, false);
    }
    forall i | 0 <= i < |d.decorRows| ensures RowIs(d.decorRows[i], D.WriteRow(d.decorRows[i])) {
      RowLaid(d.decorRows[i], |d.styles|, true);
    }
    CountedLaid(StyleIs, D.WriteStyle, d.styles);
    CountedLaid(RowIs, D.WriteRow, d.rows);
    CountedLaid(RowIs, D.WriteRow, d.decorRows);
    assert D.WriteDelta(d) == D.WriteHeader(d) + D.WriteList(D.WriteStyle, d.styles)
                              + D.WriteList(D.WriteRow, d.rows) + D.WriteList(D.WriteRow, d.decorRows);
  }

  /** And every payload the decoder accepts, for the delta it returns. */
  lemma {:induction false} DecodedDelta(b: seq<Byte>)
    requires D.Decode(b).Ok?
    ensures DeltaIs(D.Decode(b).value, b)
  {
    hide D.Decode, D.Normal, DeltaIs, D.DeltaError, D.WriteDelta;
    D.EncodeDecode(b);
    EncodedDelta(D.Decode(b).value);
  }

  // ---------------------------------------------------------------- snapshots

  ghost predicate StringIs(s: seq<Byte>, b: seq<Byte>) {
    |b| >= 2 && Is16(b, 0, |s|) && b[2..] == s
  }

  /** Identifier and revision. */
  predicate IdentityIs(p: S.PaneSnapshot, b: seq<Byte>) {
    |b| == 20 && b[..16] == p.paneID && Is32(b, 16, p.revision)
  }

  /** Position, size and the number of rows. */
  predicate BoxIs(p: S.PaneSnapshot, b: seq<Byte>) {
    && |b| == 18 && IsSigned32(b, 0, p.x) && IsSigned32(b, 4, p.y)
    && IsSigned32(b, 8, p.width) && IsSigned32(b, 12, p.height) && Is16(b, 16, |p.rows|)
  }

  predicate TailIs(p: S.PaneSnapshot, b: seq<Byte>) {
    |b| == 4 && Is16(b, 0, p.contentTopRow) && Is16(b, 2, p.numContentRows)
  }

  ghost predicate PaneIs(p: S.PaneSnapshot, b: seq<Byte>) {
    exists head, title, box, rows, appType, appConfig, tail ::
      && IdentityIs(p, head) && StringIs(p.title, title) && BoxIs(p, box) && Listed(StringIs, p.rows, rows)
      && StringIs(p.appType, appType) && StringIs(p.appConfig, appConfig) && TailIs(p, tail)
      && b == head + title + box + rows + appType + appConfig + tail
  }

  /** A node; its count is told modulo 65,536, and a node told to have no children ends there. */
  ghost predicate NodeIs(n: S.TreeNode, b: seq<Byte>) {
    var count := |n.children| % 65536;
    && |b| >= 7 && IsSigned32(b, 0, n.paneIndex) && b[4] == n.split && Is16(b, 5, count)
    && if count == 0 then |b| == 7
       else
         && |n.ratios| == count && |b| >= 7 + 4 * count
         && (forall i :: 0 <= i < count ==> Is32(b, 7 + 4 * i, n.ratios[i]))
         && NodesAre(n.children, b[7 + 4 * count..])
  }

  ghost predicate NodesAre(ns: seq<S.TreeNode>, b: seq<Byte>) {
    if ns == [] then b == []
    else exists cut: nat :: cut <= |b| && NodeIs(ns[0], b[..cut]) && NodesAre(ns[1..], b[cut..])
  }

  /** A snapshot's payload: the count of panes modulo 65,536, the panes and the tree. */
  ghost predicate SnapshotIs(s: S.TreeSnapshot, b: seq<Byte>) {
    exists count, panes, root ::
      && |count| == 2 && Is16(count, 0, |s.panes| % 65536) && Listed(PaneIs, s.panes, panes) && NodeIs(s.root, root)
      && b == count + panes + root
  }

  lemma {:induction false} StringLaid(s: seq<Byte>)
    requires |s| <= 0xFFFF
    ensures StringIs(s, S.WriteString(s))
  {
  }

  lemma {:induction false} BoxLaid(p: S.PaneSnapshot)
    requires |p.rows| <= 0xFFFF
    ensures BoxIs(p, S.WriteBox(p))
  {
    hide Get16, Get32, Is16, Is32, S.WriteBox;
    var b := S.WriteBox(p);
    S.BoxReads(p, []);
    assert b + [] == b;
    GetIs(b, 0);
    GetIs(b, 4);
    GetIs(b, 8);
    GetIs(b, 12);
    GetIs(b, 16);
  }

  lemma {:induction false} IdentityLaid(p: S.PaneSnapshot)
    ensures IdentityIs(p, p.paneID + Put32(p.revision))
  {
    hide Put32, Get32, Is32;
    Len32(p.revision);
    var b := p.paneID + Put32(p.revision);
    assert b == p.paneID + Put32(p.revision) + [];
    Read32(p.revision, p.paneID, []);
    GetIs(b, 16);
  }

  lemma {:induction false} PaneLaid(p: S.PaneSnapshot)
    requires S.PaneError(p) == None
    ensures PaneIs(p, S.WritePane(p))
  {
    hide StringIs, BoxIs, IdentityIs, Listed, S.WriteString, S.WriteBox, Put16, Put32, FirstError;
    StringLaid(p.title);
    StringLaid(p.appType);
    StringLaid(p.appConfig);
    IdentityLaid(p);
    BoxLaid(p);
    FirstErrorNone(S.StringError, p.rows);
    forall i | 0 <= i < |p.rows| ensures StringIs(p.rows[i], S.WriteString(p.rows[i])) {
      assert S.StringError(p.rows[i]) == None;
      StringLaid(p.rows[i]);
    }
    ConcatListed(StringIs, S.WriteString, p.rows);
    var tail := Put16(p.contentTopRow) + Put16(p.numContentRows);
    TailLaid(p);
    Flatten(p.paneID + Put32(p.revision), S.WriteString(p.title), S.WriteBox(p), Concat(S.WriteString, p.rows),
            S.WriteString(p.appType), S.WriteString(p.appConfig), tail);
  }

  lemma {:induction false} TailLaid(p: S.PaneSnapshot)
    ensures TailIs(p, Put16(p.contentTopRow) + Put16(p.numContentRows))
  {
  }

  lemma {:induction false} Flatten(a: seq<Byte>, b: seq<Byte>, c: seq<Byte>, d: seq<Byte>, e: seq<Byte>, f: seq<Byte>,
                                   g: seq<Byte>)
    ensures a + (b + (c + (d + (e + (f + g))))) == a + b + c + d + e + f + g
  {
    S.Assoc(a, b, c + (d + (e + (f + g))));
    S.Assoc(a + b, c, d + (e + (f + g)));
    S.Assoc(a + b + c, d, e + (f + g));
    S.Assoc(a + b + c + d, e, f + g);
    S.Assoc(a + b + c + d + e, f, g);
  }

  lemma {:induction false} NodeLaid(n: S.TreeNode)
    requires S.NodeError(n) == None
    ensures NodeIs(n, S.WriteNode(n))
    decreases n, 0
  {
    hide Put16, Put32, Get16, Get32, Is16, Is32, Concat, NodesAre, S.WriteNodes, S.NodesError;
    var b, count := S.WriteNode(n), |n.children| % 65536;
    var v := FromI32(n.paneIndex);
    var ratios, kids := Concat(Put32, n.ratios), S.WriteNodes(n.children);
    var rest := if count > 0 then ratios + kids else [];
    Len32(v);
    Len16(count);
    assert b == [] + Put32(v) + ([n.split] + Put16(count) + rest);
    Read32(v, [], [n.split] + Put16(count) + rest);
    assert b == (Put32(v) + [n.split]) + Put16(count) + rest;
    Read16(count, Put32(v) + [n.split], rest);
    GetIs(b, 0);
    GetIs(b, 5);
    if count > 0 {
      var head := Put32(v) + [n.split] + Put16(count);
      assert b == head + ratios + kids;
      S.RatiosRead(n.ratios, head, kids);
      forall i | 0 <= i < count ensures Is32(b, 7 + 4 * i, n.ratios[i]) { GetIs(b, 7 + 4 * i); }
      NodesLaid(n.children);
      assert b[7 + 4 * count..] == kids;
    }
  }

  lemma {:induction false} NodesLaid(ns: seq<S.TreeNode>)
    requires S.NodesError(ns) == None
    ensures NodesAre(ns, S.WriteNodes(ns))
    decreases ns, 1
  {
    if ns != [] {
      var b, cut := S.WriteNodes(ns), |S.WriteNode(ns[0])|;
      NodeLaid(ns[0]);
      NodesLaid(ns[1..]);
      assert b[..cut] == S.WriteNode(ns[0]) && b[cut..] == S.WriteNodes(ns[1..]);
    }
  }

  /** Every snapshot payload the encoder makes has this layout. */
  lemma {:induction false} EncodedSnapshot(s: S.TreeSnapshot)
    requires S.Encode(s).Ok?
    ensures SnapshotIs(s, S.Encode(s).value)
  {
    hide PaneIs, NodeIs, Listed, S.PaneError, S.NodeError, S.WritePane, S.WriteNode, Put16, Is16;
    FirstErrorNone(S.PaneError, s.panes);
    forall i | 0 <= i < |s.panes| ensures PaneIs(s.panes[i], S.WritePane(s.panes[i])) {
      assert S.PaneError(s.panes[i]) == None;
      PaneLaid(s.panes[i]);
    }
    ConcatListed(PaneIs, S.WritePane, s.panes);
    NodeLaid(s.root);
    var n := |s.panes| % 65536;
    var count := Put16(n);
    Len16(n);
    assert count == [] + Put16(n) + [];
    Read16(n, [], []);
    GetIs(count, 0);
    assert S.WriteSnapshot(s) == count + Concat(S.WritePane, s.panes) + S.WriteNode(s.root);
  }

  /** And every one the decoder accepts, for the snapshot it returns. */
  lemma {:induction false} DecodedSnapshot(b: seq<Byte>)
    requires S.Decode(b).Ok?
    ensures SnapshotIs(S.Decode(b).value, b)
  {
    hide S.Decode, S.Normal, SnapshotIs, S.SnapshotError, S.WriteSnapshot;
    S.EncodeDecode(b);
    EncodedSnapshot(S.Decode(b).value);
  }

  // ------------------------------------------------------------------- frames

  /** The 40 bytes of a header. */
  predicate HeaderIs(h: F.Header, b: seq<Byte>) {
    && |b| >= 40 && b[0] == 1 && b[1] == 0x4c && b[2] == 0x58 && b[3] == 0x54
    && b[4] == h.version && b[5] == h.kind && b[6] == h.flags && b[7] == h.reserved && b[8..24] == h.sessionID
    && Is64(b, 24, h.sequence) && Is32(b, 32, h.payloadLen) && Is32(b, 36, h.checksum)
  }

  /**
   * A written frame: the header's fields, the payload's length, the checksum of
   * bytes 4 to 35 and the payload when bit 0 of the flags asks for it, and the payload.
   */
  lemma {:induction false} WrittenFrame(crc: seq<Byte> -> U32, m: F.Message)
    ensures var b, h := F.Frame(crc, m), m.header;
      && |b| == 40 + |m.payload| && b[40..] == m.payload
      && HeaderIs(h.(payloadLen := |m.payload| % 4294967296,
                     checksum := if h.flags % 2 == 1 then crc(b[4..36] + m.payload) else h.checksum), b)
  {
    hide Get32, Get64, Is32, Is64, F.Body, F.RawFrame;
    var b, h := F.Frame(crc, m), F.Filled(crc, m);
    F.RawFrameReads(h, m.payload, []);
    assert b + [] == b && m.payload + [] == m.payload;
    F.BodyIgnoresChecksum(h, m.header.(payloadLen := |m.payload| % 4294967296));
    assert F.HeaderAt(b) == h;
    GetIs(b, 24);
    GetIs(b, 32);
    GetIs(b, 36);
    MagicBytes(b);
  }

  lemma {:induction false} MagicBytes(b: seq<Byte>)
    requires |b| >= 4
    ensures Get32(b, 0) == F.Magic <==> b[0] == 1 && b[1] == 0x4c && b[2] == 0x58 && b[3] == 0x54
  {
  }

  /** The number four bytes add up to. */
  function Sum32(b: seq<Byte>, k: nat): int
    requires k + 4 <= |b|
  {
    b[k] as int + 256 * b[k + 1] as int + 65536 * b[k + 2] as int + 16777216 * b[k + 3] as int
  }

  /**
   * A frame is accepted exactly when the bytes say so: magic number, version 3,
   * a length of at most 16 MiB that is there, and the right checksum if flagged.
   */
  lemma {:induction false} AcceptedExactly(crc: seq<Byte> -> U32, b: seq<Byte>)
    ensures F.ReadFrame(crc, b).result.Ok? <==>
      && |b| >= 40 && b[0] == 1 && b[1] == 0x4c && b[2] == 0x58 && b[3] == 0x54 && b[4] == 3
      && Sum32(b, 32) <= 16777216 && 40 + Sum32(b, 32) <= |b|
      && (b[6] % 2 == 1 ==> Sum32(b, 36) == crc(b[4..36] + b[40..40 + Sum32(b, 32)]))
    ensures F.ReadFrame(crc, b).result.Ok? ==>
      var r := F.ReadFrame(crc, b);
      && HeaderIs(r.result.value.header, b) && r.result.value.payload == b[40..40 + Sum32(b, 32)]
      && r.rest == b[40 + Sum32(b, 32)..]
  {
    hide Get32, Get64, Is64;
    if |b| >= 40 {
      MagicBytes(b);
      GetIs(b, 24);
      GetIs(b, 32);
      GetIs(b, 36);
    }
  }

  /** Otherwise the first thing wrong, in this order, is what is reported. */
  lemma {:induction false} RefusedBecause(crc: seq<Byte> -> U32, b: seq<Byte>)
    requires F.ReadFrame(crc, b).result.Err?
    ensures F.ReadFrame(crc, b).result.error ==
      if |b| == 0 then EndOfStream
      else if |b| < 40 then UnexpectedEndOfStream
      else if !(b[0] == 1 && b[1] == 0x4c && b[2] == 0x58 && b[3] == 0x54) then InvalidMagic
      else if b[4] != 3 then UnsupportedVersion
      else if Sum32(b, 32) > 16777216 then PayloadTooLarge
      else if |b| == 40 && Sum32(b, 32) > 0 then EndOfStream
      else if |b| - 40 < Sum32(b, 32) then ShortPayload
      else ChecksumMismatch
  {
    hide Get32, Get64, Is64;
    if |b| >= 40 {
      MagicBytes(b);
      GetIs(b, 32);
    }
  }
}
