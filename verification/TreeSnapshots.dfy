/**
 * The wire form of the pane list and layout tree sent to a client
 * (protocol/messages.go:225-256, 963-1149): a writer, a reader and the laws
 * between them. The reader's string test looks at the number of bytes left
 * modulo 65,536, so whether a string is accepted depends on what follows it.
 */
module TreeSnapshots {
  import opened Prelude
  import opened Bytes

  datatype PaneSnapshot = PaneSnapshot(paneID: Id, revision: U32, title: seq<Byte>,
                                       x: I32, y: I32, width: I32, height: I32,
                                       rows: seq<seq<Byte>>, appType: seq<Byte>, appConfig: seq<Byte>,
                                       contentTopRow: U16, numContentRows: U16)
  datatype TreeNode = TreeNode(paneIndex: I32, split: Byte, ratios: seq<U32>, children: seq<TreeNode>)
  datatype TreeSnapshot = TreeSnapshot(panes: seq<PaneSnapshot>, root: TreeNode)

  // ----------------------------------------------------------------- writing

  function WriteString(s: seq<Byte>): (b: seq<Byte>)
    ensures |b| == 2 + |s|
  {
    Put16(|s| % 0x1_0000) + s
  }

  function WriteBox(p: PaneSnapshot): (b: seq<Byte>)
    ensures |b| == 18
  {
    Put32(FromI32(p.x)) + Put32(FromI32(p.y)) + Put32(FromI32(p.width)) + Put32(FromI32(p.height)) +
    Put16(|p.rows| % 0x1_0000)
  }

  function WritePane(p: PaneSnapshot): seq<Byte> {
    (p.paneID + Put32(p.revision)) +
    (WriteString(p.title) +
     (WriteBox(p) +
      (Concat(WriteString, p.rows) +
       (WriteString(p.appType) + (WriteString(p.appConfig) + (Put16(p.contentTopRow) + Put16(p.numContentRows)))))))
  }

  function WriteNodeHead(n: TreeNode): (b: seq<Byte>)
    ensures |b| == 7
  {
    Put32(FromI32(n.paneIndex)) + [n.split] + Put16(|n.children| % 0x1_0000)
  }

  /** The count is truncated to 16 bits; a count of zero ends the node. */
  function WriteNode(n: TreeNode): seq<Byte> {
    WriteNodeHead(n) +
    if |n.children| % 0x1_0000 > 0 then Concat(Put32, n.ratios) + WriteNodes(n.children) else []
  }

  function WriteNodes(ns: seq<TreeNode>): seq<Byte> {
    if ns == [] then [] else WriteNode(ns[0]) + WriteNodes(ns[1..])
  }

  function WriteSnapshot(s: TreeSnapshot): seq<Byte> {
    Put16(|s.panes| % 0x1_0000) + (Concat(WritePane, s.panes) + WriteNode(s.root))
  }

  // ----------------------------------------------------- the writer's checks

  function StringError(s: seq<Byte>): Option<Error> {
    if |s| > Limit then Some(StringTooLong) else None
  }

  function PaneError(p: PaneSnapshot): Option<Error> {
    if |p.title| > Limit || |p.rows| > Limit then Some(StringTooLong)
    else if FirstError(StringError, p.rows).Some? then FirstError(StringError, p.rows)
    else if |p.appType| > Limit || |p.appConfig| > Limit then Some(StringTooLong)
    else None
  }

  function NodeError(n: TreeNode): Option<Error> {
    if |n.children| % 0x1_0000 == 0 then None
    else if |n.ratios| != |n.children| % 0x1_0000 then Some(PayloadShort)
    else NodesError(n.children)
  }

  function NodesError(ns: seq<TreeNode>): Option<Error> {
    if ns == [] then None
    else match NodeError(ns[0])
      case Some(e) => Some(e)
      case None => NodesError(ns[1..])
  }

  /** The first check of EncodeTreeSnapshot that fails. */
  function SnapshotError(s: TreeSnapshot): Option<Error> {
    match FirstError(PaneError, s.panes)
    case Some(e) => Some(e)
    case None => NodeError(s.root)
  }

  function Encode(s: TreeSnapshot): Result<seq<Byte>> {
    match SnapshotError(s)
    case Some(e) => Err(e)
    case None => Ok(WriteSnapshot(s))
  }

  // ----------------------------------------------------------------- reading

  /** The number of bytes left is truncated to 16 bits before it is compared. */
  function ReadString(b: seq<Byte>): Read<seq<Byte>> {
    if |b| < 2 then Bad(PayloadShort)
    else if (|b| - 2) % 0x1_0000 < Get16(b, 0) then Bad(PayloadShort)
    else Got(b[2..2 + Get16(b, 0)], b[2 + Get16(b, 0)..])
  }

  /** The fixed fields at the front of a pane. */
  function ReadIdentity(b: seq<Byte>): Read<(Id, U32)> {
    if |b| < 20 then Bad(PayloadShort) else Got((b[..16], Get32(b, 16)), b[20..])
  }

  /** A pane's title, box, rows and the rest. */
  function ReadPane(b: seq<Byte>): Read<PaneSnapshot> {
    match ReadIdentity(b)
    case Bad(e) => Bad(e)
    case Got(identity, b1) =>
      match ReadString(b1)
      case Bad(e) => Bad(e)
      case Got(title, b2) =>
        if |b2| < 18 then Bad(PayloadShort)
        else match Many(ReadString, Get16(b2, 16), b2[18..])
          case Bad(e) => Bad(e)
          case Got(rows, b3) =>
            match ReadString(b3)
            case Bad(e) => Bad(e)
            case Got(appType, b4) =>
              match ReadString(b4)
              case Bad(e) => Bad(e)
              case Got(appConfig, b5) =>
                if |b5| < 4 then Bad(PayloadShort)
                else Got(PaneSnapshot(identity.0, identity.1, title,
                                      ToI32(Get32(b2, 0)), ToI32(Get32(b2, 4)),
                                      ToI32(Get32(b2, 8)), ToI32(Get32(b2, 12)),
                                      rows, appType, appConfig, Get16(b5, 0), Get16(b5, 2)), b5[4..])
  }

  /** Each node takes at least seven bytes, so reading ends. */
  function ReadNode(b: seq<Byte>): (r: Read<TreeNode>)
    ensures r.Got? ==> |r.rest| + 7 <= |b|
    decreases |b|, 0
  {
    if |b| < 7 then Bad(PayloadShort)
    else
      var count: int := Get16(b, 5);
      if count == 0 then Got(TreeNode(ToI32(Get32(b, 0)), b[4], [], []), b[7..])
      else if |b| - 7 < count * 4 then Bad(PayloadShort)
      else match ReadNodes(count, b[7 + count * 4..])
        case Bad(e) => Bad(e)
        case Got(children, rest) =>
          var ratios := seq(count, i requires 0 <= i < count => Get32(b, 7 + i * 4));
          Got(TreeNode(ToI32(Get32(b, 0)), b[4], ratios, children), rest)
  }

  function ReadNodes(n: nat, b: seq<Byte>): (r: Read<seq<TreeNode>>)
    ensures r.Got? ==> |r.rest| <= |b|
    decreases |b|, 1
  {
    if n == 0 then Got([], b)
    else match ReadNode(b)
      case Bad(e) => Bad(e)
      case Got(x, r) => After([x], ReadNodes(n - 1, r))
  }

  function Decode(b: seq<Byte>): Result<TreeSnapshot> {
    if |b| < 2 then Err(PayloadShort)
    else match Many(ReadPane, Get16(b, 0), b[2..])
      case Bad(e) => Err(e)
      case Got(panes, r) =>
        match ReadNode(r)
        case Bad(e) => Err(e)
        case Got(root, rest) => if rest != [] then Err(PayloadShort) else Ok(TreeSnapshot(panes, root))
  }

  // -------------------------------------------------------------- normal form

  predicate ShortString(s: seq<Byte>) { |s| <= Limit }

  predicate GoodPane(p: PaneSnapshot) {
    && ShortString(p.title) && ShortString(p.appType) && ShortString(p.appConfig)
    && |p.rows| <= Limit && forall i :: 0 <= i < |p.rows| ==> ShortString(p.rows[i])
  }

  /** Leaves carry no ratios; inner nodes have as many ratios as children, at most 65,535. */
  predicate NormalNode(n: TreeNode) {
    |n.ratios| == |n.children| <= Limit && forall i :: 0 <= i < |n.children| ==> NormalNode(n.children[i])
  }

  predicate Normal(s: TreeSnapshot) {
    && |s.panes| <= Limit && (forall i :: 0 <= i < |s.panes| ==> GoodPane(s.panes[i]))
    && NormalNode(s.root)
  }

  /** With `after` bytes behind it, the string passes the reader's 16-bit length test. */
  predicate StringFits(s: seq<Byte>, after: nat) {
    (|s| + after) % 0x1_0000 >= |s|
  }

  predicate PaneFits(p: PaneSnapshot, after: nat) {
    var afterType := 2 + |p.appConfig| + 4 + after;
    var afterRows := 2 + |p.appType| + afterType;
    && StringFits(p.title, 18 + |Concat(WriteString, p.rows)| + afterRows)
    && AllFit(WriteString, StringFits, p.rows, afterRows)
    && StringFits(p.appType, afterType)
    && StringFits(p.appConfig, 4 + after)
  }

  /** Every string of the snapshot passes the reader's test where it stands. */
  predicate StringsFit(s: TreeSnapshot) {
    AllFit(WritePane, PaneFits, s.panes, |WriteNode(s.root)|)
  }

  // ------------------------------------------------------------------ strings

  lemma {:induction false} StringReads(s: seq<Byte>, rest: seq<Byte>)
    requires ShortString(s)
    ensures ReadString(WriteString(s) + rest) == if StringFits(s, |rest|) then Got(s, rest) else Bad(PayloadShort)
  {
    hide Put16, Get16;
    var b := WriteString(s) + rest;
    Len16(|s|);
    assert b == [] + Put16(|s|) + (s + rest);
    Read16(|s|, [], s + rest);
    assert b[2..2 + |s|] == s && b[2 + |s|..] == rest;
  }

  lemma {:induction false} StringWrites(b: seq<Byte>)
    requires ReadString(b).Got?
    ensures ShortString(ReadString(b).value) && b == WriteString(ReadString(b).value) + ReadString(b).rest
  {
    hide Put16, Get16;
    Write16(b, 0);
    var len: int := Get16(b, 0);
    Join(b, 0, 2, 2 + len);
    assert b == b[0..2 + len] + b[2 + len..];
  }

  lemma {:induction false} StringLaws()
    ensures ReadsWhen(ReadString, WriteString, ShortString, StringFits)
    ensures WritesBack(ReadString, WriteString, ShortString)
  {
    hide ReadString, WriteString, StringFits;
    forall x, rest | ShortString(x)
      ensures ReadString(WriteString(x) + rest) == if StringFits(x, |rest|) then Got(x, rest) else Bad(PayloadShort)
    {
      StringReads(x, rest);
    }
    forall b | ReadString(b).Got?
      ensures ShortString(ReadString(b).value) && b == WriteString(ReadString(b).value) + ReadString(b).rest
    {
      StringWrites(b);
    }
  }

  // -------------------------------------------------------------------- panes

  lemma {:induction false} BoxReads(p: PaneSnapshot, c: seq<Byte>)
    requires |p.rows| <= Limit
    ensures var b := WriteBox(p) + c;
      && |b| >= 18 && b[18..] == c && Get16(b, 16) == |p.rows|
      && ToI32(Get32(b, 0)) == p.x && ToI32(Get32(b, 4)) == p.y
      && ToI32(Get32(b, 8)) == p.width && ToI32(Get32(b, 12)) == p.height
  {
    hide Put16, Get16, Put32, Get32;
    var b := WriteBox(p) + c;
    var p0, p1, p2 := Put32(FromI32(p.x)), Put32(FromI32(p.y)), Put32(FromI32(p.width));
    var p3, p4 := Put32(FromI32(p.height)), Put16(|p.rows|);
    Len32(FromI32(p.x));
    Len32(FromI32(p.y));
    Len32(FromI32(p.width));
    Len32(FromI32(p.height));
    Len16(|p.rows|);
    assert b == [] + p0 + (p1 + p2 + p3 + p4 + c);
    Read32(FromI32(p.x), [], p1 + p2 + p3 + p4 + c);
    assert b == p0 + p1 + (p2 + p3 + p4 + c);
    Read32(FromI32(p.y), p0, p2 + p3 + p4 + c);
    assert b == (p0 + p1) + p2 + (p3 + p4 + c);
    Read32(FromI32(p.width), p0 + p1, p3 + p4 + c);
    assert b == (p0 + p1 + p2) + p3 + (p4 + c);
    Read32(FromI32(p.height), p0 + p1 + p2, p4 + c);
    assert b == (p0 + p1 + p2 + p3) + p4 + c;
    Read16(|p.rows|, p0 + p1 + p2 + p3, c);
  }

  lemma {:induction false} BoxWrites(b: seq<Byte>, p: PaneSnapshot)
    requires |b| >= 18 && Get16(b, 16) == |p.rows|
    requires ToI32(Get32(b, 0)) == p.x && ToI32(Get32(b, 4)) == p.y
    requires ToI32(Get32(b, 8)) == p.width && ToI32(Get32(b, 12)) == p.height
    ensures WriteBox(p) == b[..18]
  {
    hide Put16, Get16, Put32, Get32;
    Write32(b, 0);
    Write32(b, 4);
    Write32(b, 8);
    Write32(b, 12);
    Write16(b, 16);
    Join(b, 0, 4, 8);
    Join(b, 0, 8, 12);
    Join(b, 0, 12, 16);
    Join(b, 0, 16, 18);
  }

  lemma {:induction false} IdentityReads(id: Id, revision: U32, c: seq<Byte>)
    ensures ReadIdentity(id + Put32(revision) + c) == Got((id, revision), c)
  {
    hide Put32, Get32;
    Len32(revision);
    Read32(revision, id, c);
    var b := id + Put32(revision) + c;
    assert b[..16] == id && b[20..] == c;
  }

  lemma {:induction false} IdentityWrites(b: seq<Byte>)
    requires |b| >= 20
    ensures b[..16] + Put32(Get32(b, 16)) == b[..20]
  {
    hide Put32, Get32;
    Write32(b, 16);
    Join(b, 0, 16, 20);
  }

  lemma {:induction false} TailReads(top: U16, count: U16, c: seq<Byte>)
    ensures var b := Put16(top) + Put16(count) + c;
      |b| >= 4 && Get16(b, 0) == top && Get16(b, 2) == count && b[4..] == c
  {
  }

  lemma {:induction false} PaneReads(p: PaneSnapshot, rest: seq<Byte>)
    requires GoodPane(p)
    ensures ReadPane(WritePane(p) + rest) == if PaneFits(p, |rest|) then Got(p, rest) else Bad(PayloadShort)
  {
    hide Put16, Get16, Put32, Get32, ReadString, WriteString, StringFits, WriteBox, Many, Concat, AllFit, ReadsWhen,
      WritesBack, ReadIdentity;
    var tail := Put16(p.contentTopRow) + Put16(p.numContentRows);
    Len16(p.contentTopRow);
    Len16(p.numContentRows);
    var b5 := tail + rest;
    TailReads(p.contentTopRow, p.numContentRows, rest);
    var b4 := WriteString(p.appConfig) + b5;
    StringReads(p.appConfig, b5);
    var b3 := WriteString(p.appType) + b4;
    StringReads(p.appType, b4);
    StringLaws();
    ManyReadsWhen(ReadString, WriteString, ShortString, StringFits, p.rows, b3);
    var b2 := WriteBox(p) + (Concat(WriteString, p.rows) + b3);
    BoxReads(p, Concat(WriteString, p.rows) + b3);
    StringReads(p.title, b2);
    IdentityReads(p.paneID, p.revision, WriteString(p.title) + b2);
    assert WritePane(p) + rest == p.paneID + Put32(p.revision) + (WriteString(p.title) + b2);
  }

  lemma {:induction false} PaneWrites(b: seq<Byte>)
    requires ReadPane(b).Got?
    ensures GoodPane(ReadPane(b).value) && b == WritePane(ReadPane(b).value) + ReadPane(b).rest
  {
    hide Put16, Get16, Put32, Get32, ReadString, WriteString, WriteBox, Many, Concat, WritesBack, ReadsWhen;
    var p, rest := ReadPane(b).value, ReadPane(b).rest;
    var b1 := b[20..];
    IdentityWrites(b);
    StringWrites(b1);
    var b2 := ReadString(b1).rest;
    StringLaws();
    ManyWritesBack(ReadString, WriteString, ShortString, Get16(b2, 16), b2[18..]);
    BoxWrites(b2, p);
    var b3 := Many(ReadString, Get16(b2, 16), b2[18..]).rest;
    StringWrites(b3);
    var b4 := ReadString(b3).rest;
    StringWrites(b4);
    var b5 := ReadString(b4).rest;
    Write16(b5, 0);
    Write16(b5, 2);
    var tail := Put16(p.contentTopRow) + Put16(p.numContentRows);
    assert b5 == tail + rest by { assert b5 == b5[0..2] + b5[2..4] + rest; }
    assert b2 == b2[..18] + b2[18..];
    assert b == b[..20] + b1;
    Nest(p.paneID + Put32(p.revision), WriteString(p.title), WriteBox(p), Concat(WriteString, p.rows),
         WriteString(p.appType), WriteString(p.appConfig), tail, rest);
  }

  lemma {:induction false} Nest(a: seq<Byte>, b: seq<Byte>, c: seq<Byte>, d: seq<Byte>, e: seq<Byte>, f: seq<Byte>,
                                g: seq<Byte>, rest: seq<Byte>)
    ensures a + (b + (c + (d + (e + (f + g))))) + rest == a + (b + (c + (d + (e + (f + (g + rest))))))
  {
    Assoc(a, b + (c + (d + (e + (f + g)))), rest);
    Assoc(b, c + (d + (e + (f + g))), rest);
    Assoc(c, d + (e + (f + g)), rest);
    Assoc(d, e + (f + g), rest);
    Assoc(e, f + g, rest);
    Assoc(f, g, rest);
  }

  lemma {:induction false} Assoc(a: seq<Byte>, b: seq<Byte>, c: seq<Byte>)
    ensures (a + b) + c == a + (b + c)
  {
  }

  lemma {:induction false} PaneLaws()
    ensures ReadsWhen(ReadPane, WritePane, GoodPane, PaneFits)
    ensures WritesBack(ReadPane, WritePane, GoodPane)
  {
    hide ReadPane, WritePane, GoodPane, PaneFits;
    forall x, rest | GoodPane(x)
      ensures ReadPane(WritePane(x) + rest) == if PaneFits(x, |rest|) then Got(x, rest) else Bad(PayloadShort)
    {
      PaneReads(x, rest);
    }
    forall b | ReadPane(b).Got?
      ensures GoodPane(ReadPane(b).value) && b == WritePane(ReadPane(b).value) + ReadPane(b).rest
    {
      PaneWrites(b);
    }
  }

  // --------------------------------------------------------------------- tree

  lemma {:induction false} RatiosRead(rs: seq<U32>, a: seq<Byte>, c: seq<Byte>)
    ensures |Concat(Put32, rs)| == 4 * |rs|
    ensures forall i :: 0 <= i < |rs| ==> Get32(a + Concat(Put32, rs) + c, |a| + i * 4) == rs[i]
  {
    hide Put32, Get32;
    if rs != [] {
      var b, tail := a + Concat(Put32, rs) + c, Concat(Put32, rs[1..]);
      Len32(rs[0]);
      RatiosRead(rs[1..], a + Put32(rs[0]), c);
      assert b == a + Put32(rs[0]) + (tail + c);
      assert b == (a + Put32(rs[0])) + tail + c;
      Read32(rs[0], a, tail + c);
      forall i | 1 <= i < |rs| ensures Get32(b, |a| + i * 4) == rs[i] {
        assert rs[1..][i - 1] == rs[i] && |a + Put32(rs[0])| + (i - 1) * 4 == |a| + i * 4;
      }
    }
  }

  lemma {:induction false} RatiosWrite(b: seq<Byte>, k: nat, rs: seq<U32>)
    requires k + 4 * |rs| <= |b| && forall i :: 0 <= i < |rs| ==> rs[i] == Get32(b, k + i * 4)
    ensures Concat(Put32, rs) == b[k..k + 4 * |rs|]
    decreases rs
  {
    hide Put32, Get32;
    if rs != [] {
      forall i | 0 <= i < |rs| - 1 ensures rs[1..][i] == Get32(b, k + 4 + i * 4) {
        assert rs[1..][i] == rs[i + 1] && k + (i + 1) * 4 == k + 4 + i * 4;
      }
      assert rs[0] == Get32(b, k + 0 * 4);
      RatiosWrite(b, k + 4, rs[1..]);
      Write32(b, k);
      Join(b, k, k + 4, k + 4 * |rs|);
    }
  }

  lemma {:induction false} HeadReads(n: TreeNode, c: seq<Byte>)
    requires |n.children| <= Limit
    ensures var b := WriteNodeHead(n) + c;
      && |b| >= 7 && ToI32(Get32(b, 0)) == n.paneIndex && b[4] == n.split && Get16(b, 5) == |n.children| && b[7..] == c
  {
    hide Put32, Get32, Put16, Get16;
    var b, p0, p1 := WriteNodeHead(n) + c, Put32(FromI32(n.paneIndex)), Put16(|n.children|);
    Len32(FromI32(n.paneIndex));
    Len16(|n.children|);
    assert b == [] + p0 + ([n.split] + p1 + c);
    Read32(FromI32(n.paneIndex), [], [n.split] + p1 + c);
    assert b == (p0 + [n.split]) + p1 + c;
    Read16(|n.children|, p0 + [n.split], c);
  }

  lemma {:induction false} HeadWrites(b: seq<Byte>, n: TreeNode)
    requires |b| >= 7
    requires ToI32(Get32(b, 0)) == n.paneIndex && b[4] == n.split && Get16(b, 5) == |n.children|
    ensures WriteNodeHead(n) == b[..7]
  {
    hide Put32, Get32, Put16, Get16;
    Write32(b, 0);
    Write16(b, 5);
    assert [b[4]] == b[4..5];
    Join(b, 0, 4, 5);
    Join(b, 0, 5, 7);
  }

  /** Reading a written tree gives it back, whatever follows it. */
  lemma {:induction false} NodeReads(n: TreeNode, rest: seq<Byte>)
    requires NormalNode(n)
    ensures ReadNode(WriteNode(n) + rest) == Got(n, rest)
  {
    hide Put32, Get32, Put16, Get16, WriteNodeHead, WriteNodes, ReadNodes, Concat;
    var b, head, count := WriteNode(n) + rest, WriteNodeHead(n), |n.children|;
    if count == 0 {
      assert b == head + rest;
      HeadReads(n, rest);
    } else {
      var ratios, kids := Concat(Put32, n.ratios), WriteNodes(n.children);
      assert b == head + (ratios + (kids + rest));
      HeadReads(n, ratios + (kids + rest));
      RatiosRead(n.ratios, head, kids + rest);
      assert b == head + ratios + (kids + rest);
      assert b[7 + count * 4..] == kids + rest;
      NodesRead(n.children, rest);
      assert seq(count, i requires 0 <= i < count => Get32(b, 7 + i * 4)) == n.ratios;
    }
  }

  lemma {:induction false} NodesRead(ns: seq<TreeNode>, rest: seq<Byte>)
    requires forall i :: 0 <= i < |ns| ==> NormalNode(ns[i])
    ensures ReadNodes(|ns|, WriteNodes(ns) + rest) == Got(ns, rest)
  {
    hide WriteNode, ReadNode, NormalNode;
    if ns != [] {
      var r := WriteNodes(ns[1..]) + rest;
      assert WriteNodes(ns) + rest == WriteNode(ns[0]) + r;
      NodeReads(ns[0], r);
      NodesRead(ns[1..], rest);
      assert [ns[0]] + ns[1..] == ns;
    }
  }

  /** Only normal trees are read, and the bytes consumed are their encoding. */
  lemma {:induction false} NodeWrites(b: seq<Byte>)
    requires ReadNode(b).Got?
    ensures NormalNode(ReadNode(b).value) && b == WriteNode(ReadNode(b).value) + ReadNode(b).rest
    decreases |b|, 0
  {
    hide Put32, Get32, Put16, Get16, WriteNodeHead, WriteNodes, ReadNodes, Concat;
    var n, rest, count: int := ReadNode(b).value, ReadNode(b).rest, Get16(b, 5);
    if count == 0 {
      HeadWrites(b, n);
      assert b == b[..7] + b[7..];
    } else {
      NodesWrite(count, b[7 + count * 4..]);
      HeadWrites(b, n);
      RatiosWrite(b, 7, n.ratios);
      assert b == b[..7] + (b[7..7 + count * 4] + b[7 + count * 4..]);
    }
  }

  lemma {:induction false} NodesWrite(n: nat, b: seq<Byte>)
    requires ReadNodes(n, b).Got?
    ensures var r := ReadNodes(n, b);
      && |r.value| == n && b == WriteNodes(r.value) + r.rest
      && forall i :: 0 <= i < n ==> NormalNode(r.value[i])
    decreases |b|, 1
  {
    hide WriteNode, ReadNode, NormalNode;
    if n > 0 {
      NodeWrites(b);
      NodesWrite(n - 1, ReadNode(b).rest);
      assert ReadNodes(n, b).value[1..] == ReadNodes(n - 1, ReadNode(b).rest).value;
    }
  }

  // ---------------------------------------------------------------- snapshots

  /**
   * Decoding an encoded snapshot gives it back when every string passes the
   * 16-bit length test, and reports a short payload otherwise.
   */
  lemma {:induction false} DecodeEncode(s: TreeSnapshot)
    requires Normal(s)
    ensures Decode(WriteSnapshot(s)) == if StringsFit(s) then Ok(s) else Err(PayloadShort)
  {
    hide Put16, Get16, ReadPane, WritePane, GoodPane, PaneFits, ReadNode, WriteNode, NormalNode, Many, Concat, AllFit,
      ReadsWhen, WritesBack;
    var panes, root := Concat(WritePane, s.panes), WriteNode(s.root);
    Len16(|s.panes|);
    assert WriteSnapshot(s) == [] + Put16(|s.panes|) + (panes + root);
    Read16(|s.panes|, [], panes + root);
    assert WriteSnapshot(s)[2..] == panes + root;
    PaneLaws();
    ManyReadsWhen(ReadPane, WritePane, GoodPane, PaneFits, s.panes, root);
    NodeReads(s.root, []);
    assert root + [] == root;
  }

  /** Every accepted payload decodes to a normal snapshot and is its only encoding. */
  lemma {:induction false} EncodeDecode(b: seq<Byte>)
    requires Decode(b).Ok?
    ensures Normal(Decode(b).value) && Encode(Decode(b).value) == Ok(b)
  {
    hide Put16, Get16, ReadPane, WritePane, GoodPane, PaneFits, ReadNode, WriteNode, NormalNode, Many, Concat,
      ReadsWhen, WritesBack, SnapshotError;
    PaneLaws();
    ManyWritesBack(ReadPane, WritePane, GoodPane, Get16(b, 0), b[2..]);
    var r := Many(ReadPane, Get16(b, 0), b[2..]).rest;
    NodeWrites(r);
    var s := Decode(b).value;
    Write16(b, 0);
    assert b == b[0..2] + b[2..];
    assert r == WriteNode(s.root) + [] == WriteNode(s.root);
    NormalEncodes(s);
  }

  lemma {:induction false} PaneErrorNone(p: PaneSnapshot)
    ensures PaneError(p) == None <==> GoodPane(p)
  {
    FirstErrorNone(StringError, p.rows);
  }

  lemma {:induction false} NodeErrorNone(n: TreeNode)
    requires NormalNode(n)
    ensures NodeError(n) == None
  {
    NodesErrorNone(n.children);
  }

  lemma {:induction false} NodesErrorNone(ns: seq<TreeNode>)
    requires forall i :: 0 <= i < |ns| ==> NormalNode(ns[i])
    ensures NodesError(ns) == None
  {
    if ns != [] {
      NodeErrorNone(ns[0]);
      NodesErrorNone(ns[1..]);
    }
  }

  lemma {:induction false} NormalEncodes(s: TreeSnapshot)
    requires Normal(s)
    ensures Encode(s) == Ok(WriteSnapshot(s))
  {
    hide PaneError, GoodPane, NodeError, NormalNode, WriteSnapshot;
    FirstErrorNone(PaneError, s.panes);
    forall i | 0 <= i < |s.panes| ensures PaneError(s.panes[i]) == None { PaneErrorNone(s.panes[i]); }
    NodeErrorNone(s.root);
  }

  /** All strings of a pane, and its number of rows, fit 16 bits. */
  predicate PaneWritable(p: PaneSnapshot) {
    && |p.title| <= 65535 && |p.rows| <= 65535 && |p.appType| <= 65535 && |p.appConfig| <= 65535
    && forall i :: 0 <= i < |p.rows| ==> |p.rows[i]| <= 65535
  }

  /** A node whose count, as it is told, is not zero has as many ratios. */
  predicate NodeWritable(n: TreeNode) {
    var count := |n.children| % 65536;
    count == 0 || (|n.ratios| == count && forall i :: 0 <= i < |n.children| ==> NodeWritable(n.children[i]))
  }

  lemma {:induction false} PaneWritableExactly(p: PaneSnapshot)
    ensures PaneError(p) == None <==> PaneWritable(p)
    ensures PaneError(p) == None || PaneError(p) == Some(StringTooLong)
  {
    FirstErrorNone(StringError, p.rows);
    if FirstError(StringError, p.rows).Some? { var i := FirstErrorOf(StringError, p.rows); }
  }

  lemma {:induction false} NodeWritableExactly(n: TreeNode)
    ensures NodeError(n) == None <==> NodeWritable(n)
    ensures NodeError(n) == None || NodeError(n) == Some(PayloadShort)
    decreases n, 0
  {
    NodesWritableExactly(n.children);
  }

  lemma {:induction false} NodesWritableExactly(ns: seq<TreeNode>)
    ensures NodesError(ns) == None <==> forall i :: 0 <= i < |ns| ==> NodeWritable(ns[i])
    ensures NodesError(ns) == None || NodesError(ns) == Some(PayloadShort)
    decreases ns, 1
  {
    if ns != [] {
      NodeWritableExactly(ns[0]);
      NodesWritableExactly(ns[1..]);
      assert forall i :: 1 <= i < |ns| ==> ns[i] == ns[1..][i - 1];
    }
  }

  /** The writer refuses a string too long in the panes first, then a node with the wrong number of ratios. */
  lemma {:induction false} EncodableExactly(s: TreeSnapshot)
    ensures var panes := forall i :: 0 <= i < |s.panes| ==> PaneWritable(s.panes[i]);
      && (Encode(s).Ok? <==> panes && NodeWritable(s.root))
      && (!panes ==> Encode(s) == Err(StringTooLong))
      && (panes && !NodeWritable(s.root) ==> Encode(s) == Err(PayloadShort))
  {
    hide PaneError, PaneWritable, NodeError, NodeWritable, WriteSnapshot, FirstError;
    forall i | 0 <= i < |s.panes| ensures PaneError(s.panes[i]) == None <==> PaneWritable(s.panes[i]) {
      PaneWritableExactly(s.panes[i]);
    }
    FirstErrorNone(PaneError, s.panes);
    if FirstError(PaneError, s.panes).Some? {
      var i := FirstErrorOf(PaneError, s.panes);
      PaneWritableExactly(s.panes[i]);
    }
    NodeWritableExactly(s.root);
  }

  /** The round trip is exact for the normal snapshots whose strings all fit, and for no other. */
  lemma {:induction false} RoundTripExactly(s: TreeSnapshot)
    requires Encode(s).Ok?
    ensures Decode(Encode(s).value) == Ok(s) <==> Normal(s) && StringsFit(s)
  {
    hide Normal, StringsFit, SnapshotError, WriteSnapshot, Decode;
    if Decode(Encode(s).value) == Ok(s) { EncodeDecode(Encode(s).value); }
    if Normal(s) { DecodeEncode(s); }
  }

  // ------------------------------------------------------------ small payloads

  lemma {:induction false} RowsFit(rows: seq<seq<Byte>>, after: nat)
    requires |Concat(WriteString, rows)| + after < 0x1_0000 + 2
    ensures AllFit(WriteString, StringFits, rows, after)
  {
    hide WriteString;
    if rows != [] {
      var tail := |Concat(WriteString, rows[1..])| + after;
      assert |rows[0]| + tail < 0x1_0000;
      RowsFit(rows[1..], after);
    }
  }

  lemma {:induction false} PaneFitsWhenSmall(p: PaneSnapshot, after: nat)
    requires |WritePane(p)| + after < 0x1_0000 + 22
    ensures PaneFits(p, after)
  {
    hide WriteString, WriteBox, Put32, Put16, Concat, AllFit;
    Len32(p.revision);
    Len16(p.contentTopRow);
    Len16(p.numContentRows);
    RowsFit(p.rows, 2 + |p.appType| + 2 + |p.appConfig| + 4 + after);
  }

  lemma {:induction false} PanesFitWhenSmall(ps: seq<PaneSnapshot>, after: nat)
    requires |Concat(WritePane, ps)| + after < 0x1_0000 + 22
    ensures AllFit(WritePane, PaneFits, ps, after)
  {
    hide WritePane, PaneFits;
    if ps != [] {
      PaneFitsWhenSmall(ps[0], |Concat(WritePane, ps[1..])| + after);
      PanesFitWhenSmall(ps[1..], after);
    }
  }

  /** Any normal snapshot whose encoding is below 65,560 bytes survives the wire. */
  lemma {:induction false} SmallRoundTrip(s: TreeSnapshot)
    requires Normal(s) && |WriteSnapshot(s)| < 65560
    ensures Decode(WriteSnapshot(s)) == Ok(s)
  {
    hide Normal, WritePane, PaneFits, WriteNode, Concat, AllFit, Decode, Put16;
    Len16(|s.panes| % 0x1_0000);
    PanesFitWhenSmall(s.panes, |WriteNode(s.root)|);
    DecodeEncode(s);
  }

  /** The bound is tight: a normal snapshot of 65,560 bytes that is refused. */
  lemma {:induction false} SmallBoundIsTight()
    ensures exists s :: Normal(s) && |WriteSnapshot(s)| == 65560 && Decode(WriteSnapshot(s)) == Err(PayloadShort)
  {
    hide WriteString, WriteBox, Put32, Put16, Decode;
    var id: Id := [0, 0, 0, 0, 0, 0, 0, 0, 0, 0, 0, 0, 0, 0, 0, 0];
    var config: seq<Byte> := seq(65502, _ => 0);
    var p := PaneSnapshot(id, 0, [0], 0, 0, 0, 0, [], [], config, 0, 0);
    var s := TreeSnapshot([p], TreeNode(0, 0, [], []));
    Len32(0);
    Len16(0);
    Len16(1);
    assert |WriteNode(s.root)| == 7;
    assert |WritePane(p)| == 65551;
    assert Concat(WritePane, [p]) == WritePane(p) + Concat(WritePane, []);
    assert !PaneFits(p, |Concat(WritePane, s.panes[1..])| + |WriteNode(s.root)|);
    DecodeEncode(s);
  }

  /** A tree of 65,536 children is written as a leaf: the count wraps to zero. */
  lemma {:induction false} WideTreeIsLost(n: TreeNode)
    requires |n.children| == 0x1_0000
    ensures NodeError(n) == None && ReadNode(WriteNode(n)) == Got(n.(ratios := [], children := []), [])
  {
    hide ReadNode, WriteNodeHead;
    var leaf := n.(ratios := [], children := []);
    HeadOfWide(n);
    assert WriteNode(n) == WriteNode(leaf) == WriteNode(leaf) + [];
    NodeReads(leaf, []);
  }

  lemma {:induction false} HeadOfWide(n: TreeNode)
    requires |n.children| == 0x1_0000
    ensures WriteNodeHead(n) == WriteNodeHead(n.(ratios := [], children := []))
  {
  }
}
