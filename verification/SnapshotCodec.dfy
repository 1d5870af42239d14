/**
 * EncodeTreeSnapshot and DecodeTreeSnapshot as they run: a buffer that grows,
 * a slice that shrinks and the recursion over the layout tree
 * (protocol/messages.go:231-256, 963-1149).
 */
module SnapshotCodec {
  import opened Prelude
  import opened Bytes
  import opened TreeSnapshots

  // ----------------------------------------------------------------- encoding

  method EncodeString(buf: seq<Byte>, value: seq<Byte>) returns (out: seq<Byte>, err: Option<Error>)
    ensures err == StringError(value) && (err == None ==> out == buf + WriteString(value))
  {
    hide Put16;
    if |value| > 0xFFFF { return buf, Some(StringTooLong); }
    out := buf + Put16(|value| as U16);
    if |value| > 0 { out := out + value; }
    assert out == buf + WriteString(value);
    err := None;
  }

  method EncodeStrings(buf: seq<Byte>, rows: seq<seq<Byte>>) returns (out: seq<Byte>, err: Option<Error>)
    ensures err == FirstError(StringError, rows) && (err == None ==> out == buf + Concat(WriteString, rows))
  {
    hide WriteString, FirstError, Concat, StringError;
    out, err := buf, None;
    ConcatNone(WriteString);
    for i := 0 to |rows|
      invariant err == None && out == buf + Concat(WriteString, rows[..i])
      invariant forall j :: 0 <= j < i ==> StringError(rows[j]) == None
    {
      out, err := EncodeString(out, rows[i]);
      if err.Some? { FirstErrorAt(StringError, rows, i); return; }
      ConcatNext(WriteString, rows, i);
    }
    assert rows[..|rows|] == rows;
    FirstErrorNone(StringError, rows);
  }

  /** One pane of the loop in EncodeTreeSnapshot (protocol/messages.go:968-1013). */
  method EncodePane(buf: seq<Byte>, p: PaneSnapshot) returns (out: seq<Byte>, err: Option<Error>)
    ensures err == PaneError(p) && (err == None ==> out == buf + WritePane(p))
  {
    hide Put16, Put32, WriteString, FirstError, Concat, WritePane;
    out := buf + p.paneID + Put32(p.revision);
    out, err := EncodeString(out, p.title);
    if err.Some? { return; }
    out := out + Put32(FromI32(p.x)) + Put32(FromI32(p.y)) + Put32(FromI32(p.width)) + Put32(FromI32(p.height));
    if |p.rows| > 0xFFFF { return out, Some(StringTooLong); }
    out := out + Put16(|p.rows| as U16);
    out, err := EncodeStrings(out, p.rows);
    if err.Some? { return; }
    out, err := EncodeString(out, p.appType);
    if err.Some? { return; }
    out, err := EncodeString(out, p.appConfig);
    if err.Some? { return; }
    out := out + Put16(p.contentTopRow) + Put16(p.numContentRows);
    PaneInOrder(buf, p);
  }

  lemma {:induction false} PaneInOrder(buf: seq<Byte>, p: PaneSnapshot)
    requires |p.rows| <= Limit
    ensures buf + p.paneID + Put32(p.revision) + WriteString(p.title) +
            Put32(FromI32(p.x)) + Put32(FromI32(p.y)) + Put32(FromI32(p.width)) + Put32(FromI32(p.height)) +
            Put16(|p.rows|) + Concat(WriteString, p.rows) + WriteString(p.appType) + WriteString(p.appConfig) +
            Put16(p.contentTopRow) + Put16(p.numContentRows) == buf + WritePane(p)
  {
    hide Put16, Put32, WriteString, Concat;
    var box := WriteBox(p);
    var title := buf + p.paneID + Put32(p.revision) + WriteString(p.title);
    assert title + Put32(FromI32(p.x)) + Put32(FromI32(p.y)) + Put32(FromI32(p.width)) + Put32(FromI32(p.height)) +
      Put16(|p.rows|) == title + box;
    FlatNest(buf, p.paneID, Put32(p.revision), WriteString(p.title), box, Concat(WriteString, p.rows),
             WriteString(p.appType), WriteString(p.appConfig), Put16(p.contentTopRow), Put16(p.numContentRows));
  }

  lemma {:induction false} FlatNest(z: seq<Byte>, a0: seq<Byte>, a1: seq<Byte>, b: seq<Byte>, c: seq<Byte>,
                                    d: seq<Byte>, e: seq<Byte>, f: seq<Byte>, g0: seq<Byte>, g1: seq<Byte>)
    ensures z + a0 + a1 + b + c + d + e + f + g0 + g1 == z + ((a0 + a1) + (b + (c + (d + (e + (f + (g0 + g1)))))))
  {
    Assoc(z, a0, a1);
    var a := a0 + a1;
    Assoc(z + a + b + c + d + e + f, g0, g1);
    var g := g0 + g1;
    Assoc(z + a + b + c + d + e, f, g);
    Assoc(z + a + b + c + d, e, f + g);
    Assoc(z + a + b + c, d, e + (f + g));
    Assoc(z + a + b, c, d + (e + (f + g)));
    Assoc(z + a, b, c + (d + (e + (f + g))));
    Assoc(z, a, b + (c + (d + (e + (f + g)))));
  }

  /** The recursion over the tree (protocol/messages.go:1090-1117). */
  method EncodeTreeNode(buf: seq<Byte>, n: TreeNode) returns (out: seq<Byte>, err: Option<Error>)
    ensures err == NodeError(n) && (err == None ==> out == buf + WriteNode(n))
    decreases n
  {
    hide Put16, Put32, Concat, NodesError, WriteNodes;
    out, err := buf + Put32(FromI32(n.paneIndex)) + [n.split], None;
    var childCount := |n.children| % 0x1_0000;
    out := out + Put16(childCount);
    assert out == buf + WriteNodeHead(n);
    if childCount > 0 {
      if |n.ratios| != childCount { return out, Some(PayloadShort); }
      ghost var head := out;
      ConcatNone(Put32);
      for i := 0 to |n.ratios|
        invariant out == head + Concat(Put32, n.ratios[..i])
      {
        out := out + Put32(n.ratios[i]);
        ConcatNext(Put32, n.ratios, i);
      }
      assert n.ratios[..|n.ratios|] == n.ratios;
      ghost var start := out;
      NodesNone();
      for i := 0 to |n.children|
        invariant err == None && out == start + WriteNodes(n.children[..i])
        invariant NodesError(n.children[..i]) == None
      {
        out, err := EncodeTreeNode(out, n.children[i]);
        NodesNext(n.children, i);
        if err.Some? { NodesStop(n.children, i + 1); return; }
      }
      assert n.children[..|n.children|] == n.children;
    }
  }

  lemma {:induction false} NodesNone()
    ensures WriteNodes([]) == [] && NodesError([]) == None
  {
  }

  lemma {:induction false} NodesNext(ns: seq<TreeNode>, i: nat)
    requires i < |ns|
    ensures WriteNodes(ns[..i + 1]) == WriteNodes(ns[..i]) + WriteNode(ns[i])
    ensures NodesError(ns[..i]) == None ==> NodesError(ns[..i + 1]) == NodeError(ns[i])
  {
    hide WriteNode, NodeError;
    if i == 0 {
      assert ns[..1][1..] == [] && ns[..0] == [];
    } else {
      assert ns[..i + 1][1..] == ns[1..][..i] && ns[..i][1..] == ns[1..][..i - 1];
      NodesNext(ns[1..], i - 1);
    }
  }

  lemma {:induction false} NodesStop(ns: seq<TreeNode>, k: nat)
    requires k <= |ns| && NodesError(ns[..k]).Some?
    ensures NodesError(ns) == NodesError(ns[..k])
  {
    hide NodeError;
    if NodeError(ns[0]) == None {
      assert ns[..k][1..] == ns[1..][..k - 1];
      NodesStop(ns[1..], k - 1);
    }
  }

  /** The payload of a snapshot, or the first of its checks that fails. */
  method EncodeTreeSnapshot(s: TreeSnapshot) returns (r: Result<seq<Byte>>)
    ensures r == Encode(s)
  {
    hide Put16, FirstError, Concat, PaneError, WritePane, NodeError, WriteNode;
    var buf := Put16(|s.panes| % 0x1_0000);
    var err: Option<Error> := None;
    ghost var start := buf;
    ConcatNone(WritePane);
    for i := 0 to |s.panes|
      invariant err == None && buf == start + Concat(WritePane, s.panes[..i])
      invariant forall j :: 0 <= j < i ==> PaneError(s.panes[j]) == None
    {
      buf, err := EncodePane(buf, s.panes[i]);
      if err.Some? { FirstErrorAt(PaneError, s.panes, i); return Err(err.value); }
      ConcatNext(WritePane, s.panes, i);
    }
    assert s.panes[..|s.panes|] == s.panes;
    FirstErrorNone(PaneError, s.panes);
    buf, err := EncodeTreeNode(buf, s.root);
    if err.Some? { return Err(err.value); }
    assert buf == WriteSnapshot(s);
    return Ok(buf);
  }

  // ----------------------------------------------------------------- decoding

  method DecodeString(payload: seq<Byte>) returns (r: Read<seq<Byte>>)
    ensures r == ReadString(payload)
  {
    hide Get16;
    if |payload| < 2 { return Bad(PayloadShort); }
    var length: int := Get16(payload, 0);
    var b := payload[2..];
    if |b| % 0x1_0000 < length { return Bad(PayloadShort); }
    assert b[..length] == payload[2..2 + length] && b[length..] == payload[2 + length..];
    return Got(b[..length], b[length..]);
  }

  /** One pane of the loop in DecodeTreeSnapshot (protocol/messages.go:1030-1079). */
  method DecodePane(payload: seq<Byte>) returns (r: Read<PaneSnapshot>)
    ensures r == ReadPane(payload)
  {
    hide Get16, Get32, ReadString, Many, After;
    if |payload| < 20 { return Bad(PayloadShort); }
    var paneID, revision := payload[..16], Get32(payload, 16);
    var title := DecodeString(payload[20..]);
    if title.Bad? { return Bad(title.error); }
    var box := title.rest;
    if |box| < 18 { return Bad(PayloadShort); }
    var rowCount: int := Get16(box, 16);
    var rest, rows := box[18..], [];
    ManyStart(ReadString, rowCount, rest);
    for i := 0 to rowCount
      invariant After(rows, Many(ReadString, rowCount - i, rest)) == Many(ReadString, rowCount, box[18..])
    {
      ManyNext(ReadString, rows, rowCount - i, rest);
      var row := DecodeString(rest);
      if row.Bad? { return Bad(row.error); }
      rows := rows + [row.value];
      rest := row.rest;
    }
    ManyDone(ReadString, rows, rest);
    var appType := DecodeString(rest);
    if appType.Bad? { return Bad(appType.error); }
    var appConfig := DecodeString(appType.rest);
    if appConfig.Bad? { return Bad(appConfig.error); }
    rest := appConfig.rest;
    if |rest| < 4 { return Bad(PayloadShort); }
    var p := PaneSnapshot(paneID, revision, title.value, ToI32(Get32(box, 0)), ToI32(Get32(box, 4)),
                          ToI32(Get32(box, 8)), ToI32(Get32(box, 12)), rows, appType.value, appConfig.value,
                          Get16(rest, 0), Get16(rest, 2));
    return Got(p, rest[4..]);
  }

  /** The recursion over the tree (protocol/messages.go:1119-1149). */
  method DecodeTreeNode(payload: seq<Byte>) returns (r: Read<TreeNode>)
    ensures r == ReadNode(payload)
    decreases |payload|
  {
    hide Get16, Get32, ReadNodes, After;
    if |payload| < 7 { return Bad(PayloadShort); }
    var n := TreeNode(ToI32(Get32(payload, 0)), payload[4], [], []);
    var childCount: int := Get16(payload, 5);
    var b := payload[7..];
    if childCount > 0 {
      var req := childCount * 4;
      if |b| < req { return Bad(PayloadShort); }
      var ratios: seq<U32> := [];
      for i := 0 to childCount
        invariant |ratios| == i && forall j :: 0 <= j < i ==> ratios[j] == Get32(payload, 7 + j * 4)
      {
        Get32Shift(payload, 7, i * 4);
        ratios := ratios + [Get32(b, i * 4)];
      }
      assert ratios == seq(childCount, i requires 0 <= i < childCount => Get32(payload, 7 + i * 4));
      assert b[req..] == payload[7 + childCount * 4..];
      b := b[req..];
      ghost var start := b;
      var children: seq<TreeNode> := [];
      NodesStart(childCount, b);
      for i := 0 to childCount
        invariant |b| <= |start|
        invariant After(children, ReadNodes(childCount - i, b)) == ReadNodes(childCount, start)
      {
        NodesStep(children, childCount - i, b);
        var child := DecodeTreeNode(b);
        if child.Bad? { return Bad(child.error); }
        children := children + [child.value];
        b := child.rest;
      }
      NodesEnd(children, b);
      n := n.(ratios := ratios, children := children);
    }
    return Got(n, b);
  }

  lemma {:induction false} Get32Shift(b: seq<Byte>, k: nat, i: nat)
    requires k + i + 4 <= |b|
    ensures Get32(b[k..], i) == Get32(b, k + i)
  {
  }

  lemma {:induction false} NodesStart(n: nat, b: seq<Byte>)
    ensures After([], ReadNodes(n, b)) == ReadNodes(n, b)
  {
    if ReadNodes(n, b).Got? { assert [] + ReadNodes(n, b).value == ReadNodes(n, b).value; }
  }

  lemma {:induction false} NodesStep(xs: seq<TreeNode>, k: nat, b: seq<Byte>)
    requires k > 0
    ensures match ReadNode(b)
      case Bad(e) => After(xs, ReadNodes(k, b)) == Bad(e)
      case Got(x, r) => After(xs, ReadNodes(k, b)) == After(xs + [x], ReadNodes(k - 1, r))
  {
    hide ReadNode;
    match ReadNode(b)
    case Bad(_) =>
    case Got(x, r) =>
      match ReadNodes(k - 1, r)
      case Bad(_) =>
      case Got(ys, _) => assert xs + ([x] + ys) == (xs + [x]) + ys;
  }

  lemma {:induction false} NodesEnd(xs: seq<TreeNode>, b: seq<Byte>)
    ensures After(xs, ReadNodes(0, b)) == Got(xs, b)
  {
    assert xs + [] == xs;
  }

  /** The snapshot in a payload. */
  method DecodeTreeSnapshot(payload: seq<Byte>) returns (r: Result<TreeSnapshot>)
    ensures r == Decode(payload)
  {
    hide Get16, ReadPane, ReadNode, Many, After;
    if |payload| < 2 { return Err(PayloadShort); }
    var count: int := Get16(payload, 0);
    var b, panes := payload[2..], [];
    ManyStart(ReadPane, count, b);
    for i := 0 to count
      invariant After(panes, Many(ReadPane, count - i, b)) == Many(ReadPane, count, payload[2..])
    {
      ManyNext(ReadPane, panes, count - i, b);
      var pane := DecodePane(b);
      if pane.Bad? { return Err(pane.error); }
      panes := panes + [pane.value];
      b := pane.rest;
    }
    ManyDone(ReadPane, panes, b);
    var root := DecodeTreeNode(b);
    if root.Bad? { return Err(root.error); }
    if |root.rest| != 0 { return Err(PayloadShort); }
    return Ok(TreeSnapshot(panes, root.value));
  }
}
