/** Removing a pane's node from the heap (texel/workspace_layout.go:90-163). */
module RemoveHeap {
  import opened Ratios
  import opened PaneTree
  import opened Navigation
  import opened Edits
  import opened TreeHeap

  // ------------------------------------------------------ a group that shrinks

  lemma {:induction false} ShrunkRep(g: Shape, up: Node?, i: nat, rs: seq<real>,
                                     m: map<Node, Fields>, m': map<Node, Fields>)
    requires g.Branch? && Distinct(g) && RepIn(g, up, m) && i < |g.kids|
    requires Rewritten(Nodes(g), g.node, m[g.node].(children := Without(m[g.node].children, i), ratios := rs), m, m')
    ensures RepIn(Branch(g.node, g.split, rs, Without(g.kids, i)), up, m')
  {
    var s := Branch(g.node, g.split, rs, Without(g.kids, i));
    forall j | 0 <= j < |s.kids| ensures RepIn(s.kids[j], g.node, m') {
      AgreeKid(g, if j < i then j else j + 1, g.node, m'[g.node], m, m');
    }
    assert KidNodes(s.kids) == Without(KidNodes(g.kids), i);
  }

  lemma {:induction false} ShrinkRep(t: Shape, p: Path, m: map<Node, Fields>, m': map<Node, Fields>)
    requires Distinct(t) && Removable(t, p) && !Collapses(t, p) && RepIn(t, null, m)
    requires var g := At(t, Init(p));
      g.node in m && Last(p) < |m[g.node].children| &&
      Rewritten(Nodes(t), g.node,
                m[g.node].(children := Without(m[g.node].children, Last(p)),
                           ratios := Normalised(Without(g.ratios, Last(p)))), m, m')
    ensures RepIn(Remove(t, p), null, m')
  {
    hide RepIn, HasPath, At, Put, Distinct, Nodes, ParentOf, Agree, Rewritten, Normalised;
    var q := Init(p);
    var g, i := At(t, q), Last(p);
    var rs := Normalised(Without(g.ratios, i));
    Inside(t, q);
    RepInAt(t, q, null, m);
    AgreeParts(t, q, g.node, m[g.node].(children := Without(m[g.node].children, i), ratios := rs), m, m');
    ShrunkRep(g, ParentOf(t, q, null), i, rs, m, m');
    RepPut(t, q, Survivors(t, p), null, m, m');
  }

  // --------------------------------------------------- a group that disappears

  lemma {:induction false} Reparented(r: Shape, up: Node?, up': Node?, m: map<Node, Fields>, m': map<Node, Fields>)
    requires RepIn(r, up, m) && Distinct(r)
    requires Rewritten(Nodes(r), r.node, m[r.node].(parent := up'), m, m')
    ensures RepIn(r, up', m')
  {
    if r.Branch? {
      forall i | 0 <= i < |r.kids| ensures RepIn(r.kids[i], r.node, m') {
        AgreeKid(r, i, r.node, m'[r.node], m, m');
      }
    }
  }

  lemma {:induction false} ReplacedChildRep(g: Shape, up: Node?, j: nat, r: Shape,
                                            m: map<Node, Fields>, m': map<Node, Fields>)
    requires g.Branch? && Distinct(g) && RepIn(g, up, m) && j < |g.kids| && RepIn(r, g.node, m')
    requires g.node in m' && j < |m[g.node].children|
    requires m'[g.node] == m[g.node].(children := m[g.node].children[j := r.node])
    requires Agree(Nodes(g) - Nodes(g.kids[j]) - {g.node}, m, m')
    ensures RepIn(g.(kids := g.kids[j := r]), up, m')
  {
    var s := g.(kids := g.kids[j := r]);
    forall i | 0 <= i < |s.kids| ensures RepIn(s.kids[i], g.node, m') {
      if i != j {
        KidsApart(g, i, j);
        RepAgree(g.kids[i], g.node, m, m');
      }
    }
    assert KidNodes(s.kids) == KidNodes(g.kids)[j := r.node];
  }

  /** The contents after the only surviving child took its parent's place. */
  ghost predicate Promoted(t: Shape, p: Path, m: map<Node, Fields>, m': map<Node, Fields>)
    requires Removable(t, p) && Collapses(t, p)
  {
    var q := Init(p);
    var r := Survivors(t, p).node;
    var g := At(t, q).node;
    && r in m && r in m' && m'[r] == m[r].(parent := if q == [] then null else ParentOf(t, q, null))
    && (q == [] ==> Agree(Nodes(t) - {r, g}, m, m'))
    && (q != [] ==> HasPath(t, Init(q)) && var u := At(t, Init(q)).node;
          && u in m && u in m' && Last(q) < |m[u].children| && ParentOf(t, q, null) == u
          && m'[u] == m[u].(children := m[u].children[Last(q) := r])
          && Agree(Nodes(t) - {r, g, u}, m, m'))
  }

  lemma {:induction false} OtherChild(t: Shape, p: Path)
    requires Removable(t, p) && Collapses(t, p)
    ensures Spot(t, Init(p), 1 - Last(p)) && Survivors(t, p) == At(t, Init(p)).kids[1 - Last(p)]
    ensures HasPath(t, Init(p) + [1 - Last(p)]) && At(t, Init(p) + [1 - Last(p)]) == Survivors(t, p)
  {
    PathStep(t, Init(p), 1 - Last(p));
  }

  lemma {:induction false} GroupParts(g: Shape, i: nat)
    requires g.Branch? && Distinct(g) && i < |g.kids|
    ensures g.node in Nodes(g) && g.node !in Nodes(g.kids[i]) && g.kids[i].node in Nodes(g.kids[i])
    ensures Nodes(g.kids[i]) <= Nodes(g) && Distinct(g.kids[i])
  {
  }

  lemma {:induction false} SurvivorRep(t: Shape, p: Path, m: map<Node, Fields>, m': map<Node, Fields>)
    requires Distinct(t) && Removable(t, p) && Collapses(t, p) && RepIn(t, null, m)
    requires Promoted(t, p, m, m')
    ensures RepIn(Survivors(t, p), if Init(p) == [] then null else ParentOf(t, Init(p), null), m')
  {
    hide RepIn, HasPath, Put, Distinct, Nodes, ParentOf, Survivors;
    var q := Init(p);
    var g, r := At(t, q), Survivors(t, p);
    OtherChild(t, p);
    Inside(t, q);
    RepInAt(t, q + [1 - Last(p)], null, m);
    GroupParts(g, 1 - Last(p));
    if q != [] {
      PathLast(t, q);
      Inside(t, Init(q));
      GroupParts(At(t, Init(q)), Last(q));
    }
    Reparented(r, ParentOf(t, q + [1 - Last(p)], null), if q == [] then null else ParentOf(t, q, null), m, m');
  }

  lemma {:induction false} PromoteRep(t: Shape, p: Path, m: map<Node, Fields>, m': map<Node, Fields>)
    requires Distinct(t) && Removable(t, p) && Collapses(t, p) && RepIn(t, null, m)
    requires Promoted(t, p, m, m')
    ensures RepIn(Remove(t, p), null, m')
  {
    hide RepIn, HasPath, At, Put, Distinct, Nodes, ParentOf, Agree, Survivors, Collapses;
    var q, r := Init(p), Survivors(t, p);
    SurvivorRep(t, p, m, m');
    if q == [] {
      PutRoot(t, r);
    } else {
      PromoteInside(t, p, m, m');
    }
  }

  lemma {:induction false} PutRoot(t: Shape, s: Shape)
    ensures HasPath(t, []) && Put(t, [], s) == s && At(t, []) == t
  {
  }

  lemma {:induction false} PromoteInside(t: Shape, p: Path, m: map<Node, Fields>, m': map<Node, Fields>)
    requires Distinct(t) && Removable(t, p) && Collapses(t, p) && RepIn(t, null, m)
    requires Promoted(t, p, m, m') && Init(p) != []
    requires RepIn(Survivors(t, p), ParentOf(t, Init(p), null), m')
    ensures RepIn(Remove(t, p), null, m')
  {
    hide RepIn, HasPath, Put, Distinct, Nodes, ParentOf, Survivors;
    var q, r := Init(p), Survivors(t, p);
    var o, j := Init(q), Last(q);
    PathLast(t, q);
    var u := At(t, o);
    OtherChild(t, p);
    Inside(t, q);
    Inside(t, o);
    RepInAt(t, o, null, m);
    GroupParts(u, j);
    GroupParts(At(t, q), 1 - Last(p));
    ReplacedChildRep(u, ParentOf(t, o, null), j, r, m, m');
    RepPut(t, o, u.(kids := u.kids[j := r]), null, m, m');
    PutLast(t, q, r);
  }

  lemma {:induction false} PutLast(t: Shape, q: Path, r: Shape)
    requires HasPath(t, q) && q != [] && HasPath(t, Init(q)) && Spot(t, Init(q), Last(q))
    ensures var u := At(t, Init(q));
      Put(t, q, r) == Put(t, Init(q), u.(kids := u.kids[Last(q) := r]))
  {
    assert q == Init(q) + [Last(q)];
    PathConcat(t, Init(q), [Last(q)]);
    PutConcat(t, Init(q), [Last(q)], r);
    assert [Last(q)][1..] == [];
  }

  // ------------------------------------------------------------------- methods

  /** The two loops of the survivors' renormalisation (texel/workspace_layout.go:147-155). */
  method Renormalise(ratios: seq<real>) returns (rs: seq<real>)
    ensures rs == Normalised(ratios)
  {
    var totalRatio := 0.0;
    for i := 0 to |ratios|
      invariant totalRatio == Sum(ratios[..i])
    {
      assert ratios[..i + 1][..i] == ratios[..i];
      totalRatio := totalRatio + ratios[i];
    }
    assert ratios[..|ratios|] == ratios;
    rs := ratios;
    if totalRatio > 0.0 {
      for i := 0 to |rs|
        invariant |rs| == |ratios|
        invariant forall j :: 0 <= j < i ==> rs[j] == Divided(ratios, totalRatio)[j]
        invariant forall j :: i <= j < |rs| ==> rs[j] == ratios[j]
      {
        rs := rs[i := rs[i] / totalRatio];
      }
      assert rs == Divided(ratios, totalRatio);
    }
  }

  /** Drop child i and its ratio. */
  method DropChild(parent: Node, i: nat)
    requires i < |parent.children|
    modifies parent`children, parent`ratios
    ensures parent.children == Without(old(parent.children), i)
    ensures parent.ratios == if i < |old(parent.ratios)| then Without(old(parent.ratios), i) else old(parent.ratios)
  {
    parent.children := parent.children[..i] + parent.children[i + 1..];
    if i < |parent.ratios| {
      parent.ratios := parent.ratios[..i] + parent.ratios[i + 1..];
    }
  }

  /** Put remaining where parent was among the grandparent's children. */
  method ReplaceChild(grandparent: Node, parent: Node, remaining: Node, ghost j: nat)
    requires j < |grandparent.children| && grandparent.children[j] == parent
    requires forall i :: 0 <= i < j ==> grandparent.children[i] != parent
    modifies grandparent`children
    ensures grandparent.children == old(grandparent.children)[j := remaining]
  {
    for i := 0 to |grandparent.children|
      invariant i <= j && grandparent.children == old(grandparent.children)
    {
      if grandparent.children[i] == parent {
        grandparent.children := grandparent.children[i := remaining];
        break;
      }
    }
  }

  /** What is known of the heap once the closing child has been dropped. */
  ghost predicate Dropped(t: Shape, p: Path, m: map<Node, Fields>)
    requires Removable(t, p)
    reads Nodes(t), At(t, Init(p)).node
  {
    var g := At(t, Init(p)).node;
    && RepIn(t, null, m) && g in m && Last(p) < |m[g].children| && Last(p) < |m[g].ratios|
    && Rewritten(Nodes(t), g,
                 m[g].(children := Without(m[g].children, Last(p)), ratios := Without(m[g].ratios, Last(p))),
                 m, Contents(Nodes(t)))
  }

  /** The default case: at least two children are left. */
  method ShrinkGroup(parent: Node, ghost t: Shape, ghost p: Path, ghost m: map<Node, Fields>)
    requires Distinct(t) && Removable(t, p) && !Collapses(t, p) && At(t, Init(p)).node == parent
    requires Dropped(t, p, m)
    modifies parent`ratios
    ensures Rep(Remove(t, p), null)
  {
    hide RepIn, Rep, HasPath, At, Put, Distinct, Nodes, Survivors, Collapses, WellFormed, Normalised, Remove;
    assert allocated(Nodes(t));
    ghost var s := Nodes(t);
    Inside(t, Init(p));
    RepInAt(t, Init(p), null, m);
    GroupFields(At(t, Init(p)), ParentOf(t, Init(p), null), m);
    var rs := Renormalise(parent.ratios);
    parent.ratios := rs;
    ShrinkRep(t, p, m, Contents(s));
    RemoveKeeps(t, p);
    RepIsRepIn(Remove(t, p), null, s);
  }

  lemma {:induction false} GroupFields(g: Shape, up: Node?, m: map<Node, Fields>)
    requires g.Branch? && RepIn(g, up, m)
    ensures g.node in m && m[g.node].parent == up && m[g.node].ratios == g.ratios
    ensures m[g.node].children == KidNodes(g.kids)
  {
  }

  lemma {:induction false} DroppedFields(t: Shape, p: Path, m: map<Node, Fields>)
    requires Distinct(t) && Removable(t, p) && Dropped(t, p, m)
    ensures var g := At(t, Init(p)); var q := Init(p);
      && g.node in Nodes(t) && g.node.children == KidNodes(Without(g.kids, Last(p)))
      && g.node.ratios == Without(g.ratios, Last(p))
      && (q == [] ==> g.node.parent == null)
      && (q != [] ==> HasPath(t, Init(q)) && Spot(t, Init(q), Last(q)) && At(t, Init(q)).kids[Last(q)] == g
                      && g.node.parent == At(t, Init(q)).node && ParentOf(t, q, null) == At(t, Init(q)).node)
  {
    var q := Init(p);
    var g := At(t, q);
    Inside(t, q);
    RepInAt(t, q, null, m);
    GroupFields(g, ParentOf(t, q, null), m);
    assert KidNodes(Without(g.kids, Last(p))) == Without(KidNodes(g.kids), Last(p));
    if q != [] {
      PathLast(t, q);
      ParentIs(t, q, null);
    }
  }

  /** The grandparent's own fields, and where the collapsing group sits in it. */
  lemma {:induction false} GrandparentFields(t: Shape, q: Path, m: map<Node, Fields>)
    requires Distinct(t) && HasPath(t, q) && q != [] && RepIn(t, null, m) && Spot(t, Init(q), Last(q))
    ensures var u := At(t, Init(q));
      && u.node in Nodes(t) && u.node in m && m[u.node].children == KidNodes(u.kids)
      && u.kids[Last(q)] == At(t, q) && u.node != At(t, q).node
      && forall i :: 0 <= i < |u.kids| && u.kids[i].node == At(t, q).node ==> i == Last(q)
  {
    PathLast(t, q);
    Inside(t, Init(q));
    RepInAt(t, Init(q), null, m);
    ChildIndex(At(t, Init(q)), Last(q));
    GroupParts(At(t, Init(q)), Last(q));
    var u := At(t, Init(q));
    assert forall i :: 0 <= i < |u.kids| ==> KidNodes(u.kids)[i] == u.kids[i].node;
  }

  /** The node that takes the group's place is none of the nodes around it. */
  lemma {:induction false} SurvivorNode(t: Shape, p: Path)
    requires Distinct(t) && Removable(t, p) && Collapses(t, p)
    ensures var r := Survivors(t, p).node; var q := Init(p);
      && r in Nodes(t) && r != At(t, q).node
      && (q != [] ==> HasPath(t, Init(q)) && r != At(t, Init(q)).node)
      && KidNodes(Without(At(t, q).kids, Last(p))) == [r]
  {
    var q := Init(p);
    OtherChild(t, p);
    Inside(t, q);
    GroupParts(At(t, q), 1 - Last(p));
    if q != [] {
      PathLast(t, q);
      Inside(t, Init(q));
      GroupParts(At(t, Init(q)), Last(q));
    }
  }

  /** One child is left: it takes its parent's place (texel/workspace_layout.go:131-144). */
  method Promote(root: Node, parent: Node, ghost t: Shape, ghost p: Path, ghost m: map<Node, Fields>)
    returns (newRoot: Node)
    requires Distinct(t) && Removable(t, p) && Collapses(t, p) && At(t, Init(p)).node == parent && t.node == root
    requires Dropped(t, p, m)
    modifies Nodes(t)`parent, Nodes(t)`children
    ensures Rep(Remove(t, p), null) && newRoot == Remove(t, p).node
    ensures parent.children == old(parent.children) == [Survivors(t, p).node]
  {
    hide RepIn, Rep, HasPath, At, Put, Distinct, Nodes, Survivors, Remove, ParentOf;
    assert allocated(Nodes(t));
    ghost var s, q, r := Nodes(t), Init(p), Survivors(t, p).node;
    DroppedFields(t, p, m);
    SurvivorNode(t, p);
    var remainingChild := parent.children[0];
    var grandparent := parent.parent;
    assert remainingChild == r;
    remainingChild.parent := grandparent;
    newRoot := root;
    if grandparent == null {
      newRoot := remainingChild;
    } else {
      GrandparentFields(t, q, m);
      ReplaceChild(grandparent, parent, remainingChild, Last(q));
    }
    ghost var m' := Contents(s);
    PromoteRep(t, p, m, m');
    RemoveKeeps(t, p);
    RemovedRoot(t, p);
    RepIsRepIn(Remove(t, p), null, s);
  }

  lemma {:induction false} RemovedRoot(t: Shape, p: Path)
    requires Removable(t, p)
    ensures Remove(t, p).node == if Init(p) == [] then Survivors(t, p).node else t.node
    ensures !Collapses(t, p) ==> Remove(t, p).node == t.node
  {
    PutAt(t, Init(p), Survivors(t, p));
  }

  lemma {:induction false} DroppedNow(t: Shape, p: Path, m: map<Node, Fields>)
    requires Distinct(t) && Removable(t, p) && RepIn(t, null, m) && Rep(t, null)
    requires m == Contents(Nodes(t))
    ensures var g := At(t, Init(p)).node;
      && g in Nodes(t) && g.children == KidNodes(At(t, Init(p)).kids) && g.ratios == At(t, Init(p)).ratios
      && g in m && Last(p) < |m[g].children| && Last(p) < |m[g].ratios|
  {
    Inside(t, Init(p));
    SplitField(t, Init(p));
  }

  /** The node to focus next, read off the heap after the removal. */
  ghost predicate FocusesNext(t: Shape, p: Path, t': Shape)
    requires Removable(t, p)
  {
    var q, f := Init(p), NextFocus(t, p);
    && LeafPath(t', f) && HasPath(t', q) && At(t', q) == Survivors(t, p)
    && if Collapses(t, p) then
         && WellFormed(At(t', q)) && HasPath(At(t', q), FirstLeaf(At(t', q)))
         && At(t', f) == At(At(t', q), FirstLeaf(At(t', q)))
       else
         var g, n := At(t', q), |At(t, q).kids| - 1;
         var i := if Last(p) < n then Last(p) else n - 1;
         && g.Branch? && g.node == At(t, q).node && |g.kids| == n && WellFormed(g.kids[i])
         && HasPath(g.kids[i], FirstLeaf(g.kids[i]))
         && At(t', f) == At(g.kids[i], FirstLeaf(g.kids[i]))
  }

  lemma {:induction false} NextFocusSpot(t: Shape, p: Path)
    requires WellFormed(t) && Distinct(t) && Removable(t, p)
    ensures FocusesNext(t, p, Remove(t, p))
  {
    hide Distinct, HasPath, At, Put, Nodes, Panes, FirstLeaf, WellFormed, Survivors, Normalised, NextFocus;
    var t', q := Remove(t, p), Init(p);
    RemoveKeepsForm(t, p);
    NextFocusIsLeaf(t, p);
    RemovedGroup(t, p);
    Inside(t', q);
    if Collapses(t, p) { FocusInChild(t, p); } else { FocusInGroup(t, p); }
  }

  lemma {:induction false} RemovedGroup(t: Shape, p: Path)
    requires Removable(t, p)
    ensures HasPath(Remove(t, p), Init(p)) && At(Remove(t, p), Init(p)) == Survivors(t, p)
    ensures !Collapses(t, p) ==> var g := Survivors(t, p);
      g.Branch? && g.node == At(t, Init(p)).node && |g.kids| == |At(t, Init(p)).kids| - 1
  {
    PutAt(t, Init(p), Survivors(t, p));
  }

  lemma {:induction false} FocusInChild(t: Shape, p: Path)
    requires Removable(t, p) && Collapses(t, p) && LeafPath(Remove(t, p), NextFocus(t, p))
    requires HasPath(Remove(t, p), Init(p)) && At(Remove(t, p), Init(p)) == Survivors(t, p)
    requires WellFormed(Survivors(t, p))
    ensures var s := Survivors(t, p);
      HasPath(s, FirstLeaf(s)) && At(Remove(t, p), NextFocus(t, p)) == At(s, FirstLeaf(s))
  {
    hide Put, FirstLeaf, Remove;
    var s := Survivors(t, p);
    FirstLeafIsLeaf(s);
    PathConcat(Remove(t, p), Init(p), FirstLeaf(s));
  }

  lemma {:induction false} FocusInGroup(t: Shape, p: Path)
    requires Removable(t, p) && !Collapses(t, p) && LeafPath(Remove(t, p), NextFocus(t, p))
    requires HasPath(Remove(t, p), Init(p)) && At(Remove(t, p), Init(p)) == Survivors(t, p)
    requires WellFormed(Remove(t, p))
    ensures var s, n := Survivors(t, p), |At(t, Init(p)).kids| - 1;
      var i := if Last(p) < n then Last(p) else n - 1;
      && s.Branch? && |s.kids| == n && WellFormed(s.kids[i]) && HasPath(s.kids[i], FirstLeaf(s.kids[i]))
      && At(Remove(t, p), NextFocus(t, p)) == At(s.kids[i], FirstLeaf(s.kids[i]))
  {
    hide Put, FirstLeaf, Remove, Normalised;
    var n := |At(t, Init(p)).kids| - 1;
    ArrivalIsLeaf(Remove(t, p), Init(p), if Last(p) < n then Last(p) else n - 1);
  }

  /** The first leaf of the survivor next to the closed child (texel/workspace_layout.go:156-162). */
  method FocusSurvivor(parent: Node, closingIndex: nat, ghost t: Shape, ghost p: Path, ghost t': Shape)
    returns (nextActive: Node)
    requires Removable(t, p) && !Collapses(t, p) && closingIndex == Last(p) && At(t, Init(p)).node == parent
    requires Rep(t', null) && FocusesNext(t, p, t')
    ensures nextActive == At(t', NextFocus(t, p)).node
  {
    hide Rep, HasPath, At, Survivors, FirstLeaf, NextFocus;
    ghost var q := Init(p);
    SplitField(t', q);
    var newIndex := closingIndex;
    if newIndex >= |parent.children| { newIndex := |parent.children| - 1; }
    ChildFields(t', q, newIndex);
    ghost var k := At(t', q).kids[newIndex];
    var child := parent.children[newIndex];
    nextActive := FindFirstLeaf(child, k, parent);
  }

  /** The tree part of doRemoveNode (texel/workspace_layout.go:96-163). */
  method RemoveLeaf(root: Node, parent: Node, closingIndex: nat, ghost t: Shape, ghost p: Path)
    returns (newRoot: Node, nextActive: Node)
    requires WellFormed(t) && Distinct(t) && Rep(t, null) && t.node == root
    requires Removable(t, p) && At(t, Init(p)).node == parent && closingIndex == Last(p)
    modifies Nodes(t)
    ensures Rep(Remove(t, p), null) && newRoot == Remove(t, p).node
    ensures LeafPath(Remove(t, p), NextFocus(t, p)) && nextActive == At(Remove(t, p), NextFocus(t, p)).node
    ensures parent.split == old(parent.split)
    ensures Collapses(t, p) ==> parent.ratios == Without(At(t, Init(p)).ratios, Last(p))
  {
    hide RepIn, Rep, HasPath, At, Put, Distinct, Nodes, Survivors, Remove, ParentOf, FirstLeaf, Arrival, NextFocus;
    assert allocated(Nodes(t));
    ghost var t', q := Remove(t, p), Init(p);
    ghost var m := Contents(Nodes(t));
    RepIsRepIn(t, null, Nodes(t));
    DroppedNow(t, p, m);
    RemoveKeeps(t, p);
    NextFocusSpot(t, p);
    DropChild(parent, closingIndex);
    assert Dropped(t, p, m);
    if |parent.children| == 1 {
      DroppedFields(t, p, m);
      newRoot := Promote(root, parent, t, p, m);
      RepAt(t', q, null);
      nextActive := FindFirstLeaf(parent.children[0], At(t', q), ParentOf(t', q, null));
    } else {
      ShrinkGroup(parent, t, p, m);
      RemovedRoot(t, p);
      newRoot := root;
      assert allocated(Nodes(t'));
      label Shrunk:
      nextActive := FocusSurvivor(parent, closingIndex, t, p, t');
      assert old@Shrunk(Rep(t', null)) == Rep(t', null);
    }
  }
}
