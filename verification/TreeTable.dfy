/**
 The routing table of a mote: an array of entries, one per known parent, each
 listing known children. It only ever grows.
 */
module TreeTable {
  import opened CInts

  const MAX_CHILDREN: nat := 8
  const MAX_TREE_NODES: nat := 20

  // The C entry has eight child slots and a count; only the slots below the
  // count are ever read, so they are the model's `children`.
  datatype TreeNode = TreeNode(id: u8, children: seq<u8>)
  type Table = seq<TreeNode>

  type Edge = (u8, u8)  // (parent, child)

  ghost predicate WellFormed(t: Table, maxN: nat) {
    && |t| <= maxN
    && (forall i, j :: 0 <= i < j < |t| ==> t[i].id != t[j].id)
    && (forall i :: 0 <= i < |t| ==> |t[i].children| <= MAX_CHILDREN && Distinct(t[i].children))
  }

  ghost function Ids(t: Table): (r: set<u8>)
    ensures forall i :: 0 <= i < |t| ==> t[i].id in r
  {
    set i | 0 <= i < |t| :: t[i].id
  }

  ghost predicate HasEdge(t: Table, p: u8, c: u8) {
    exists i :: 0 <= i < |t| && t[i].id == p && c in t[i].children
  }

  ghost function Edges(t: Table): (r: set<Edge>)
    ensures forall p: u8, c: u8 :: (p, c) in r <==> HasEdge(t, p, c)
  {
    if t == [] then {} else
    var last := t[|t| - 1];
    var r := Edges(t[..|t| - 1]) + (set c | c in last.children :: (last.id, c));
    EdgesSnoc(t);
    r
  }

  lemma EdgesSnoc(t: Table)
    requires t != []
    ensures var last := t[|t| - 1];
            forall p: u8, c: u8 ::
              HasEdge(t, p, c) <==> HasEdge(t[..|t| - 1], p, c) || (p == last.id && c in last.children)
  {
    var front, last := t[..|t| - 1], t[|t| - 1];
    forall p: u8, c: u8
      ensures HasEdge(t, p, c) <==> HasEdge(front, p, c) || (p == last.id && c in last.children)
    {
      if HasEdge(front, p, c) {
        var i :| 0 <= i < |front| && front[i].id == p && c in front[i].children;
        assert t[i].id == p && c in t[i].children;
      }
      if HasEdge(t, p, c) && !(p == last.id && c in last.children) {
        var i :| 0 <= i < |t| && t[i].id == p && c in t[i].children;
        assert front[i].id == p && c in front[i].children;
      }
    }
  }

  // Index of the first entry for an id, or |t|: the search loop of every
  // table operation.
  function Find(t: Table, id: u8): (k: nat)
    ensures k <= |t|
    ensures forall i :: 0 <= i < k ==> t[i].id != id
    ensures k < |t| ==> t[k].id == id
  {
    FirstWhere(t, (e: TreeNode) => e.id == id)
  }

  lemma FindIs(t: Table, id: u8, k: nat)
    requires k <= |t| && (forall i :: 0 <= i < k ==> t[i].id != id)
    requires k < |t| ==> t[k].id == id
    ensures Find(t, id) == k
  {}

  function AddEdge(t: Table, maxN: nat, p: u8, c: u8): Table {
    var i := Find(t, p);
    var t' := if i == |t| && |t| < maxN then t + [TreeNode(p, [])] else t;
    if i == |t'| || c in t'[i].children || |t'[i].children| >= MAX_CHILDREN then t'
    else t'[i := TreeNode(p, t'[i].children + [c])]
  }

  // Exactly when an edge ends up in the table.
  ghost predicate Accepts(t: Table, maxN: nat, p: u8, c: u8) {
    var i := Find(t, p);
    if i < |t| then c in t[i].children || |t[i].children| < MAX_CHILDREN else |t| < maxN
  }

  // Add_child: in place on the array, whose first `n` entries are in use.
  method AddChild(tree: array<TreeNode>, n: u8, maxN: u8, parent: u8, child: u8) returns (n': u8)
    requires n <= maxN && maxN as nat <= tree.Length
    modifies tree
    ensures n <= n' <= maxN
    ensures tree[..n'] == AddEdge(old(tree[..n]), maxN, parent, child)
    ensures tree[n'..] == old(tree[n'..])
  {
    hide Find;
    ghost var t: Table := tree[..n];
    n' := n;
    var i: u8 := 0;
    while i < n && tree[i].id != parent
      invariant i <= n
      invariant forall k :: 0 <= k < i ==> tree[k].id != parent
    {
      i := i + 1;
    }
    FindIs(t, parent, i);
    if i == n {
      if n >= maxN { return; }
      tree[n] := TreeNode(parent, []);
      n' := n + 1;
    }
    var cs := tree[i].children;
    var j := 0;
    while j < |cs|
      invariant 0 <= j <= |cs|
      invariant child !in cs[..j]
    {
      if cs[j] == child { return; }
      j := j + 1;
    }
    assert cs == cs[..|cs|];
    if |cs| < MAX_CHILDREN {
      tree[i] := TreeNode(tree[i].id, cs + [child]);
    }
  }

  // How one entry changes.
  lemma HasEdgeAfter(t: Table, maxN: nat, a: u8, b: u8, p: u8, c: u8)
    ensures HasEdge(AddEdge(t, maxN, a, b), p, c) <==>
            HasEdge(t, p, c) || (p == a && c == b && Accepts(t, maxN, a, b))
  {
    var i, r := Find(t, a), AddEdge(t, maxN, a, b);
    if HasEdge(t, p, c) {
      var k :| 0 <= k < |t| && t[k].id == p && c in t[k].children;
      assert r[k].id == p && c in r[k].children;
    }
    if p == a && c == b && Accepts(t, maxN, a, b) {
      assert r[i].id == p && c in r[i].children;
    }
    if HasEdge(r, p, c) {
      var k :| 0 <= k < |r| && r[k].id == p && c in r[k].children;
      if k < |t| && c in t[k].children {
        assert t[k].id == p && c in t[k].children;
      }
    }
  }

  // Entries keep their place and identity, and never lose a child.
  ghost predicate Grows(t: Table, r: Table) {
    && |t| <= |r|
    && forall i :: 0 <= i < |t| ==> r[i].id == t[i].id && t[i].children <= r[i].children
  }

  lemma GrowsTransitive(t: Table, u: Table, v: Table)
    requires Grows(t, u) && Grows(u, v)
    ensures Grows(t, v)
  {
    forall i | 0 <= i < |t| ensures v[i].id == t[i].id && t[i].children <= v[i].children {
      assert u[i].id == t[i].id && t[i].children <= u[i].children <= v[i].children;
    }
  }

  lemma GrowsIds(t: Table, r: Table)
    requires Grows(t, r)
    ensures Ids(t) <= Ids(r)
  {
    forall x | x in Ids(t) ensures x in Ids(r) {
      var i :| 0 <= i < |t| && t[i].id == x;
      assert r[i].id == x;
    }
  }

  // Add_child keeps the table well formed and loses nothing.
  lemma AddEdgeGrows(t: Table, maxN: nat, a: u8, b: u8)
    ensures var r := AddEdge(t, maxN, a, b);
            && Grows(t, r)
            && (|r| > |t| ==> r[|t|].id == a && |r| == |t| + 1)
            && (WellFormed(t, maxN) ==> WellFormed(r, maxN))
  {
    var i, r := Find(t, a), AddEdge(t, maxN, a, b);
    if WellFormed(t, maxN) && i < |r| {
      assert Distinct(r[i].children);
    }
  }

  // Add_child adds its edge, or nothing when the arrays are full.
  lemma AddEdgeEdges(t: Table, maxN: nat, a: u8, b: u8)
    ensures Edges(AddEdge(t, maxN, a, b)) == Edges(t) + (if Accepts(t, maxN, a, b) then {(a, b)} else {})
  {
    var r := AddEdge(t, maxN, a, b);
    forall e: Edge ensures e in Edges(r) <==> e in Edges(t) + (if Accepts(t, maxN, a, b) then {(a, b)} else {}) {
      HasEdgeAfter(t, maxN, a, b, e.0, e.1);
      assert e == (e.0, e.1);
    }
  }

  lemma AddEdgeIds(t: Table, maxN: nat, a: u8, b: u8)
    ensures Ids(AddEdge(t, maxN, a, b)) == Ids(t) + (if Accepts(t, maxN, a, b) then {a} else {})
  {
    var i, r := Find(t, a), AddEdge(t, maxN, a, b);
    AddEdgeGrows(t, maxN, a, b);
    GrowsIds(t, r);
    if Accepts(t, maxN, a, b) {
      assert r[i].id == a;
    }
    forall x | x in Ids(r) ensures x in Ids(t) + (if Accepts(t, maxN, a, b) then {a} else {}) {
      var k :| 0 <= k < |r| && r[k].id == x;
      if k < |t| { assert t[k].id == x; }
    }
  }

  // ---------- Merging a received table ----------

  function ChildEdges(p: u8, cs: seq<u8>): (r: seq<Edge>)
    ensures |r| == |cs| && forall i :: 0 <= i < |cs| ==> r[i] == (p, cs[i])
  {
    seq(|cs|, i requires 0 <= i < |cs| => (p, cs[i]))
  }

  // Every edge of a table, in the order of the two nested merge loops.
  function EdgeList(t: Table): (r: seq<Edge>) {
    if t == [] then [] else EdgeList(t[..|t| - 1]) + ChildEdges(t[|t| - 1].id, t[|t| - 1].children)
  }

  lemma EdgeListIsEdges(t: Table)
    ensures forall e :: e in EdgeList(t) <==> e in Edges(t)
  {
    if t != [] {
      var last := t[|t| - 1];
      EdgeListIsEdges(t[..|t| - 1]);
      forall e: Edge ensures e in ChildEdges(last.id, last.children) <==> e.0 == last.id && e.1 in last.children {
        if e.1 in last.children {
          var k :| 0 <= k < |last.children| && last.children[k] == e.1;
          assert e == (e.0, e.1);
          assert ChildEdges(last.id, last.children)[k] == (last.id, e.1);
        }
      }
      EdgesSnoc(t);
      assert forall e :: e in EdgeList(t) <==> e in Edges(t) by {
        forall e: Edge ensures e in EdgeList(t) <==> e in Edges(t) { assert e == (e.0, e.1); }
      }
    }
  }

  function AddEdges(t: Table, maxN: nat, es: seq<Edge>): Table {
    if es == [] then t
    else var r := AddEdges(t, maxN, es[..|es| - 1]); AddEdge(r, maxN, es[|es| - 1].0, es[|es| - 1].1)
  }

  // update_routing_table: the sender becomes a child, then its edges are added.
  function MergeList(me: u8, recv: Table): seq<Edge>
    requires recv != []
  {
    [(me, recv[0].id)] + EdgeList(recv)
  }

  ghost function EdgeSet(es: seq<Edge>): set<Edge> { set e | e in es }

  lemma EdgeSetSnoc(es: seq<Edge>)
    requires es != []
    ensures EdgeSet(es) == EdgeSet(es[..|es| - 1]) + {es[|es| - 1]}
    ensures Sources(EdgeSet(es)) == Sources(EdgeSet(es[..|es| - 1])) + {es[|es| - 1].0}
  {
    var front, e := es[..|es| - 1], es[|es| - 1];
    assert es == front + [e];
    assert EdgeSet(es) == EdgeSet(front) + {e};
    forall x | x in Sources(EdgeSet(es)) ensures x in Sources(EdgeSet(front)) + {e.0} {
      var e' :| e' in EdgeSet(es) && e'.0 == x;
      assert e' in EdgeSet(front) || e' == e;
    }
    assert e in EdgeSet(es);
  }

  // No sequence of additions loses anything or makes anything up.
  lemma {:induction false} AddEdgesGrows(t: Table, maxN: nat, es: seq<Edge>)
    requires WellFormed(t, maxN)
    ensures WellFormed(AddEdges(t, maxN, es), maxN) && Grows(t, AddEdges(t, maxN, es))
    ensures t == [] && es != [] && maxN > 0 ==> AddEdges(t, maxN, es) != [] && AddEdges(t, maxN, es)[0].id == es[0].0
  {
    if es != [] {
      var front, e := es[..|es| - 1], es[|es| - 1];
      var mid := AddEdges(t, maxN, front);
      AddEdgesGrows(t, maxN, front);
      AddEdgeGrows(mid, maxN, e.0, e.1);
      GrowsTransitive(t, mid, AddEdges(t, maxN, es));
    }
  }

  lemma {:induction false} AddEdgesBounds(t: Table, maxN: nat, es: seq<Edge>)
    ensures var r := AddEdges(t, maxN, es);
            && Edges(t) <= Edges(r) <= Edges(t) + EdgeSet(es)
            && Ids(r) <= Ids(t) + Sources(EdgeSet(es))
  {
    if es != [] {
      var front, e := es[..|es| - 1], es[|es| - 1];
      var mid := AddEdges(t, maxN, front);
      AddEdgesBounds(t, maxN, front);
      AddEdgeEdges(mid, maxN, e.0, e.1);
      AddEdgeIds(mid, maxN, e.0, e.1);
      EdgeSetSnoc(es);
      assert e == (e.0, e.1);
    }
  }

  ghost function Sources(E: set<Edge>): set<u8> { set e | e in E :: e.0 }

  ghost function Targets(E: set<Edge>, p: u8): set<u8> { set e | e in E && e.0 == p :: e.1 }

  // The limits of the array, as a condition on the graph alone.
  ghost predicate Fits(ids: set<u8>, E: set<Edge>, maxN: nat) {
    && |ids + Sources(E)| <= maxN
    && forall p :: p in Sources(E) ==> |Targets(E, p)| <= MAX_CHILDREN
  }

  ghost function IdSeq(t: Table): (r: seq<u8>)
    ensures |r| == |t| && forall i :: 0 <= i < |t| ==> r[i] == t[i].id
  {
    seq(|t|, i requires 0 <= i < |t| => t[i].id)
  }

  lemma IdsSize(t: Table, maxN: nat)
    requires WellFormed(t, maxN)
    ensures |Ids(t)| == |t|
  {
    AsSetSize(IdSeq(t));
    assert AsSet(IdSeq(t)) == Ids(t) by {
      forall x | x in Ids(t) ensures x in IdSeq(t) {
        var i :| 0 <= i < |t| && t[i].id == x;
        assert IdSeq(t)[i] == x;
      }
    }
  }

  lemma ChildrenAreTargets(t: Table, maxN: nat, k: nat)
    requires WellFormed(t, maxN) && k < |t|
    ensures Targets(Edges(t), t[k].id) == AsSet(t[k].children)
    ensures |Targets(Edges(t), t[k].id)| == |t[k].children|
  {
    var p := t[k].id;
    forall x | x in Targets(Edges(t), p) ensures x in t[k].children {
      assert (p, x) in Edges(t) by { var e :| e in Edges(t) && e.0 == p && e.1 == x; assert e == (p, x); }
      var i :| 0 <= i < |t| && t[i].id == p && x in t[i].children;
    }
    forall x | x in t[k].children ensures x in Targets(Edges(t), p) {
      assert HasEdge(t, p, x);
      assert (p, x) in Edges(t);
    }
    assert Targets(Edges(t), p) == AsSet(t[k].children);
    AsSetSize(t[k].children);
  }

  // A well-formed table always fits.
  lemma WellFormedFits(t: Table, maxN: nat)
    requires WellFormed(t, maxN)
    ensures Sources(Edges(t)) <= Ids(t)
    ensures Fits(Ids(t), Edges(t), maxN)
  {
    IdsSize(t, maxN);
    forall p | p in Sources(Edges(t))
      ensures p in Ids(t) && |Targets(Edges(t), p)| <= MAX_CHILDREN
    {
      var e :| e in Edges(t) && e.0 == p;
      assert e == (e.0, e.1);
      var k :| 0 <= k < |t| && t[k].id == e.0 && e.1 in t[k].children;
      ChildrenAreTargets(t, maxN, k);
    }
    assert Ids(t) + Sources(Edges(t)) == Ids(t);
  }

  lemma TargetsGrow(t: Table, E: set<Edge>, p: u8, c: u8)
    requires Edges(t) <= E && (p, c) in E
    ensures Targets(Edges(t), p) + {c} <= Targets(E, p)
  {
    forall x | x in Targets(Edges(t), p) + {c} ensures x in Targets(E, p) {
      if x == c {
        assert (p, c).1 in Targets(E, p);
      } else {
        var e :| e in Edges(t) && e.0 == p && e.1 == x;
        assert e in E;
      }
    }
  }

  // While there is room in the whole, the next edge is taken.
  lemma FitsAccepts(t: Table, maxN: nat, ids: set<u8>, E: set<Edge>, p: u8, c: u8)
    requires WellFormed(t, maxN) && Ids(t) <= ids + Sources(E) && Edges(t) <= E
    requires (p, c) in E && Fits(ids, E, maxN)
    ensures Accepts(t, maxN, p, c)
  {
    var i := Find(t, p);
    assert (p, c).0 in Sources(E);
    if i == |t| {
      IdsSize(t, maxN);
      assert p !in Ids(t);
      SubsetSize(Ids(t) + {p}, ids + Sources(E));
    } else if c !in t[i].children {
      hide Edges, Ids, Find, Sources;
      ChildrenAreTargets(t, maxN, i);
      TargetsGrow(t, E, p, c);
      SubsetSize(Targets(Edges(t), p) + {c}, Targets(E, p));
    }
  }

  // Merging is set union exactly when the union fits the array; what fits is
  // a condition on the old table and the set of new edges alone.
  lemma {:induction false} MergeIsUnion(t: Table, maxN: nat, es: seq<Edge>)
    requires WellFormed(t, maxN)
    ensures Edges(AddEdges(t, maxN, es)) == Edges(t) + EdgeSet(es)
            <==> Fits(Ids(t), Edges(t) + EdgeSet(es), maxN)
  {
    var E, r := Edges(t) + EdgeSet(es), AddEdges(t, maxN, es);
    AddEdgesBounds(t, maxN, es);
    if Edges(r) == E {
      AddEdgesGrows(t, maxN, es);
      WellFormedFits(r, maxN);
      GrowsIds(t, r);
      SubsetSize(Ids(t) + Sources(E), Ids(r) + Sources(Edges(r)));
    }
    if Fits(Ids(t), E, maxN) {
      WellFormedFits(t, maxN);
      MergeTakesAll(t, maxN, es, E);
    }
  }

  lemma TakesNext(t: Table, maxN: nat, ids: set<u8>, E: set<Edge>, e: Edge)
    requires WellFormed(t, maxN) && Ids(t) <= ids + Sources(E) && Edges(t) <= E
    requires e in E && Fits(ids, E, maxN)
    ensures Edges(AddEdge(t, maxN, e.0, e.1)) == Edges(t) + {e}
  {
    assert e == (e.0, e.1);
    FitsAccepts(t, maxN, ids, E, e.0, e.1);
    AddEdgeEdges(t, maxN, e.0, e.1);
  }

  lemma SourcesMonotone(E: set<Edge>, F: set<Edge>)
    requires E <= F
    ensures Sources(E) <= Sources(F)
  {
    forall x | x in Sources(E) ensures x in Sources(F) {
      var e :| e in E && e.0 == x;
      assert e in F;
    }
  }

  lemma {:induction false} MergeTakesAll(t: Table, maxN: nat, es: seq<Edge>, E: set<Edge>)
    requires WellFormed(t, maxN) && Edges(t) + EdgeSet(es) <= E && Fits(Ids(t), E, maxN)
    ensures Edges(AddEdges(t, maxN, es)) == Edges(t) + EdgeSet(es)
  {
    if es != [] {
      var front, e := es[..|es| - 1], es[|es| - 1];
      var mid := AddEdges(t, maxN, front);
      assert EdgeSet(es) == EdgeSet(front) + {e} by { EdgeSetSnoc(es); }
      assert Edges(mid) == Edges(t) + EdgeSet(front) by { MergeTakesAll(t, maxN, front, E); }
      assert WellFormed(mid, maxN) by { AddEdgesGrows(t, maxN, front); }
      assert Ids(mid) <= Ids(t) + Sources(E) by {
        AddEdgesBounds(t, maxN, front);
        SourcesMonotone(EdgeSet(front), E);
      }
      TakesNext(mid, maxN, Ids(t), E, e);
    } else {
      assert EdgeSet(es) == {};
    }
  }

  lemma AddEdgesConcat(t: Table, maxN: nat, es: seq<Edge>, fs: seq<Edge>)
    ensures AddEdges(t, maxN, es + fs) == AddEdges(AddEdges(t, maxN, es), maxN, fs)
  {
    if fs == [] {
      assert es + fs == es;
    } else {
      assert (es + fs)[..|es + fs| - 1] == es + fs[..|fs| - 1];
    }
  }

  // No room for another child of p.
  ghost predicate FullFor(t: Table, maxN: nat, p: u8) {
    if Find(t, p) < |t| then |t[Find(t, p)].children| >= MAX_CHILDREN else |t| >= maxN
  }

  // Additions are served in order, and an edge is only refused where there is
  // no room for it, then and ever after.
  lemma {:induction false} AddedUnlessFull(t: Table, maxN: nat, es: seq<Edge>, k: nat)
    requires WellFormed(t, maxN) && k < |es|
    ensures es[k] in Edges(AddEdges(t, maxN, es)) <==> Accepts(AddEdges(t, maxN, es[..k]), maxN, es[k].0, es[k].1)
    ensures es[k] !in Edges(AddEdges(t, maxN, es)) ==> FullFor(AddEdges(t, maxN, es), maxN, es[k].0)
    decreases |es|
  {
    hide Find, Edges, Accepts, WellFormed, FullFor;
    var front, last := es[..|es| - 1], es[|es| - 1];
    var mid := AddEdges(t, maxN, front);
    assert es[k] == (es[k].0, es[k].1);
    AddEdgesGrows(t, maxN, front);
    AddEdgeEdges(mid, maxN, last.0, last.1);
    RefusedIsFull(mid, maxN, last.0, last.1);
    if k < |front| {
      assert front[k] == es[k] && front[..k] == es[..k];
      AddedUnlessFull(t, maxN, front, k);
      if es[k] !in Edges(mid) { FullStaysFull(mid, maxN, last.0, last.1, es[k].0, es[k].1); }
    } else {
      assert es[..k] == front;
      AcceptedIfThere(mid, maxN, last.0, last.1);
    }
  }

  lemma RefusedIsFull(t: Table, maxN: nat, p: u8, c: u8)
    ensures !Accepts(t, maxN, p, c) ==> FullFor(AddEdge(t, maxN, p, c), maxN, p)
  {}

  lemma AcceptedIfThere(t: Table, maxN: nat, p: u8, c: u8)
    requires WellFormed(t, maxN)
    ensures (p, c) in Edges(t) ==> Accepts(t, maxN, p, c)
  {
    if (p, c) in Edges(t) {
      var i :| 0 <= i < |t| && t[i].id == p && c in t[i].children;
      assert i == Find(t, p);
    }
  }

  lemma ChildIsEdge(t: Table, k: nat, c: u8)
    requires k < |t|
    ensures c in t[k].children ==> (t[k].id, c) in Edges(t)
  {
    assert c in t[k].children ==> HasEdge(t, t[k].id, c);
  }

  lemma FullStaysFull(t: Table, maxN: nat, a: u8, b: u8, p: u8, c: u8)
    requires WellFormed(t, maxN) && FullFor(t, maxN, p) && (p, c) !in Edges(t)
    ensures (p, c) !in Edges(AddEdge(t, maxN, a, b)) && FullFor(AddEdge(t, maxN, a, b), maxN, p)
  {
    var r := AddEdge(t, maxN, a, b);
    AddEdgeEdges(t, maxN, a, b);
    AddEdgeGrows(t, maxN, a, b);
    var k := Find(t, p);
    if k < |t| {
      ChildIsEdge(t, k, c);
      forall i | 0 <= i < k ensures r[i].id != p { assert r[i].id == t[i].id; }
      FindIs(r, p, k);
    }
  }

  // What one message adds; an empty table is ignored.
  function Learned(me: u8, recv: Table): seq<Edge> {
    if recv == [] then [] else MergeList(me, recv)
  }

  function AllLearned(me: u8, recvs: seq<Table>): seq<Edge> {
    if recvs == [] then [] else Learned(me, recvs[0]) + AllLearned(me, recvs[1..])
  }

  // One merge after the other.
  function MergeAll(t: Table, maxN: nat, me: u8, recvs: seq<Table>): Table
    decreases |recvs|
  {
    if recvs == [] then t else MergeAll(AddEdges(t, maxN, Learned(me, recvs[0])), maxN, me, recvs[1..])
  }

  lemma {:induction false} MergeAllIsFlat(t: Table, maxN: nat, me: u8, recvs: seq<Table>)
    ensures MergeAll(t, maxN, me, recvs) == AddEdges(t, maxN, AllLearned(me, recvs))
    decreases |recvs|
  {
    hide Learned, AddEdges;
    if recvs == [] {
      AddNothing(t, maxN);
    } else {
      MergeAllIsFlat(AddEdges(t, maxN, Learned(me, recvs[0])), maxN, me, recvs[1..]);
      AddEdgesConcat(t, maxN, Learned(me, recvs[0]), AllLearned(me, recvs[1..]));
    }
  }

  lemma AddNothing(t: Table, maxN: nat)
    ensures AddEdges(t, maxN, []) == t
  {}

  lemma {:induction false} AllLearnedEdges(me: u8, recvs: seq<Table>, e: Edge)
    ensures e in AllLearned(me, recvs) <==> exists r :: r in recvs && e in Learned(me, r)
    decreases |recvs|
  {
    hide Learned;
    if recvs != [] {
      AllLearnedEdges(me, recvs[1..], e);
      assert recvs == [recvs[0]] + recvs[1..];
    }
  }

  // The same messages, in any order and any number of times, give the same
  // graph, provided all they say fits.
  lemma MessagesAnyOrder(t: Table, maxN: nat, me: u8, recvs: seq<Table>, recvs': seq<Table>)
    requires WellFormed(t, maxN) && forall r :: r in recvs <==> r in recvs'
    requires Fits(Ids(t), Edges(t) + EdgeSet(AllLearned(me, recvs)), maxN)
    ensures Edges(MergeAll(t, maxN, me, recvs)) == Edges(MergeAll(t, maxN, me, recvs'))
    ensures Edges(MergeAll(t, maxN, me, recvs)) == Edges(t) + EdgeSet(AllLearned(me, recvs))
  {
    hide MergeAll, AllLearned, Learned, AddEdges, WellFormed, Fits, Edges, Ids;
    MergeAllIsFlat(t, maxN, me, recvs);
    MergeAllIsFlat(t, maxN, me, recvs');
    forall e: Edge ensures e in AllLearned(me, recvs) <==> e in AllLearned(me, recvs') {
      AllLearnedEdges(me, recvs, e);
      AllLearnedEdges(me, recvs', e);
    }
    assert EdgeSet(AllLearned(me, recvs)) == EdgeSet(AllLearned(me, recvs'));
    MergeIsUnion(t, maxN, AllLearned(me, recvs));
    MergeIsUnion(t, maxN, AllLearned(me, recvs'));
  }
}
