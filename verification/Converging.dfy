/**
 Every tree that the arrays and the message buffer can hold is reached: a run
 in which each mote hears its parent, and then reports to it, from the root
 down and from the leaves up.
 */
module Converging {
  import opened CInts
  import opened TreeTable
  import opened TextSize
  import opened PacketText
  import opened MoteModel
  import opened Network
  import opened FixedTree
  import opened Convergence
  import opened ParentLoops
  import opened BestPath

  // ---------- The limits ----------

  // Each tree link is usable: path[n] is the strength of the path from n.
  ghost predicate Usable(t: Tree, path: map<u8, i16>) {
    && path.Keys == t.ids && ROOT in path && path[ROOT] == 0
    && forall n :: n in t.up && n in path && t.up[n] in path ==>
         -128 <= path[n] as int - path[t.up[n]] as int < 0 && path[n] > NO_PATH
  }

  ghost function TreeEdges(t: Tree): set<Edge> { set c | c in t.up :: (t.up[c], c) }

  ghost function SubtreeEdges(t: Tree, n: u8): set<Edge>
    requires t.Valid()
  {
    set c | c in t.up && Above(t, n, t.up[c]) :: (t.up[c], c)
  }

  // At most 20 motes that are the root or have children, none with more than 8.
  ghost predicate ArraysFit(t: Tree) { Fits({ROOT}, TreeEdges(t), MAX_TREE_NODES) }

  // The text of each subtree, whatever its order, fits the message buffer.
  ghost predicate TextsFit(t: Tree)
    requires t.Valid()
  {
    forall n :: n in t.up ==> TextLength(t, n) <= TREE_SERIAL_BUF as nat
  }

  ghost function TextLength(t: Tree, n: u8): nat
    requires t.Valid()
  {
    Width(Sources(SubtreeEdges(t, n))) + Width(AllTargets(SubtreeEdges(t, n)))
  }

  // ---------- Extending a run ----------

  lemma ExtendFixed(t: Tree, acts: seq<Action>, a: Action)
    requires FixedRun(t, acts) && ParentsFollow(t, Step(After(t.ids, acts), a))
    ensures FixedRun(t, acts + [a]) && After(t.ids, acts + [a]) == Step(After(t.ids, acts), a)
  {
    hide After, Step, ParentsFollow;
    AfterSnoc(t.ids, acts, a);
    forall k | 0 <= k <= |acts + [a]| ensures ParentsFollow(t, After(t.ids, (acts + [a])[..k])) {
      if k <= |acts| {
        assert (acts + [a])[..k] == acts[..k];
      } else {
        assert (acts + [a])[..k] == acts + [a];
      }
    }
  }

  // Steps that select nothing.
  lemma SameParents(t: Tree, s: Net, a: Action)
    requires ParentsFollow(t, s) && (a.SendBeacon? || a.SendTable? || a.ReceiveTable? || a.Merge?)
    ensures ParentsFollow(t, Step(s, a))
  {
    hide TablePayload, MergeList;
  }

  // ---------- Down: every mote hears its parent ----------

  function JoinedMote(t: Tree, path: map<u8, i16>, n: u8): Mote
    requires n in t.up && n in path && t.up[n] in path && -128 <= path[n] as int - path[t.up[n]] as int < 0
  {
    Leaf(n, t.up[n], path[n], [Candidate(t.up[n], path[n], path[n] - path[t.up[n]])])
  }

  ghost predicate Joined(t: Tree, path: map<u8, i16>, s: Net, joined: set<u8>)
    requires t.Valid() && Usable(t, path)
  {
    && s.motes.Keys == t.ids && ROOT in joined && joined <= t.ids
    && s.motes[ROOT] == Init(ROOT)
    && (forall n :: n in joined && n in t.up ==> t.up[n] in joined && s.motes[n] == JoinedMote(t, path, n))
    && (forall n :: n in t.ids && n !in joined ==> s.motes[n] == Init(n))
  }

  lemma {:induction false} NextToJoin(t: Tree, joined: set<u8>, n: u8) returns (k: u8)
    requires t.Valid() && ROOT in joined && n in t.ids && n !in joined
    ensures k in t.up && k !in joined && t.up[k] in joined
    decreases t.depth[n]
  {
    if t.up[n] in joined { k := n; } else { k := NextToJoin(t, joined, t.up[n]); }
  }

  lemma JoinedMore(t: Tree, path: map<u8, i16>, s: Net, joined: set<u8>, n: u8, s': Net)
    requires t.Valid() && Usable(t, path) && Joined(t, path, s, joined)
    requires n in t.up && n !in joined && t.up[n] in joined
    requires s'.motes == s.motes[n := JoinedMote(t, path, n)]
    ensures Joined(t, path, s', joined + {n})
  {
    hide JoinedMote, Usable;
  }

  // The parent beacons and n hears it.
  lemma JoinOne(t: Tree, path: map<u8, i16>, acts: seq<Action>, joined: set<u8>, n: u8) returns (acts': seq<Action>)
    requires FixedRun(t, acts) && Usable(t, path) && Joined(t, path, After(t.ids, acts), joined)
    requires n in t.up && n !in joined && t.up[n] in joined
    ensures FixedRun(t, acts') && Joined(t, path, After(t.ids, acts'), joined + {n})
  {
    hide After, FixedRun, Step, Joined, Usable, TreeInv, JoinedMote, ParentsFollow, Leaf;
    FixedNow(t, acts);
    var s0, p := After(t.ids, acts), t.up[n];
    JoinFacts(t, path, s0, joined, n);
    var link: i8 := path[n] - path[p];
    var a1, a2 := SendBeacon(p), HearBeacon(n, p, path[p], link);
    DoBeacon(s0, p, path[p]);
    var s1 := Step(s0, a1);
    SameParents(t, s0, a1);
    ExtendFixed(t, acts, a1);
    DoHear(s1, n, p, path[p], link);
    var s2 := Step(s1, a2);
    JoinedFollows(t, path, s1, n, s2);
    ExtendFixed(t, acts + [a1], a2);
    JoinedMore(t, path, s0, joined, n, s2);
    acts' := acts + [a1] + [a2];
  }

  lemma JoinFacts(t: Tree, path: map<u8, i16>, s: Net, joined: set<u8>, n: u8)
    requires t.Valid() && Usable(t, path) && Joined(t, path, s, joined)
    requires n in t.up && n !in joined && t.up[n] in joined
    ensures var p := t.up[n];
            && n in path && p in path && -128 <= path[n] as int - path[p] as int < 0 && NO_PATH < path[n] < 0
            && n in s.motes && p in s.motes && p != n && n != ROOT && s.motes[n] == Init(n) && s.motes[p].id == p
            && path[p] == (if p == ROOT then 0 else s.motes[p].metric)
    ensures JoinedMote(t, path, n) ==
            Leaf(n, t.up[n], path[n], [Candidate(t.up[n], path[n], path[n] - path[t.up[n]])])
  {
    PathNegative(t, path, n);
  }

  lemma {:induction false} PathNegative(t: Tree, path: map<u8, i16>, n: u8)
    requires t.Valid() && Usable(t, path) && n in t.ids
    ensures n in path && path[n] <= 0 && (n != ROOT ==> path[n] < 0)
    decreases t.depth[n]
  {
    if n != ROOT { PathNegative(t, path, t.up[n]); }
  }

  lemma JoinedFollows(t: Tree, path: map<u8, i16>, s: Net, n: u8, s': Net)
    requires t.Valid() && ParentsFollow(t, s) && n in t.up && n in path && t.up[n] in path
    requires -128 <= path[n] as int - path[t.up[n]] as int < 0
    requires s'.motes == s.motes[n := JoinedMote(t, path, n)]
    ensures ParentsFollow(t, s')
  {}

  lemma FixedNow(t: Tree, acts: seq<Action>)
    requires FixedRun(t, acts)
    ensures t.Valid() && ParentsFollow(t, After(t.ids, acts)) && TreeInv(t, After(t.ids, acts))
  {
    hide TreeInv, After, ParentsFollow;
    FixedTreeInv(t, acts);
    FixedPrefix(t, acts, |acts|);
    assert acts[..|acts|] == acts;
  }

  lemma {:induction false} JoinAll(t: Tree, path: map<u8, i16>, acts: seq<Action>, joined: set<u8>)
    returns (acts': seq<Action>)
    requires FixedRun(t, acts) && Usable(t, path) && Joined(t, path, After(t.ids, acts), joined)
    ensures FixedRun(t, acts') && Joined(t, path, After(t.ids, acts'), t.ids)
    decreases |t.ids - joined|
  {
    hide After, FixedRun, Usable, Joined, TreeInv, ParentsFollow;
    if joined == t.ids {
      acts' := acts;
    } else {
      FixedNow(t, acts);
      JoinedBounds(t, path, After(t.ids, acts), joined);
      var m :| m in t.ids && m !in joined;
      var n := NextToJoin(t, joined, m);
      var more := JoinOne(t, path, acts, joined, n);
      SubsetShrinks(t.ids, joined, n);
      acts' := JoinAll(t, path, more, joined + {n});
    }
  }

  lemma JoinedBounds(t: Tree, path: map<u8, i16>, s: Net, joined: set<u8>)
    requires t.Valid() && Usable(t, path) && Joined(t, path, s, joined)
    ensures ROOT in joined && joined <= t.ids
  {}

  lemma SubsetShrinks(all: set<u8>, done: set<u8>, n: u8)
    requires n in all && n !in done
    ensures |all - (done + {n})| < |all - done|
  {
    assert all - done == (all - (done + {n})) + {n};
  }

  lemma BootJoined(t: Tree, path: map<u8, i16>)
    requires t.Valid() && Usable(t, path)
    ensures FixedRun(t, []) && Joined(t, path, After(t.ids, []), {ROOT})
  {
    var none: seq<Action> := [];
    assert none[..0] == none;
  }

  // ---------- Up: every mote reports to its parent ----------

  // Only the root may have an entry without children, its own.
  ghost predicate Tidy(n: u8, tab: Table) {
    forall i :: 0 <= i < |tab| && tab[i].children == [] ==> n == ROOT && tab[i].id == ROOT
  }

  // Those that have reported, and everything they know, are known above.
  ghost predicate Reported(t: Tree, path: map<u8, i16>, s: Net, done: set<u8>)
    requires t.Valid() && Usable(t, path)
  {
    && s.motes.Keys == t.ids && done <= t.up.Keys
    && (forall n :: n in t.up ==> s.motes[n].parent == t.up[n] && s.motes[n].metric == path[n])
    && (forall n :: n in t.ids ==> Tidy(n, s.motes[n].table))
    && (forall d :: d in t.up && t.up[d] in done ==> d in done)
    && (forall c, d :: c in done && d in t.up && Above(t, c, d) ==> HasEdge(s.motes[t.up[c]].table, t.up[d], d))
  }

  ghost function Deeper(t: Tree, c: u8): set<u8>
    requires t.Valid() && c in t.ids
  {
    set x | x in t.ids && t.depth[x] > t.depth[c]
  }

  lemma {:induction false} NextToReport(t: Tree, done: set<u8>, c: u8) returns (k: u8)
    requires t.Valid() && c in t.up && c !in done
    ensures k in t.up && k !in done && forall d :: d in t.up && t.up[d] == k ==> d in done
    decreases |Deeper(t, c)|
  {
    if d :| d in t.up && t.up[d] == c && d !in done {
      SubsetSize(Deeper(t, d) + {d}, Deeper(t, c));
      k := NextToReport(t, done, d);
    } else {
      k := c;
    }
  }

  // Once its children have reported, a mote knows its whole subtree.
  lemma KnowsAll(t: Tree, path: map<u8, i16>, s: Net, done: set<u8>, c: u8)
    requires t.Valid() && Usable(t, path) && TreeInv(t, s) && Reported(t, path, s, done)
    requires c in t.ids && forall d :: d in t.up && t.up[d] == c ==> d in done
    ensures Edges(s.motes[c].table) == SubtreeEdges(t, c)
  {
    hide Inv, ChildKnows, ControlFollows, Usable, Tidy, Above;
    var tab := s.motes[c].table;
    assert KnowsOwnSubtree(t, c, tab);
    forall e: Edge | e in Edges(tab) ensures e in SubtreeEdges(t, c) {
      assert e == (e.0, e.1) && HasEdge(tab, e.0, e.1);
    }
    forall d | d in t.up && Above(t, c, t.up[d]) ensures (t.up[d], d) in Edges(tab) {
      AboveChild(t, c, d);
      var k := ChildToward(t, c, d);
      assert HasEdge(s.motes[t.up[k]].table, t.up[d], d);
    }
  }

  lemma AboveChild(t: Tree, c: u8, d: u8)
    requires t.Valid() && d in t.up && Above(t, c, t.up[d])
    ensures Above(t, c, d) && c != d
  {
    AboveDepth(t, c, t.up[d]);
  }

  // Such a table lists everyone once, so its text has the length of the subtree's.
  lemma TreeTableListsOnce(t: Tree, n: u8, tab: Table)
    requires t.Valid() && KnowsOwnSubtree(t, n, tab) && WellFormed(tab, MAX_TREE_NODES) && Tidy(n, tab) && n != ROOT
    ensures ListsOnce(tab)
  {
    hide KnowsOwnSubtree;
    forall i, j | 0 <= i < j < |tab| ensures AsSet(tab[i].children) !! AsSet(tab[j].children) {
      forall x: u8 ensures !(x in tab[i].children && x in tab[j].children) {
        if x in tab[i].children && x in tab[j].children { OneParent(t, n, tab, tab[i].id, tab[j].id, x); }
      }
    }
  }

  lemma OneParent(t: Tree, n: u8, tab: Table, p: u8, q: u8, x: u8)
    requires t.Valid() && KnowsOwnSubtree(t, n, tab) && HasEdge(tab, p, x) && HasEdge(tab, q, x)
    ensures p == q
  {
    hide Above, HasEdge;
  }

  // ---------- One report ----------

  lemma FitsLess(ids: set<u8>, E: set<Edge>, ids': set<u8>, E': set<Edge>, maxN: nat)
    requires Fits(ids', E', maxN) && E <= E' && ids <= ids' + Sources(E')
    ensures Fits(ids, E, maxN)
  {
    SourcesMonotone(E, E');
    SubsetSize(ids + Sources(E), ids' + Sources(E'));
    forall p | p in Sources(E) ensures |Targets(E, p)| <= MAX_CHILDREN {
      forall x | x in Targets(E, p) ensures x in Targets(E', p) {
        var e :| e in E && e.0 == p && e.1 == x;
        assert e in E';
      }
      SubsetSize(Targets(E, p), Targets(E', p));
    }
  }

  lemma TidyIds(t: Tree, n: u8, tab: Table)
    requires t.Valid() && KnowsOwnSubtree(t, n, tab) && Tidy(n, tab)
    ensures Ids(tab) <= {ROOT} + Sources(TreeEdges(t)) && Edges(tab) <= TreeEdges(t)
  {
    hide Above;
    forall e: Edge | e in Edges(tab) ensures e in TreeEdges(t) {
      assert e == (e.0, e.1) && HasEdge(tab, e.0, e.1);
    }
    forall x | x in Ids(tab) && x != ROOT ensures x in Sources(TreeEdges(t)) {
      var i :| 0 <= i < |tab| && tab[i].id == x;
      assert HasEdge(tab, x, tab[i].children[0]);
      var e := (x, tab[i].children[0]);
      assert e in Edges(tab) && e.0 == x;
    }
  }

  lemma AddEdgeTidy(n: u8, tab: Table, p: u8, c: u8)
    requires Tidy(n, tab)
    ensures Tidy(n, AddEdge(tab, MAX_TREE_NODES, p, c))
  {}

  lemma {:induction false} AddEdgesTidy(n: u8, tab: Table, es: seq<Edge>)
    requires Tidy(n, tab)
    ensures Tidy(n, AddEdges(tab, MAX_TREE_NODES, es))
  {
    if es != [] {
      var front, e := es[..|es| - 1], es[|es| - 1];
      AddEdgesTidy(n, tab, front);
      AddEdgeTidy(n, AddEdges(tab, MAX_TREE_NODES, front), e.0, e.1);
    }
  }

  // The message arrives whole and the parent has room for all of it.
  lemma ReportLearned(t: Tree, s: Net, c: u8)
    requires TreeInv(t, s) && ArraysFit(t) && TextsFit(t) && c in t.up
    requires Tidy(c, s.motes[c].table) && Tidy(t.up[c], s.motes[t.up[c]].table)
    requires Edges(s.motes[c].table) == SubtreeEdges(t, c)
    ensures var m, child := s.motes[t.up[c]], s.motes[c];
            && SentTable(child) != []
            && Edges(AddEdges(m.table, MAX_TREE_NODES, MergeList(m.id, SentTable(child))))
               == Edges(m.table) + {(t.up[c], c)} + SubtreeEdges(t, c)
  {
    hide Inv, Above, ChildKnows, ControlFollows, Fits, SentTable, AddEdges, EdgeList, Edges, Ids;
    hide SubtreeEdges, KnowsOwnSubtree, WellFormed;
    var n := t.up[c];
    var m, child := s.motes[n], s.motes[c];
    TreeInvMote(t, s, c);
    TreeInvMote(t, s, n);
    TreeTableListsOnce(t, c, child.table);
    TextLengthOfEdges(child.table);
    assert child.table[..|child.table|] == child.table;
    MessageEdges(m, child, |child.table|);
    var es := MergeList(m.id, SentTable(child));
    var all := Edges(m.table) + EdgeSet(es);
    assert all == Edges(m.table) + {(n, c)} + SubtreeEdges(t, c);
    TidyIds(t, n, m.table);
    TidyIds(t, c, child.table);
    FitsLess(Ids(m.table), all, {ROOT}, TreeEdges(t), MAX_TREE_NODES);
    MergeIsUnion(m.table, MAX_TREE_NODES, es);
  }

  lemma TreeInvMote(t: Tree, s: Net, n: u8)
    requires TreeInv(t, s) && n in t.ids
    ensures t.Valid() && n in s.motes && s.motes[n].id == n && KnowsOwnSubtree(t, n, s.motes[n].table)
    ensures TableOk(s.motes[n]) && WellFormed(s.motes[n].table, MAX_TREE_NODES)
  {
    assert MoteOk(t.ids, s.sent, n, s.motes[n]);
  }

  // The three steps.
  lemma Exchange(t: Tree, acts: seq<Action>, c: u8, recv: Table) returns (acts': seq<Action>, m: Mote)
    requires FixedRun(t, acts) && c in t.up && After(t.ids, acts).motes.Keys == t.ids && t.up[c] in t.ids && c in t.ids
    requires var child := After(t.ids, acts).motes[c];
             child.parent == t.up[c] != NULL_ID && child.id == c && recv == SentTable(child) != []
    ensures FixedRun(t, acts') && After(t.ids, acts').motes == After(t.ids, acts).motes[t.up[c] := m]
    ensures var m0 := After(t.ids, acts).motes[t.up[c]];
            m == m0.(slot := m.slot, table := AddEdges(m0.table, MAX_TREE_NODES, MergeList(m0.id, recv)))
  {
    hide After, FixedRun, Step, TreeInv, TablePayload, Parsed, AddEdges, MergeList, ParentsFollow, Tree.Valid;
    FixedNow(t, acts);
    var s0, n := After(t.ids, acts), t.up[c];
    var payload := TablePayload(s0.motes[c]);
    SentIsParsed(s0.motes[c]);
    var a1, a2, a3 := SendTable(c), ReceiveTable(n, c, payload), Merge(n);
    DoSendTable(s0, c);
    var s1 := Step(s0, a1);
    SameParents(t, s0, a1);
    ExtendFixed(t, acts, a1);
    m := DoReceiveAndMerge(s1, n, c, payload, recv);
    SameParents(t, s1, a2);
    ExtendFixed(t, acts + [a1], a2);
    SameParents(t, Step(s1, a2), a3);
    ExtendFixed(t, acts + [a1] + [a2], a3);
    acts' := acts + [a1] + [a2] + [a3];
  }

  lemma SentIsParsed(m: Mote)
    ensures SentTable(m) == Parsed(TablePayload(m))
  {}

  lemma ReportOne(t: Tree, path: map<u8, i16>, acts: seq<Action>, done: set<u8>, c: u8) returns (acts': seq<Action>)
    requires FixedRun(t, acts) && Usable(t, path) && ArraysFit(t) && TextsFit(t)
    requires Reported(t, path, After(t.ids, acts), done)
    requires c in t.up && c !in done && forall d :: d in t.up && t.up[d] == c ==> d in done
    ensures FixedRun(t, acts') && Reported(t, path, After(t.ids, acts'), done + {c})
  {
    hide After, FixedRun, TreeInv, ArraysFit, TextsFit, SentTable, AddEdges, MergeList, Above, Usable;
    hide ParentsFollow, Reported, SubtreeEdges, Tidy, TableOk, WellFormed, KnowsOwnSubtree;
    FixedNow(t, acts);
    var s0, n := After(t.ids, acts), t.up[c];
    KnowsAll(t, path, s0, done, c);
    ReportedParts(t, path, s0, done);
    ReportLearned(t, s0, c);
    TreeInvMote(t, s0, c);
    TreeInvMote(t, s0, n);
    var recv := SentTable(s0.motes[c]);
    var m;
    acts', m := Exchange(t, acts, c, recv);
    AddEdgesTidy(n, s0.motes[n].table, MergeList(n, recv));
    ReportedMore(t, path, s0, done, c, m, After(t.ids, acts'));
  }

  lemma ReportedParts(t: Tree, path: map<u8, i16>, s: Net, done: set<u8>)
    requires t.Valid() && Usable(t, path) && Reported(t, path, s, done)
    ensures s.motes.Keys == t.ids && (forall n :: n in t.up ==> s.motes[n].parent == t.up[n])
    ensures forall n :: n in t.ids ==> Tidy(n, s.motes[n].table)
  {}

  lemma ReportedMore(t: Tree, path: map<u8, i16>, s: Net, done: set<u8>, c: u8, m: Mote, s': Net)
    requires t.Valid() && Usable(t, path) && Reported(t, path, s, done)
    requires c in t.up && forall d :: d in t.up && t.up[d] == c ==> d in done
    requires s'.motes == s.motes[t.up[c] := m]
    requires m == s.motes[t.up[c]].(slot := m.slot, table := m.table) && Tidy(t.up[c], m.table)
    requires Edges(m.table) == Edges(s.motes[t.up[c]].table) + {(t.up[c], c)} + SubtreeEdges(t, c)
    ensures Reported(t, path, s', done + {c})
  {
    hide Usable, Tidy, HasEdge, Edges, SubtreeEdges, Above, Tree.Valid;
    UpInTree(t, path);
    forall x, d | x in done + {c} && d in t.up && Above(t, x, d) ensures HasEdge(s'.motes[t.up[x]].table, t.up[d], d) {
      KnownAbove(t, s, c, m, x, d, x in done);
    }
  }

  lemma UpInTree(t: Tree, path: map<u8, i16>)
    requires t.Valid() && Usable(t, path)
    ensures path.Keys == t.ids && t.up.Keys <= t.ids && forall n :: n in t.up ==> t.up[n] in t.ids
  {}

  lemma KnownAbove(t: Tree, s: Net, c: u8, m: Mote, x: u8, d: u8, before: bool)
    requires t.Valid() && c in t.up && x in t.up && d in t.up && Above(t, x, d)
    requires t.up[c] in s.motes && t.up[x] in s.motes
    requires if before then HasEdge(s.motes[t.up[x]].table, t.up[d], d) else x == c
    requires Edges(m.table) == Edges(s.motes[t.up[c]].table) + {(t.up[c], c)} + SubtreeEdges(t, c)
    ensures HasEdge(s.motes[t.up[c] := m][t.up[x]].table, t.up[d], d)
  {
    hide HasEdge, Edges, SubtreeEdges, Above;
    var e := (t.up[d], d);
    if before { assert e in Edges(s.motes[t.up[x]].table); } else { BelowOrSelf(t, c, d); }
    assert e in Edges(s.motes[t.up[c] := m][t.up[x]].table);
  }

  lemma BelowOrSelf(t: Tree, c: u8, d: u8)
    requires t.Valid() && d in t.up && Above(t, c, d)
    ensures c == d || (t.up[d], d) in SubtreeEdges(t, c)
  {}

  lemma {:induction false} ReportAll(t: Tree, path: map<u8, i16>, acts: seq<Action>, done: set<u8>)
    returns (acts': seq<Action>)
    requires FixedRun(t, acts) && Usable(t, path) && ArraysFit(t) && TextsFit(t)
    requires Reported(t, path, After(t.ids, acts), done)
    ensures FixedRun(t, acts') && Reported(t, path, After(t.ids, acts'), t.up.Keys)
    decreases |t.up.Keys - done|
  {
    hide After, FixedRun, Usable, Reported, ArraysFit, TextsFit, TreeInv, ParentsFollow;
    if done == t.up.Keys {
      acts' := acts;
    } else {
      FixedNow(t, acts);
      ReportedBounds(t, path, After(t.ids, acts), done);
      var m :| m in t.up.Keys && m !in done;
      var c := NextToReport(t, done, m);
      var more := ReportOne(t, path, acts, done, c);
      SubsetShrinks(t.up.Keys, done, c);
      acts' := ReportAll(t, path, more, done + {c});
    }
  }

  lemma ReportedBounds(t: Tree, path: map<u8, i16>, s: Net, done: set<u8>)
    requires t.Valid() && Usable(t, path) && Reported(t, path, s, done)
    ensures done <= t.up.Keys
  {}

  lemma JoinedReported(t: Tree, path: map<u8, i16>, s: Net)
    requires t.Valid() && Usable(t, path) && Joined(t, path, s, t.ids)
    ensures Reported(t, path, s, {})
  {
    hide Above;
  }

  lemma AllReportedConverged(t: Tree, path: map<u8, i16>, s: Net)
    requires t.Valid() && Usable(t, path) && TreeInv(t, s) && Reported(t, path, s, t.up.Keys)
    ensures Converged(t, s)
  {
    hide TreeInv, Usable, Tidy, Above;
    forall n, c | n in t.ids && c in t.up && Above(t, n, t.up[c]) ensures HasEdge(s.motes[n].table, t.up[c], c) {
      AboveChild(t, n, c);
      var k := ChildToward(t, n, c);
      assert HasEdge(s.motes[t.up[k]].table, t.up[c], c);
    }
  }

  // ---------- Main results ----------

  lemma ConvergedRootKnows(t: Tree, s: Net)
    requires Converged(t, s)
    ensures ROOT in s.motes && WellFormed(s.motes[ROOT].table, MAX_TREE_NODES)
    ensures TreeEdges(t) <= Edges(s.motes[ROOT].table)
  {
    hide TreeInv, Above;
    ConvergedParts(t, s);
    TreeInvMote(t, s, ROOT);
    forall e | e in TreeEdges(t) ensures e in Edges(s.motes[ROOT].table) {
      RootAbove(t, t.up[e.1]);
      assert HasEdge(s.motes[ROOT].table, e.0, e.1);
    }
  }

  // A converged state needs the arrays to hold the tree.
  lemma ConvergedFits(t: Tree, s: Net)
    requires Converged(t, s)
    ensures ArraysFit(t)
  {
    hide Converged, Fits, Edges, Ids, Tree.Valid, WellFormed, TreeEdges;
    ConvergedParts(t, s);
    ConvergedRootKnows(t, s);
    var tab := s.motes[ROOT].table;
    WellFormedFits(tab, MAX_TREE_NODES);
    RootIsSource(t);
    if TreeEdges(t) == {} {
      NothingFits(t);
    } else {
      SourcesMonotone(TreeEdges(t), Edges(tab));
      FitsLess({ROOT}, TreeEdges(t), Ids(tab), Edges(tab), MAX_TREE_NODES);
    }
  }

  lemma NothingFits(t: Tree)
    requires TreeEdges(t) == {}
    ensures ArraysFit(t)
  {
    assert {ROOT} + Sources(TreeEdges(t)) == {ROOT};
  }

  lemma RootIsSource(t: Tree)
    requires t.Valid()
    ensures TreeEdges(t) != {} ==> ROOT in Sources(TreeEdges(t))
  {
    if e :| e in TreeEdges(t) {
      RootAbove(t, e.1);
      var k := ChildToward(t, ROOT, e.1);
      var f := (t.up[k], k);
      assert f in TreeEdges(t) && f.0 == ROOT;
    }
  }

  // Every tree over usable links whose motes fit the arrays and whose subtrees'
  // texts fit the buffer is reached with parents never leaving it; every mote
  // ends with the strength of its tree path as metric.
  lemma TreeConverges(t: Tree, path: map<u8, i16>) returns (acts: seq<Action>)
    requires t.Valid() && Usable(t, path) && ArraysFit(t) && TextsFit(t)
    ensures FixedRun(t, acts) && Converged(t, After(t.ids, acts))
    ensures forall n :: n in t.up ==> n in After(t.ids, acts).motes && After(t.ids, acts).motes[n].metric == path[n]
  {
    hide After, FixedRun, Usable, Joined, ArraysFit, TextsFit, Converged, Above;
    BootJoined(t, path);
    var joins := JoinAll(t, path, [], {ROOT});
    JoinedReported(t, path, After(t.ids, joins));
    acts := ReportAll(t, path, joins, {});
    FixedNow(t, acts);
    AllReportedConverged(t, path, After(t.ids, acts));
  }

  ghost predicate ConvergesBy(t: Tree, acts: seq<Action>) {
    FixedRun(t, acts) && Converged(t, After(t.ids, acts))
  }

  // So, as far as the texts fit, the arrays decide.
  lemma ConvergesIff(t: Tree, path: map<u8, i16>)
    requires t.Valid() && Usable(t, path) && TextsFit(t)
    ensures (exists acts :: ConvergesBy(t, acts)) <==> ArraysFit(t)
  {
    hide After, FixedRun, Usable, ArraysFit, TextsFit, Converged, Tree.Valid;
    if acts :| ConvergesBy(t, acts) { ConvergedFits(t, After(t.ids, acts)); }
    if ArraysFit(t) {
      var acts := TreeConverges(t, path);
      assert ConvergesBy(t, acts);
    }
  }

  ghost function TreeLinks(t: Tree, path: map<u8, i16>): Links
    requires t.Valid() && Usable(t, path)
  {
    map e: (u8, u8) | e in (set c | c in t.up :: (c, t.up[c])) :: path[e.0] - path[e.1]
  }

  // On the way, every mote's knowledge of its tree link is up to date, and it has
  // chosen by it.
  lemma TreeUpToDate(t: Tree, path: map<u8, i16>) returns (acts: seq<Action>)
    requires t.Valid() && Usable(t, path)
    ensures FixedRun(t, acts) && UpToDate(After(t.ids, acts), TreeLinks(t, path)) && AllChosen(After(t.ids, acts))
  {
    hide After, FixedRun, Joined;
    BootJoined(t, path);
    acts := JoinAll(t, path, [], {ROOT});
    var s := After(t.ids, acts);
    JoinedUpToDate(t, path, s);
  }

  lemma JoinedUpToDate(t: Tree, path: map<u8, i16>, s: Net)
    requires t.Valid() && Usable(t, path) && Joined(t, path, s, t.ids)
    ensures UpToDate(s, TreeLinks(t, path)) && AllChosen(s)
  {
    forall n | n in s.motes && n != ROOT
      ensures KnowsNeighbours(s, TreeLinks(t, path), s.motes[n]) && !Waiting(s.motes[n]) && !Stale(s.motes[n])
    {
      PathNegative(t, path, n);
      assert (n, t.up[n]) in TreeLinks(t, path);
      assert s.motes[n] == JoinedMote(t, path, n);
      assert s.motes[n].cands[0].id == t.up[n] && Eligible(s.motes[n].cands[0]);
    }
  }

  // From boot to delivery, in every such tree.
  lemma TreeDelivers(t: Tree, path: map<u8, i16>) returns (acts: seq<Action>, q: u16, trail: seq<u8>)
    requires t.Valid() && Usable(t, path) && ArraysFit(t) && TextsFit(t) && ORIGEN in t.ids && DESTINO in t.ids
    ensures var s, p := After(t.ids, acts), Packet(DESTINO, SeqText(q, ORIGEN), trail);
            HasPacket(s, DESTINO, p) && FateOf(s.motes[DESTINO], p) == Delivered
  {
    hide After, FixedRun, Usable, ArraysFit, TextsFit, Converged, FateOf, SeqText;
    var setup := TreeConverges(t, path);
    var more: seq<Action>;
    more, trail := GeneratedCanBeDelivered(t, setup);
    q := U16(After(t.ids, setup).motes[ORIGEN].seqNum + 1);
    acts := setup + more;
  }

  // Motes 8 and 17 below the root are such a tree.
  function Star(): Tree {
    Tree({1, 8, 17}, map[8 := 1, 17 := 1], map[1 := 0, 8 := 1, 17 := 1])
  }

  lemma StarFits()
    ensures Star().Valid() && ArraysFit(Star()) && TextsFit(Star())
  {
    hide Width;
    var t := Star();
    forall n | n in t.up ensures TextLength(t, n) <= TREE_SERIAL_BUF as nat {
      assert SubtreeEdges(t, n) == {} && Sources({}) == {} == AllTargets({});
      WidthAdd({}, {});
    }
    assert (t.up[8], 8) in TreeEdges(t) && (t.up[17], 17) in TreeEdges(t);
    assert TreeEdges(t) == {(1, 8), (1, 17)};
    assert Sources(TreeEdges(t)) == {1} && Targets(TreeEdges(t), 1) == {8, 17};
  }

  lemma StarConverges()
    ensures ORIGEN in Star().ids && DESTINO in Star().ids && exists acts :: ConvergesBy(Star(), acts)
  {
    hide After, FixedRun, Converged, ArraysFit, TextsFit;
    StarFits();
    ConvergesIff(Star(), map[1 := 0, 8 := -10, 17 := -20]);
  }
}
