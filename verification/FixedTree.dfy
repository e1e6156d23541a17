/**
 Runs in which no mote ever selects a parent other than its own in a given
 tree: what tables then say, and the paths packets take.
 */
module FixedTree {
  import opened CInts
  import opened TreeTable
  import opened TreeText
  import opened PacketText
  import opened MoteModel
  import opened Network

  // A tree on the motes, rooted at ROOT.
  datatype Tree = Tree(ids: set<u8>, up: map<u8, u8>, depth: map<u8, nat>) {
    ghost predicate Valid() {
      && NULL_ID !in ids && ROOT in ids
      && up.Keys == ids - {ROOT} && depth.Keys == ids && depth[ROOT] == 0
      && forall n :: n in up ==> up[n] in ids && depth[n] == depth[up[n]] + 1
    }
  }

  // a is b or an ancestor of b.
  ghost predicate Above(t: Tree, a: u8, b: u8)
    requires t.Valid()
    decreases if b in t.depth then t.depth[b] else 0
  {
    a == b || (b in t.up && Above(t, a, t.up[b]))
  }

  lemma {:induction false} AboveDepth(t: Tree, a: u8, b: u8)
    requires t.Valid() && Above(t, a, b) && b in t.ids
    ensures a in t.ids && t.depth[a] <= t.depth[b] && (t.depth[a] == t.depth[b] ==> a == b)
    decreases t.depth[b]
  {
    if a != b { AboveDepth(t, a, t.up[b]); }
  }

  lemma {:induction false} AboveTransitive(t: Tree, a: u8, b: u8, c: u8)
    requires t.Valid() && Above(t, a, b) && Above(t, b, c) && c in t.ids
    ensures Above(t, a, c)
    decreases t.depth[c]
  {
    if b != c { AboveTransitive(t, a, b, t.up[c]); }
  }

  lemma {:induction false} AboveSameDepth(t: Tree, a: u8, a': u8, b: u8)
    requires t.Valid() && Above(t, a, b) && Above(t, a', b) && b in t.ids
    requires a in t.ids && a' in t.ids && t.depth[a] == t.depth[a']
    ensures a == a'
    decreases t.depth[b]
  {
    AboveDepth(t, a, b);
    AboveDepth(t, a', b);
    if a != b && a' != b { AboveSameDepth(t, a, a', t.up[b]); }
  }

  lemma {:induction false} RootAbove(t: Tree, b: u8)
    requires t.Valid() && b in t.ids
    ensures Above(t, ROOT, b)
    decreases t.depth[b]
  {
    if b != ROOT { RootAbove(t, t.up[b]); }
  }

  // The child of n on the way to b.
  lemma {:induction false} ChildToward(t: Tree, n: u8, b: u8) returns (k: u8)
    requires t.Valid() && Above(t, n, b) && n != b && b in t.ids
    ensures k in t.up && t.up[k] == n && Above(t, k, b)
    decreases t.depth[b]
  {
    if t.up[b] == n { k := b; } else { k := ChildToward(t, n, t.up[b]); }
  }

  // ---------- The premise ----------

  ghost predicate ParentsFollow(t: Tree, s: Net) {
    forall n :: n in s.motes && s.motes[n].parent != NULL_ID ==> n in t.up && s.motes[n].parent == t.up[n]
  }

  ghost predicate FixedRun(t: Tree, acts: seq<Action>) {
    t.Valid() && forall k :: 0 <= k <= |acts| ==> ParentsFollow(t, After(t.ids, acts[..k]))
  }

  lemma FixedPrefix(t: Tree, acts: seq<Action>, k: nat)
    requires FixedRun(t, acts) && k <= |acts|
    ensures FixedRun(t, acts[..k]) && ParentsFollow(t, After(t.ids, acts[..k]))
  {
    forall j | 0 <= j <= k ensures ParentsFollow(t, After(t.ids, acts[..k][..j])) {
      assert acts[..k][..j] == acts[..j];
    }
  }

  // ---------- What tables say ----------

  // A mote knows tree edges only, and only of its own subtree.
  ghost predicate KnowsOwnSubtree(t: Tree, n: u8, tab: Table)
    requires t.Valid()
  {
    forall p: u8, c: u8 :: HasEdge(tab, p, c) ==> c in t.up && t.up[c] == p && Above(t, n, p)
  }

  // What n knows of the subtree of its child k, k knows itself.
  ghost predicate ChildKnows(t: Tree, k: u8, above: Table, below: Table)
    requires t.Valid()
  {
    forall p: u8, c: u8 :: HasEdge(above, p, c) && Above(t, k, p) ==> HasEdge(below, p, c)
  }

  ghost predicate ControlFollows(t: Tree, s: Net, from: u8, to: u8, payload: seq<char>)
    requires t.Valid() && s.motes.Keys == t.ids
  {
    && from in t.up && t.up[from] == to
    && forall p: u8, c: u8 :: HasEdge(Parsed(payload), p, c) ==> HasEdge(s.motes[from].table, p, c)
  }

  ghost predicate TreeInv(t: Tree, s: Net) {
    && t.Valid() && Inv(t.ids, s) && s.motes.Keys == t.ids
    && (forall n :: n in t.ids ==> KnowsOwnSubtree(t, n, s.motes[n].table))
    && (forall k :: k in t.up ==> ChildKnows(t, k, s.motes[t.up[k]].table, s.motes[k].table))
    && (forall from, to, payload :: Control(from, to, payload) in s.sent ==> ControlFollows(t, s, from, to, payload))
  }

  lemma GrowsEdges(t: Table, r: Table)
    requires Grows(t, r)
    ensures forall p: u8, c: u8 :: HasEdge(t, p, c) ==> HasEdge(r, p, c)
  {
    forall p: u8, c: u8 | HasEdge(t, p, c) ensures HasEdge(r, p, c) {
      var i :| 0 <= i < |t| && t[i].id == p && c in t[i].children;
      assert r[i].id == p && c in r[i].children;
    }
  }

  lemma BootTreeInv(t: Tree)
    requires t.Valid()
    ensures TreeInv(t, Boot(t.ids))
  {
    BootOk(t.ids);
  }

  // The edges a merge can bring in: the sender's, and one to the sender.
  lemma MergeBrings(t: Tree, s: Net, n: u8, p: u8, c: u8)
    requires TreeInv(t, s) && n in t.ids
    requires HasEdge(MergeSlot(s.motes[n]).table, p, c) && !HasEdge(s.motes[n].table, p, c)
    ensures exists k :: k in t.up && t.up[k] == n && ((p == n && c == k) || HasEdge(s.motes[k].table, p, c))
  {
    hide Parse, Received, AddEdges, EdgeList, Above, KnowsOwnSubtree, ChildKnows, EdgesGenuine, SelectionOk;
    var m := s.motes[n];
    assert MoteOk(t.ids, s.sent, n, m);
    var recv := Parse(m.slot, MAX_TREE_NODES);
    if m.slot == "" { EmptySlot(); assert false; }
    var from, payload :| Control(from, n, payload) in s.sent && m.slot == Received(payload, TREE_SERIAL_BUF as nat);
    assert MsgOk(t.ids, s.sent, Control(from, n, payload)) && ControlFollows(t, s, from, n, payload);
    var es := MergeList(n, recv);
    AddEdgesBounds(m.table, MAX_TREE_NODES, es);
    assert (p, c) in Edges(AddEdges(m.table, MAX_TREE_NODES, es)) && (p, c) !in Edges(m.table);
    assert (p, c) in es;
    MergeListMeans(n, recv, p, c);
  }

  lemma MergeKeepsTree(t: Tree, s: Net, n: u8, tab: Table)
    requires TreeInv(t, s) && n in t.ids && tab == MergeSlot(s.motes[n]).table
    ensures KnowsOwnSubtree(t, n, tab)
    ensures forall k :: k in t.up && t.up[k] == n ==> ChildKnows(t, k, tab, s.motes[k].table)
  {
    hide MergeSlot, Inv, ControlFollows;
    forall p: u8, c: u8 | HasEdge(tab, p, c) ensures c in t.up && t.up[c] == p && Above(t, n, p) {
      if HasEdge(s.motes[n].table, p, c) {
        assert KnowsOwnSubtree(t, n, s.motes[n].table);
      } else {
        MergeBrings(t, s, n, p, c);
        var k :| k in t.up && t.up[k] == n && ((p == n && c == k) || HasEdge(s.motes[k].table, p, c));
        if HasEdge(s.motes[k].table, p, c) {
          assert KnowsOwnSubtree(t, k, s.motes[k].table);
          AboveTransitive(t, n, k, p);
        }
      }
    }
    forall k | k in t.up && t.up[k] == n ensures ChildKnows(t, k, tab, s.motes[k].table) {
      forall p: u8, c: u8 | HasEdge(tab, p, c) && Above(t, k, p) ensures HasEdge(s.motes[k].table, p, c) {
        if HasEdge(s.motes[n].table, p, c) {
          assert ChildKnows(t, k, s.motes[n].table, s.motes[k].table);
        } else {
          MergeBrings(t, s, n, p, c);
          var k' :| k' in t.up && t.up[k'] == n && ((p == n && c == k') || HasEdge(s.motes[k'].table, p, c));
          if p == n {
            AboveDepth(t, k, n);
          } else {
            assert KnowsOwnSubtree(t, k', s.motes[k'].table);
            AboveSameDepth(t, k, k', p);
          }
        }
      }
    }
  }

  lemma SendFollows(t: Tree, s: Net, n: u8)
    requires TreeInv(t, s) && ParentsFollow(t, s) && n in t.ids && s.motes[n].parent != NULL_ID
    ensures ControlFollows(t, s, n, s.motes[n].parent, TablePayload(s.motes[n]))
  {
    hide TablePayload, Parse, Received;
    var m := s.motes[n];
    assert MoteOk(t.ids, s.sent, n, m);
    SentTableIsCut(m);
    assert SentTable(m) == Parsed(TablePayload(m));
    forall p: u8, c: u8 | HasEdge(SentTable(m), p, c) ensures HasEdge(m.table, p, c) {
      assert (p, c) in Edges(SentTable(m));
    }
  }

  // Tables after a step: grown by a merge, or as before.
  lemma TablesAfter(t: Tree, s: Net, a: Action)
    requires t.Valid() && Inv(t.ids, s)
    ensures Step(s, a).motes.Keys == t.ids
    ensures forall n :: n in t.ids ==>
              && Grows(s.motes[n].table, Step(s, a).motes[n].table)
              && (Step(s, a).motes[n].table == s.motes[n].table
                  || (a == Merge(n) && Step(s, a).motes[n].table == MergeSlot(s.motes[n]).table))
  {
    hide MoteOk, MsgOk;
    forall n | n in t.ids
      ensures Grows(s.motes[n].table, Step(s, a).motes[n].table)
      ensures Step(s, a).motes[n].table == s.motes[n].table
              || (a == Merge(n) && Step(s, a).motes[n].table == MergeSlot(s.motes[n]).table)
    {
      StepGrowsTable(t.ids, s, a, n);
      if Enabled(s, a) && a.n == n && (a.Generate? || a.ReceiveData? || a.Route? || a.SendBeacon? || a.SendTable?) {
        DataStepsKeep(s.motes[n], a);
      }
    }
  }

  lemma TablesTreeInv(t: Tree, s: Net, a: Action)
    requires TreeInv(t, s)
    ensures Step(s, a).motes.Keys == t.ids
    ensures forall n :: n in t.ids ==> KnowsOwnSubtree(t, n, Step(s, a).motes[n].table)
    ensures forall k :: k in t.up ==> ChildKnows(t, k, Step(s, a).motes[t.up[k]].table, Step(s, a).motes[k].table)
  {
    hide Inv, Step, MergeSlot, Above, ControlFollows, KnowsOwnSubtree;
    TablesAfter(t, s, a);
    var s' := Step(s, a);
    if a.Merge? && a.n in t.ids { MergeKeepsTree(t, s, a.n, MergeSlot(s.motes[a.n]).table); }
    forall k | k in t.up ensures ChildKnows(t, k, s'.motes[t.up[k]].table, s'.motes[k].table) {
      assert ChildKnows(t, k, s.motes[t.up[k]].table, s.motes[k].table);
      assert ChildKnows(t, k, s'.motes[t.up[k]].table, s.motes[k].table);
      GrowsEdges(s.motes[k].table, s'.motes[k].table);
    }
  }

  lemma ControlsFollow(t: Tree, s: Net, a: Action, from: u8, to: u8, payload: seq<char>)
    requires TreeInv(t, s) && ParentsFollow(t, s)
    requires Control(from, to, payload) in Step(s, a).sent && Step(s, a).motes.Keys == t.ids
    requires from in t.up ==> Grows(s.motes[from].table, Step(s, a).motes[from].table)
    ensures ControlFollows(t, Step(s, a), from, to, payload)
  {
    hide Step, KnowsOwnSubtree, ChildKnows, Parsed;
    if Control(from, to, payload) !in s.sent {
      NewControl(t.ids, s, a, from, to, payload);
      EnabledMote(s, a);
      SendFollows(t, s, from);
    }
    assert ControlFollows(t, s, from, to, payload);
    GrowsEdges(s.motes[from].table, Step(s, a).motes[from].table);
  }

  lemma EnabledMote(s: Net, a: Action)
    requires Enabled(s, a)
    ensures a.n in s.motes && (a.SendTable? ==> s.motes[a.n].parent != NULL_ID)
  {}

  lemma StepTreeInv(t: Tree, s: Net, a: Action)
    requires TreeInv(t, s) && ParentsFollow(t, s)
    ensures TreeInv(t, Step(s, a))
  {
    hide Inv, Step, KnowsOwnSubtree, ChildKnows, ControlFollows, ParentsFollow, MergeSlot;
    StepOk(t.ids, s, a);
    TablesTreeInv(t, s, a);
    TablesAfter(t, s, a);
    forall from, to, payload | Control(from, to, payload) in Step(s, a).sent
      ensures ControlFollows(t, Step(s, a), from, to, payload)
    {
      ControlsFollow(t, s, a, from, to, payload);
    }
  }

  lemma {:induction false} FixedTreeInv(t: Tree, acts: seq<Action>)
    requires FixedRun(t, acts)
    ensures TreeInv(t, After(t.ids, acts))
  {
    hide TreeInv, Step, ParentsFollow;
    if acts == [] {
      BootTreeInv(t);
    } else {
      var k := |acts| - 1;
      FixedPrefix(t, acts, k);
      FixedTreeInv(t, acts[..k]);
      StepTreeInv(t, After(t.ids, acts[..k]), acts[k]);
    }
  }

  // In every such run: mote n knows only tree edges of its own subtree, and
  // whatever it knows of a child's subtree is in that child's table too.
  lemma KnowledgeFlowsUp(t: Tree, acts: seq<Action>, k: u8, p: u8, c: u8)
    requires FixedRun(t, acts) && k in t.up
    ensures After(t.ids, acts).motes.Keys == t.ids
    ensures var s := After(t.ids, acts);
            && (HasEdge(s.motes[k].table, p, c) ==> c in t.up && t.up[c] == p && Above(t, k, p))
            && (HasEdge(s.motes[t.up[k]].table, p, c) && Above(t, k, p) ==> HasEdge(s.motes[k].table, p, c))
  {
    FixedTreeInv(t, acts);
    var s := After(t.ids, acts);
    assert KnowsOwnSubtree(t, k, s.motes[k].table);
    assert ChildKnows(t, k, s.motes[t.up[k]].table, s.motes[k].table);
  }
}
