/**
 Following parents: loop-free once the metrics have settled, and not before.
 */
module ParentLoops {
  import opened CInts
  import opened Text
  import opened TreeTable
  import opened TreeText
  import TreeRoundTrip
  import opened PacketText
  import opened Subtree
  import opened MoteModel
  import opened Network

  // Each parented mote's metric is worse than what its parent has now. A mote
  // that takes a path from its parent's beacon makes it so, links having negative
  // strength; one to which the beacon offers no eligible path may not.
  ghost predicate Settled(s: Net) {
    forall n :: n in s.motes && s.motes[n].parent != NULL_ID ==> SettledMote(s, s.motes[n])
  }

  ghost predicate SettledMote(s: Net, m: Mote) {
    m.parent in s.motes && m.metric < s.motes[m.parent].metric
  }

  // The mote k parents above n.
  function Climb(s: Net, n: u8, k: nat): u8
    decreases k
  {
    if k == 0 || n !in s.motes then n else Climb(s, s.motes[n].parent, k - 1)
  }

  ghost function Higher(s: Net, n: u8): set<u8>
    requires n in s.motes
  {
    set x | x in s.motes && s.motes[x].metric > s.motes[n].metric
  }

  // The parent's metric is strictly better, and it leads on or is the root.
  lemma ParentIsHigher(ids: set<u8>, s: Net, n: u8)
    requires Inv(ids, s) && Settled(s) && n in ids && s.motes[n].parent != NULL_ID
    ensures var p := s.motes[n].parent;
            p in ids && s.motes[p].metric > s.motes[n].metric && (p == ROOT || s.motes[p].parent != NULL_ID)
  {
    var m := s.motes[n];
    assert SettledMote(s, m) && MoteOk(ids, s.sent, n, m) && MoteOk(ids, s.sent, m.parent, s.motes[m.parent]);
  }

  lemma HigherShrinks(s: Net, n: u8, p: u8)
    requires n in s.motes && p in s.motes && s.motes[p].metric > s.motes[n].metric
    ensures |Higher(s, p)| < |Higher(s, n)|
  {
    SubsetSize(Higher(s, p) + {p}, Higher(s, n));
  }

  lemma {:induction false} ClimbsToRoot(ids: set<u8>, s: Net, n: u8) returns (k: nat)
    requires Inv(ids, s) && Settled(s) && n in ids && (n == ROOT || s.motes[n].parent != NULL_ID)
    ensures k <= |Higher(s, n)| && Climb(s, n, k) == ROOT
    decreases |Higher(s, n)|
  {
    hide Settled, MoteOk, MsgOk, Higher;
    if n == ROOT {
      k := 0;
    } else {
      var p := s.motes[n].parent;
      ParentIsHigher(ids, s, n);
      HigherShrinks(s, n, p);
      var k' := ClimbsToRoot(ids, s, p);
      k := k' + 1;
    }
  }

  // In every settled state of every run, following parents from a mote that
  // has one reaches the root in fewer steps than there are motes.
  lemma SettledIsLoopFree(ids: set<u8>, acts: seq<Action>, n: u8)
    requires NULL_ID !in ids && n in ids && Settled(After(ids, acts))
    ensures n in After(ids, acts).motes
    ensures After(ids, acts).motes[n].parent != NULL_ID ==>
              exists k: nat :: k < |ids| && Climb(After(ids, acts), n, k) == ROOT
  {
    hide After, Settled, Inv, Climb;
    AlwaysInv(ids, acts);
    var s := After(ids, acts);
    InvKeys(ids, s);
    if s.motes[n].parent != NULL_ID {
      var k := ClimbsToRoot(ids, s, n);
      SubsetSize(Higher(s, n) + {n}, ids);
    }
  }

  // ---------- An unsettled run with a loop ----------

  // Mote 2 loses the root while mote 3 still advertises the path through 2.
  function LoopRun(): seq<Action> {
    [SendBeacon(1), HearBeacon(2, 1, 0, -10), SendBeacon(2), HearBeacon(3, 2, -10, -10), SendBeacon(3),
     SendTable(3), Expire(2, 1), HearBeacon(2, 3, -20, -10)]
  }

  // A lone candidate below 0 and above -1000 wins.
  lemma LoneWinner(c: Candidate)
    requires Eligible(c)
    ensures Winner([c]) == 0 && FindCandidate([c], c.id) == 0 && Hear([], c) == [c]
  {
    assert [c][..0] == [];
  }

  function Leaf(n: u8, parent: u8, metric: i16, cs: seq<Candidate>): Mote {
    Init(n).(parent := parent, metric := metric, cands := cs)
  }

  lemma FirstBeacon(n: u8, from: u8, adv: i16, rssi: i8)
    requires n != ROOT && NO_PATH < adv + rssi < 0
    ensures MoteModel.HearBeacon(Init(n).(slot := ""), from, adv, rssi)
            == Leaf(n, from, adv + rssi, [Candidate(from, adv + rssi, rssi)])
  {
    LoneWinner(Candidate(from, adv + rssi, rssi));
  }

  lemma DoBeacon(s: Net, n: u8, adv: i16)
    requires n in s.motes && s.motes[n].id == n && adv == if n == ROOT then 0 else s.motes[n].metric
    ensures Step(s, SendBeacon(n)) == Net(s.motes, s.sent + {Beacon(n, adv)})
  {
    assert s.motes[n := s.motes[n]] == s.motes;
  }

  lemma DoHear(s: Net, n: u8, from: u8, adv: i16, rssi: i8)
    requires n in s.motes && Beacon(from, adv) in s.sent && from != n && rssi < 0
    requires n != ROOT && NO_PATH < adv + rssi < 0 && s.motes[n] == Init(n)
    ensures Step(s, HearBeacon(n, from, adv, rssi)) ==
            Net(s.motes[n := Leaf(n, from, adv + rssi, [Candidate(from, adv + rssi, rssi)])], s.sent)
  {
    FirstBeacon(n, from, adv, rssi);
  }

  lemma DoSendTable(s: Net, n: u8)
    requires n in s.motes && s.motes[n].id == n && s.motes[n].parent != NULL_ID
    ensures Step(s, SendTable(n)) == Net(s.motes, s.sent + {Control(n, s.motes[n].parent, TablePayload(s.motes[n]))})
  {
    hide TablePayload;
    assert s.motes[n := s.motes[n]] == s.motes;
  }

  lemma DoExpire(s: Net, n: u8, c: Candidate)
    requires n in s.motes && n != ROOT && Eligible(c) && s.motes[n] == Leaf(n, c.id, c.path, [c])
    ensures Step(s, Expire(n, c.id)) == Net(s.motes[n := Init(n)], s.sent)
  {
    LoneWinner(c);
    assert RemoveAt([c], 0) == [];
  }

  lemma LoopStates()
    ensures var s := After({1, 2, 3}, LoopRun());
            && s.motes.Keys == {1, 2, 3}
            && s.motes[2] == Leaf(2, 3, -30, [Candidate(3, -30, -10)])
            && s.motes[3] == Leaf(3, 2, -20, [Candidate(2, -20, -10)])
            && Control(3, 2, TablePayload(s.motes[3])) in s.sent
  {
    hide TablePayload, Step;
    var ids: set<u8> := {1, 2, 3};
    var s0 := Boot(ids);
    DoBeacon(s0, 1, 0);
    var s1 := Step(s0, SendBeacon(1));
    DoHear(s1, 2, 1, 0, -10);
    var s2 := Step(s1, HearBeacon(2, 1, 0, -10));
    DoBeacon(s2, 2, -10);
    var s3 := Step(s2, SendBeacon(2));
    DoHear(s3, 3, 2, -10, -10);
    var s4 := Step(s3, HearBeacon(3, 2, -10, -10));
    DoBeacon(s4, 3, -20);
    var s5 := Step(s4, SendBeacon(3));
    DoSendTable(s5, 3);
    var s6 := Step(s5, SendTable(3));
    DoExpire(s6, 2, Candidate(1, -10, -10));
    var s7 := Step(s6, Expire(2, 1));
    DoHear(s7, 2, 3, -20, -10);
    AfterIsSteps(ids, [], LoopRun());
    assert [] + LoopRun() == LoopRun();
    StepsUnfold(s0, LoopRun());
  }

  lemma StepsUnfold(s: Net, r: seq<Action>)
    requires |r| == 8
    ensures var s4 := Step(Step(Step(Step(s, r[0]), r[1]), r[2]), r[3]);
            Steps(s, r) == Step(Step(Step(Step(s4, r[4]), r[5]), r[6]), r[7])
  {
    hide Step;
    var t1 := Step(s, r[0]);
    var t2 := Step(t1, r[1]);
    var t3 := Step(t2, r[2]);
    var t4 := Step(t3, r[3]);
    assert Steps(s, r) == Steps(t1, r[1..]) == Steps(t2, r[2..]) == Steps(t3, r[3..]) == Steps(t4, r[4..]);
    var t5 := Step(t4, r[4]);
    var t6 := Step(t5, r[5]);
    var t7 := Step(t6, r[6]);
    assert Steps(t4, r[4..]) == Steps(t5, r[5..]) == Steps(t6, r[6..]) == Steps(t7, r[7..]);
    assert Steps(t7, r[7..]) == Steps(Step(t7, r[7]), r[8..]);
  }

  // Three motes suffice: after eight steps 2 and 3 are each other's parent,
  // so climbing never reaches the root.
  lemma UnsettledCanLoop(k: nat)
    ensures var s := After({1, 2, 3}, LoopRun());
            && Climb(s, 2, k) in {2, 3} && Climb(s, 3, k) in {2, 3}
            && !Settled(s)
  {
    LoopStates();
    var s := After({1, 2, 3}, LoopRun());
    if k > 0 { UnsettledCanLoop(k - 1); }
    assert !SettledMote(s, s.motes[3]);
  }

  // ---------- The loop gets into the tables ----------

  // ... and then they exchange tables as each other's child.
  function TableRun(): seq<Action> {
    var to2 := TablePayload(Leaf(3, 2, -20, [Candidate(2, -20, -10)]));
    var to3 := TablePayload(Leaf(2, 3, -30, [Candidate(3, -30, -10)]).(table := [TreeNode(2, [3])]));
    [ReceiveTable(2, 3, to2), Merge(2), SendTable(2), ReceiveTable(3, 2, to3), Merge(3)]
  }

  lemma DoReceiveAndMerge(s: Net, n: u8, from: u8, payload: seq<char>, recv: Table) returns (m': Mote)
    requires n in s.motes && Control(from, n, payload) in s.sent
    requires Parsed(payload) == recv && recv != []
    ensures var merged := AddEdges(s.motes[n].table, MAX_TREE_NODES, MergeList(s.motes[n].id, recv));
            m' == s.motes[n].(slot := m'.slot, table := merged)
    ensures Step(Step(s, ReceiveTable(n, from, payload)), Merge(n)) == Net(s.motes[n := m'], s.sent)
  {
    hide Parse, Received, AddEdges, MergeList;
    m' := MergeSlot(MoteModel.ReceiveTable(s.motes[n], payload));
    var m1 := MoteModel.ReceiveTable(s.motes[n], payload);
    assert s.motes[n := m1][n := m'] == s.motes[n := m'];
  }

  lemma AddToEmpty(p: u8, c: u8)
    ensures AddEdge([], MAX_TREE_NODES, p, c) == [TreeNode(p, [c])]
  {
    assert [] + [TreeNode(p, [])] == [TreeNode(p, [])] && [] + [c] == [c];
  }

  lemma MergedOnce()
    ensures AddEdges([], MAX_TREE_NODES, MergeList(2, [TreeNode(3, [])])) == [TreeNode(2, [3])]
    ensures AddEdges([], MAX_TREE_NODES, MergeList(3, [TreeNode(2, [3])])) == [TreeNode(3, [2]), TreeNode(2, [3])]
  {
    assert [TreeNode(3, [])][..0] == [] && [TreeNode(2, [3])][..0] == [];
    assert EdgeList([TreeNode(3, [])]) == [] + ChildEdges(3, []) == [];
    assert EdgeList([TreeNode(2, [3])]) == [] + ChildEdges(2, [3]) == [(2, 3)];
    var es: seq<Edge> := [(2, 3)];
    assert es[..0] == [];
    assert MergeList(2, [TreeNode(3, [])]) == es;
    AddToEmpty(2, 3);
    var fs: seq<Edge> := [(3, 2), (2, 3)];
    assert fs[..1] == [(3, 2)] && fs[..1][..0] == [];
    assert MergeList(3, [TreeNode(2, [3])]) == fs;
    AddToEmpty(3, 2);
    assert Find([TreeNode(3, [2])], 2) == 1;
    assert AddEdge([TreeNode(3, [2])], MAX_TREE_NODES, 2, 3) == [TreeNode(3, [2]), TreeNode(2, [3])];
  }

  lemma SmallTableArrives(m: Mote)
    requires m.id == 2 && m.table == [TreeNode(2, [3])]
    ensures Parsed(TablePayload(m)) == m.table
  {
    hide TablePayload, Parse, Received;
    var e := m.table[0];
    assert m.table[1..] == [];
    assert |TreeRoundTrip.FullText(m.table)| <= 128 by {
      hide Dec;
      assert [3][1..] == [];
      assert TreeRoundTrip.FullText(m.table) == TreeRoundTrip.FullEntry(e) + "";
      assert |TreeRoundTrip.FullKids([3], true)| == |KidText(3, true)|;
    }
    SentTableWholeIff(m);
  }

  // A reachable state in which mote 3 lists 2 below itself and itself below
  // 2: its search for an absent destination never returns.
  lemma SearchCanHang(fuel: nat)
    ensures var s := After({1, 2, 3}, LoopRun() + TableRun());
            && 3 in s.motes
            && s.motes[3].table == [TreeNode(3, [2]), TreeNode(2, [3])]
            && !AcyclicBelow(s.motes[3].table, 3)
            && SearchAny(s.motes[3].table, Kids(s.motes[3].table, 3), 9, fuel) == TooDeep
  {
    hide TablePayload, Step, Parse, Received, AcyclicBelow;
    LoopStates();
    var r := TableRun();
    var s0 := After({1, 2, 3}, LoopRun());
    AfterIsSteps({1, 2, 3}, LoopRun(), r);
    LeafTable(s0.motes[3]);
    MergedOnce();
    var m2 := DoReceiveAndMerge(s0, 2, 3, TablePayload(s0.motes[3]), [TreeNode(3, [])]);
    var s2 := Net(s0.motes[2 := m2], s0.sent);
    DoSendTable(s2, 2);
    SmallTableArrives(m2);
    PayloadOfTable(m2, Leaf(2, 3, -30, [Candidate(3, -30, -10)]).(table := [TreeNode(2, [3])]));
    var s3 := Step(s2, SendTable(2));
    var m3 := DoReceiveAndMerge(s3, 3, 2, TablePayload(m2), [TreeNode(2, [3])]);
    StepsUnfold5(s0, r);
    TwoCycle(fuel);
  }

  lemma PayloadOfTable(m: Mote, m': Mote)
    requires m.id == m'.id && m.table == m'.table
    ensures TablePayload(m) == TablePayload(m')
  {}

  lemma StepsUnfold5(s: Net, r: seq<Action>)
    requires |r| == 5
    ensures Steps(s, r) == Step(Step(Step(Step(Step(s, r[0]), r[1]), r[2]), r[3]), r[4])
  {
    hide Step;
    var t1 := Step(s, r[0]);
    var t2 := Step(t1, r[1]);
    var t3 := Step(t2, r[2]);
    var t4 := Step(t3, r[3]);
    assert Steps(s, r) == Steps(t1, r[1..]) == Steps(t2, r[2..]) == Steps(t3, r[3..]) == Steps(t4, r[4..]);
    assert Steps(t4, r[4..]) == Steps(Step(t4, r[4]), r[5..]);
  }

  lemma TwoCycle(fuel: nat)
    ensures var t := [TreeNode(3, [2]), TreeNode(2, [3])];
            !AcyclicBelow(t, 3) && SearchAny(t, Kids(t, 3), 9, fuel) == TooDeep
  {
    var t := [TreeNode(3, [2]), TreeNode(2, [3])];
    TwoCycleNeverReturns(fuel);
    assert Kids(t, 3) == [2] && Kids(t, 2) == [3];
    ReachesSelf(t, 3);
    assert IsPath(t, 2, [2, 3]) && [2, 3][|[2, 3]| - 1] == 3;
    assert Reaches(t, 3, 3) && 2 in Kids(t, 3) && Reaches(t, 2, 3);
  }
}
