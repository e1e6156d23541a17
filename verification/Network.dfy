/**
 All the motes and everything ever put on the air, under every interleaving of
 their steps.

 Messages stay in `sent` for good: one that is never received was lost, one
 received late was delayed, one received again was repeated. The control slot
 of a mote may be overwritten, and its handler run, any number of times between
 two receptions.
 */
module Network {
  import opened CInts
  import opened TreeTable
  import opened TreeText
  import opened PacketText
  import opened MoteModel

  datatype Msg =
    | Beacon(from: u8, adv: i16)
    | Control(from: u8, to: u8, payload: seq<char>)
    | Data(from: u8, to: u8, payload: seq<char>, trail: seq<u8>)

  datatype Net = Net(motes: map<u8, Mote>, sent: set<Msg>)

  datatype Action =
    | SendBeacon(n: u8)
    | HearBeacon(n: u8, from: u8, adv: i16, rssi: i8)
    | Expire(n: u8, id: u8)
    | SendTable(n: u8)
    | ReceiveTable(n: u8, from: u8, payload: seq<char>)
    | Merge(n: u8)
    | Generate(n: u8)
    | ReceiveData(n: u8, from: u8, payload: seq<char>, trail: seq<u8>)
    | Route(n: u8)

  ghost predicate Enabled(s: Net, a: Action) {
    a.n in s.motes &&
    match a
    case HearBeacon(n, from, adv, rssi) => Beacon(from, adv) in s.sent && from != n && rssi < 0
    case Expire(n, id) => FindCandidate(s.motes[n].cands, id) < |s.motes[n].cands|
    case SendTable(n) => s.motes[n].parent != NULL_ID
    case ReceiveTable(n, from, payload) => Control(from, n, payload) in s.sent
    case ReceiveData(n, from, payload, trail) => Data(from, n, payload, trail) in s.sent
    case _ => true
  }

  ghost function MoteAfter(m: Mote, a: Action): Mote {
    match a
    case HearBeacon(_, from, adv, rssi) => MoteModel.HearBeacon(m, from, adv, rssi)
    case Expire(_, id) => KeepaliveExpired(m, id)
    case ReceiveTable(_, _, payload) => MoteModel.ReceiveTable(m, payload)
    case Merge(_) => MergeSlot(m)
    case Generate(_) => MoteModel.Generate(m)
    case ReceiveData(_, from, payload, trail) => MoteModel.ReceiveData(m, from, payload, trail)
    case Route(_) => RouteAll(m)
    case _ => m
  }

  ghost function Forward(m: Mote, p: Packet): Msg
    requires FateOf(m, p).Forwarded?
  {
    Data(m.id, FateOf(m, p).to, DataPayload(p.dst, p.msg), p.trail)
  }

  ghost function Emits(m: Mote, a: Action): set<Msg> {
    match a
    case SendBeacon(_) => {Beacon(m.id, Advertised(m))}
    case SendTable(_) => {Control(m.id, m.parent, TablePayload(m))}
    case Route(_) => set p | p in m.packets && FateOf(m, p).Forwarded? :: Forward(m, p)
    case _ => {}
  }

  ghost function Step(s: Net, a: Action): Net {
    if Enabled(s, a)
    then Net(s.motes[a.n := MoteAfter(s.motes[a.n], a)], s.sent + Emits(s.motes[a.n], a))
    else s
  }

  ghost function Boot(ids: set<u8>): Net { Net(map n | n in ids :: Init(n), {}) }

  // The state after a list of actions; one that is not enabled does nothing.
  ghost function After(ids: set<u8>, acts: seq<Action>): Net {
    if acts == [] then Boot(ids) else Step(After(ids, acts[..|acts| - 1]), acts[|acts| - 1])
  }

  lemma AfterSnoc(ids: set<u8>, acts: seq<Action>, a: Action)
    ensures After(ids, acts + [a]) == Step(After(ids, acts), a)
  {
    assert (acts + [a])[..|acts + [a]| - 1] == acts;
  }

  // From any state on.
  ghost function Steps(s: Net, acts: seq<Action>): Net
    decreases |acts|
  {
    if acts == [] then s else Steps(Step(s, acts[0]), acts[1..])
  }

  lemma {:induction false} AfterIsSteps(ids: set<u8>, done: seq<Action>, todo: seq<Action>)
    ensures After(ids, done + todo) == Steps(After(ids, done), todo)
    decreases |todo|
  {
    hide Step, After;
    if todo == [] {
      assert done + todo == done;
    } else {
      AfterSnoc(ids, done, todo[0]);
      AfterIsSteps(ids, done + [todo[0]], todo[1..]);
      assert done + todo == (done + [todo[0]]) + todo[1..];
    }
  }

  // ---------- What holds in every state of every run ----------

  // c has unicast a table to p.
  ghost predicate Genuine(sent: set<Msg>, p: u8, c: u8) {
    exists payload :: Control(c, p, payload) in sent
  }

  ghost predicate EdgesGenuine(sent: set<Msg>, t: Table) {
    forall p: u8, c: u8 :: HasEdge(t, p, c) ==> Genuine(sent, p, c)
  }

  function Parsed(payload: seq<char>): Table {
    Parse(Received(payload, TREE_SERIAL_BUF as nat), MAX_TREE_NODES)
  }

  ghost predicate SlotOk(sent: set<Msg>, n: u8, slot: string) {
    slot == "" || exists from, payload ::
                    Control(from, n, payload) in sent && slot == Received(payload, TREE_SERIAL_BUF as nat)
  }

  ghost predicate NeighboursOk(ids: set<u8>, n: u8, cs: seq<Candidate>) {
    forall i :: 0 <= i < |cs| ==> cs[i].id in ids && cs[i].id != n && -1128 <= cs[i].path <= -1
  }

  ghost predicate MoteOk(ids: set<u8>, sent: set<Msg>, n: u8, m: Mote) {
    && m.id == n
    && SelectionOk(m) && NeighboursOk(ids, n, m.cands)
    && TableOk(m) && EdgesGenuine(sent, m.table)
    && SlotOk(sent, n, m.slot)
  }

  ghost predicate MsgOk(ids: set<u8>, sent: set<Msg>, msg: Msg) {
    match msg
    case Beacon(from, adv) => from in ids && NO_PATH <= adv <= 0
    case Control(from, to, payload) =>
      && from in ids && to in ids && from != to
      && Parsed(payload) != [] && Parsed(payload)[0].id == from && EdgesGenuine(sent, Parsed(payload))
    case Data(_, _, _, _) => true
  }

  ghost predicate Inv(ids: set<u8>, s: Net) {
    && NULL_ID !in ids && s.motes.Keys == ids
    && (forall n :: n in s.motes ==> MoteOk(ids, s.sent, n, s.motes[n]))
    && (forall msg :: msg in s.sent ==> MsgOk(ids, s.sent, msg))
  }

  lemma EdgesGenuineGrows(sent: set<Msg>, sent': set<Msg>, t: Table)
    requires sent <= sent' && EdgesGenuine(sent, t)
    ensures EdgesGenuine(sent', t)
  {
    forall p: u8, c: u8 | HasEdge(t, p, c) ensures Genuine(sent', p, c) {
      var payload :| Control(c, p, payload) in sent;
      assert Control(c, p, payload) in sent';
    }
  }

  lemma OkGrows(ids: set<u8>, sent: set<Msg>, sent': set<Msg>)
    requires sent <= sent'
    ensures forall n, m :: MoteOk(ids, sent, n, m) ==> MoteOk(ids, sent', n, m)
    ensures forall msg :: MsgOk(ids, sent, msg) ==> MsgOk(ids, sent', msg)
  {
    hide EdgesGenuine, SelectionOk, TableOk, NeighboursOk;
    forall n, m | MoteOk(ids, sent, n, m) ensures MoteOk(ids, sent', n, m) {
      EdgesGenuineGrows(sent, sent', m.table);
      if m.slot != "" {
        var from, payload :| Control(from, n, payload) in sent && m.slot == Received(payload, TREE_SERIAL_BUF as nat);
        assert Control(from, n, payload) in sent';
      }
    }
    forall msg | MsgOk(ids, sent, msg) ensures MsgOk(ids, sent', msg) {
      if msg.Control? { EdgesGenuineGrows(sent, sent', Parsed(msg.payload)); }
    }
  }

  lemma BootOk(ids: set<u8>)
    requires NULL_ID !in ids
    ensures Inv(ids, Boot(ids))
  {}

  // ---------- One lemma per action ----------

  lemma HearNeighbours(ids: set<u8>, n: u8, cs: seq<Candidate>, c: Candidate)
    requires NeighboursOk(ids, n, cs) && NeighboursOk(ids, n, [c])
    ensures NeighboursOk(ids, n, Hear(cs, c))
  {
    assert [c][0] == c;
  }

  lemma HearBeaconOk(ids: set<u8>, sent: set<Msg>, n: u8, m: Mote, from: u8, adv: i16, rssi: i8)
    requires NULL_ID !in ids && MoteOk(ids, sent, n, m) && MsgOk(ids, sent, Beacon(from, adv))
    requires from != n && rssi < 0
    ensures MoteOk(ids, sent, n, MoteModel.HearBeacon(m, from, adv, rssi))
  {
    hide EdgesGenuine, TableOk, SlotOk, SelectionOk, Hear, FindCandidate, Winner;
    HearBeaconSelects(m, from, adv, rssi);
    PathNeverWraps(adv, rssi);
    HearNeighbours(ids, n, m.cands, Candidate(from, I16(adv + rssi), rssi));
    var r := MoteModel.HearBeacon(m, from, adv, rssi);
    assert r == m.(cands := r.cands, parent := r.parent, metric := r.metric);
    SelectionFields(m, r);
  }

  lemma SelectionFields(m: Mote, r: Mote)
    requires r == m.(cands := r.cands, parent := r.parent, metric := r.metric)
    ensures TableOk(m) ==> TableOk(r)
  {}

  lemma ExpireOk(ids: set<u8>, sent: set<Msg>, n: u8, m: Mote, id: u8)
    requires NULL_ID !in ids && MoteOk(ids, sent, n, m)
    requires FindCandidate(m.cands, id) < |m.cands|
    ensures MoteOk(ids, sent, n, KeepaliveExpired(m, id))
  {
    hide EdgesGenuine, TableOk, SlotOk, SelectionOk, FindCandidate;
    assert m.cands[FindCandidate(m.cands, id)].id in ids;
    KeepaliveSelects(m, id);
    SelectionFields(m, KeepaliveExpired(m, id));
  }

  lemma SendTableOk(ids: set<u8>, sent: set<Msg>, n: u8, m: Mote)
    requires n in ids && MoteOk(ids, sent, n, m) && m.parent != NULL_ID
    ensures MsgOk(ids, sent, Control(n, m.parent, TablePayload(m)))
  {
    hide TablePayload, Parse, Received;
    SentTableIsCut(m);
    var t := SentTable(m);
    assert t == Parsed(TablePayload(m));
    forall p: u8, c: u8 | HasEdge(t, p, c) ensures Genuine(sent, p, c) {
      assert (p, c) in Edges(t);
      assert HasEdge(m.table, p, c);
    }
  }

  lemma MergeOk(ids: set<u8>, sent: set<Msg>, n: u8, m: Mote)
    requires MoteOk(ids, sent, n, m)
    requires forall from, payload :: Control(from, n, payload) in sent ==> MsgOk(ids, sent, Control(from, n, payload))
    ensures MoteOk(ids, sent, n, MergeSlot(m))
  {
    hide Parse, Received, TableOk;
    var recv := Parse(m.slot, MAX_TREE_NODES);
    MergeKeepsTable(m);
    if recv != [] {
      if m.slot == "" { EmptySlot(); assert false; }
      var from, payload :| Control(from, n, payload) in sent && m.slot == Received(payload, TREE_SERIAL_BUF as nat);
      MergedEdgesGenuine(ids, sent, m, from, payload);
    }
  }

  lemma EmptySlot()
    ensures Parse("", MAX_TREE_NODES) == []
  {}

  lemma MergedEdgesGenuine(ids: set<u8>, sent: set<Msg>, m: Mote, from: u8, payload: seq<char>)
    requires EdgesGenuine(sent, m.table)
    requires Control(from, m.id, payload) in sent && MsgOk(ids, sent, Control(from, m.id, payload))
    ensures EdgesGenuine(sent, AddEdges(m.table, MAX_TREE_NODES, MergeList(m.id, Parsed(payload))))
  {
    hide Parse, Received, AddEdges, EdgeList;
    var recv := Parsed(payload);
    var es := MergeList(m.id, recv);
    var r := AddEdges(m.table, MAX_TREE_NODES, es);
    AddEdgesBounds(m.table, MAX_TREE_NODES, es);
    forall p: u8, c: u8 | HasEdge(r, p, c) ensures Genuine(sent, p, c) {
      assert (p, c) in Edges(r);
      if (p, c) in Edges(m.table) {
        assert HasEdge(m.table, p, c);
      } else {
        assert (p, c) in es;
        MergeListMeans(m.id, recv, p, c);
      }
    }
  }

  lemma MergeListMeans(me: u8, recv: Table, p: u8, c: u8)
    requires recv != []
    ensures (p, c) in MergeList(me, recv) <==> (p == me && c == recv[0].id) || HasEdge(recv, p, c)
  {
    EdgeListIsEdges(recv);
    assert (p, c) in Edges(recv) <==> HasEdge(recv, p, c);
  }

  // The steps about data leave everything above alone.
  lemma DataStepsKeep(m: Mote, a: Action)
    requires a.Generate? || a.ReceiveData? || a.Route? || a.SendBeacon? || a.SendTable?
    ensures var r := MoteAfter(m, a);
            r == m.(packets := r.packets, stats := r.stats, seqNum := r.seqNum)
  {
    hide Received, Unwrap, SinkFields, SeqText;
  }

  // Each step touches its own part of the mote.
  lemma StepTouches(m: Mote, a: Action)
    ensures var r := MoteAfter(m, a);
            match a
            case SendBeacon(_) => r == m
            case SendTable(_) => r == m
            case HearBeacon(_, _, _, _) => r == m.(cands := r.cands, parent := r.parent, metric := r.metric)
            case Expire(_, _) => r == m.(cands := r.cands, parent := r.parent, metric := r.metric)
            case ReceiveTable(_, _, _) => r == m.(slot := r.slot)
            case Merge(_) => r == m.(table := r.table)
            case Generate(_) => r == m.(packets := r.packets, seqNum := r.seqNum)
            case ReceiveData(_, _, _, _) => r == m.(packets := r.packets, stats := r.stats)
            case Route(_) => r == m.(packets := [])
  {
    hide Received, Unwrap, SinkFields, SeqText, Hear, FindCandidate, Winner, Parse, AddEdges;
  }

  lemma MoteStepOk(ids: set<u8>, s: Net, a: Action)
    requires Inv(ids, s) && Enabled(s, a)
    ensures MoteOk(ids, s.sent, a.n, MoteAfter(s.motes[a.n], a))
  {
    var m := s.motes[a.n];
    match a {
      case HearBeacon(n, from, adv, rssi) => HearBeaconOk(ids, s.sent, n, m, from, adv, rssi);
      case Expire(n, id) => ExpireOk(ids, s.sent, n, m, id);
      case ReceiveTable(n, from, payload) =>
      case Merge(n) => MergeOk(ids, s.sent, n, m);
      case _ => DataStepsKeep(m, a);
    }
  }

  lemma EmitsOk(ids: set<u8>, s: Net, a: Action)
    requires Inv(ids, s) && Enabled(s, a)
    ensures forall msg :: msg in Emits(s.motes[a.n], a) ==> MsgOk(ids, s.sent, msg)
  {
    var m := s.motes[a.n];
    if a.SendTable? {
      SendTableOk(ids, s.sent, a.n, m);
    }
  }

  lemma StepOk(ids: set<u8>, s: Net, a: Action)
    requires Inv(ids, s)
    ensures Inv(ids, Step(s, a)) && s.sent <= Step(s, a).sent
  {
    hide MoteOk, MsgOk, MoteAfter, Emits;
    if Enabled(s, a) {
      MoteStepOk(ids, s, a);
      EmitsOk(ids, s, a);
      OkGrows(ids, s.sent, Step(s, a).sent);
    }
  }

  lemma {:induction false} AlwaysInv(ids: set<u8>, acts: seq<Action>)
    requires NULL_ID !in ids
    ensures Inv(ids, After(ids, acts))
  {
    hide Inv, Step;
    if acts == [] {
      BootOk(ids);
    } else {
      AlwaysInv(ids, acts[..|acts| - 1]);
      StepOk(ids, After(ids, acts[..|acts| - 1]), acts[|acts| - 1]);
    }
  }

  // ---------- Provenance ----------

  // Step i of the run: c unicasts its table to p, its selected parent.
  ghost predicate SentTo(ids: set<u8>, acts: seq<Action>, i: nat, c: u8, p: u8) {
    && i < |acts| && acts[i] == SendTable(c)
    && var s := After(ids, acts[..i]);
       Enabled(s, acts[i]) && s.motes[c].parent == p
  }

  lemma {:induction false} ControlsComeFromChildren(ids: set<u8>, acts: seq<Action>, c: u8, p: u8, payload: seq<char>)
    requires NULL_ID !in ids && Control(c, p, payload) in After(ids, acts).sent
    ensures exists i: nat :: SentTo(ids, acts, i, c, p)
  {
    hide MoteAfter, Emits, Step;
    if acts != [] {
      var front, a := acts[..|acts| - 1], acts[|acts| - 1];
      var s := After(ids, front);
      if Control(c, p, payload) in s.sent {
        ControlsComeFromChildren(ids, front, c, p, payload);
        var i: nat :| SentTo(ids, front, i, c, p);
        assert acts[..i] == front[..i];
        assert SentTo(ids, acts, i, c, p);
      } else {
        AlwaysInv(ids, front);
        NewControl(ids, s, a, c, p, payload);
        assert acts[..|front|] == front;
        assert SentTo(ids, acts, |front|, c, p);
      }
    } else {
      assert false;
    }
  }

  lemma NewControl(ids: set<u8>, s: Net, a: Action, c: u8, p: u8, payload: seq<char>)
    requires Inv(ids, s) && Control(c, p, payload) in Step(s, a).sent && Control(c, p, payload) !in s.sent
    ensures Enabled(s, a) && a == SendTable(c) && s.motes[c].parent == p && payload == TablePayload(s.motes[c])
  {
    hide TablePayload;
    assert MoteOk(ids, s.sent, a.n, s.motes[a.n]);
  }

  // In every run, every edge p -> c of every table is genuine: c is a mote
  // that at some earlier step unicast its table to p, its parent at the time.
  lemma Provenance(ids: set<u8>, acts: seq<Action>, n: u8, p: u8, c: u8)
    requires NULL_ID !in ids && n in ids
    ensures n in After(ids, acts).motes
    ensures HasEdge(After(ids, acts).motes[n].table, p, c) ==>
              p in ids && c in ids && p != c && exists i: nat :: SentTo(ids, acts, i, c, p)
  {
    AlwaysInv(ids, acts);
    var s := After(ids, acts);
    assert MoteOk(ids, s.sent, n, s.motes[n]);
    if HasEdge(s.motes[n].table, p, c) {
      var payload :| Control(c, p, payload) in s.sent;
      assert MsgOk(ids, s.sent, Control(c, p, payload));
      ControlsComeFromChildren(ids, acts, c, p, payload);
    }
  }

  // In every run, each mote's parent is null, or a listed neighbour that is a
  // best eligible one unless none is eligible any more; the metric is its path.
  lemma ParentChoice(ids: set<u8>, acts: seq<Action>, n: u8)
    requires NULL_ID !in ids && n in ids
    ensures n in After(ids, acts).motes
    ensures var m := After(ids, acts).motes[n];
            && (m.parent == NULL_ID ==> m.metric == if n == ROOT then 0 else NO_PATH)
            && (m.parent != NULL_ID ==>
                  && n != ROOT && m.parent in ids && m.parent != n && NO_PATH < m.metric < 0
                  && exists k: nat :: k < |m.cands| && m.cands[k].id == m.parent
                       && (NoneEligible(m.cands) || (IsMaximum(m.cands, k) && m.metric == m.cands[k].path)))
  {
    AlwaysInv(ids, acts);
    var s := After(ids, acts);
    assert MoteOk(ids, s.sent, n, s.motes[n]);
  }

  // Tables only grow along a run.
  lemma {:induction false} TablesGrow(ids: set<u8>, acts: seq<Action>, k: nat, n: u8)
    requires NULL_ID !in ids && n in ids && k <= |acts|
    ensures n in After(ids, acts[..k]).motes && n in After(ids, acts).motes
    ensures Grows(After(ids, acts[..k]).motes[n].table, After(ids, acts).motes[n].table)
    decreases |acts|
  {
    hide Inv, MoteOk, Step;
    AlwaysInv(ids, acts);
    AlwaysInv(ids, acts[..k]);
    assert Inv(ids, After(ids, acts)) && Inv(ids, After(ids, acts[..k]));
    InvKeys(ids, After(ids, acts));
    InvKeys(ids, After(ids, acts[..k]));
    if k == |acts| {
      assert acts[..k] == acts;
    } else {
      var front := acts[..|acts| - 1];
      assert front[..k] == acts[..k];
      TablesGrow(ids, front, k, n);
      AlwaysInv(ids, front);
      StepGrowsTable(ids, After(ids, front), acts[|acts| - 1], n);
      GrowsTransitive(After(ids, acts[..k]).motes[n].table,
                      After(ids, front).motes[n].table, After(ids, acts).motes[n].table);
    }
  }

  // From boot on the root heads its table, even while it knows nobody.
  lemma RootHeadsTable(ids: set<u8>, acts: seq<Action>)
    requires NULL_ID !in ids && ROOT in ids
    ensures ROOT in After(ids, acts).motes
    ensures var t := After(ids, acts).motes[ROOT].table; t != [] && t[0].id == ROOT
  {
    TablesGrow(ids, acts, 0, ROOT);
    assert After(ids, acts[..0]).motes[ROOT].table == [TreeNode(ROOT, [])];
  }

  lemma InvKeys(ids: set<u8>, s: Net)
    requires Inv(ids, s)
    ensures s.motes.Keys == ids
  {}

  lemma StepGrowsTable(ids: set<u8>, s: Net, a: Action, n: u8)
    requires Inv(ids, s) && n in ids
    ensures n in s.motes && n in Step(s, a).motes && Grows(s.motes[n].table, Step(s, a).motes[n].table)
  {
    hide MoteAfter, Emits, MsgOk, EdgesGenuine, SelectionOk, NeighboursOk;
    if Enabled(s, a) && a.n == n {
      var m := s.motes[n];
      StepTouches(m, a);
      if a.Merge? {
        assert MoteOk(ids, s.sent, n, m);
        MergeIs(m, a);
        MergeKeepsTable(m);
      }
    }
  }

  lemma MergeIs(m: Mote, a: Action)
    requires a.Merge?
    ensures MoteAfter(m, a) == MergeSlot(m)
  {}
}
