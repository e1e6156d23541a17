/**
 Once every mote knows its whole subtree, packets take the tree path and
 arrive.
 */
module Convergence {
  import opened CInts
  import opened Text
  import opened TreeTable
  import opened Subtree
  import opened PacketText
  import opened MoteModel
  import opened Network
  import opened FixedTree
  import opened TreePaths

  // Every mote has its parent, and lists every tree edge of its subtree.
  ghost predicate Converged(t: Tree, s: Net) {
    && TreeInv(t, s)
    && (forall n :: n in t.up ==> s.motes[n].parent == t.up[n])
    && (forall n, c :: n in t.ids && c in t.up && Above(t, n, t.up[c]) ==> HasEdge(s.motes[n].table, t.up[c], c))
  }

  lemma {:induction false} AboveReaches(t: Tree, s: Net, n: u8, b: u8)
    requires Converged(t, s) && n in t.ids && b in t.ids && Above(t, n, b)
    ensures Reaches(s.motes[n].table, n, b)
    decreases t.depth[b]
  {
    hide Inv, Reaches, KnowsOwnSubtree, ChildKnows, ControlFollows;
    var tab := s.motes[n].table;
    if n == b {
      ReachesSelf(tab, n);
    } else {
      AboveReaches(t, s, n, t.up[b]);
      TableUnique(t, s, n);
      KidsAreEdges(tab, t.up[b], b);
      ReachesSelf(tab, b);
      ReachesStep(tab, t.up[b], b);
      ReachesTransitive(tab, n, t.up[b], b);
    }
  }

  lemma TableUnique(t: Tree, s: Net, n: u8)
    requires TreeInv(t, s) && n in t.ids
    ensures UniqueIds(s.motes[n].table)
  {
    assert MoteOk(t.ids, s.sent, n, s.motes[n]);
  }

  // The router takes the step of the tree path.
  lemma RoutesAlongTree(t: Tree, s: Net, n: u8, p: Packet)
    requires Converged(t, s) && n in t.ids && p.dst in t.ids
    ensures var fate := FateOf(s.motes[n], p);
            if n == p.dst then fate == Delivered
            else fate.Forwarded? && fate.to in t.ids &&
                 if Above(t, n, p.dst) then DownHop(t, n, fate.to) && Above(t, fate.to, p.dst)
                 else n in t.up && fate.to == t.up[n]
  {
    hide Inv, Reaches, IsFirstReaching, ChildKnows, ControlFollows;
    var m := s.motes[n];
    MoteId(t, s, n);
    TreeInvParts(t, s);
    KidsAreTreeChildren(t, n, m.table);
    if n != p.dst {
      ForwarderMeaning(m.table, n, p.dst);
      if Above(t, n, p.dst) {
        AboveReaches(t, s, n, p.dst);
        var f := Forwarder(m.table, n, p.dst);
        ReachesIsAbove(t, n, m.table, f, p.dst);
      } else {
        RootAbove(t, p.dst);
        if Reaches(m.table, n, p.dst) { ReachesIsAbove(t, n, m.table, n, p.dst); }
      }
    }
  }

  // The packet after k forwardings, as long as nothing is lost.
  ghost function Walk(s: Net, n: u8, p: Packet, k: nat): u8
    decreases k
  {
    if k == 0 || n !in s.motes || !FateOf(s.motes[n], p).Forwarded? then n
    else Walk(s, FateOf(s.motes[n], p).to, p, k - 1)
  }

  lemma WalkStep(s: Net, n: u8, p: Packet, to: u8, k: nat)
    requires n in s.motes && FateOf(s.motes[n], p) == Forwarded(to)
    ensures Walk(s, n, p, k + 1) == Walk(s, to, p, k)
  {}

  lemma WalkNowhere(s: Net, n: u8, p: Packet)
    ensures Walk(s, n, p, 0) == n
  {}

  lemma HopDown(t: Tree, s: Net, n: u8, p: Packet) returns (to: u8)
    requires Converged(t, s) && n in t.ids && p.dst in t.ids && n != p.dst && Above(t, n, p.dst)
    ensures n in s.motes && FateOf(s.motes[n], p) == Forwarded(to)
    ensures to in t.ids && to in t.depth && n in t.depth && p.dst in t.depth
    ensures t.depth[to] == t.depth[n] + 1 && t.depth[to] <= t.depth[p.dst] && Above(t, to, p.dst)
  {
    hide TreeInv, FateOf, Reaches;
    RoutesAlongTree(t, s, n, p);
    ConvergedParts(t, s);
    to := FateOf(s.motes[n], p).to;
    AboveDepth(t, to, p.dst);
  }

  lemma HopUp(t: Tree, s: Net, n: u8, p: Packet) returns (to: u8)
    requires Converged(t, s) && t.Valid() && n in t.ids && p.dst in t.ids && !Above(t, n, p.dst)
    ensures n in s.motes && FateOf(s.motes[n], p) == Forwarded(to)
    ensures to in t.ids && to in t.depth && n in t.depth && t.depth[to] + 1 == t.depth[n]
  {
    hide TreeInv, FateOf, Reaches;
    RoutesAlongTree(t, s, n, p);
    ConvergedParts(t, s);
    to := FateOf(s.motes[n], p).to;
  }

  lemma {:induction false} DescendsAlongTree(t: Tree, s: Net, n: u8, p: Packet, k: nat)
    requires t.Valid() && Converged(t, s) && n in t.ids && p.dst in t.ids && Above(t, n, p.dst)
    requires t.depth[n] + k == t.depth[p.dst]
    ensures Walk(s, n, p, k) == p.dst
    decreases k
  {
    hide Converged, FateOf, Walk, Above, Tree.Valid;
    if n == p.dst {
      WalkNowhere(s, n, p);
    } else {
      var to := HopDown(t, s, n, p);
      DescendsAlongTree(t, s, to, p, k - 1);
      WalkStep(s, n, p, to, k - 1);
    }
  }

  // From any mote to any mote, a packet that is not lost is delivered after
  // at most depth(source) + depth(destination) hops.
  lemma {:induction false} ArrivesAlongTree(t: Tree, s: Net, n: u8, p: Packet) returns (k: nat)
    requires t.Valid() && Converged(t, s) && n in t.ids && p.dst in t.ids
    ensures p.dst in s.motes && FateOf(s.motes[p.dst], p) == Delivered
    ensures Walk(s, n, p, k) == p.dst && k <= t.depth[n] + t.depth[p.dst]
    decreases t.depth[n]
  {
    hide Converged, FateOf, Walk, Above, Tree.Valid;
    ConvergedParts(t, s);
    DeliveredThere(t, s, p);
    if Above(t, n, p.dst) {
      DepthBelow(t, n, p.dst);
      k := t.depth[p.dst] - t.depth[n];
      DescendsAlongTree(t, s, n, p, k);
    } else {
      var to := HopUp(t, s, n, p);
      var k' := ArrivesAlongTree(t, s, to, p);
      WalkStep(s, n, p, to, k');
      k := k' + 1;
    }
  }

  lemma DeliveredThere(t: Tree, s: Net, p: Packet)
    requires Converged(t, s) && p.dst in t.ids
    ensures p.dst in s.motes && FateOf(s.motes[p.dst], p) == Delivered
  {
    hide TreeInv, FateOf;
    ConvergedParts(t, s);
    RoutesAlongTree(t, s, p.dst, p);
  }

  lemma DepthBelow(t: Tree, a: u8, b: u8)
    requires t.Valid() && Above(t, a, b) && a in t.ids && b in t.ids
    ensures t.depth[a] <= t.depth[b]
  {
    AboveDepth(t, a, b);
  }

  lemma ConvergedParts(t: Tree, s: Net)
    requires Converged(t, s)
    ensures t.Valid() && s.motes.Keys == t.ids && t.depth.Keys == t.ids
  {}

  // ---------- In the network ----------

  // Steps about data leave routing as it is.
  lemma DataStepConverged(t: Tree, s: Net, a: Action)
    requires Converged(t, s) && (a.Generate? || a.ReceiveData? || a.Route?)
    ensures Converged(t, Step(s, a))
  {
    hide TreeInv, Above, Inv, Step, ParentsFollow, Tree.Valid, HasEdge;
    ConvergedFollow(t, s);
    StepTreeInv(t, s, a);
    ConvergedParts(t, s);
    UpInIds(t);
    DataStepRouting(s, a);
  }

  lemma UpInIds(t: Tree)
    requires t.Valid()
    ensures t.up.Keys <= t.ids
  {}

  lemma DataStepRouting(s: Net, a: Action)
    requires a.Generate? || a.ReceiveData? || a.Route?
    ensures Step(s, a).motes.Keys == s.motes.Keys
    ensures forall n :: n in s.motes ==>
              Step(s, a).motes[n].parent == s.motes[n].parent && Step(s, a).motes[n].table == s.motes[n].table
  {
    hide MoteAfter, Emits;
    if Enabled(s, a) { DataStepsKeep(s.motes[a.n], a); }
  }

  lemma ConvergedFollow(t: Tree, s: Net)
    requires Converged(t, s)
    ensures ParentsFollow(t, s)
  {
    forall n | n in s.motes && s.motes[n].parent != NULL_ID ensures n in t.up && s.motes[n].parent == t.up[n] {
      assert MoteOk(t.ids, s.sent, n, s.motes[n]);
    }
  }

  ghost predicate HasPacket(s: Net, n: u8, p: Packet) { n in s.motes && p in s.motes[n].packets }

  ghost predicate Travels(p: Packet) { NUL !in p.msg && |Wrap(p.dst, p.msg)| < MSG_SIZE }

  // Forward, make room at the next mote, receive.
  lemma OneHop(t: Tree, s: Net, n: u8, p: Packet, to: u8) returns (acts: seq<Action>)
    requires Converged(t, s) && HasPacket(s, n, p) && Travels(p)
    requires to in s.motes && FateOf(s.motes[n], p) == Forwarded(to)
    ensures Converged(t, Steps(s, acts)) && HasPacket(Steps(s, acts), to, p.(trail := p.trail + [to]))
    ensures forall a :: a in acts ==> a.Route? || a.ReceiveData?
  {
    hide Converged, Wrap, DataPayload, FateOf, Received, Unwrap;
    var m := s.motes[n];
    var msg := Forward(m, p);
    ConvergedParts(t, s);
    NetworkId(t, s, n);
    var a1, a2, a3 := Action.Route(n), Action.Route(to), Action.ReceiveData(to, n, DataPayload(p.dst, p.msg), p.trail);
    acts := [a1, a2, a3];
    var s1 := Step(s, a1);
    assert msg in Emits(m, a1) && msg in s1.sent;
    DataStepConverged(t, s, a1);
    var s2 := Step(s1, a2);
    DataStepConverged(t, s1, a2);
    DataStepConverged(t, s2, a3);
    NetworkId(t, s2, to);
    assert s2.motes[to].packets == [] && Enabled(s2, a3);
    ReceivedInto(s2.motes[to], n, p);
    assert acts[1..] == [a2, a3];
    TwoSteps(s1, a2, a3);
  }

  lemma NetworkId(t: Tree, s: Net, n: u8)
    requires Converged(t, s) && n in s.motes
    ensures s.motes[n].id == n
  {
    assert MoteOk(t.ids, s.sent, n, s.motes[n]);
  }

  lemma ReceivedInto(m: Mote, from: u8, p: Packet)
    requires m.packets == [] && Travels(p)
    ensures MoteModel.ReceiveData(m, from, DataPayload(p.dst, p.msg), p.trail).packets
            == [p.(trail := p.trail + [m.id])]
  {
    hide Received, Unwrap, DataPayload, SinkFields, Wrap;
    assert |p.msg| <= |Wrap(p.dst, p.msg)| by { WrapLonger(p.dst, p.msg); }
    HopRoundTrip(p.dst, p.msg, from);
    assert [p.(trail := p.trail + [m.id])] + [] == [p.(trail := p.trail + [m.id])];
  }

  lemma WrapLonger(dst: u8, msg: string)
    ensures |msg| <= |Wrap(dst, msg)|
  {}

  ghost function Remaining(t: Tree, n: u8, dst: u8): nat
    requires t.Valid() && n in t.ids && dst in t.ids
  {
    if Above(t, n, dst) && t.depth[n] <= t.depth[dst] then t.depth[dst] - t.depth[n] else t.depth[n] + t.depth[dst] + 1
  }

  lemma NextHopIsCloser(t: Tree, s: Net, n: u8, p: Packet) returns (to: u8)
    requires Converged(t, s) && t.Valid() && n in t.ids && p.dst in t.ids && n != p.dst
    ensures n in s.motes && to in s.motes && FateOf(s.motes[n], p) == Forwarded(to)
    ensures to in t.ids && Remaining(t, to, p.dst) < Remaining(t, n, p.dst)
  {
    hide Converged, FateOf, Above;
    ConvergedParts(t, s);
    if Above(t, n, p.dst) {
      DepthBelow(t, n, p.dst);
      to := HopDown(t, s, n, p);
    } else {
      to := HopUp(t, s, n, p);
    }
  }

  // From a converged state, a packet queued anywhere can be brought, by
  // routing and reception alone, unaltered into the queue of its destination.
  lemma {:induction false} CanArrive(t: Tree, s: Net, n: u8, p: Packet) returns (acts: seq<Action>, trail: seq<u8>)
    requires Converged(t, s) && t.Valid() && HasPacket(s, n, p) && Travels(p) && n in t.ids && p.dst in t.ids
    ensures Converged(t, Steps(s, acts)) && HasPacket(Steps(s, acts), p.dst, p.(trail := trail))
    ensures forall a :: a in acts ==> a.Route? || a.ReceiveData?
    decreases Remaining(t, n, p.dst)
  {
    hide Converged, FateOf, Above, Remaining, Tree.Valid, Steps, Travels;
    if n == p.dst {
      acts, trail := [], p.trail;
      NoSteps(s);
    } else {
      var to := NextHopIsCloser(t, s, n, p);
      var hop := OneHop(t, s, n, p, to);
      var p' := p.(trail := p.trail + [to]);
      SameTravel(p, p');
      var rest, tr := CanArrive(t, Steps(s, hop), to, p');
      acts, trail := hop + rest, tr;
      StepsConcat(s, hop, rest);
    }
  }

  lemma SameTravel(p: Packet, p': Packet)
    requires p.dst == p'.dst && p.msg == p'.msg && Travels(p)
    ensures Travels(p')
  {}

  lemma NoSteps(s: Net)
    ensures Steps(s, []) == s
  {}

  lemma {:induction false} StepsConcat(s: Net, a: seq<Action>, b: seq<Action>)
    ensures Steps(s, a + b) == Steps(Steps(s, a), b)
    decreases |a|
  {
    hide Step;
    if a == [] {
      assert a + b == b;
    } else {
      assert (a + b)[1..] == a[1..] + b;
      StepsConcat(Step(s, a[0]), a[1..], b);
    }
  }

  // The service as a whole: from every converged state of a run, the next
  // packet the origin generates can be delivered at the destination with its
  // sequence number.
  lemma GeneratedCanBeDelivered(t: Tree, done: seq<Action>) returns (acts: seq<Action>, trail: seq<u8>)
    requires Converged(t, After(t.ids, done)) && ORIGEN in t.ids && DESTINO in t.ids
    ensures ORIGEN in After(t.ids, done).motes
    ensures var q := U16(After(t.ids, done).motes[ORIGEN].seqNum + 1);
            var s, p := After(t.ids, done + acts), Packet(DESTINO, SeqText(q, ORIGEN), trail);
            HasPacket(s, DESTINO, p) && FateOf(s.motes[DESTINO], p) == Delivered
  {
    hide Converged, After, FateOf, Steps, SeqText, Wrap, Tree.Valid;
    var s0 := After(t.ids, done);
    ConvergedParts(t, s0);
    NetworkId(t, s0, ORIGEN);
    var a1, a2 := Action.Route(ORIGEN), Action.Generate(ORIGEN);
    var s1 := Step(s0, a1);
    DataStepConverged(t, s0, a1);
    var s2 := Step(s1, a2);
    DataStepConverged(t, s1, a2);
    var p := Packet(DESTINO, SeqText(U16(s0.motes[ORIGEN].seqNum + 1), ORIGEN), [ORIGEN]);
    assert p in s2.motes[ORIGEN].packets;
    SeqTextShape(U16(s0.motes[ORIGEN].seqNum + 1), ORIGEN);
    GeneratedFits(DESTINO, U16(s0.motes[ORIGEN].seqNum + 1), ORIGEN);
    var rest, tr := CanArrive(t, s2, ORIGEN, p);
    acts, trail := [a1, a2] + rest, tr;
    TwoSteps(s0, a1, a2);
    StepsConcat(s0, [a1, a2], rest);
    AfterIsSteps(t.ids, done, acts);
    DeliveredThere(t, Steps(s2, rest), p.(trail := trail));
  }

  lemma TwoSteps(s: Net, a: Action, b: Action)
    ensures Steps(s, [a, b]) == Step(Step(s, a), b)
  {
    hide Step;
    assert [a, b][1..] == [b] && [b][1..] == [];
    assert Steps(Step(s, a), [b]) == Steps(Step(Step(s, a), b), []);
  }
}
