/**
 The paths packets take while parents are fixed: up, then only down.
 */
module TreePaths {
  import opened CInts
  import opened Text
  import opened TreeTable
  import opened Subtree
  import opened PacketText
  import opened MoteModel
  import opened Network
  import opened FixedTree

  ghost predicate UpHop(t: Tree, a: u8, b: u8) { a in t.up && t.up[a] == b }

  ghost predicate DownHop(t: Tree, a: u8, b: u8) { UpHop(t, b, a) }

  // Along tree edges, and never up again after going down.
  ghost predicate UpThenDown(t: Tree, trail: seq<u8>) {
    && trail != [] && (forall i :: 0 <= i < |trail| ==> trail[i] in t.ids)
    && (forall i :: 0 <= i < |trail| - 1 ==> UpHop(t, trail[i], trail[i + 1]) || DownHop(t, trail[i], trail[i + 1]))
    && (forall i :: 0 <= i < |trail| - 2 && DownHop(t, trail[i], trail[i + 1]) ==>
          DownHop(t, trail[i + 1], trail[i + 2]))
  }

  ghost predicate Descending(t: Tree, trail: seq<u8>) {
    |trail| >= 2 && DownHop(t, trail[|trail| - 2], trail[|trail| - 1])
  }

  lemma NotBothWays(t: Tree, a: u8, b: u8)
    requires t.Valid() && UpHop(t, a, b)
    ensures !DownHop(t, a, b)
  {}

  // ---------- Length ----------

  lemma {:induction false} ClimbLength(t: Tree, trail: seq<u8>)
    requires t.Valid() && UpThenDown(t, trail)
    ensures !Descending(t, trail) ==> t.depth[trail[0]] == t.depth[trail[|trail| - 1]] + |trail| - 1
    ensures |trail| - 1 <= t.depth[trail[0]] + t.depth[trail[|trail| - 1]]
  {
    if |trail| >= 2 {
      var n := |trail|;
      var front := trail[..n - 1];
      ClimbLength(t, front);
      assert UpHop(t, trail[n - 2], trail[n - 1]) || DownHop(t, trail[n - 2], trail[n - 1]);
      if Descending(t, front) {
        assert DownHop(t, trail[n - 3], trail[n - 3 + 1]);
        assert Descending(t, trail);
      }
    }
  }

  // ---------- Reachability and the tree ----------

  ghost predicate UniqueIds(tab: Table) {
    forall i, j :: 0 <= i < j < |tab| ==> tab[i].id != tab[j].id
  }

  lemma {:induction false} PathDescends(t: Tree, n: u8, tab: Table, a: u8, p: seq<u8>)
    requires t.Valid() && KnowsOwnSubtree(t, n, tab) && IsPath(tab, a, p)
    ensures Above(t, a, p[|p| - 1]) && (a in t.ids ==> p[|p| - 1] in t.ids)
    decreases |p|
  {
    if |p| > 1 {
      PathTail(tab, a, p);
      KidsAreEdges(tab, a, p[1]);
      PathDescends(t, n, tab, p[1], p[1..]);
      assert p[1..][|p[1..]| - 1] == p[|p| - 1];
      AboveTransitive(t, a, p[1], p[|p| - 1]);
    }
  }

  lemma ReachesIsAbove(t: Tree, n: u8, tab: Table, a: u8, b: u8)
    requires t.Valid() && KnowsOwnSubtree(t, n, tab) && Reaches(tab, a, b)
    ensures Above(t, a, b) && (a in t.ids ==> b in t.ids)
  {
    var p :| IsPath(tab, a, p) && p[|p| - 1] == b;
    PathDescends(t, n, tab, a, p);
  }

  // A path below child k in the parent's table is a path in k's own.
  lemma {:induction false} PathMoves(t: Tree, k: u8, n: u8, above: Table, below: Table, a: u8, p: seq<u8>)
    requires t.Valid() && KnowsOwnSubtree(t, n, above) && ChildKnows(t, k, above, below) && UniqueIds(below)
    requires a in t.ids && Above(t, k, a) && IsPath(above, a, p)
    ensures IsPath(below, a, p)
    decreases |p|
  {
    if |p| > 1 {
      PathTail(above, a, p);
      KidsAreEdges(above, a, p[1]);
      KidsAreEdges(below, a, p[1]);
      AboveTransitive(t, k, a, p[1]);
      PathMoves(t, k, n, above, below, p[1], p[1..]);
      PathCons(below, a, p[1], p[1..]);
      assert [a] + p[1..] == p;
    }
  }

  lemma ReachesMoves(t: Tree, k: u8, n: u8, above: Table, below: Table, dst: u8)
    requires t.Valid() && KnowsOwnSubtree(t, n, above) && ChildKnows(t, k, above, below) && UniqueIds(below)
    requires k in t.ids && Reaches(above, k, dst)
    ensures Reaches(below, k, dst)
  {
    var p :| IsPath(above, k, p) && p[|p| - 1] == dst;
    PathMoves(t, k, n, above, below, k, p);
  }

  lemma ReachesGrows(tab: Table, tab': Table, a: u8, b: u8)
    requires Grows(tab, tab') && Reaches(tab, a, b)
    ensures Reaches(tab', a, b)
  {
    var p :| IsPath(tab, a, p) && p[|p| - 1] == b;
    forall i | 0 <= i < |p| - 1 ensures p[i + 1] in Kids(tab', p[i]) {
      assert p[i + 1] in Kids(tab, p[i]);
      KidsGrow(tab, tab', p[i]);
    }
    assert IsPath(tab', a, p);
  }

  lemma KidsGrow(tab: Table, tab': Table, id: u8)
    requires Grows(tab, tab')
    ensures Kids(tab, id) <= Kids(tab', id)
  {
    var k := Find(tab, id);
    if k < |tab| {
      forall i | 0 <= i < k ensures tab'[i].id != id { assert tab'[i].id == tab[i].id; }
      FindIs(tab', id, k);
    }
  }

  // ---------- Packets ----------

  function Destination(payload: seq<char>, from: u8): u8 { Unwrap(Received(payload, MSG_SIZE), from).0 }

  ghost predicate QueuedOk(t: Tree, n: u8, tab: Table, p: Packet) {
    && UpThenDown(t, p.trail) && p.trail[|p.trail| - 1] == n
    && (Descending(t, p.trail) ==> Reaches(tab, n, p.dst))
    && NUL !in p.msg
  }

  ghost predicate DataOk(t: Tree, s: Net, from: u8, to: u8, payload: seq<char>, trail: seq<u8>)
    requires t.Valid() && s.motes.Keys == t.ids
  {
    && UpThenDown(t, trail + [to]) && trail != [] && trail[|trail| - 1] == from
    && (Descending(t, trail + [to]) ==> Reaches(s.motes[to].table, to, Destination(payload, from)))
  }

  ghost predicate PathInv(t: Tree, s: Net) {
    && TreeInv(t, s)
    && (forall n, p :: n in t.ids && p in s.motes[n].packets ==> QueuedOk(t, n, s.motes[n].table, p))
    && (forall from, to, payload, trail :: Data(from, to, payload, trail) in s.sent ==>
          DataOk(t, s, from, to, payload, trail))
  }

  lemma TrailGrows(t: Tree, trail: seq<u8>, to: u8)
    requires t.Valid() && UpThenDown(t, trail) && to in t.ids
    requires (UpHop(t, trail[|trail| - 1], to) && !Descending(t, trail)) || DownHop(t, trail[|trail| - 1], to)
    ensures UpThenDown(t, trail + [to])
    ensures Descending(t, trail + [to]) <==> DownHop(t, trail[|trail| - 1], to)
  {
    var r := trail + [to];
    forall i | 0 <= i < |r| - 2 && DownHop(t, r[i], r[i + 1]) ensures DownHop(t, r[i + 1], r[i + 2]) {
      if i == |r| - 3 {
        assert Descending(t, trail);
      } else {
        assert DownHop(t, trail[i], trail[i + 1]);
      }
    }
    forall i | 0 <= i < |r| - 1 ensures UpHop(t, r[i], r[i + 1]) || DownHop(t, r[i], r[i + 1]) {
      if i < |trail| - 1 { assert UpHop(t, trail[i], trail[i + 1]) || DownHop(t, trail[i], trail[i + 1]); }
    }
  }

  lemma KidsAreTreeChildren(t: Tree, n: u8, tab: Table)
    requires t.Valid() && KnowsOwnSubtree(t, n, tab) && NULL_ID !in t.ids
    ensures NULL_ID !in Kids(tab, n) && forall c :: c in Kids(tab, n) ==> DownHop(t, n, c)
  {
    forall c | c in Kids(tab, n) ensures DownHop(t, n, c) && c != NULL_ID { KidsAreEdges(tab, n, c); }
  }

  // What a mote does with a queued packet: deliver it, pass it down to a child
  // that can take it on, or, if it never went down, pass it up; it drops only
  // packets that never went down, and only while it has no parent.
  lemma RouteFate(t: Tree, s: Net, n: u8, p: Packet)
    requires TreeInv(t, s) && ParentsFollow(t, s) && n in t.ids && QueuedOk(t, n, s.motes[n].table, p)
    ensures match FateOf(s.motes[n], p)
            case Delivered => p.dst == n
            case Dropped => !Descending(t, p.trail) && s.motes[n].parent == NULL_ID
            case Forwarded(to) =>
              && to in t.ids
              && ((DownHop(t, n, to) && Reaches(s.motes[to].table, to, p.dst))
                  || (UpHop(t, n, to) && !Descending(t, p.trail)))
  {
    hide UpThenDown, Reaches, IsFirstReaching, KnowsOwnSubtree, EdgesGenuine, SelectionOk, ControlFollows;
    var m := s.motes[n];
    assert MoteOk(t.ids, s.sent, n, m) && KnowsOwnSubtree(t, n, m.table);
    KidsAreTreeChildren(t, n, m.table);
    if p.dst != n {
      ForwarderMeaning(m.table, n, p.dst);
      var f := Forwarder(m.table, n, p.dst);
      if f != 0 {
        assert MoteOk(t.ids, s.sent, f, s.motes[f]);
        assert ChildKnows(t, f, m.table, s.motes[f].table);
        WellFormedUnique(s.motes[f].table);
        ReachesMoves(t, f, n, m.table, s.motes[f].table, p.dst);
      }
    }
  }

  lemma WellFormedUnique(tab: Table)
    requires WellFormed(tab, MAX_TREE_NODES)
    ensures UniqueIds(tab)
  {}

  lemma ForwardOk(t: Tree, s: Net, n: u8, p: Packet)
    requires TreeInv(t, s) && ParentsFollow(t, s) && n in t.ids && QueuedOk(t, n, s.motes[n].table, p)
    requires FateOf(s.motes[n], p).Forwarded?
    ensures var m := Forward(s.motes[n], p); m.Data? && DataOk(t, s, m.from, m.to, m.payload, m.trail)
  {
    hide TreeInv, Inv, ParentsFollow, UpThenDown, Reaches, DataPayload, Received, Unwrap, FateOf;
    TreeInvParts(t, s);
    var to := FateOf(s.motes[n], p).to;
    RouteFate(t, s, n, p);
    MoteId(t, s, n);
    HopRoundTrip(p.dst, p.msg, n);
    TrailIds(t, p.trail);
    TrailGrows(t, p.trail, to);
    if DownHop(t, n, to) { NotBothWays(t, to, n); }
  }

  lemma MoteId(t: Tree, s: Net, n: u8)
    requires TreeInv(t, s) && n in t.ids
    ensures s.motes[n].id == n && s.motes.Keys == t.ids
  {
    assert MoteOk(t.ids, s.sent, n, s.motes[n]);
  }

  lemma UnwrapClean(msg: string, from: u8)
    requires NUL !in msg
    ensures |Unwrap(msg, from).1| < MSG_SIZE && NUL !in Unwrap(msg, from).1
  {
    hide Atoi;
    if DST_TAG <= msg { AfterColonClean(msg[4..]); }
  }

  lemma AfterColonClean(s: string)
    requires NUL !in s
    ensures NUL !in AfterColon(s)
  {
    DropToClean(s, ":");
  }

  lemma {:induction false} DropToClean(s: string, stops: string)
    requires NUL !in s
    ensures NUL !in DropTo(s, stops)
  {
    if !(s == [] || s[0] in stops) { DropToClean(s[1..], stops); }
  }

  lemma ReceivedPacketOk(t: Tree, s: Net, n: u8, from: u8, payload: seq<char>, trail: seq<u8>)
    requires TreeInv(t, s) && n in t.ids && DataOk(t, s, from, n, payload, trail)
    ensures var r := Unwrap(Received(payload, MSG_SIZE), from);
            QueuedOk(t, n, s.motes[n].table, Packet(r.0, r.1, trail + [n]))
  {
    hide UpThenDown, Reaches, Received, Unwrap;
    UnwrapClean(Received(payload, MSG_SIZE), from);
  }

  lemma GeneratedPacketOk(t: Tree, n: u8, tab: Table, q: u16)
    requires n in t.ids
    ensures QueuedOk(t, n, tab, Packet(DESTINO, SeqText(q, n), [n]))
  {
    SeqTextShape(q, n);
  }

  // Every packet that a step leaves queued was queued, generated or received.
  lemma QueueAfter(m: Mote, a: Action, p: Packet)
    requires p in MoteAfter(m, a).packets && p !in m.packets
    ensures match a
            case Generate(_) => p == Packet(DESTINO, SeqText(U16(m.seqNum + 1), m.id), [m.id])
            case ReceiveData(_, from, payload, trail) =>
              var r := Unwrap(Received(payload, MSG_SIZE), from); p == Packet(r.0, r.1, trail + [m.id])
            case _ => false
  {
    hide Received, Unwrap, SinkFields, SeqText;
  }

  lemma QueuedGrows(t: Tree, n: u8, tab: Table, tab': Table, p: Packet)
    requires Grows(tab, tab') && QueuedOk(t, n, tab, p)
    ensures QueuedOk(t, n, tab', p)
  {
    hide UpThenDown, Reaches;
    if Descending(t, p.trail) { ReachesGrows(tab, tab', n, p.dst); }
  }

  lemma PathInvParts(t: Tree, s: Net)
    requires PathInv(t, s)
    ensures TreeInv(t, s) && t.Valid() && Inv(t.ids, s) && s.motes.Keys == t.ids
  {}

  lemma PathInvQueued(t: Tree, s: Net, n: u8, p: Packet)
    requires PathInv(t, s) && n in t.ids && n in s.motes && p in s.motes[n].packets
    ensures QueuedOk(t, n, s.motes[n].table, p)
  {}

  lemma PathInvData(t: Tree, s: Net, from: u8, to: u8, payload: seq<char>, trail: seq<u8>)
    requires PathInv(t, s) && t.Valid() && s.motes.Keys == t.ids && Data(from, to, payload, trail) in s.sent
    ensures DataOk(t, s, from, to, payload, trail)
  {}

  lemma NewlyQueued(t: Tree, s: Net, a: Action, p: Packet)
    requires PathInv(t, s) && Enabled(s, a)
    requires p in MoteAfter(s.motes[a.n], a).packets && p !in s.motes[a.n].packets
    ensures QueuedOk(t, a.n, s.motes[a.n].table, p)
  {
    hide PathInv, TreeInv, Inv, MoteAfter, QueuedOk, DataOk, Received, Unwrap, SeqText;
    PathInvParts(t, s);
    MoteId(t, s, a.n);
    QueueAfter(s.motes[a.n], a, p);
    match a {
      case Generate(n) => GeneratedPacketOk(t, n, s.motes[n].table, U16(s.motes[n].seqNum + 1));
      case ReceiveData(n, from, payload, trail) =>
        PathInvData(t, s, from, n, payload, trail);
        ReceivedPacketOk(t, s, n, from, payload, trail);
      case _ => assert false;
    }
  }

  lemma QueuesAfter(t: Tree, s: Net, a: Action, n: u8, p: Packet)
    requires PathInv(t, s) && ParentsFollow(t, s) && n in t.ids
    requires Step(s, a).motes.Keys == t.ids && p in Step(s, a).motes[n].packets
    requires Grows(s.motes[n].table, Step(s, a).motes[n].table)
    ensures QueuedOk(t, n, Step(s, a).motes[n].table, p)
  {
    hide TreeInv, UpThenDown, Reaches, MoteAfter, QueuedOk, ParentsFollow;
    TreeInvParts(t, s);
    if p !in s.motes[n].packets {
      assert Enabled(s, a) && a.n == n;
      NewlyQueued(t, s, a, p);
    }
    QueuedGrows(t, n, s.motes[n].table, Step(s, a).motes[n].table, p);
  }

  lemma NewData(s: Net, a: Action, from: u8, to: u8, payload: seq<char>, trail: seq<u8>)
    requires Data(from, to, payload, trail) in Step(s, a).sent && Data(from, to, payload, trail) !in s.sent
    ensures Enabled(s, a) && a.Route?
    ensures exists p :: p in s.motes[a.n].packets && FateOf(s.motes[a.n], p).Forwarded?
                        && Forward(s.motes[a.n], p) == Data(from, to, payload, trail)
  {
    hide FateOf, DataPayload, TablePayload;
  }

  lemma DataAfter(t: Tree, s: Net, a: Action, from: u8, to: u8, payload: seq<char>, trail: seq<u8>)
    requires PathInv(t, s) && ParentsFollow(t, s)
    requires Step(s, a).motes.Keys == t.ids && Data(from, to, payload, trail) in Step(s, a).sent
    requires to in t.ids ==> Grows(s.motes[to].table, Step(s, a).motes[to].table)
    ensures DataOk(t, Step(s, a), from, to, payload, trail)
  {
    hide TreeInv, Step, QueuedOk, DataOk, ParentsFollow, FateOf;
    TreeInvParts(t, s);
    if Data(from, to, payload, trail) !in s.sent {
      NewData(s, a, from, to, payload, trail);
      var p :| p in s.motes[a.n].packets && FateOf(s.motes[a.n], p).Forwarded?
               && Forward(s.motes[a.n], p) == Data(from, to, payload, trail);
      EnabledMote(s, a);
      ForwardOk(t, s, a.n, p);
    }
    DataGrows(t, s, Step(s, a), from, to, payload, trail);
  }

  lemma DataGrows(t: Tree, s: Net, s': Net, from: u8, to: u8, payload: seq<char>, trail: seq<u8>)
    requires t.Valid() && s.motes.Keys == t.ids == s'.motes.Keys
    requires DataOk(t, s, from, to, payload, trail)
    requires to in t.ids ==> Grows(s.motes[to].table, s'.motes[to].table)
    ensures DataOk(t, s', from, to, payload, trail)
  {
    hide UpThenDown, Reaches;
    TrailIds(t, trail + [to]);
    if Descending(t, trail + [to]) {
      ReachesGrows(s.motes[to].table, s'.motes[to].table, to, Destination(payload, from));
    }
  }

  lemma TrailIds(t: Tree, trail: seq<u8>)
    requires UpThenDown(t, trail)
    ensures trail != [] && trail[|trail| - 1] in t.ids
  {}

  lemma StepPathInv(t: Tree, s: Net, a: Action)
    requires PathInv(t, s) && ParentsFollow(t, s)
    ensures PathInv(t, Step(s, a))
  {
    hide TreeInv, Step, QueuedOk, ParentsFollow, DataOk;
    StepTreeInv(t, s, a);
    assert t.Valid() && Inv(t.ids, s) by { TreeInvParts(t, s); }
    TablesAfter(t, s, a);
    forall n, p | n in t.ids && p in Step(s, a).motes[n].packets ensures QueuedOk(t, n, Step(s, a).motes[n].table, p) {
      QueuesAfter(t, s, a, n, p);
    }
    forall from, to, payload, trail | Data(from, to, payload, trail) in Step(s, a).sent
      ensures DataOk(t, Step(s, a), from, to, payload, trail)
    {
      DataAfter(t, s, a, from, to, payload, trail);
    }
  }

  lemma TreeInvParts(t: Tree, s: Net)
    requires TreeInv(t, s)
    ensures t.Valid() && Inv(t.ids, s) && s.motes.Keys == t.ids
  {}

  lemma {:induction false} FixedPathInv(t: Tree, acts: seq<Action>)
    requires FixedRun(t, acts)
    ensures PathInv(t, After(t.ids, acts))
  {
    hide PathInv, Step, ParentsFollow;
    if acts == [] {
      BootPathInv(t);
    } else {
      var k := |acts| - 1;
      FixedPrefix(t, acts, k);
      FixedPathInv(t, acts[..k]);
      StepPathInv(t, After(t.ids, acts[..k]), acts[k]);
    }
  }

  lemma BootPathInv(t: Tree)
    requires t.Valid()
    ensures PathInv(t, Boot(t.ids))
  {
    BootTreeInv(t);
  }

  // ---------- Main results ----------

  // Every data unicast of every such run completes a walk that goes up and
  // then only down. Its hops, this one included, are at most the depth of the
  // source while it climbs, and at most depth(source) + depth(destination)
  // once it descends.
  lemma PacketsGoUpThenDown(t: Tree, acts: seq<Action>, from: u8, to: u8, payload: seq<char>, trail: seq<u8>)
    requires FixedRun(t, acts) && Data(from, to, payload, trail) in After(t.ids, acts).sent
    ensures trail != [] && trail[0] in t.ids && trail[|trail| - 1] == from && UpThenDown(t, trail + [to])
    ensures var dst := Destination(payload, from);
            if Descending(t, trail + [to])
            then dst in t.ids && Above(t, to, dst) && |trail| <= t.depth[trail[0]] + t.depth[dst]
            else |trail| <= t.depth[trail[0]]
  {
    FixedPathInv(t, acts);
    var s := After(t.ids, acts);
    var walk := trail + [to];
    assert walk[0] == trail[0];
    assert DataOk(t, s, from, to, payload, trail);
    ClimbLength(t, walk);
    if Descending(t, walk) {
      assert KnowsOwnSubtree(t, to, s.motes[to].table);
      ReachesIsAbove(t, to, s.motes[to].table, to, Destination(payload, from));
      AboveDepth(t, to, Destination(payload, from));
    }
  }

  // Once sent down to a child, a packet is never sent up again and never
  // dropped by the router; packets are dropped only by a mote that has no
  // parent, so only at the root if the other motes have theirs.
  lemma NeverBackUp(t: Tree, acts: seq<Action>, n: u8, p: Packet)
    requires FixedRun(t, acts) && n in t.ids
    requires n in After(t.ids, acts).motes && p in After(t.ids, acts).motes[n].packets
    ensures var fate := FateOf(After(t.ids, acts).motes[n], p);
            && (Descending(t, p.trail) ==>
                  if n == p.dst then fate == Delivered
                  else fate.Forwarded? && DownHop(t, n, fate.to) && Above(t, fate.to, p.dst))
            && (fate.Dropped? ==> After(t.ids, acts).motes[n].parent == NULL_ID)
            && (fate.Forwarded? ==> UpThenDown(t, p.trail + [fate.to]))
  {
    hide PathInv, TreeInv, Inv, ParentsFollow, FixedRun, After, FateOf, UpThenDown, Reaches;
    FixedPathInv(t, acts);
    var s := After(t.ids, acts);
    assert acts[..|acts|] == acts;
    FixedPrefix(t, acts, |acts|);
    PathInvParts(t, s);
    PathInvQueued(t, s, n, p);
    RouteFate(t, s, n, p);
    FateOfOther(s.motes[n], p);
    MoteId(t, s, n);
    var fate := FateOf(s.motes[n], p);
    if fate.Forwarded? {
      TrailGrows(t, p.trail, fate.to);
      if DownHop(t, n, fate.to) {
        KnowsOwn(t, s, fate.to);
        ReachesIsAbove(t, fate.to, s.motes[fate.to].table, fate.to, p.dst);
      }
    }
    if Descending(t, p.trail) && fate.Forwarded? && UpHop(t, n, fate.to) { NotBothWays(t, n, fate.to); }
  }

  lemma FateOfOther(m: Mote, p: Packet)
    ensures p.dst == m.id <==> FateOf(m, p) == Delivered
  {}

  lemma KnowsOwn(t: Tree, s: Net, n: u8)
    requires TreeInv(t, s) && n in t.ids
    ensures KnowsOwnSubtree(t, n, s.motes[n].table)
  {}

  // The downstream search of every mote returns, for every destination:
  // nothing it knows is cyclic.
  lemma SearchReturns(t: Tree, acts: seq<Action>, n: u8)
    requires FixedRun(t, acts) && n in t.ids
    ensures n in After(t.ids, acts).motes && AcyclicBelow(After(t.ids, acts).motes[n].table, n)
    ensures forall dst :: Halts(After(t.ids, acts).motes[n].table, n, dst)
  {
    hide TreeInv, Inv, Reaches, FixedRun, After, AcyclicBelow, Halts;
    FixedTreeInv(t, acts);
    var s := After(t.ids, acts);
    TreeInvParts(t, s);
    KnowsOwn(t, s, n);
    OwnSubtreeIsAcyclic(t, n, s.motes[n].table);
    forall dst ensures Halts(s.motes[n].table, n, dst) { HaltsIff(s.motes[n].table, n, dst); }
  }

  lemma OwnSubtreeIsAcyclic(t: Tree, n: u8, tab: Table)
    requires t.Valid() && n in t.ids && KnowsOwnSubtree(t, n, tab)
    ensures AcyclicBelow(tab, n)
  {
    hide Reaches;
    forall x, c | Reaches(tab, n, x) && c in Kids(tab, x) ensures !Reaches(tab, c, x) {
      KidsAreEdges(tab, x, c);
      ReachesIsAbove(t, n, tab, n, x);
      if Reaches(tab, c, x) {
        ReachesIsAbove(t, n, tab, c, x);
        AboveDepth(t, c, x);
        assert false;
      }
    }
  }
}
