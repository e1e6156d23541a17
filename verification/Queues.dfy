/**
 What becomes of queued packets, in every run: none is lost between coming in
 and being routed, and each is routed once.
 */
module Queues {
  import opened CInts
  import opened PacketText
  import opened MoteModel
  import opened Network

  // The packet a step brings to the queue, if there is room for it.
  ghost function Incoming(m: Mote, a: Action): seq<Packet> {
    if |m.packets| >= POOL_SIZE then [] else
    match a
    case Generate(_) => if m.id == ORIGEN then [Packet(DESTINO, SeqText(U16(m.seqNum + 1), m.id), [m.id])] else []
    case ReceiveData(_, from, payload, trail) =>
      var r := Unwrap(Received(payload, MSG_SIZE), from); [Packet(r.0, r.1, trail + [m.id])]
    case _ => []
  }

  // Every step but routing keeps the queue, behind what it brings.
  lemma QueueStep(m: Mote, a: Action)
    ensures MoteAfter(m, a).packets == if a.Route? then [] else Incoming(m, a) + m.packets
  {
    hide Received, Unwrap, SinkFields, SeqText;
    StepTouches(m, a);
    assert [] + m.packets == m.packets;
  }

  // ... to mote n, in the network.
  ghost function Brought(s: Net, a: Action, n: u8): seq<Packet> {
    if a.n == n && Enabled(s, a) then Incoming(s.motes[n], a) else []
  }

  ghost function QueueOf(s: Net, n: u8): seq<Packet> { if n in s.motes then s.motes[n].packets else [] }

  // All packets that have come in at n, newest first.
  ghost function Came(ids: set<u8>, acts: seq<Action>, n: u8): seq<Packet> {
    if acts == [] then [] else
    var front, a := acts[..|acts| - 1], acts[|acts| - 1];
    Brought(After(ids, front), a, n) + Came(ids, front, n)
  }

  // All packets that the router of n has taken off its list, the latest batch
  // first and each in the order of the queue.
  ghost function Routed(ids: set<u8>, acts: seq<Action>, n: u8): seq<Packet> {
    if acts == [] then [] else
    var front, a := acts[..|acts| - 1], acts[|acts| - 1];
    (if a == Action.Route(n) then QueueOf(After(ids, front), n) else []) + Routed(ids, front, n)
  }

  lemma QueueAfterStep(s: Net, a: Action, n: u8)
    ensures QueueOf(Step(s, a), n) ==
            if a == Action.Route(n) then []
            else Brought(s, a, n) + QueueOf(s, n)
  {
    hide MoteAfter, Emits, Incoming;
    assert [] + QueueOf(s, n) == QueueOf(s, n);
    if a.n == n && Enabled(s, a) { QueueStep(s.motes[n], a); }
    RouteBringsNothing(s, a, n);
  }

  lemma Regroup(a: seq<Packet>, b: seq<Packet>, c: seq<Packet>)
    ensures a + (b + c) == (a + b) + c && [] + b == b
  {}

  // In every run and at every mote, what came in is what is queued followed by
  // what was routed, in order and with repetitions: nothing is lost, doubled or
  // reordered in between.
  lemma {:induction false} QueueConservation(ids: set<u8>, acts: seq<Action>, n: u8)
    ensures Came(ids, acts, n) == QueueOf(After(ids, acts), n) + Routed(ids, acts, n)
  {
    hide Step, Brought, QueueOf;
    if acts == [] {
      EmptyAtBoot(ids, n);
    } else {
      var front, a := acts[..|acts| - 1], acts[|acts| - 1];
      var s := After(ids, front);
      QueueConservation(ids, front, n);
      QueueAfterStep(s, a, n);
      RouteBringsNothing(s, a, n);
      Regroup(Brought(s, a, n), QueueOf(s, n), Routed(ids, front, n));
      Regroup([], QueueOf(s, n), Routed(ids, front, n));
      Regroup([], Routed(ids, front, n), []);
    }
  }

  lemma RouteBringsNothing(s: Net, a: Action, n: u8)
    ensures a.Route? ==> Brought(s, a, n) == []
  {}

  lemma EmptyAtBoot(ids: set<u8>, n: u8)
    ensures QueueOf(After(ids, []), n) == []
  {}

  // Routing gives each packet on the list its one fate: the forwarded ones, and
  // only they, are put on the air, each to its next hop and with its payload.
  lemma RoutingSends(s: Net, n: u8, msg: Msg)
    requires n in s.motes
    ensures var s' := Step(s, Action.Route(n));
            msg in s'.sent <==> msg in s.sent || exists p :: p in QueueOf(s, n) && SentFor(s.motes[n], p, msg)
  {
    hide FateOf, DataPayload;
    var m, a := s.motes[n], Action.Route(n);
    assert Step(s, a).sent == s.sent + Emits(m, a);
    if p :| p in QueueOf(s, n) && SentFor(m, p, msg) { assert Forward(m, p) in Emits(m, a); }
    if msg in Emits(m, a) {
      var p :| p in m.packets && FateOf(m, p).Forwarded? && Forward(m, p) == msg;
      assert SentFor(m, p, msg);
    }
  }

  ghost predicate SentFor(m: Mote, p: Packet, msg: Msg) {
    FateOf(m, p).Forwarded? && msg == Data(m.id, FateOf(m, p).to, DataPayload(p.dst, p.msg), p.trail)
  }

  predicate EndsWith<T(==)>(r: seq<T>, q: seq<T>) { |q| <= |r| && r[|r| - |q|..] == q }

  // What is queued stays queued, behind newer packets, until the mote routes.
  lemma {:induction false} QueuedUntilRouted(ids: set<u8>, acts: seq<Action>, more: seq<Action>, n: u8)
    requires forall a :: a in more ==> a != Action.Route(n)
    ensures EndsWith(QueueOf(After(ids, acts + more), n), QueueOf(After(ids, acts), n))
    decreases |more|
  {
    hide Step, Brought, QueueOf, After;
    if more == [] {
      assert acts + more == acts;
    } else {
      var front, a := more[..|more| - 1], more[|more| - 1];
      assert more == front + [a];
      forall x | x in front + [a] ensures x != Action.Route(n) { assert x in more; }
      assert a in front + [a];
      forall x | x in front ensures x != Action.Route(n) { assert x in front + [a]; }
      QueuedUntilRouted(ids, acts, front, n);
      assert acts + more == (acts + front) + [a];
      AfterSnoc(ids, acts + front, a);
      var s := After(ids, acts + front);
      QueueAfterStep(s, a, n);
      StillEndsWith(Brought(s, a, n), QueueOf(s, n), QueueOf(After(ids, acts), n));
    }
  }

  lemma StillEndsWith(x: seq<Packet>, r: seq<Packet>, q: seq<Packet>)
    requires EndsWith(r, q)
    ensures EndsWith(x + r, q)
  {}
}
