/**
 What data packets carry, in every run, whatever parents and tables do.
 */
module Delivery {
  import opened CInts
  import opened PacketText
  import opened SinkStats
  import opened MoteModel
  import opened Network

  // How many packets the generating mote has numbered.
  function Generated(acts: seq<Action>): nat {
    if acts == [] then 0
    else Generated(acts[..|acts| - 1]) + (if acts[|acts| - 1] == Action.Generate(ORIGEN) then 1 else 0)
  }

  // The 16-bit number wraps after 65535 packets.
  ghost predicate Numbered(limit: nat, q: u16) { limit < 0x1_0000 ==> 1 <= q as nat <= limit }

  ghost predicate FromOrigin(limit: nat, dst: u8, msg: string, trail: seq<u8>) {
    && dst == DESTINO && trail != [] && trail[0] == ORIGEN
    && exists q: u16 :: Numbered(limit, q) && msg == SeqText(q, ORIGEN)
  }

  ghost predicate Airborne(limit: nat, payload: seq<char>, trail: seq<u8>) {
    && trail != [] && trail[0] == ORIGEN
    && exists q: u16 :: Numbered(limit, q) && payload == DataPayload(DESTINO, SeqText(q, ORIGEN))
  }

  ghost predicate StatsOk(limit: nat, stats: seq<Stat>) {
    |stats| <= 1 && forall i :: 0 <= i < |stats| ==> stats[i].src == ORIGEN && Numbered(limit, stats[i].seqMax)
  }

  ghost predicate MoteCarries(limit: nat, m: Mote) {
    && (forall p :: p in m.packets ==> FromOrigin(limit, p.dst, p.msg, p.trail))
    && StatsOk(limit, m.stats)
    && (m.id == ORIGEN && limit < 0x1_0000 ==> m.seqNum as nat == limit)
  }

  ghost predicate Carries(ids: set<u8>, limit: nat, s: Net) {
    && s.motes.Keys == ids && (forall n :: n in ids ==> s.motes[n].id == n && MoteCarries(limit, s.motes[n]))
    && (forall from, to, payload, trail :: Data(from, to, payload, trail) in s.sent ==> Airborne(limit, payload, trail))
  }

  // ---------- One step ----------

  lemma ForwardedIsAirborne(limit: nat, m: Mote, p: Packet)
    requires FromOrigin(limit, p.dst, p.msg, p.trail) && FateOf(m, p).Forwarded?
    ensures var d := Forward(m, p); d.Data? && Airborne(limit, d.payload, d.trail)
  {
    hide DataPayload, SeqText, FateOf;
    var q: u16 :| Numbered(limit, q) && p.msg == SeqText(q, ORIGEN);
    assert Forward(m, p).payload == DataPayload(DESTINO, SeqText(q, ORIGEN));
  }

  lemma ReceivedIsFromOrigin(limit: nat, n: u8, from: u8, payload: seq<char>, trail: seq<u8>)
    requires Airborne(limit, payload, trail)
    ensures var r := Unwrap(Received(payload, MSG_SIZE), from); FromOrigin(limit, r.0, r.1, trail + [n])
  {
    hide DataPayload, SeqText, Received, Unwrap, Wrap;
    var q: u16 :| Numbered(limit, q) && payload == DataPayload(DESTINO, SeqText(q, ORIGEN));
    SeqTextShape(q, ORIGEN);
    GeneratedFits(DESTINO, q, ORIGEN);
    HopRoundTrip(DESTINO, SeqText(q, ORIGEN), from);
    assert (trail + [n])[0] == trail[0];
  }

  lemma ReceivedFields(limit: nat, payload: seq<char>, trail: seq<u8>)
    requires Airborne(limit, payload, trail)
    ensures var f := SinkFields(Received(payload, MSG_SIZE)); f.0 == ORIGEN && Numbered(limit, f.1)
  {
    hide DataPayload, SeqText, Received, SinkFields;
    var q: u16 :| Numbered(limit, q) && payload == DataPayload(DESTINO, SeqText(q, ORIGEN));
    SinkReadsHop(DESTINO, q, ORIGEN);
  }

  lemma RecordOk(limit: nat, stats: seq<Stat>, q: u16)
    requires StatsOk(limit, stats) && Numbered(limit, q)
    ensures StatsOk(limit, Record(stats, Arrival(ORIGEN, q)))
  {}

  lemma ReceiveCarries(limit: nat, m: Mote, from: u8, payload: seq<char>, trail: seq<u8>)
    requires MoteCarries(limit, m) && Airborne(limit, payload, trail)
    ensures MoteCarries(limit, MoteModel.ReceiveData(m, from, payload, trail))
    ensures MoteModel.ReceiveData(m, from, payload, trail).id == m.id
  {
    hide Received, Unwrap, SinkFields, Record, FromOrigin, Airborne, StatsOk;
    ReceivedIsFromOrigin(limit, m.id, from, payload, trail);
    ReceivedFields(limit, payload, trail);
    RecordOk(limit, m.stats, SinkFields(Received(payload, MSG_SIZE)).1);
  }

  lemma NumberedGrows(limit: nat, q: u16)
    requires Numbered(limit, q)
    ensures Numbered(limit + 1, q)
  {}

  lemma CarriesGrows(limit: nat, m: Mote)
    requires MoteCarries(limit, m)
    ensures forall p :: p in m.packets ==> FromOrigin(limit + 1, p.dst, p.msg, p.trail)
    ensures StatsOk(limit + 1, m.stats)
    ensures m.id != ORIGEN ==> MoteCarries(limit + 1, m)
  {
    hide SeqText;
    forall p | p in m.packets ensures FromOrigin(limit + 1, p.dst, p.msg, p.trail) {
      var q: u16 :| Numbered(limit, q) && p.msg == SeqText(q, ORIGEN);
      NumberedGrows(limit, q);
    }
  }

  lemma AirborneGrows(limit: nat, payload: seq<char>, trail: seq<u8>)
    requires Airborne(limit, payload, trail)
    ensures Airborne(limit + 1, payload, trail)
  {
    hide SeqText, DataPayload;
    var q: u16 :| Numbered(limit, q) && payload == DataPayload(DESTINO, SeqText(q, ORIGEN));
    NumberedGrows(limit, q);
  }

  lemma GenerateCarries(limit: nat, m: Mote)
    requires MoteCarries(limit, m) && m.id == ORIGEN
    ensures MoteCarries(limit + 1, MoteModel.Generate(m))
  {
    hide SeqText, FromOrigin, StatsOk;
    CarriesGrows(limit, m);
    var q := U16(m.seqNum + 1);
    FreshIsFromOrigin(limit + 1, q);
  }

  lemma FreshIsFromOrigin(limit: nat, q: u16)
    requires Numbered(limit, q)
    ensures FromOrigin(limit, DESTINO, SeqText(q, ORIGEN), [ORIGEN])
  {
    hide SeqText;
  }

  lemma OtherStepsCarry(limit: nat, m: Mote, a: Action)
    requires MoteCarries(limit, m) && !a.ReceiveData? && !(a.Generate? && m.id == ORIGEN)
    ensures MoteCarries(limit, MoteAfter(m, a)) && MoteAfter(m, a).id == m.id
  {
    hide FromOrigin, StatsOk, SeqText;
  }

  lemma MoteStepCarries(ids: set<u8>, limit: nat, s: Net, a: Action)
    requires Carries(ids, limit, s) && Enabled(s, a)
    ensures var limit' := if a == Action.Generate(ORIGEN) then limit + 1 else limit;
            MoteCarries(limit', MoteAfter(s.motes[a.n], a)) && MoteAfter(s.motes[a.n], a).id == a.n
  {
    hide MoteCarries, Airborne, MoteAfter;
    var m := s.motes[a.n];
    MoteAfterCases(m, a);
    if a.ReceiveData? {
      ReceiveCarries(limit, m, a.from, a.payload, a.trail);
    } else if a.Generate? && m.id == ORIGEN {
      GenerateCarries(limit, m);
      GenerateId(m);
    } else {
      OtherStepsCarry(limit, m, a);
    }
  }

  lemma MoteAfterCases(m: Mote, a: Action)
    ensures a.ReceiveData? ==> MoteAfter(m, a) == MoteModel.ReceiveData(m, a.from, a.payload, a.trail)
    ensures a.Generate? ==> MoteAfter(m, a) == MoteModel.Generate(m)
  {}

  lemma GenerateId(m: Mote)
    ensures MoteModel.Generate(m).id == m.id
  {
    hide SeqText;
  }

  lemma EmittedIsAirborne(limit: nat, m: Mote, a: Action, from: u8, to: u8, payload: seq<char>, trail: seq<u8>)
    requires MoteCarries(limit, m) && Data(from, to, payload, trail) in Emits(m, a)
    ensures Airborne(limit, payload, trail)
  {
    hide FateOf, DataPayload, TablePayload, FromOrigin, Airborne;
    var p :| p in m.packets && FateOf(m, p).Forwarded? && Forward(m, p) == Data(from, to, payload, trail);
    ForwardedIsAirborne(limit, m, p);
  }

  lemma StepCarries(ids: set<u8>, limit: nat, s: Net, a: Action)
    requires Carries(ids, limit, s)
    ensures Carries(ids, if a == Action.Generate(ORIGEN) then limit + 1 else limit, Step(s, a))
  {
    hide MoteCarries, Airborne, MoteAfter, Emits;
    var limit' := if a == Action.Generate(ORIGEN) then limit + 1 else limit;
    var s' := Step(s, a);
    if Enabled(s, a) { MoteStepCarries(ids, limit, s, a); }
    forall n | n in ids ensures s'.motes[n].id == n && MoteCarries(limit', s'.motes[n]) {
      if !(Enabled(s, a) && n == a.n) && limit' > limit {
        CarriesGrows(limit, s.motes[n]);
      }
    }
    forall from, to, payload, trail | Data(from, to, payload, trail) in s'.sent
      ensures Airborne(limit', payload, trail)
    {
      if Data(from, to, payload, trail) !in s.sent {
        EmittedIsAirborne(limit, s.motes[a.n], a, from, to, payload, trail);
      }
      AirborneGrows(limit, payload, trail);
    }
  }

  lemma {:induction false} AlwaysCarries(ids: set<u8>, acts: seq<Action>)
    ensures Carries(ids, Generated(acts), After(ids, acts))
  {
    hide Step, Carries;
    if acts == [] {
      BootCarries(ids);
    } else {
      AlwaysCarries(ids, acts[..|acts| - 1]);
      StepCarries(ids, Generated(acts[..|acts| - 1]), After(ids, acts[..|acts| - 1]), acts[|acts| - 1]);
    }
  }

  lemma BootCarries(ids: set<u8>)
    ensures Carries(ids, 0, Boot(ids))
  {}

  // ---------- Main results ----------

  // In every run, after any hops, every queued packet is one the origin
  // generated, unaltered and for the one destination; only that destination
  // ever delivers it.
  lemma PacketsAreAsGenerated(ids: set<u8>, acts: seq<Action>, n: u8, p: Packet)
    requires n in After(ids, acts).motes && p in After(ids, acts).motes[n].packets
    ensures FromOrigin(Generated(acts), p.dst, p.msg, p.trail)
    ensures FateOf(After(ids, acts).motes[n], p) == Delivered <==> n == DESTINO
  {
    hide FromOrigin, StatsOk;
    AlwaysCarries(ids, acts);
    var m := After(ids, acts).motes[n];
    assert MoteCarries(Generated(acts), m) && m.id == n;
    assert p.dst == DESTINO by { OriginDst(Generated(acts), p.dst, p.msg, p.trail); }
  }

  lemma OriginDst(limit: nat, dst: u8, msg: string, trail: seq<u8>)
    requires FromOrigin(limit, dst, msg, trail)
    ensures dst == DESTINO
  {}

  // The sink's table never names another source, and its `seq_max`, printed as
  // the number of packets sent, never exceeds the number really generated.
  lemma SinkNeverOvercounts(ids: set<u8>, acts: seq<Action>, e: Stat)
    requires ROOT in ids && Generated(acts) < 0x1_0000
    ensures ROOT in After(ids, acts).motes
    ensures e in After(ids, acts).motes[ROOT].stats ==> e.src == ORIGEN && 1 <= e.seqMax as nat <= Generated(acts)
  {
    hide FromOrigin;
    AlwaysCarries(ids, acts);
    assert MoteCarries(Generated(acts), After(ids, acts).motes[ROOT]);
  }

  // What the sink has received, reception by reception.
  ghost function ArrivalsAtSink(ids: set<u8>, acts: seq<Action>): seq<Arrival> {
    if acts == [] then [] else
    var front, a := acts[..|acts| - 1], acts[|acts| - 1];
    ArrivalsAtSink(ids, front) +
    (if a.ReceiveData? && a.n == ROOT && Enabled(After(ids, front), a)
     then [Arrival(SinkFields(Received(a.payload, MSG_SIZE)).0, SinkFields(Received(a.payload, MSG_SIZE)).1)] else [])
  }

  lemma TallySnoc(arrivals: seq<Arrival>, a: Arrival)
    ensures Tally(arrivals + [a]) == Record(Tally(arrivals), a)
  {
    assert (arrivals + [a])[..|arrivals + [a]| - 1] == arrivals;
  }

  lemma StatsStep(s: Net, a: Action)
    requires ROOT in s.motes && s.motes[ROOT].id == ROOT
    ensures ROOT in Step(s, a).motes && Step(s, a).motes[ROOT].id == ROOT
    ensures var stats, stats' := s.motes[ROOT].stats, Step(s, a).motes[ROOT].stats;
            if a.ReceiveData? && a.n == ROOT && Enabled(s, a)
            then var f := SinkFields(Received(a.payload, MSG_SIZE)); stats' == Record(stats, Arrival(f.0, f.1))
            else stats' == stats
  {
    hide Received, Unwrap, SinkFields, Record, SeqText;
  }

  // In every run the sink's table is the tally of exactly its receptions.
  lemma {:induction false} SinkTableIsTally(ids: set<u8>, acts: seq<Action>)
    requires ROOT in ids
    ensures ROOT in After(ids, acts).motes && After(ids, acts).motes[ROOT].id == ROOT
    ensures After(ids, acts).motes[ROOT].stats == Tally(ArrivalsAtSink(ids, acts))
  {
    hide Step, Enabled, SinkFields, Received;
    if acts != [] {
      var front, a := acts[..|acts| - 1], acts[|acts| - 1];
      SinkTableIsTally(ids, front);
      StatsStep(After(ids, front), a);
      var f := SinkFields(Received(if a.ReceiveData? then a.payload else [], MSG_SIZE));
      TallySnoc(ArrivalsAtSink(ids, front), Arrival(f.0, f.1));
      assert ArrivalsAtSink(ids, front) + [] == ArrivalsAtSink(ids, front);
    }
  }

  lemma StatsElsewhere(m: Mote, a: Action)
    requires m.id != ROOT
    ensures MoteAfter(m, a).stats == m.stats && MoteAfter(m, a).id == m.id
  {
    hide Received, Unwrap, SinkFields, SeqText;
    StepTouches(m, a);
  }

  // Only the sink counts.
  lemma {:induction false} OnlySinkCounts(ids: set<u8>, acts: seq<Action>, n: u8)
    requires n in ids && n != ROOT
    ensures n in After(ids, acts).motes && After(ids, acts).motes[n].id == n && After(ids, acts).motes[n].stats == []
  {
    hide MoteAfter, Emits, Enabled;
    if acts != [] {
      var front, a := acts[..|acts| - 1], acts[|acts| - 1];
      OnlySinkCounts(ids, front, n);
      StatsElsewhere(After(ids, front).motes[n], a);
    }
  }
}
