/**
 When the sink's loss table is right, over whole runs.
 */
module LossFigures {
  import opened CInts
  import opened PacketText
  import opened SinkStats
  import opened MoteModel
  import opened Network
  import opened FixedTree
  import opened TreePaths
  import opened ParentLoops
  import opened Delivery

  // Step i of the run is a reception of data at the sink.
  ghost predicate HeardAt(ids: set<u8>, acts: seq<Action>, i: nat) {
    i < |acts| && acts[i].ReceiveData? && acts[i].n == ROOT && Enabled(After(ids, acts[..i]), acts[i])
  }

  ghost predicate HeardNumber(ids: set<u8>, acts: seq<Action>, i: nat, q: u16) {
    HeardAt(ids, acts, i) && NumberOf(acts[i].payload) == q
  }

  // No data unicast is received twice at the sink.
  ghost predicate NoneRepeated(ids: set<u8>, acts: seq<Action>) {
    forall i: nat, j: nat :: i < j && HeardAt(ids, acts, i) && HeardAt(ids, acts, j) ==> acts[i] != acts[j]
  }

  // ---------- A number reaches the sink on one path only ----------

  ghost predicate Climbs(t: Tree, trail: seq<u8>) {
    trail != [] && forall i :: 0 <= i < |trail| - 1 ==> UpHop(t, trail[i], trail[i + 1])
  }

  lemma {:induction false} NotDescendingClimbs(t: Tree, trail: seq<u8>)
    requires t.Valid() && UpThenDown(t, trail) && !Descending(t, trail)
    ensures Climbs(t, trail)
  {
    if |trail| >= 2 {
      var n := |trail|;
      var front := trail[..n - 1];
      assert UpHop(t, trail[n - 2], trail[n - 2 + 1]);
      NotDescendingClimbs(t, front);
      forall i | 0 <= i < n - 1 ensures UpHop(t, trail[i], trail[i + 1]) {
        if i < n - 2 { assert UpHop(t, front[i], front[i + 1]); }
      }
    }
  }

  lemma {:induction false} ClimbsAgree(t: Tree, a: seq<u8>, b: seq<u8>, k: nat)
    requires Climbs(t, a) && Climbs(t, b) && a[0] == b[0] && k < |a| && k < |b|
    ensures a[k] == b[k]
  {
    if k > 0 {
      ClimbsAgree(t, a, b, k - 1);
      assert UpHop(t, a[k - 1], a[k - 1 + 1]) && UpHop(t, b[k - 1], b[k - 1 + 1]);
    }
  }

  // A climb from one mote to another is unique.
  lemma OneClimb(t: Tree, a: seq<u8>, b: seq<u8>)
    requires t.Valid() && UpThenDown(t, a) && UpThenDown(t, b) && !Descending(t, a) && !Descending(t, b)
    requires a[0] == b[0] && a[|a| - 1] == b[|b| - 1]
    ensures a == b
  {
    hide UpThenDown, Descending;
    ClimbLength(t, a);
    ClimbLength(t, b);
    NotDescendingClimbs(t, a);
    NotDescendingClimbs(t, b);
    forall k: nat | k < |a| ensures a[k] == b[k] { ClimbsAgree(t, a, b, k); }
  }

  lemma RootIsNotBelow(t: Tree, trail: seq<u8>)
    requires t.Valid()
    ensures !Descending(t, trail + [ROOT])
  {}

  function NumberOf(payload: seq<char>): u16 { SinkFields(Received(payload, MSG_SIZE)).1 }

  // The number determines the payload.
  lemma PayloadOfNumber(limit: nat, payload: seq<char>, trail: seq<u8>)
    requires Airborne(limit, payload, trail)
    ensures payload == DataPayload(DESTINO, SeqText(NumberOf(payload), ORIGEN))
    ensures SinkFields(Received(payload, MSG_SIZE)) == (ORIGEN, NumberOf(payload))
    ensures Numbered(limit, NumberOf(payload)) && trail != [] && trail[0] == ORIGEN
  {
    hide DataPayload, SeqText, Received, SinkFields;
    var q: u16 :| Numbered(limit, q) && payload == DataPayload(DESTINO, SeqText(q, ORIGEN));
    SinkReadsHop(DESTINO, q, ORIGEN);
  }

  lemma AirborneAt(ids: set<u8>, acts: seq<Action>, from: u8, to: u8, payload: seq<char>, trail: seq<u8>)
    requires Data(from, to, payload, trail) in After(ids, acts).sent
    ensures Airborne(Generated(acts), payload, trail)
  {
    hide After, Airborne, MoteCarries;
    AlwaysCarries(ids, acts);
  }

  // Two unicasts to the sink with the same number are the same unicast.
  lemma OneUnicastPerNumber(t: Tree, acts: seq<Action>, from: u8, from': u8,
                            payload: seq<char>, payload': seq<char>, trail: seq<u8>, trail': seq<u8>)
    requires FixedRun(t, acts)
    requires Data(from, ROOT, payload, trail) in After(t.ids, acts).sent
    requires Data(from', ROOT, payload', trail') in After(t.ids, acts).sent
    requires NumberOf(payload) == NumberOf(payload')
    ensures from == from' && payload == payload' && trail == trail'
  {
    hide After, FixedRun, UpThenDown, Descending, Above, Airborne, DataPayload, SeqText, Received, SinkFields;
    AirborneAt(t.ids, acts, from, ROOT, payload, trail);
    AirborneAt(t.ids, acts, from', ROOT, payload', trail');
    PayloadOfNumber(Generated(acts), payload, trail);
    PayloadOfNumber(Generated(acts), payload', trail');
    PacketsGoUpThenDown(t, acts, from, ROOT, payload, trail);
    PacketsGoUpThenDown(t, acts, from', ROOT, payload', trail');
    FixedIsValid(t, acts);
    RootIsNotBelow(t, trail);
    RootIsNotBelow(t, trail');
    var a, b := trail + [ROOT], trail' + [ROOT];
    OneClimb(t, a, b);
    assert trail == a[..|a| - 1] && trail' == b[..|b| - 1];
  }

  lemma FixedIsValid(t: Tree, acts: seq<Action>)
    requires FixedRun(t, acts)
    ensures t.Valid()
  {}

  // ---------- So the sink's numbers are distinct ----------

  ghost function Numbers(ids: set<u8>, acts: seq<Action>): seq<u16> { SeqsOf(ArrivalsAtSink(ids, acts), ORIGEN) }

  lemma {:induction false} SentStays(ids: set<u8>, acts: seq<Action>, k: nat)
    requires k <= |acts|
    ensures After(ids, acts[..k]).sent <= After(ids, acts).sent
    decreases |acts|
  {
    hide After, Step;
    if k == |acts| {
      assert acts[..k] == acts;
    } else {
      var front, a := acts[..|acts| - 1], acts[|acts| - 1];
      assert front + [a] == acts && front[..k] == acts[..k];
      SentStays(ids, front, k);
      AfterSnoc(ids, front, a);
      SentGrows(After(ids, front), a);
    }
  }

  lemma SentGrows(s: Net, a: Action)
    ensures s.sent <= Step(s, a).sent
  {}

  lemma EnabledData(s: Net, a: Action)
    requires a.ReceiveData? && Enabled(s, a)
    ensures Data(a.from, a.n, a.payload, a.trail) in s.sent
  {}

  lemma HeardWasSent(ids: set<u8>, acts: seq<Action>, i: nat)
    requires HeardAt(ids, acts, i)
    ensures Data(acts[i].from, ROOT, acts[i].payload, acts[i].trail) in After(ids, acts).sent
  {
    hide After, Enabled;
    EnabledData(After(ids, acts[..i]), acts[i]);
    SentStays(ids, acts, i);
  }

  lemma HeardPrefix(ids: set<u8>, front: seq<Action>, a: Action, i: nat)
    ensures i < |front| ==> (HeardAt(ids, front + [a], i) <==> HeardAt(ids, front, i)) && (front + [a])[i] == front[i]
    ensures HeardAt(ids, front + [a], |front|) <==>
              a.ReceiveData? && a.n == ROOT && Enabled(After(ids, front), a)
  {
    hide Enabled, After;
    if i < |front| { assert (front + [a])[..i] == front[..i]; }
    assert (front + [a])[..|front|] == front;
  }

  // What one step adds to the sink's numbers.
  lemma NumbersAfter(ids: set<u8>, front: seq<Action>, a: Action)
    ensures Numbers(ids, front + [a]) ==
            Numbers(ids, front) + (if HeardAt(ids, front + [a], |front|) then [NumberOf(a.payload)] else [])
  {
    hide Enabled, SinkFields, Received, After, SeqsOf, HeardAt, Airborne;
    var acts, k := front + [a], |front|;
    assert acts[..k] == front;
    HeardPrefix(ids, front, a, k);
    if HeardAt(ids, acts, k) {
      var f := SinkFields(Received(a.payload, MSG_SIZE));
      EnabledData(After(ids, front), a);
      AirborneAt(ids, front, a.from, ROOT, a.payload, a.trail);
      PayloadOfNumber(Generated(front), a.payload, a.trail);
      SeqsOfSnoc(ArrivalsAtSink(ids, front), Arrival(f.0, f.1), ORIGEN);
    } else {
      assert ArrivalsAtSink(ids, front) + [] == ArrivalsAtSink(ids, front);
      assert Numbers(ids, front) + [] == Numbers(ids, front);
    }
  }

  // The numbers the sink has are those of its receptions.
  lemma {:induction false} NumberHeardIff(ids: set<u8>, acts: seq<Action>, q: u16)
    ensures q in Numbers(ids, acts) <==> exists i: nat :: HeardNumber(ids, acts, i, q)
  {
    hide Numbers, HeardAt, NumberOf;
    if acts == [] {
      NoArrivals(ids);
      NoneHeard(ids);
    } else {
      var front, a := acts[..|acts| - 1], acts[|acts| - 1];
      assert front + [a] == acts;
      NumberHeardIff(ids, front, q);
      NumbersAfter(ids, front, a);
      if q in Numbers(ids, acts) && q !in Numbers(ids, front) { assert HeardNumber(ids, acts, |front|, q); }
      if i: nat :| HeardNumber(ids, front, i, q) {
        HeardIndex(ids, front, i);
        HeardPrefix(ids, front, a, i);
        assert HeardNumber(ids, acts, i, q);
      }
      if i: nat :| HeardNumber(ids, acts, i, q) {
        HeardIndex(ids, acts, i);
        HeardPrefix(ids, front, a, i);
        if i < |front| { assert HeardNumber(ids, front, i, q); }
      }
    }
  }

  lemma HeardIndex(ids: set<u8>, acts: seq<Action>, i: nat)
    requires HeardAt(ids, acts, i)
    ensures i < |acts| && acts[i].ReceiveData? && acts[i].n == ROOT
  {}

  lemma NoneHeard(ids: set<u8>)
    ensures forall i: nat :: !HeardAt(ids, [], i)
  {}

  // The last step repeats a number exactly if it repeats a reception.
  lemma RepeatsIff(t: Tree, front: seq<Action>, a: Action)
    requires FixedRun(t, front) && HeardAt(t.ids, front + [a], |front|)
    ensures NumberOf(a.payload) in Numbers(t.ids, front) <==> exists i: nat :: HeardAt(t.ids, front, i) && front[i] == a
  {
    hide After, FixedRun, Numbers, Enabled, NumberOf;
    var q := NumberOf(a.payload);
    HeardPrefix(t.ids, front, a, |front|);
    EnabledData(After(t.ids, front), a);
    NumberHeardIff(t.ids, front, q);
    if i: nat :| HeardNumber(t.ids, front, i, q) {
      HeardWasSent(t.ids, front, i);
      OneUnicastPerNumber(t, front, front[i].from, a.from, front[i].payload, a.payload, front[i].trail, a.trail);
      assert front[i] == a;
    }
    if i: nat :| HeardAt(t.ids, front, i) && front[i] == a { assert HeardNumber(t.ids, front, i, q); }
  }

  lemma NoneRepeatedSnoc(ids: set<u8>, front: seq<Action>, a: Action)
    ensures NoneRepeated(ids, front + [a]) <==>
              && NoneRepeated(ids, front)
              && !(HeardAt(ids, front + [a], |front|) && exists i: nat :: HeardAt(ids, front, i) && front[i] == a)
  {
    hide HeardAt;
    var acts := front + [a];
    forall i: nat ensures HeardAt(ids, acts, i) <==>
                          if i < |front| then HeardAt(ids, front, i) else i == |front| && HeardAt(ids, acts, |front|)
    {
      HeardPrefix(ids, front, a, i);
      if HeardAt(ids, acts, i) { HeardIndex(ids, acts, i); }
    }
    forall i: nat | HeardAt(ids, front, i) ensures i < |front| { HeardIndex(ids, front, i); }
  }

  // With fixed parents, the sink hears no number twice exactly when it
  // receives no data unicast twice: packets reach it on one path only.
  lemma {:induction false} DistinctIffNoneRepeated(t: Tree, acts: seq<Action>)
    requires FixedRun(t, acts)
    ensures Distinct(Numbers(t.ids, acts)) <==> NoneRepeated(t.ids, acts)
  {
    hide After, FixedRun, Numbers, HeardAt, NumberOf, NoneRepeated;
    if acts == [] {
      NoArrivals(t.ids);
      NoneHeard(t.ids);
      NoneRepeatedYet(t.ids);
    } else {
      var front, a := acts[..|acts| - 1], acts[|acts| - 1];
      assert front + [a] == acts;
      FixedPrefix(t, acts, |front|);
      DistinctIffNoneRepeated(t, front);
      NumbersAfter(t.ids, front, a);
      NoneRepeatedSnoc(t.ids, front, a);
      if HeardAt(t.ids, acts, |front|) {
        HeardPrefix(t.ids, front, a, |front|);
        RepeatsIff(t, front, a);
        DistinctSnoc(Numbers(t.ids, front), NumberOf(a.payload));
      } else {
        assert Numbers(t.ids, front) + [] == Numbers(t.ids, front);
      }
    }
  }

  lemma NoneRepeatedYet(ids: set<u8>)
    ensures NoneRepeated(ids, [])
  {}

  lemma NoArrivals(ids: set<u8>)
    ensures Numbers(ids, []) == []
  {}

  lemma DistinctSnoc(s: seq<u16>, q: u16)
    ensures Distinct(s + [q]) <==> Distinct(s) && q !in s
  {
    var r := s + [q];
    if Distinct(r) {
      forall i, j | 0 <= i < j < |s| ensures s[i] != s[j] { assert r[i] != r[j]; }
      forall i | 0 <= i < |s| ensures s[i] != q { assert r[i] != r[|s|]; }
    }
  }

  // So, with fixed parents and the 16-bit number not yet wrapped, the number
  // printed as lost is the number of packets up to the largest one heard that
  // never arrived, exactly when no data unicast was received twice.
  lemma SinkLossIsExactIff(t: Tree, acts: seq<Action>, e: Stat)
    requires FixedRun(t, acts) && Generated(acts) < 0x1_0000 && |Numbers(t.ids, acts)| < 0x1_0000
    requires ROOT in After(t.ids, acts).motes && e in After(t.ids, acts).motes[ROOT].stats
    ensures e.src == ORIGEN && 1 <= e.seqMax as nat <= Generated(acts)
    ensures Lost(e) as nat == |Missing(Numbers(t.ids, acts))| <==> NoneRepeated(t.ids, acts)
    ensures NoneRepeated(t.ids, acts) ==>
              && e.received as nat == |Numbers(t.ids, acts)|
              && LossPercent(e) as nat == |Missing(Numbers(t.ids, acts))| * 100 / e.seqMax as nat <= 100
  {
    hide After, FixedRun, SeqsOf, ArrivalsAtSink, Tally, Missing, MaxOf, Generated, NoneRepeated, Distinct;
    RootInTree(t, acts);
    SinkNeverOvercounts(t.ids, acts, e);
    SinkTableIsTally(t.ids, acts);
    DistinctIffNoneRepeated(t, acts);
    NoZero(t.ids, acts);
    LostCountsMissingIff(ArrivalsAtSink(t.ids, acts), e);
    if NoneRepeated(t.ids, acts) { LossIsMeaningful(ArrivalsAtSink(t.ids, acts), e); }
  }

  lemma RootInTree(t: Tree, acts: seq<Action>)
    requires FixedRun(t, acts)
    ensures ROOT in t.ids
  {}

  lemma NoZero(ids: set<u8>, acts: seq<Action>)
    requires Generated(acts) < 0x1_0000
    ensures 0 !in Numbers(ids, acts)
  {
    hide After, Numbers, Generated, Airborne, NumberOf;
    if 0 in Numbers(ids, acts) {
      NumberHeardIff(ids, acts, 0);
      var i: nat :| HeardNumber(ids, acts, i, 0);
      HeardWasSent(ids, acts, i);
      AirborneAt(ids, acts, acts[i].from, ROOT, acts[i].payload, acts[i].trail);
      PayloadOfNumber(Generated(acts), acts[i].payload, acts[i].trail);
    }
  }

  // ---------- With a repetition ----------

  // Mote 8 below the sink sends its first packet once.
  function FirstPayload(): seq<char> { DataPayload(DESTINO, SeqText(1, ORIGEN)) }

  function TwiceRun(): seq<Action> {
    var heard := Action.ReceiveData(1, 8, FirstPayload(), [8]);
    [SendBeacon(1), HearBeacon(8, 1, 0, -10), Action.Generate(8), Action.Route(8), heard, heard]
  }

  lemma DoGenerate(s: Net)
    requires ORIGEN in s.motes && s.motes[ORIGEN].id == ORIGEN && s.motes[ORIGEN].packets == []
    requires s.motes[ORIGEN].seqNum == 0
    ensures Step(s, Action.Generate(8)) ==
            Net(s.motes[8 := s.motes[8].(seqNum := 1, packets := [Packet(DESTINO, SeqText(1, 8), [8])])], s.sent)
  {
    hide SeqText;
    assert [Packet(DESTINO, SeqText(1, 8), [8])] + [] == [Packet(DESTINO, SeqText(1, 8), [8])];
  }

  lemma DoRouteUp(s: Net, n: u8, p: Packet)
    requires n in s.motes && s.motes[n].id == n && s.motes[n].packets == [p] && p.dst != n
    requires s.motes[n].table == [] && s.motes[n].parent != NULL_ID
    ensures Step(s, Action.Route(n)) ==
            Net(s.motes[n := s.motes[n].(packets := [])],
                s.sent + {Data(n, s.motes[n].parent, DataPayload(p.dst, p.msg), p.trail)})
  {
    hide DataPayload;
    var m := s.motes[n];
    assert FateOf(m, p) == Forwarded(m.parent);
    assert Emits(m, Action.Route(n)) == {Forward(m, p)};
  }

  lemma DoSinkReceives(s: Net, q: u16)
    requires ROOT in s.motes && s.motes[ROOT].id == ROOT
    requires Data(8, 1, DataPayload(DESTINO, SeqText(q, 8)), [8]) in s.sent
    ensures var s' := Step(s, Action.ReceiveData(1, 8, DataPayload(DESTINO, SeqText(q, 8)), [8]));
            && s'.sent == s.sent && 1 in s'.motes && s'.motes[1].id == 1
            && s'.motes[1].stats == Record(s.motes[1].stats, Arrival(8, q))
            && s'.motes.Keys == s.motes.Keys && (8 in s.motes ==> s'.motes[8] == s.motes[8])
            && s'.motes[1].parent == s.motes[1].parent
  {
    hide DataPayload, SeqText, Received, Unwrap, SinkFields, Record;
    SinkReadsHop(DESTINO, q, 8);
  }

  function Pair(): Tree { Tree({1, 8}, map[8 := 1], map[1 := 0, 8 := 1]) }

  lemma PrefixStep(ids: set<u8>, r: seq<Action>, k: nat)
    requires k < |r|
    ensures After(ids, r[..k + 1]) == Step(After(ids, r[..k]), r[k])
  {
    hide Step;
    assert r[..k + 1] == r[..k] + [r[k]];
    AfterSnoc(ids, r[..k], r[k]);
  }

  // Only 1 is ever anybody's parent.
  ghost predicate PairParents(s: Net) {
    s.motes.Keys == {1, 8} && s.motes[1].parent == NULL_ID && s.motes[8].parent in {0, 1}
  }

  lemma TwiceStates()
    ensures forall k :: 0 <= k <= 6 ==> PairParents(After({1, 8}, TwiceRun()[..k]))
    ensures 1 in After({1, 8}, TwiceRun()).motes
    ensures After({1, 8}, TwiceRun()).motes[1].stats == Record(Record([], Arrival(8, 1)), Arrival(8, 1))
  {
    hide Step, DataPayload, SeqText, Record, After;
    var ids: set<u8>, r := {1, 8}, TwiceRun();
    var s0 := Boot(ids);
    assert After(ids, r[..0]) == s0 by { NoActions(ids); }
    PrefixStep(ids, r, 0);
    DoBeacon(s0, 1, 0);
    var s1 := Step(s0, r[0]);
    PrefixStep(ids, r, 1);
    DoHear(s1, 8, 1, 0, -10);
    var s2 := Step(s1, r[1]);
    PrefixStep(ids, r, 2);
    DoGenerate(s2);
    var s3 := Step(s2, r[2]);
    PrefixStep(ids, r, 3);
    DoRouteUp(s3, 8, Packet(DESTINO, SeqText(1, 8), [8]));
    var s4 := Step(s3, r[3]);
    PrefixStep(ids, r, 4);
    DoSinkReceives(s4, 1);
    var s5 := Step(s4, r[4]);
    PrefixStep(ids, r, 5);
    DoSinkReceives(s5, 1);
    assert r[..6] == r;
  }

  lemma NoActions(ids: set<u8>)
    ensures After(ids, TwiceRun()[..0]) == Boot(ids)
  {}

  // Repetitions do happen: parents never change, one packet is generated and
  // heard twice, and the table counts 65535 of one as lost.
  lemma RepetitionMiscounts()
    ensures FixedRun(Pair(), TwiceRun()) && Generated(TwiceRun()) == 1 && ROOT in After(Pair().ids, TwiceRun()).motes
    ensures After(Pair().ids, TwiceRun()).motes[ROOT].stats == [Stat(8, 1, 2)] && Lost(Stat(8, 1, 2)) == 65535
  {
    hide After, Record, TwiceRun, Generated;
    TwiceStates();
    GeneratedOnce();
    TwiceIs();
    forall k | 0 <= k <= 6 ensures ParentsFollow(Pair(), After(Pair().ids, TwiceRun()[..k])) {
      PairFollows(After(Pair().ids, TwiceRun()[..k]));
    }
  }

  lemma PairFollows(s: Net)
    requires PairParents(s)
    ensures ParentsFollow(Pair(), s)
  {}

  lemma TwiceIs()
    ensures |TwiceRun()| == 6
    ensures Record(Record([], Arrival(8, 1)), Arrival(8, 1)) == [Stat(8, 1, 2)]
  {
    hide DataPayload, SeqText;
    assert [] + [Stat(8, 1, 1)] == [Stat(8, 1, 1)] && [Stat(8, 1, 1)][0 := Stat(8, 1, 2)] == [Stat(8, 1, 2)];
  }

  lemma GeneratedOnce()
    ensures Generated(TwiceRun()) == 1
  {
    hide DataPayload, SeqText;
    var r := TwiceRun();
    assert r[..5][..4] == r[..4] && r[..4][..3] == r[..3] && r[..3][..2] == r[..2] && r[..2][..1] == r[..1];
    assert r[..1][..0] == [];
    assert Generated(r[..1]) == 0;
    assert Generated(r[..2]) == 0;
    assert Generated(r[..3]) == 1;
    assert Generated(r[..4]) == 1;
  }
}
