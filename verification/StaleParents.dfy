/**
 The two ways in which parent selection fails although every mote knows its
 neighbours, in runs, and what further beacons can do about it.
 */
module StaleParents {
  import opened CInts
  import opened MoteModel
  import opened Network
  import opened ParentLoops
  import opened BestPath

  // ---------- Hearing a neighbour again ----------

  lemma LoneLoser(c: Candidate)
    requires !Eligible(c)
    ensures Winner([c]) == 1
  {
    assert [c][..0] == [];
  }

  // A mote with one neighbour hears it again: it takes the new path if that is
  // eligible, else it stores it and keeps parent and metric.
  lemma DoHearAgain(s: Net, n: u8, from: u8, adv: i16, rssi: i8, metric: i16, c0: Candidate)
    requires n in s.motes && Beacon(from, adv) in s.sent && from != n && rssi < 0 && n != ROOT
    requires s.motes[n] == Leaf(n, from, metric, [c0]) && c0.id == from && -1128 <= adv + rssi < 0
    ensures var metric' := if adv + rssi > NO_PATH then adv + rssi else metric;
            Step(s, HearBeacon(n, from, adv, rssi)) ==
            Net(s.motes[n := Leaf(n, from, metric', [Candidate(from, adv + rssi, rssi)])], s.sent)
  {
    var c := Candidate(from, adv + rssi, rssi);
    assert FindCandidate([c0], from) == 0 && [c0][0 := c] == [c];
    if adv + rssi > NO_PATH { LoneWinner(c); } else { LoneLoser(c); }
  }

  // ---------- A parent kept although nothing is eligible ----------

  // Mote 2 loses the root and says so; mote 3 hears it and stays with mote 2.
  function StaleRun(): seq<Action> {
    [SendBeacon(1), HearBeacon(2, 1, 0, -10), SendBeacon(2), HearBeacon(3, 2, -10, -10), Expire(2, 1),
     SendBeacon(2), HearBeacon(3, 2, -1000, -10)]
  }

  function StaleLinks(): Links { map[(3, 2) := -10] }

  lemma StaleState()
    ensures var s := After({1, 2, 3}, StaleRun());
            && s.motes.Keys == {1, 2, 3} && s.motes[2] == Init(2)
            && s.motes[3] == Leaf(3, 2, -20, [Candidate(2, -1010, -10)])
  {
    hide Step;
    var ids: set<u8>, r := {1, 2, 3}, StaleRun();
    var s0 := Boot(ids);
    DoBeacon(s0, 1, 0);
    var s1 := Step(s0, r[0]);
    DoHear(s1, 2, 1, 0, -10);
    var s2 := Step(s1, r[1]);
    DoBeacon(s2, 2, -10);
    var s3 := Step(s2, r[2]);
    DoHear(s3, 3, 2, -10, -10);
    var s4 := Step(s3, r[3]);
    DoExpire(s4, 2, Candidate(1, -10, -10));
    var s5 := Step(s4, r[4]);
    DoBeacon(s5, 2, -1000);
    var s6 := Step(s5, r[5]);
    DoHearAgain(s6, 3, 2, -1000, -10, -20, Candidate(2, -20, -10));
    AfterIsSteps(ids, [], r);
    assert [] + r == r;
    SevenSteps(s0, r);
  }

  lemma SevenSteps(s: Net, r: seq<Action>)
    requires |r| == 7
    ensures var s4 := Step(Step(Step(Step(s, r[0]), r[1]), r[2]), r[3]);
            Steps(s, r) == Step(Step(Step(s4, r[4]), r[5]), r[6])
  {
    hide Step;
    var s4 := Step(Step(Step(Step(s, r[0]), r[1]), r[2]), r[3]);
    FourSteps(s, r);
    var q := r[4..];
    assert Steps(s4, q) == Steps(Step(s4, q[0]), q[1..]);
    assert q[1..] == [q[1], q[2]] && [q[1], q[2]][1..] == [q[2]] && [q[2]][1..] == [];
    assert Steps(Step(Step(s4, q[0]), q[1]), [q[2]]) == Steps(Step(Step(Step(s4, q[0]), q[1]), q[2]), []);
  }

  lemma FourSteps(s: Net, r: seq<Action>)
    requires |r| >= 4
    ensures Steps(s, r) == Steps(Step(Step(Step(Step(s, r[0]), r[1]), r[2]), r[3]), r[4..])
  {
    hide Step;
    var t1 := Step(s, r[0]);
    var t2 := Step(t1, r[1]);
    var t3 := Step(t2, r[2]);
    assert Steps(s, r) == Steps(t1, r[1..]) == Steps(t2, r[2..]) == Steps(t3, r[3..]) == Steps(Step(t3, r[3]), r[4..]);
  }

  // Every mote knows its neighbours, and mote 3 has a parent and a metric for a
  // root it has no path to.
  lemma StaleParent()
    ensures var s := After({1, 2, 3}, StaleRun());
            && UpToDate(s, StaleLinks()) && NoneWaiting(s)
            && 3 in s.motes && Stale(s.motes[3]) && s.motes[3].parent == 2 && s.motes[3].metric == -20
            && !AllChosen(s) && !AllRight(s, StaleLinks())
            && forall p :: !PathToRoot(StaleLinks(), 3, p)
  {
    hide After;
    StaleState();
    var s := After({1, 2, 3}, StaleRun());
    assert s.motes[3].cands[0] == Candidate(2, -1010, -10);
    assert Listed(s.motes[3].cands, 2);
    NoWayFrom3();
    assert !RouteRight(s, StaleLinks(), 3);
  }

  lemma NoWayFrom3()
    ensures forall p :: !PathToRoot(StaleLinks(), 3, p)
    ensures !Reachable(StaleLinks(), 3)
  {
    forall p ensures !PathToRoot(StaleLinks(), 3, p) {
      if |p| > 1 { NoWayFrom2(p[1..]); }
    }
  }

  lemma NoWayFrom2(p: seq<u8>)
    ensures !IsRoute(StaleLinks(), 2, p)
  {}

  // ---------- No parent although a neighbour is eligible ----------

  // Mote 3 loses its parent and hears nothing more.
  function WaitingRun(): seq<Action> {
    [SendBeacon(1), HearBeacon(2, 1, 0, -10), HearBeacon(3, 1, 0, -50), SendBeacon(2), HearBeacon(3, 2, -10, -10),
     Expire(3, 2)]
  }

  function WaitingLinks(): Links { map[(2, 1) := -10, (3, 1) := -50] }

  // Mote 3, which has heard only the root, hears mote 2.
  lemma DoHearSecond(s: Net)
    requires 3 in s.motes && Beacon(2, -10) in s.sent && s.motes[3] == Leaf(3, 1, -50, [Candidate(1, -50, -50)])
    ensures Step(s, HearBeacon(3, 2, -10, -10)) ==
            Net(s.motes[3 := Leaf(3, 2, -20, [Candidate(2, -20, -10), Candidate(1, -50, -50)])], s.sent)
  {
    hide Winner, FindCandidate, I16;
    var c, d := Candidate(2, -20, -10), Candidate(1, -50, -50);
    FirstOfTwo(c, d);
    assert I16(-10 + -10) == -20 by { SmallSum(); }
    assert MoteModel.HearBeacon(s.motes[3], 2, -10, -10) == Select(s.motes[3].(cands := [c, d]));
  }

  lemma SmallSum()
    ensures I16(-10 + -10) == -20
  {}

  lemma FirstOfTwo(c: Candidate, d: Candidate)
    requires c == Candidate(2, -20, -10) && d == Candidate(1, -50, -50)
    ensures FindCandidate([d], 2) == 1 && [c] + [d] == [c, d] && Winner([c, d]) == 0
  {
    LoneWinner(c);
    assert [c, d][..1] == [c];
  }

  lemma DoExpireFirst(s: Net)
    requires 3 in s.motes && s.motes[3] == Leaf(3, 2, -20, [Candidate(2, -20, -10), Candidate(1, -50, -50)])
    ensures Step(s, Expire(3, 2)) == Net(s.motes[3 := Init(3).(cands := [Candidate(1, -50, -50)])], s.sent)
  {
    var c, d := Candidate(2, -20, -10), Candidate(1, -50, -50);
    assert FindCandidate([c, d], 2) == 0 && RemoveAt([c, d], 0) == [d];
  }

  lemma WaitingState()
    ensures var s := After({1, 2, 3}, WaitingRun());
            && s.motes.Keys == {1, 2, 3} && s.motes[1] == Init(1)
            && s.motes[2] == Leaf(2, 1, -10, [Candidate(1, -10, -10)])
            && s.motes[3] == Init(3).(cands := [Candidate(1, -50, -50)])
  {
    hide Step;
    var ids: set<u8>, r := {1, 2, 3}, WaitingRun();
    var s0 := Boot(ids);
    DoBeacon(s0, 1, 0);
    var s1 := Step(s0, r[0]);
    DoHear(s1, 2, 1, 0, -10);
    var s2 := Step(s1, r[1]);
    DoHear(s2, 3, 1, 0, -50);
    var s3 := Step(s2, r[2]);
    DoBeacon(s3, 2, -10);
    var s4 := Step(s3, r[3]);
    DoHearSecond(s4);
    var s5 := Step(s4, r[4]);
    DoExpireFirst(s5);
    AfterIsSteps(ids, [], r);
    assert [] + r == r;
    FourSteps(s0, r);
    TwoMore(s4, r[4..]);
  }

  lemma TwoMore(s: Net, q: seq<Action>)
    requires |q| == 2
    ensures Steps(s, q) == Step(Step(s, q[0]), q[1])
  {
    hide Step;
    assert q[1..] == [q[1]] && [q[1]][1..] == [];
    assert Steps(Step(s, q[0]), [q[1]]) == Steps(Step(Step(s, q[0]), q[1]), []);
  }

  // Every mote knows its neighbours, mote 3 hears the root itself and has no
  // parent.
  lemma WaitingMote()
    ensures var s := After({1, 2, 3}, WaitingRun());
            && UpToDate(s, WaitingLinks())
            && 3 in s.motes && Waiting(s.motes[3])
            && !AllChosen(s) && !AllRight(s, WaitingLinks())
  {
    hide After;
    WaitingState();
    var s := After({1, 2, 3}, WaitingRun());
    assert Eligible(s.motes[3].cands[0]);
    assert s.motes[2].cands[0].id == 1 && s.motes[3].cands[0].id == 1;
    RootHeard();
    assert !RouteRight(s, WaitingLinks(), 3);
  }

  lemma RootHeard()
    ensures Reachable(WaitingLinks(), 3)
  {
    assert [3, 1][1..] == [1];
    assert IsRoute(WaitingLinks(), 1, [1]) && Strength(WaitingLinks(), [1]) == 0;
    assert PathToRoot(WaitingLinks(), 3, [3, 1]) && Strength(WaitingLinks(), [3, 1]) == -50;
  }

  // ---------- Beacons between motes that know each other ----------

  // Sending, or hearing what a neighbour advertises now over its link.
  ghost predicate FreshBeacon(s: Net, links: Links, a: Action) {
    a.SendBeacon? ||
    (a.HearBeacon? && a.from in s.motes && (a.n, a.from) in links
     && a.adv == Advertised(s.motes[a.from]) && a.rssi == links[(a.n, a.from)])
  }

  // The same neighbours with the same paths in the same places.
  ghost predicate SamePaths(cs: seq<Candidate>, cs': seq<Candidate>) {
    |cs| == |cs'| && forall i :: 0 <= i < |cs| ==> cs[i].id == cs'[i].id && cs[i].path == cs'[i].path
  }

  ghost predicate SameChoice(m: Mote, m': Mote) {
    && m'.id == m.id && m'.metric == m.metric
    && (m.id != ROOT ==>
          && SamePaths(m.cands, m'.cands) && (m.parent == NULL_ID <==> m'.parent == NULL_ID)
          && (NoneEligible(m.cands) ==> m'.parent == m.parent))
  }

  ghost predicate SameChoices(s: Net, s': Net) {
    s'.motes.Keys == s.motes.Keys && forall n :: n in s.motes ==> SameChoice(s.motes[n], s'.motes[n])
  }

  lemma HearFresh(ids: set<u8>, s: Net, links: Links, a: Action)
    requires Inv(ids, s) && UpToDate(s, links) && NoneWaiting(s)
    requires FreshBeacon(s, links, a) && Enabled(s, a)
    ensures SameChoice(s.motes[a.n], MoteAfter(s.motes[a.n], a))
  {
    hide MsgOk, Hear, FindCandidate;
    var m := s.motes[a.n];
    assert MoteOk(ids, s.sent, a.n, m);
    if a.HearBeacon? {
      if a.n == ROOT {
        RootHears(m, a.from, a.adv, a.rssi);
      } else {
        assert KnowsNeighbours(s, links, m) && !Waiting(m) && Listed(m.cands, a.from);
        var i :| 0 <= i < |m.cands| && m.cands[i].id == a.from;
        KnownPathHeard(m, i, a.from, a.adv, a.rssi);
      }
    }
  }

  lemma RootHears(m: Mote, from: u8, adv: i16, rssi: i8)
    requires m.id == ROOT
    ensures var r := MoteModel.HearBeacon(m, from, adv, rssi); r.id == ROOT && r.metric == m.metric
  {
    hide Hear, FindCandidate;
  }

  // What the mote already stores changes neither paths nor metric.
  lemma KnownPathHeard(m: Mote, i: int, from: u8, adv: i16, rssi: i8)
    requires SelectionOk(m) && m.id != ROOT && !Waiting(m)
    requires 0 <= i < |m.cands| && m.cands[i].id == from && m.cands[i].path as int == adv as int + rssi as int
    ensures SameChoice(m, MoteModel.HearBeacon(m, from, adv, rssi))
  {
    var c := Candidate(from, I16(adv + rssi), rssi);
    var k := FindCandidate(m.cands, from);
    assert k == i;
    var cs := Hear(m.cands, c);
    assert SamePaths(m.cands, cs);
    var w := Winner(cs);
    if w < |cs| {
      assert Eligible(m.cands[w]);
      assert m.parent != NULL_ID;
      var j :| 0 <= j < |m.cands| && m.cands[j].id == m.parent && IsMaximum(m.cands, j) && m.metric == m.cands[j].path;
      assert Eligible(cs[j]);
    } else {
      assert NoneEligible(m.cands);
    }
  }

  lemma SameStep(ids: set<u8>, s: Net, links: Links, a: Action)
    requires Inv(ids, s) && UpToDate(s, links) && NoneWaiting(s) && FreshBeacon(s, links, a)
    ensures SameChoices(s, Step(s, a))
  {
    hide Inv, UpToDate, NoneWaiting, FreshBeacon, SameChoice, MoteAfter, Emits;
    forall n | n in s.motes ensures SameChoice(s.motes[n], s.motes[n]) { SameSelf(s.motes[n]); }
    if Enabled(s, a) { HearFresh(ids, s, links, a); }
  }

  lemma SameSelf(m: Mote)
    ensures SameChoice(m, m)
  {}

  lemma SameEligible(cs: seq<Candidate>, cs': seq<Candidate>)
    requires SamePaths(cs, cs')
    ensures NoneEligible(cs) <==> NoneEligible(cs')
    ensures forall b :: Listed(cs, b) ==> Listed(cs', b)
  {
    if NoneEligible(cs') {
      forall i | 0 <= i < |cs| ensures !Eligible(cs[i]) { assert !Eligible(cs'[i]); }
    }
    forall b | Listed(cs, b) ensures Listed(cs', b) {
      var i :| 0 <= i < |cs| && cs[i].id == b;
      assert cs'[i].id == b;
    }
  }

  lemma SameStays(s: Net, links: Links, s': Net)
    requires UpToDate(s, links) && NoneWaiting(s) && SameChoices(s, s')
    requires forall n :: n in s.motes ==> s.motes[n].id == n
    ensures UpToDate(s', links) && NoneWaiting(s')
    ensures forall a :: FreshBeacon(s, links, a) ==> FreshBeacon(s', links, a)
  {
    forall n | n in s'.motes && n != ROOT
      ensures KnowsNeighbours(s', links, s'.motes[n]) && !Waiting(s'.motes[n])
    {
      assert KnowsNeighbours(s, links, s.motes[n]) && !Waiting(s.motes[n]) && SameChoice(s.motes[n], s'.motes[n]);
      SameEligible(s.motes[n].cands, s'.motes[n].cands);
    }
  }

  lemma SameTransitive(s: Net, s1: Net, s2: Net)
    requires SameChoices(s, s1) && SameChoices(s1, s2)
    ensures SameChoices(s, s2)
  {
    forall n | n in s.motes ensures SameChoice(s.motes[n], s2.motes[n]) {
      var m, m1, m2 := s.motes[n], s1.motes[n], s2.motes[n];
      assert SameChoice(m, m1) && SameChoice(m1, m2);
      if m.id != ROOT { SameEligible(m.cands, m1.cands); }
    }
  }

  lemma IdsAreKeys(ids: set<u8>, s: Net)
    requires Inv(ids, s)
    ensures forall n :: n in s.motes ==> s.motes[n].id == n
  {
    forall n | n in s.motes ensures s.motes[n].id == n { assert MoteOk(ids, s.sent, n, s.motes[n]); }
  }

  // Once every mote knows its neighbours and none waits, fresh beacons, any
  // number in any order, leave all metrics and paths as they are: no mote gains
  // or loses a parent, and a stale mote keeps the one it has.
  lemma {:induction false} FreshBeaconsChangeNothing(ids: set<u8>, s: Net, links: Links, more: seq<Action>)
    requires Inv(ids, s) && UpToDate(s, links) && NoneWaiting(s)
    requires forall a :: a in more ==> FreshBeacon(s, links, a)
    ensures SameChoices(s, Steps(s, more)) && Inv(ids, Steps(s, more))
    decreases |more|
  {
    hide Inv, UpToDate, NoneWaiting, FreshBeacon, SameChoice, Step;
    if more == [] {
      forall n | n in s.motes ensures SameChoice(s.motes[n], s.motes[n]) { SameSelf(s.motes[n]); }
    } else {
      var s1 := Step(s, more[0]);
      SameStep(ids, s, links, more[0]);
      StepOk(ids, s, more[0]);
      IdsAreKeys(ids, s);
      SameStays(s, links, s1);
      FreshBeaconsChangeNothing(ids, s1, links, more[1..]);
      SameTransitive(s, s1, Steps(s, more));
    }
  }

  // ---------- A loop for good ----------

  // n beacons what it has, m hears it, m beacons that, n hears it, and so on
  // until what is heard is not eligible any more.
  function CountDown(n: u8, m: u8, adv: i16, link: i8): seq<Action>
    requires link < 0 && NO_PATH < adv < 0
    decreases adv + 1000
  {
    [SendBeacon(n), HearBeacon(m, n, adv, link)] +
    (if adv + link <= NO_PATH then [] else CountDown(m, n, adv + link, link))
  }

  // p and q are each other's parent, and q has heard a path it cannot take.
  ghost predicate Stuck(s: Net, p: u8, q: u8, link: i8) {
    && p in s.motes && q in s.motes && p != q && p != ROOT && q != ROOT && link < 0
    && exists r: i16 :: NO_PATH < r < 0 && r + link <= NO_PATH && r - link < 0
         && s.motes[p] == Leaf(p, q, r, [Candidate(q, r, link)])
         && s.motes[q] == Leaf(q, p, r - link, [Candidate(p, r + link, link)])
  }

  lemma {:induction false} CountsDown(s: Net, n: u8, m: u8, adv: i16, link: i8)
    requires n in s.motes && m in s.motes && n != m && n != ROOT && m != ROOT
    requires link < 0 && NO_PATH < adv < 0 && adv - link < 0
    requires s.motes[n] == Leaf(n, m, adv, [Candidate(m, adv, link)])
    requires s.motes[m] == Leaf(m, n, adv - link, [Candidate(n, adv - link, link)])
    ensures var s' := Steps(s, CountDown(n, m, adv, link));
            (Stuck(s', n, m, link) || Stuck(s', m, n, link)) && s'.motes.Keys == s.motes.Keys
    decreases adv + 1000
  {
    hide Step, Steps;
    var a1, a2 := SendBeacon(n), HearBeacon(m, n, adv, link);
    DoBeacon(s, n, adv);
    var s1 := Step(s, a1);
    DoHearAgain(s1, m, n, adv, link, adv - link, Candidate(n, adv - link, link));
    var s2 := Step(s1, a2);
    var rest := if adv + link <= NO_PATH then [] else CountDown(m, n, adv + link, link);
    TwoFirst(s, a1, a2, rest);
    if adv + link <= NO_PATH {
      assert Stuck(s2, n, m, link);
    } else {
      CountsDown(s2, m, n, adv + link, link);
    }
  }

  lemma TwoFirst(s: Net, a: Action, b: Action, rest: seq<Action>)
    ensures Steps(s, [a, b] + rest) == Steps(Step(Step(s, a), b), rest)
    ensures rest == [] ==> Steps(s, [a, b] + rest) == Step(Step(s, a), b)
  {
    hide Step;
    var r := [a, b] + rest;
    assert r[1..] == [b] + rest && r[1..][1..] == rest;
    assert Steps(s, r) == Steps(Step(s, a), r[1..]) == Steps(Step(Step(s, a), b), r[1..][1..]);
  }

  function LoopLinks(): Links { map[(2, 3) := -10, (3, 2) := -10] }

  // The eight steps after which 2 and 3 are each other's parent, and then the
  // beacons they send each other.
  function EndlessRun(): seq<Action> { LoopRun() + CountDown(2, 3, -30, -10) }

  lemma EndlessState()
    ensures var s := After({1, 2, 3}, EndlessRun());
            s.motes.Keys == {1, 2, 3} && (Stuck(s, 2, 3, -10) || Stuck(s, 3, 2, -10))
  {
    hide After, Step, Steps, CountDown, LoopRun, Stuck;
    LoopStates();
    AfterIsSteps({1, 2, 3}, LoopRun(), CountDown(2, 3, -30, -10));
    CountsDown(After({1, 2, 3}, LoopRun()), 2, 3, -30, -10);
  }

  lemma StuckIsStale(s: Net, p: u8, q: u8)
    requires s.motes.Keys == {1, 2, 3} && Stuck(s, p, q, -10) && (p, q) in {(2, 3), (3, 2)}
    ensures UpToDate(s, LoopLinks()) && NoneWaiting(s) && Stale(s.motes[q]) && !AllChosen(s)
    ensures s.motes[p].parent == q && s.motes[q].parent == p
    ensures |s.motes[p].cands| == 1 == |s.motes[q].cands| && s.motes[p].cands[0].id == q && s.motes[q].cands[0].id == p
  {
    var r: i16 :| NO_PATH < r < 0 && r + -10 <= NO_PATH && r - -10 < 0
         && s.motes[p] == Leaf(p, q, r, [Candidate(q, r, -10)])
         && s.motes[q] == Leaf(q, p, r - -10, [Candidate(p, r + -10, -10)]);
    assert Eligible(s.motes[p].cands[0]) && !Eligible(s.motes[q].cands[0]);
    assert forall n :: n in s.motes && n != ROOT ==> n == p || n == q;
  }

  // Two motes that only list each other and have parents.
  lemma OnlyEachOther(ids: set<u8>, s: Net, s': Net, p: u8, q: u8)
    requires SameChoices(s, s') && Inv(ids, s') && p in s.motes && s.motes[p].id == p != ROOT
    requires s.motes[p].parent != NULL_ID && |s.motes[p].cands| == 1 && s.motes[p].cands[0].id == q
    ensures s'.motes[p].parent == q
  {
    hide MsgOk;
    assert SameChoice(s.motes[p], s'.motes[p]) && MoteOk(ids, s'.sent, p, s'.motes[p]);
  }

  lemma {:induction false} ClimbsRound(s: Net, k: nat)
    requires 2 in s.motes && 3 in s.motes && s.motes[2].parent == 3 && s.motes[3].parent == 2
    ensures Climb(s, 2, k) in {2, 3} && Climb(s, 3, k) in {2, 3}
  {
    if k > 0 { ClimbsRound(s, k - 1); }
  }

  // Every mote knows its neighbours, 2 and 3 are each other's parent, and no
  // fresh beacons, however many, make following parents reach the root.
  lemma LoopForGood(more: seq<Action>, k: nat)
    requires forall a :: a in more ==> FreshBeacon(After({1, 2, 3}, EndlessRun()), LoopLinks(), a)
    ensures UpToDate(After({1, 2, 3}, EndlessRun()), LoopLinks()) && NoneWaiting(After({1, 2, 3}, EndlessRun()))
    ensures !AllChosen(After({1, 2, 3}, EndlessRun()))
    ensures var s := After({1, 2, 3}, EndlessRun() + more); Climb(s, 2, k) in {2, 3} && Climb(s, 3, k) in {2, 3}
  {
    hide After, Steps, EndlessRun, Inv, UpToDate, NoneWaiting, AllChosen, Stuck, FreshBeacon, Climb, SameChoices;
    hide LoopLinks;
    var ids: set<u8> := {1, 2, 3};
    var s := After(ids, EndlessRun());
    EndlessState();
    AlwaysInv(ids, EndlessRun());
    AfterIsSteps(ids, EndlessRun(), more);
    IdsAreKeys(ids, s);
    if Stuck(s, 2, 3, -10) { StuckIsStale(s, 2, 3); } else { StuckIsStale(s, 3, 2); }
    FreshBeaconsChangeNothing(ids, s, LoopLinks(), more);
    var s' := Steps(s, more);
    OnlyEachOther(ids, s, s', 2, 3);
    OnlyEachOther(ids, s, s', 3, 2);
    InvKeys(ids, s');
    ClimbsRound(s', k);
  }
}
