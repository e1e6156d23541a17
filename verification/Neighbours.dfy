/**
 What the neighbour list of a mote says, in every run: of each neighbour the
 last beacon heard, until it expires.
 */
module Neighbours {
  import opened CInts
  import opened MoteModel
  import opened Network
  import opened BestPath

  // The entry for b that the run has left at n, if any: from the last beacon of
  // b that found an entry or room, unless it has expired since.
  datatype Heard = Nothing | Entry(c: Candidate)

  ghost function LastHeard(ids: set<u8>, acts: seq<Action>, n: u8, b: u8): Heard {
    if acts == [] then Nothing else
    var front, a := acts[..|acts| - 1], acts[|acts| - 1];
    var s, before := After(ids, front), LastHeard(ids, front, n, b);
    if a == Action.Expire(n, b) then Nothing
    else if a.HearBeacon? && a.n == n && a.from == b && Enabled(s, a)
            && (before.Entry? || |s.motes[n].cands| < POOL_SIZE) then
      Entry(Candidate(b, I16(a.adv + a.rssi), a.rssi))
    else before
  }

  ghost predicate InList(cs: seq<Candidate>, b: u8, h: Heard) {
    forall c :: c in cs && c.id == b <==> h == Entry(c)
  }

  lemma ListedIff(cs: seq<Candidate>, b: u8)
    ensures Listed(cs, b) <==> exists c :: c in cs && c.id == b
  {
    if c :| c in cs && c.id == b {
      var i :| 0 <= i < |cs| && cs[i] == c;
      assert cs[i].id == b;
    }
  }

  // One step, for one neighbour.
  lemma EntryStep(m: Mote, a: Action, b: u8, before: Heard)
    requires CandidatesOk(m.cands) && InList(m.cands, b, before)
    ensures InList(MoteAfter(m, a).cands, b,
                   if a.Expire? && a.id == b then Nothing
                   else if a.HearBeacon? && a.from == b && (before.Entry? || |m.cands| < POOL_SIZE) then
                     Entry(Candidate(b, I16(a.adv + a.rssi), a.rssi))
                   else before)
  {
    hide I16, CandidatesOk, MoteModel.HearBeacon, KeepaliveExpired, MergeSlot, MoteModel.ReceiveTable;
    hide MoteModel.Generate, MoteModel.ReceiveData;
    StepTouches(m, a);
    ListedIff(m.cands, b);
    if a.HearBeacon? {
      HearBeaconStores(m, a.from, a.adv, a.rssi);
      if before.Entry? { assert before.c in m.cands; }
    } else if a.Expire? {
      KeepaliveKeepsOthers(m, a.id);
    }
  }

  lemma ExpireEnabled(s: Net, n: u8, b: u8)
    requires n in s.motes && !Enabled(s, Action.Expire(n, b))
    ensures !Listed(s.motes[n].cands, b)
  {}

  // In every run, a mote's list holds exactly, for each neighbour, what the last
  // beacon it took from it said; an entry goes only by its own expiry.
  lemma {:induction false} ListIsLastHeard(ids: set<u8>, acts: seq<Action>, n: u8, b: u8)
    requires NULL_ID !in ids && n in ids
    ensures n in After(ids, acts).motes && InList(After(ids, acts).motes[n].cands, b, LastHeard(ids, acts, n, b))
  {
    hide Inv, MoteAfter, Emits, Enabled, InList;
    if acts == [] {
      NothingAtBoot(ids, n, b);
    } else {
      var front, a := acts[..|acts| - 1], acts[|acts| - 1];
      var s, before := After(ids, front), LastHeard(ids, front, n, b);
      ListIsLastHeard(ids, front, n, b);
      AlwaysInv(ids, front);
      CandidatesInv(ids, s, n);
      if a.n == n && Enabled(s, a) {
        EntryStep(s.motes[n], a, b, before);
      } else if a == Action.Expire(n, b) {
        ExpireEnabled(s, n, b);
        if before.Entry? { EntryIsListed(s.motes[n].cands, b, before); }
      }
    }
  }

  lemma NothingAtBoot(ids: set<u8>, n: u8, b: u8)
    requires n in ids
    ensures n in After(ids, []).motes && InList(After(ids, []).motes[n].cands, b, Nothing)
  {}

  lemma EntryIsListed(cs: seq<Candidate>, b: u8, h: Heard)
    requires InList(cs, b, h) && h.Entry?
    ensures Listed(cs, b)
  {
    assert h.c in cs && h.c.id == b;
    ListedIff(cs, b);
  }

  lemma CandidatesInv(ids: set<u8>, s: Net, n: u8)
    requires Inv(ids, s) && n in ids
    ensures n in s.motes && s.motes[n].id == n && CandidatesOk(s.motes[n].cands)
    ensures forall i :: 0 <= i < |s.motes[n].cands| ==> s.motes[n].cands[i].id != n
  {
    assert MoteOk(ids, s.sent, n, s.motes[n]);
  }

  // ---------- Hearing everyone ----------

  // What n would store of b now.
  ghost function Fresh(s: Net, links: Links, n: u8, b: u8): int
    requires b in s.motes && (n, b) in links
  {
    Advertised(s.motes[b]) as int + links[(n, b)] as int
  }

  // Present beacons of neighbours of n.
  ghost predicate HeardNow(s: Net, links: Links, n: u8, a: Action) {
    && a.HearBeacon? && a.n == n && a.from in s.motes && a.from != n && (n, a.from) in links
    && links[(n, a.from)] < 0 && a.adv == Advertised(s.motes[a.from]) && a.rssi == links[(n, a.from)]
    && Beacon(a.from, a.adv) in s.sent
  }

  ghost function NeighboursOf(links: Links, n: u8): set<u8> { set e | e in links && e.0 == n :: e.1 }

  // Lists only neighbours, and those in `done` with what they advertise.
  ghost predicate UpToDateFor(s: Net, links: Links, n: u8, done: set<u8>)
    requires n in s.motes
  {
    var cs := s.motes[n].cands;
    && (forall i :: 0 <= i < |cs| ==> cs[i].id in NeighboursOf(links, n))
    && (forall b :: b in done ==> Listed(cs, b))
    && (forall i :: 0 <= i < |cs| && cs[i].id in done ==>
          cs[i].id in s.motes && (n, cs[i].id) in links && cs[i].path as int == Fresh(s, links, n, cs[i].id))
  }

  lemma RoomForNeighbour(cs: seq<Candidate>, all: set<u8>, b: u8)
    requires CandidatesOk(cs) && (forall i :: 0 <= i < |cs| ==> cs[i].id in all) && b in all && |all| <= POOL_SIZE
    ensures Stores(cs, b)
  {
    if !Listed(cs, b) {
      var ids: seq<u8> := seq(|cs|, i requires 0 <= i < |cs| => cs[i].id);
      forall x | x in ids ensures x in all - {b} {
        var i :| 0 <= i < |ids| && ids[i] == x;
        assert cs[i].id == x;
      }
      DistinctSize(ids, all - {b});
      assert |all - {b}| < |all| by { assert all == (all - {b}) + {b}; }
    }
  }

  lemma HearOne(ids: set<u8>, s: Net, links: Links, n: u8, done: set<u8>, a: Action)
    requires Inv(ids, s) && n in ids && n in s.motes && UpToDateFor(s, links, n, done)
    requires HeardNow(s, links, n, a) && |NeighboursOf(links, n)| <= POOL_SIZE
    ensures var s' := Step(s, a);
            && n in s'.motes && s'.sent == s.sent && s'.motes == s.motes[n := s'.motes[n]]
            && UpToDateFor(s', links, n, done + {a.from})
  {
    hide Inv, I16, MoteModel.HearBeacon, CandidatesOk, UpToDateFor, Stores;
    CandidatesInv(ids, s, n);
    var m, b := s.motes[n], a.from;
    NeighboursListed(s, links, n, done);
    assert (n, b).1 in NeighboursOf(links, n);
    RoomForNeighbour(m.cands, NeighboursOf(links, n), b);
    HearBeaconStores(m, b, a.adv, a.rssi);
    AdvertisedRange(ids, s, b);
    PathNeverWraps(a.adv, a.rssi);
    HeardList(s, Step(s, a), links, n, done, Candidate(b, I16(a.adv + a.rssi), a.rssi));
  }

  lemma NeighboursListed(s: Net, links: Links, n: u8, done: set<u8>)
    requires n in s.motes && UpToDateFor(s, links, n, done)
    ensures var cs := s.motes[n].cands; forall i :: 0 <= i < |cs| ==> cs[i].id in NeighboursOf(links, n)
  {}

  lemma HeardList(s: Net, s': Net, links: Links, n: u8, done: set<u8>, c: Candidate)
    requires n in s.motes && n in s'.motes && s'.motes == s.motes[n := s'.motes[n]] && UpToDateFor(s, links, n, done)
    requires forall i :: 0 <= i < |s.motes[n].cands| ==> s.motes[n].cands[i].id != n
    requires forall d :: d in s'.motes[n].cands <==> d == c || (d in s.motes[n].cands && d.id != c.id)
    requires c.id != n && c.id in s.motes && (n, c.id) in links && c.path as int == Fresh(s, links, n, c.id)
    requires c.id in NeighboursOf(links, n)
    ensures UpToDateFor(s', links, n, done + {c.id})
  {
    hide NeighboursOf;
    var was, cs, b := s.motes[n].cands, s'.motes[n].cands, c.id;
    forall d | d in done + {b} ensures Listed(cs, d) { StillListed(was, cs, c, d); }
    forall i | 0 <= i < |cs|
      ensures cs[i].id in NeighboursOf(links, n)
      ensures cs[i].id in done + {b} ==>
                cs[i].id in s'.motes && (n, cs[i].id) in links && cs[i].path as int == Fresh(s', links, n, cs[i].id)
    {
      assert cs[i] in cs;
      if cs[i] != c { var j :| 0 <= j < |was| && was[j] == cs[i]; }
    }
  }

  lemma StillListed(cs: seq<Candidate>, r: seq<Candidate>, c: Candidate, d: u8)
    requires forall x :: x in r <==> x == c || (x in cs && x.id != c.id)
    requires d == c.id || Listed(cs, d)
    ensures Listed(r, d)
  {
    ListedIff(r, d);
    ListedIff(cs, d);
    if d == c.id { assert c in r; } else {
      var x :| x in cs && x.id == d;
      assert x in r;
    }
  }

  lemma AdvertisedRange(ids: set<u8>, s: Net, b: u8)
    requires Inv(ids, s) && b in s.motes
    ensures NO_PATH <= Advertised(s.motes[b]) <= 0
  {
    assert MoteOk(ids, s.sent, b, s.motes[b]);
  }

  ghost function Senders(acts: seq<Action>): set<u8> { set a | a in acts && a.HearBeacon? :: a.from }

  // A mote that lists only neighbours, at most ten of them, and hears the
  // present beacon of each, in any order and any number of times, knows them.
  lemma {:induction false} HearingAllKnows(ids: set<u8>, s: Net, links: Links, n: u8, done: set<u8>, more: seq<Action>)
    requires Inv(ids, s) && n in ids && n in s.motes && |NeighboursOf(links, n)| <= POOL_SIZE
    requires UpToDateFor(s, links, n, done) && (forall a :: a in more ==> HeardNow(s, links, n, a))
    requires (n, n) !in links && NeighboursOf(links, n) <= done + Senders(more)
    ensures n in Steps(s, more).motes && KnowsNeighbours(Steps(s, more), links, Steps(s, more).motes[n])
    decreases |more|
  {
    hide Inv, Step, UpToDateFor, HeardNow, KnowsNeighbours;
    if more == [] {
      assert Senders(more) == {};
      AllKnown(ids, s, links, n, done);
    } else {
      var a, rest := more[0], more[1..];
      HearOne(ids, s, links, n, done, a);
      StepOk(ids, s, a);
      StillNow(s, Step(s, a), links, n, rest);
      assert NeighboursOf(links, n) <= (done + {a.from}) + Senders(rest) by {
        IsHearing(s, links, n, a);
        assert more == [a] + rest;
      }
      HearingAllKnows(ids, Step(s, a), links, n, done + {a.from}, rest);
    }
  }

  lemma IsHearing(s: Net, links: Links, n: u8, a: Action)
    requires HeardNow(s, links, n, a)
    ensures a.HearBeacon?
  {}

  lemma StillNow(s: Net, s': Net, links: Links, n: u8, rest: seq<Action>)
    requires n in s.motes && n in s'.motes && s'.sent == s.sent && s'.motes == s.motes[n := s'.motes[n]]
    requires forall a :: a in rest ==> HeardNow(s, links, n, a)
    ensures forall a :: a in rest ==> HeardNow(s', links, n, a)
  {}

  lemma AllKnown(ids: set<u8>, s: Net, links: Links, n: u8, done: set<u8>)
    requires Inv(ids, s) && n in ids && n in s.motes && UpToDateFor(s, links, n, done)
    requires NeighboursOf(links, n) <= done
    ensures KnowsNeighbours(s, links, s.motes[n])
  {
    hide Inv;
    CandidatesInv(ids, s, n);
    forall b: u8 | (n, b) in links ensures Listed(s.motes[n].cands, b) { assert (n, b).1 in NeighboursOf(links, n); }
  }
}
