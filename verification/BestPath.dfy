/**
 What parent selection is for: metrics as the strengths of the best paths to
 the root, and exactly when they are, given that motes know their neighbours.
 */
module BestPath {
  import opened CInts
  import opened MoteModel
  import opened Network
  import opened ParentLoops

  // links[(n, b)] is the strength with which n hears b.
  type Links = map<(u8, u8), i8>

  // The mote lists exactly the motes it hears, each with the path that is in
  // its beacon now plus the link.
  ghost predicate KnowsNeighbours(s: Net, links: Links, m: Mote) {
    && (forall b: u8 :: (m.id, b) in links ==> Listed(m.cands, b))
    && (forall i :: 0 <= i < |m.cands| ==>
          && (m.id, m.cands[i].id) in links && m.cands[i].id in s.motes
          && m.cands[i].path as int == Advertised(s.motes[m.cands[i].id]) as int + links[(m.id, m.cands[i].id)] as int)
  }

  ghost predicate UpToDate(s: Net, links: Links) {
    && (forall e :: e in links ==> links[e] < 0)
    && forall n :: n in s.motes && n != ROOT ==> KnowsNeighbours(s, links, s.motes[n])
  }

  // Its parent expired, and it has heard no beacon since.
  ghost predicate Waiting(m: Mote) { m.parent == NULL_ID && !NoneEligible(m.cands) }

  // No neighbour is eligible any more, and it keeps the parent it had.
  ghost predicate Stale(m: Mote) { m.parent != NULL_ID && NoneEligible(m.cands) }

  ghost predicate NoneWaiting(s: Net) { forall n :: n in s.motes && n != ROOT ==> !Waiting(s.motes[n]) }

  // Every mote has a parent exactly if a listed neighbour is eligible.
  ghost predicate AllChosen(s: Net) {
    NoneWaiting(s) && forall n :: n in s.motes && n != ROOT ==> !Stale(s.motes[n])
  }

  // A path from n to the root over links.
  ghost predicate IsRoute(links: Links, n: u8, p: seq<u8>)
    decreases |p|
  {
    && p != [] && p[0] == n
    && if |p| == 1 then n == ROOT else (n, p[1]) in links && IsRoute(links, p[1], p[1..])
  }

  ghost predicate PathToRoot(links: Links, n: u8, p: seq<u8>) { IsRoute(links, n, p) }

  // The sum of its link strengths.
  function Strength(links: Links, p: seq<u8>): int
    decreases |p|
  {
    if |p| <= 1 then 0
    else (if (p[0], p[1]) in links then links[(p[0], p[1])] as int else 0) + Strength(links, p[1..])
  }

  ghost predicate FollowsParents(s: Net, p: seq<u8>) {
    forall i :: 0 <= i < |p| - 1 ==> p[i] in s.motes && s.motes[p[i]].parent == p[i + 1]
  }

  // The mote has a parent exactly if some path to the root is stronger than
  // -1000, and then its metric is the maximum over all paths, attained by
  // following parents.
  ghost predicate RouteRight(s: Net, links: Links, n: u8)
    requires n in s.motes
  {
    && (s.motes[n].parent != NULL_ID <==> Reachable(links, n))
    && (s.motes[n].parent != NULL_ID ==>
          && (forall p :: PathToRoot(links, n, p) ==> Strength(links, p) <= s.motes[n].metric as int)
          && exists p :: Attains(s, links, n, p))
  }

  ghost predicate Reachable(links: Links, n: u8) {
    exists p :: PathToRoot(links, n, p) && Strength(links, p) > NO_PATH as int
  }

  ghost predicate Attains(s: Net, links: Links, n: u8, p: seq<u8>)
    requires n in s.motes
  {
    PathToRoot(links, n, p) && Strength(links, p) == s.motes[n].metric as int && FollowsParents(s, p)
  }

  ghost predicate AllRight(s: Net, links: Links) {
    forall n :: n in s.motes && n != ROOT ==> RouteRight(s, links, n)
  }

  // ---------- One mote ----------

  lemma ListedPath(ids: set<u8>, s: Net, links: Links, n: u8, b: u8)
    requires Inv(ids, s) && UpToDate(s, links) && NoneWaiting(s) && n in ids && n != ROOT && (n, b) in links
    ensures n in s.motes && b in s.motes && links[(n, b)] < 0
    ensures var path, m := Advertised(s.motes[b]) as int + links[(n, b)] as int, s.motes[n];
            NO_PATH as int < path < 0 ==> m.parent != NULL_ID && !Stale(m) && m.metric as int >= path
  {
    var m := s.motes[n];
    assert MoteOk(ids, s.sent, n, m) && KnowsNeighbours(s, links, m) && !Waiting(m);
    assert Listed(m.cands, b);
    var i :| 0 <= i < |m.cands| && m.cands[i].id == b;
    var path := Advertised(s.motes[b]) as int + links[(n, b)] as int;
    if NO_PATH as int < path < 0 {
      assert Eligible(m.cands[i]);
      assert m.parent != NULL_ID;
    }
  }

  // The chosen parent: where the metric comes from.
  lemma ChosenPath(ids: set<u8>, s: Net, links: Links, n: u8)
    requires Inv(ids, s) && UpToDate(s, links) && AllChosen(s) && n in ids && s.motes[n].parent != NULL_ID
    ensures var b := s.motes[n].parent;
            && n != ROOT && b in s.motes && (n, b) in links && links[(n, b)] < 0
            && s.motes[n].metric as int == Advertised(s.motes[b]) as int + links[(n, b)] as int
            && Advertised(s.motes[b]) == s.motes[b].metric
            && s.motes[n].metric > NO_PATH && (b == ROOT || s.motes[b].parent != NULL_ID)
  {
    var m := s.motes[n];
    assert MoteOk(ids, s.sent, n, m) && KnowsNeighbours(s, links, m) && !Stale(m);
    var k :| 0 <= k < |m.cands| && m.cands[k].id == m.parent
             && (NoneEligible(m.cands) || (IsMaximum(m.cands, k) && m.metric == m.cands[k].path));
    assert m.cands[k].path == m.metric;
    assert MoteOk(ids, s.sent, m.parent, s.motes[m.parent]);
  }

  lemma RootAdvertises(ids: set<u8>, s: Net)
    requires Inv(ids, s) && ROOT in ids
    ensures Advertised(s.motes[ROOT]) == 0
  {
    assert MoteOk(ids, s.sent, ROOT, s.motes[ROOT]);
  }

  // ---------- All paths ----------

  // No path stronger than -1000 is better than what the mote advertises, and a
  // mote that has one is not stale.
  lemma {:induction false} NoRouteIsBetter(ids: set<u8>, s: Net, links: Links, n: u8, p: seq<u8>)
    requires Inv(ids, s) && UpToDate(s, links) && NoneWaiting(s) && n in ids && IsRoute(links, n, p)
    requires Strength(links, p) > NO_PATH as int
    ensures n != ROOT ==> s.motes[n].parent != NULL_ID && !Stale(s.motes[n])
    ensures Strength(links, p) <= Advertised(s.motes[n]) as int <= 0
    decreases |p|
  {
    hide Inv, UpToDate, NoneWaiting;
    if n == ROOT {
      RootAdvertises(ids, s);
      StrengthNotPositive(s, links, n, p);
    } else {
      InvKeys(ids, s);
      ListedPath(ids, s, links, n, p[1]);
      NoRouteIsBetter(ids, s, links, p[1], p[1..]);
      AdvertisedIsMetric(ids, s, n);
    }
  }

  lemma AdvertisedIsMetric(ids: set<u8>, s: Net, n: u8)
    requires Inv(ids, s) && n in ids && n != ROOT
    ensures Advertised(s.motes[n]) == s.motes[n].metric <= 0
  {
    assert MoteOk(ids, s.sent, n, s.motes[n]);
  }

  lemma {:induction false} StrengthNotPositive(s: Net, links: Links, n: u8, p: seq<u8>)
    requires UpToDate(s, links) && IsRoute(links, n, p)
    ensures Strength(links, p) <= 0
    decreases |p|
  {
    if |p| > 1 { StrengthNotPositive(s, links, p[1], p[1..]); }
  }

  // Following parents gives a path exactly as strong.
  lemma {:induction false} ParentsAttain(ids: set<u8>, s: Net, links: Links, n: u8) returns (p: seq<u8>)
    requires Inv(ids, s) && UpToDate(s, links) && AllChosen(s)
    requires n in ids && (n == ROOT || s.motes[n].parent != NULL_ID)
    ensures IsRoute(links, n, p) && Strength(links, p) == Advertised(s.motes[n]) as int && FollowsParents(s, p)
    decreases |Higher(s, n)|
  {
    hide Inv, UpToDate, AllChosen, Higher, Advertised;
    if n == ROOT {
      RootAdvertises(ids, s);
      p := [n];
    } else {
      InvKeys(ids, s);
      var b := s.motes[n].parent;
      ChosenPath(ids, s, links, n);
      AdvertisedIsMetric(ids, s, n);
      HigherShrinks(s, n, b);
      var q := ParentsAttain(ids, s, links, b);
      p := [n] + q;
      assert p[1..] == q && p[1] == b;
      FollowsOn(s, n, q);
    }
  }

  lemma FollowsOn(s: Net, n: u8, q: seq<u8>)
    requires q != [] && n in s.motes && s.motes[n].parent == q[0] && FollowsParents(s, q)
    ensures FollowsParents(s, [n] + q)
  {
    var p := [n] + q;
    forall i | 0 <= i < |p| - 1 ensures p[i] in s.motes && s.motes[p[i]].parent == p[i + 1] {
      if i > 0 { assert q[i - 1] == p[i] && q[i - 1 + 1] == p[i + 1]; }
    }
  }

  lemma ChosenNoneWaiting(s: Net)
    requires AllChosen(s)
    ensures NoneWaiting(s)
  {}

  lemma ChosenIsRight(ids: set<u8>, s: Net, links: Links, n: u8)
    requires Inv(ids, s) && UpToDate(s, links) && AllChosen(s) && n in ids && n != ROOT && n in s.motes
    ensures RouteRight(s, links, n)
  {
    hide Inv, UpToDate, AllChosen, NoneWaiting, Stale, PathToRoot, Strength, FollowsParents, Advertised;
    ChosenNoneWaiting(s);
    AdvertisedIsMetric(ids, s, n);
    forall p | PathToRoot(links, n, p)
      ensures Strength(links, p) > NO_PATH as int ==> s.motes[n].parent != NULL_ID
      ensures Strength(links, p) > NO_PATH as int ==> Strength(links, p) <= s.motes[n].metric as int
    {
      if Strength(links, p) > NO_PATH as int { BetterThan(ids, s, links, n, p); }
    }
    if s.motes[n].parent != NULL_ID { ParentsRoute(ids, s, links, n); }
  }

  lemma BetterThan(ids: set<u8>, s: Net, links: Links, n: u8, p: seq<u8>)
    requires Inv(ids, s) && UpToDate(s, links) && NoneWaiting(s) && n in ids && n != ROOT && n in s.motes
    requires PathToRoot(links, n, p) && Strength(links, p) > NO_PATH as int
    ensures s.motes[n].parent != NULL_ID && Strength(links, p) <= s.motes[n].metric as int
  {
    hide Inv, UpToDate, NoneWaiting, Stale, Strength, IsRoute;
    NoRouteIsBetter(ids, s, links, n, p);
    AdvertisedIsMetric(ids, s, n);
  }

  lemma ParentsRoute(ids: set<u8>, s: Net, links: Links, n: u8)
    requires Inv(ids, s) && UpToDate(s, links) && AllChosen(s) && n in ids && n != ROOT && n in s.motes
    requires s.motes[n].parent != NULL_ID
    ensures s.motes[n].metric > NO_PATH && exists p :: Attains(s, links, n, p)
  {
    hide Inv, UpToDate, AllChosen, Strength, IsRoute, FollowsParents;
    AdvertisedIsMetric(ids, s, n);
    ChosenPath(ids, s, links, n);
    var p := ParentsAttain(ids, s, links, n);
    assert Attains(s, links, n, p);
  }

  // ---------- The converse ----------

  // A neighbour with a right metric that is eligible is the start of a path,
  // and the start of a path stronger than -1000 is an eligible neighbour.
  lemma EligibleIffReachable(ids: set<u8>, s: Net, links: Links, n: u8)
    requires Inv(ids, s) && UpToDate(s, links) && AllRight(s, links) && n in ids && n != ROOT && n in s.motes
    ensures Reachable(links, n) <==> !NoneEligible(s.motes[n].cands)
  {
    hide Inv, UpToDate, AllRight, RouteRight, Advertised, Eligible, Strength, IsRoute;
    InvKeys(ids, s);
    InvId(ids, s, n);
    var cs := s.motes[n].cands;
    if i :| 0 <= i < |cs| && Eligible(cs[i]) {
      Neighbour(ids, s, links, n, i);
      var q := RouteOf(ids, s, links, cs[i].id);
      var p := [n] + q;
      RouteCons(links, n, cs[i].id, q);
      assert PathToRoot(links, n, p) && Strength(links, p) > NO_PATH as int;
    }
    if p :| PathToRoot(links, n, p) && Strength(links, p) > NO_PATH as int {
      RouteTail(s, links, n, p);
      BestOf(ids, s, links, p[1], p[1..]);
      EligibleVia(s, links, n, p[1]);
    }
  }

  lemma InvId(ids: set<u8>, s: Net, n: u8)
    requires Inv(ids, s) && n in s.motes
    ensures s.motes[n].id == n
  {
    assert MoteOk(ids, s.sent, n, s.motes[n]);
  }

  lemma Neighbour(ids: set<u8>, s: Net, links: Links, n: u8, i: int)
    requires Inv(ids, s) && UpToDate(s, links) && n in s.motes && n != ROOT
    requires 0 <= i < |s.motes[n].cands| && Eligible(s.motes[n].cands[i])
    ensures var c := s.motes[n].cands[i];
            && c.id in s.motes && (n, c.id) in links && links[(n, c.id)] < 0
            && NO_PATH as int < Advertised(s.motes[c.id]) as int + links[(n, c.id)] as int
  {
    assert MoteOk(ids, s.sent, n, s.motes[n]) && KnowsNeighbours(s, links, s.motes[n]);
  }

  // The path behind what a mote advertises.
  lemma RouteOf(ids: set<u8>, s: Net, links: Links, b: u8) returns (q: seq<u8>)
    requires Inv(ids, s) && AllRight(s, links) && b in s.motes && Advertised(s.motes[b]) > NO_PATH
    ensures PathToRoot(links, b, q) && Strength(links, q) == Advertised(s.motes[b]) as int
  {
    hide Strength, MsgOk;
    assert MoteOk(ids, s.sent, b, s.motes[b]);
    if b == ROOT {
      q := [b];
      RootRoute(links);
    } else {
      assert RouteRight(s, links, b) && s.motes[b].parent != NULL_ID;
      q :| Attains(s, links, b, q);
    }
  }

  lemma RootRoute(links: Links)
    ensures PathToRoot(links, ROOT, [ROOT]) && Strength(links, [ROOT]) == 0
  {}

  lemma RouteCons(links: Links, n: u8, b: u8, q: seq<u8>)
    requires (n, b) in links && PathToRoot(links, b, q)
    ensures PathToRoot(links, n, [n] + q) && Strength(links, [n] + q) == links[(n, b)] as int + Strength(links, q)
  {
    var p := [n] + q;
    assert p[1..] == q && p[1] == b;
  }

  lemma RouteTail(s: Net, links: Links, n: u8, p: seq<u8>)
    requires UpToDate(s, links) && PathToRoot(links, n, p) && n != ROOT
    ensures |p| > 1 && (n, p[1]) in links && links[(n, p[1])] < 0 && PathToRoot(links, p[1], p[1..])
    ensures Strength(links, p) == links[(n, p[1])] as int + Strength(links, p[1..])
  {}

  lemma BestOf(ids: set<u8>, s: Net, links: Links, b: u8, q: seq<u8>)
    requires Inv(ids, s) && UpToDate(s, links) && AllRight(s, links)
    requires PathToRoot(links, b, q) && Strength(links, q) > NO_PATH as int
    ensures b in s.motes ==> Strength(links, q) <= Advertised(s.motes[b]) as int <= 0
  {
    hide MsgOk, Strength, UpToDate;
    if b in s.motes {
      assert MoteOk(ids, s.sent, b, s.motes[b]);
      if b == ROOT {
        StrengthNotPositive(s, links, b, q);
      } else {
        assert RouteRight(s, links, b);
      }
    }
  }

  lemma EligibleVia(s: Net, links: Links, n: u8, b: u8)
    requires UpToDate(s, links) && n in s.motes && s.motes[n].id == n && n != ROOT && (n, b) in links
    requires b in s.motes ==> NO_PATH as int < Advertised(s.motes[b]) as int + links[(n, b)] as int < 0
    ensures !NoneEligible(s.motes[n].cands)
  {
    var cs := s.motes[n].cands;
    assert KnowsNeighbours(s, links, s.motes[n]);
    assert Listed(cs, b);
    var i :| 0 <= i < |cs| && cs[i].id == b;
    assert Eligible(cs[i]);
  }

  // In every state of every run in which each mote knows its neighbours' paths
  // and links: parents and metrics are right at every mote exactly if every mote
  // has a parent just when a listed neighbour is eligible.
  lemma MetricIsBestPathIff(ids: set<u8>, acts: seq<Action>, links: Links)
    requires NULL_ID !in ids && UpToDate(After(ids, acts), links)
    ensures AllRight(After(ids, acts), links) <==> AllChosen(After(ids, acts))
  {
    hide After, Inv, UpToDate, RouteRight, Reachable, NoneEligible;
    AlwaysInv(ids, acts);
    var s := After(ids, acts);
    InvKeys(ids, s);
    if AllChosen(s) {
      forall n | n in s.motes && n != ROOT ensures RouteRight(s, links, n) { ChosenIsRight(ids, s, links, n); }
    }
    if AllRight(s, links) {
      forall n | n in s.motes && n != ROOT ensures !Waiting(s.motes[n]) && !Stale(s.motes[n]) {
        EligibleIffReachable(ids, s, links, n);
        RightParent(s, links, n);
      }
    }
  }

  lemma RightParent(s: Net, links: Links, n: u8)
    requires n in s.motes && RouteRight(s, links, n)
    ensures s.motes[n].parent != NULL_ID <==> Reachable(links, n)
  {}

  // Where no mote waits for a beacon, no path is missed: one stronger than -1000
  // gives a parent and a metric at least as good, so a stale mote has none.
  lemma NoPathIsMissed(ids: set<u8>, acts: seq<Action>, links: Links, n: u8, p: seq<u8>)
    requires NULL_ID !in ids && n in ids && n != ROOT
    requires UpToDate(After(ids, acts), links) && NoneWaiting(After(ids, acts))
    requires PathToRoot(links, n, p) && Strength(links, p) > NO_PATH as int
    ensures n in After(ids, acts).motes
    ensures var m := After(ids, acts).motes[n];
            m.parent != NULL_ID && !Stale(m) && Strength(links, p) <= m.metric as int
  {
    hide After, Inv, UpToDate, NoneWaiting, Strength, Advertised, Stale;
    AlwaysInv(ids, acts);
    InvKeys(ids, After(ids, acts));
    NoRouteIsBetter(ids, After(ids, acts), links, n, p);
    AdvertisedIsMetric(ids, After(ids, acts), n);
  }
}
