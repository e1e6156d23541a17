/**
 The downstream search over the routing table: find_in_subtree and
 Search_forwarder, as reachability over the edges the table lists.
 */
module Subtree {
  import opened CInts
  import opened TreeTable

  // The children the searches see: those of the first entry for the id.
  function Kids(t: Table, id: u8): seq<u8> {
    var i := Find(t, id);
    if i < |t| then t[i].children else []
  }

  lemma KidsAreEdges(t: Table, p: u8, c: u8)
    ensures c in Kids(t, p) ==> HasEdge(t, p, c)
    ensures (forall i, j :: 0 <= i < j < |t| ==> t[i].id != t[j].id) && HasEdge(t, p, c) ==> c in Kids(t, p)
  {
    var k := Find(t, p);
    if k < |t| && c in t[k].children { assert t[k].id == p; }
    if (forall i, j :: 0 <= i < j < |t| ==> t[i].id != t[j].id) && HasEdge(t, p, c) {
      var i :| 0 <= i < |t| && t[i].id == p && c in t[i].children;
      assert i == k;
    }
  }

  // ---------- Paths ----------

  ghost predicate IsPath(t: Table, a: u8, p: seq<u8>) {
    && p != [] && p[0] == a
    && forall i :: 0 <= i < |p| - 1 ==> p[i + 1] in Kids(t, p[i])
  }

  ghost predicate Reaches(t: Table, a: u8, b: u8) {
    exists p :: IsPath(t, a, p) && p[|p| - 1] == b
  }

  lemma PathTail(t: Table, a: u8, p: seq<u8>)
    requires IsPath(t, a, p) && |p| > 1
    ensures p[1] in Kids(t, a) && IsPath(t, p[1], p[1..])
  {
    assert p[0 + 1] in Kids(t, p[0]);
    forall i | 0 <= i < |p[1..]| - 1 ensures p[1..][i + 1] in Kids(t, p[1..][i]) {
      assert p[(i + 1) + 1] in Kids(t, p[i + 1]);
    }
  }

  lemma PathCons(t: Table, a: u8, c: u8, p: seq<u8>)
    requires c in Kids(t, a) && IsPath(t, c, p)
    ensures IsPath(t, a, [a] + p)
  {
    var q := [a] + p;
    forall i | 0 <= i < |q| - 1 ensures q[i + 1] in Kids(t, q[i]) {
      if i > 0 { assert p[(i - 1) + 1] in Kids(t, p[i - 1]); }
    }
  }

  lemma PathConcat(t: Table, a: u8, p: seq<u8>, q: seq<u8>)
    requires IsPath(t, a, p) && IsPath(t, p[|p| - 1], q)
    ensures IsPath(t, a, p + q[1..])
    decreases |p|
  {
    if |p| == 1 {
      assert p + q[1..] == q;
    } else {
      PathTail(t, a, p);
      PathConcat(t, p[1], p[1..], q);
      PathCons(t, a, p[1], p[1..] + q[1..]);
      assert [a] + (p[1..] + q[1..]) == p + q[1..];
    }
  }

  lemma ReachesSelf(t: Table, a: u8)
    ensures Reaches(t, a, a)
  {
    assert IsPath(t, a, [a]) && [a][|[a]| - 1] == a;
  }

  lemma ReachesTransitive(t: Table, a: u8, b: u8, c: u8)
    requires Reaches(t, a, b) && Reaches(t, b, c)
    ensures Reaches(t, a, c)
  {
    var p :| IsPath(t, a, p) && p[|p| - 1] == b;
    var q :| IsPath(t, b, q) && q[|q| - 1] == c;
    PathConcat(t, a, p, q);
    var r := p + q[1..];
    assert r[|r| - 1] == c;
  }

  // Unfolding reachability the way the recursion does.
  lemma ReachesStep(t: Table, a: u8, b: u8)
    ensures Reaches(t, a, b) <==> a == b || exists c :: c in Kids(t, a) && Reaches(t, c, b)
  {
    if a == b { ReachesSelf(t, a); }
    if Reaches(t, a, b) && a != b {
      var p :| IsPath(t, a, p) && p[|p| - 1] == b;
      PathTail(t, a, p);
      assert p[1..][|p[1..]| - 1] == b;
      assert p[1] in Kids(t, a) && Reaches(t, p[1], b);
    }
    if exists c :: c in Kids(t, a) && Reaches(t, c, b) {
      var c :| c in Kids(t, a) && Reaches(t, c, b);
      var p :| IsPath(t, c, p) && p[|p| - 1] == b;
      PathCons(t, a, c, p);
      var q := [a] + p;
      assert q[|q| - 1] == b;
    }
  }

  // ---------- Acyclicity ----------

  // No id below `a` is below itself.
  ghost predicate AcyclicBelow(t: Table, a: u8) {
    forall x, c :: Reaches(t, a, x) && c in Kids(t, x) ==> !Reaches(t, c, x)
  }

  ghost predicate Bounded(t: Table, a: u8, n: nat) {
    forall p :: IsPath(t, a, p) ==> |p| <= n
  }

  lemma PathPrefix(t: Table, a: u8, p: seq<u8>, k: nat)
    requires IsPath(t, a, p) && k < |p|
    ensures Reaches(t, a, p[k])
  {
    var q := p[..k + 1];
    forall i | 0 <= i < |q| - 1 ensures q[i + 1] in Kids(t, q[i]) {
      assert p[i + 1] in Kids(t, p[i]);
    }
    assert IsPath(t, a, q) && q[|q| - 1] == p[k];
  }

  lemma PathSuffix(t: Table, a: u8, p: seq<u8>, k: nat)
    requires IsPath(t, a, p) && k < |p|
    ensures IsPath(t, p[k], p[k..])
  {
    forall i | 0 <= i < |p[k..]| - 1 ensures p[k..][i + 1] in Kids(t, p[k..][i]) {
      assert p[(k + i) + 1] in Kids(t, p[k + i]);
    }
  }

  // There are only 256 ids, so a longer path closes a cycle.
  lemma AcyclicIsBounded(t: Table, a: u8)
    requires AcyclicBelow(t, a)
    ensures Bounded(t, a, 256)
  {
    forall p | IsPath(t, a, p) ensures |p| <= 256 {
      forall i, j | 0 <= i < j < |p| ensures p[i] != p[j] {
        PathPrefix(t, a, p, i);
        PathSuffix(t, a, p, i + 1);
        var q := p[i + 1..];
        assert p[i + 1] in Kids(t, p[i]);
        PathPrefix(t, p[i + 1], q, j - i - 1);
        assert q[j - i - 1] == p[j];
      }
      DistinctBytes(p);
    }
  }

  lemma BoundedStep(t: Table, a: u8, n: nat, c: u8)
    requires Bounded(t, a, n) && c in Kids(t, a)
    ensures n > 0 && Bounded(t, c, n - 1)
  {
    assert IsPath(t, a, [a]);
    forall p | IsPath(t, c, p) ensures |p| <= n - 1 {
      PathCons(t, a, c, p);
    }
  }

  // ---------- The search ----------

  // The documented answer: the first child of `me` whose subtree holds dst,
  // or 0 for "send upstream".
  ghost function Forwarder(t: Table, me: u8, dst: u8): u8 {
    FirstReaching(t, Kids(t, me), dst)
  }

  ghost function FirstReaching(t: Table, cs: seq<u8>, dst: u8): u8 {
    if cs == [] then 0 else if Reaches(t, cs[0], dst) then cs[0] else FirstReaching(t, cs[1..], dst)
  }

  lemma FirstReachingAt(t: Table, cs: seq<u8>, dst: u8, k: nat)
    requires k <= |cs| && (forall i :: 0 <= i < k ==> !Reaches(t, cs[i], dst))
    requires k < |cs| ==> Reaches(t, cs[k], dst)
    ensures FirstReaching(t, cs, dst) == if k < |cs| then cs[k] else 0
  {
    if k > 0 {
      forall i | 0 <= i < k - 1 ensures !Reaches(t, cs[1..][i], dst) { assert cs[1..][i] == cs[i + 1]; }
      FirstReachingAt(t, cs[1..], dst, k - 1);
    }
  }

  // Zero means "in no subtree", given that no id is 0.
  lemma {:induction false} ForwarderMeaning(t: Table, me: u8, dst: u8)
    requires 0 !in Kids(t, me)
    ensures var f := Forwarder(t, me, dst);
            && (f == 0 <==> forall c :: c in Kids(t, me) ==> !Reaches(t, c, dst))
            && (f != 0 ==> f in Kids(t, me) && Reaches(t, f, dst) && IsFirstReaching(t, Kids(t, me), dst, f))
    ensures me != dst ==> (Forwarder(t, me, dst) != 0 <==> Reaches(t, me, dst))
  {
    FirstReachingMeaning(t, Kids(t, me), dst);
    ReachesStep(t, me, dst);
  }

  lemma {:induction false} FirstReachingMeaning(t: Table, cs: seq<u8>, dst: u8)
    requires 0 !in cs
    ensures var f := FirstReaching(t, cs, dst);
            && (f == 0 <==> forall c :: c in cs ==> !Reaches(t, c, dst))
            && (f != 0 ==> IsFirstReaching(t, cs, dst, f))
  {
    if cs != [] {
      FirstReachingMeaning(t, cs[1..], dst);
      var f := FirstReaching(t, cs[1..], dst);
      if Reaches(t, cs[0], dst) {
        assert ReachesFirst(t, cs, dst, 0);
      } else if f != 0 {
        var k: nat :| k < |cs[1..]| && cs[1..][k] == f && ReachesFirst(t, cs[1..], dst, k);
        assert cs[k + 1] == f;
        forall i | 0 <= i < k + 1 ensures !Reaches(t, cs[i], dst) {
          if i > 0 { assert cs[i] == cs[1..][i - 1]; }
        }
        assert ReachesFirst(t, cs, dst, k + 1);
      }
    }
  }

  // The k-th reaches dst, and none before it does.
  ghost predicate ReachesFirst(t: Table, cs: seq<u8>, dst: u8, k: nat)
    requires k < |cs|
  {
    Reaches(t, cs[k], dst) && forall i :: 0 <= i < k ==> !Reaches(t, cs[i], dst)
  }

  ghost predicate IsFirstReaching(t: Table, cs: seq<u8>, dst: u8, f: u8) {
    exists k: nat :: k < |cs| && cs[k] == f && ReachesFirst(t, cs, dst, k)
  }

  // ---------- When the recursion returns ----------

  datatype Outcome = Returns(found: bool) | TooDeep

  // find_in_subtree with at most `fuel` nested calls.
  function Search(t: Table, root: u8, dst: u8, fuel: nat): Outcome
    decreases fuel, 1, 0
  {
    if fuel == 0 then TooDeep
    else if root == dst then Returns(true)
    else SearchAny(t, Kids(t, root), dst, fuel - 1)
  }

  function SearchAny(t: Table, cs: seq<u8>, dst: u8, fuel: nat): Outcome
    decreases fuel, 2, |cs|
  {
    if cs == [] then Returns(false)
    else match Search(t, cs[0], dst, fuel)
      case TooDeep => TooDeep
      case Returns(found) => if found then Returns(true) else SearchAny(t, cs[1..], dst, fuel)
  }

  // On every table, cyclic or not: an answer, if one comes, is right.
  lemma {:induction false} AnswersAreRight(t: Table, root: u8, dst: u8, fuel: nat)
    ensures Search(t, root, dst, fuel).Returns? ==> (Search(t, root, dst, fuel).found <==> Reaches(t, root, dst))
    decreases fuel, 1, 0
  {
    if fuel > 0 {
      ReachesStep(t, root, dst);
      AnyAnswersAreRight(t, Kids(t, root), dst, fuel - 1);
    }
  }

  lemma {:induction false} AnyAnswersAreRight(t: Table, cs: seq<u8>, dst: u8, fuel: nat)
    ensures SearchAny(t, cs, dst, fuel).Returns? ==>
              (SearchAny(t, cs, dst, fuel).found <==> exists c :: c in cs && Reaches(t, c, dst))
    decreases fuel, 2, |cs|
  {
    if cs != [] {
      AnswersAreRight(t, cs[0], dst, fuel);
      AnyAnswersAreRight(t, cs[1..], dst, fuel);
      assert cs == [cs[0]] + cs[1..];
    }
  }

  lemma {:induction false} BoundedReturns(t: Table, root: u8, dst: u8, fuel: nat)
    requires Bounded(t, root, fuel)
    ensures Search(t, root, dst, fuel).Returns?
    decreases fuel, 1, 0
  {
    assert IsPath(t, root, [root]);
    forall c | c in Kids(t, root) ensures Bounded(t, c, fuel - 1) { BoundedStep(t, root, fuel, c); }
    AnyBoundedReturns(t, Kids(t, root), dst, fuel - 1);
  }

  lemma {:induction false} AnyBoundedReturns(t: Table, cs: seq<u8>, dst: u8, fuel: nat)
    requires forall c :: c in cs ==> Bounded(t, c, fuel)
    ensures SearchAny(t, cs, dst, fuel).Returns?
    decreases fuel, 2, |cs|
  {
    if cs != [] {
      BoundedReturns(t, cs[0], dst, fuel);
      AnyBoundedReturns(t, cs[1..], dst, fuel);
    }
  }

  // A search that finds nothing has walked every path.
  lemma {:induction false} NotFoundIsBounded(t: Table, root: u8, dst: u8, fuel: nat)
    requires Search(t, root, dst, fuel) == Returns(false)
    ensures Bounded(t, root, fuel)
    decreases fuel, 1, 0
  {
    AnyNotFoundIsBounded(t, Kids(t, root), dst, fuel - 1);
    forall p | IsPath(t, root, p) ensures |p| <= fuel {
      if |p| > 1 { PathTail(t, root, p); }
    }
  }

  lemma {:induction false} AnyNotFoundIsBounded(t: Table, cs: seq<u8>, dst: u8, fuel: nat)
    requires SearchAny(t, cs, dst, fuel) == Returns(false)
    ensures forall c :: c in cs ==> Bounded(t, c, fuel)
    decreases fuel, 2, |cs|
  {
    if cs != [] {
      NotFoundIsBounded(t, cs[0], dst, fuel);
      AnyNotFoundIsBounded(t, cs[1..], dst, fuel);
      assert cs == [cs[0]] + cs[1..];
    }
  }

  // Going round a cycle n times.
  lemma CyclePumps(t: Table, x: u8, p: seq<u8>, n: nat) returns (q: seq<u8>)
    requires IsPath(t, x, p) && |p| >= 2 && p[|p| - 1] == x
    ensures IsPath(t, x, q) && |q| > n
  {
    if n == 0 {
      q := [x];
    } else {
      var r := CyclePumps(t, x, p, n - 1);
      PathConcat(t, x, p, r);
      q := p + r[1..];
    }
  }

  lemma BoundedIsAcyclic(t: Table, a: u8, n: nat)
    requires Bounded(t, a, n)
    ensures AcyclicBelow(t, a)
  {
    forall x, c | Reaches(t, a, x) && c in Kids(t, x) ensures !Reaches(t, c, x) {
      if Reaches(t, c, x) {
        var p :| IsPath(t, c, p) && p[|p| - 1] == x;
        PathCons(t, x, c, p);
        var q := CyclePumps(t, x, [x] + p, n);
        var r :| IsPath(t, a, r) && r[|r| - 1] == x;
        PathConcat(t, a, r, q);
        assert false;
      }
    }
  }

  // For a destination that is not there, the recursion returns exactly when
  // no cycle lies below the starting id. Without cycles it always returns.
  lemma ReturnsIffAcyclic(t: Table, root: u8, dst: u8)
    ensures AcyclicBelow(t, root) ==> Search(t, root, dst, 256) == Returns(Reaches(t, root, dst))
    ensures !Reaches(t, root, dst) ==>
              ((exists fuel: nat :: Search(t, root, dst, fuel).Returns?) <==> AcyclicBelow(t, root))
  {
    if AcyclicBelow(t, root) {
      AcyclicIsBounded(t, root);
      BoundedReturns(t, root, dst, 256);
      AnswersAreRight(t, root, dst, 256);
    }
    if !Reaches(t, root, dst) && exists fuel: nat :: Search(t, root, dst, fuel).Returns? {
      var fuel: nat :| Search(t, root, dst, fuel).Returns?;
      AnswersAreRight(t, root, dst, fuel);
      NotFoundIsBounded(t, root, dst, fuel);
      BoundedIsAcyclic(t, root, fuel);
    }
  }

  // ---------- ... for a destination that is there ----------

  // The walk enters c from x: no earlier child reaches dst, or lies above a
  // cycle.
  ghost predicate Enters(t: Table, x: u8, dst: u8, c: u8) {
    exists j :: 0 <= j < |Kids(t, x)| && EntersAt(t, Kids(t, x), dst, c, j)
  }

  ghost predicate EntersAt(t: Table, cs: seq<u8>, dst: u8, c: u8, j: int)
    requires 0 <= j < |cs|
  {
    cs[j] == c && forall i :: 0 <= i < j ==> !Reaches(t, cs[i], dst) && AcyclicBelow(t, cs[i])
  }

  // The walk from a ends at dst.
  ghost predicate WalksFrom(t: Table, a: u8, dst: u8, p: seq<u8>)
    decreases |p|
  {
    && p != [] && p[0] == a
    && if |p| == 1 then a == dst
       else a != dst && Enters(t, a, dst, p[1]) && WalksFrom(t, p[1], dst, p[1..])
  }

  ghost predicate IsWalk(t: Table, a: u8, dst: u8, p: seq<u8>) { WalksFrom(t, a, dst, p) }

  lemma {:induction false} MoreFuel(t: Table, root: u8, dst: u8, fuel: nat, more: nat)
    requires fuel <= more && Search(t, root, dst, fuel).Returns?
    ensures Search(t, root, dst, more) == Search(t, root, dst, fuel)
    decreases fuel, 1, 0
  {
    if root != dst { AnyMoreFuel(t, Kids(t, root), dst, fuel - 1, more - 1); }
  }

  lemma {:induction false} AnyMoreFuel(t: Table, cs: seq<u8>, dst: u8, fuel: nat, more: nat)
    requires fuel <= more && SearchAny(t, cs, dst, fuel).Returns?
    ensures SearchAny(t, cs, dst, more) == SearchAny(t, cs, dst, fuel)
    decreases fuel, 2, |cs|
  {
    if cs != [] {
      MoreFuel(t, cs[0], dst, fuel, more);
      if !Search(t, cs[0], dst, fuel).found { AnyMoreFuel(t, cs[1..], dst, fuel, more); }
    }
  }

  lemma {:induction false} FoundWalks(t: Table, root: u8, dst: u8, fuel: nat) returns (p: seq<u8>)
    requires Search(t, root, dst, fuel) == Returns(true)
    ensures WalksFrom(t, root, dst, p)
    decreases fuel, 1, 0
  {
    if root == dst {
      p := [root];
    } else {
      var j, q := AnyFoundWalks(t, Kids(t, root), dst, fuel - 1);
      p := [root] + q;
      assert p[1..] == q && p[1] == q[0];
      assert EntersAt(t, Kids(t, root), dst, p[1], j);
    }
  }

  lemma {:induction false} AnyFoundWalks(t: Table, cs: seq<u8>, dst: u8, fuel: nat) returns (j: int, q: seq<u8>)
    requires SearchAny(t, cs, dst, fuel) == Returns(true)
    ensures 0 <= j < |cs| && q != [] && EntersAt(t, cs, dst, q[0], j) && WalksFrom(t, cs[j], dst, q)
    decreases fuel, 2, |cs|
  {
    hide Reaches, AcyclicBelow, Search;
    if Search(t, cs[0], dst, fuel).found {
      q := FoundWalks(t, cs[0], dst, fuel);
      j := 0;
    } else {
      hide WalksFrom;
      AnswersAreRight(t, cs[0], dst, fuel);
      NotFoundIsBounded(t, cs[0], dst, fuel);
      BoundedIsAcyclic(t, cs[0], fuel);
      var k: int;
      k, q := AnyFoundWalks(t, cs[1..], dst, fuel);
      j := k + 1;
      EntersLater(t, cs, dst, q[0], k);
    }
  }

  lemma EntersLater(t: Table, cs: seq<u8>, dst: u8, c: u8, k: int)
    requires cs != [] && 0 <= k < |cs| - 1 && EntersAt(t, cs[1..], dst, c, k)
    requires !Reaches(t, cs[0], dst) && AcyclicBelow(t, cs[0])
    ensures EntersAt(t, cs, dst, c, k + 1)
  {
    hide Reaches, AcyclicBelow;
    forall i | 0 <= i < k + 1 ensures !Reaches(t, cs[i], dst) && AcyclicBelow(t, cs[i]) {
      if i > 0 { assert cs[i] == cs[1..][i - 1]; }
    }
  }

  lemma {:induction false} SkipsToFound(t: Table, cs: seq<u8>, dst: u8, j: nat, fuel: nat)
    requires j < |cs| && EntersAt(t, cs, dst, cs[j], j) && fuel >= 256
    requires Search(t, cs[j], dst, fuel) == Returns(true)
    ensures SearchAny(t, cs, dst, fuel) == Returns(true)
    decreases j
  {
    if j > 0 {
      ReturnsIffAcyclic(t, cs[0], dst);
      MoreFuel(t, cs[0], dst, 256, fuel);
      forall i | 0 <= i < j - 1 ensures !Reaches(t, cs[1..][i], dst) && AcyclicBelow(t, cs[1..][i]) {
        assert cs[1..][i] == cs[i + 1];
      }
      SkipsToFound(t, cs[1..], dst, j - 1, fuel);
    }
  }

  lemma {:induction false} WalkFinds(t: Table, root: u8, dst: u8, p: seq<u8>) returns (fuel: nat)
    requires WalksFrom(t, root, dst, p)
    ensures Search(t, root, dst, fuel) == Returns(true)
    decreases |p|
  {
    if |p| == 1 {
      fuel := 1;
    } else {
      var f := WalkFinds(t, p[1], dst, p[1..]);
      var j :| 0 <= j < |Kids(t, root)| && EntersAt(t, Kids(t, root), dst, p[1], j);
      var more := if f < 256 then 256 else f;
      MoreFuel(t, p[1], dst, f, more);
      SkipsToFound(t, Kids(t, root), dst, j, more);
      fuel := more + 1;
    }
  }

  // For a destination that is reachable, the recursion returns exactly when
  // the walk that always enters the first child from which dst is reachable
  // arrives, passing no cycle in the children it skips.
  lemma ReturnsIffWalkArrives(t: Table, root: u8, dst: u8)
    requires Reaches(t, root, dst)
    ensures (exists fuel: nat :: Search(t, root, dst, fuel).Returns?) <==> exists p :: IsWalk(t, root, dst, p)
  {
    if fuel: nat :| Search(t, root, dst, fuel).Returns? {
      AnswersAreRight(t, root, dst, fuel);
      var p := FoundWalks(t, root, dst, fuel);
      assert IsWalk(t, root, dst, p);
    }
    if p :| IsWalk(t, root, dst, p) {
      var fuel := WalkFinds(t, root, dst, p);
      assert Search(t, root, dst, fuel).Returns?;
    }
  }

  // Two entries that list each other are enough to never get an answer.
  lemma TwoCycleNeverReturns(fuel: nat)
    ensures Search([TreeNode(3, [2]), TreeNode(2, [3])], 2, 9, fuel) == TooDeep
    ensures Search([TreeNode(3, [2]), TreeNode(2, [3])], 3, 9, fuel) == TooDeep
  {
    var t := [TreeNode(3, [2]), TreeNode(2, [3])];
    assert Kids(t, 2) == [3] && Kids(t, 3) == [2];
    if fuel > 0 {
      TwoCycleNeverReturns(fuel - 1);
    }
  }

  // ---------- The code ----------

  // The search from `me` for a destination below it comes to an end.
  ghost predicate Halts(t: Table, me: u8, dst: u8) {
    exists fuel: nat :: SearchAny(t, Kids(t, me), dst, fuel).Returns?
  }

  // Below a mote the search returns for a destination exactly when it returns
  // from the mote itself, and always when no cycle lies below.
  lemma HaltsIff(t: Table, me: u8, dst: u8)
    ensures me != dst ==> (Halts(t, me, dst) <==> exists fuel: nat :: Search(t, me, dst, fuel).Returns?)
    ensures AcyclicBelow(t, me) ==> Halts(t, me, dst)
  {
    if me != dst {
      if fuel: nat :| SearchAny(t, Kids(t, me), dst, fuel).Returns? { assert Search(t, me, dst, fuel + 1).Returns?; }
      if fuel: nat :| Search(t, me, dst, fuel).Returns? { assert SearchAny(t, Kids(t, me), dst, fuel - 1).Returns?; }
    }
    if AcyclicBelow(t, me) {
      AcyclicIsBounded(t, me);
      forall c | c in Kids(t, me) ensures Bounded(t, c, 255) { BoundedStep(t, me, 256, c); }
      AnyBoundedReturns(t, Kids(t, me), dst, 255);
    }
  }

  lemma SearchStarts(t: Table, root: u8, dst: u8, fuel: nat)
    requires Search(t, root, dst, fuel).Returns?
    ensures Search(t, root, dst, fuel).found <==> Reaches(t, root, dst)
    ensures fuel > 0
    ensures Search(t, root, dst, fuel) ==
            if root == dst then Returns(true) else SearchAny(t, Kids(t, root), dst, fuel - 1)
  {
    AnswersAreRight(t, root, dst, fuel);
  }

  lemma SearchNext(t: Table, cs: seq<u8>, j: nat, dst: u8, fuel: nat)
    requires j <= |cs| && SearchAny(t, cs[j..], dst, fuel).Returns?
    ensures j == |cs| ==> SearchAny(t, cs[j..], dst, fuel) == Returns(false)
    ensures j < |cs| ==>
              && Search(t, cs[j], dst, fuel).Returns?
              && (Search(t, cs[j], dst, fuel).found <==> Reaches(t, cs[j], dst))
              && SearchAny(t, cs[j..], dst, fuel) ==
                 if Reaches(t, cs[j], dst) then Returns(true) else SearchAny(t, cs[j + 1..], dst, fuel)
  {
    hide Reaches;
    if j < |cs| {
      AnswersAreRight(t, cs[j], dst, fuel);
      assert cs[j..][1..] == cs[j + 1..];
    }
  }

  // find_in_subtree, called where the C recursion returns: `fuel` bounds its
  // nested calls.
  method FindInSubtree(tree: array<TreeNode>, n: u8, root: u8, dst: u8, ghost fuel: nat) returns (found: bool)
    requires n as nat <= tree.Length && Search(tree[..n], root, dst, fuel).Returns?
    ensures found <==> Reaches(tree[..n], root, dst)
    decreases fuel
  {
    hide Search, SearchAny, Reaches;
    ghost var t := tree[..n];
    SearchStarts(t, root, dst, fuel);
    if root == dst { return true; }
    var i: u8 := 0;
    while i < n && tree[i].id != root
      invariant i <= n && forall k :: 0 <= k < i ==> tree[k].id != root
    {
      i := i + 1;
    }
    FindIs(t, root, i as nat);
    var cs := if i < n then tree[i].children else [];
    var j := 0;
    assert cs[0..] == cs;
    while j < |cs|
      invariant 0 <= j <= |cs|
      invariant SearchAny(t, cs[j..], dst, fuel - 1) == Search(t, root, dst, fuel)
    {
      SearchNext(t, cs, j, dst, fuel - 1);
      var below := FindInSubtree(tree, n, cs[j], dst, fuel - 1);
      if below { return true; }
      j := j + 1;
    }
    SearchNext(t, cs, j, dst, fuel - 1);
    return false;
  }

  method SearchForwarder(tree: array<TreeNode>, n: u8, me: u8, dst: u8) returns (next: u8)
    requires n as nat <= tree.Length && Halts(tree[..n], me, dst)
    ensures next == Forwarder(tree[..n], me, dst)
  {
    hide Search, SearchAny, Reaches;
    ghost var t := tree[..n];
    ghost var fuel: nat :| SearchAny(t, Kids(t, me), dst, fuel).Returns?;
    var i: u8 := 0;
    while i < n && tree[i].id != me
      invariant i <= n && forall k :: 0 <= k < i ==> tree[k].id != me
    {
      i := i + 1;
    }
    FindIs(t, me, i as nat);
    var cs := if i < n then tree[i].children else [];
    var j := 0;
    assert cs[0..] == cs;
    while j < |cs|
      invariant 0 <= j <= |cs|
      invariant forall k :: 0 <= k < j ==> !Reaches(t, cs[k], dst)
      invariant SearchAny(t, cs[j..], dst, fuel).Returns?
    {
      SearchNext(t, cs, j, dst, fuel);
      var below := FindInSubtree(tree, n, cs[j], dst, fuel);
      if below {
        FirstReachingAt(t, cs, dst, j);
        return cs[j];
      }
      j := j + 1;
    }
    FirstReachingAt(t, cs, dst, |cs|);
    return 0;
  }
}
