/**
 The length of a table's full text, from its edges alone.
 */
module TextSize {
  import opened CInts
  import opened Text
  import opened TreeTable
  import opened TreeRoundTrip

  // The decimal of an id, and one character behind it.
  function WidthOf(id: u8): nat { |Dec(id)| + 1 }

  // Over all ids below n that are in the set.
  function WidthTo(ids: set<u8>, n: nat): nat
    requires n <= 256
  {
    if n == 0 then 0 else WidthTo(ids, n - 1) + (if n - 1 in ids then WidthOf(n - 1) else 0)
  }

  function Width(ids: set<u8>): nat { WidthTo(ids, 256) }

  lemma {:induction false} WidthToAdd(a: set<u8>, b: set<u8>, n: nat)
    requires n <= 256 && a !! b
    ensures WidthTo(a + b, n) == WidthTo(a, n) + WidthTo(b, n)
  {
    hide WidthOf;
    if n > 0 { WidthToAdd(a, b, n - 1); }
  }

  lemma {:induction false} WidthToOne(x: u8, n: nat)
    requires n <= 256
    ensures WidthTo({x}, n) == (if x as int < n then WidthOf(x) else 0)
    ensures WidthTo({}, n) == 0
  {
    hide WidthOf;
    if n > 0 { WidthToOne(x, n - 1); }
  }

  lemma WidthAdd(a: set<u8>, b: set<u8>)
    requires a !! b
    ensures Width(a + b) == Width(a) + Width(b)
    ensures Width({}) == 0
  {
    WidthToAdd(a, b, 256);
    WidthToOne(0, 256);
  }

  lemma WidthAddOne(a: set<u8>, x: u8)
    requires x !in a
    ensures Width({x} + a) == WidthOf(x) + Width(a)
  {
    WidthToAdd({x}, a, 256);
    WidthToOne(x, 256);
  }

  // ---------- A table's ----------

  ghost function AllTargets(E: set<Edge>): set<u8> { set e | e in E :: e.1 }

  // Each id is listed once, and below one parent, and nobody lists no one.
  ghost predicate ListsOnce(t: Table) {
    && (forall i :: 0 <= i < |t| ==> t[i].children != [] && Distinct(t[i].children))
    && (forall i, j :: 0 <= i < j < |t| ==>
          t[i].id != t[j].id && AsSet(t[i].children) !! AsSet(t[j].children))
  }

  ghost function AllChildren(t: Table): set<u8> {
    if t == [] then {} else AsSet(t[0].children) + AllChildren(t[1..])
  }

  ghost function AllIds(t: Table): set<u8> {
    if t == [] then {} else {t[0].id} + AllIds(t[1..])
  }

  lemma {:induction false} KidsWidth(cs: seq<u8>, first: bool)
    requires Distinct(cs) && cs != []
    ensures |FullKids(cs, first)| + (if first then 1 else 0) == Width(AsSet(cs))
    decreases |cs|
  {
    hide Width;
    assert AsSet(cs) == {cs[0]} + AsSet(cs[1..]);
    WidthAddOne(AsSet(cs[1..]), cs[0]);
    if |cs| > 1 {
      KidsWidth(cs[1..], false);
    } else {
      assert AsSet(cs[1..]) == {};
      WidthAdd({}, {});
    }
  }

  lemma EntryWidth(e: TreeNode)
    requires e.children != [] && Distinct(e.children)
    ensures |FullEntry(e)| == WidthOf(e.id) + Width(AsSet(e.children))
  {
    hide Width;
    KidsWidth(e.children, true);
  }

  lemma {:induction false} AllMember(t: Table, x: u8)
    ensures x in AllChildren(t) <==> exists i :: 0 <= i < |t| && x in AsSet(t[i].children)
    ensures x in AllIds(t) <==> exists i :: 0 <= i < |t| && x == t[i].id
  {
    if t != [] {
      AllMember(t[1..], x);
      if i :| 0 <= i < |t| && x in AsSet(t[i].children) {
        if i > 0 { assert t[1..][i - 1] == t[i]; }
      }
      if i :| 0 <= i < |t| && x == t[i].id {
        if i > 0 { assert t[1..][i - 1] == t[i]; }
      }
    }
  }

  lemma {:induction false} TextWidth(t: Table)
    requires ListsOnce(t)
    ensures |FullText(t)| == Width(AllIds(t)) + Width(AllChildren(t))
  {
    hide Width, FullEntry;
    if t == [] {
      WidthAdd({}, {});
    } else {
      forall x ensures x in AllIds(t[1..]) ==> x != t[0].id
               ensures x in AllChildren(t[1..]) ==> x !in AsSet(t[0].children)
      {
        AllMember(t[1..], x);
      }
      TextWidth(t[1..]);
      EntryWidth(t[0]);
      WidthAddOne(AllIds(t[1..]), t[0].id);
      WidthAdd(AsSet(t[0].children), AllChildren(t[1..]));
    }
  }

  // The length of the full text of a table that lists everyone once is that
  // of its parents and its children, whatever their order.
  lemma TextLengthOfEdges(t: Table)
    requires ListsOnce(t)
    ensures |FullText(t)| == Width(Sources(Edges(t))) + Width(AllTargets(Edges(t)))
  {
    TextWidth(t);
    forall x ensures x in AllIds(t) <==> x in Sources(Edges(t))
             ensures x in AllChildren(t) <==> x in AllTargets(Edges(t))
    {
      AllMember(t, x);
      if i :| 0 <= i < |t| && x == t[i].id {
        assert HasEdge(t, x, t[i].children[0]);
        assert (x, t[i].children[0]) in Edges(t);
      }
      if i :| 0 <= i < |t| && x in AsSet(t[i].children) {
        assert HasEdge(t, t[i].id, x);
        assert (t[i].id, x) in Edges(t);
      }
      if x in Sources(Edges(t)) || x in AllTargets(Edges(t)) { EdgesMember(t, x); }
    }
    assert AllIds(t) == Sources(Edges(t)) && AllChildren(t) == AllTargets(Edges(t));
  }

  lemma EdgesMember(t: Table, x: u8)
    ensures x in Sources(Edges(t)) ==> exists i :: 0 <= i < |t| && x == t[i].id
    ensures x in AllTargets(Edges(t)) ==> exists i :: 0 <= i < |t| && x in AsSet(t[i].children)
  {
    if x in Sources(Edges(t)) {
      var e :| e in Edges(t) && e.0 == x;
      assert (e.0, e.1) == e && HasEdge(t, e.0, e.1);
    }
    if x in AllTargets(Edges(t)) {
      var e :| e in Edges(t) && e.1 == x;
      assert (e.0, e.1) == e && HasEdge(t, e.0, e.1);
    }
  }
}
