/**
 What the parser recovers from what the printer left in the buffer: a cut of
 the table, never an invented or split id; and all of it exactly when the
 text, its last ';' aside, fits.
 */
module TreeRoundTrip {
  import opened CInts
  import opened Text
  import opened TreeTable
  import opened TreeText

  // r is what t can lose by truncation: whole entries at the end, and last
  // children of the last entry kept.
  ghost predicate CutOf(r: Table, t: Table) {
    && |r| <= |t|
    && (forall i :: 0 <= i < |r| ==> r[i].id == t[i].id && r[i].children <= t[i].children)
    && (forall i :: 0 <= i < |r| - 1 ==> r[i].children == t[i].children)
  }

  ghost predicate SmallEntries(t: Table) {
    forall i :: 0 <= i < |t| ==> |t[i].children| <= MAX_CHILDREN
  }

  // The table as text, without any limit.
  function FullKids(cs: seq<u8>, first: bool): string {
    if cs == [] then "" else KidText(cs[0], first) + FullKids(cs[1..], false)
  }

  function FullEntry(e: TreeNode): (s: string)
    ensures |s| >= 3
  {
    Header(e) + FullKids(e.children, true) + ";"
  }

  function FullText(t: Table): string {
    if t == [] then "" else FullEntry(t[0]) + FullText(t[1..])
  }

  // The children, and the entries, that fit.
  function KeptKids(cs: seq<u8>, room: nat, first: bool): (r: seq<u8>)
    ensures r <= cs
  {
    if cs == [] || room == 0 || |KidText(cs[0], first)| > room then []
    else [cs[0]] + KeptKids(cs[1..], room - |KidText(cs[0], first)|, false)
  }

  function KeptEntry(e: TreeNode, room: nat): TreeNode
    requires |Header(e)| <= room
  {
    TreeNode(e.id, KeptKids(e.children, room - |Header(e)|, true))
  }

  function Kept(t: Table, room: nat): (r: Table)
    decreases |t|
  {
    if t == [] || room == 0 || |Header(t[0])| > room then []
    else [KeptEntry(t[0], room)] + Kept(t[1..], room - |EntryText(t[0], room)|)
  }

  // ---------- The parser reads back what was kept ----------

  ghost predicate EndsKids(suf: string) { suf == [] || suf[0] == ';' }

  // A number of any size, and however many children are already there.
  lemma ReadNumber(n: nat, rest: string, acc: seq<u8>)
    requires rest == [] || rest[0] == ',' || rest[0] == ';'
    ensures ParseKids(Dec(n) + rest, acc) ==
            ParseKids(SkipOne(rest, ','), if |acc| < MAX_CHILDREN then acc + [U8(n)] else acc)
  {
    hide *;
    var s := Dec(n) + rest;
    DecDigits(n);
    DelimiterIsNoDigit(rest);
    AtoiDec(n, rest);
    assert s[0] == Dec(n)[0] && Dec(n)[0] in Dec(n);
    KidRead(s, acc);
    assert s[1..] == Dec(n)[1..] + rest;
    DigitsAreNoDelimiters(Dec(n)[1..]);
    DropToSkips(Dec(n)[1..], rest, ",;");
    DropToStops(rest, ",;");
  }

  lemma ReadKid(c: u8, rest: string, acc: seq<u8>)
    requires |acc| < MAX_CHILDREN
    requires rest == [] || rest[0] == ',' || rest[0] == ';'
    ensures ParseKids(Dec(c) + rest, acc) == ParseKids(SkipOne(rest, ','), acc + [c])
  {
    hide *;
    ReadNumber(c, rest, acc);
    ByteUnchanged(c);
  }

  lemma ByteUnchanged(c: u8)
    ensures U8(c) == c
  {}

  lemma DelimiterIsNoDigit(rest: string)
    requires rest == [] || rest[0] == ',' || rest[0] == ';'
    ensures rest == [] || (!IsDigit(rest[0]) && rest[0] in ",;")
  {}

  lemma DigitsAreNoDelimiters(s: string)
    requires forall c :: c in s ==> IsDigit(c)
    ensures forall c :: c in s ==> c !in ",;"
  {}

  lemma DropToStops(s: string, stops: string)
    requires s == [] || s[0] in stops
    ensures DropTo(s, stops) == s
  {}

  // The three ways the text of the children can go on.
  lemma KidsEmpty(cs: seq<u8>, room: nat, first: bool, suf: string)
    requires cs == [] || room == 0 || |KidText(cs[0], first)| > room
    requires EndsKids(suf)
    ensures SkipOne(KidsText(cs, room, first) + suf, ',') == suf
    ensures KeptKids(cs, room, first) == []
  {
    hide KidText;
    assert KidsText(cs, room, first) + suf == suf || KidsText(cs, room, first) + suf == "," + suf;
  }

  lemma KidsMore(cs: seq<u8>, room: nat, first: bool, suf: string)
    requires cs != [] && room > 0 && |KidText(cs[0], first)| <= room
    ensures var left := room - |KidText(cs[0], first)|;
            && SkipOne(KidsText(cs, room, first) + suf, ',') == Dec(cs[0]) + (KidsText(cs[1..], left, false) + suf)
            && KeptKids(cs, room, first) == [cs[0]] + KeptKids(cs[1..], left, false)
  {
    hide Dec;
    var rest := KidsText(cs[1..], room - |KidText(cs[0], first)|, false);
    assert KidsText(cs, room, first) + suf == Comma(first) + (Dec(cs[0]) + (rest + suf));
    DecDigits(cs[0]);
    SkipComma(first, Dec(cs[0]), rest + suf);
  }

  lemma TailDelimited(cs: seq<u8>, room: nat, suf: string)
    requires EndsKids(suf)
    ensures var r := KidsText(cs, room, false) + suf; r == [] || r[0] == ',' || r[0] == ';'
  {
    hide Dec;
  }

  // Parsing starts behind the comma, if there is one.
  lemma {:induction false} KidsBack(cs: seq<u8>, room: nat, first: bool, acc: seq<u8>, suf: string)
    requires |acc| + |cs| <= MAX_CHILDREN && EndsKids(suf)
    ensures ParseKids(SkipOne(KidsText(cs, room, first) + suf, ','), acc) == (acc + KeptKids(cs, room, first), suf)
    decreases |cs|
  {
    hide Dec, ParseKids, KidText, KidsText, KeptKids, SkipOne;
    if cs == [] || room == 0 || |KidText(cs[0], first)| > room {
      KidsEmpty(cs, room, first, suf);
      assert acc + [] == acc;
      KidSkip(suf, acc);
    } else {
      var left := room - |KidText(cs[0], first)|;
      KidsMore(cs, room, first, suf);
      TailDelimited(cs[1..], left, suf);
      ReadKid(cs[0], KidsText(cs[1..], left, false) + suf, acc);
      KidsBack(cs[1..], left, false, acc + [cs[0]], suf);
      assert acc + ([cs[0]] + KeptKids(cs[1..], left, false)) == (acc + [cs[0]]) + KeptKids(cs[1..], left, false);
    }
  }

  lemma SkipComma(first: bool, d: string, rest: string)
    requires d != [] && IsDigit(d[0])
    ensures SkipOne(Comma(first) + (d + rest), ',') == d + rest
  {}

  // Nothing to skip before the first child.
  lemma FirstKidsBack(cs: seq<u8>, room: nat, suf: string)
    requires |cs| <= MAX_CHILDREN && EndsKids(suf)
    ensures ParseKids(KidsText(cs, room, true) + suf, []) == (KeptKids(cs, room, true), suf)
  {
    hide ParseKids, KeptKids;
    KidsBack(cs, room, true, [], suf);
    assert [] + KeptKids(cs, room, true) == KeptKids(cs, room, true);
    NoLeadingComma(cs, room, suf);
  }

  lemma NoLeadingComma(cs: seq<u8>, room: nat, suf: string)
    requires EndsKids(suf)
    ensures SkipOne(KidsText(cs, room, true) + suf, ',') == KidsText(cs, room, true) + suf
  {
    hide Dec;
    if !(cs == [] || room == 0 || |KidText(cs[0], true)| > room) {
      DecDigits(cs[0]);
      assert (KidsText(cs, room, true) + suf)[0] == Dec(cs[0])[0] && Dec(cs[0])[0] in Dec(cs[0]);
    }
  }

  // One entry.
  lemma EntryBack(e: TreeNode, room: nat, rest: string)
    requires |Header(e)| <= room && |e.children| <= MAX_CHILDREN
    requires |EntryText(e, room)| == room ==> rest == "" || EntryText(e, room)[room - 1] == ';'
    ensures var s := EntryText(e, room) + rest;
            DropTo(s, ":") != [] && ParseEntry(s) == KeptEntry(e, room) && AfterEntry(s) == rest
  {
    hide *;
    var room' := room - |Header(e)|;
    var kids, suf := KidsText(e.children, room', true), EntrySuffix(e, room, rest);
    EntryShape(e, room, rest);
    HeaderBack(e.id, kids + suf);
    FirstKidsBack(e.children, room', suf);
    EntryParts(EntryText(e, room) + rest);
    KeptEntryIs(e, room);
    SkipSuffix(e, room, rest);
  }

  lemma KeptEntryIs(e: TreeNode, room: nat)
    requires |Header(e)| <= room
    ensures KeptEntry(e, room) == TreeNode(e.id, KeptKids(e.children, room - |Header(e)|, true))
  {}

  // What follows the children of an entry.
  function EntrySuffix(e: TreeNode, room: nat, rest: string): string
    requires |Header(e)| <= room
  {
    if |Header(e)| + |KidsText(e.children, room - |Header(e)|, true)| < room then ";" + rest else rest
  }

  lemma SkipSuffix(e: TreeNode, room: nat, rest: string)
    requires |Header(e)| <= room
    requires |EntryText(e, room)| == room ==> rest == "" || EntryText(e, room)[room - 1] == ';'
    ensures SkipOne(EntrySuffix(e, room, rest), ';') == rest && EndsKids(EntrySuffix(e, room, rest))
  {
    hide Dec, KidsText, Header;
    LastIsNotSemicolon(e, room);
  }

  lemma EntryShape(e: TreeNode, room: nat, rest: string)
    requires |Header(e)| <= room
    requires |EntryText(e, room)| == room ==> rest == "" || EntryText(e, room)[room - 1] == ';'
    ensures var kids := KidsText(e.children, room - |Header(e)|, true);
            EntryText(e, room) + rest == Dec(e.id) + (":" + (kids + EntrySuffix(e, room, rest)))
    ensures EndsKids(EntrySuffix(e, room, rest))
  {
    hide Dec, KidsText;
    SkipSuffix(e, room, rest);
  }

  // The parser finds the id, and stops at the colon.
  lemma HeaderBack(id: u8, rest: string)
    ensures var s := Dec(id) + (":" + rest);
            DropTo(s, ":") != [] && DropTo(s, ":")[1..] == rest && U8(Atoi(s)) == id
  {
    hide Dec, Atoi;
    AnyHeaderBack(id, rest);
  }

  lemma LastIsNotSemicolon(e: TreeNode, room: nat)
    requires |Header(e)| <= room
    ensures var s := Header(e) + KidsText(e.children, room - |Header(e)|, true);
            s[|s| - 1] != ';'
  {
    hide Dec, KidsText;
    KidsTextClean(e.children, room - |Header(e)|, true);
    var k := KidsText(e.children, room - |Header(e)|, true);
    if k != "" { assert k[|k| - 1] in k; }
  }

  // The whole text, with whatever part of the remnant was sent along.
  lemma {:induction false} ParseBack(t: Table, room: nat, tail: string, maxN: nat)
    requires SmallEntries(t) && tail <= Remnant(t, room)
    ensures Parse(Body(t, room) + tail, maxN) == Kept(t, room)[..Min(maxN, |Kept(t, room)|)]
    decreases |t|
  {
    hide Header, EntryText, KeptEntry, Parse;
    var s := Body(t, room) + tail;
    if t == [] || room == 0 {
      ParseEnd(s, maxN);
    } else if |Header(t[0])| > room {
      assert s == tail;
      HeaderCut(t[0], room, tail, maxN);
    } else if maxN == 0 {
      ParseEnd(s, maxN);
    } else {
      HeaderLength(t[0]);
      BodyUnfolds(t, room);
      ParseBack(t[1..], room - |EntryText(t[0], room)|, tail, maxN - 1);
      OneMoreEntry(t, room, tail, maxN);
    }
  }

  lemma OneMoreEntry(t: Table, room: nat, tail: string, maxN: nat)
    requires SmallEntries(t) && tail <= Remnant(t, room)
    requires t != [] && |Header(t[0])| <= room && maxN > 0
    requires var left := room - |EntryText(t[0], room)|;
             Parse(Body(t[1..], left) + tail, maxN - 1) == Kept(t[1..], left)[..Min(maxN - 1, |Kept(t[1..], left)|)]
    ensures Parse(Body(t, room) + tail, maxN) == Kept(t, room)[..Min(maxN, |Kept(t, room)|)]
  {
    hide Header, EntryText, KeptEntry, Parse, Body, Remnant, Kept, ParseEntry, AfterEntry, DropTo;
    var e := EntryText(t[0], room);
    BodyUnfolds(t, room);
    KeptUnfolds(t, room);
    var s, rest := Body(t, room) + tail, Body(t[1..], room - |e|) + tail;
    Assoc(e, Body(t[1..], room - |e|), tail);
    assert |e| == room ==> rest == "" by {
      assert |Body(t[1..], room - |e|)| + |Remnant(t[1..], room - |e|)| <= room - |e|;
    }
    EntryBack(t[0], room, rest);
    ParseStep(s, maxN, []);
    var kept, more := Kept(t, room), Kept(t[1..], room - |e|);
    assert [] + Parse(s, maxN) == Parse(s, maxN) && [] + [ParseEntry(s)] == [ParseEntry(s)];
    assert kept[..Min(maxN, |kept|)] == [kept[0]] + more[..Min(maxN - 1, |more|)];
  }

  lemma BodyUnfolds(t: Table, room: nat)
    requires t != [] && |Header(t[0])| <= room
    ensures var e := EntryText(t[0], room);
            Body(t, room) == e + Body(t[1..], room - |e|) && Remnant(t, room) == Remnant(t[1..], room - |e|)
  {
    hide Header, EntryText;
    HeaderLength(t[0]);
  }

  lemma KeptUnfolds(t: Table, room: nat)
    requires t != [] && |Header(t[0])| <= room
    ensures Kept(t, room) == [KeptEntry(t[0], room)] + Kept(t[1..], room - |EntryText(t[0], room)|)
  {
    hide Header, EntryText, KeptEntry;
    HeaderLength(t[0]);
  }

  // A header without its ':' is not an entry.
  lemma HeaderCut(e: TreeNode, room: nat, tail: string, maxN: nat)
    requires room < |Header(e)| && tail <= Header(e)[..room]
    ensures Parse(tail, maxN) == []
  {
    hide Dec;
    DecDigits(e.id);
    assert forall c :: c in tail ==> c in Dec(e.id);
    DropToSkips(tail, "", ":");
    assert tail + "" == tail;
  }

  // ---------- What was kept ----------

  lemma {:induction false} KeptIsCut(t: Table, room: nat)
    ensures CutOf(Kept(t, room), t)
    decreases |t|
  {
    hide Header, EntryText, KeptKids;
    if !(t == [] || room == 0 || |Header(t[0])| > room) {
      var left := room - |EntryText(t[0], room)|;
      KeptIsCut(t[1..], left);
      var r, rest := Kept(t, room), Kept(t[1..], left);
      if rest != [] {
        LaterEntryMeansWhole(t[0], room);
        assert 2 <= left by { hide *; HeaderLength(t[1]); }
      }
      forall i | 0 <= i < |r|
        ensures r[i].id == t[i].id && r[i].children <= t[i].children
        ensures i < |r| - 1 ==> r[i].children == t[i].children
      {
        if i > 0 { assert r[i] == rest[i - 1] && t[i] == t[1..][i - 1]; }
      }
    }
  }

  lemma HeaderLength(e: TreeNode)
    ensures 2 <= |Header(e)| <= 4
  {}

  // A child that does not fit leaves too little room for a further header.
  lemma LaterEntryMeansWhole(e: TreeNode, room: nat)
    requires |Header(e)| <= room
    ensures room - |EntryText(e, room)| >= 2 ==> KeptEntry(e, room).children == e.children
  {
    hide Header, Dec;
    KidsLeft(e.children, room - |Header(e)|, true);
  }

  lemma {:induction false} KidsLeft(cs: seq<u8>, room: nat, first: bool)
    ensures KeptKids(cs, room, first) != cs ==> room - |KidsText(cs, room, first)| <= 2
    ensures KeptKids(cs, room, first) == cs <==> |FullKids(cs, first)| <= room
    ensures KeptKids(cs, room, first) == cs ==> KidsText(cs, room, first) == FullKids(cs, first)
    decreases |cs|
  {
    hide Dec;
    if cs != [] { DecLength(cs[0]); }
    if cs != [] && room > 0 && |KidText(cs[0], first)| <= room {
      KidsLeft(cs[1..], room - |KidText(cs[0], first)|, false);
      var k := KeptKids(cs[1..], room - |KidText(cs[0], first)|, false);
      assert KeptKids(cs, room, first)[1..] == k;
      assert cs == [cs[0]] + cs[1..];
    }
  }

  // ---------- Main results ----------

  // Whatever the buffer size, the parser gets a cut of the table. The tail is
  // the part of the remnant that travels with the text.
  lemma TruncationIsSound(t: Table, room: nat, tail: string, maxN: nat)
    requires SmallEntries(t) && tail <= Remnant(t, room)
    ensures CutOf(Parse(Body(t, room) + tail, maxN), t)
  {
    ParseBack(t, room, tail, maxN);
    KeptIsCut(t, room);
  }

  // A non-empty table in a buffer of at least five characters never loses the
  // first id.
  lemma FirstIdSurvives(t: Table, room: nat, tail: string, maxN: nat)
    requires SmallEntries(t) && tail <= Remnant(t, room)
    requires t != [] && 4 <= room && 0 < maxN
    ensures var r := Parse(Body(t, room) + tail, maxN); r != [] && r[0].id == t[0].id
  {
    hide Header, EntryText;
    ParseBack(t, room, tail, maxN);
    HeaderLength(t[0]);
  }

  // The first k entries arrive whole exactly when their text fits, where the
  // last ';' may take the place of the terminating NUL.
  lemma EntriesArriveIff(t: Table, room: nat, tail: string, maxN: nat, k: nat)
    requires SmallEntries(t) && tail <= Remnant(t, room) && k <= |t| && k <= maxN
    ensures var r := Parse(Body(t, room) + tail, maxN);
            k <= |r| && r[..k] == t[..k] <==> |FullText(t[..k])| <= room + 1
  {
    ParseBack(t, room, tail, maxN);
    KeptPrefixIff(t, room, k);
    var r := Parse(Body(t, room) + tail, maxN);
    if k <= |r| { assert r[..k] == Kept(t, room)[..k]; }
  }

  // So the whole table does exactly when its whole text fits.
  lemma WholeTableIff(t: Table, room: nat, tail: string, maxN: nat)
    requires SmallEntries(t) && tail <= Remnant(t, room) && |t| <= maxN
    ensures Parse(Body(t, room) + tail, maxN) == t <==> |FullText(t)| <= room + 1
  {
    hide Parse, Body, FullText, CutOf;
    EntriesArriveIff(t, room, tail, maxN, |t|);
    TruncationIsSound(t, room, tail, maxN);
    CutLength(Parse(Body(t, room) + tail, maxN), t);
    assert t[..|t|] == t;
    var r := Parse(Body(t, room) + tail, maxN);
    assert r[..|r|] == r;
  }

  lemma CutLength(r: Table, t: Table)
    requires CutOf(r, t)
    ensures |r| <= |t|
  {}

  // What fits is printed in full, with nothing behind it.
  lemma {:induction false} PrintedInFull(t: Table, room: nat)
    requires |FullText(t)| <= room
    ensures Body(t, room) == FullText(t) && Remnant(t, room) == ""
    decreases |t|
  {
    hide Header, EntryText, FullEntry;
    if t != [] {
      EntryInFull(t[0], room);
      PrintedInFull(t[1..], room - |EntryText(t[0], room)|);
    }
  }

  lemma EntryInFull(e: TreeNode, room: nat)
    requires |FullEntry(e)| <= room
    ensures |Header(e)| <= room && EntryText(e, room) == FullEntry(e)
  {
    hide Header;
    KidsLeft(e.children, room - |Header(e)|, true);
  }

  lemma {:induction false} KeptPrefixIff(t: Table, room: nat, k: nat)
    requires k <= |t|
    ensures k <= |Kept(t, room)| && Kept(t, room)[..k] == t[..k] <==> |FullText(t[..k])| <= room + 1
    decreases |t|
  {
    hide Header, EntryText, KeptKids, FullKids, FullEntry;
    if k > 0 {
      FullEntryKept(t[0], room);
      assert t[..k] == [t[0]] + t[1..][..k - 1] && t[..k][1..] == t[1..][..k - 1];
      if !(room == 0 || |Header(t[0])| > room) {
        var left := room - |EntryText(t[0], room)|;
        var r, rest := Kept(t, room), Kept(t[1..], left);
        KeptPrefixIff(t[1..], left, k - 1);
        assert r == [KeptEntry(t[0], room)] + rest;
        assert k <= |r| ==> r[..k] == [KeptEntry(t[0], room)] + rest[..k - 1];
        if k > 1 { assert |FullText(t[1..][..k - 1])| >= 3; }
        if k <= |r| && r[..k] == t[..k] { assert r[..k][0] == t[0] && r[..k][1..] == rest[..k - 1]; }
      }
    }
  }

  lemma FullEntryKept(e: TreeNode, room: nat)
    ensures |Header(e)| > room ==> |FullEntry(e)| > room + 1
    ensures |Header(e)| <= room ==> (KeptEntry(e, room) == e <==> |FullEntry(e)| <= room + 1)
    ensures |FullEntry(e)| <= room ==> |EntryText(e, room)| == |FullEntry(e)|
    ensures |FullEntry(e)| == room + 1 ==> |EntryText(e, room)| == room
  {
    hide Header;
    if |Header(e)| <= room {
      KidsLeft(e.children, room - |Header(e)|, true);
    }
  }

  // ---------- How much of the entry that is cut ----------

  // The text up to and with the first j children of entry k.
  function TextUpTo(t: Table, k: nat, j: nat): nat
    requires k < |t| && j <= |t[k].children|
  {
    |FullText(t[..k])| + |Header(t[k])| + |FullKids(t[k].children[..j], true)|
  }

  lemma {:induction false} KidsKeptIff(cs: seq<u8>, room: nat, first: bool, j: nat)
    requires j <= |cs|
    ensures j <= |KeptKids(cs, room, first)| <==> |FullKids(cs[..j], first)| <= room
    decreases |cs|
  {
    hide KidText;
    if j > 0 {
      assert cs[..j][1..] == cs[1..][..j - 1];
      var w := |KidText(cs[0], first)|;
      if room > 0 && w <= room { KidsKeptIff(cs[1..], room - w, false, j - 1); }
    }
  }

  lemma {:induction false} ChildrenKeptIff(t: Table, room: nat, k: nat, j: nat)
    requires k < |t| && j <= |t[k].children|
    ensures k < |Kept(t, room)| && j <= |Kept(t, room)[k].children| <==> TextUpTo(t, k, j) <= room
    decreases |t|
  {
    hide Header, EntryText, KeptKids, FullKids, FullEntry;
    HeaderLength(t[k]);
    if k == 0 {
      assert t[..0] == [];
      if |Header(t[0])| <= room { KidsKeptIff(t[0].children, room - |Header(t[0])|, true, j); }
    } else {
      assert t[..k] == [t[0]] + t[1..][..k - 1] && t[..k][1..] == t[1..][..k - 1];
      FullEntryKept(t[0], room);
      if !(room == 0 || |Header(t[0])| > room) {
        var left := room - |EntryText(t[0], room)|;
        LaterEntryMeansWhole(t[0], room);
        ChildrenKeptIff(t[1..], left, k - 1, j);
        assert Kept(t, room)[1..] == Kept(t[1..], left);
      }
    }
  }

  // The first j children of entry k arrive exactly when the text up to them
  // fits; for j = 0 this is the entry itself.
  lemma ChildrenArriveIff(t: Table, room: nat, tail: string, maxN: nat, k: nat, j: nat)
    requires SmallEntries(t) && tail <= Remnant(t, room) && k < |t| && k < maxN && j <= |t[k].children|
    ensures var r := Parse(Body(t, room) + tail, maxN);
            k < |r| && r[k].id == t[k].id && t[k].children[..j] <= r[k].children <==> TextUpTo(t, k, j) <= room
  {
    hide Parse, Body, Remnant, TextUpTo;
    ParseBack(t, room, tail, maxN);
    ChildrenKeptIff(t, room, k, j);
    KeptIsCut(t, room);
    var r := Parse(Body(t, room) + tail, maxN);
    if k < |Kept(t, room)| {
      assert r[k] == Kept(t, room)[k];
      if j <= |r[k].children| { assert r[k].children[..j] == t[k].children[..j]; }
    }
  }

  // ---------- The text itself, where it is cut ----------

  // Whole entries are printed as they are, and the rest of the room is for what
  // follows them.
  lemma {:induction false} WholeEntriesFirst(t: Table, room: nat, k: nat)
    requires k <= |t| && |FullText(t[..k])| <= room
    ensures var left := room - |FullText(t[..k])|;
            Body(t, room) == FullText(t[..k]) + Body(t[k..], left) && Remnant(t, room) == Remnant(t[k..], left)
    decreases |t|
  {
    hide Header, EntryText, FullEntry;
    if k == 0 {
      assert t[..0] == [] && t[0..] == t;
    } else {
      assert t[..k][0] == t[0] && t[..k][1..] == t[1..][..k - 1] && t[1..][k - 1..] == t[k..];
      hide Body, Remnant;
      EntryInFull(t[0], room);
      BodyUnfolds(t, room);
      WholeEntriesFirst(t[1..], room - |FullEntry(t[0])|, k - 1);
      Assoc(FullEntry(t[0]), FullText(t[1..][..k - 1]), Body(t[k..], room - |FullText(t[..k])|));
    }
  }

  // A header that does not fit leaves its first characters behind the text.
  lemma CutInHeader(t: Table, room: nat, k: nat)
    requires k < |t| && |FullText(t[..k])| <= room < |FullText(t[..k])| + |Header(t[k])|
    ensures Body(t, room) == FullText(t[..k])
    ensures Remnant(t, room) == Header(t[k])[..room - |FullText(t[..k])|]
  {
    hide FullText, Header;
    WholeEntriesFirst(t, room, k);
    assert t[k..][0] == t[k];
    assert FullText(t[..k]) + "" == FullText(t[..k]);
  }

  lemma {:induction false} KidsCut(cs: seq<u8>, room: nat, first: bool, j: nat)
    requires j <= |cs| && |FullKids(cs[..j], first)| <= room
    requires j < |cs| ==> |FullKids(cs[..j], first)| + |KidText(cs[j], first && j == 0)| > room
    ensures KidsText(cs, room, first) ==
            FullKids(cs[..j], first) +
            (if j < |cs| && |FullKids(cs[..j], first)| < room then Comma(first && j == 0) else "")
    decreases |cs|
  {
    hide KidText, Comma;
    if j > 0 {
      assert cs[..j][0] == cs[0] && cs[..j][1..] == cs[1..][..j - 1] && cs[1..][j - 1..] == cs[j..];
      assert |KidText(cs[0], first)| <= room;
      KidsCut(cs[1..], room - |KidText(cs[0], first)|, false, j - 1);
      var pad := if j < |cs| && |FullKids(cs[..j], first)| < room then Comma(false) else "";
      Assoc(KidText(cs[0], first), FullKids(cs[1..][..j - 1], false), pad);
    } else {
      assert cs[..0] == [];
    }
  }

  // An entry of which only the first j children fit, or all but the last ';'.
  ghost predicate CutAt(e: TreeNode, room: nat, j: nat) {
    && j <= |e.children|
    && var len := |Header(e)| + |FullKids(e.children[..j], true)|;
       && len <= room
       && if j < |e.children| then len + |KidText(e.children[j], j == 0)| > room else len == room
  }

  // They stay, with the comma already printed and a ';' as far as there is room.
  function CutEntry(e: TreeNode, room: nat, j: nat): string
    requires j <= |e.children|
  {
    var text := Header(e) + FullKids(e.children[..j], true);
    var comma := if j < |e.children| && |text| < room then Comma(j == 0) else "";
    text + comma + (if |text + comma| < room then ";" else "")
  }

  lemma EntryCut(e: TreeNode, room: nat, j: nat)
    requires CutAt(e, room, j)
    ensures |Header(e)| <= room && EntryText(e, room) == CutEntry(e, room, j)
    ensures room - |EntryText(e, room)| <= 1
  {
    hide FullKids, KidsText;
    var left := room - |Header(e)|;
    KidsCut(e.children, left, true, j);
    if j < |e.children| { DecLength(e.children[j]); }
    var kids := FullKids(e.children[..j], true);
    var comma := if j < |e.children| && |kids| < left then Comma(j == 0) else "";
    Assoc(Header(e), kids, comma);
    assert KidsText(e.children, left, true) == kids + comma;
  }

  // The text of a table whose room ends inside the children of entry k.
  lemma CutInChildren(t: Table, room: nat, k: nat, j: nat)
    requires k < |t| && |FullText(t[..k])| <= room && CutAt(t[k], room - |FullText(t[..k])|, j)
    ensures Body(t, room) == FullText(t[..k]) + CutEntry(t[k], room - |FullText(t[..k])|, j)
    ensures Remnant(t, room) == if k + 1 < |t| && |Body(t, room)| < room then Header(t[k + 1])[..1] else ""
  {
    hide FullText, CutEntry, CutAt, EntryText, Header;
    var left := room - |FullText(t[..k])|;
    WholeEntriesFirst(t, room, k);
    EntryCut(t[k], left, j);
    assert t[k..][0] == t[k] && t[k..][1..] == t[k + 1..];
    NothingFollows(t, k, left - |EntryText(t[k], left)|);
    assert left > 0 by { HeaderLength(t[k]); }
    assert EntryText(t[k], left) + "" == EntryText(t[k], left);
  }

  lemma NothingFollows(t: Table, k: nat, left: nat)
    requires k < |t| && left <= 1
    ensures Body(t[k + 1..], left) == ""
    ensures Remnant(t[k + 1..], left) == if k + 1 < |t| && left > 0 then Header(t[k + 1])[..1] else ""
  {
    hide Header;
    if t[k + 1..] != [] { HeaderLength(t[k + 1..][0]); }
  }

  // ---------- Numbers and lists of any size ----------

  function NumberList(ns: seq<nat>): string {
    if ns == [] then "" else Dec(ns[0]) + (if |ns| == 1 then "" else "," + NumberList(ns[1..]))
  }

  function FirstBytes(ns: seq<nat>, room: nat): seq<u8> {
    if ns == [] || room == 0 then [] else [U8(ns[0])] + FirstBytes(ns[1..], room - 1)
  }

  lemma {:induction false} NumbersBack(ns: seq<nat>, acc: seq<u8>, suf: string)
    requires EndsKids(suf) && |acc| <= MAX_CHILDREN
    ensures ParseKids(NumberList(ns) + suf, acc) == (acc + FirstBytes(ns, MAX_CHILDREN - |acc|), suf)
    decreases |ns|
  {
    hide Dec, ParseKids, U8;
    if ns == [] {
      NoBytes(MAX_CHILDREN - |acc|);
      KidSkip(suf, acc);
      assert "" + suf == suf && acc + [] == acc;
    } else {
      var tail := if |ns| == 1 then "" else "," + NumberList(ns[1..]);
      Assoc(Dec(ns[0]), tail, suf);
      ReadNumber(ns[0], tail + suf, acc);
      var acc' := if |acc| < MAX_CHILDREN then acc + [U8(ns[0])] else acc;
      if |ns| == 1 {
        assert ns[1..] == [] && "" + suf == suf;
        KidSkip(suf, acc');
        EndIsNoComma(suf);
      } else {
        assert (tail + suf)[1..] == NumberList(ns[1..]) + suf;
        NumbersBack(ns[1..], acc', suf);
      }
      FirstBytesStep(ns, acc);
      NoBytes(MAX_CHILDREN - |acc'|);
      assert acc' + [] == acc';
    }
  }

  lemma NoBytes(room: nat)
    ensures FirstBytes([], room) == []
  {}

  lemma EndIsNoComma(suf: string)
    requires EndsKids(suf)
    ensures SkipOne(suf, ',') == suf && (suf == [] || !IsDigit(suf[0]))
  {}

  lemma FirstBytesStep(ns: seq<nat>, acc: seq<u8>)
    requires ns != [] && |acc| <= MAX_CHILDREN
    ensures var acc' := if |acc| < MAX_CHILDREN then acc + [U8(ns[0])] else acc;
            acc' + FirstBytes(ns[1..], MAX_CHILDREN - |acc'|) == acc + FirstBytes(ns, MAX_CHILDREN - |acc|)
  {
    hide U8;
    if |acc| < MAX_CHILDREN {
      var rest := FirstBytes(ns[1..], MAX_CHILDREN - |acc| - 1);
      assert acc + ([U8(ns[0])] + rest) == (acc + [U8(ns[0])]) + rest;
    }
  }

  // An entry of any numbers, however many: the parser keeps the low byte of each
  // and the first eight children.
  lemma LongEntry(id: nat, ns: seq<nat>, maxN: nat)
    requires maxN > 0
    ensures Parse(Dec(id) + ":" + NumberList(ns) + ";", maxN) == [TreeNode(U8(id), FirstBytes(ns, MAX_CHILDREN))]
  {
    hide Dec, Parse, ParseEntry, AfterEntry, ParseKids, DropTo, Atoi, U8, FirstBytes, NumberList;
    var kids := NumberList(ns);
    var s := Dec(id) + ":" + kids + ";";
    assert s == Dec(id) + (":" + (kids + ";"));
    AnyHeaderBack(id, kids + ";");
    NumbersBack(ns, [], ";");
    EntryParts(s);
    ParseStep(s, maxN, []);
    assert AfterEntry(s) == "";
    ParseEnd("", maxN - 1);
    assert [] + Parse(s, maxN) == Parse(s, maxN) && [] + [ParseEntry(s)] + [] == [ParseEntry(s)];
    assert [] + FirstBytes(ns, MAX_CHILDREN) == FirstBytes(ns, MAX_CHILDREN);
  }

  lemma AnyHeaderBack(id: nat, rest: string)
    ensures var s := Dec(id) + (":" + rest);
            DropTo(s, ":") != [] && DropTo(s, ":")[1..] == rest && Atoi(s) == id
  {
    hide Dec, Atoi;
    DecDigits(id);
    DropToSkips(Dec(id), ":" + rest, ":");
    DropToStops(":" + rest, ":");
    AtoiDec(id, ":" + rest);
  }

  // The format, letter by letter.
  lemma TableExample()
    ensures FullText([TreeNode(1, [8, 17]), TreeNode(205, [])]) == "1:8,17;205:;"
  {
    hide FullText, FullEntry;
    ExampleEntries();
    TwoEntries(TreeNode(1, [8, 17]), TreeNode(205, []));
  }

  lemma ExampleEntries()
    ensures FullEntry(TreeNode(1, [8, 17])) == "1:8,17;" && FullEntry(TreeNode(205, [])) == "205:;"
  {
    hide FullText, Dec;
    ExampleNumbers();
    assert [17][1..] == [] && [8, 17][1..] == [17];
    assert FullKids([17], false) == ",17";
    assert FullKids([8, 17], true) == "8,17";
  }

  lemma ExampleNumbers()
    ensures Dec(1) == "1" && Dec(8) == "8" && Dec(17) == "17" && Dec(205) == "205"
  {
    assert Dec(20) == "20";
  }

  lemma TwoEntries(e: TreeNode, f: TreeNode)
    ensures FullText([e, f]) == FullEntry(e) + FullEntry(f)
  {
    hide FullEntry;
    assert [e, f][1..] == [f] && [f][1..] == [];
    assert FullText([f]) == FullEntry(f) + FullText([]);
    assert FullEntry(f) + "" == FullEntry(f);
    assert FullText([e, f]) == FullEntry(e) + FullText([f]);
  }
}
