/**
 The routing table as text, "id:c1,c2;id:;...": the printer, which stops when
 its buffer is full, and the parser.

 The functions below describe the text; `room` is the number of characters
 still free before the terminating NUL.
 */
module TreeText {
  import opened CInts
  import opened Text
  import opened TreeTable

  // ---------- What the printer writes ----------

  function Header(e: TreeNode): (s: string)
    ensures 2 <= |s| <= 4
  {
    DecLength(e.id);
    Dec(e.id) + ":"
  }

  // The children of one entry; a child that does not fit leaves its comma.
  function KidsText(cs: seq<u8>, room: nat, first: bool): (s: string)
    ensures |s| <= room
  {
    if cs == [] || room == 0 then ""
    else if |KidText(cs[0], first)| > room then Comma(first)
    else KidText(cs[0], first) + KidsText(cs[1..], room - |KidText(cs[0], first)|, false)
  }

  function Comma(first: bool): (s: string)
    ensures |s| <= 1
  {
    if first then "" else ","
  }

  function KidText(c: u8, first: bool): (s: string)
    ensures 1 <= |s| <= 4
  {
    DecLength(c);
    Comma(first) + Dec(c)
  }

  // One entry, given that its header fits.
  function EntryText(e: TreeNode, room: nat): (s: string)
    requires |Header(e)| <= room
    ensures 2 <= |s| <= room
  {
    var s := Header(e) + KidsText(e.children, room - |Header(e)|, true);
    if |s| < room then s + ";" else s
  }

  // The text that counts towards the returned length.
  function Body(t: Table, room: nat): (s: string)
    ensures |s| <= room
    decreases |t|
  {
    if t == [] || room == 0 || |Header(t[0])| > room then ""
    else var s := EntryText(t[0], room); s + Body(t[1..], room - |s|)
  }

  // What snprintf leaves behind the returned length: a header cut short.
  function Remnant(t: Table, room: nat): (s: string)
    ensures |Body(t, room)| + |s| <= room
    decreases |t|
  {
    if t == [] || room == 0 then ""
    else if |Header(t[0])| > room then Header(t[0])[..room]
    else Remnant(t[1..], room - |EntryText(t[0], room)|)
  }

  lemma {:induction false} KidsTextClean(cs: seq<u8>, room: nat, first: bool)
    ensures forall c :: c in KidsText(cs, room, first) ==> c == ',' || IsDigit(c)
  {
    if cs != [] && room != 0 && |KidText(cs[0], first)| <= room {
      DecDigits(cs[0]);
      KidsTextClean(cs[1..], room - |KidText(cs[0], first)|, false);
    }
  }

  ghost predicate Clean(s: string) {
    forall c :: c in s ==> c == ',' || c == ':' || c == ';' || IsDigit(c)
  }

  lemma EntryClean(e: TreeNode, room: nat)
    requires |Header(e)| <= room
    ensures Clean(EntryText(e, room))
  {
    hide KidsText, Dec;
    KidsTextClean(e.children, room - |Header(e)|, true);
    DecDigits(e.id);
  }

  lemma {:induction false} BodyClean(t: Table, room: nat)
    ensures Clean(Body(t, room))
    decreases |t|
  {
    hide KidsText, Dec, Header, EntryText;
    if !(t == [] || room == 0 || |Header(t[0])| > room) {
      EntryClean(t[0], room);
      BodyClean(t[1..], room - |EntryText(t[0], room)|);
    }
  }

  lemma {:induction false} RemnantClean(t: Table, room: nat)
    ensures Clean(Remnant(t, room))
    decreases |t|
  {
    hide KidsText, Dec, EntryText;
    if t == [] || room == 0 {
    } else if |Header(t[0])| > room {
      DecDigits(t[0].id);
    } else {
      RemnantClean(t[1..], room - |EntryText(t[0], room)|);
    }
  }

  // One step of each loop, as the text sees it.
  lemma BodyStep(t: Table, i: nat, room: nat, out: string)
    requires i < |t| && 0 < room
    ensures if |Header(t[i])| > room then Body(t[i..], room) == "" && Remnant(t[i..], room) == Header(t[i])[..room]
            else var e := EntryText(t[i], room);
            && out + Body(t[i..], room) == (out + e) + Body(t[i + 1..], room - |e|)
            && Remnant(t[i..], room) == Remnant(t[i + 1..], room - |e|)
  {
    hide KidsText, Dec, Header, EntryText;
    assert t[i..][0] == t[i] && t[i..][1..] == t[i + 1..];
    if |Header(t[i])| <= room {
      var e := EntryText(t[i], room);
      Assoc(out, e, Body(t[i + 1..], room - |e|));
    }
  }

  lemma BodyEnd(t: Table, room: nat)
    requires t == [] || room == 0
    ensures Body(t, room) == "" && Remnant(t, room) == ""
  {}

  lemma TextHasNoNul(t: Table, room: nat)
    ensures NUL !in Body(t, room) + Remnant(t, room)
  {
    BodyClean(t, room);
    RemnantClean(t, room);
  }

  lemma KidsStep(cs: seq<u8>, j: nat, room: nat, out: string, first: bool)
    requires j < |cs| && 0 < room
    ensures var d := KidText(cs[j], first);
            if |d| > room then KidsText(cs[j..], room, first) == Comma(first)
            else out + KidsText(cs[j..], room, first) == (out + d) + KidsText(cs[j + 1..], room - |d|, false)
  {
    assert cs[j..][0] == cs[j] && cs[j..][1..] == cs[j + 1..];
    var d := KidText(cs[j], first);
    if |d| <= room {
      Assoc(out, d, KidsText(cs[j + 1..], room - |d|, false));
    }
  }

  // Serialize. buf_len is the size of the buffer.
  method Serialize(tree: array<TreeNode>, nNodes: u8, buf: array<char>, bufLen: u8) returns (pos: u8)
    requires nNodes as nat <= tree.Length && 1 <= bufLen && bufLen as nat <= buf.Length
    modifies buf
    ensures pos as nat == |Body(tree[..nNodes], bufLen - 1)|
    ensures CStr(buf[..]) == Body(tree[..nNodes], bufLen - 1) + Remnant(tree[..nNodes], bufLen - 1)
  {
    hide *;
    ghost var t: Table := tree[..nNodes];
    ghost var room: nat := bufLen - 1;
    ghost var body, remnant := Body(t, room), Remnant(t, room);
    ghost var out := "";
    assert tree[..nNodes] == t && t[0..] == t && out + body == body;
    buf[0] := NUL;
    pos := 0;
    var i: u8 := 0;
    var fits := true;
    while fits && i < nNodes && pos < bufLen - 1
      invariant i <= nNodes && pos <= bufLen - 1
      invariant |out| == pos as nat && buf[..pos] == out
      invariant fits ==> out + Body(t[i..], room - pos) == body
      invariant fits ==> Remnant(t[i..], room - pos) == remnant
      invariant fits ==> buf[pos] == NUL
      invariant !fits ==> out == body && buf[..room] == out + remnant && buf[room] == NUL
      decreases nNodes - i, fits
    {
      ghost var left: nat := room - pos;
      BodyStep(t, i as nat, left, out);
      pos, fits := PutEntry(buf, pos, bufLen, tree[i]);
      if fits {
        out := out + EntryText(t[i], left);
        i := i + 1;
      }
    }
    if fits {
      BodyEnd(t[i..], room - pos);
    }
    ghost var len: nat := if fits then pos else room;
    assert buf[..len] == body + remnant;
    TextHasNoNul(t, room);
    SliceIsCStr(buf, len, body + remnant);
  }

  // One round of the outer loop; `fits` is false where the C loop breaks.
  method PutEntry(buf: array<char>, at: u8, bufLen: u8, e: TreeNode) returns (pos: u8, fits: bool)
    requires bufLen as nat <= buf.Length && at < bufLen - 1
    modifies buf
    ensures fits <==> |Header(e)| <= bufLen - 1 - at
    ensures fits ==> at <= pos < bufLen && buf[pos] == NUL
    ensures fits ==> buf[..pos] == old(buf[..at]) + EntryText(e, bufLen - 1 - at)
    ensures !fits ==> pos == at && buf[bufLen - 1] == NUL
    ensures !fits ==> buf[..bufLen - 1] == old(buf[..at]) + Header(e)[..bufLen - 1 - at]
    ensures !fits ==> buf[..pos] == old(buf[..at])
  {
    hide KidsText, KidText, Dec;
    pos := at;
    var written := Snprintf(buf, pos, (bufLen - pos) as nat, Dec(e.id) + ":");
    if pos + written >= bufLen {
      assert buf[..pos] == buf[..bufLen - 1][..pos];
      return pos, false;
    }
    pos := pos + written;
    pos := PutChildren(buf, pos, bufLen, e.children);
    if pos < bufLen - 1 {
      PutChar(buf, pos, ';');
      pos := pos + 1;
    }
    fits := true;
  }

  // The inner loop of Serialize.
  method PutChildren(buf: array<char>, at: u8, bufLen: u8, cs: seq<u8>) returns (pos: u8)
    requires bufLen as nat <= buf.Length && at < bufLen && buf[at] == NUL
    modifies buf
    ensures at <= pos < bufLen
    ensures buf[..pos] == old(buf[..at]) + KidsText(cs, bufLen - 1 - at, true)
    ensures pos == bufLen - 1 ==> buf[pos] == NUL
  {
    pos := at;
    var j := 0;
    var first, fits := true, true;
    ghost var all := old(buf[..at]) + KidsText(cs, bufLen - 1 - at, true);
    assert cs[0..] == cs;
    while fits && j < |cs| && pos < bufLen - 1
      invariant 0 <= j <= |cs| && at <= pos < bufLen
      invariant fits || pos == bufLen - 1 ==> buf[pos] == NUL
      invariant fits ==> buf[..pos] + KidsText(cs[j..], bufLen - 1 - pos, first) == all
      invariant !fits ==> buf[..pos] == all
      decreases |cs| - j, fits
    {
      KidsStep(cs, j, bufLen - 1 - pos, buf[..pos], first);
      pos, fits := PutChild(buf, pos, bufLen, cs[j], first);
      if fits {
        j := j + 1;
        first := false;
      }
    }
    if fits {
      assert KidsText(cs[j..], bufLen - 1 - pos, first) == "";
      assert buf[..pos] + "" == buf[..pos];
    }
  }

  // One round of the inner loop; `fits` is false where the C loop breaks.
  method PutChild(buf: array<char>, at: u8, bufLen: u8, c: u8, first: bool) returns (pos: u8, fits: bool)
    requires bufLen as nat <= buf.Length && at < bufLen - 1
    modifies buf
    ensures fits <==> |KidText(c, first)| <= bufLen - 1 - at
    ensures at <= pos < bufLen
    ensures pos as nat == at as nat + |if fits then KidText(c, first) else Comma(first)|
    ensures buf[..pos] == old(buf[..at]) + (if fits then KidText(c, first) else Comma(first))
    ensures fits || pos == bufLen - 1 ==> buf[pos] == NUL
  {
    hide Dec;
    pos := at;
    if !first {
      PutChar(buf, pos, ',');
      pos := pos + 1;
    }
    assert buf[..pos] == old(buf[..at]) + Comma(first);
    var written := Snprintf(buf, pos, (bufLen - pos) as nat, Dec(c));
    if pos + written >= bufLen {
      return pos, false;
    }
    Assoc(old(buf[..at]), Comma(first), Dec(c));
    return pos + written, true;
  }

  // ---------- What the parser reads ----------

  // The inner loop: children up to ';' or the end, and the text that remains.
  function ParseKids(s: string, acc: seq<u8>): (r: (seq<u8>, string))
    ensures |r.1| <= |s|
    ensures r.1 == [] || r.1[0] == ';'
    ensures |acc| <= MAX_CHILDREN ==> |r.0| <= MAX_CHILDREN
    decreases |s|
  {
    if s == [] || s[0] == ';' then (acc, s)
    else if IsDigit(s[0]) then
      var acc' := if |acc| < MAX_CHILDREN then acc + [U8(Atoi(s))] else acc;
      var t := DropTo(s[1..], ",;");
      ParseKids(SkipOne(t, ','), acc')
    else ParseKids(s[1..], acc)
  }

  function SkipOne(s: string, c: char): (t: string)
    ensures |t| <= |s|
  {
    if s != [] && s[0] == c then s[1..] else s
  }

  function Parse(s: string, maxN: nat): (t: Table)
    ensures |t| <= maxN
    decreases maxN
  {
    if s == [] || maxN == 0 || DropTo(s, ":") == [] then []
    else [ParseEntry(s)] + Parse(AfterEntry(s), maxN - 1)
  }

  function ParseEntry(s: string): (e: TreeNode)
    requires DropTo(s, ":") != []
    ensures |e.children| <= MAX_CHILDREN
  {
    TreeNode(U8(Atoi(s)), ParseKids(DropTo(s, ":")[1..], []).0)
  }

  function AfterEntry(s: string): string
    requires DropTo(s, ":") != []
  {
    SkipOne(ParseKids(DropTo(s, ":")[1..], []).1, ';')
  }

  lemma ParseStep(s: string, maxN: nat, out: Table)
    requires s != [] && maxN > 0
    ensures if DropTo(s, ":") == [] then Parse(s, maxN) == []
            else out + Parse(s, maxN) == (out + [ParseEntry(s)]) + Parse(AfterEntry(s), maxN - 1)
  {}

  lemma ParseEnd(s: string, maxN: nat)
    requires s == [] || maxN == 0
    ensures Parse(s, maxN) == []
  {}

  lemma KidRead(s: string, acc: seq<u8>)
    requires s != [] && IsDigit(s[0])
    ensures ParseKids(s, acc) ==
            ParseKids(SkipOne(DropTo(s[1..], ",;"), ','), if |acc| < MAX_CHILDREN then acc + [U8(Atoi(s))] else acc)
  {}

  lemma KidSkip(s: string, acc: seq<u8>)
    requires s == [] || !IsDigit(s[0])
    ensures s == [] || s[0] == ';' ==> ParseKids(s, acc) == (acc, s)
    ensures s != [] && s[0] != ';' ==> ParseKids(s, acc) == ParseKids(s[1..], acc)
  {}

  lemma EntryParts(s: string)
    requires DropTo(s, ":") != []
    ensures var r := ParseKids(DropTo(s, ":")[1..], []);
            ParseEntry(s) == TreeNode(U8(Atoi(s)), r.0) && AfterEntry(s) == SkipOne(r.1, ';')
  {}

  // Deserialize, on the C string held in buf.
  method Deserialize(buf: array<char>, tree: array<TreeNode>, maxN: u8) returns (n: u8)
    requires NUL in buf[..] && maxN as nat <= tree.Length
    modifies tree
    ensures n <= maxN
    ensures tree[..n] == Parse(CStr(buf[..]), maxN)
    ensures forall k :: n as nat <= k < tree.Length ==> tree[k] == old(tree[k])
  {
    hide Atoi, CStr, StrLen, DropTo, ParseKids, Parse, ParseEntry, AfterEntry;
    ghost var s := CStr(buf[..]);
    CStrHolds(buf);
    n := 0;
    var p: nat := 0;
    var more := true;
    ghost var all := Parse(s, maxN);
    assert s[0..] == s;
    while more && buf[p] != NUL && n < maxN
      invariant n <= maxN && p <= |s|
      invariant more ==> tree[..n] + Parse(s[p..], (maxN - n) as nat) == all
      invariant !more ==> tree[..n] == all
      invariant forall k :: n as nat <= k < tree.Length ==> tree[k] == old(tree[k])
      decreases maxN - n, more
    {
      assert s[p..] != [];
      ParseStep(s[p..], (maxN - n) as nat, tree[..n]);
      ghost var before, entry := tree[..n], s[p..];
      p, more := ReadEntry(buf, p, tree, n as nat, s);
      if more {
        n := n + 1;
        assert tree[..n] == before + [ParseEntry(entry)];
      }
    }
    if more { ParseEnd(s[p..], (maxN - n) as nat); }
  }

  // One round of the outer loop; `more` is false where the C loop breaks.
  method ReadEntry(buf: array<char>, at: nat, tree: array<TreeNode>, n: nat, ghost s: string)
    returns (p: nat, more: bool)
    requires Holds(buf, s) && at < |s| && n < tree.Length
    modifies tree
    ensures p <= |s|
    ensures more <==> DropTo(s[at..], ":") != []
    ensures more ==> tree[n] == ParseEntry(s[at..]) && s[p..] == AfterEntry(s[at..])
    ensures forall k :: 0 <= k < tree.Length && k != n ==> tree[k] == old(tree[k])
    ensures !more ==> tree[n] == old(tree[n])
  {
    hide Atoi, CStr, StrLen, DropTo, ParseKids, Parse, ParseEntry, AfterEntry;
    HoldsCStr(buf, s);
    var nodeId := U8(Atoi(CStr(buf[at..])));
    p := SkipTo(buf, at, ":", s);
    if buf[p] == NUL {
      return p, false;
    }
    DropDrop(s, p);
    EntryParts(s[at..]);
    p := p + 1;
    tree[n] := TreeNode(nodeId, []);
    p := ReadChildren(buf, p, tree, n, s);
    if buf[p] == ';' {
      DropDrop(s, p);
      p := p + 1;
    }
    more := true;
  }

  method AppendChild(tree: array<TreeNode>, n: nat, child: u8)
    requires n < tree.Length
    modifies tree
    ensures tree[n].children ==
            if |old(tree[n].children)| < MAX_CHILDREN then old(tree[n].children) + [child] else old(tree[n].children)
    ensures tree[n].id == old(tree[n].id)
    ensures forall k :: 0 <= k < tree.Length && k != n ==> tree[k] == old(tree[k])
  {
    if |tree[n].children| < MAX_CHILDREN {
      tree[n] := TreeNode(tree[n].id, tree[n].children + [child]);
    }
  }

  // The inner loop of Deserialize, filling the entry just initialised.
  method ReadChildren(buf: array<char>, at: nat, tree: array<TreeNode>, n: nat, ghost s: string) returns (p: nat)
    requires Holds(buf, s) && at <= |s|
    requires n < tree.Length && tree[n].children == []
    modifies tree
    ensures at <= p <= |s|
    ensures (tree[n].children, s[p..]) == ParseKids(s[at..], []) && tree[n].id == old(tree[n].id)
    ensures forall k :: 0 <= k < tree.Length && k != n ==> tree[k] == old(tree[k])
  {
    hide Atoi, CStr, StrLen, DropTo, ParseKids;
    p := at;
    ghost var all := ParseKids(s[at..], []);
    while buf[p] != ';' && buf[p] != NUL
      invariant at <= p <= |s|
      invariant ParseKids(s[p..], tree[n].children) == all
      invariant tree[n].id == old(tree[n].id)
      invariant forall k :: 0 <= k < tree.Length && k != n ==> tree[k] == old(tree[k])
      decreases |s| - p
    {
      DropDrop(s, p);
      if IsDigit(buf[p]) {
        p := ReadChild(buf, p, tree, n, s);
      } else {
        KidSkip(s[p..], tree[n].children);
        p := p + 1;
      }
    }
    KidSkip(s[p..], tree[n].children);
  }

  // One child id, and the comma behind it.
  method ReadChild(buf: array<char>, at: nat, tree: array<TreeNode>, n: nat, ghost s: string) returns (p: nat)
    requires Holds(buf, s) && at < |s| && IsDigit(buf[at]) && n < tree.Length
    modifies tree
    ensures at < p <= |s|
    ensures ParseKids(s[p..], tree[n].children) == ParseKids(s[at..], old(tree[n].children))
    ensures tree[n].id == old(tree[n].id)
    ensures forall k :: 0 <= k < tree.Length && k != n ==> tree[k] == old(tree[k])
  {
    hide Atoi, CStr, StrLen, DropTo, ParseKids;
    HoldsCStr(buf, s);
    DropDrop(s, at);
    KidRead(s[at..], tree[n].children);
    AppendChild(tree, n, U8(Atoi(CStr(buf[at..]))));
    p := SkipTo(buf, at + 1, ",;", s);
    if buf[p] == ',' {
      DropDrop(s, p);
      p := p + 1;
    }
  }
}
