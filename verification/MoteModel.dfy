/**
 One mote as a value, and what each of its atomic steps does to it. The
 scheduler never interrupts a callback or a process between two waits, so
 each of them is one step.
 */
module MoteModel {
  import opened CInts
  import opened Text
  import opened TreeTable
  import opened TreeText
  import TreeRoundTrip
  import opened Subtree
  import opened PacketText
  import opened SinkStats

  const ROOT: u8 := 1
  const NULL_ID: u8 := 0         // linkaddr_null
  const NO_PATH: i16 := -1000
  const POOL_SIZE: nat := 10     // both MEMB pools
  const TREE_SERIAL_BUF: u8 := 128
  const ORIGEN: u8 := 8
  const DESTINO: u8 := 17

  // A preferred_parent entry: accumulated path RSSI and local link RSSI.
  datatype Candidate = Candidate(id: u8, path: i16, link: i8)

  // A pkt_entry. `trail` is a history variable: the motes the packet has been
  // at, in order. No step looks at it.
  datatype Packet = Packet(dst: u8, msg: Message, trail: seq<u8>)

  datatype Mote = Mote(
    id: u8,
    parent: u8,              // best_parent_id
    metric: i16,             // my_path_rssi
    cands: seq<Candidate>,   // preferred_parent_list, head first
    table: Table,            // routing_tree[0 .. tree_n_nodes]
    packets: seq<Packet>,    // pkt_list, head first
    stats: seq<Stat>,        // pkt_stats_table
    slot: string,            // ctrl_payload
    seqNum: u16)

  datatype Fate = Delivered | Dropped | Forwarded(to: u8)

  function Init(id: u8): Mote {
    Mote(id, NULL_ID, if id == ROOT then 0 else NO_PATH, [],
         if id == ROOT then [TreeNode(ROOT, [])] else [], [], [], "", 0)
  }

  // What a beacon says of the path.
  function Advertised(m: Mote): i16 { if m.id == ROOT then 0 else m.metric }

  // ---------- Parent selection ----------

  function FindCandidate(cs: seq<Candidate>, id: u8): (k: nat)
    ensures k <= |cs| && (forall i :: 0 <= i < k ==> cs[i].id != id)
    ensures k < |cs| ==> cs[k].id == id
  {
    FirstWhere(cs, (c: Candidate) => c.id == id)
  }

  predicate Eligible(c: Candidate) { NO_PATH < c.path < 0 }

  ghost predicate NoneEligible(cs: seq<Candidate>) {
    forall i :: 0 <= i < |cs| ==> !Eligible(cs[i])
  }

  ghost predicate IsMaximum(cs: seq<Candidate>, w: nat) {
    && w < |cs| && Eligible(cs[w])
    && forall i :: 0 <= i < |cs| && Eligible(cs[i]) ==> cs[i].path <= cs[w].path
  }

  // The first maximum in list order, or |cs|.
  function Winner(cs: seq<Candidate>): (w: nat)
    ensures w <= |cs|
    ensures w == |cs| ==> NoneEligible(cs)
    ensures w < |cs| ==> IsMaximum(cs, w) && forall i :: 0 <= i < w && Eligible(cs[i]) ==> cs[i].path < cs[w].path
  {
    if cs == [] then 0 else
    var n, last := |cs| - 1, cs[|cs| - 1];
    var b := Winner(cs[..n]);
    if Eligible(last) && (b == n || last.path > cs[b].path) then n else if b == n then n + 1 else b
  }

  function Hear(cs: seq<Candidate>, c: Candidate): seq<Candidate> {
    var k := FindCandidate(cs, c.id);
    if k < |cs| then cs[k := c] else if |cs| < POOL_SIZE then [c] + cs else cs
  }

  function Select(m: Mote): Mote {
    var w := Winner(m.cands);
    if m.id == ROOT || w == |m.cands| then m else m.(parent := m.cands[w].id, metric := m.cands[w].path)
  }

  // register_parent: a beacon with path `adv` heard with strength `rssi`.
  function HearBeacon(m: Mote, from: u8, adv: i16, rssi: i8): Mote {
    if FindCandidate(m.cands, from) == |m.cands| && |m.cands| >= POOL_SIZE then m
    else Select(m.(cands := Hear(m.cands, Candidate(from, I16(adv + rssi), rssi))))
  }

  function RemoveAt<T>(s: seq<T>, k: nat): (r: seq<T>)
    requires k < |s|
    ensures |r| == |s| - 1 && forall i :: 0 <= i < |r| ==> r[i] == s[if i < k then i else i + 1]
  {
    s[..k] + s[k + 1..]
  }

  // keepalive_expired for the listed neighbour `id`.
  function KeepaliveExpired(m: Mote, id: u8): Mote {
    var k := FindCandidate(m.cands, id);
    if k == |m.cands| then m else
    var m' := m.(cands := RemoveAt(m.cands, k));
    if m.parent == id then m'.(parent := NULL_ID, metric := NO_PATH) else m'
  }

  // ---------- Routing tables ----------

  // The characters after the type byte of a control unicast: the returned
  // length counts the body, and one more character is sent with it.
  function TablePayload(m: Mote): (p: seq<char>) {
    if m.table == [] then Dec(m.id) + ":;" + [NUL]
    else Body(m.table, 127) + (if Remnant(m.table, 127) == "" then [NUL] else Remnant(m.table, 127)[..1])
  }

  function ReceiveTable(m: Mote, payload: seq<char>): Mote {
    m.(slot := Received(payload, TREE_SERIAL_BUF as nat))
  }

  // The ev_update_routing handler, on whatever the slot holds by then.
  function MergeSlot(m: Mote): Mote {
    var recv := Parse(m.slot, MAX_TREE_NODES);
    if recv == [] then m
    else m.(table := AddEdges(m.table, MAX_TREE_NODES, MergeList(m.id, recv)))
  }

  // ---------- Data packets ----------

  function Enqueue(m: Mote, p: Packet): Mote {
    if |m.packets| >= POOL_SIZE then m else m.(packets := [p] + m.packets)
  }

  function Generate(m: Mote): Mote {
    if m.id != ORIGEN then m else
    var q := U16(m.seqNum + 1);
    Enqueue(m.(seqNum := q), Packet(DESTINO, SeqText(q, m.id), [m.id]))
  }

  function CountArrival(m: Mote, msg: string): Mote {
    if m.id != ROOT then m else
    var (src, q) := SinkFields(msg);
    m.(stats := Record(m.stats, Arrival(src, q)))
  }

  function ReceiveData(m: Mote, from: u8, payload: seq<char>, trail: seq<u8>): Mote {
    var msg := Received(payload, MSG_SIZE);
    var (dst, body) := Unwrap(msg, from);
    Enqueue(CountArrival(m, msg), Packet(dst, body, trail + [m.id]))
  }

  ghost function FateOf(m: Mote, p: Packet): Fate {
    if p.dst == m.id then Delivered else
    var f := Forwarder(m.table, m.id, p.dst);
    if f != 0 then Forwarded(f) else if m.parent != NULL_ID then Forwarded(m.parent) else Dropped
  }

  // The ev_route_pkt handler empties the list, deciding packet by packet.
  function RouteAll(m: Mote): Mote { m.(packets := []) }

  ghost function Fates(m: Mote): (r: seq<Fate>)
    ensures |r| == |m.packets| && forall i :: 0 <= i < |r| ==> r[i] == FateOf(m, m.packets[i])
  {
    seq(|m.packets|, i requires 0 <= i < |m.packets| => FateOf(m, m.packets[i]))
  }

  // ---------- What every step keeps ----------

  // Neighbours: distinct, real, over links of negative strength.
  ghost predicate CandidatesOk(cs: seq<Candidate>) {
    && |cs| <= POOL_SIZE
    && (forall i, j :: 0 <= i < j < |cs| ==> cs[i].id != cs[j].id)
    && (forall i :: 0 <= i < |cs| ==> cs[i].id != NULL_ID && cs[i].link < 0)
  }

  // A parent is listed, and is a maximum unless no listed neighbour is
  // eligible any more.
  ghost predicate ParentOk(m: Mote) {
    if m.parent == NULL_ID then m.metric == if m.id == ROOT then 0 else NO_PATH
    else
      && m.id != ROOT && NO_PATH < m.metric < 0
      && exists k :: 0 <= k < |m.cands| && m.cands[k].id == m.parent
                     && (NoneEligible(m.cands) || (IsMaximum(m.cands, k) && m.metric == m.cands[k].path))
  }

  ghost predicate SelectionOk(m: Mote) { CandidatesOk(m.cands) && ParentOk(m) }

  lemma HearKeepsCandidates(cs: seq<Candidate>, c: Candidate)
    requires CandidatesOk(cs) && c.id != NULL_ID && c.link < 0
    ensures CandidatesOk(Hear(cs, c))
  {}

  ghost predicate Listed(cs: seq<Candidate>, b: u8) { exists i :: 0 <= i < |cs| && cs[i].id == b }

  // A beacon is stored from anyone listed, and from others while there is room.
  ghost predicate Stores(cs: seq<Candidate>, from: u8) { Listed(cs, from) || |cs| < POOL_SIZE }

  // The first of the best eligible neighbours, with its path; or as before.
  ghost predicate TakesFirstBest(m: Mote, r: Mote) {
    if NoneEligible(r.cands) then r.parent == m.parent && r.metric == m.metric
    else exists w: nat ::
           && IsMaximum(r.cands, w) && r.parent == r.cands[w].id && r.metric == r.cands[w].path
           && forall i :: 0 <= i < w && Eligible(r.cands[i]) ==> r.cands[i].path < r.cands[w].path
  }

  // After a beacon the list holds the sender with the path and link just heard,
  // and everyone else as before; the sender keeps its place, a new one comes
  // first. A stranger is ignored when the pool is full.
  lemma HearBeaconStores(m: Mote, from: u8, adv: i16, rssi: i8)
    requires CandidatesOk(m.cands)
    ensures var r := HearBeacon(m, from, adv, rssi).cands;
            var c := Candidate(from, I16(adv + rssi), rssi);
            if !Stores(m.cands, from) then r == m.cands
            else
              && (forall d :: d in r <==> d == c || (d in m.cands && d.id != from))
              && (if Listed(m.cands, from) then
                    |r| == |m.cands| && forall i :: 0 <= i < |r| ==> r[i].id == m.cands[i].id
                  else |r| == |m.cands| + 1 && r[1..] == m.cands)
  {
    hide I16, Winner;
    var r := HearBeacon(m, from, adv, rssi).cands;
    var c := Candidate(from, I16(adv + rssi), rssi);
    var k := FindCandidate(m.cands, from);
    if Stores(m.cands, from) {
      assert r == Hear(m.cands, c);
      if k < |m.cands| {
        assert r[k] == c;
        forall d | d in m.cands && d.id != from ensures d in r {
          var i :| 0 <= i < |m.cands| && m.cands[i] == d;
          assert r[i] == d;
        }
      }
    }
  }

  // A heard beacon keeps the choice right, and takes the first best neighbour.
  lemma HearBeaconSelects(m: Mote, from: u8, adv: i16, rssi: i8)
    requires SelectionOk(m) && from != NULL_ID && rssi < 0
    ensures SelectionOk(HearBeacon(m, from, adv, rssi))
    ensures var r := HearBeacon(m, from, adv, rssi);
            if m.id != ROOT && Stores(m.cands, from) then TakesFirstBest(m, r)
            else r.parent == m.parent && r.metric == m.metric
  {
    var c := Candidate(from, I16(adv + rssi), rssi);
    var cs := Hear(m.cands, c);
    HearKeepsCandidates(m.cands, c);
    var w := Winner(cs);
    var stored := FindCandidate(m.cands, from) < |m.cands| || |m.cands| < POOL_SIZE;
    if stored && m.id != ROOT && w == |cs| && m.parent != NULL_ID {
      var k :| 0 <= k < |m.cands| && m.cands[k].id == m.parent;
      var k' := if FindCandidate(m.cands, from) < |m.cands| then k else k + 1;
      assert cs[k'].id == m.parent;
    }
  }

  function Without(cs: seq<Candidate>, id: u8): seq<Candidate> {
    if cs == [] then [] else (if cs[0].id == id then [] else [cs[0]]) + Without(cs[1..], id)
  }

  lemma {:induction false} WithoutMeans(cs: seq<Candidate>, id: u8)
    ensures forall d :: d in Without(cs, id) <==> d in cs && d.id != id
    ensures (forall i :: 0 <= i < |cs| ==> cs[i].id != id) ==> Without(cs, id) == cs
  {
    if cs != [] {
      WithoutMeans(cs[1..], id);
      assert cs == [cs[0]] + cs[1..];
    }
  }

  lemma {:induction false} RemoveIsWithout(cs: seq<Candidate>, k: nat)
    requires k < |cs| && forall i, j :: 0 <= i < j < |cs| ==> cs[i].id != cs[j].id
    ensures RemoveAt(cs, k) == Without(cs, cs[k].id)
  {
    if k == 0 {
      WithoutMeans(cs[1..], cs[0].id);
      assert RemoveAt(cs, 0) == cs[1..];
    } else {
      RemoveIsWithout(cs[1..], k - 1);
      assert RemoveAt(cs, k) == [cs[0]] + RemoveAt(cs[1..], k - 1);
    }
  }

  // An expiry takes exactly that neighbour off the list; the others stay, in
  // order.
  lemma KeepaliveKeepsOthers(m: Mote, id: u8)
    requires CandidatesOk(m.cands)
    ensures var r := KeepaliveExpired(m, id).cands;
            r == Without(m.cands, id) && forall d :: d in r <==> d in m.cands && d.id != id
  {
    var k := FindCandidate(m.cands, id);
    WithoutMeans(m.cands, id);
    if k < |m.cands| { RemoveIsWithout(m.cands, k); }
  }

  lemma KeepaliveSelects(m: Mote, id: u8)
    requires SelectionOk(m) && id != NULL_ID
    ensures SelectionOk(KeepaliveExpired(m, id))
    ensures var r := KeepaliveExpired(m, id);
            if Listed(m.cands, id) && m.parent == id then r.parent == NULL_ID && r.metric == NO_PATH
            else r.parent == m.parent && r.metric == m.metric
  {
    hide FindCandidate, CandidatesOk;
    var k, r := FindCandidate(m.cands, id), KeepaliveExpired(m, id);
    if k < |m.cands| {
      RemovedCandidates(m.cands, k);
      if m.parent == id {
        assert m.id != ROOT;
      } else if m.parent != NULL_ID {
        var j :| 0 <= j < |m.cands| && m.cands[j].id == m.parent
                 && (NoneEligible(m.cands) || (IsMaximum(m.cands, j) && m.metric == m.cands[j].path));
        var j' := if j < k then j else j - 1;
        assert r.cands[j'] == m.cands[j];
        if !NoneEligible(m.cands) { assert IsMaximum(r.cands, j'); }
      }
    }
  }

  lemma RemovedCandidates(cs: seq<Candidate>, k: nat)
    requires CandidatesOk(cs) && k < |cs|
    ensures CandidatesOk(RemoveAt(cs, k))
    ensures NoneEligible(cs) ==> NoneEligible(RemoveAt(cs, k))
  {}

  // 16-bit sums of what motes advertise and hear never wrap.
  lemma PathNeverWraps(adv: i16, rssi: i8)
    requires NO_PATH <= adv <= 0 && rssi < 0
    ensures I16(adv + rssi) == adv + rssi && -1128 <= I16(adv + rssi) <= -1
    ensures Eligible(Candidate(0, I16(adv + rssi), rssi)) ==> adv > NO_PATH
  {}

  // ---------- What the sender's payload means to the receiver ----------

  ghost predicate TableOk(m: Mote) {
    && WellFormed(m.table, MAX_TREE_NODES)
    && (m.table != [] ==> m.table[0].id == m.id)
  }

  function SentTable(m: Mote): Table { Parse(Received(TablePayload(m), TREE_SERIAL_BUF as nat), MAX_TREE_NODES) }

  // What goes out is the buffer with its NUL, up to one character more than the
  // returned length; a mote without a table sends its own id alone.
  lemma PayloadIsBuffer(m: Mote)
    ensures m.table != [] ==>
              var text := Body(m.table, 127);
              TablePayload(m) == (text + Remnant(m.table, 127) + [NUL])[..|text| + 1]
    ensures m.table == [] ==> TablePayload(m) == TreeRoundTrip.FullText([TreeNode(m.id, [])]) + [NUL]
  {
    hide Body, Remnant, Dec;
    var text, rest := Body(m.table, 127), Remnant(m.table, 127);
    assert (text + rest + [NUL])[|text|] == if rest == "" then NUL else rest[0];
    assert [TreeNode(m.id, [])][1..] == [];
    assert TreeRoundTrip.FullText([TreeNode(m.id, [])]) == TreeRoundTrip.FullEntry(TreeNode(m.id, [])) + "";
  }

  // The receiver reads a cut of the sender's table, headed by the sender.
  lemma SentTableIsCut(m: Mote)
    requires TableOk(m)
    ensures SentTable(m) != [] && SentTable(m)[0].id == m.id
    ensures Edges(SentTable(m)) <= Edges(m.table)
    ensures m.table != [] ==> TreeRoundTrip.CutOf(SentTable(m), m.table)
  {
    if m.table == [] {
      LeafTable(m);
    } else {
      PayloadReceived(m.table);
      var tail := SentTail(m.table);
      TreeRoundTrip.TruncationIsSound(m.table, 127, tail, MAX_TREE_NODES);
      TreeRoundTrip.FirstIdSurvives(m.table, 127, tail, MAX_TREE_NODES);
      CutEdges(SentTable(m), m.table);
    }
  }

  // The receiver reads the whole table exactly when its text is at most as
  // long as the serial buffer.
  lemma SentTableWholeIff(m: Mote)
    requires TableOk(m) && m.table != []
    ensures SentTable(m) == m.table <==> |TreeRoundTrip.FullText(m.table)| <= TREE_SERIAL_BUF as nat
  {
    PayloadReceived(m.table);
    TreeRoundTrip.WholeTableIff(m.table, 127, SentTail(m.table), MAX_TREE_NODES);
  }

  lemma CutEdges(r: Table, t: Table)
    requires TreeRoundTrip.CutOf(r, t)
    ensures Edges(r) <= Edges(t)
  {
    forall e | e in Edges(r) ensures e in Edges(t) {
      assert e == (e.0, e.1);
      var i :| 0 <= i < |r| && r[i].id == e.0 && e.1 in r[i].children;
      assert t[i].id == e.0 && e.1 in t[i].children by { assert r[i].children <= t[i].children; }
    }
  }

  // How much of the remnant the receiver gets to see.
  function SentTail(t: Table): string {
    if Remnant(t, 127) == "" || |Body(t, 127)| >= 127 then "" else Remnant(t, 127)[..1]
  }

  lemma PayloadReceived(t: Table)
    ensures var p := Body(t, 127) + (if Remnant(t, 127) == "" then [NUL] else Remnant(t, 127)[..1]);
            Received(p, 128) == Body(t, 127) + SentTail(t)
    ensures SentTail(t) <= Remnant(t, 127)
  {
    hide Body, Remnant, CStr;
    TextHasNoNul(t, 127);
    var b, r := Body(t, 127), Remnant(t, 127);
    var p := b + (if r == "" then [NUL] else r[..1]);
    var cut := p[..Min(|p|, 127)];
    var text := b + SentTail(t);
    assert text <= b + r;
    assert forall c :: c in text ==> c in b + r;
    assert cut[..|text|] == text;
    CStrIs(cut, |text|);
  }

  // A mote without a table announces itself.
  lemma LeafTable(m: Mote)
    requires m.table == []
    ensures SentTable(m) == [TreeNode(m.id, [])]
  {
    var t := [TreeNode(m.id, [])];
    LeafBody(m.id);
    PayloadReceived(t);
    TreeRoundTrip.WholeTableIff(t, 127, SentTail(t), MAX_TREE_NODES);
  }

  lemma LeafBody(id: u8)
    ensures Body([TreeNode(id, [])], 127) == Dec(id) + ":;"
    ensures Remnant([TreeNode(id, [])], 127) == ""
    ensures |TreeRoundTrip.FullText([TreeNode(id, [])])| <= 6
  {
    hide Dec;
    var e := TreeNode(id, []);
    DecLength(id);
    assert [e][1..] == [];
    assert EntryText(e, 127) == Dec(id) + ":;";
    assert Body([e], 127) == EntryText(e, 127) + "";
  }

  lemma MergeKeepsTable(m: Mote)
    requires TableOk(m)
    ensures TableOk(MergeSlot(m))
    ensures Grows(m.table, MergeSlot(m).table)
  {
    var recv := Parse(m.slot, MAX_TREE_NODES);
    if recv != [] {
      AddEdgesGrows(m.table, MAX_TREE_NODES, MergeList(m.id, recv));
    }
  }

  // The first k entries of the sender's table arrive whole exactly when their
  // text is at most as long as the serial buffer.
  lemma SentEntriesIff(m: Mote, k: nat)
    requires TableOk(m) && m.table != [] && k <= |m.table|
    ensures k <= |SentTable(m)| && SentTable(m)[..k] == m.table[..k]
            <==> |TreeRoundTrip.FullText(m.table[..k])| <= TREE_SERIAL_BUF as nat
  {
    PayloadReceived(m.table);
    TreeRoundTrip.EntriesArriveIff(m.table, 127, SentTail(m.table), MAX_TREE_NODES, k);
  }

  // What a child's message says: the child, at least those entries it knows
  // whose text fits the buffer, and nothing it does not know.
  lemma MessageEdges(m: Mote, child: Mote, k: nat)
    requires TableOk(child) && k <= |child.table|
    requires |TreeRoundTrip.FullText(child.table[..k])| <= TREE_SERIAL_BUF as nat
    ensures SentTable(child) != []
    ensures {(m.id, child.id)} + Edges(child.table[..k]) <= EdgeSet(MergeList(m.id, SentTable(child)))
    ensures EdgeSet(MergeList(m.id, SentTable(child))) <= {(m.id, child.id)} + Edges(child.table)
  {
    hide SentTable, EdgeList, Edges, TreeRoundTrip.FullText;
    var sent := SentTable(child);
    SentTableIsCut(child);
    EdgeListIsEdges(sent);
    if child.table == [] {
      assert child.table[..k] == [];
      NoEdges(child.id);
    } else {
      SentEntriesIff(child, k);
      EdgesOfPrefix(sent, k);
    }
  }

  lemma EdgesOfPrefix(t: Table, k: nat)
    requires k <= |t|
    ensures Edges(t[..k]) <= Edges(t)
  {
    forall e | e in Edges(t[..k]) ensures e in Edges(t) {
      assert e == (e.0, e.1);
      var i :| 0 <= i < |t[..k]| && t[..k][i].id == e.0 && e.1 in t[..k][i].children;
      assert t[i].id == e.0 && e.1 in t[i].children;
    }
  }

  lemma NoEdges(id: u8)
    ensures Edges([TreeNode(id, [])]) == {} == Edges([])
  {
    assert [TreeNode(id, [])][..0] == [];
  }

  // One whole exchange, from the child's table to its parent's. If the text of
  // the child's first k entries fits the buffer, and the parent knows the rest
  // already (there is none for k = |child.table|), the parent learns the child
  // and every edge the child knows, exactly when the union fits the arrays. So a
  // long table can be learned in pieces.
  lemma LearnsChildTable(m: Mote, child: Mote, k: nat)
    requires TableOk(m) && TableOk(child) && k <= |child.table|
    requires |TreeRoundTrip.FullText(child.table[..k])| <= TREE_SERIAL_BUF as nat
    requires Edges(child.table) <= Edges(m.table) + Edges(child.table[..k])
    requires m.slot == Received(TablePayload(child), TREE_SERIAL_BUF as nat)
    ensures var all := Edges(m.table) + {(m.id, child.id)} + Edges(child.table);
            && Edges(MergeSlot(m).table) <= all
            && (Edges(MergeSlot(m).table) == all <==> Fits(Ids(m.table), all, MAX_TREE_NODES))
  {
    hide TablePayload, Parse, Received, AddEdges, EdgeList, Fits, Edges, Ids;
    MessageEdges(m, child, k);
    assert SentTable(child) == Parse(m.slot, MAX_TREE_NODES);
    var es := MergeList(m.id, SentTable(child));
    assert Edges(m.table) + EdgeSet(es) == Edges(m.table) + {(m.id, child.id)} + Edges(child.table);
    AddEdgesBounds(m.table, MAX_TREE_NODES, es);
    MergeIsUnion(m.table, MAX_TREE_NODES, es);
  }

  // A message cut short teaches an initial part of what the whole would: the
  // sender first, then its entries in order, as far as there is room.
  lemma MergeInOrder(m: Mote, cut: Table, whole: Table)
    requires TableOk(m) && TreeRoundTrip.CutOf(cut, whole) && cut != []
    ensures Grows(AddEdges(m.table, MAX_TREE_NODES, MergeList(m.id, cut)),
                  AddEdges(m.table, MAX_TREE_NODES, MergeList(m.id, whole)))
  {
    hide AddEdges, EdgeList;
    CutListIsPrefix(cut, whole);
    var es, fs := MergeList(m.id, cut), MergeList(m.id, whole);
    assert fs == es + fs[|es|..];
    AddEdgesConcat(m.table, MAX_TREE_NODES, es, fs[|es|..]);
    AddEdgesGrows(m.table, MAX_TREE_NODES, es);
    AddEdgesGrows(AddEdges(m.table, MAX_TREE_NODES, es), MAX_TREE_NODES, fs[|es|..]);
  }

  lemma {:induction false} EdgeListPrefix(t: Table, k: nat)
    requires k <= |t|
    ensures EdgeList(t[..k]) <= EdgeList(t)
    decreases |t|
  {
    if k == |t| {
      assert t[..k] == t;
    } else {
      var front := t[..|t| - 1];
      assert front[..k] == t[..k];
      EdgeListPrefix(front, k);
    }
  }

  lemma CutListIsPrefix(cut: Table, whole: Table)
    requires TreeRoundTrip.CutOf(cut, whole) && cut != []
    ensures EdgeList(cut) <= EdgeList(whole)
  {
    var k := |cut| - 1;
    var e, f := cut[k], whole[k];
    assert cut[..k] == whole[..k] by {
      forall i | 0 <= i < k ensures cut[i] == whole[i] { assert cut[i].id == whole[i].id; }
    }
    assert whole[..k + 1][..k] == whole[..k];
    assert ChildEdges(e.id, e.children) <= ChildEdges(f.id, f.children);
    assert EdgeList(cut) <= EdgeList(whole[..k + 1]);
    EdgeListPrefix(whole, k + 1);
  }

  // What a merge refuses there is no room for; the edge to the sender goes
  // before all others.
  lemma MergeTakesWhatFits(m: Mote, e: Edge)
    requires TableOk(m) && Parse(m.slot, MAX_TREE_NODES) != []
    requires var recv := Parse(m.slot, MAX_TREE_NODES); e == (m.id, recv[0].id) || e in Edges(recv)
    ensures var r := MergeSlot(m).table;
            && (e in Edges(r) || FullFor(r, MAX_TREE_NODES, e.0))
            && (e == (m.id, Parse(m.slot, MAX_TREE_NODES)[0].id) ==>
                  (e in Edges(r) <==> Accepts(m.table, MAX_TREE_NODES, e.0, e.1)))
  {
    hide Parse, AddEdges, EdgeList, Edges, Accepts, FullFor;
    var recv := Parse(m.slot, MAX_TREE_NODES);
    var es := MergeList(m.id, recv);
    EdgeListIsEdges(recv);
    assert es[0] == (m.id, recv[0].id) && es[..0] == [];
    assert e in es;
    var k: nat :| k < |es| && es[k] == e;
    AddedUnlessFull(m.table, MAX_TREE_NODES, es, k);
    AddedUnlessFull(m.table, MAX_TREE_NODES, es, 0);
    NothingAdded(m.table);
  }

  lemma NothingAdded(t: Table)
    ensures AddEdges(t, MAX_TREE_NODES, []) == t
  {}

  // What the router does with a packet, by what its table says.
  lemma FateMeaning(m: Mote, p: Packet)
    requires 0 !in Kids(m.table, m.id)
    ensures FateOf(m, p) == Delivered <==> p.dst == m.id
    ensures p.dst != m.id && Reaches(m.table, m.id, p.dst) ==>
              FateOf(m, p).Forwarded? && IsFirstReaching(m.table, Kids(m.table, m.id), p.dst, FateOf(m, p).to)
    ensures p.dst != m.id && !Reaches(m.table, m.id, p.dst) ==>
              FateOf(m, p) == if m.parent != NULL_ID then Forwarded(m.parent) else Dropped
  {
    hide Reaches, IsFirstReaching, Forwarder;
    ForwarderMeaning(m.table, m.id, p.dst);
  }
}
