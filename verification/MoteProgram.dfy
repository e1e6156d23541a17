/**
 The mote's program: static fields, fixed pools and lists, and one method per
 callback or process step. Each method is tied to its step in MoteModel.
 */
module MoteProgram {
  import opened CInts
  import opened Text
  import opened TreeTable
  import opened TreeText
  import opened Subtree
  import opened PacketText
  import opened SinkStats
  import opened MoteModel

  // A pool of POOL_SIZE slots and the list threaded through it, head first:
  // the slots taken from the pool are exactly the members of the list.
  ghost predicate PoolOk(used: set<int>, list: seq<int>) {
    && Distinct(list)
    && (forall i :: 0 <= i < |list| ==> 0 <= list[i] < POOL_SIZE)
    && AsSet(list) == used
  }

  lemma PoolCount(used: set<int>, list: seq<int>)
    requires PoolOk(used, list)
    ensures |list| <= POOL_SIZE
    ensures |list| == POOL_SIZE <==> forall k :: 0 <= k < POOL_SIZE ==> k in used
  {
    PoolSize(used, list);
    hide PoolOk;
    if |used| == POOL_SIZE { FullSet(used, POOL_SIZE); }
    if forall k :: 0 <= k < POOL_SIZE ==> k in used {
      SubsetSize(Below(POOL_SIZE), used);
    }
  }

  lemma FullSet(s: set<int>, n: nat)
    requires s <= Below(n) && |s| == n
    ensures forall k :: 0 <= k < n ==> k in s
  {
    forall k | 0 <= k < n ensures k in s {
      if k !in s { SubsetSize(s + {k}, Below(n)); }
    }
  }

  lemma PoolSize(used: set<int>, list: seq<int>)
    requires PoolOk(used, list)
    ensures |used| == |list| <= POOL_SIZE && used <= Below(POOL_SIZE)
  {
    hide Distinct, Below;
    AsSetSize(list);
    SubsetSize(used, Below(POOL_SIZE));
  }

  lemma EmptyPoolOk()
    ensures PoolOk({}, [])
  {}

  lemma PoolPush(used: set<int>, list: seq<int>, k: int)
    requires PoolOk(used, list) && 0 <= k < POOL_SIZE && k !in used
    ensures PoolOk(used + {k}, [k] + list)
  {
    assert AsSet([k] + list) == {k} + AsSet(list);
    assert forall i :: 0 <= i < |list| ==> list[i] in AsSet(list);
  }

  lemma PoolRemove(used: set<int>, list: seq<int>, i: nat)
    requires PoolOk(used, list) && i < |list|
    ensures PoolOk(used - {list[i]}, RemoveAt(list, i))
  {
    var r := RemoveAt(list, i);
    forall k ensures k in AsSet(r) <==> k in used && k != list[i] {
      if k in used && k != list[i] {
        var j :| 0 <= j < |list| && list[j] == k;
        assert r[if j < i then j else j - 1] == k;
      }
    }
  }

  // The list as the values in its slots.
  ghost function View<T>(slots: seq<T>, list: seq<int>): (r: seq<T>)
    requires forall i :: 0 <= i < |list| ==> 0 <= list[i] < |slots|
    ensures |r| == |list| && forall i :: 0 <= i < |r| ==> r[i] == slots[list[i]]
  {
    seq(|list|, i requires 0 <= i < |list| => slots[list[i]])
  }

  lemma ViewSet<T>(used: set<int>, slots: seq<T>, list: seq<int>, i: nat, x: T)
    requires PoolOk(used, list) && |slots| == POOL_SIZE && i < |list|
    ensures View(slots[list[i] := x], list) == View(slots, list)[i := x]
  {}

  lemma ViewPush<T>(used: set<int>, slots: seq<T>, list: seq<int>, k: int, x: T)
    requires PoolOk(used, list) && |slots| == POOL_SIZE && 0 <= k < POOL_SIZE && k !in used
    ensures PoolOk(used + {k}, [k] + list)
    ensures View(slots[k := x], [k] + list) == [x] + View(slots, list)
  {
    PoolPush(used, list, k);
    assert forall i :: 0 <= i < |list| ==> list[i] in AsSet(list);
    hide Distinct;
    assert View(slots[k := x], [k] + list) == [x] + View(slots, list);
  }

  lemma ViewRemove<T>(used: set<int>, slots: seq<T>, list: seq<int>, i: nat)
    requires PoolOk(used, list) && |slots| == POOL_SIZE && i < |list|
    ensures PoolOk(used - {list[i]}, RemoveAt(list, i))
    ensures View(slots, RemoveAt(list, i)) == RemoveAt(View(slots, list), i)
  {
    PoolRemove(used, list, i);
  }

  // memb_alloc: the first free slot, or POOL_SIZE for NULL.
  method Alloc(used: set<int>, ghost list: seq<int>) returns (k: int)
    requires PoolOk(used, list)
    ensures 0 <= k <= POOL_SIZE && k !in used
    ensures k == POOL_SIZE <==> |list| == POOL_SIZE
  {
    PoolCount(used, list);
    k := 0;
    while k < POOL_SIZE && k in used
      invariant 0 <= k <= POOL_SIZE && forall i :: 0 <= i < k ==> i in used
    {
      k := k + 1;
    }
  }

  // The list walk of list_remove.
  method PositionOf(ghost used: set<int>, list: seq<int>, p: int) returns (i: nat)
    requires PoolOk(used, list) && p in used
    ensures i < |list| && list[i] == p
  {
    InUse(used, list, 0);
    i := 0;
    while list[i] != p
      invariant i < |list| && p in list[i..]
      decreases |list| - i
    {
      i := i + 1;
    }
  }

  class Node {
    const id: u8
    var bestParent: u8
    var myPathRssi: i16
    const candSlots: array<Candidate>
    var candUsed: set<int>
    var candList: seq<int>
    var keepalive: set<int>          // slots whose timer is running
    const tree: array<TreeNode>
    var treeN: u8
    const recvTree: array<TreeNode>
    const pktSlots: array<Packet>
    var pktUsed: set<int>
    var pktList: seq<int>
    const statTable: array<Stat>
    var statCount: u8
    const ctrl: array<char>          // ctrl_payload
    const serialBuf: array<char>
    const sendBuf: array<char>       // send_buf behind its type byte
    var seqNum: u16

    ghost predicate Valid()
      reads this, ctrl, candSlots
    {
      && candSlots.Length == POOL_SIZE && PoolOk(candUsed, candList) && keepalive == candUsed
      && DistinctIds(View(candSlots[..], candList))
      && pktSlots.Length == POOL_SIZE && PoolOk(pktUsed, pktList)
      && tree.Length == MAX_TREE_NODES && treeN as nat <= MAX_TREE_NODES
      && recvTree.Length == MAX_TREE_NODES && recvTree != tree
      && statTable.Length == MAX_PKT_SOURCES && statCount as nat <= MAX_PKT_SOURCES
      && ctrl.Length == TREE_SERIAL_BUF as nat && NUL in ctrl[..]
      && serialBuf.Length == TREE_SERIAL_BUF as nat && serialBuf != ctrl
      && sendBuf.Length == SEND_SIZE && sendBuf != ctrl
    }

    ghost function Cands(): seq<Candidate>
      requires Valid()
      reads this, ctrl, candSlots
    {
      View(candSlots[..], candList)
    }

    ghost function Packets(): seq<Packet>
      requires Valid()
      reads this, ctrl, candSlots, pktSlots
    {
      View(pktSlots[..], pktList)
    }

    ghost function State(): Mote
      requires Valid()
      reads this, ctrl, candSlots, pktSlots, tree, statTable
    {
      Mote(id, bestParent, myPathRssi, Cands(), tree[..treeN], Packets(), statTable[..statCount],
           CStr(ctrl[..]), seqNum)
    }

    // Static initialisation, then boot.
    constructor (id: u8)
      ensures Valid() && State() == Init(id)
      ensures fresh(candSlots) && fresh(tree) && fresh(recvTree) && fresh(pktSlots) && fresh(statTable)
      ensures fresh(ctrl) && fresh(serialBuf) && fresh(sendBuf)
    {
      hide CStr, StrLen, PoolOk, View;
      EmptyPoolOk();
      assert DistinctIds([]);
      this.id := id;
      bestParent, myPathRssi, seqNum := NULL_ID, NO_PATH, 0;
      candSlots := new Candidate[POOL_SIZE];
      pktSlots := new Packet[POOL_SIZE];
      candUsed, candList, keepalive, pktUsed, pktList := {}, [], {}, {}, [];
      tree := new TreeNode[MAX_TREE_NODES];
      recvTree := new TreeNode[MAX_TREE_NODES];
      statTable := new Stat[MAX_PKT_SOURCES];
      ctrl := new char[TREE_SERIAL_BUF](_ => NUL);
      serialBuf := new char[TREE_SERIAL_BUF];
      sendBuf := new char[SEND_SIZE];
      treeN, statCount := 0, 0;
      new;
      EmptyString(ctrl[..]);
      assert Cands() == [] && Packets() == [] && tree[..0] == [] && statTable[..0] == [];
      Start();
    }

    // The one run of the select_prefered_parent process.
    method Start()
      requires Valid() && State() == Mote(id, NULL_ID, NO_PATH, [], [], [], [], "", 0)
      modifies this`myPathRssi, this`treeN, tree
      ensures Valid() && State() == Init(id)
    {
      hide CStr, StrLen, PoolOk, View;
      if id == ROOT {
        myPathRssi := 0;
        tree[0] := TreeNode(ROOT, []);
        treeN := 1;
        assert tree[..1] == [TreeNode(ROOT, [])];
      }
    }

    // ---------- Neighbours ----------

    // One round of the broadcast_rssi loop: the beacon it fills in.
    method SendBeacon() returns (from: u8, adv: i16)
      requires Valid()
      ensures from == id && adv == Advertised(State())
    {
      if id == ROOT { return id, 0; }
      return id, myPathRssi;
    }

    method HearBeacon(from: u8, adv: i16, rssi: i8)
      requires Valid()
      modifies this`bestParent, this`myPathRssi, this`candUsed, this`candList, this`keepalive, candSlots
      ensures Valid() && State() == MoteModel.HearBeacon(old(State()), from, adv, rssi)
    {
      hide PoolOk, CStr, View, MoteModel.HearBeacon, Select, Hear, FindCandidate;
      ghost var m := State();
      HearBeaconParts(m, from, adv, rssi);
      var stored := StoreBeacon(from, adv, rssi);
      if stored && id != ROOT { SelectParent(); }
    }

    // Find or allocate the sender's entry, fill it in, restart its timer.
    method StoreBeacon(from: u8, adv: i16, rssi: i8) returns (stored: bool)
      requires Valid()
      modifies this`candUsed, this`candList, this`keepalive, candSlots
      ensures Valid()
      ensures stored <==> FindCandidate(old(Cands()), from) < |old(Cands())| || |old(Cands())| < POOL_SIZE
      ensures State() ==
              if stored then old(State()).(cands := Hear(old(Cands()), Candidate(from, I16(adv + rssi), rssi)))
              else old(State())
    {
      hide Distinct, AsSet, FindCandidate, CStr, DistinctIds;
      HearDistinct(Cands(), Candidate(from, I16(adv + rssi), rssi));
      var c := Candidate(from, I16(adv + rssi), rssi);
      var i := FindNeighbour(from);
      ghost var slots := candSlots[..];
      if i < |candList| {
        ViewSet(candUsed, slots, candList, i, c);
        var p := candList[i];
        InUse(candUsed, candList, i);
        candSlots[p] := c;
        keepalive := keepalive + {p};
      } else {
        var k := Alloc(candUsed, candList);
        PoolCount(candUsed, candList);
        if k == POOL_SIZE { return false; }
        ViewPush(candUsed, slots, candList, k, c);
        candUsed, candList := candUsed + {k}, [k] + candList;
        candSlots[k] := c;
        keepalive := keepalive + {k};
      }
      stored := true;
    }

    method FindNeighbour(from: u8) returns (i: nat)
      requires Valid()
      ensures i == FindCandidate(Cands(), from)
    {
      hide Distinct, AsSet, FindCandidate, CStr;
      i := 0;
      while i < |candList| && candSlots[candList[i]].id != from
        invariant 0 <= i <= |candList| && forall k :: 0 <= k < i ==> Cands()[k].id != from
      {
        i := i + 1;
      }
    }

    // The scan for the best candidate.
    method SelectParent()
      requires Valid() && id != ROOT
      modifies this`bestParent, this`myPathRssi
      ensures Valid() && State() == Select(old(State()))
    {
      hide Distinct, AsSet, CStr, Winner;
      ghost var cs := Cands();
      var winner: nat, bestPath, q := |candList|, NO_PATH, 0;
      while q < |candList|
        invariant 0 <= q <= |candList|
        invariant BestSoFar(cs, q, winner, bestPath)
        invariant State() == old(State())
      {
        var c := candSlots[candList[q]];
        BestSoFarNext(cs, q, winner, bestPath);
        if c.path > bestPath && c.path < 0 {
          bestPath, winner := c.path, q;
        }
        q := q + 1;
      }
      BestSoFarIsWinner(cs, winner, bestPath);
      if winner < |candList| {
        assert candSlots[candList[winner]] == cs[winner];
        bestParent, myPathRssi := candSlots[candList[winner]].id, bestPath;
      }
    }

    // The timer of slot p fires.
    method KeepaliveExpired(p: int)
      requires Valid() && p in keepalive && 0 <= p < POOL_SIZE
      modifies this`bestParent, this`myPathRssi, this`candUsed, this`candList, this`keepalive
      ensures Valid() && State() == MoteModel.KeepaliveExpired(old(State()), candSlots[p].id)
      ensures p !in keepalive
    {
      hide Distinct, AsSet, CStr, FindCandidate, DistinctIds;
      ghost var cs := Cands();
      var expired := candSlots[p].id;
      if bestParent == expired {
        bestParent, myPathRssi := NULL_ID, NO_PATH;
      }
      var i := PositionOf(candUsed, candList, p);
      IdsAt(cs, i);
      ViewRemove(candUsed, candSlots[..], candList, i);
      candList := RemoveAt(candList, i);
      candUsed, keepalive := candUsed - {p}, keepalive - {p};
    }

    // ---------- Routing tables ----------

    // The body of the send_routing_table loop; `sent` tells whether a control
    // unicast to the parent goes out.
    method SendTable() returns (sent: bool, to: u8, payload: seq<char>)
      requires Valid()
      modifies serialBuf
      ensures Valid() && State() == old(State())
      ensures sent <==> bestParent != NULL_ID
      ensures sent ==> to == bestParent && payload == TablePayload(State())
    {
      sent, to, payload := false, bestParent, [];
      if bestParent == NULL_ID { return; }
      var slen: u8 := 0;
      ghost var text := "";
      if treeN == 0 {
        DecLength(id);
        LeafText(id);
        text := Dec(id) + ":;";
        var n := Snprintf(serialBuf, 0, TREE_SERIAL_BUF as nat, Dec(id) + ":;");
        slen := n as u8;
        assert serialBuf[..slen] == text;
      } else {
        slen := Serialize(tree, treeN, serialBuf, TREE_SERIAL_BUF);
        BodyNotEmpty(tree[..treeN]);
      }
      if slen == 0 { return; }
      sent := true;
      payload := serialBuf[..slen + 1];
      if treeN > 0 { BodyPlusOne(serialBuf, tree[..treeN], slen); }
    }

    method ReceiveTable(payload: seq<char>)
      requires Valid()
      modifies ctrl
      ensures Valid() && State() == MoteModel.ReceiveTable(old(State()), payload)
    {
      hide PoolOk, Received, CStr, StrLen, View;
      var buf := CopyIn(payload, TREE_SERIAL_BUF as nat);
      ghost var s := Received(payload, TREE_SERIAL_BUF as nat);
      ReceivedLength(payload, TREE_SERIAL_BUF as nat);
      var len := if |payload| >= ctrl.Length then ctrl.Length - 1 else |payload|;
      var i := 0;
      while i < len + 1
        invariant 0 <= i <= len + 1
        invariant Holds(buf, s)
        invariant forall k :: 0 <= k < i ==> ctrl[k] == buf[k]
      {
        ctrl[i] := buf[i];
        i := i + 1;
      }
      assert Holds(ctrl, s);
      HoldsCStr(ctrl, s);
      assert ctrl[..][|s|] == NUL;
    }

    method MergeSlot()
      requires Valid()
      modifies tree, recvTree, this`treeN
      ensures Valid() && State() == MoteModel.MergeSlot(old(State()))
    {
      hide Parse, CStr, AddEdges, EdgeList, PoolOk;
      var recvN := Deserialize(ctrl, recvTree, MAX_TREE_NODES as u8);
      if recvN == 0 { return; }
      treeN := MergeTable(tree, treeN, id, recvTree, recvN);
    }

    // ---------- Data packets ----------

    // memb_alloc, fill in, list_push.
    method Enqueue(p: Packet) returns (queued: bool)
      requires Valid()
      modifies this`pktUsed, this`pktList, pktSlots
      ensures Valid() && State() == MoteModel.Enqueue(old(State()), p)
      ensures queued <==> |old(pktList)| < POOL_SIZE
    {
      hide Distinct, AsSet, CStr;
      var k := Alloc(pktUsed, pktList);
      PoolCount(pktUsed, pktList);
      queued := k < POOL_SIZE;
      if queued {
        ViewPush(pktUsed, pktSlots[..], pktList, k, p);
        pktSlots[k] := p;
        pktUsed, pktList := pktUsed + {k}, [k] + pktList;
      }
    }

    method Generate()
      requires Valid()
      modifies this`seqNum, this`pktUsed, this`pktList, pktSlots
      ensures Valid() && State() == MoteModel.Generate(old(State()))
    {
      if id != ORIGEN { return; }
      seqNum := U16(seqNum + 1);
      var queued := Enqueue(Packet(DESTINO, SeqText(seqNum, id), [id]));
    }

    method ReceiveData(from: u8, payload: seq<char>, trail: seq<u8>)
      requires Valid()
      modifies this`statCount, statTable, this`pktUsed, this`pktList, pktSlots
      ensures Valid() && State() == MoteModel.ReceiveData(old(State()), from, payload, trail)
    {
      hide Received, Unwrap, SinkFields, SinkStats.Record;
      ghost var s := Received(payload, MSG_SIZE);
      var msg := CopyIn(payload, MSG_SIZE);
      if id == ROOT {
        var src, q := ReadSinkFields(msg, s);
        statCount := RecordArrival(statTable, statCount, src, q);
      }
      var dst, body := ReadHeader(msg, from, s);
      var queued := Enqueue(Packet(dst, body, trail + [id]));
    }

    // The search for this packet returns, or is not needed.
    ghost predicate Routable(p: Packet)
      requires Valid()
      reads this, ctrl, candSlots, tree
    {
      p.dst != id ==> Halts(tree[..treeN], id, p.dst)
    }

    // The ev_route_pkt handler. It returns what was done, packet by packet,
    // and what was sent.
    method RouteAll() returns (fates: seq<Fate>, payloads: seq<seq<char>>)
      requires Valid() && forall p :: p in Packets() ==> Routable(p)
      modifies this`pktUsed, this`pktList, sendBuf
      ensures Valid() && State() == MoteModel.RouteAll(old(State()))
      ensures fates == Fates(old(State())) && |payloads| == |fates|
      ensures forall i :: 0 <= i < |fates| && fates[i].Forwarded? ==>
                payloads[i] == DataPayload(old(Packets())[i].dst, old(Packets())[i].msg)
      ensures pktUsed == {}
    {
      hide PoolOk, View, CStr, FateOf, Halts, DataPayload;
      ghost var m, all, t := State(), Packets(), tree[..treeN];
      fates, payloads := [], [];
      while pktList != []
        invariant |fates| + |pktList| == |all| && |payloads| == |fates|
        invariant Valid() && Packets() == all[|fates|..]
        invariant State() == m.(packets := Packets())
        invariant forall p :: p in all ==> Routable(p)
        invariant forall i :: 0 <= i < |fates| ==> fates[i] == FateOf(m, all[i])
        invariant forall i :: 0 <= i < |fates| && fates[i].Forwarded? ==>
                    payloads[i] == DataPayload(all[i].dst, all[i].msg)
        decreases |pktList|
      {
        assert all[|fates|] == Packets()[0];
        var pe := PopPacket();
        assert tree[..treeN] == t;
        var fate, payload := Route(pe);
        FateIgnoresQueue(State(), m, pe);
        fates, payloads := fates + [fate], payloads + [payload];
      }
      EmptyPool(pktUsed);
    }

    // list_head, list_remove and the eventual memb_free.
    method PopPacket() returns (pe: Packet)
      requires Valid() && pktList != []
      modifies this`pktUsed, this`pktList
      ensures Valid() && |pktList| == |old(pktList)| - 1
      ensures old(Packets()) == [pe] + Packets() && State() == old(State()).(packets := Packets())
    {
      hide Distinct, AsSet, CStr;
      pe := pktSlots[pktList[0]];
      ViewRemove(pktUsed, pktSlots[..], pktList, 0);
      assert RemoveAt(pktList, 0) == pktList[1..];
      pktList, pktUsed := pktList[1..], pktUsed - {pktList[0]};
    }

    // One packet taken off the list: where it goes, and the characters sent
    // behind the type byte, the text and its terminating NUL.
    method Route(pe: Packet) returns (fate: Fate, payload: seq<char>)
      requires Valid() && Routable(pe)
      modifies sendBuf
      ensures Valid() && State() == old(State())
      ensures fate == FateOf(State(), pe)
      ensures fate.Forwarded? ==> payload == DataPayload(pe.dst, pe.msg)
    {
      hide PoolOk, CStr, Forwarder, Halts, View;
      payload := [];
      if pe.dst == id { return Delivered, payload; }
      var forwarder := SearchForwarder(tree, treeN, id, pe.dst);
      if forwarder == 0 && bestParent == NULL_ID { return Dropped, payload; }
      fate := Forwarded(if forwarder != 0 then forwarder else bestParent);
      DecLength(pe.dst);
      var n := Snprintf(sendBuf, 0, SEND_SIZE, DST_TAG + Dec(pe.dst) + ":" + pe.msg);
      var plen := U8(n);
      assert sendBuf[..plen as nat + 1] == sendBuf[..plen] + [sendBuf[plen]];
      payload := sendBuf[..plen as nat + 1];
    }
  }

  // ---------- Steps of the loops ----------

  lemma ReceivedLength(payload: seq<char>, size: nat)
    requires size > 0
    ensures |Received(payload, size)| <= |payload|
  {}

  lemma EmptyString(b: seq<char>)
    requires b != [] && b[0] == NUL
    ensures NUL in b && CStr(b) == ""
  {
    assert b[..0] == "";
    CStrIs(b, 0);
  }

  lemma InUse(used: set<int>, list: seq<int>, i: nat)
    requires PoolOk(used, list)
    ensures i < |list| ==> list[i] in used
    ensures forall p :: p in used ==> p in list && 0 <= p < POOL_SIZE
    ensures used != {} ==> |list| > 0
  {
    forall p | p in used ensures p in list && 0 <= p < POOL_SIZE { assert p in AsSet(list); }
  }

  lemma FateIgnoresQueue(m: Mote, m': Mote, p: Packet)
    requires m == m'.(packets := m.packets)
    ensures FateOf(m, p) == FateOf(m', p)
  {}

  lemma EmptyPool(used: set<int>)
    requires PoolOk(used, [])
    ensures used == {}
  {}

  lemma HearBeaconParts(m: Mote, from: u8, adv: i16, rssi: i8)
    ensures var r := MoteModel.HearBeacon(m, from, adv, rssi);
            var stored := FindCandidate(m.cands, from) < |m.cands| || |m.cands| < POOL_SIZE;
            var m' := m.(cands := Hear(m.cands, Candidate(from, I16(adv + rssi), rssi)));
            r == if !stored then m else if m.id == ROOT then m' else Select(m')
  {}

  lemma FindCandidateIs(cs: seq<Candidate>, id: u8, k: nat)
    requires k <= |cs| && (forall i :: 0 <= i < k ==> cs[i].id != id)
    requires k < |cs| ==> cs[k].id == id
    ensures FindCandidate(cs, id) == k
  {}

  // What the scan knows of the first q candidates; |cs| stands for none.
  ghost predicate BestSoFar(cs: seq<Candidate>, q: nat, w: nat, bestPath: i16) {
    if w < q && q <= |cs| then
      && Eligible(cs[w]) && bestPath == cs[w].path
      && (forall i :: 0 <= i < q && Eligible(cs[i]) ==> cs[i].path <= bestPath)
      && (forall i :: 0 <= i < w && Eligible(cs[i]) ==> cs[i].path < bestPath)
    else w == |cs| && bestPath == NO_PATH && q <= |cs| && forall i :: 0 <= i < q ==> !Eligible(cs[i])
  }

  lemma BestSoFarNext(cs: seq<Candidate>, q: nat, w: nat, bestPath: i16)
    requires q < |cs| && BestSoFar(cs, q, w, bestPath)
    ensures if cs[q].path > bestPath && cs[q].path < 0 then BestSoFar(cs, q + 1, q, cs[q].path)
            else BestSoFar(cs, q + 1, w, bestPath)
  {}

  lemma BestSoFarIsWinner(cs: seq<Candidate>, w: nat, bestPath: i16)
    requires BestSoFar(cs, |cs|, w, bestPath)
    ensures Winner(cs) == w && (w < |cs| ==> bestPath == cs[w].path)
  {
    hide Winner;
  }

  ghost predicate DistinctIds(cs: seq<Candidate>) {
    forall i, j :: 0 <= i < j < |cs| ==> cs[i].id != cs[j].id
  }

  lemma IdsAt(cs: seq<Candidate>, k: nat)
    requires k < |cs| && DistinctIds(cs)
    ensures FindCandidate(cs, cs[k].id) == k
    ensures DistinctIds(RemoveAt(cs, k))
  {
    FindCandidateIs(cs, cs[k].id, k);
  }

  lemma HearDistinct(cs: seq<Candidate>, c: Candidate)
    requires DistinctIds(cs)
    ensures DistinctIds(Hear(cs, c))
  {}

  lemma AddEdgesNext(t: Table, before: seq<Edge>, es: seq<Edge>, j: nat)
    requires j < |es|
    ensures AddEdges(t, MAX_TREE_NODES, before + es[..j + 1]) ==
            AddEdge(AddEdges(t, MAX_TREE_NODES, before + es[..j]), MAX_TREE_NODES, es[j].0, es[j].1)
  {
    var fs := before + es[..j + 1];
    assert fs[..|fs| - 1] == before + es[..j] && fs[|fs| - 1] == es[j];
  }

  lemma EdgeListNext(recv: Table, i: nat, head: seq<Edge>)
    requires i < |recv|
    ensures var cs := recv[i].children;
            (head + EdgeList(recv[..i])) + ChildEdges(recv[i].id, cs) == head + EdgeList(recv[..i + 1])
  {
    var t := recv[..i + 1];
    assert t[..|t| - 1] == recv[..i] && t[|t| - 1] == recv[i];
  }

  // The two merge loops of update_routing_table.
  method MergeTable(tree: array<TreeNode>, n: u8, me: u8, recvTree: array<TreeNode>, recvN: u8) returns (n': u8)
    requires tree.Length == MAX_TREE_NODES == recvTree.Length && tree != recvTree
    requires n as nat <= MAX_TREE_NODES && 0 < recvN && recvN as nat <= MAX_TREE_NODES
    modifies tree
    ensures n' as nat <= MAX_TREE_NODES
    ensures tree[..n'] == AddEdges(old(tree[..n]), MAX_TREE_NODES, MergeList(me, recvTree[..recvN]))
  {
    hide AddEdges, AddEdge, EdgeList;
    ghost var t: Table := tree[..n];
    ghost var recv: Table := recvTree[..recvN];
    ghost var head := [(me, recv[0].id)];
    FirstMerge(t, me, recv[0].id);
    n' := AddChild(tree, n, MAX_TREE_NODES as u8, me, recvTree[0].id);
    EdgeListStart(recv, head);
    var i: u8 := 0;
    while i < recvN
      invariant i <= recvN && n' as nat <= MAX_TREE_NODES
      invariant tree[..n'] == AddEdges(t, MAX_TREE_NODES, head + EdgeList(recv[..i]))
    {
      ghost var before := head + EdgeList(recv[..i]);
      n' := MergeEntry(tree, n', recvTree[i], t, before);
      EdgeListNext(recv, i as nat, head);
      i := i + 1;
    }
    assert recv[..i] == recv;
  }

  method MergeEntry(tree: array<TreeNode>, n: u8, e: TreeNode, ghost t: Table, ghost before: seq<Edge>) returns (n': u8)
    requires tree.Length == MAX_TREE_NODES && n as nat <= MAX_TREE_NODES
    requires tree[..n] == AddEdges(t, MAX_TREE_NODES, before)
    modifies tree
    ensures n' as nat <= MAX_TREE_NODES
    ensures tree[..n'] == AddEdges(t, MAX_TREE_NODES, before + ChildEdges(e.id, e.children))
  {
    hide AddEdges, AddEdge;
    n' := n;
    ghost var es := ChildEdges(e.id, e.children);
    assert before + es[..0] == before;
    var j := 0;
    while j < |e.children|
      invariant 0 <= j <= |e.children| && n' as nat <= MAX_TREE_NODES
      invariant tree[..n'] == AddEdges(t, MAX_TREE_NODES, before + es[..j])
    {
      AddEdgesNext(t, before, es, j);
      n' := AddChild(tree, n', MAX_TREE_NODES as u8, e.id, e.children[j]);
      j := j + 1;
    }
    assert es[..j] == es;
  }

  lemma FirstMerge(t: Table, me: u8, sender: u8)
    ensures AddEdges(t, MAX_TREE_NODES, [(me, sender)]) == AddEdge(t, MAX_TREE_NODES, me, sender)
  {
    assert [(me, sender)][..0] == [];
  }

  lemma EdgeListStart(recv: Table, head: seq<Edge>)
    ensures head + EdgeList(recv[..0]) == head
  {}

  lemma LeafText(id: u8)
    ensures |Dec(id)| <= 3 && NUL !in Dec(id)
  {
    DecLength(id);
    DecDigits(id);
  }

  lemma BodyNotEmpty(t: Table)
    requires t != []
    ensures |Body(t, 127)| >= 2
  {}

  // One character past the returned length.
  lemma BodyPlusOne(buf: array<char>, t: Table, slen: u8)
    requires buf.Length == 128 && slen as nat == |Body(t, 127)|
    requires CStr(buf[..]) == Body(t, 127) + Remnant(t, 127)
    ensures buf[..slen + 1] == Body(t, 127) + (if Remnant(t, 127) == "" then [NUL] else Remnant(t, 127)[..1])
  {
    hide Body, Remnant;
    var s := Body(t, 127) + Remnant(t, 127);
    assert buf[..][..|s|] == s;
    assert |s| < 128 && buf[..][|s|] == NUL;
    assert buf[..slen] == s[..slen] && buf[slen] == (if Remnant(t, 127) == "" then NUL else Remnant(t, 127)[0]);
    assert buf[..slen + 1] == buf[..slen] + [buf[slen]];
  }
}
