/**
 Neighbour bookkeeping of the Rime example: sequence-number gaps over wrapping
 bytes, and their fixed-point moving average.
 */
module SeqnoGap {
  import opened CInts

  const MAX_NEIGHBORS: nat := 16
  const UNITY: u32 := 0x100     // SEQNO_EWMA_UNITY
  const ALPHA: u32 := 0x040     // SEQNO_EWMA_ALPHA

  datatype Neighbor = Neighbor(addr: u16, lastRssi: u16, lastLqi: u16, lastSeqno: u8, avgGap: u32)

  // A broadcast, with the signal strength and link quality it was heard with.
  datatype Broadcast = Broadcast(from: u16, seqno: u8, rssi: u16, lqi: u16)

  function U32(x: int): u32 { x % 0x1_0000_0000 }

  function Gap(last: u8, seqno: u8): u8 { U8(seqno - last) }

  // In the 32-bit arithmetic of the source.
  function Average(avg: u32, gap: u8): u32 {
    U32(U32(U32(gap * UNITY as int) * ALPHA) / UNITY + U32(avg * (UNITY - ALPHA)) / UNITY)
  }

  // A new entry. What the pool left in its other fields is overwritten at once.
  function Fresh(b: Broadcast): Neighbor { Neighbor(b.from, b.rssi, b.lqi, U8(b.seqno - 1), UNITY) }

  function Hear(n: Neighbor, b: Broadcast): Neighbor {
    Neighbor(n.addr, b.rssi, b.lqi, b.seqno, Average(n.avgGap, Gap(n.lastSeqno, b.seqno)))
  }

  function FindNeighbor(ns: seq<Neighbor>, addr: u16): (k: nat)
    ensures k <= |ns| && (forall i :: 0 <= i < k ==> ns[i].addr != addr)
    ensures k < |ns| ==> ns[k].addr == addr
  {
    FirstWhere(ns, (n: Neighbor) => n.addr == addr)
  }

  function Receive(ns: seq<Neighbor>, b: Broadcast): seq<Neighbor> {
    var k := FindNeighbor(ns, b.from);
    if k < |ns| then ns[k := Hear(ns[k], b)]
    else if |ns| < MAX_NEIGHBORS then ns + [Hear(Fresh(b), b)]
    else ns
  }

  class Neighbors {
    var list: seq<Neighbor>   // neighbors_list, over a pool of MAX_NEIGHBORS

    constructor ()
      ensures list == []
    {
      list := [];
    }

    method BroadcastRecv(b: Broadcast)
      modifies this
      ensures list == Receive(old(list), b)
    {
      var n := 0;
      while n < |list| && list[n].addr != b.from
        invariant 0 <= n <= |list| && forall i :: 0 <= i < n ==> list[i].addr != b.from
      {
        n := n + 1;
      }
      FindIs(list, b.from, n);
      if n == |list| {
        if |list| >= MAX_NEIGHBORS { return; }
        var rssi: u16, lqi: u16 := *, *;   // whatever the pool left there
        list := list + [Neighbor(b.from, rssi, lqi, U8(b.seqno - 1), UNITY)];
      }
      list := list[n := list[n].(lastRssi := b.rssi, lastLqi := b.lqi)];
      var gap := U8(b.seqno - list[n].lastSeqno);
      list := list[n := list[n].(avgGap := Average(list[n].avgGap, gap))];
      list := list[n := list[n].(lastSeqno := b.seqno)];
    }
  }

  lemma FindIs(ns: seq<Neighbor>, addr: u16, k: nat)
    requires k <= |ns| && (forall i :: 0 <= i < k ==> ns[i].addr != addr)
    requires k < |ns| ==> ns[k].addr == addr
    ensures FindNeighbor(ns, addr) == k
  {}

  // A broadcast changes only its sender's entry: all others stay in place, a new
  // one goes to the end, and a stranger is ignored when the pool is full.
  lemma ReceiveKeepsOthers(ns: seq<Neighbor>, b: Broadcast)
    ensures var r := Receive(ns, b);
            && (forall i :: 0 <= i < |ns| && i < |r| && ns[i].addr != b.from ==> r[i] == ns[i])
            && (if (exists i :: 0 <= i < |ns| && ns[i].addr == b.from) || |ns| >= MAX_NEIGHBORS then |r| == |ns|
                else |r| == |ns| + 1 && r[|ns|].addr == b.from)
            && ((forall i :: 0 <= i < |ns| ==> ns[i].addr != b.from) && |ns| >= MAX_NEIGHBORS ==> r == ns)
  {
    hide Average, Gap;
    var k := FindNeighbor(ns, b.from);
  }

  // ---------- The average ----------

  // Without wrapping: a quarter of the gap's fixed-point value plus three
  // quarters of the average, rounded down.
  lemma AverageExact(avg: u32, gap: u8)
    requires avg <= 255 * 256
    ensures Average(avg, gap) == 64 * gap as int + 3 * avg / 4
    ensures Average(avg, gap) <= 255 * 256
  {
    assert U32(U32(gap * UNITY as int) * ALPHA) == gap as int * 256 * 64;
    assert U32(avg * (UNITY - ALPHA)) == avg * 192;
    assert avg * 192 / 256 == 3 * avg / 4;
  }

  // Where a constant gap takes the average: from below it stops three short.
  function Limit(avg: u32, gap: u8): int {
    var target := 256 * gap as int;
    if avg < target - 3 then target - 3 else if avg <= target then avg else target
  }

  function Iterate(avg: u32, gap: u8, k: nat): u32
    decreases k
  {
    if k == 0 then avg else Iterate(Average(avg, gap), gap, k - 1)
  }

  // Each step moves towards 256 * gap without crossing it, and stands still
  // exactly on [256 * gap - 3, 256 * gap].
  lemma StepTowards(avg: u32, gap: u8)
    requires avg <= 255 * 256
    ensures var next, target := Average(avg, gap), 256 * gap as int;
            && (avg <= target ==> avg <= next <= target)
            && (avg >= target ==> target <= next <= avg)
            && (next == avg <==> target - 3 <= avg <= target)
            && Limit(next, gap) == Limit(avg, gap)
  {
    AverageExact(avg, gap);
  }

  function Distance(avg: u32, gap: u8): nat {
    var d := avg as int - Limit(avg, gap);
    if d < 0 then -d else d
  }

  // A constant gap settles the average for good, on Limit, within as many
  // packets as it was away from it.
  lemma {:induction false} ConstantGapSettles(avg: u32, gap: u8, k: nat)
    requires avg <= 255 * 256 && k >= Distance(avg, gap)
    ensures Iterate(avg, gap, k) as int == Limit(avg, gap)
    ensures 256 * gap as int - 3 <= Limit(avg, gap) <= 256 * gap as int
    decreases k
  {
    if k > 0 {
      StepTowards(avg, gap);
      AverageExact(avg, gap);
      ConstantGapSettles(Average(avg, gap), gap, k - 1);
    }
  }

  // ---------- Runs ----------

  function Table(bs: seq<Broadcast>): seq<Neighbor> {
    if bs == [] then [] else Receive(Table(bs[..|bs| - 1]), bs[|bs| - 1])
  }

  function SentBy(bs: seq<Broadcast>, addr: u16): seq<Broadcast> {
    if bs == [] then [] else
    var b := bs[|bs| - 1];
    SentBy(bs[..|bs| - 1], addr) + (if b.from == addr then [b] else [])
  }

  // One neighbour's entry, from its own packets alone.
  function Entry(s: seq<Broadcast>): Neighbor
    requires s != []
  {
    var last := s[|s| - 1];
    if |s| == 1 then Hear(Fresh(last), last) else Hear(Entry(s[..|s| - 1]), last)
  }

  // The sum of all gaps the entry was updated with.
  function GapSum(s: seq<Broadcast>): nat
    requires s != []
  {
    var last := s[|s| - 1].seqno;
    if |s| == 1 then Gap(U8(last - 1), last) as nat else GapSum(s[..|s| - 1]) + Gap(s[|s| - 2].seqno, last) as nat
  }

  ghost predicate Tracks(ns: seq<Neighbor>, bs: seq<Broadcast>) {
    && |ns| <= MAX_NEIGHBORS
    && (forall i, j :: 0 <= i < j < |ns| ==> ns[i].addr != ns[j].addr)
    && (forall i :: 0 <= i < |ns| ==>
          SentBy(bs, ns[i].addr) != [] && ns[i] == Entry(SentBy(bs, ns[i].addr)))
    && (|ns| < MAX_NEIGHBORS ==> forall b :: b in bs ==> exists i :: 0 <= i < |ns| && ns[i].addr == b.from)
  }

  lemma SentBySnoc(bs: seq<Broadcast>, b: Broadcast, addr: u16)
    ensures SentBy(bs + [b], addr) == SentBy(bs, addr) + (if b.from == addr then [b] else [])
  {
    assert (bs + [b])[..|bs + [b]| - 1] == bs;
  }

  lemma {:induction false} NoneSentBy(bs: seq<Broadcast>, addr: u16)
    requires forall b :: b in bs ==> b.from != addr
    ensures SentBy(bs, addr) == []
  {
    if bs != [] { NoneSentBy(bs[..|bs| - 1], addr); }
  }

  lemma EntrySnoc(s: seq<Broadcast>, x: Broadcast)
    ensures Entry(s + [x]) == Hear(if s == [] then Fresh(x) else Entry(s), x)
  {
    assert (s + [x])[..|s + [x]| - 1] == s;
  }

  lemma ReceiveTracks(ns: seq<Neighbor>, bs: seq<Broadcast>, b: Broadcast)
    requires Tracks(ns, bs)
    ensures Tracks(Receive(ns, b), bs + [b])
  {
    hide Entry, SentBy, FindNeighbor, Hear, Fresh;
    var k, r := FindNeighbor(ns, b.from), Receive(ns, b);
    var heard := if k < |ns| then ns[k] else Fresh(b);
    HearAddr(heard, b);
    if k == |ns| && |ns| < MAX_NEIGHBORS { NoneSentBy(bs, b.from); }
    forall i | 0 <= i < |r|
      ensures SentBy(bs + [b], r[i].addr) != [] && r[i] == Entry(SentBy(bs + [b], r[i].addr))
    {
      SentBySnoc(bs, b, r[i].addr);
      if i == k {
        EntrySnoc(SentBy(bs, b.from), b);
      } else {
        assert SentBy(bs, r[i].addr) + [] == SentBy(bs, r[i].addr);
      }
    }
    if |r| < MAX_NEIGHBORS {
      forall x | x in bs + [b] ensures exists i :: 0 <= i < |r| && r[i].addr == x.from {
        if x in bs {
          var i :| 0 <= i < |ns| && ns[i].addr == x.from;
          assert r[i].addr == x.from;
        } else {
          assert r[k].addr == b.from;
        }
      }
    }
  }

  lemma HearAddr(n: Neighbor, b: Broadcast)
    ensures Hear(n, b).addr == n.addr && Fresh(b).addr == b.from
  {}

  // Over every run, each of the first 16 senders heard has one entry, and it
  // is what that sender's own packets alone would have made it.
  lemma {:induction false} TableTracks(bs: seq<Broadcast>)
    ensures Tracks(Table(bs), bs)
  {
    if bs != [] {
      var front := bs[..|bs| - 1];
      TableTracks(front);
      ReceiveTracks(Table(front), front, bs[|bs| - 1]);
      assert front + [bs[|bs| - 1]] == bs;
    }
  }

  lemma GapSumSnoc(s: seq<Broadcast>, x: Broadcast)
    ensures GapSum(s + [x]) ==
            if s == [] then Gap(U8(x.seqno - 1), x.seqno) as nat
            else GapSum(s) + Gap(s[|s| - 1].seqno, x.seqno) as nat
  {
    hide Gap, U8, GapSum;
    var t := s + [x];
    GapSumUnfolds(t);
    if s == [] {
      assert t == [x];
    } else {
      assert t[..|t| - 1] == s;
      assert t[|t| - 2] == s[|s| - 1] && t[|t| - 1] == x;
    }
  }

  lemma GapSumUnfolds(s: seq<Broadcast>)
    requires s != []
    ensures GapSum(s) == if |s| == 1 then Gap(U8(s[0].seqno - 1), s[0].seqno) as nat
                         else GapSum(s[..|s| - 1]) + Gap(s[|s| - 2].seqno, s[|s| - 1].seqno) as nat
  {
    hide Gap, U8;
  }

  // The gap modulo 256, and the first one.
  lemma GapMod(a: u8, b: u8)
    ensures Gap(a, b) as int % 256 == (b as int - a as int) % 256
    ensures Gap(U8(b as int - 1), b) == 1
  {}

  // For every run of one sender: the last number and its signal are kept, the
  // average stays in range so that nothing wraps, and the gaps add up, modulo
  // 256, to the numbers from the first to the last.
  lemma {:induction false} EntryMeaning(s: seq<Broadcast>)
    requires s != []
    ensures var e, last := Entry(s), s[|s| - 1];
            e.lastSeqno == last.seqno && e.lastRssi == last.rssi && e.lastLqi == last.lqi
    ensures Entry(s).avgGap <= 255 * 256
    ensures GapSum(s) % 256 == (s[|s| - 1].seqno as int - s[0].seqno as int + 1) % 256
  {
    hide Entry, GapSum, Gap, Average, U8;
    var front, last := s[..|s| - 1], s[|s| - 1];
    assert s == front + [last];
    EntrySnoc(front, last);
    GapSumSnoc(front, last);
    if front == [] {
      GapMod(last.seqno, last.seqno);
      AverageExact(UNITY, 1);
    } else {
      EntryMeaning(front);
      var e := Entry(front);
      var prev := s[|s| - 2].seqno;
      AverageExact(e.avgGap, Gap(e.lastSeqno, last.seqno));
      GapMod(prev, last.seqno);
      ModSum(GapSum(front) as int, prev as int - s[0].seqno as int + 1,
             Gap(prev, last.seqno) as int, last.seqno as int - prev as int);
    }
  }

  lemma ModSum(a: int, a': int, b: int, b': int)
    requires a % 256 == a' % 256 && b % 256 == b' % 256
    ensures (a + b) % 256 == (a' + b') % 256
  {}

  // Packets in unbroken order leave the average at one, whatever the wraps.
  lemma {:induction false} NoLossKeepsUnity(s: seq<Broadcast>)
    requires s != [] && forall i :: 0 < i < |s| ==> s[i].seqno as int == (s[i - 1].seqno as int + 1) % 256
    ensures Entry(s).avgGap == UNITY && GapSum(s) == |s|
  {
    hide Entry, GapSum, Gap, Average, U8;
    var front, last := s[..|s| - 1], s[|s| - 1];
    assert s == front + [last];
    AverageExact(UNITY, 1);
    EntrySnoc(front, last);
    GapSumSnoc(front, last);
    if front == [] {
      GapMod(last.seqno, last.seqno);
    } else {
      NoLossKeepsUnity(front);
      EntryMeaning(front);
      NextGap(front[|front| - 1].seqno, last.seqno);
    }
  }

  lemma NextGap(a: u8, b: u8)
    requires b as int == (a as int + 1) % 256
    ensures Gap(a, b) == 1
  {}

  // What one more packet does to the average of a known sender: a quarter of the
  // gap to the number before, three quarters of the average before.
  lemma EntryAverage(front: seq<Broadcast>, last: Broadcast)
    requires front != []
    ensures var gap := (last.seqno as int - front[|front| - 1].seqno as int) % 256;
            Entry(front + [last]).avgGap as int == 64 * gap + 3 * Entry(front).avgGap as int / 4
    ensures Entry([last]).avgGap == UNITY
  {
    hide Entry, Average, Gap;
    EntrySnoc(front, last);
    EntryMeaning(front);
    var e := Entry(front);
    AverageExact(e.avgGap, Gap(e.lastSeqno, last.seqno));
    GapIs(e.lastSeqno, last.seqno);
    FirstAverage(last);
  }

  lemma GapIs(a: u8, b: u8)
    ensures Gap(a, b) as int == (b as int - a as int) % 256
  {}

  lemma FirstAverage(b: Broadcast)
    ensures Entry([b]).avgGap == UNITY
  {
    hide Entry, Average, Gap, U8;
    EntrySnoc([], b);
    assert [] + [b] == [b];
    GapMod(b.seqno, b.seqno);
    AverageExact(UNITY, 1);
  }

  lemma {:induction false} IterateSnoc(avg: u32, gap: u8, k: nat)
    ensures Iterate(avg, gap, k + 1) == Average(Iterate(avg, gap, k), gap)
    decreases k
  {
    hide Average;
    if k > 0 { IterateSnoc(Average(avg, gap), gap, k - 1); }
  }

  // A sender that advances by the same gap with every packet settles its entry
  // on the limit of that gap, within as many packets as one is away from it.
  lemma {:induction false} ConstantGapEntry(s: seq<Broadcast>, gap: u8)
    requires s != [] && forall i :: 0 < i < |s| ==> (s[i].seqno as int - s[i - 1].seqno as int) % 256 == gap as int
    ensures Entry(s).avgGap == Iterate(UNITY, gap, |s| - 1)
    ensures |s| - 1 >= Distance(UNITY, gap) ==> Entry(s).avgGap as int == Limit(UNITY, gap)
  {
    hide Entry, Average, Gap, Limit, Distance;
    var front, last := s[..|s| - 1], s[|s| - 1];
    assert s == front + [last];
    if front == [] {
      FirstAverage(last);
    } else {
      ConstantGapEntry(front, gap);
      EntrySnoc(front, last);
      EntryMeaning(front);
      SameGap(front[|front| - 1].seqno, last.seqno, gap);
      IterateSnoc(UNITY, gap, |front| - 1);
    }
    if |s| - 1 >= Distance(UNITY, gap) { ConstantGapSettles(UNITY, gap, |s| - 1); }
  }

  lemma SameGap(a: u8, b: u8, gap: u8)
    requires (b as int - a as int) % 256 == gap as int
    ensures Gap(a, b) == gap
  {}
}
