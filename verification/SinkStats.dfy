/**
 The packet-loss table of the sink against the list of arrivals it summarises.
 */
module SinkStats {
  import opened CInts

  const MAX_PKT_SOURCES: nat := 20

  datatype Stat = Stat(src: u8, seqMax: u16, received: u16)
  datatype Arrival = Arrival(src: u8, seqNum: u16)

  function FindStat(stats: seq<Stat>, src: u8): (k: nat)
    ensures k <= |stats| && (forall i :: 0 <= i < k ==> stats[i].src != src)
    ensures k < |stats| ==> stats[k].src == src
  {
    FirstWhere(stats, (e: Stat) => e.src == src)
  }

  function Bump(e: Stat, seqNum: u16): Stat {
    Stat(e.src, if seqNum > e.seqMax then seqNum else e.seqMax, U16(e.received + 1))
  }

  function Record(stats: seq<Stat>, a: Arrival): seq<Stat> {
    if a.src == 0 then stats else
    var k := FindStat(stats, a.src);
    if k < |stats| then stats[k := Bump(stats[k], a.seqNum)]
    else if |stats| < MAX_PKT_SOURCES then stats + [Bump(Stat(a.src, 0, 0), a.seqNum)]
    else stats
  }

  // In place on the static array, of which the first `count` are in use.
  method RecordArrival(table: array<Stat>, count: u8, src: u8, seqNum: u16) returns (count': u8)
    requires table.Length == MAX_PKT_SOURCES && count as nat <= MAX_PKT_SOURCES
    modifies table
    ensures count <= count' && count' as nat <= MAX_PKT_SOURCES
    ensures table[..count'] == Record(old(table[..count]), Arrival(src, seqNum))
  {
    count' := count;
    if src == 0 { return; }
    var si: u8 := 0;
    while si < count && table[si].src != src
      invariant si <= count
      invariant forall k :: 0 <= k < si ==> table[k].src != src
    {
      si := si + 1;
    }
    assert FindStat(table[..count], src) == si as nat;
    if si == count {
      if count as nat >= MAX_PKT_SOURCES { return; }
      table[count] := Stat(src, 0, 0);
      count' := count + 1;
    }
    table[si] := Stat(src, table[si].seqMax, U16(table[si].received + 1));
    if seqNum > table[si].seqMax {
      table[si] := Stat(src, seqNum, table[si].received);
    }
  }

  // ---------- The arrivals ----------

  function Tally(arrivals: seq<Arrival>): seq<Stat> {
    if arrivals == [] then [] else Record(Tally(arrivals[..|arrivals| - 1]), arrivals[|arrivals| - 1])
  }

  function SeqsOf(arrivals: seq<Arrival>, src: u8): seq<u16> {
    if arrivals == [] then [] else
    var a := arrivals[|arrivals| - 1];
    SeqsOf(arrivals[..|arrivals| - 1], src) + (if a.src == src then [a.seqNum] else [])
  }

  function MaxOf(s: seq<u16>): (m: u16)
    ensures forall x :: x in s ==> x <= m
    ensures s == [] ==> m == 0
    ensures s != [] ==> m in s
  {
    if s == [] then 0 else
    var m, x := MaxOf(s[..|s| - 1]), s[|s| - 1];
    assert s == s[..|s| - 1] + [x];
    if x >= m then x else m
  }

  // A table entry tells the count and the maximum of its source's arrivals.
  ghost predicate Tells(e: Stat, arrivals: seq<Arrival>) {
    var s := SeqsOf(arrivals, e.src);
    e.src != 0 && s != [] && e.received == U16(|s|) && e.seqMax == MaxOf(s)
  }

  ghost predicate Tracked(stats: seq<Stat>, src: u8) {
    exists i :: 0 <= i < |stats| && stats[i].src == src
  }

  ghost predicate Summarises(stats: seq<Stat>, arrivals: seq<Arrival>) {
    && |stats| <= MAX_PKT_SOURCES
    && (forall i, j :: 0 <= i < j < |stats| ==> stats[i].src != stats[j].src)
    && (forall i :: 0 <= i < |stats| ==> Tells(stats[i], arrivals))
    && (|stats| < MAX_PKT_SOURCES ==> forall a :: a in arrivals && a.src != 0 ==> Tracked(stats, a.src))
  }

  lemma MaxOfSnoc(s: seq<u16>, x: u16)
    ensures MaxOf(s + [x]) == if x > MaxOf(s) then x else MaxOf(s)
  {
    assert (s + [x])[..|s + [x]| - 1] == s;
  }

  // For every list of arrivals, each tracked source has its count and its
  // maximum, and sources are only left out of a full table.
  lemma {:induction false} TallySummarises(arrivals: seq<Arrival>)
    ensures Summarises(Tally(arrivals), arrivals)
  {
    if arrivals != [] {
      var before, a := arrivals[..|arrivals| - 1], arrivals[|arrivals| - 1];
      TallySummarises(before);
      RecordSummarises(Tally(before), before, a);
      assert before + [a] == arrivals;
    }
  }

  lemma SeqsOfSnoc(arrivals: seq<Arrival>, a: Arrival, src: u8)
    ensures SeqsOf(arrivals + [a], src) == SeqsOf(arrivals, src) + (if a.src == src then [a.seqNum] else [])
  {
    assert (arrivals + [a])[..|arrivals + [a]| - 1] == arrivals;
  }

  lemma {:induction false} NoSeqs(arrivals: seq<Arrival>, src: u8)
    requires forall a :: a in arrivals ==> a.src != src
    ensures SeqsOf(arrivals, src) == []
  {
    if arrivals != [] { NoSeqs(arrivals[..|arrivals| - 1], src); }
  }

  // What one arrival does to its own entry, and to the others.
  lemma TellsOther(e: Stat, before: seq<Arrival>, a: Arrival)
    requires Tells(e, before) && e.src != a.src
    ensures Tells(e, before + [a])
  {
    SeqsOfSnoc(before, a, e.src);
    assert SeqsOf(before, e.src) + [] == SeqsOf(before, e.src);
  }

  lemma TellsSame(e: Stat, before: seq<Arrival>, a: Arrival)
    requires Tells(e, before) && e.src == a.src
    ensures Tells(Bump(e, a.seqNum), before + [a])
  {
    hide SeqsOf, MaxOf, U16;
    SeqsOfSnoc(before, a, e.src);
    MaxOfSnoc(SeqsOf(before, e.src), a.seqNum);
    CountSnoc(|SeqsOf(before, e.src)|);
  }

  lemma CountSnoc(n: nat)
    ensures U16(U16(n) + 1) == U16(n + 1)
  {}

  lemma TellsNew(before: seq<Arrival>, a: Arrival)
    requires a.src != 0 && forall b :: b in before ==> b.src != a.src
    ensures Tells(Bump(Stat(a.src, 0, 0), a.seqNum), before + [a])
  {
    SeqsOfSnoc(before, a, a.src);
    NoSeqs(before, a.src);
    assert SeqsOf(before + [a], a.src) == [a.seqNum];
    MaxOfSnoc([], a.seqNum);
    assert [] + [a.seqNum] == [a.seqNum];
  }

  lemma RecordSummarises(stats: seq<Stat>, before: seq<Arrival>, a: Arrival)
    requires Summarises(stats, before)
    ensures Summarises(Record(stats, a), before + [a])
  {
    hide SeqsOf, MaxOf, Tells, Bump, FindStat;
    var after, k := Record(stats, a), FindStat(stats, a.src);
    if a.src != 0 && k == |stats| && |stats| < MAX_PKT_SOURCES {
      forall b | b in before ensures b.src != a.src {
        if b.src != 0 { var i :| 0 <= i < |stats| && stats[i].src == b.src; }
      }
      TellsNew(before, a);
    }
    if a.src != 0 && k < |stats| { TellsSame(stats[k], before, a); }
    forall i | 0 <= i < |after| ensures Tells(after[i], before + [a]) {
      if i < |stats| && (a.src == 0 || i != k) {
        if a.src == 0 { SourceNonZero(stats[i], before); }
        TellsOther(stats[i], before, a);
      }
    }
    RecordSources(stats, a);
    if |after| < MAX_PKT_SOURCES {
      forall b | b in before + [a] && b.src != 0 ensures Tracked(after, b.src) {}
    }
  }

  lemma SourceNonZero(e: Stat, arrivals: seq<Arrival>)
    requires Tells(e, arrivals)
    ensures e.src != 0
  {}

  lemma RecordSources(stats: seq<Stat>, a: Arrival)
    ensures var after := Record(stats, a);
            && |stats| <= |after| && (forall i :: 0 <= i < |stats| ==> after[i].src == stats[i].src)
            && (forall src :: Tracked(stats, src) ==> Tracked(after, src))
            && (a.src != 0 && |after| < MAX_PKT_SOURCES ==> Tracked(after, a.src))
            && (|after| > |stats| ==>
                  |after| == |stats| + 1 && after[|stats|].src == a.src && FindStat(stats, a.src) == |stats|)
  {
    var after, k := Record(stats, a), FindStat(stats, a.src);
    forall src | Tracked(stats, src) ensures Tracked(after, src) {
      var i :| 0 <= i < |stats| && stats[i].src == src;
      assert after[i].src == src;
    }
    if a.src != 0 && |after| < MAX_PKT_SOURCES { assert after[k].src == a.src; }
  }

  // An arrival changes only its source's entry: all others stay in place, a new
  // one goes to the end, and a new source is ignored when the table is full.
  lemma RecordKeepsOthers(stats: seq<Stat>, a: Arrival)
    ensures var r := Record(stats, a);
            && (forall i :: 0 <= i < |stats| && i < |r| && stats[i].src != a.src ==> r[i] == stats[i])
            && (if a.src == 0 || Tracked(stats, a.src) || |stats| >= MAX_PKT_SOURCES then |r| == |stats|
                else |r| == |stats| + 1 && r[|stats|].src == a.src)
            && (a.src == 0 || (!Tracked(stats, a.src) && |stats| >= MAX_PKT_SOURCES) ==> r == stats)
  {
    RecordSources(stats, a);
    var k := FindStat(stats, a.src);
    if k < |stats| { assert Tracked(stats, a.src); }
  }

  // ---------- The printed loss ----------

  // uint16_t lost, then (uint16_t)((lost * 100) / seq_max) in 32-bit int.
  function Lost(e: Stat): u16 { U16(e.seqMax - e.received) }

  function LossPercent(e: Stat): u16 {
    if e.seqMax > 0 then U16(Lost(e) * 100 / e.seqMax) else 0
  }

  // The sequence numbers up to the largest one heard that never arrived.
  ghost function Missing(s: seq<u16>): set<u16> { set x: u16 | 1 <= x <= MaxOf(s) && x !in s }

  // The numbers heard, each once and without 0.
  ghost function Heard(s: seq<u16>): set<u16> { AsSet(s) - {0} }

  lemma MissingSize(s: seq<u16>)
    ensures |Missing(s)| + |Heard(s)| == MaxOf(s) as nat
  {
    var m: nat := MaxOf(s) as nat;
    var all: set<int> := Below(m + 1) - {0};
    var missing: set<int>, heard: set<int> := Missing(s), Heard(s);
    assert Below(m + 1) == all + {0};
    assert missing + heard == all;
    assert missing * heard == {};
  }

  lemma HeardSize(s: seq<u16>)
    ensures |Heard(s)| <= |s|
    ensures |Heard(s)| == |s| <==> Distinct(s) && 0 !in s
  {
    AsSetSize(s);
    if 0 in s { assert AsSet(s) == Heard(s) + {0}; } else { assert AsSet(s) == Heard(s); }
  }

  // The number of packets printed as lost is the number that never arrived
  // exactly when the superfluous arrivals, repetitions and number 0, are a
  // multiple of 65536; so below 65536 arrivals, exactly when there are none.
  lemma LostCountsMissingIff(arrivals: seq<Arrival>, e: Stat)
    requires e in Tally(arrivals)
    ensures var s := SeqsOf(arrivals, e.src);
            && (Lost(e) as nat == |Missing(s)| <==> (|s| - |Heard(s)|) % 0x1_0000 == 0)
            && (|s| < 0x1_0000 ==> (Lost(e) as nat == |Missing(s)| <==> Distinct(s) && 0 !in s))
    ensures (forall x :: x in SeqsOf(arrivals, e.src) ==> x == 0) ==> LossPercent(e) == 0
  {
    hide Tally, SeqsOf, MaxOf, Missing, Heard, Distinct;
    TallySummarises(arrivals);
    assert Tells(e, arrivals);
    var s := SeqsOf(arrivals, e.src);
    MissingSize(s);
    HeardSize(s);
    LostModulo(|s|, MaxOf(s) as int, |Heard(s)|);
    if forall x :: x in s ==> x == 0 { assert MaxOf(s) in s; }
  }

  lemma LostModulo(n: nat, m: int, heard: nat)
    requires heard <= n && heard <= m < 0x1_0000
    ensures U16(m - U16(n)) as int == m - heard <==> (n - heard) % 0x1_0000 == 0
    ensures n < 0x1_0000 ==> ((n - heard) % 0x1_0000 == 0 <==> heard == n)
  {}

  // While no arrival of a source is a repetition, its loss figures mean what
  // they say: how many of its numbers are missing, and how many in a hundred.
  lemma LossIsMeaningful(arrivals: seq<Arrival>, e: Stat)
    requires e in Tally(arrivals)
    requires Distinct(SeqsOf(arrivals, e.src)) && 0 !in SeqsOf(arrivals, e.src)
    ensures var s := SeqsOf(arrivals, e.src);
            && e.received as nat == |s| <= e.seqMax as nat == MaxOf(s) as nat && e.seqMax > 0
            && Lost(e) as nat == |Missing(s)|
            && LossPercent(e) as nat == |Missing(s)| * 100 / e.seqMax as nat <= 100
  {
    hide Tally, SeqsOf, MaxOf, Missing, Heard, Distinct;
    var s := SeqsOf(arrivals, e.src);
    TallySummarises(arrivals);
    assert Tells(e, arrivals);
    MissingSize(s);
    HeardSize(s);
    LostCountsMissingIff(arrivals, e);
    PercentBound(|Missing(s)|, e.seqMax);
  }

  lemma PercentBound(part: nat, whole: nat)
    requires part <= whole && whole > 0
    ensures 0 <= part * 100 / whole <= 100
  {
    assert part * 100 <= whole * 100;
    assert (whole * 100) / whole == 100;
  }

  // The only packet heard, number q, heard twice: one too few is reported lost,
  // which for number 1 is 65535, and a percentage cut to 16 bits.
  lemma DuplicateBreaksLoss(q: u16)
    requires q > 0
    ensures var arrivals := [Arrival(8, q), Arrival(8, q)];
            && Tally(arrivals) == [Stat(8, q, 2)]
            && |Missing(SeqsOf(arrivals, 8))| == q as nat - 1
    ensures Lost(Stat(8, q, 2)) == if q == 1 then 65535 else q - 2
    ensures LossPercent(Stat(8, 1, 2)) == 65436
  {
    hide Tally, SeqsOf;
    TallyOfTwo(q);
    MissingOfTwo(q);
    assert LossPercent(Stat(8, 1, 2)) == U16(6553500);
  }

  lemma MissingOfTwo(q: u16)
    requires q > 0
    ensures |Missing([q, q])| == q as nat - 1
  {
    hide Missing;
    MissingSize([q, q]);
    assert Heard([q, q]) == {q};
    assert MaxOf([q, q]) in [q, q];
  }

  lemma TallyOfTwo(q: u16)
    requires q > 0
    ensures var arrivals := [Arrival(8, q), Arrival(8, q)];
            Tally(arrivals) == [Stat(8, q, 2)] && SeqsOf(arrivals, 8) == [q, q]
  {
    var arrivals := [Arrival(8, q), Arrival(8, q)];
    assert arrivals[..1] == [Arrival(8, q)] && arrivals[..1][..0] == [];
    assert Tally(arrivals[..1]) == [Stat(8, q, 1)];
    assert SeqsOf(arrivals[..1], 8) == [] + [q] == [q];
  }
}
