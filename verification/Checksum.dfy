/**
 The Internet checksum loop, as the one's-complement sum of RFC 1071, section
 2, and its use over the pseudo-header of RFC 8200, section 8.1.
 */
module Checksum {
  import opened CInts

  // Big-endian words; an odd last byte is padded with zero.
  function WordSum(data: seq<u8>): nat
    decreases |data|
  {
    if data == [] then 0
    else if |data| == 1 then data[0] * 0x100
    else data[0] * 0x100 + data[1] + WordSum(data[2..])
  }

  // The one's-complement representative of a sum: 0 only for 0, otherwise the
  // residue modulo 65535 taken from 1 to 65535.
  function OnesComplement(n: nat): (r: u16)
    ensures (r as int - n as int) % 0xFFFF == 0
    ensures r == 0 <==> n == 0
  {
    if n == 0 then 0 else
    var r := (n - 1) % 0xFFFF + 1;
    Residue(n);
    r
  }

  lemma Residue(n: nat)
    requires n > 0
    ensures ((n - 1) % 0xFFFF + 1 - n) % 0xFFFF == 0
  {}

  // sum += t; if (sum < t) sum++;
  function AddWord(sum: u16, t: u16): u16 {
    var s := U16(sum + t);
    if s < t then U16(s + 1) else s
  }

  lemma AddWordIsOnesComplement(total: nat, t: u16)
    ensures AddWord(OnesComplement(total), t) == OnesComplement(total + t)
    ensures OnesComplement(total) + t >= 0x1_0000 ==> U16(OnesComplement(total) + t) < 0xFFFF
  {}

  // The same for the statements of the loop.
  lemma CarryStep(total: nat, t: u16, sum: u16)
    requires sum == OnesComplement(total)
    ensures var s := U16(sum + t); (if s < t then U16(s + 1) else s) == OnesComplement(total + t)
  {
    AddWordIsOnesComplement(total, t);
  }

  lemma WordFits(hi: u8, lo: u8)
    ensures U16(hi as int * 0x100 + lo as int) == hi as int * 0x100 + lo as int
    ensures U16(hi as int * 0x100) == hi as int * 0x100
  {}

  lemma WordSumStep(d: seq<u8>)
    ensures |d| == 0 ==> WordSum(d) == 0
    ensures |d| == 1 ==> WordSum(d) == d[0] as int * 0x100
    ensures |d| >= 2 ==> WordSum(d) == d[0] as int * 0x100 + d[1] as int + WordSum(d[2..])
  {}

  method Chksum(start: u16, data: array<u8>, len: u16) returns (sum: u16)
    requires len as nat <= data.Length
    ensures sum == OnesComplement(start as nat + WordSum(data[..len]))
  {
    hide WordSum, OnesComplement, U16;
    sum := start;
    ghost var total: nat := start;
    StartIsOnesComplement(start);
    var dataptr: int, lastByte: int := 0, len as int - 1;
    while dataptr < lastByte
      invariant 0 <= dataptr <= len as int
      invariant sum == OnesComplement(total)
      invariant total + WordSum(data[dataptr..len]) == start as nat + WordSum(data[..len])
    {
      var t: u16 := U16(data[dataptr] as int * 0x100 + data[dataptr + 1] as int);
      WordFits(data[dataptr], data[dataptr + 1]);
      WordSumStep(data[dataptr..len]);
      assert data[dataptr..len][2..] == data[dataptr + 2..len];
      CarryStep(total, t, sum);
      sum := U16(sum + t);
      if sum < t {
        sum := U16(sum + 1);
      }
      total := total + t;
      dataptr := dataptr + 2;
    }
    WordSumStep(data[dataptr..len]);
    if dataptr == lastByte {
      var t: u16 := U16(data[dataptr] as int * 0x100);
      WordFits(data[dataptr], 0);
      CarryStep(total, t, sum);
      sum := U16(sum + t);
      if sum < t {
        sum := U16(sum + 1);
      }
      total := total + t;
    }
  }

  lemma StartIsOnesComplement(start: u16)
    ensures OnesComplement(start) == start
  {}

  // ---------- What is summed ----------

  // Byte by byte: those at even places count 256 times, those at odd ones once.
  function Weighted(d: seq<u8>): nat {
    if d == [] then 0
    else Weighted(d[..|d| - 1]) + d[|d| - 1] as nat * (if |d| % 2 == 1 then 0x100 else 1)
  }

  lemma {:induction false} WordSumSnoc(d: seq<u8>, x: u8)
    ensures WordSum(d + [x]) == WordSum(d) + x as nat * (if |d| % 2 == 0 then 0x100 else 1)
    decreases |d|
  {
    var e := d + [x];
    if |d| == 1 {
      assert e[2..] == [];
    } else if |d| >= 2 {
      assert e[2..] == d[2..] + [x];
      WordSumSnoc(d[2..], x);
    }
  }

  // The words are big-endian, and an odd last byte is a high one.
  lemma {:induction false} WordSumIsWeighted(d: seq<u8>)
    ensures WordSum(d) == Weighted(d)
  {
    hide WordSum;
    if d == [] {
      WordSumStep(d);
    } else {
      var front, x := d[..|d| - 1], d[|d| - 1];
      WordSumIsWeighted(front);
      WordSumSnoc(front, x);
      assert d == front + [x];
    }
  }

  // ---------- What the sum does not depend on ----------

  // chksum as a function of its start value and data.
  function Sum(start: u16, data: seq<u8>): u16 { OnesComplement(start as nat + WordSum(data)) }

  lemma CongruentTotals(m: nat, n: nat)
    requires (m as int - n as int) % 0xFFFF == 0 && (m == 0 <==> n == 0)
    ensures OnesComplement(m) == OnesComplement(n)
  {
    var a: int, b: int := OnesComplement(m) as int, OnesComplement(n) as int;
    assert (a - b) % 0xFFFF == 0 by {
      Mod3(a - m as int, m as int - n as int, n as int - b);
      assert (n as int - b) % 0xFFFF == 0 by { NegMod(b - n as int); }
    }
  }

  lemma Mod3(x: int, y: int, z: int)
    requires x % 0xFFFF == 0 && y % 0xFFFF == 0 && z % 0xFFFF == 0
    ensures (x + y + z) % 0xFFFF == 0
  {}

  lemma NegMod(x: int)
    requires x % 0xFFFF == 0
    ensures (-x) % 0xFFFF == 0
  {}

  lemma {:induction false} WordSumConcat(a: seq<u8>, b: seq<u8>)
    requires |a| % 2 == 0
    ensures WordSum(a + b) == WordSum(a) + WordSum(b)
    decreases |a|
  {
    if a == [] {
      assert a + b == b;
    } else {
      assert (a + b)[2..] == a[2..] + b;
      WordSumConcat(a[2..], b);
    }
  }

  // Data may be summed in pieces, split at any even offset.
  lemma SplitAnywhere(start: u16, a: seq<u8>, b: seq<u8>)
    requires |a| % 2 == 0
    ensures Sum(Sum(start, a), b) == Sum(start, a + b)
  {
    WordSumConcat(a, b);
    var m: nat := start as nat + WordSum(a);
    CongruentTotals(OnesComplement(m) as nat + WordSum(b), m + WordSum(b));
  }

  type Word = (u8, u8)

  function FromWords(ws: seq<Word>): (d: seq<u8>)
    ensures |d| == 2 * |ws|
  {
    if ws == [] then [] else [ws[0].0, ws[0].1] + FromWords(ws[1..])
  }

  lemma FromWordsConcat(a: seq<Word>, b: seq<Word>)
    ensures FromWords(a + b) == FromWords(a) + FromWords(b)
  {
    if a == [] {
      assert a + b == b;
    } else {
      assert (a + b)[1..] == a[1..] + b;
      FromWordsConcat(a[1..], b);
    }
  }

  lemma WordSumCons(w: Word, ws: seq<Word>)
    ensures WordSum(FromWords([w] + ws)) == w.0 * 0x100 + w.1 + WordSum(FromWords(ws))
  {
    assert ([w] + ws)[1..] == ws;
    var d := FromWords([w] + ws);
    assert d[2..] == FromWords(ws);
  }

  // The order of the words does not matter.
  lemma {:induction false} AnyWordOrder(start: u16, a: seq<Word>, b: seq<Word>)
    requires multiset(a) == multiset(b)
    ensures Sum(start, FromWords(a)) == Sum(start, FromWords(b))
  {
    SameWordSum(a, b);
  }

  lemma MultisetRemove(b: seq<Word>, k: nat)
    requires k < |b|
    ensures b == b[..k] + ([b[k]] + b[k + 1..])
    ensures multiset(b[..k] + b[k + 1..]) == multiset(b) - multiset{b[k]}
  {
    assert b == b[..k] + ([b[k]] + b[k + 1..]);
  }

  lemma MatchFirst(a: seq<Word>, b: seq<Word>) returns (k: nat)
    requires multiset(a) == multiset(b) && a != []
    ensures k < |b| && b[k] == a[0] && a == [a[0]] + a[1..] && b == b[..k] + ([b[k]] + b[k + 1..])
    ensures multiset(a[1..]) == multiset(b[..k] + b[k + 1..])
  {
    assert a[0] in multiset(b);
    k :| 0 <= k < |b| && b[k] == a[0];
    MultisetRemove(b, k);
    MultisetRemove(a, 0);
    assert a[..0] + a[1..] == a[1..];
  }

  lemma {:induction false} SameWordSum(a: seq<Word>, b: seq<Word>)
    requires multiset(a) == multiset(b)
    ensures WordSum(FromWords(a)) == WordSum(FromWords(b))
  {
    hide WordSum, FromWords;
    if a == [] {
      assert |multiset(b)| == 0;
      assert b == [];
    } else {
      var k := MatchFirst(a, b);
      SameWordSum(a[1..], b[..k] + b[k + 1..]);
      WordSumCons(a[0], a[1..]);
      WordSumMiddle(b[..k], b[k], b[k + 1..]);
    }
  }

  lemma WordSumMiddle(a: seq<Word>, w: Word, b: seq<Word>)
    ensures WordSum(FromWords(a + ([w] + b))) == w.0 * 0x100 + w.1 + WordSum(FromWords(a + b))
  {
    FromWordsConcat(a, [w] + b);
    FromWordsConcat(a, b);
    WordSumConcat(FromWords(a), FromWords([w] + b));
    WordSumConcat(FromWords(a), FromWords(b));
    WordSumCons(w, b);
  }

  // ---------- Byte order ----------

  function Swap(x: u16): u16 { (x % 0x100) * 0x100 + x / 0x100 }

  function SwapWords(ws: seq<Word>): (r: seq<Word>)
    ensures |r| == |ws| && forall i :: 0 <= i < |ws| ==> r[i] == (ws[i].1, ws[i].0)
  {
    seq(|ws|, i requires 0 <= i < |ws| => (ws[i].1, ws[i].0))
  }

  // Swapping bytes is multiplying by 256 modulo 65535.
  lemma SwapIsTimes256(x: u16)
    ensures (0x100 * x - Swap(x)) % 0xFFFF == 0
    ensures Swap(x) == 0 <==> x == 0
  {
    assert 0x100 * x - Swap(x) == 0xFFFF * (x / 0x100);
  }

  lemma {:induction false} SwappedWordSum(ws: seq<Word>)
    ensures (0x100 * WordSum(FromWords(ws)) - WordSum(FromWords(SwapWords(ws)))) % 0xFFFF == 0
    ensures WordSum(FromWords(ws)) == 0 <==> WordSum(FromWords(SwapWords(ws))) == 0
  {
    if ws != [] {
      var w, rest := ws[0], ws[1..];
      SwappedWordSum(rest);
      assert ws == [w] + rest && SwapWords(ws) == [(w.1, w.0)] + SwapWords(rest);
      WordSumCons(w, rest);
      WordSumCons((w.1, w.0), SwapWords(rest));
      var a, b := WordSum(FromWords(rest)), WordSum(FromWords(SwapWords(rest)));
      SwapOne(w.0 as int, w.1 as int, a as int, b as int);
    }
  }

  lemma SwapOne(hi: int, lo: int, a: int, b: int)
    requires (0x100 * a - b) % 0xFFFF == 0
    ensures (0x100 * (hi * 0x100 + lo + a) - (lo * 0x100 + hi + b)) % 0xFFFF == 0
  {
    Mod3(0x100 * a - b, 0xFFFF * hi, 0);
    assert 0x100 * (hi * 0x100 + lo + a) - (lo * 0x100 + hi + b) == (0x100 * a - b) + 0xFFFF * hi + 0;
  }

  // Byte-order independence: swapped words and start give the swapped sum.
  lemma ByteOrderIndependent(start: u16, ws: seq<Word>)
    ensures Sum(Swap(start), FromWords(SwapWords(ws))) == Swap(Sum(start, FromWords(ws)))
  {
    hide WordSum, FromWords, OnesComplement;
    var sw := SwapWords(ws);
    var m: nat, n: nat := start as nat + WordSum(FromWords(ws)), Swap(start) as nat + WordSum(FromWords(sw));
    SwapIsTimes256(start);
    SwappedWordSum(ws);
    var s := OnesComplement(m);
    SwapIsTimes256(s);
    Mod3(0x100 * start as int - Swap(start) as int,
         0x100 * WordSum(FromWords(ws)) as int - WordSum(FromWords(sw)) as int, 0);
    SwapChain(s as int, m as int, n as int, Swap(s) as int);
    CongruentTotals(Swap(s) as nat, n);
    StartIsOnesComplement(Swap(s));
  }

  // Swap(s) = 256 s = 256 m = n
  lemma SwapChain(s: int, m: int, n: int, swapped: int)
    requires (0x100 * s - swapped) % 0xFFFF == 0 && (s - m) % 0xFFFF == 0 && (0x100 * m - n) % 0xFFFF == 0
    ensures (swapped - n) % 0xFFFF == 0
  {
    NegMod(0x100 * s - swapped);
    TimesMod(s - m);
    Mod3(swapped - 0x100 * s, 0x100 * (s - m), 0x100 * m - n);
    assert swapped - n == (swapped - 0x100 * s) + 0x100 * (s - m) + (0x100 * m - n);
  }

  lemma TimesMod(x: int)
    requires x % 0xFFFF == 0
    ensures (0x100 * x) % 0xFFFF == 0
  {
    assert 0x100 * x == 0xFFFF * (0x100 * (x / 0xFFFF));
  }

  // ---------- Verification at the receiver ----------

  function Complement(x: u16): u16 { 0xFFFF - x }

  // With the complement of the sum put into a zero checksum field, the whole
  // sums to all ones.
  lemma FilledInSumsToOnes(start: u16, a: seq<u8>, b: seq<u8>)
    requires |a| % 2 == 0
    ensures var c := Complement(Sum(start, a + [0, 0] + b));
            Sum(start, a + [(c / 0x100) as u8, (c % 0x100) as u8] + b) == 0xFFFF
  {
    var c := Complement(Sum(start, a + [0, 0] + b));
    var field := [(c / 0x100) as u8, (c % 0x100) as u8];
    FieldSum(a, 0, 0, b);
    FieldSum(a, (c / 0x100) as u8, (c % 0x100) as u8, b);
    var m: nat := start as nat + WordSum(a) + WordSum(b);
    CongruentTotals(m + c as nat, 0xFFFF);
    StartIsOnesComplement(0xFFFF);
  }

  lemma FieldSum(a: seq<u8>, x: u8, y: u8, b: seq<u8>)
    requires |a| % 2 == 0
    ensures WordSum(a + [x, y] + b) == WordSum(a) + x * 0x100 + y + WordSum(b)
  {
    WordSumConcat(a, [x, y] + b);
    assert a + [x, y] + b == a + ([x, y] + b);
    assert ([x, y] + b)[2..] == b;
  }

  // The two words that stand for zero.
  predicate OtherZero(w: Word, w': Word) {
    (w == (0, 0) && w' == (0xFF, 0xFF)) || (w == (0xFF, 0xFF) && w' == (0, 0))
  }

  // Changing one word is noticed, unless it turns one zero into the other in
  // data that is not zero elsewhere.
  lemma WordChangeDetectedIff(start: u16, a: seq<u8>, w: Word, w': Word, b: seq<u8>)
    requires |a| % 2 == 0
    ensures Sum(start, a + [w.0, w.1] + b) == Sum(start, a + [w'.0, w'.1] + b)
            <==> w == w' || (OtherZero(w, w') && start as nat + WordSum(a) + WordSum(b) > 0)
  {
    hide *;
    var m: nat := start as nat + WordSum(a) + WordSum(b);
    SumOfField(start, a, w, b);
    SumOfField(start, a, w', b);
    SameResidueIff(m, WordValue(w), WordValue(w'));
    WordValues(w, w');
  }

  function WordValue(w: Word): nat { w.0 as nat * 0x100 + w.1 as nat }

  lemma WordValues(w: Word, w': Word)
    ensures WordValue(w) <= 0xFFFF && WordValue(w') <= 0xFFFF
    ensures WordValue(w) == WordValue(w') <==> w == w'
    ensures OtherZero(w, w') <==>
            (WordValue(w) == 0 && WordValue(w') == 0xFFFF) || (WordValue(w) == 0xFFFF && WordValue(w') == 0)
  {}

  lemma SumOfField(start: u16, a: seq<u8>, w: Word, b: seq<u8>)
    requires |a| % 2 == 0
    ensures Sum(start, a + [w.0, w.1] + b) == OnesComplement(start as nat + WordSum(a) + WordSum(b) + WordValue(w))
    ensures WordValue(w) <= 0xFFFF
  {
    hide WordSum, OnesComplement, WordValue;
    FieldWord(a, w, b);
  }

  lemma FieldWord(a: seq<u8>, w: Word, b: seq<u8>)
    requires |a| % 2 == 0
    ensures WordSum(a + [w.0, w.1] + b) == WordSum(a) + WordSum(b) + WordValue(w)
    ensures WordValue(w) <= 0xFFFF
  {
    hide WordSum;
    FieldSum(a, w.0, w.1, b);
  }

  lemma SameResidueIff(m: nat, x: nat, x': nat)
    requires x <= 0xFFFF && x' <= 0xFFFF
    ensures OnesComplement(m + x) == OnesComplement(m + x') <==>
            x == x' || (m > 0 && ((x == 0 && x' == 0xFFFF) || (x == 0xFFFF && x' == 0)))
  {
    var r := OnesComplement(m + x) as int;
    if m > 0 && ((x == 0 && x' == 0xFFFF) || (x == 0xFFFF && x' == 0)) {
      CongruentTotals(m + x, m + x');
    }
    if OnesComplement(m + x) == OnesComplement(m + x') {
      NegMod(r - (m + x) as int);
      Mod3((m + x) as int - r, r - (m + x') as int, 0);
      assert (x as int - x' as int) % 0xFFFF == 0;
    }
  }

  // ---------- The upper-layer checksum ----------

  // What section 8.1 of RFC 8200 sums: addresses, length, next header, data.
  function PseudoSum(proto: u8, addresses: seq<u8>, payload: seq<u8>, len: u16): nat {
    WordSum(addresses) + len + proto + WordSum(payload)
  }

  // The header of that section, with its 32-bit length and its zeros.
  function PseudoHeader(proto: u8, addresses: seq<u8>, len: u16): seq<u8> {
    addresses + [0, 0, (len / 0x100) as u8, (len % 0x100) as u8] + [0, 0, 0, proto]
  }

  lemma PseudoSumIsHeaderSum(proto: u8, addresses: seq<u8>, payload: seq<u8>, len: u16)
    requires |addresses| == 32
    ensures PseudoSum(proto, addresses, payload, len) == WordSum(PseudoHeader(proto, addresses, len) + payload)
  {
    hide WordSum;
    var l, p := [0, 0, (len / 0x100) as u8, (len % 0x100) as u8], [0, 0, 0, proto];
    WordSumConcat(addresses + l + p, payload);
    WordSumConcat(addresses + l, p);
    WordSumConcat(addresses, l);
    FourBytes(0, 0, (len / 0x100) as u8, (len % 0x100) as u8);
    FourBytes(0, 0, 0, proto);
  }

  lemma FourBytes(a: u8, b: u8, c: u8, d: u8)
    ensures WordSum([a, b, c, d]) == (a + c) * 0x100 + b + d
  {
    hide WordSum;
    assert [a, b, c, d][2..] == [c, d] && [c, d][2..] == [];
    WordSumStep([a, b, c, d]);
    WordSumStep([c, d]);
    WordSumStep([]);
  }

  // upper_layer_chksum on a little-endian host: `len` is the header field, the
  // addresses are 32 bytes, and `payload` holds `len` bytes.
  method UpperLayerChksum(proto: u8, addresses: array<u8>, payload: array<u8>, len: u16) returns (r: u16)
    requires addresses.Length == 32 && len as nat <= payload.Length
    ensures var exact := OnesComplement(PseudoSum(proto, addresses[..], payload[..len], len));
            var answer := if exact == 0 then 0xFFFF else Swap(exact);
            r == answer <==> len as nat + proto as nat < 0x1_0000
  {
    hide WordSum, OnesComplement, Swap;
    var sum: u16 := U16(len + proto);
    ghost var sum0 := sum;
    sum := Chksum(sum, addresses, 32);
    sum := Chksum(sum, payload, len);
    assert addresses[..32] == addresses[..];
    SplitAnywhere(sum0, addresses[..], payload[..len]);
    WordSumConcat(addresses[..], payload[..len]);
    r := if sum == 0 then 0xFFFF else Swap(sum);
    UpperLayerExact(proto, len, WordSum(addresses[..]) + WordSum(payload[..len]));
  }

  // The sum of length and protocol is said not to carry. That is true of every
  // packet in a buffer of less than 65536 - proto bytes, 65478 for ICMPv6, the
  // one protocol it is called with; beyond, it carries and the result is wrong
  // for every packet.
  lemma UpperLayerExact(proto: u8, len: u16, rest: nat)
    ensures var exact := OnesComplement(len as nat + proto as nat + rest);
            var got := OnesComplement(U16(len + proto) as nat + rest);
            (if exact == 0 then 0xFFFF else Swap(exact)) == (if got == 0 then 0xFFFF else Swap(got))
            <==> len as nat + proto as nat < 0x1_0000
  {
    hide OnesComplement, Swap, U16;
    var m: nat := len as nat + proto as nat;
    var exact, got := OnesComplement(m + rest), OnesComplement(U16(len + proto) as nat + rest);
    LengthWraps(len, proto);
    SwapInjective(exact, got);
    AllOnesSwapped();
    SwapInjective(exact, 0xFFFF);
    SwapInjective(got, 0xFFFF);
    if m >= 0x1_0000 { OneLess(m + rest, exact, got); }
  }

  lemma LengthWraps(len: u16, proto: u8)
    ensures var m := len as int + proto as int;
            U16(len + proto) as int == if m >= 0x1_0000 then m - 0x1_0000 else m
  {}

  // Losing a carry makes the sum one less, modulo 65535.
  lemma OneLess(n: nat, exact: u16, got: u16)
    requires n >= 0x1_0000 && exact == OnesComplement(n) && got == OnesComplement(n - 0x1_0000)
    ensures (exact as int - got as int) % 0xFFFF == 1 && exact != 0
  {
    var x, y := exact as int - n as int, got as int - (n - 0x1_0000) as int;
    NegMod(y);
    assert exact as int - got as int == x + -y + 0x1_0000;
    Mod3(x, -y, 0xFFFF);
  }

  lemma SwapInjective(x: u16, y: u16)
    ensures Swap(x) == Swap(y) <==> x == y
    ensures Swap(x) == 0xFFFF <==> x == 0xFFFF
  {
    hide Swap;
    SwapTwice(x);
    SwapTwice(y);
    AllOnesSwapped();
  }

  lemma SwapTwice(x: u16)
    ensures Swap(Swap(x)) == x
  {
    SwapBytes(x / 0x100, x % 0x100);
    SwapBytes(x % 0x100, x / 0x100);
  }

  lemma SwapBytes(hi: int, lo: int)
    requires 0 <= hi < 0x100 && 0 <= lo < 0x100
    ensures Swap(hi * 0x100 + lo) == lo * 0x100 + hi
  {
    assert (hi * 0x100 + lo) / 0x100 == hi;
  }

  lemma AllOnesSwapped()
    ensures Swap(0xFFFF) == 0xFFFF
  {}
}
