/**
 The C integer types the source declares, as ranges of mathematical integers,
 and the conversions to them.
 */
module CInts {
  type u8 = x: int | 0 <= x < 0x100
  type u16 = x: int | 0 <= x < 0x1_0000
  type u32 = x: int | 0 <= x < 0x1_0000_0000
  type i8 = x: int | -0x80 <= x < 0x80
  type i16 = x: int | -0x8000 <= x < 0x8000

  function U8(x: int): u8 { x % 0x100 }

  function U16(x: int): u16 { x % 0x1_0000 }

  // The two's-complement reading of the low sixteen bits.
  function I16(x: int): i16 {
    var y := x % 0x1_0000;
    if y < 0x8000 then y else y - 0x1_0000
  }

  function Min(a: nat, b: nat): nat { if a <= b then a else b }

  // Index of the first element with the property, or |s|: the search loops.
  function FirstWhere<T>(s: seq<T>, p: T -> bool): (k: nat)
    ensures k <= |s| && (forall i :: 0 <= i < k ==> !p(s[i]))
    ensures k < |s| ==> p(s[k])
  {
    if s == [] || p(s[0]) then 0 else 1 + FirstWhere(s[1..], p)
  }

  // A sequence of bytes without repetition has at most 256 elements.
  ghost predicate Distinct<T>(s: seq<T>) {
    forall i, j :: 0 <= i < j < |s| ==> s[i] != s[j]
  }

  ghost function AsSet<T>(s: seq<T>): set<T> { set x | x in s }

  // Repetitions are what the size of the set is short of the length.
  lemma {:induction false} AsSetSize<T>(s: seq<T>)
    ensures |AsSet(s)| <= |s|
    ensures |AsSet(s)| == |s| <==> Distinct(s)
  {
    if s != [] {
      var front, last := s[..|s| - 1], s[|s| - 1];
      AsSetSize(front);
      assert s == front + [last];
      assert AsSet(s) == AsSet(front) + {last};
      if last in front {
        var i :| 0 <= i < |front| && front[i] == last;
        assert s[i] == s[|s| - 1];
      }
    }
  }

  lemma SubsetSize<T>(a: set<T>, b: set<T>)
    requires a <= b
    ensures |a| <= |b|
  {
    assert b == a + (b - a);
  }

  lemma DistinctSize<T>(s: seq<T>, bound: set<T>)
    requires Distinct(s)
    requires forall x :: x in s ==> x in bound
    ensures |s| <= |bound|
  {
    if s != [] {
      var last := |s| - 1;
      DistinctSize(s[..last], bound - {s[last]});
    }
  }

  ghost function Below(n: nat): (r: set<int>)
    ensures |r| == n && forall x :: x in r <==> 0 <= x < n
  {
    if n == 0 then {} else Below(n - 1) + {n - 1}
  }

  lemma DistinctBytes(s: seq<u8>)
    requires Distinct(s)
    ensures |s| <= 256
  {
    var t: seq<int> := s;
    DistinctSize(t, Below(256));
  }
}
