/**
 NUL-terminated text: C strings, the "%u" conversion, and atoi.
 */
module Text {
  const NUL: char := '\0'

  predicate IsDigit(c: char) { '0' <= c <= '9' }

  lemma Assoc(a: string, b: string, c: string)
    ensures (a + b) + c == a + (b + c)
  {}

  lemma DropDrop(s: string, p: nat)
    requires p < |s|
    ensures s[p..][1..] == s[p + 1..] && s[p..][0] == s[p]
  {}

  // Length of the C string that starts at b[0].
  function StrLen(b: seq<char>): (k: nat)
    ensures k <= |b|
    ensures forall i :: 0 <= i < k ==> b[i] != NUL
    ensures k < |b| ==> b[k] == NUL
  {
    if b == [] || b[0] == NUL then 0 else 1 + StrLen(b[1..])
  }

  // The C string held by a buffer: everything before the first NUL.
  function CStr(b: seq<char>): (s: string)
    ensures NUL !in s
    ensures s <= b
  {
    b[..StrLen(b)]
  }

  lemma CStrIs(b: seq<char>, k: nat)
    requires k <= |b| && NUL !in b[..k]
    requires k == |b| || b[k] == NUL
    ensures CStr(b) == b[..k]
  {
    assert forall i :: 0 <= i < k ==> b[i] in b[..k];
  }

  lemma CStrSuffix(b: seq<char>, p: nat)
    requires p <= |CStr(b)|
    ensures CStr(b[p..]) == CStr(b)[p..]
  {
    var k := |CStr(b)|;
    assert b[p..][..k - p] == CStr(b)[p..];
    CStrIs(b[p..], k - p);
  }

  // Skipping ahead: the suffix from the first character in `stops`, or "".
  function DropTo(s: string, stops: string): (t: string)
    ensures |t| <= |s|
  {
    if s == [] || s[0] in stops then s else DropTo(s[1..], stops)
  }

  lemma DropToSkips(a: string, b: string, stops: string)
    requires forall c :: c in a ==> c !in stops
    ensures DropTo(a + b, stops) == DropTo(b, stops)
  {
    if a == [] {
      assert a + b == b;
    } else {
      assert (a + b)[1..] == a[1..] + b;
      DropToSkips(a[1..], b, stops);
    }
  }

  function Digit(d: nat): (c: char)
    requires d < 10
    ensures IsDigit(c) && c as int - '0' as int == d
  {
    '0' + d as char
  }

  // snprintf "%u"
  function Dec(n: nat): (s: string)
    ensures s != []
  {
    if n < 10 then [Digit(n)] else Dec(n / 10) + [Digit(n % 10)]
  }

  lemma {:induction false} DecDigits(n: nat)
    ensures forall c :: c in Dec(n) ==> IsDigit(c)
  {
    if n >= 10 { DecDigits(n / 10); }
  }

  lemma {:induction false} DecLength(n: nat)
    ensures n < 10 ==> |Dec(n)| == 1
    ensures n < 100 ==> |Dec(n)| <= 2
    ensures n < 1000 ==> |Dec(n)| <= 3
    ensures n < 0x1_0000 ==> |Dec(n)| <= 5
  {
    if n >= 10 {
      DecLength(n / 10);
      if n < 0x1_0000 { DecLength(n / 10 / 10); }
    }
  }

  // The value of the leading run of digits, on top of those already read.
  function DigitsValue(s: string, acc: nat): nat {
    if s == [] || !IsDigit(s[0]) then acc
    else DigitsValue(s[1..], 10 * acc + (s[0] as int - '0' as int))
  }

  predicate IsSpace(c: char) {
    c == ' ' || '\t' <= c <= '\r'
  }

  // atoi: white space, an optional sign, digits.
  function Atoi(s: string): int {
    if s == [] then 0
    else if IsSpace(s[0]) then Atoi(s[1..])
    else if s[0] == '-' then -(DigitsValue(s[1..], 0) as int)
    else if s[0] == '+' then DigitsValue(s[1..], 0)
    else DigitsValue(s, 0)
  }

  function Pow10(k: nat): nat { if k == 0 then 1 else 10 * Pow10(k - 1) }

  lemma {:induction false} DigitsValueDec(n: nat, rest: string, acc: nat)
    ensures DigitsValue(Dec(n) + rest, acc) == DigitsValue(rest, acc * Pow10(|Dec(n)|) + n)
  {
    if n < 10 {
      assert (Dec(n) + rest)[1..] == rest && (Dec(n) + rest)[0] == Digit(n);
      assert Pow10(1) == 10 * Pow10(0);
    } else {
      hide DigitsValue, Pow10;
      var d, k := Digit(n % 10), |Dec(n / 10)|;
      assert Dec(n) + rest == Dec(n / 10) + ([d] + rest);
      DigitsValueDec(n / 10, [d] + rest, acc);
      DigitsValueDigit(n % 10, rest, acc * Pow10(k) + n / 10);
      NextPower(acc, k, n);
    }
  }

  lemma DigitsValueDigit(d: nat, rest: string, acc: nat)
    requires d < 10
    ensures DigitsValue([Digit(d)] + rest, acc) == DigitsValue(rest, 10 * acc + d)
  {
    assert ([Digit(d)] + rest)[1..] == rest;
  }

  lemma NextPower(acc: nat, k: nat, n: nat)
    ensures 10 * (acc * Pow10(k) + n / 10) + n % 10 == acc * Pow10(k + 1) + n
  {
    assert Pow10(k + 1) == 10 * Pow10(k);
    assert 10 * (acc * Pow10(k)) == acc * (10 * Pow10(k));
  }

  // Reading back a printed number.
  lemma AtoiDec(n: nat, rest: string)
    requires rest == [] || !IsDigit(rest[0])
    ensures Atoi(Dec(n) + rest) == n
  {
    DecDigits(n);
    assert (Dec(n) + rest)[0] == Dec(n)[0] && Dec(n)[0] in Dec(n);
    DigitsValueDec(n, rest, 0);
  }

  // snprintf into buf at `at`, given `size` characters of room there.
  method Snprintf(buf: array<char>, at: nat, size: nat, text: string) returns (written: nat)
    requires 1 <= size && at + size <= buf.Length
    modifies buf
    ensures written == |text|
    ensures buf[..at] == old(buf[..at])
    ensures |text| < size ==> buf[..at + |text|] == old(buf[..at]) + text && buf[at + |text|] == NUL
    ensures |text| >= size ==>
              buf[..at + size - 1] == old(buf[..at]) + text[..size - 1] && buf[at + size - 1] == NUL
  {
    var k := if |text| < size then |text| else size - 1;
    var i := 0;
    while i < k
      invariant 0 <= i <= k
      invariant buf[..at] == old(buf[..at])
      invariant buf[..at + i] == old(buf[..at]) + text[..i]
    {
      buf[at + i] := text[i];
      i := i + 1;
    }
    buf[at + k] := NUL;
    assert text[..|text|] == text;
    written := |text|;
  }

  // buf[pos++] = c; buf[pos] = '\0';
  method PutChar(buf: array<char>, at: nat, c: char)
    requires at + 1 < buf.Length
    modifies buf
    ensures buf[..at + 1] == old(buf[..at]) + [c] && buf[at + 1] == NUL
  {
    buf[at] := c;
    buf[at + 1] := NUL;
  }

  // The array holds the C string s.
  ghost predicate Holds(buf: array<char>, s: string)
    reads buf
  {
    |s| < buf.Length && NUL !in s && buf[|s|] == NUL && forall i :: 0 <= i < |s| ==> buf[i] == s[i]
  }

  lemma HoldsCStr(buf: array<char>, s: string)
    requires Holds(buf, s)
    ensures CStr(buf[..]) == s
    ensures forall p :: 0 <= p <= |s| ==> CStr(buf[p..]) == s[p..]
  {
    assert buf[..][..|s|] == s;
    CStrIs(buf[..], |s|);
    forall p | 0 <= p <= |s| ensures CStr(buf[p..]) == s[p..] {
      CStrSuffix(buf[..], p);
      assert buf[..][p..] == buf[p..];
    }
  }

  lemma SliceIsCStr(buf: array<char>, len: nat, s: string)
    requires len < buf.Length && buf[..len] == s && buf[len] == NUL && NUL !in s
    ensures CStr(buf[..]) == s
  {
    assert buf[..][..len] == s;
    CStrIs(buf[..], len);
  }

  lemma CStrHolds(buf: array<char>)
    requires NUL in buf[..]
    ensures Holds(buf, CStr(buf[..]))
  {
    var k := StrLen(buf[..]);
    assert k < buf.Length;
  }

  // while(*p is not a stop && *p != NUL) p++
  method SkipTo(buf: array<char>, p: nat, stops: string, ghost s: string) returns (q: nat)
    requires Holds(buf, s) && p <= |s| && NUL !in stops
    ensures p <= q <= |s| && s[q..] == DropTo(s[p..], stops)
    ensures q == |s| || buf[q] in stops
  {
    q := p;
    while buf[q] !in stops && buf[q] != NUL
      invariant p <= q <= |s|
      invariant DropTo(s[q..], stops) == DropTo(s[p..], stops)
      decreases |s| - q
    {
      DropDrop(s, q);
      q := q + 1;
    }
  }
}
