/**
 Data packets on the air, "DST:<id>:<message>", and the message the generating
 mote puts inside, "SEQ:<seq>:<source>:Hi".
 */
module PacketText {
  import opened CInts
  import opened Text

  const DST_TAG := "DST:"
  const SEQ_TAG := "SEQ:"
  const MSG_SIZE: nat := 32        // char msg[32]
  const SEND_SIZE: nat := 41       // sizeof(send_buf) - 1

  // What a char msg[32] can hold.
  type Message = s: string | |s| < MSG_SIZE

  // What a receiver copies out of a payload into a buffer of `size` chars.
  function Received(payload: seq<char>, size: nat): (s: string)
    requires size > 0
    ensures |s| < size && NUL !in s
  {
    CStr(payload[..Min(|payload|, size - 1)])
  }

  function Clip(s: string, size: nat): (r: string)
    requires size > 0
    ensures |r| < size && r <= s
  {
    s[..Min(|s|, size - 1)]
  }

  function Prefix(dst: u8): (s: string)
    ensures 6 <= |s| <= 8
  {
    DecLength(dst);
    DST_TAG + Dec(dst) + ":"
  }

  function Wrap(dst: u8, msg: string): string { Prefix(dst) + msg }

  // The payload of the unicast: the snprintf text and one more character.
  function DataPayload(dst: u8, msg: string): seq<char> {
    Clip(Wrap(dst, msg), SEND_SIZE) + [NUL]
  }

  function Unwrap(msg: string, from: u8): (r: (u8, Message)) {
    if DST_TAG <= msg then
      (U8(Atoi(msg[4..])), Clip(AfterColon(msg[4..]), MSG_SIZE))
    else (from, Clip(msg, MSG_SIZE))
  }

  function AfterColon(s: string): (t: string)
    ensures |t| <= |s|
  {
    var r := DropTo(s, ":");
    if r != [] then r[1..] else r
  }

  // snprintf into msg[32]
  function SeqText(seqNum: u16, src: u8): (s: Message) {
    Clip(SEQ_TAG + Dec(seqNum) + ":" + Dec(src) + ":Hi", MSG_SIZE)
  }

  // What the sink reads: source (0 for none) and sequence number.
  function SinkFields(msg: string): (u8, u16) {
    var sp := if DST_TAG <= msg then AfterColon(msg[4..]) else msg;
    if SEQ_TAG <= sp then (U8(Atoi(AfterColon(sp[4..]))), U16(Atoi(sp[4..]))) else (0, 0)
  }

  // ---------- One hop ----------

  lemma ColonAfterNumber(n: nat, rest: string)
    ensures Atoi(Dec(n) + (":" + rest)) == n
    ensures AfterColon(Dec(n) + (":" + rest)) == rest
  {
    hide Dec, Atoi;
    DecDigits(n);
    AtoiDec(n, ":" + rest);
    DropToSkips(Dec(n), ":" + rest, ":");
    assert (":" + rest)[1..] == rest;
  }

  lemma PrefixShape(dst: u8)
    ensures NUL !in Prefix(dst)
    ensures forall rest :: Prefix(dst) + rest == DST_TAG + (Dec(dst) + (":" + rest))
  {
    hide Dec;
    DecDigits(dst);
    DecLength(dst);
    forall rest: string ensures Prefix(dst) + rest == DST_TAG + (Dec(dst) + (":" + rest)) {}
  }

  lemma UnwrapWrapped(dst: u8, body: string, from: u8)
    requires |body| < MSG_SIZE
    ensures Unwrap(Prefix(dst) + body, from) == (dst, body)
  {
    hide Dec, Atoi, AfterColon;
    PrefixShape(dst);
    var s := Prefix(dst) + body;
    assert s == DST_TAG + (Dec(dst) + (":" + body));
    assert s[4..] == Dec(dst) + (":" + body);
    ColonAfterNumber(dst, body);
    assert Clip(body, MSG_SIZE) == body;
  }

  lemma ReceivedData(dst: u8, msg: string)
    requires |msg| < MSG_SIZE && NUL !in msg
    ensures Received(DataPayload(dst, msg), MSG_SIZE) == Prefix(dst) + msg[..Min(|msg|, MSG_SIZE - 1 - |Prefix(dst)|)]
  {
    hide Dec, CStr, Prefix;
    PrefixShape(dst);
    var text := Prefix(dst) + msg;
    assert Clip(text, SEND_SIZE) == text;
    var p := DataPayload(dst, msg);
    var cut := p[..Min(|p|, MSG_SIZE - 1)];
    var k := Min(|text|, MSG_SIZE - 1);
    CStrIs(cut, k);
    assert cut[..k] == text[..k];
    assert text[..k] == Prefix(dst) + msg[..Min(|msg|, MSG_SIZE - 1 - |Prefix(dst)|)];
  }

  // One hop: the destination always survives; the message survives exactly
  // when the wrapped text fits the receiver's buffer.
  lemma HopRoundTrip(dst: u8, msg: string, from: u8)
    requires |msg| < MSG_SIZE && NUL !in msg
    ensures var r := Unwrap(Received(DataPayload(dst, msg), MSG_SIZE), from);
            && r.0 == dst
            && r.1 <= msg
            && (r.1 == msg <==> |Wrap(dst, msg)| < MSG_SIZE)
  {
    hide Dec, Received, DataPayload, Unwrap, Prefix;
    PrefixShape(dst);
    ReceivedData(dst, msg);
    var body := msg[..Min(|msg|, MSG_SIZE - 1 - |Prefix(dst)|)];
    UnwrapWrapped(dst, body, from);
  }

  // Any number of hops, each naming its own sender.
  function Travel(dst: u8, msg: string, hops: seq<u8>): (r: (u8, string))
    decreases |hops|
  {
    if hops == [] then (dst, msg)
    else var r := Unwrap(Received(DataPayload(dst, msg), MSG_SIZE), hops[0]); Travel(r.0, r.1, hops[1..])
  }

  // A packet that fits once is unchanged by any number of hops.
  lemma {:induction false} TravelUnchanged(dst: u8, msg: string, hops: seq<u8>)
    requires NUL !in msg && |Wrap(dst, msg)| < MSG_SIZE
    ensures Travel(dst, msg, hops) == (dst, msg)
  {
    hide Dec, Received, DataPayload, Unwrap;
    if hops != [] {
      HopRoundTrip(dst, msg, hops[0]);
      TravelUnchanged(dst, msg, hops[1..]);
    }
  }

  // ---------- Generated messages ----------

  lemma SeqTextShape(q: u16, src: u8)
    ensures SeqText(q, src) == SEQ_TAG + (Dec(q) + (":" + (Dec(src) + ":Hi")))
    ensures |SeqText(q, src)| <= 16 && NUL !in SeqText(q, src)
  {
    hide Dec;
    DecDigits(q);
    DecDigits(src);
    DecLength(q);
    DecLength(src);
    var s := SEQ_TAG + Dec(q) + ":" + Dec(src) + ":Hi";
    assert s == SEQ_TAG + (Dec(q) + (":" + (Dec(src) + ":Hi")));
    assert Clip(s, MSG_SIZE) == s;
  }

  lemma GeneratedFits(dst: u8, q: u16, src: u8)
    ensures |Wrap(dst, SeqText(q, src))| < MSG_SIZE
  {
    hide Dec, Prefix, SeqText;
    PrefixShape(dst);
    SeqTextShape(q, src);
  }

  // From the generating mote over any number of hops, the sink reads back the
  // sequence number and the source.
  lemma SinkReadsGenerated(dst: u8, q: u16, src: u8, hops: seq<u8>)
    ensures var r := Travel(dst, SeqText(q, src), hops);
            && r == (dst, SeqText(q, src))
            && SinkFields(Received(DataPayload(r.0, r.1), MSG_SIZE)) == (src, q)
  {
    hide Dec, Received, DataPayload, SeqText, Travel, Wrap, SinkFields;
    GeneratedFits(dst, q, src);
    SeqTextShape(q, src);
    TravelUnchanged(dst, SeqText(q, src), hops);
    SinkReadsHop(dst, q, src);
  }

  lemma SinkReadsHop(dst: u8, q: u16, src: u8)
    ensures SinkFields(Received(DataPayload(dst, SeqText(q, src)), MSG_SIZE)) == (src, q)
  {
    hide Dec, Received, DataPayload, SeqText, Atoi, AfterColon, Prefix;
    var m := SeqText(q, src);
    PrefixShape(dst);
    SeqTextShape(q, src);
    ReceivedData(dst, m);
    assert m[..|m|] == m;
    var s := Prefix(dst) + m;
    assert s == DST_TAG + (Dec(dst) + (":" + m));
    assert s[4..] == Dec(dst) + (":" + m);
    ColonAfterNumber(dst, m);
    assert m[4..] == Dec(q) + (":" + (Dec(src) + ":Hi"));
    ColonAfterNumber(q, Dec(src) + ":Hi");
    ColonAfterNumber(src, "Hi");
    assert ":" + "Hi" == ":Hi";
  }

  // Texts of other kinds: without a destination tag, the packet is for its
  // sender; a destination alone has an empty message; without a sequence tag, the
  // sink counts nothing; and it reads numbers of any size, with or without the
  // header, in 16 and 8 bits.
  lemma OtherTexts(msg: string, from: u8, n: nat, src: nat)
    ensures !(DST_TAG <= msg) && |msg| < MSG_SIZE ==> Unwrap(msg, from) == (from, msg)
    ensures Unwrap(DST_TAG + Dec(n), from) == (U8(n), "")
    ensures !(DST_TAG <= msg) && !(SEQ_TAG <= msg) ==> SinkFields(msg) == (0, 0)
    ensures SinkFields(SEQ_TAG + (Dec(n) + (":" + (Dec(src) + ":Hi")))) == (U8(src), U16(n))
  {
    hide Dec, Atoi, AfterColon;
    if |msg| < MSG_SIZE { assert msg[..|msg|] == msg; }
    DestinationAlone(n, from);
    var m := SEQ_TAG + (Dec(n) + (":" + (Dec(src) + ":Hi")));
    assert m[0] == 'S' && m[4..] == Dec(n) + (":" + (Dec(src) + ":Hi"));
    ColonAfterNumber(n, Dec(src) + ":Hi");
    ColonAfterNumber(src, "Hi");
    assert ":" + "Hi" == ":Hi";
  }

  lemma DestinationAlone(n: nat, from: u8)
    ensures Unwrap(DST_TAG + Dec(n), from) == (U8(n), "")
  {
    hide Dec, Atoi;
    var s := DST_TAG + Dec(n);
    assert s[4..] == Dec(n) && Dec(n) + "" == Dec(n);
    DecDigits(n);
    AtoiDec(n, "");
    DropToSkips(Dec(n), "", ":");
  }

  // The format, letter by letter.
  lemma PacketExample()
    ensures Wrap(17, SeqText(205, 8)) == "DST:17:SEQ:205:8:Hi"
    ensures DataPayload(17, SeqText(205, 8)) == "DST:17:SEQ:205:8:Hi" + [NUL]
  {
    hide SeqText;
    SeqTextShape(205, 8);
    assert Dec(17) == "17" && Dec(8) == "8";
    assert Dec(20) == "20";
    assert Dec(205) == "205";
  }

  // ---------- The receiving code ----------

  // memcpy into a local buffer and terminate it.
  method CopyIn(payload: seq<char>, size: nat) returns (buf: array<char>)
    requires size > 0
    ensures fresh(buf) && buf.Length == size && Holds(buf, Received(payload, size))
  {
    buf := new char[size];
    var len := if |payload| >= size then size - 1 else |payload|;
    var i := 0;
    while i < len
      invariant 0 <= i <= len
      invariant forall k :: 0 <= k < i ==> buf[k] == payload[k]
    {
      buf[i] := payload[i];
      i := i + 1;
    }
    buf[len] := NUL;
    var n := StrLen(payload[..len]);
  }

  // The four character comparisons behind the tags.
  lemma TagAt(s: string, tag: string)
    requires |tag| == 4
    ensures tag <= s <==> |s| >= 4 && s[0] == tag[0] && s[1] == tag[1] && s[2] == tag[2] && s[3] == tag[3]
  {}

  method StartsWith(buf: array<char>, p: nat, tag: string, ghost s: string) returns (b: bool)
    requires Holds(buf, s) && p <= |s| && |tag| == 4 && NUL !in tag
    ensures b <==> tag <= s[p..]
  {
    TagAt(s[p..], tag);
    var i := 0;
    while i < 4 && buf[p + i] == tag[i]
      invariant 0 <= i <= 4 && p + i <= |s|
      invariant forall k :: 0 <= k < i ==> s[p + k] == tag[k]
    {
      assert buf[p + i] != NUL;
      i := i + 1;
    }
    b := i == 4;
  }

  // Skip past the next ':'.
  method SkipColon(buf: array<char>, p: nat, ghost s: string) returns (q: nat)
    requires Holds(buf, s) && p <= |s|
    ensures p <= q <= |s| && s[q..] == AfterColon(s[p..])
  {
    q := SkipTo(buf, p, ":", s);
    if buf[q] == ':' {
      DropDrop(s, q);
      q := q + 1;
    }
  }

  // The header branch of recv_uc: destination and stored message.
  method ReadHeader(buf: array<char>, from: u8, ghost s: string) returns (dst: u8, msg: Message)
    requires Holds(buf, s)
    ensures (dst, msg) == Unwrap(s, from)
  {
    hide Atoi, DropTo, CStr, StrLen, AfterColon;
    HoldsCStr(buf, s);
    assert s[0..] == s;
    dst := from;
    var p2 := 0;
    var tagged := StartsWith(buf, 0, DST_TAG, s);
    if tagged {
      dst := U8(Atoi(CStr(buf[4..])));
      p2 := SkipColon(buf, 4, s);
    }
    msg := Clip(CStr(buf[p2..]), MSG_SIZE);
  }

  // The sink branch of recv_uc.
  method ReadSinkFields(buf: array<char>, ghost s: string) returns (src: u8, seqNum: u16)
    requires Holds(buf, s)
    ensures (src, seqNum) == SinkFields(s)
  {
    hide Atoi, DropTo, CStr, StrLen, AfterColon;
    HoldsCStr(buf, s);
    assert s[0..] == s;
    src, seqNum := 0, 0;
    var sp := 0;
    var tagged := StartsWith(buf, sp, DST_TAG, s);
    if tagged { sp := SkipColon(buf, 4, s); }
    tagged := StartsWith(buf, sp, SEQ_TAG, s);
    if tagged {
      assert s[sp..][4..] == s[sp + 4..];
      sp := sp + 4;
      seqNum := U16(Atoi(CStr(buf[sp..])));
      sp := SkipColon(buf, sp, s);
      src := U8(Atoi(CStr(buf[sp..])));
    }
  }
}
