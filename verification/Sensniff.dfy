/**
 The sensniff command parser: a byte-by-byte state machine fed from a queue
 and reset by a timeout.
 */
module Sensniff {
  import opened CInts

  const MAGIC: seq<u8> := [0xC1, 0x1F, 0xFE, 0x72]
  const PROTOCOL_VERSION: u8 := 2
  const CMD_GET_CHANNEL: u8 := 0x81
  const CMD_GET_CHANNEL_MIN: u8 := 0x82
  const CMD_GET_CHANNEL_MAX: u8 := 0x83

  datatype State = WaitMagic | WaitVersion | WaitCmd | WaitLen1 | WaitLen2 | WaitData

  datatype Command = Command(cmd: u8, len: u16, data: u8)

  datatype Parser = Parser(state: State, inCt: u8, command: Command)

  // What reaches the parser: received bytes, and timeouts between them.
  datatype Event = Byte(b: u8) | Timeout

  const RESET := Parser(WaitMagic, 0, Command(0, 0, 0))

  predicate IsGet(cmd: u8) {
    cmd == CMD_GET_CHANNEL || cmd == CMD_GET_CHANNEL_MIN || cmd == CMD_GET_CHANNEL_MAX
  }

  // One byte; the second part is the command executed, if any.
  function OnByte(p: Parser, b: u8): (r: (Parser, seq<Command>))
    requires p.inCt < 4
  {
    match p.state
    case WaitMagic =>
      if b != MAGIC[p.inCt] then (RESET, [])
      else if p.inCt + 1 == 4 then (p.(state := WaitVersion, inCt := 0), [])
      else (p.(inCt := p.inCt + 1), [])
    case WaitVersion => if b == PROTOCOL_VERSION then (p.(state := WaitCmd), []) else (RESET, [])
    case WaitCmd =>
      var c := p.command.(cmd := b);
      if IsGet(b) then (RESET, [c]) else (p.(state := WaitLen1, command := c), [])
    case WaitLen1 => (p.(state := WaitLen2, command := p.command.(len := U16(b * 0x100))), [])
    case WaitLen2 =>
      // command.len holds b << 8 from the byte before, so |= is +.
      var len := U16(p.command.len + b);
      if len == 1 then (p.(state := WaitData, command := p.command.(len := len)), []) else (RESET, [])
    case WaitData => (RESET, [p.command.(data := b)])
  }

  function OnEvent(p: Parser, e: Event): (Parser, seq<Command>)
    requires p.inCt < 4
  {
    match e case Byte(b) => OnByte(p, b) case Timeout => (RESET, [])
  }

  // The parser and the log of executed commands after a list of events.
  function Run(es: seq<Event>): (r: (Parser, seq<Command>))
    ensures r.0.inCt < 4 && (r.0.state != WaitMagic ==> r.0.inCt == 0)
    ensures r.0.state == WaitLen2 ==> r.0.command.len % 0x100 == 0
  {
    if es == [] then (RESET, []) else
    var (p, log) := Run(es[..|es| - 1]);
    var (p', c) := OnEvent(p, es[|es| - 1]);
    (p', log + c)
  }

  // ---------- The program ----------

  class Process {
    var state: State
    var inCt: u8
    var command: Command
    var executed: seq<Command>   // calls of execute_command, in order

    constructor ()
      ensures Current() == RESET && executed == []
    {
      state, inCt, command, executed := WaitMagic, 0, Command(0, 0, 0), [];
    }

    ghost function Current(): Parser
      reads this
    {
      Parser(state, inCt, command)
    }

    method ResetState()
      modifies this
      ensures Current() == RESET && executed == old(executed)
    {
      state, inCt, command := WaitMagic, 0, Command(0, 0, 0);
    }

    method ExecuteCommand()
      modifies this`executed
      ensures executed == old(executed) + [command]
    {
      executed := executed + [command];
    }

    // process_incoming_data, on the bytes queued at the time of the poll.
    method ProcessIncomingData(rxbuf: seq<u8>, ghost seen: seq<Event>)
      requires (Current(), executed) == Run(seen)
      modifies this
      ensures (Current(), executed) == Run(seen + Bytes(rxbuf))
    {
      var i := 0;
      assert Bytes(rxbuf[..0]) == [] && seen + [] == seen;
      while i < |rxbuf|
        invariant 0 <= i <= |rxbuf|
        invariant (Current(), executed) == Run(seen + Bytes(rxbuf[..i]))
      {
        RunSnoc(seen + Bytes(rxbuf[..i]), Byte(rxbuf[i]));
        BytesSnoc(seen, rxbuf, i);
        hide Run;
        ProcessByte(rxbuf[i]);
        i := i + 1;
      }
      assert rxbuf[..i] == rxbuf;
    }

    method ProcessByte(byteIn: u8)
      requires inCt < 4 && (state == WaitLen2 ==> command.len % 0x100 == 0)
      modifies this
      ensures var (next, ran) := OnByte(old(Current()), byteIn);
              Current() == next && executed == old(executed) + ran
    {
      assert old(executed) + [] == executed;
      match state {
        case WaitMagic =>
          if byteIn == MAGIC[inCt] {
            inCt := inCt + 1;
            if inCt == 4 { state, inCt := WaitVersion, 0; }
          } else {
            ResetState();
          }
        case WaitVersion =>
          if byteIn == PROTOCOL_VERSION { state := WaitCmd; } else { ResetState(); }
        case WaitCmd =>
          command := command.(cmd := byteIn);
          if command.cmd == CMD_GET_CHANNEL || command.cmd == CMD_GET_CHANNEL_MIN
             || command.cmd == CMD_GET_CHANNEL_MAX {
            ExecuteCommand();
            ResetState();
          } else {
            state := WaitLen1;
          }
        case WaitLen1 =>
          command := command.(len := U16(byteIn * 0x100));
          state := WaitLen2;
        case WaitLen2 =>
          command := command.(len := U16(command.len + byteIn));
          if command.len == 1 { state := WaitData; } else { ResetState(); }
        case WaitData =>
          command := command.(data := byteIn);
          ExecuteCommand();
          ResetState();
      }
    }

    // The ctimer callback.
    method TimeoutExpired(ghost seen: seq<Event>)
      requires (Current(), executed) == Run(seen)
      modifies this
      ensures (Current(), executed) == Run(seen + [Timeout])
    {
      RunSnoc(seen, Timeout);
      assert Run(seen).1 + [] == executed;
      ResetState();
    }
  }

  function Bytes(bs: seq<u8>): (es: seq<Event>)
    ensures |es| == |bs| && forall i :: 0 <= i < |bs| ==> es[i] == Byte(bs[i])
  {
    seq(|bs|, i requires 0 <= i < |bs| => Byte(bs[i]))
  }

  lemma RunSnoc(es: seq<Event>, e: Event)
    ensures Run(es + [e]) == (OnEvent(Run(es).0, e).0, Run(es).1 + OnEvent(Run(es).0, e).1)
  {
    assert (es + [e])[..|es + [e]| - 1] == es;
  }

  lemma BytesSnoc(seen: seq<Event>, bs: seq<u8>, i: nat)
    requires i < |bs|
    ensures (seen + Bytes(bs[..i])) + [Byte(bs[i])] == seen + Bytes(bs[..i + 1])
  {}

  // ---------- Requests ----------

  // A well-formed request, and what executing it means.
  datatype Request = Get(cmd: u8) | Other(cmd: u8, data: u8) {
    predicate Valid() { Get? <==> cmd in {0x81, 0x82, 0x83} }
    function Encode(): (bs: seq<u8>)
      ensures 6 <= |bs| <= 9
    {
      MAGIC + [PROTOCOL_VERSION, cmd] + (if Get? then [] else [0, 1, data])
    }
    function Meaning(): Command { if Get? then Command(cmd, 0, 0) else Command(cmd, 1, data) }
  }

  function Feed(p: Parser, bs: seq<u8>): (r: (Parser, seq<Command>))
    requires p.inCt < 4
    decreases |bs|
  {
    if bs == [] then (p, []) else
    var (p', c) := OnByte(p, bs[0]);
    var (q, d) := Feed(p', bs[1..]);
    (q, c + d)
  }

  lemma AssocLog(a: seq<Command>, b: seq<Command>, c: seq<Command>)
    ensures (a + b) + c == a + (b + c)
  {}

  lemma {:induction false} FeedConcat(p: Parser, a: seq<u8>, b: seq<u8>)
    requires p.inCt < 4
    ensures Feed(p, a).0.inCt < 4
    ensures Feed(p, a + b) == (Feed(Feed(p, a).0, b).0, Feed(p, a).1 + Feed(Feed(p, a).0, b).1)
    decreases |a|
  {
    if a == [] {
      assert a + b == b;
      assert [] + Feed(p, b).1 == Feed(p, b).1;
    } else {
      assert (a + b)[0] == a[0] && (a + b)[1..] == a[1..] + b;
      var (q, c) := OnByte(p, a[0]);
      FeedConcat(q, a[1..], b);
      AssocLog(c, Feed(q, a[1..]).1, Feed(Feed(q, a[1..]).0, b).1);
    }
  }

  lemma {:induction false} RunIsFeed(es: seq<Event>, bs: seq<u8>)
    ensures Run(es + Bytes(bs)) == (Feed(Run(es).0, bs).0, Run(es).1 + Feed(Run(es).0, bs).1)
    decreases |bs|
  {
    if bs == [] {
      assert es + Bytes(bs) == es && Run(es).1 + [] == Run(es).1;
    } else {
      var front, last := bs[..|bs| - 1], bs[|bs| - 1];
      RunIsFeed(es, front);
      assert es + Bytes(bs) == (es + Bytes(front)) + [Byte(last)];
      RunSnoc(es + Bytes(front), Byte(last));
      FeedConcat(Run(es).0, front, [last]);
      assert front + [last] == bs;
      var mid := Feed(Run(es).0, front);
      FeedOne(mid.0, last);
      AssocLog(Run(es).1, mid.1, OnByte(mid.0, last).1);
    }
  }

  lemma FeedOne(p: Parser, b: u8)
    requires p.inCt < 4
    ensures Feed(p, [b]) == OnByte(p, b)
  {
    assert [b][1..] == [];
    assert OnByte(p, b).1 + [] == OnByte(p, b).1;
  }

  // One request, from the reset state, executes once and resets.
  lemma FeedRequest(r: Request)
    requires r.Valid()
    ensures Feed(RESET, r.Encode()) == (RESET, [r.Meaning()])
  {
    var bs := r.Encode();
    var p2 := RESET.(inCt := 2);
    var p4 := RESET.(state := WaitVersion);
    var p5 := RESET.(state := WaitCmd);
    FeedTwo(RESET, RESET.(inCt := 1), p2, bs);
    FeedTwo(p2, RESET.(inCt := 3), p4, bs[2..]);
    assert bs[2..][2..] == bs[4..];
    assert forall log: seq<Command> :: [] + log == log;
    FeedBody(r, bs[4..]);
  }

  // The part behind the magic.
  lemma FeedBody(r: Request, bs: seq<u8>)
    requires r.Valid() && bs == [PROTOCOL_VERSION, r.cmd] + (if r.Get? then [] else [0, 1, r.data])
    ensures Feed(RESET.(state := WaitVersion), bs) == (RESET, [r.Meaning()])
  {
    var p4 := RESET.(state := WaitVersion);
    var p5 := RESET.(state := WaitCmd);
    assert forall log: seq<Command> :: [] + log == log && log + [] == log;
    if r.Get? {
      assert bs[2..] == [];
      FeedTwo(p4, p5, RESET, bs);
    } else {
      var c := Command(r.cmd, 0, 0);
      assert bs[2..] == [0, 1, r.data] && [0, 1, r.data][2..] == [r.data];
      FeedTwo(p4, p5, Parser(WaitLen1, 0, c), bs);
      FeedTwo(Parser(WaitLen1, 0, c), Parser(WaitLen2, 0, c), Parser(WaitData, 0, c.(len := 1)), [0, 1, r.data]);
      FeedOne(Parser(WaitData, 0, c.(len := 1)), r.data);
    }
  }

  lemma FeedTwo(p: Parser, q: Parser, r: Parser, bs: seq<u8>)
    requires p.inCt < 4 && q.inCt < 4 && r.inCt < 4 && |bs| >= 2
    requires OnByte(p, bs[0]) == (q, []) && OnByte(q, bs[1]).0 == r
    ensures Feed(p, bs) == (Feed(r, bs[2..]).0, OnByte(q, bs[1]).1 + Feed(r, bs[2..]).1)
  {
    hide OnByte;
    assert bs[1..][0] == bs[1] && bs[1..][1..] == bs[2..];
    var c, d := OnByte(q, bs[1]).1, Feed(r, bs[2..]).1;
    assert Feed(q, bs[1..]) == (Feed(r, bs[2..]).0, c + d);
    assert [] + (c + d) == c + d;
  }

  function EncodeAll(rs: seq<Request>): seq<u8> {
    if rs == [] then [] else rs[0].Encode() + EncodeAll(rs[1..])
  }

  function Meanings(rs: seq<Request>): (cs: seq<Command>)
    ensures |cs| == |rs| && forall i :: 0 <= i < |rs| ==> cs[i] == rs[i].Meaning()
  {
    seq(|rs|, i requires 0 <= i < |rs| => rs[i].Meaning())
  }

  lemma {:induction false} FeedAll(rs: seq<Request>)
    requires forall r :: r in rs ==> r.Valid()
    ensures Feed(RESET, EncodeAll(rs)) == (RESET, Meanings(rs))
  {
    if rs != [] {
      FeedRequest(rs[0]);
      FeedAll(rs[1..]);
      FeedConcat(RESET, rs[0].Encode(), EncodeAll(rs[1..]));
      assert Meanings(rs) == [rs[0].Meaning()] + Meanings(rs[1..]);
    }
  }

  function Flatten(batches: seq<seq<u8>>): seq<u8> {
    if batches == [] then [] else batches[0] + Flatten(batches[1..])
  }

  // Completeness: from the reset state, any requests, however the bytes are
  // split into polls, execute in order, each once, with their data, and leave
  // the parser reset.
  lemma RequestsExecute(seen: seq<Event>, rs: seq<Request>, batches: seq<seq<u8>>)
    requires Run(seen).0 == RESET && (forall r :: r in rs ==> r.Valid())
    requires Flatten(batches) == EncodeAll(rs)
    ensures Run(seen + Bytes(Flatten(batches))) == (RESET, Run(seen).1 + Meanings(rs))
  {
    RunIsFeed(seen, EncodeAll(rs));
    FeedAll(rs);
  }

  // The polls themselves, one after the other.
  method ProcessBatches(p: Process, batches: seq<seq<u8>>, ghost seen: seq<Event>)
    requires (p.Current(), p.executed) == Run(seen)
    modifies p
    ensures (p.Current(), p.executed) == Run(seen + Bytes(Flatten(batches)))
    decreases |batches|
  {
    if batches != [] {
      p.ProcessIncomingData(batches[0], seen);
      ProcessBatches(p, batches[1..], seen + Bytes(batches[0]));
      assert (seen + Bytes(batches[0])) + Bytes(Flatten(batches[1..])) == seen + Bytes(Flatten(batches));
    } else {
      assert seen + Bytes([]) == seen;
    }
  }

  // ---------- Soundness ----------

  // The bytes of the request in progress, as the state remembers them.
  function Partial(p: Parser): (bs: seq<u8>)
    requires p.inCt < 4
  {
    match p.state
    case WaitMagic => MAGIC[..p.inCt]
    case WaitVersion => MAGIC
    case WaitCmd => MAGIC + [PROTOCOL_VERSION]
    case WaitLen1 => MAGIC + [PROTOCOL_VERSION, p.command.cmd]
    case WaitLen2 => MAGIC + [PROTOCOL_VERSION, p.command.cmd, (p.command.len / 0x100) as u8]
    case WaitData => MAGIC + [PROTOCOL_VERSION, p.command.cmd, 0, 1]
  }

  // Where each executed request sits in the event list.
  datatype Span = Span(start: nat, request: Request)

  ghost predicate InPlace(es: seq<Event>, sp: Span) {
    && sp.request.Valid() && sp.start + |sp.request.Encode()| <= |es|
    && es[sp.start..sp.start + |sp.request.Encode()|] == Bytes(sp.request.Encode())
  }

  function End(sp: Span): nat { sp.start + |sp.request.Encode()| }

  // The executed commands are those of complete requests, contiguous in the
  // stream, in order and without overlap; the rest of the request in
  // progress ends the stream, behind the last of them.
  ghost predicate Explains(es: seq<Event>, spans: seq<Span>, p: Parser, log: seq<Command>)
    requires p.inCt < 4
  {
    && |spans| == |log|
    && (forall i :: 0 <= i < |spans| ==> InPlace(es, spans[i]) && spans[i].request.Meaning() == log[i])
    && (forall i :: 0 <= i < |spans| - 1 ==> End(spans[i]) <= spans[i + 1].start)
    && |Partial(p)| <= |es| && es[|es| - |Partial(p)|..] == Bytes(Partial(p))
    && (spans != [] ==> End(spans[|spans| - 1]) <= |es| - |Partial(p)|)
  }

  ghost predicate ParserOk(p: Parser) {
    && p.inCt < 4 && (p.state != WaitMagic ==> p.inCt == 0)
    && match p.state
       case WaitMagic | WaitVersion | WaitCmd => p.command == Command(0, 0, 0)
       case WaitLen1 => p.command == Command(p.command.cmd, 0, 0) && !IsGet(p.command.cmd)
       case WaitLen2 => p.command.data == 0 && p.command.len % 0x100 == 0 && !IsGet(p.command.cmd)
       case WaitData => p.command == Command(p.command.cmd, 1, 0) && !IsGet(p.command.cmd)
  }

  // A byte either extends the request in progress, completes it, or drops it.
  lemma ByteCases(p: Parser, b: u8)
    requires ParserOk(p)
    ensures ParserOk(OnByte(p, b).0)
    ensures var (q, c) := OnByte(p, b);
            || (c == [] && Partial(q) == Partial(p) + [b])
            || (c == [] && q == RESET)
            || (q == RESET && exists r: Request :: r.Valid() && r.Encode() == Partial(p) + [b] && c == [r.Meaning()])
  {
    var (q, c) := OnByte(p, b);
    match p.state {
      case WaitMagic => if p.inCt < 3 { assert MAGIC[..p.inCt] + [MAGIC[p.inCt]] == MAGIC[..p.inCt + 1]; }
      case WaitVersion =>
      case WaitCmd =>
        if IsGet(b) {
          var r := Get(b);
          assert r.Encode() == Partial(p) + [b] && c == [r.Meaning()];
        }
      case WaitLen1 => assert (b * 0x100) / 0x100 == b;
      case WaitLen2 =>
        if q != RESET { assert p.command.len == 0 && b == 1; }
      case WaitData =>
        var r := Other(p.command.cmd, b);
        assert r.Encode() == Partial(p) + [b] && c == [r.Meaning()];
    }
  }

  lemma SpansStay(es: seq<Event>, e: Event, spans: seq<Span>)
    requires forall i :: 0 <= i < |spans| ==> InPlace(es, spans[i])
    ensures forall i :: 0 <= i < |spans| ==> InPlace(es + [e], spans[i])
  {
    forall i | 0 <= i < |spans| ensures InPlace(es + [e], spans[i]) {
      var sp := spans[i];
      assert (es + [e])[sp.start..End(sp)] == es[sp.start..End(sp)];
    }
  }

  lemma ByteExplained(front: seq<Event>, b: u8, before: seq<Span>, p: Parser, log: seq<Command>)
    returns (spans: seq<Span>)
    requires ParserOk(p) && Explains(front, before, p, log)
    ensures ParserOk(OnByte(p, b).0)
    ensures Explains(front + [Byte(b)], spans, OnByte(p, b).0, log + OnByte(p, b).1)
  {
    hide InPlace, Partial, OnByte, ParserOk;
    ByteCases(p, b);
    OkCount(p);
    var (q, c) := OnByte(p, b);
    OkCount(q);
    PartialOfReset();
    if c != [] {
      var r: Request :| r.Valid() && r.Encode() == Partial(p) + [b] && c == [r.Meaning()];
      spans := Completed(front, b, before, p, log, r);
    } else {
      assert log + c == log;
      Extended(front, b, before, p, log, q);
      spans := before;
    }
  }

  lemma OkCount(p: Parser)
    requires ParserOk(p)
    ensures p.inCt < 4
  {}

  lemma PartialOfReset()
    ensures Partial(RESET) == []
  {}

  // The request in progress is complete.
  lemma Completed(front: seq<Event>, b: u8, before: seq<Span>, p: Parser, log: seq<Command>, r: Request)
    returns (spans: seq<Span>)
    requires p.inCt < 4 && Explains(front, before, p, log)
    requires r.Valid() && r.Encode() == Partial(p) + [b]
    ensures Explains(front + [Byte(b)], spans, RESET, log + [r.Meaning()])
  {
    hide InPlace, Partial, Request.Encode, Request.Valid, Request.Meaning;
    var es, k := front + [Byte(b)], |front| - |Partial(p)|;
    SpansStay(front, Byte(b), before);
    PartialStays(front, b, Partial(p));
    PartialOfReset();
    SpanHere(es, k, r);
    spans := before + [Span(k, r)];
    assert es[|es|..] == Bytes([]);
  }

  // The byte extends the request in progress, or drops it.
  lemma Extended(front: seq<Event>, b: u8, spans: seq<Span>, p: Parser, log: seq<Command>, q: Parser)
    requires p.inCt < 4 && q.inCt < 4 && Explains(front, spans, p, log)
    requires Partial(q) == Partial(p) + [b] || Partial(q) == []
    ensures Explains(front + [Byte(b)], spans, q, log)
  {
    hide InPlace, Partial, Request.Encode, Request.Valid, Request.Meaning;
    var es := front + [Byte(b)];
    SpansStay(front, Byte(b), spans);
    PartialStays(front, b, Partial(p));
    if Partial(q) == [] { assert es[|es|..] == Bytes([]); }
  }

  lemma PartialStays(front: seq<Event>, b: u8, part: seq<u8>)
    requires |part| <= |front| && front[|front| - |part|..] == Bytes(part)
    ensures (front + [Byte(b)])[|front| - |part|..] == Bytes(part + [b])
  {
    var es, k := front + [Byte(b)], |front| - |part|;
    forall i | 0 <= i < |part| ensures es[k..][i] == Byte(part[i]) {
      assert front[k..][i] == Bytes(part)[i];
    }
  }

  lemma SpanHere(es: seq<Event>, k: nat, r: Request)
    requires k <= |es| && r.Valid() && es[k..] == Bytes(r.Encode())
    ensures InPlace(es, Span(k, r))
  {
    assert |es[k..]| == |r.Encode()|;
    assert es[k..k + |r.Encode()|] == es[k..];
  }

  lemma TimeoutExplained(front: seq<Event>, spans: seq<Span>, p: Parser, log: seq<Command>)
    requires ParserOk(p) && Explains(front, spans, p, log)
    ensures Explains(front + [Timeout], spans, RESET, log)
  {
    hide InPlace;
    SpansStay(front, Timeout, spans);
  }

  // Soundness, over every stream with timeouts anywhere.
  lemma {:induction false} OnlyRequestsExecute(es: seq<Event>) returns (spans: seq<Span>)
    ensures ParserOk(Run(es).0) && Explains(es, spans, Run(es).0, Run(es).1)
  {
    if es == [] {
      spans := [];
    } else {
      var front, e := es[..|es| - 1], es[|es| - 1];
      var before := OnlyRequestsExecute(front);
      assert es == front + [e];
      RunSnoc(front, e);
      hide Run, Explains, OnByte, ParserOk;
      if e.Byte? {
        spans := ByteExplained(front, e.b, before, Run(front).0, Run(front).1);
      } else {
        TimeoutExplained(front, before, Run(front).0, Run(front).1);
        ResetOk();
        assert Run(front).1 + [] == Run(front).1;
        spans := before;
      }
    }
  }

  lemma ResetOk()
    ensures ParserOk(RESET)
  {}

  // ---------- Resynchronisation ----------

  // Four bytes of magic in any other state are lost.
  lemma MagicLost(p: Parser)
    requires ParserOk(p) && p != RESET
    ensures Feed(p, MAGIC) == (RESET, if p.state == WaitData then [p.command.(data := 0xC1)] else [])
  {
    hide Feed, OnByte;
    assert MAGIC == [0xC1] + [0x1F, 0xFE, 0x72];
    FeedConcat(p, [0xC1], [0x1F, 0xFE, 0x72]);
    FeedOne(p, 0xC1);
    FirstMagicLost(p);
    RestLost();
    assert OnByte(p, 0xC1).1 + [] == OnByte(p, 0xC1).1;
  }

  // The first byte resets the parser, or the next two do.
  lemma FirstMagicLost(p: Parser)
    requires ParserOk(p) && p != RESET
    ensures OnByte(p, 0xC1).1 == if p.state == WaitData then [p.command.(data := 0xC1)] else []
    ensures var q := OnByte(p, 0xC1).0;
            OutOfStep(q)
  {}

  // Where the first lost byte can leave the parser.
  predicate OutOfStep(q: Parser) {
    || q == RESET
    || (q.state == WaitLen1 && q.inCt == 0)
    || (q.state == WaitLen2 && q.inCt == 0 && q.command.len == 0xC100)
  }

  lemma RestLost()
    ensures forall q: Parser :: OutOfStep(q) ==> Feed(q, [0x1F, 0xFE, 0x72]) == (RESET, [])
  {
    forall q: Parser | OutOfStep(q)
      ensures Feed(q, [0x1F, 0xFE, 0x72]) == (RESET, [])
    {
      var bs: seq<u8> := [0x1F, 0xFE, 0x72];
      assert bs[1..] == [0xFE, 0x72] && bs[2..] == [0x72];
      FeedOne(RESET, 0x72);
      FeedTwo(q, OnByte(q, 0x1F).0, RESET, bs);
      assert [] + Feed(RESET, [0x72]).1 == [];
    }
  }

  // From the reset state, a byte other than the first magic one is dropped.
  lemma StrayByte(b: u8)
    ensures OnByte(RESET, b) == (if b == 0xC1 then RESET.(inCt := 1) else RESET, [])
    ensures b != 0x1F ==> OnByte(RESET.(inCt := 1), b) == (RESET, [])
  {}

  // The rest of a request whose magic was lost executes nothing.
  lemma BodyLost(bs: seq<u8>, p: Parser, last: u8)
    requires p == RESET || p == RESET.(inCt := 1)
    requires bs == [PROTOCOL_VERSION, last] || (bs == [0, 1, last])
    ensures Feed(p, bs) == (if last == 0xC1 then RESET.(inCt := 1) else RESET, [])
  {
    StrayByte(last);
    StrayByte(0);
    StrayByte(1);
    StrayByte(2);
    FeedTwo(p, RESET, OnByte(RESET, bs[1]).0, bs);
    if |bs| == 3 {
      assert bs[2..] == [last];
      FeedOne(RESET, last);
    } else {
      assert bs[2..] == [];
    }
    assert forall log: seq<Command> :: [] + log == log && log + [] == log;
  }

  // A request is executed and consumed exactly when the parser is in its
  // reset state as the request begins: a parser out of step drops bytes, never
  // looks at them again, and so loses the whole request.
  lemma RequestSeenIff(p: Parser, r: Request)
    requires ParserOk(p) && r.Valid()
    ensures Feed(p, r.Encode()) == (RESET, [r.Meaning()]) <==> p == RESET
  {
    if p == RESET {
      FeedRequest(r);
    } else {
      var log := if p.state == WaitData then [p.command.(data := 0xC1)] else [];
      var head, tail := [PROTOCOL_VERSION, r.cmd], if r.Get? then [] else [0, 1, r.data];
      var mid := if r.cmd == 0xC1 then RESET.(inCt := 1) else RESET;
      assert r.Encode() == MAGIC + (head + tail);
      MagicLost(p);
      BodyLost(head, RESET, r.cmd);
      if r.Other? { BodyLost(tail, mid, r.data); }
      hide OnByte, Feed;
      FeedNothing(mid);
      FeedConcat(p, MAGIC, head + tail);
      FeedConcat(RESET, head, tail);
      assert [] + Feed(mid, tail).1 == Feed(mid, tail).1 && log + [] == log;
      assert Feed(p, r.Encode()).1 == log;
    }
  }

  lemma FeedNothing(p: Parser)
    requires p.inCt < 4
    ensures Feed(p, []) == (p, [])
  {}

  // ---------- Every stream of bytes ----------

  // The bytes of a command: three commands have no data, all others have one
  // byte of it.
  lemma CommandBytes(cmd: u8, d: u8)
    ensures Feed(RESET, [0xC1, 0x1F, 0xFE, 0x72, 2, cmd]) == (RESET, [Command(cmd, 0, 0)])
            <==> cmd in {0x81, 0x82, 0x83}
    ensures cmd !in {0x81, 0x82, 0x83} ==>
              Feed(RESET, [0xC1, 0x1F, 0xFE, 0x72, 2, cmd, 0, 1, d]) == (RESET, [Command(cmd, 1, d)])
  {
    hide Feed, OnByte, IsGet;
    var head := [0xC1, 0x1F, 0xFE, 0x72, 2, cmd];
    if cmd in {0x81, 0x82, 0x83} {
      FeedRequest(Get(cmd));
      assert Get(cmd).Encode() == head;
    } else {
      FeedRequest(Other(cmd, d));
      assert Other(cmd, d).Encode() == [0xC1, 0x1F, 0xFE, 0x72, 2, cmd, 0, 1, d];
      HeadWaits(cmd);
      assert head == MAGIC + [PROTOCOL_VERSION, cmd];
    }
  }

  // What the parser throws away: a wrong byte in the magic or for the version,
  // or a whole header with a length other than one, up to the offending byte.
  predicate Malformed(bs: seq<u8>) {
    || (1 <= |bs| <= 4 && bs[..|bs| - 1] == MAGIC[..|bs| - 1] && bs[|bs| - 1] != MAGIC[|bs| - 1])
    || (|bs| == 5 && bs[..4] == MAGIC && bs[4] != 2)
    || (|bs| == 8 && bs[..5] == MAGIC + [2] && bs[5] !in {0x81, 0x82, 0x83} && !(bs[6] == 0 && bs[7] == 1))
  }

  datatype Frame = Good(request: Request) | Bad(bytes: seq<u8>) {
    predicate Valid() { if Good? then request.Valid() else Malformed(bytes) }
    function Encode(): seq<u8> { if Good? then request.Encode() else bytes }
    function Executes(): seq<Command> { if Good? then [request.Meaning()] else [] }
  }

  function Encoded(fs: seq<Frame>): seq<u8> {
    if fs == [] then [] else Encoded(fs[..|fs| - 1]) + fs[|fs| - 1].Encode()
  }

  function Executed(fs: seq<Frame>): seq<Command> {
    if fs == [] then [] else Executed(fs[..|fs| - 1]) + fs[|fs| - 1].Executes()
  }

  lemma AfterMagic(k: nat)
    requires k <= 4
    ensures Feed(RESET, MAGIC[..k]) == (if k < 4 then RESET.(inCt := k) else RESET.(state := WaitVersion), [])
  {
    if k > 0 {
      AfterMagic(k - 1);
      assert MAGIC[..k] == MAGIC[..k - 1] + [MAGIC[k - 1]];
      FeedConcat(RESET, MAGIC[..k - 1], [MAGIC[k - 1]]);
      FeedOne(RESET.(inCt := k - 1), MAGIC[k - 1]);
    }
  }

  lemma HeadWaits(cmd: u8)
    requires cmd !in {0x81, 0x82, 0x83}
    ensures Feed(RESET, MAGIC + [PROTOCOL_VERSION, cmd]) == (Parser(WaitLen1, 0, Command(cmd, 0, 0)), [])
  {
    hide Feed;
    AfterMagic(4);
    assert MAGIC[..4] == MAGIC;
    FeedConcat(RESET, MAGIC, [PROTOCOL_VERSION, cmd]);
    FeedConcat(RESET.(state := WaitVersion), [PROTOCOL_VERSION], [cmd]);
    assert [PROTOCOL_VERSION] + [cmd] == [PROTOCOL_VERSION, cmd];
    FeedOne(RESET.(state := WaitVersion), PROTOCOL_VERSION);
    FeedOne(RESET.(state := WaitCmd), cmd);
  }

  lemma MalformedFeeds(bs: seq<u8>)
    requires Malformed(bs)
    ensures Feed(RESET, bs) == (RESET, [])
  {
    hide Feed;
    var k := |bs| - 1;
    if |bs| <= 5 {
      AfterMagic(k);
      assert bs == MAGIC[..k] + [bs[k]];
      FeedConcat(RESET, MAGIC[..k], [bs[k]]);
      FeedOne(Feed(RESET, MAGIC[..k]).0, bs[k]);
      assert forall log: seq<Command> :: [] + log == log;
    } else {
      assert bs == (MAGIC + [PROTOCOL_VERSION, bs[5]]) + ([bs[6]] + [bs[7]]);
      WrongLengthFeeds(bs[5], bs[6], bs[7]);
    }
  }

  lemma WrongLengthFeeds(cmd: u8, hi: u8, lo: u8)
    requires cmd !in {0x81, 0x82, 0x83} && !(hi == 0 && lo == 1)
    ensures Feed(RESET, (MAGIC + [PROTOCOL_VERSION, cmd]) + ([hi] + [lo])) == (RESET, [])
  {
    hide Feed, OnByte;
    var p := Parser(WaitLen1, 0, Command(cmd, 0, 0));
    HeadWaits(cmd);
    FeedConcat(RESET, MAGIC + [PROTOCOL_VERSION, cmd], [hi] + [lo]);
    FeedConcat(p, [hi], [lo]);
    FeedOne(p, hi);
    WrongLength(cmd, hi, lo);
    FeedOne(OnByte(p, hi).0, lo);
    assert forall log: seq<Command> :: [] + log == log;
  }

  lemma WrongLength(cmd: u8, hi: u8, lo: u8)
    requires !(hi == 0 && lo == 1)
    ensures var (p, c) := OnByte(Parser(WaitLen1, 0, Command(cmd, 0, 0)), hi);
            p.inCt < 4 && c == [] && OnByte(p, lo) == (RESET, [])
  {}

  // Any frames, one behind the other, do what they say and leave the parser
  // reset.
  lemma {:induction false} FramesExecute(fs: seq<Frame>)
    requires forall f :: f in fs ==> f.Valid()
    ensures Feed(RESET, Encoded(fs)) == (RESET, Executed(fs))
  {
    hide Feed;
    if fs == [] {
      FeedNothing(RESET);
    } else {
      var front, f := fs[..|fs| - 1], fs[|fs| - 1];
      assert f in fs;
      FramesExecute(front);
      FeedConcat(RESET, Encoded(front), f.Encode());
      if f.Good? { FeedRequest(f.request); } else { MalformedFeeds(f.bytes); }
    }
  }

  // A byte that resets the parser without a command completes a malformed frame.
  lemma DroppedIsMalformed(p: Parser, b: u8)
    requires ParserOk(p) && OnByte(p, b) == (RESET, []) && p.state != WaitData
    ensures Malformed(Partial(p) + [b])
  {
    var bs := Partial(p) + [b];
    match p.state {
      case WaitMagic => assert bs[..p.inCt] == MAGIC[..p.inCt];
      case WaitVersion => assert bs[..4] == MAGIC;
      case WaitLen2 => assert bs[..5] == MAGIC + [2];
      case _ =>
    }
  }

  // The whole meaning of a stream: it is frames and a request in progress, and
  // exactly the good frames are executed.
  lemma {:induction false} StreamIsFrames(bs: seq<u8>) returns (fs: seq<Frame>)
    ensures forall f :: f in fs ==> f.Valid()
    ensures ParserOk(Feed(RESET, bs).0) && bs == Encoded(fs) + Partial(Feed(RESET, bs).0)
    ensures Feed(RESET, bs).1 == Executed(fs)
    decreases |bs|
  {
    hide Feed, OnByte, Partial, ParserOk;
    PartialOfReset();
    ResetOk();
    if bs == [] {
      fs := [];
      FeedNothing(RESET);
    } else {
      var front, b := bs[..|bs| - 1], bs[|bs| - 1];
      assert bs == front + [b];
      var before := StreamIsFrames(front);
      var p := Feed(RESET, front).0;
      OkCount(p);
      FeedConcat(RESET, front, [b]);
      FeedOne(p, b);
      fs := NextFrame(before, p, b);
      assert front + [b] == Encoded(before) + (Partial(p) + [b]);
    }
  }

  lemma NextFrame(before: seq<Frame>, p: Parser, b: u8) returns (fs: seq<Frame>)
    requires ParserOk(p) && p.inCt < 4 && forall f :: f in before ==> f.Valid()
    ensures ParserOk(OnByte(p, b).0) && OnByte(p, b).0.inCt < 4 && forall f :: f in fs ==> f.Valid()
    ensures Encoded(before) + (Partial(p) + [b]) == Encoded(fs) + Partial(OnByte(p, b).0)
    ensures Executed(before) + OnByte(p, b).1 == Executed(fs)
  {
    hide OnByte, ParserOk;
    ByteCases(p, b);
    var (q, c) := OnByte(p, b);
    OkCount(q);
    if c == [] && Partial(q) == Partial(p) + [b] {
      fs := before;
    } else {
      hide Partial, Malformed;
      PartialOfReset();
      var f;
      if c == [] {
        NotInData(p, b);
        DroppedIsMalformed(p, b);
        f := Bad(Partial(p) + [b]);
      } else {
        var r: Request :| r.Valid() && r.Encode() == Partial(p) + [b] && c == [r.Meaning()];
        f := Good(r);
      }
      fs := before + [f];
      assert fs[..|fs| - 1] == before;
    }
  }

  lemma NotInData(p: Parser, b: u8)
    requires p.inCt < 4 && OnByte(p, b).1 == []
    ensures p.state != WaitData
  {}
}
