/** The request encoders of the Go client and of NetworkStore, and their agreement with the server's parser. */
module Encoding {
  import opened Bytes
  import opened Messages
  import opened Numbers
  import opened Request

  function EncodeArg(a: bytes): (r: bytes) { [DOLLAR] + Decimal(|a|) + CRLF + a + CRLF }

  function EncodeArgs(v: Vector): (r: bytes) { if v == [] then [] else EncodeArg(v[0]) + EncodeArgs(v[1..]) }

  function EncodeRequest(v: Vector): (r: bytes) { [ASTERISK] + Decimal(|v|) + CRLF + EncodeArgs(v) }

  function EncodeAll(vs: seq<Vector>): (r: bytes) { if vs == [] then [] else EncodeRequest(vs[0]) + EncodeAll(vs[1..]) }

  /** The vectors the server accepts: the protocol's own limits. */
  predicate Sendable(v: Vector) {
    1 <= |v| <= MAX_ARGS && AllShort(v)
  }

  predicate AllSendable(vs: seq<Vector>) { forall i | 0 <= i < |vs| :: Sendable(vs[i]) }

  /** A QUIT ends the conversation: nothing behind it is looked at. */
  function UpToQuit(vs: seq<Vector>): (r: seq<Vector>)
    requires AllSendable(vs)
  {
    if vs == [] then [] else if IsQuit(vs[0][0]) then [vs[0]] else [vs[0]] + UpToQuit(vs[1..])
  }

  predicate Quits(vs: seq<Vector>)
    requires AllSendable(vs)
  {
    vs != [] && (IsQuit(vs[0][0]) || Quits(vs[1..]))
  }

  // ----- The programs that write requests -----

  lemma {:induction false} EncodeArgsSnoc(v: Vector, a: bytes, e: bytes)
    requires e == EncodeArg(a)
    ensures EncodeArgs(v + [a]) == EncodeArgs(v) + e
  {
    if v == [] {
      assert v + [a] == [a] && [a][1..] == [];
      NothingAdded(e);
    } else {
      EncodeArgsSnoc(v[1..], a, e);
      assert (v + [a])[0] == v[0] && (v + [a])[1..] == v[1..] + [a];
      Assoc(EncodeArg(v[0]), EncodeArgs(v[1..]), e);
    }
  }

  /** One argument appended piece by piece, as both encoders do it. */
  lemma AppendArg(before: bytes, a: bytes)
    ensures before + ([DOLLAR] + Decimal(|a|) + CRLF) + a + CRLF == before + EncodeArg(a)
  {
    var line := [DOLLAR] + Decimal(|a|) + CRLF;
    Assoc(before, line, a);
    Assoc(before, line + a, CRLF);
  }

  /** sendRequest of the Go client. */
  method SendRequest(argv: Vector) returns (buf: bytes)
    ensures buf == EncodeRequest(argv)
  {
    buf := [ASTERISK] + Decimal(|argv|) + CRLF;
    ghost var head := buf;
    NothingAdded(head);
    for i := 0 to |argv|
      invariant buf == head + EncodeArgs(argv[..i])
    {
      NextArg(head, argv, i, buf, EncodeArg(argv[i]));
      AppendArg(buf, argv[i]);
      buf := buf + ([DOLLAR] + Decimal(|argv[i]|) + CRLF);
      buf := buf + argv[i];
      buf := buf + CRLF;
    }
    assert argv[..|argv|] == argv;
  }

  lemma NextArg(head: bytes, argv: Vector, i: nat, buf: bytes, e: bytes)
    requires i < |argv| && buf == head + EncodeArgs(argv[..i]) && e == EncodeArg(argv[i])
    ensures buf + e == head + EncodeArgs(argv[..i + 1])
  {
    EncodeArgsSnoc(argv[..i], argv[i], e);
    assert argv[..i + 1] == argv[..i] + [argv[i]];
    Assoc(head, EncodeArgs(argv[..i]), e);
  }

  const LOG: bytes := [76, 79, 71]
  const LOG_HEAD: bytes := [ASTERISK, 51, CR, LF, DOLLAR, 51, CR, LF, 76, 79, 71, CR, LF]

  /** Agent::Log appends one LOG request to what is already waiting to be sent, if the agent is connected and can be
      woken to send it: it is already being sent to, or the kernel grants the registration. */
  method AgentLog(req: bytes, msg: Message, connected: bool, granted: bool) returns (after: bytes)
    ensures after == if connected && (req != [] || granted) then req + EncodeRequest([LOG, msg.topic, msg.content]) else req
  {
    if !connected { return req; }
    if req == [] && !granted { return req; }
    LogRequest(req, msg);
    AppendArg(req + LOG_HEAD, msg.topic);
    AppendArg(req + LOG_HEAD + EncodeArg(msg.topic), msg.content);
    Assoc(req, LOG_HEAD, [DOLLAR] + Decimal(|msg.topic|) + CRLF);
    after := req + (LOG_HEAD + ([DOLLAR] + Decimal(|msg.topic|) + CRLF));
    after := after + msg.topic;
    after := after + CRLF;
    after := after + ([DOLLAR] + Decimal(|msg.content|) + CRLF);
    after := after + msg.content;
    after := after + CRLF;
  }

  lemma LogRequest(req: bytes, msg: Message)
    ensures req + EncodeRequest([LOG, msg.topic, msg.content]) ==
            req + LOG_HEAD + EncodeArg(msg.topic) + EncodeArg(msg.content)
  {
    var t, c := EncodeArg(msg.topic), EncodeArg(msg.content);
    ThreeArgs(LOG, msg.topic, msg.content);
    LogHead();
    Assoc([ASTERISK, 51] + CRLF, EncodeArg(LOG), t + c);
    Assoc(req, LOG_HEAD, t + c);
    Assoc(req + LOG_HEAD, t, c);
  }

  lemma LogHead()
    ensures [ASTERISK, 51] + CRLF + EncodeArg(LOG) == LOG_HEAD && [ASTERISK] + Decimal(3) + CRLF == [ASTERISK, 51] + CRLF
  {
    assert Decimal(3) == [51];
    assert EncodeArg(LOG) == [DOLLAR, 51] + CRLF + LOG + CRLF;
  }

  lemma ThreeArgs(a: bytes, b: bytes, c: bytes)
    ensures EncodeArgs([a, b, c]) == EncodeArg(a) + (EncodeArg(b) + EncodeArg(c))
  {
    assert [a, b, c][1..] == [b, c] && [b, c][1..] == [c] && [c][1..] == [];
    NothingAdded(EncodeArg(c));
    assert EncodeArgs([c]) == EncodeArg(c) + EncodeArgs([]) == EncodeArg(c);
    assert EncodeArgs([b, c]) == EncodeArg(b) + EncodeArg(c);
  }

  // ----- The parser undoes them -----

  lemma {:induction false} FindCRAfter(pre: bytes, rest: bytes, i: nat)
    requires i <= |pre| && forall j | i <= j < |pre| :: pre[j] != NUL && pre[j] != CR
    ensures FindCR(pre + [CR] + rest, i) == Some(|pre|)
    decreases |pre| - i
  {
    if i < |pre| { FindCRAfter(pre, rest, i + 1); }
  }

  /** A header line: a mark, a canonical number, and the end of the line. */
  lemma HeaderLine(mark: byte, n: nat, rest: bytes)
    requires mark != NUL && mark != CR && n <= LLONG_MAX
    ensures var buf := [mark] + Decimal(n) + CRLF + rest;
            var k := 1 + |Decimal(n)|;
            LineEnd(buf) == Some(k) && Number(buf, k) == Some(n) && buf[k + 2..] == rest
  {
    var d := Decimal(n);
    DigitsAreCanonical(n);
    DigitsAreOneLine(d);
    LineOf(mark, d, rest);
    ParseInvertsDecimal(d, n);
  }

  predicate OneLine(d: bytes) { forall j | 0 <= j < |d| :: d[j] != NUL && d[j] != CR }

  lemma DigitsAreOneLine(d: bytes)
    requires AllDigits(d)
    ensures OneLine(d)
  {
    forall j | 0 <= j < |d| ensures d[j] != NUL && d[j] != CR { assert IsDigit(d[j]); }
  }

  lemma LineOf(mark: byte, d: bytes, rest: bytes)
    requires mark != NUL && mark != CR && OneLine(d)
    ensures var buf := [mark] + d + CRLF + rest;
            LineEnd(buf) == Some(1 + |d|) && buf[1..1 + |d|] == d && buf[1 + |d| + 2..] == rest
  {
    var pre := [mark] + d;
    forall j | 0 <= j < |pre| ensures pre[j] != NUL && pre[j] != CR {
      if j > 0 { assert pre[j] == d[j - 1]; }
    }
    FindCRAfter(pre, [LF] + rest, 0);
    assert pre + [CR] + ([LF] + rest) == pre + CRLF + rest;
  }

  /** A decimal within 64 signed bits. */
  predicate IsDecimal(d: bytes, v: int) { -0x8000_0000_0000_0000 <= v <= 0x7FFF_FFFF_FFFF_FFFF && d == Decimal(v) }

  lemma IsDecimalIff(d: bytes, v: int)
    ensures IsDecimal(d, v) <==> Parse(d) == Some(v)
  {
    ParseInvertsDecimal(d, v);
  }

  /** An argument count is taken if it is the canonical decimal of a number up to 1048576, and skipped if that is not
      positive; any other line is refused. */
  lemma CountLineMeans(st: Parser, mark: byte, d: bytes, rest: bytes, v: int)
    requires AwaitsLine(st) && st.argc == 0 && mark != NUL && mark != CR && OneLine(d)
    ensures var got := Advance(st, [mark] + d + CRLF + rest);
      && (IsDecimal(d, v) && 1 <= v <= 1048576 ==> got == Some((st.(argc := v, argv := []), |d| + 3)))
      && (IsDecimal(d, v) && v <= 0 ==> got == Some((st, |d| + 3)))
      && (IsDecimal(d, v) && v > 1048576 ==> got == Fail(st, BadMultibulkLength))
      && ((forall w :: !IsDecimal(d, w)) ==> got == Fail(st, BadMultibulkLength))
  {
    LineOf(mark, d, rest);
    IsDecimalIff(d, v);
    if Parse(d).Some? { IsDecimalIff(d, Parse(d).value); }
  }

  /** An argument length is taken if its line begins with `$` and it is the canonical decimal of a number from 0 to
      536870912; any other line is refused. */
  lemma LengthLineMeans(st: Parser, mark: byte, d: bytes, rest: bytes, v: int)
    requires AwaitsLine(st) && st.argc > 0 && mark != NUL && mark != CR && OneLine(d)
    ensures var got := Advance(st, [mark] + d + CRLF + rest);
      && (mark != 36 ==> got == Fail(st, ExpectedDollar(mark)))
      && (mark == 36 && IsDecimal(d, v) && 0 <= v <= 536870912 ==> got == Some((st.(arglen := v), |d| + 3)))
      && (mark == 36 && IsDecimal(d, v) && !(0 <= v <= 536870912) ==> got == Fail(st, BadBulkLength))
      && (mark == 36 && (forall w :: !IsDecimal(d, w)) ==> got == Fail(st, BadBulkLength))
  {
    LineOf(mark, d, rest);
    IsDecimalIff(d, v);
    if Parse(d).Some? { IsDecimalIff(d, Parse(d).value); }
  }

  /** The parser between requests, with `handed` behind it. */
  function Between(handed: seq<Vector>): (r: Parser) { Parser(0, -1, [], handed, Running) }

  lemma FeedArg(st: Parser, a: bytes, rest: bytes)
    requires st.status.Running? && |st.argv| < st.argc && st.arglen == -1 && |a| <= MAX_ARG_LEN
    ensures Feed(st, EncodeArg(a) + rest) == Feed(st.(argv := st.argv + [a]), rest)
  {
    var buf := EncodeArg(a) + rest;
    assert buf == [DOLLAR] + Decimal(|a|) + CRLF + (a + CRLF + rest);
    HeaderLine(DOLLAR, |a|, a + CRLF + rest);
    var mid := st.(arglen := |a|);
    assert Feed(st, buf) == Feed(mid, a + CRLF + rest);
    assert (a + CRLF + rest)[..|a|] == a && (a + CRLF + rest)[|a| + 2..] == rest;
  }

  lemma FirstArg(todo: Vector, rest: bytes)
    requires todo != []
    ensures EncodeArgs(todo) + rest == EncodeArg(todo[0]) + (EncodeArgs(todo[1..]) + rest)
  {
    Assoc(EncodeArg(todo[0]), EncodeArgs(todo[1..]), rest);
  }

  /** All arguments that are still missing are read, one after the other; end is where that leads. */
  lemma {:induction false} FeedArgs(st: Parser, todo: Vector, rest: bytes, buf: bytes, end: (Parser, bytes))
    requires st.status.Running? && |st.argv| + |todo| == st.argc && st.arglen == -1 && AllShort(todo)
    requires buf == EncodeArgs(todo) + rest && end == Feed(st, buf)
    ensures end == Feed(st.(argv := st.argv + todo), rest)
    decreases |todo|
  {
    if todo == [] {
      assert buf == rest && st.argv + todo == st.argv;
    } else {
      var tail := EncodeArgs(todo[1..]) + rest;
      var next := st.(argv := st.argv + [todo[0]]);
      FirstArg(todo, rest);
      MoveOne(st.argv, todo);
      FeedArg(st, todo[0], tail);
      FeedArgs(next, todo[1..], rest, tail, end);
    }
  }

  predicate AllShort(v: Vector) { forall i | 0 <= i < |v| :: |v[i]| <= MAX_ARG_LEN }

  /** The count line of a request starts its vector. */
  lemma FeedCount(handed: seq<Vector>, v: Vector, buf: bytes)
    requires 1 <= |v| <= MAX_ARGS
    ensures Feed(Between(handed), [ASTERISK] + Decimal(|v|) + CRLF + buf) == Feed(Parser(|v|, -1, [], handed, Running), buf)
  {
    HeaderLine(ASTERISK, |v|, buf);
    FeedOne(Between(handed), [ASTERISK] + Decimal(|v|) + CRLF + buf);
  }

  /** A complete vector is handed over. */
  lemma FeedComplete(handed: seq<Vector>, v: Vector, rest: bytes)
    requires v != []
    ensures Feed(Parser(|v|, -1, v, handed, Running), rest) ==
            if IsQuit(v[0]) then (Parser(|v|, -1, v, handed + [v], Quit), rest)
            else Feed(Between(handed + [v]), rest)
  {
    assert rest[0..] == rest;
    FeedOne(Parser(|v|, -1, v, handed, Running), rest);
    StoppedStays(Parser(|v|, -1, v, handed + [v], Quit), rest);
  }

  lemma FeedRequest(handed: seq<Vector>, v: Vector, rest: bytes)
    requires Sendable(v)
    ensures Feed(Between(handed), EncodeRequest(v) + rest) ==
            if IsQuit(v[0]) then (Parser(|v|, -1, v, handed + [v], Quit), rest)
            else Feed(Between(handed + [v]), rest)
  {
    var first := Parser(|v|, -1, [], handed, Running);
    var buf := EncodeArgs(v) + rest;
    Assoc([ASTERISK] + Decimal(|v|) + CRLF, EncodeArgs(v), rest);
    FeedCount(handed, v, buf);
    FeedArgs(first, v, rest, buf, Feed(first, buf));
    NothingAdded(v);
    FeedComplete(handed, v, rest);
  }

  /** Whatever vectors are encoded, and however the bytes are cut into reads, the server hands exactly those
      vectors to ProcessCommand, up to and including a QUIT, and reports no protocol error. */
  lemma {:induction false} RoundTrip(handed: seq<Vector>, vs: seq<Vector>)
    requires AllSendable(vs)
    ensures var end := Feed(Between(handed), EncodeAll(vs));
            && end.0.handed == handed + UpToQuit(vs)
            && end.0.status == (if Quits(vs) then Quit else Running)
            && (!Quits(vs) ==> end.1 == [])
    decreases |vs|
  {
    if vs != [] {
      FeedRequest(handed, vs[0], EncodeAll(vs[1..]));
      if !IsQuit(vs[0][0]) {
        RoundTrip(handed + [vs[0]], vs[1..]);
        Assoc(handed, [vs[0]], UpToQuit(vs[1..]));
      }
    }
  }

  lemma RoundTripInChunks(vs: seq<Vector>, chunks: seq<bytes>)
    requires AllSendable(vs)
    requires Concat(chunks) == EncodeAll(vs)
    ensures FeedAll(START, [], chunks).0.handed == UpToQuit(vs)
    ensures FeedAll(START, [], chunks).0.status == if Quits(vs) then Quit else Running
  {
    ChunkingIndependence(chunks, chunks);
    RoundTrip([], vs);
  }

  lemma FirstIsNoError(st: Parser, buf: bytes)
    requires Feed(st, buf).0.status in {Running, Quit} && Advance(st, buf).Some? && !Complete(st)
    ensures Advance(st, buf).value.0.status.Running?
  {
    var (next, n) := Advance(st, buf).value;
    FeedOne(st, buf);
    StoppedStays(next, buf[n..]);
  }

  /** If what is left over is going to be read as a line, the line is not complete yet, so it is short. */
  lemma LineIsShort(rest: bytes, q: bytes, v: int)
    requires LineEnd(rest).None? && LineEnd(rest + q).Some?
    requires Number(rest + q, LineEnd(rest + q).value) == Some(v)
    ensures |rest| <= 22
  {
    var k := LineEnd(rest + q).value;
    ParseInvertsDecimal((rest + q)[1..k], v);
    NumberIsShort(v);
    if k + 2 <= |rest| { FindCRPrefix(rest, q, 0); }
  }

  /** A settled parser whose leftover is going to be read without error holds a short leftover. */
  lemma SettledIsShort(st: Parser, rest: bytes, q: bytes)
    requires Advance(st, rest).None? && Advance(st, rest + q).Some? && st.arglen <= MAX_ARG_LEN
    requires Advance(st, rest + q).value.0.status.Running?
    ensures |rest| <= MAX_ARG_LEN + 1
  {
    if st.argc == 0 || st.arglen < 0 {
      LineIsShort(rest, q, Number(rest + q, LineEnd(rest + q).value).value);
    }
  }

  /** A parser that is still running never holds more than one argument's bytes of a well-formed stream, so reads
      of at most IOBUF_LEN bytes never reach the backlog limit. */
  lemma BacklogStaysSmall(vs: seq<Vector>, p: bytes, q: bytes)
    requires AllSendable(vs)
    requires p + q == EncodeAll(vs) && Feed(START, p).0.status.Running?
    ensures |Feed(START, p).1| <= MAX_ARG_LEN + 1
    ensures |Feed(START, p).1| + IOBUF_LEN <= MAX_QUERYBUF_LEN
  {
    var (st, rest) := Feed(START, p);
    FeedSettles(START, p);
    FeedInTwo(START, p, q);
    RoundTrip([], vs);
    SettledFields(START, p);
    if Advance(st, rest + q).Some? {
      FirstIsNoError(st, rest + q);
      SettledIsShort(st, rest, q);
    }
  }

  lemma NumberIsShort(v: int)
    requires LLONG_MIN <= v <= LLONG_MAX
    ensures |Decimal(v)| <= 20
  {
    DigitsFit(if v < 0 then -v else v);
  }

  lemma {:induction false} FindCRPrefix(a: bytes, b: bytes, pos: nat)
    requires pos <= |a| && FindCR(a + b, pos).Some? && FindCR(a + b, pos).value < |a|
    ensures FindCR(a, pos) == FindCR(a + b, pos)
    decreases |a| - pos
  {
    if pos < |a| && a[pos] != CR { FindCRPrefix(a, b, pos + 1); }
  }

  /** Facts about every settled parser that started fresh. */
  lemma {:induction false} SettledFields(st: Parser, a: bytes)
    requires -1 <= st.arglen <= MAX_ARG_LEN && |st.argv| <= st.argc
    ensures var t := Feed(st, a).0; -1 <= t.arglen <= MAX_ARG_LEN && |t.argv| <= t.argc
    decreases |a|, if !st.status.Running? then 0 else if Complete(st) then 2 else 1
  {
    if Advance(st, a).Some? {
      var (next, n) := Advance(st, a).value;
      SettledFields(next, a[n..]);
    }
  }
}
