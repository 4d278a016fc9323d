/** The request side of a client connection: the resumable parser of src/client.cc and the encoders that feed it
    (client/go/kids.go, src/store/networkstore.cc). The wire format is RESP version 2 as this parser reads it:
    the byte before the argument count and the byte after each carriage return are not looked at. */
module Request {
  import opened Bytes
  import opened Numbers

  const ASTERISK: byte := 42
  const DOLLAR: byte := 36
  const MAX_ARGS := 1024 * 1024
  const MAX_ARG_LEN := 512 * 1024 * 1024
  const MAX_QUERYBUF_LEN := 1024 * 1024 * 1024
  const IOBUF_LEN := 16 * 1024

  type Vector = seq<bytes>

  /** Anything but Running is the close-after-reply flag, with the reason it was raised. */
  datatype Status = Running | Quit | BadMultibulkLength | ExpectedDollar(got: byte) | BadBulkLength

  /** arglen is -1 while the length of the next argument is unknown; handed lists the vectors given to
      ProcessCommand so far. */
  datatype Parser = Parser(argc: nat, arglen: int, argv: Vector, handed: seq<Vector>, status: Status)

  const START := Parser(0, -1, [], [], Running)

  // ----- The parser as a machine that reads one piece at a time -----

  /** strchr(data + pos, CR): the search stops at a NUL. */
  function FindCR(buf: bytes, pos: nat): (k: Option<nat>)
    requires pos <= |buf|
    ensures k.Some? ==> pos <= k.value < |buf| && buf[k.value] == CR
    decreases |buf| - pos
  {
    if pos == |buf| || buf[pos] == NUL then None else if buf[pos] == CR then Some(pos) else FindCR(buf, pos + 1)
  }

  /** The end of a whole line: a carriage return and one more byte. */
  function LineEnd(buf: bytes): (r: Option<nat>) {
    match FindCR(buf, 0)
    case None => None
    case Some(k) => if k + 2 <= |buf| then Some(k) else None
  }

  function Number(buf: bytes, k: nat): (r: Option<int>)
    requires k <= |buf|
  {
    if k == 0 then None else Parse(buf[1..k])
  }

  function Fail(st: Parser, why: Status): (r: Option<(Parser, nat)>) { Some((st.(status := why), 0)) }

  function IsQuit(a: bytes): (r: bool) {
    && |a| >= 4 && a[0] in [113, 81] && a[1] in [117, 85] && a[2] in [105, 73] && a[3] in [116, 84]
    && (|a| > 4 ==> a[4] == NUL)
  }

  predicate Complete(st: Parser) { st.argc > 0 && |st.argv| == st.argc }

  /** The next piece, if the bytes for it are there: the new parser and how many bytes it took. */
  function Advance(st: Parser, buf: bytes): (r: Option<(Parser, nat)>)
    ensures r.Some? ==> r.value.1 <= |buf|
    ensures r.Some? && r.value.1 < 2 ==>
      r.value.1 == 0 && (!r.value.0.status.Running? || (Complete(st) && !Complete(r.value.0)))
    ensures r.Some? ==> st.status.Running?
  {
    if !st.status.Running? then None
    else if Complete(st) then
      if IsQuit(st.argv[0]) then Some((st.(handed := st.handed + [st.argv], status := Quit), 0))
      else Some((Parser(0, -1, [], st.handed + [st.argv], Running), 0))
    else if st.argc == 0 then
      match LineEnd(buf)
      case None => None
      case Some(k) =>
        match Number(buf, k)
        case None => Fail(st, BadMultibulkLength)
        case Some(n) =>
          if n > MAX_ARGS then Fail(st, BadMultibulkLength)
          else if n <= 0 then Some((st, k + 2))
          else Some((st.(argc := n, argv := []), k + 2))
    else if st.arglen < 0 then
      match LineEnd(buf)
      case None => None
      case Some(k) =>
        if buf[0] != DOLLAR then Fail(st, ExpectedDollar(buf[0]))
        else match Number(buf, k)
          case None => Fail(st, BadBulkLength)
          case Some(n) =>
            if n < 0 || n > MAX_ARG_LEN then Fail(st, BadBulkLength)
            else Some((st.(arglen := n), k + 2))
    else if |buf| < st.arglen + 2 then None
    else Some((st.(argv := st.argv + [buf[..st.arglen]], arglen := -1), st.arglen + 2))
  }

  /** All pieces that are there. What comes back is the settled parser and the bytes left over. */
  function Feed(st: Parser, buf: bytes): (r: (Parser, bytes))
    decreases |buf|, if !st.status.Running? then 0 else if Complete(st) then 2 else 1
  {
    match Advance(st, buf)
    case None => (st, buf)
    case Some((next, n)) => Feed(next, buf[n..])
  }

  // ----- How the stream is cut does not matter -----

  lemma {:induction false} FindCRStable(a: bytes, b: bytes, pos: nat)
    requires pos <= |a| && FindCR(a, pos).Some?
    ensures FindCR(a + b, pos) == FindCR(a, pos)
    decreases |a| - pos
  {
    if a[pos] != CR { FindCRStable(a, b, pos + 1); }
  }

  /** A piece that is there stays the same piece when more bytes arrive behind it. */
  lemma AdvanceStable(st: Parser, a: bytes, b: bytes)
    requires Advance(st, a).Some?
    ensures Advance(st, a + b) == Advance(st, a)
  {
    if st.status.Running? && !Complete(st) {
      if st.argc == 0 || st.arglen < 0 {
        FindCRStable(a, b, 0);
        var k := LineEnd(a).value;
        assert (a + b)[1..][..] == a[1..] + b;
        assert k > 0 ==> (a + b)[1..k] == a[1..k];
      } else {
        assert (a + b)[..st.arglen] == a[..st.arglen];
      }
    }
  }

  lemma {:induction false} FeedInTwo(st: Parser, a: bytes, b: bytes)
    ensures Feed(st, a + b) == Feed(Feed(st, a).0, Feed(st, a).1 + b)
    decreases |a|, if !st.status.Running? then 0 else if Complete(st) then 2 else 1
  {
    if Advance(st, a).Some? {
      AdvanceStable(st, a, b);
      var (next, n) := Advance(st, a).value;
      assert (a + b)[n..] == a[n..] + b;
      FeedInTwo(next, a[n..], b);
    }
  }

  lemma {:induction false} FeedSettles(st: Parser, a: bytes)
    ensures Advance(Feed(st, a).0, Feed(st, a).1).None?
    decreases |a|, if !st.status.Running? then 0 else if Complete(st) then 2 else 1
  {
    if Advance(st, a).Some? {
      var (next, n) := Advance(st, a).value;
      FeedSettles(next, a[n..]);
    }
  }

  /** Reading chunk after chunk, each behind what the last one left over. */
  function FeedAll(st: Parser, left: bytes, chunks: seq<bytes>): (r: (Parser, bytes))
    decreases |chunks|
  {
    if chunks == [] then (st, left)
    else var (t, rest) := Feed(st, left + chunks[0]); FeedAll(t, rest, chunks[1..])
  }

  lemma {:induction false} FeedAllIsFeed(st: Parser, left: bytes, chunks: seq<bytes>)
    requires Advance(st, left).None?
    ensures FeedAll(st, left, chunks) == Feed(st, left + Concat(chunks))
    decreases |chunks|
  {
    if chunks == [] {
      assert left + Concat(chunks) == left;
    } else {
      var (t, rest) := Feed(st, left + chunks[0]);
      FeedSettles(st, left + chunks[0]);
      FeedAllIsFeed(t, rest, chunks[1..]);
      FeedInTwo(st, left + chunks[0], Concat(chunks[1..]));
      Assoc(left, chunks[0], Concat(chunks[1..]));
    }
  }

  /** Two ways of cutting one stream hand the same vectors to ProcessCommand and end in the same status. */
  lemma ChunkingIndependence(chunks: seq<bytes>, others: seq<bytes>)
    requires Concat(chunks) == Concat(others)
    ensures FeedAll(START, [], chunks) == FeedAll(START, [], others) == Feed(START, Concat(chunks))
  {
    FeedAllIsFeed(START, [], chunks);
    FeedAllIsFeed(START, [], others);
    assert [] + Concat(chunks) == Concat(chunks) && [] + Concat(others) == Concat(others);
  }

  // ----- Where the dialect departs from the protocol -----

  /** What is expected next is a line: an argument count or an argument length. */
  predicate AwaitsLine(st: Parser) { st.status.Running? && !Complete(st) && (st.argc == 0 || st.arglen < 0) }

  /** A line ends at k: the first CR, with no NUL in front of it and one more byte, of any value, behind it. */
  predicate EndsAt(buf: bytes, k: nat) {
    k + 2 <= |buf| && buf[k] == CR && forall j | 0 <= j < k :: buf[j] != CR && buf[j] != NUL
  }

  lemma {:induction false} FindCRFinds(buf: bytes, pos: nat, k: nat)
    requires pos <= k < |buf| && buf[k] == CR && forall j | pos <= j < k :: buf[j] != CR && buf[j] != NUL
    ensures FindCR(buf, pos) == Some(k)
    decreases k - pos
  {
    if pos < k { FindCRFinds(buf, pos + 1, k); }
  }

  lemma {:induction false} FindCRFound(buf: bytes, pos: nat)
    requires pos <= |buf|
    ensures var r := FindCR(buf, pos); r.Some? ==> forall j | pos <= j < r.value :: buf[j] != CR && buf[j] != NUL
    decreases |buf| - pos
  {
    if pos < |buf| && buf[pos] != NUL && buf[pos] != CR { FindCRFound(buf, pos + 1); }
  }

  /** A line is taken, or refused, if and only if it ends somewhere: its last byte need not be LF, and a NUL before
      the CR hides it. */
  lemma LineIsTakenIff(st: Parser, buf: bytes)
    requires AwaitsLine(st)
    ensures Advance(st, buf).Some? <==> exists k: nat :: EndsAt(buf, k)
  {
    FindCRFound(buf, 0);
    if LineEnd(buf).Some? { assert EndsAt(buf, LineEnd(buf).value); }
    if k: nat :| EndsAt(buf, k) { FindCRFinds(buf, 0, k); }
  }

  /** Once a NUL stands before the first CR no later byte ever moves this parser again. */
  lemma NulStalls(st: Parser, buf: bytes, q: bytes, k: nat)
    requires AwaitsLine(st) && k < |buf| && buf[k] == NUL && forall j | 0 <= j < k :: buf[j] != CR
    ensures Feed(st, buf + q) == (st, buf + q)
  {
    LineIsTakenIff(st, buf + q);
    assert (buf + q)[k] == NUL;
    forall n: nat ensures !EndsAt(buf + q, n) {
      assert n < k ==> (buf + q)[n] == buf[n];
    }
  }

  /** The byte in front of the argument count may be anything but NUL and CR: the parser goes on as if it were the
      protocol's `*`. A NUL stalls it, a CR is refused. */
  lemma MarkIsIgnored(st: Parser, mark: byte, rest: bytes)
    requires AwaitsLine(st) && st.argc == 0
    ensures mark != NUL && mark != CR ==> Advance(st, [mark] + rest) == Advance(st, [ASTERISK] + rest)
    ensures mark == NUL ==> Advance(st, [mark] + rest) == None
    ensures mark == CR && rest != [] ==> Advance(st, [mark] + rest) == Fail(st, BadMultibulkLength)
  {
    var a, b := [mark] + rest, [ASTERISK] + rest;
    if mark != NUL && mark != CR {
      FindCRSame(a, b, 1);
      assert FindCR(a, 0) == FindCR(b, 0);
      if LineEnd(a).Some? {
        var k := LineEnd(a).value;
        assert a[1..k] == b[1..k] && a[k + 2..] == b[k + 2..];
      }
    }
  }

  lemma {:induction false} FindCRSame(a: bytes, b: bytes, pos: nat)
    requires 0 < pos <= |a| == |b| && a[1..] == b[1..]
    ensures FindCR(a, pos) == FindCR(b, pos)
    decreases |a| - pos
  {
    if pos < |a| {
      assert a[pos] == a[1..][pos - 1] == b[1..][pos - 1] == b[pos];
      FindCRSame(a, b, pos + 1);
    }
  }

  /** The two bytes behind an argument's data are skipped whatever they are. */
  lemma TrailerIsIgnored(st: Parser, data: bytes, x: byte, y: byte, rest: bytes)
    requires st.status.Running? && st.argc > 0 && !Complete(st) && st.arglen == |data|
    ensures Advance(st, data + [x, y] + rest) == Some((st.(argv := st.argv + [data], arglen := -1), |data| + 2))
  {
    var buf := data + [x, y] + rest;
    assert buf[..|data|] == data;
  }

  function Lowered(b: byte): (r: byte) { if 65 <= b <= 90 then b + 32 else b }

  /** strcasecmp with "quit": the four letters in either case, and nothing or a NUL behind them. */
  lemma IsQuitIff(a: bytes)
    ensures IsQuit(a) <==>
            && |a| >= 4 && [Lowered(a[0]), Lowered(a[1]), Lowered(a[2]), Lowered(a[3])] == [113, 117, 105, 116]
            && (|a| == 4 || a[4] == 0)
  {}

  // ----- The program's parser -----

  class Client {
    var req: bytes
    var argc: nat
    var curArglen: int
    var argv: Vector
    var handed: seq<Vector>
    var status: Status
    ghost var received: bytes

    function View(): (r: Parser)
      reads this
    {
      Parser(argc, curArglen, argv, handed, status)
    }

    /** The state is a function of the bytes received; how they were cut into reads leaves no trace. */
    ghost predicate Valid()
      reads this
    {
      && View() == Feed(START, received).0
      && (status.Running? ==> req == Feed(START, received).1 && Resumable())
    }

    /** Between two parses an argument vector is either absent or incomplete. */
    predicate Resumable()
      reads this
    {
      (argc == 0 ==> argv == [] && curArglen == -1) && (argc > 0 ==> |argv| < argc) && curArglen >= -1
    }

    constructor ()
      ensures Valid() && received == [] && View() == START
    {
      req, argc, curArglen, argv, handed, status := [], 0, -1, [], [], Running;
      received := [];
    }

    /** One read from the socket; the client is freed when its backlog is over the limit. */
    method ReadRequest(buf: bytes) returns (freed: bool)
      requires Valid()
      modifies this
      ensures freed <==> |old(req)| + |buf| > MAX_QUERYBUF_LEN
      ensures !freed ==> Valid() && received == old(received) + buf
      ensures !freed ==> View() == Feed(START, old(received) + buf).0
    {
      FeedInTwo(START, received, buf);
      FeedSettles(START, received);
      req := req + buf;
      if |req| > MAX_QUERYBUF_LEN { return true; }
      ghost var all := received + buf;
      received := all;
      if status.Running? {
        ProcessRequestBuffer();
      }
      return false;
    }

    method ProcessRequestBuffer()
      requires status.Running? && Resumable()
      modifies this`req, this`argc, this`curArglen, this`argv, this`handed, this`status
      ensures View() == Feed(old(View()), old(req)).0
      ensures status.Running? ==> req == Feed(old(View()), old(req)).1 && Resumable()
    {
      while |req| > 0
        invariant status.Running? ==> Resumable() && Feed(View(), req) == Feed(old(View()), old(req))
        invariant !status.Running? ==> View() == Feed(old(View()), old(req)).0
        decreases |req|, status.Running?
      {
        if !status.Running? { break; }
        var parsed := ParseRequestBuffer();
        if !parsed { break; }
        var proceed := |argv| == 0;
        if !proceed { proceed := ProcessCommand(); }
        if proceed { ResetArgumentVector(); }
      }
    }

    method ProcessCommand() returns (proceed: bool)
      requires argv != []
      modifies this`handed, this`status
      ensures handed == old(handed) + [argv]
      ensures proceed == !IsQuit(argv[0])
      ensures status == if proceed then old(status) else Quit
    {
      handed := handed + [argv];
      proceed := !IsQuit(argv[0]);
      if !proceed { status := Quit; }
    }

    method ResetArgumentVector()
      modifies this`argv, this`curArglen, this`argc
      ensures argv == [] && curArglen == -1 && argc == 0
    {
      argv, curArglen, argc := [], -1, 0;
    }

    /** One call of ParseRequestBuffer. It succeeds when a vector is complete, or when an empty one was skipped,
        and has then taken at least two bytes; it never loses or repeats a piece. */
    method ParseRequestBuffer() returns (parsed: bool)
      requires status.Running? && Resumable()
      modifies this`req, this`argc, this`curArglen, this`argv, this`status
      ensures parsed ==> status.Running? && |req| + 2 <= |old(req)|
      ensures parsed ==> (argc > 0 && |argv| == argc) || (argc == 0 && argv == [] && curArglen == -1)
      ensures !parsed && status.Running? ==> Resumable() && Advance(View(), req).None?
      ensures status.Running? ==> Feed(View(), req) == Feed(old(View()), old(req))
      ensures !status.Running? ==> View() == Feed(old(View()), old(req)).0
    {
      var pos := 0;
      assert req[0..] == req;
      if argc == 0 {
        var go;
        pos, go := ParseCount();
        if !go { return false; }
        if argc == 0 {
          req := req[pos..];
          return true;
        }
      }
      pos := ParseArguments(pos);
      if !status.Running? { return false; }
      req := req[pos..];
      return argc == |argv|;
    }

    /** The argument loop: it stops when the vector is complete, bytes are missing, or a line is bad. */
    method ParseArguments(start: nat) returns (pos: nat)
      requires status.Running? && start <= |req| && |argv| < argc && curArglen >= -1
      modifies this`curArglen, this`argv, this`status
      ensures pos <= |req| && |argv| <= argc && curArglen >= -1
      ensures status.Running? ==> Feed(View(), req[pos..]) == Feed(old(View()), req[start..])
      ensures !status.Running? ==> View() == Feed(old(View()), req[start..]).0
      ensures status.Running? ==> (|argv| == argc && pos >= 2 && curArglen == -1) || (|argv| < argc && Advance(View(), req[pos..]).None?)
    {
      pos := start;
      var more := true;
      while |argv| < argc && more
        invariant pos <= |req| && |argv| <= argc && curArglen >= -1
        invariant |argv| == argc ==> pos >= 2 && curArglen == -1 && more
        invariant more ==> status.Running?
        invariant status.Running? ==> Feed(View(), req[pos..]) == Feed(old(View()), req[start..])
        invariant !status.Running? ==> View() == Feed(old(View()), req[start..]).0
        invariant !more && status.Running? ==> Advance(View(), req[pos..]).None?
        decreases argc - |argv|, more
      {
        pos, more := ParseArgument(pos);
      }
    }

    /** The first line of a request: how many arguments follow. Without go there is no whole line yet, or the
        count is bad; a count of zero or less leaves argc at 0 and the line is skipped. */
    method ParseCount() returns (pos: nat, go: bool)
      requires status.Running? && argc == 0 && argv == [] && curArglen == -1
      modifies this`argc, this`argv, this`status
      ensures argv == [] && pos <= |req| && argc >= 0
      ensures go ==> status.Running? && pos >= 2 && Feed(View(), req[pos..]) == Feed(old(View()), req)
      ensures !go && status.Running? ==> View() == old(View()) && Advance(View(), req).None?
      ensures !status.Running? ==> View() == Feed(old(View()), req).0
    {
      var newline := FindCR(req, 0);
      if newline == None { return 0, false; }
      var k := newline.value;
      if |req| < k + 2 { return 0, false; }
      assert LineEnd(req) == Some(k);
      FeedOne(View(), req);
      var ll := None;
      if k > 0 { ll := String2ll(req[1..k]); }
      assert ll == Number(req, k);
      if ll == None || ll.value > MAX_ARGS {
        status := BadMultibulkLength;
        StoppedStays(View(), req[0..]);
        return 0, false;
      }
      pos := k + 2;
      go := true;
      if ll.value > 0 {
        argc := ll.value;
        argv := [];
      }
    }

    /** One turn of the argument loop: its length line, if not read yet, and its bytes. Without more, bytes are
        missing or the line is bad. */
    method ParseArgument(pos: nat) returns (next: nat, more: bool)
      requires status.Running? && pos <= |req| && |argv| < argc && curArglen >= -1
      modifies this`curArglen, this`argv, this`status
      ensures pos <= next <= |req| && curArglen >= -1
      ensures more ==> status.Running? && curArglen == -1 && |argv| == |old(argv)| + 1 && next >= pos + 2
      ensures !more ==> argv == old(argv)
      ensures status.Running? ==> Feed(View(), req[next..]) == Feed(old(View()), req[pos..])
      ensures !status.Running? ==> View() == Feed(old(View()), req[pos..]).0
      ensures !more && status.Running? ==> Advance(View(), req[next..]).None?
    {
      next := pos;
      if curArglen == -1 {
        var known;
        next, known := ParseArgLength(pos);
        if !known { return next, false; }
      }
      if |req| - next < curArglen + 2 { return next, false; }
      next := TakeArgument(next);
      more := true;
    }

    method TakeArgument(pos: nat) returns (next: nat)
      requires status.Running? && |argv| < argc && curArglen >= 0 && pos + curArglen + 2 <= |req|
      modifies this`curArglen, this`argv
      ensures next == pos + old(curArglen) + 2 && curArglen == -1
      ensures argv == old(argv) + [req[pos..pos + old(curArglen)]]
      ensures Feed(View(), req[next..]) == Feed(old(View()), req[pos..])
    {
      ArgumentAt(View(), req, pos);
      FeedOne(View(), req[pos..]);
      argv := argv + [req[pos..pos + curArglen]];
      next := pos + curArglen + 2;
      curArglen := -1;
    }

    method ParseArgLength(pos: nat) returns (next: nat, known: bool)
      requires status.Running? && pos <= |req| && |argv| < argc && curArglen == -1
      modifies this`curArglen, this`status
      ensures pos <= next <= |req|
      ensures known ==> status.Running? && curArglen >= 0 && Feed(View(), req[next..]) == Feed(old(View()), req[pos..])
      ensures !known ==> curArglen == -1 && next == pos
      ensures !known && status.Running? ==> Advance(View(), req[pos..]).None?
      ensures !known && !status.Running? ==> View() == Feed(old(View()), req[pos..]).0
    {
      FindCRShift(req, pos, 0);
      var newline := FindCR(req, pos);
      if newline == None { return pos, false; }
      var k := newline.value;
      if |req| < k + 2 { return pos, false; }
      BulkHeaderAt(View(), req, pos, k);
      FeedOne(View(), req[pos..]);
      if req[pos] != DOLLAR {
        status := ExpectedDollar(req[pos]);
        StoppedStays(View(), req[pos..][0..]);
        return pos, false;
      }
      var ll := String2ll(req[pos + 1..k]);
      if ll == None || ll.value < 0 || ll.value > MAX_ARG_LEN {
        status := BadBulkLength;
        StoppedStays(View(), req[pos..][0..]);
        return pos, false;
      }
      curArglen := ll.value;
      return k + 2, true;
    }
  }

  lemma FeedOne(st: Parser, buf: bytes)
    requires Advance(st, buf).Some?
    ensures Feed(st, buf) == Feed(Advance(st, buf).value.0, buf[Advance(st, buf).value.1..])
  {}

  lemma StoppedStays(st: Parser, buf: bytes)
    ensures !st.status.Running? ==> Feed(st, buf) == (st, buf)
  {}

  predicate Collecting(st: Parser) { st.status.Running? && |st.argv| < st.argc }

  lemma BulkHeaderAt(st: Parser, req: bytes, pos: nat, k: nat)
    requires Collecting(st) && st.arglen == -1 && pos <= |req| && FindCR(req, pos) == Some(k) && k + 2 <= |req|
    ensures req[pos..][k - pos + 2..] == req[k + 2..]
    ensures req[pos] == DOLLAR ==> pos < k
    ensures Advance(st, req[pos..]) ==
            if req[pos] != DOLLAR then Fail(st, ExpectedDollar(req[pos]))
            else match Parse(req[pos + 1..k])
                 case None => Fail(st, BadBulkLength)
                 case Some(n) =>
                   if n < 0 || n > MAX_ARG_LEN then Fail(st, BadBulkLength)
                   else Some((st.(arglen := n), k - pos + 2))
  {
    var rest := req[pos..];
    FindCRShift(req, pos, 0);
    assert LineEnd(rest) == Some(k - pos) && rest[0] == req[pos];
    if req[pos] == DOLLAR { assert rest[1..k - pos] == req[pos + 1..k]; }
  }

  lemma ArgumentAt(st: Parser, req: bytes, pos: nat)
    requires Collecting(st) && st.arglen >= 0 && pos + st.arglen + 2 <= |req|
    ensures req[pos..][st.arglen + 2..] == req[pos + st.arglen + 2..]
    ensures Advance(st, req[pos..]) ==
            Some((st.(argv := st.argv + [req[pos..pos + st.arglen]], arglen := -1), st.arglen + 2))
  {
    assert req[pos..][..st.arglen] == req[pos..pos + st.arglen];
  }

  lemma {:induction false} FindCRShift(buf: bytes, pos: nat, i: nat)
    requires pos + i <= |buf|
    ensures FindCR(buf[pos..], i) ==
            match FindCR(buf, pos + i) case None => None case Some(k) => Some(k - pos)
    decreases |buf| - pos - i
  {
    if pos + i < |buf| && buf[pos + i] != NUL && buf[pos + i] != CR { FindCRShift(buf, pos, i + 1); }
  }
}
