/** The Go client reading replies (client/go/kids.go), against the frames the server writes. */
module GoClient {
  import opened Bytes
  import opened Numbers
  import opened Encoding
  import opened Request
  import opened Reply

  /** bufio's ReadBytes: up to and including the first LF. */
  function FindLF(s: bytes, i: nat): (k: Option<nat>)
    requires i <= |s|
    ensures k.Some? ==> i <= k.value < |s|
    decreases |s| - i
  {
    if i == |s| then None else if s[i] == LF then Some(i) else FindLF(s, i + 1)
  }

  /** A line without its two last bytes, and what follows it. */
  function ReadLine(s: bytes): (r: Option<(bytes, bytes)>)
    ensures r.Some? ==> |r.value.1| < |s|
  {
    match FindLF(s, 0)
    case None => None
    case Some(k) => if k == 0 then None else Some((s[..k - 1], s[k + 1..]))
  }

  /** readArgv: a bulk string or an integer line. */
  function ReadArg(s: bytes): (r: Option<(bytes, bytes)>)
    ensures r.Some? ==> |r.value.1| < |s|
  {
    match ReadLine(s)
    case None => None
    case Some((line, rest)) =>
      if line == [] then None
      else if line[0] == DOLLAR then
        match Parse(line[1..])
        case None => None
        case Some(n) => if n < 0 || |rest| < n + 2 then None else Some((rest[..n], rest[n + 2..]))
      else if line[0] == COLON then Some((line[1..], rest))
      else None
  }

  function ReadArgs(s: bytes, n: nat): (r: Option<(seq<bytes>, bytes)>) {
    if n == 0 then Some(([], s))
    else match ReadArg(s)
         case None => None
         case Some((arg, rest)) =>
           match ReadArgs(rest, n - 1)
           case None => None
           case Some((args, tail)) => Some(([arg] + args, tail))
  }

  /** recvResponse: one response and the rest of the stream. */
  function Receive(s: bytes): (r: Option<(seq<bytes>, bytes)>) {
    match ReadLine(s)
    case None => None
    case Some((line, rest)) =>
      if line == [] then None
      else if line[0] == ASTERISK then
        match Parse(line[1..])
        case None => None
        case Some(n) => ReadArgs(rest, if n < 0 then 0 else n)
      else if line[0] in [COLON, PLUS, 45] then Some(([line], rest))
      else None
  }

  /** What the Go client hands out for a frame. */
  function Received(f: Frame): (r: seq<bytes>) {
    match f
    case Publication(t, c) => [MESSAGE, t, c]
    case PatternPublication(p, t, c) => [PMESSAGE, p, t, c]
    case Confirm(kind, name, count) => [kind, name, Decimal(count)]
    case Integer(n) => [[COLON] + Decimal(n)]
    case StatusLine(text) => [[PLUS] + text]
    case ErrorLine(text) => [ERR + text]
  }

  /** Sizes a machine word holds, and no line end inside a status or error text. */
  predicate Transmissible(f: Frame) {
    match f
    case Publication(t, c) => |t| <= LLONG_MAX && |c| <= LLONG_MAX
    case PatternPublication(p, t, c) => |p| <= LLONG_MAX && |t| <= LLONG_MAX && |c| <= LLONG_MAX
    case Confirm(kind, name, count) => |kind| <= LLONG_MAX && |name| <= LLONG_MAX && count <= LLONG_MAX
    case Integer(n) => true
    case StatusLine(text) => LF !in text
    case ErrorLine(text) => LF !in text
  }

  lemma {:induction false} FindLFAfter(line: bytes, rest: bytes, i: nat)
    requires i <= |line| && forall k | i <= k < |line| :: line[k] != LF
    ensures FindLF(line + CRLF + rest, i) == Some(|line| + 1)
    decreases |line| - i
  {
    if i < |line| { FindLFAfter(line, rest, i + 1); } else { assert FindLF(line + CRLF + rest, i + 1) == Some(i + 1); }
  }

  lemma ReadLineOf(line: bytes, rest: bytes)
    requires LF !in line
    ensures ReadLine(line + CRLF + rest) == Some((line, rest))
  {
    FindLFAfter(line, rest, 0);
    var s := line + CRLF + rest;
    assert s[..|line|] == line && s[|line| + 2..] == rest;
  }

  lemma DecimalHasNoLF(v: int)
    ensures LF !in Decimal(v)
  {
    DigitsAreCanonical(if v < 0 then -v else v);
    var d := Digits(if v < 0 then -v else v);
    assert forall i | 0 <= i < |d| :: IsDigit(d[i]);
  }

  lemma ReadBulk(a: bytes, rest: bytes)
    requires |a| <= LLONG_MAX
    ensures ReadArg(EncodeArg(a) + rest) == Some((a, rest))
  {
    var line := [DOLLAR] + Decimal(|a|);
    DecimalHasNoLF(|a|);
    var tail := a + CRLF + rest;
    assert EncodeArg(a) + rest == line + CRLF + tail;
    ReadLineOf(line, tail);
    assert line[1..] == Decimal(|a|);
    ParseInvertsDecimal(line[1..], |a|);
    assert tail[..|a|] == a && tail[|a| + 2..] == rest;
  }

  lemma ReadInt(n: int, rest: bytes)
    ensures ReadLine(EncodeInt(n) + rest) == Some(([COLON] + Decimal(n), rest))
    ensures ReadArg(EncodeInt(n) + rest) == Some((Decimal(n), rest))
  {
    var line := [COLON] + Decimal(n);
    DecimalHasNoLF(n);
    ReadLineOf(line, rest);
    assert EncodeInt(n) + rest == line + CRLF + rest && line[1..] == Decimal(n);
  }

  /** A bulk string in front of n arguments makes n + 1. */
  lemma ReadArgsBulk(a: bytes, tail: bytes, n: nat, args: seq<bytes>, rest: bytes)
    requires |a| <= LLONG_MAX && ReadArgs(tail, n) == Some((args, rest))
    ensures ReadArgs(EncodeArg(a) + tail, n + 1) == Some(([a] + args, rest))
  {
    ReadBulk(a, tail);
  }

  lemma ReadArgsInt(n: int, rest: bytes)
    ensures ReadArgs(EncodeInt(n) + rest, 1) == Some(([Decimal(n)], rest))
  {
    ReadInt(n, rest);
    assert ReadArgs(rest, 0) == Some(([], rest));
    assert [Decimal(n)] + [] == [Decimal(n)];
  }

  lemma ReadArgsOne(a: bytes, rest: bytes)
    requires |a| <= LLONG_MAX
    ensures ReadArgs(EncodeArg(a) + rest, 1) == Some(([a], rest))
  {
    ReadArgsBulk(a, rest, 0, [], rest);
    assert [a] + [] == [a];
  }

  lemma ReadCount(digit: byte, n: nat, body: bytes)
    requires 2 <= n <= 9 && digit == 48 + n
    ensures Receive([ASTERISK, digit] + CRLF + body) == ReadArgs(body, n)
  {
    ReadLineOf([ASTERISK, digit], body);
    assert [ASTERISK, digit][1..] == Decimal(n);
    ParseInvertsDecimal(Decimal(n), n);
  }

  lemma ReadThree(a: bytes, b: bytes, c: bytes, rest: bytes)
    requires |a| <= LLONG_MAX && |b| <= LLONG_MAX && |c| <= LLONG_MAX
    ensures ReadArgs(EncodeArg(a) + (EncodeArg(b) + (EncodeArg(c) + rest)), 3) == Some(([a, b, c], rest))
  {
    var s1 := EncodeArg(c) + rest;
    var s2 := EncodeArg(b) + s1;
    ReadArgsOne(c, rest);
    ReadArgsBulk(b, s1, 1, [c], rest);
    ReadArgsBulk(a, s2, 2, [b] + [c], rest);
    assert [a] + ([b] + [c]) == [a, b, c];
  }

  /** Pieces in front of the rest of the stream, taken off one by one. */
  lemma FourOff(a: bytes, b: bytes, c: bytes, d: bytes, rest: bytes)
    ensures Concat([a, b, c, d]) + rest == a + (b + (c + (d + rest)))
  {
    OneOff(a, [b, c, d], rest);
    OneOff(b, [c, d], rest);
    OneOff(c, [d], rest);
    ConcatOne(d);
  }

  lemma OneOff(a: bytes, ps: seq<bytes>, rest: bytes)
    ensures Concat([a] + ps) + rest == a + (Concat(ps) + rest)
    ensures forall b, c, d | ps == [b, c, d] :: [a] + ps == [a, b, c, d]
    ensures forall b, c | ps == [b, c] :: [a] + ps == [a, b, c]
    ensures forall b | ps == [b] :: [a] + ps == [a, b]
  {
    assert ([a] + ps)[1..] == ps;
    Assoc(a, Concat(ps), rest);
  }

  lemma ReadPublication(t: bytes, c: bytes, rest: bytes)
    requires Transmissible(Publication(t, c))
    ensures Receive(Encode(Publication(t, c)) + rest) == Some(([MESSAGE, t, c], rest))
  {
    var body := EncodeArg(MESSAGE) + (EncodeArg(t) + (EncodeArg(c) + rest));
    ReadThree(MESSAGE, t, c, rest);
    ReadCount(51, 3, body);
    FourOff([ASTERISK, 51] + CRLF, EncodeArg(MESSAGE), EncodeArg(t), EncodeArg(c), rest);
  }

  lemma EncodedPattern(p: bytes, t: bytes, c: bytes, rest: bytes, three: bytes)
    requires three == EncodeArg(p) + (EncodeArg(t) + (EncodeArg(c) + rest))
    ensures Encode(PatternPublication(p, t, c)) + rest == [ASTERISK, 52] + CRLF + (EncodeArg(PMESSAGE) + three)
  {
    var head, ps := [ASTERISK, 52] + CRLF, [EncodeArg(PMESSAGE), EncodeArg(p), EncodeArg(t), EncodeArg(c)];
    OneOff(head, ps, rest);
    assert [head] + ps == Pieces(PatternPublication(p, t, c));
    FourOff(EncodeArg(PMESSAGE), EncodeArg(p), EncodeArg(t), EncodeArg(c), rest);
  }

  lemma ReadPatternPublication(p: bytes, t: bytes, c: bytes, rest: bytes)
    requires Transmissible(PatternPublication(p, t, c))
    ensures Receive(Encode(PatternPublication(p, t, c)) + rest) == Some(([PMESSAGE, p, t, c], rest))
  {
    var three := EncodeArg(p) + (EncodeArg(t) + (EncodeArg(c) + rest));
    ReadThree(p, t, c, rest);
    EncodedPattern(p, t, c, rest, three);
    ReadFour(PMESSAGE, three, [p, t, c], rest);
    assert [PMESSAGE] + [p, t, c] == [PMESSAGE, p, t, c];
  }

  lemma ReadFour(kind: bytes, tail: bytes, args: seq<bytes>, rest: bytes)
    requires |kind| <= LLONG_MAX && ReadArgs(tail, 3) == Some((args, rest))
    ensures Receive([ASTERISK, 52] + CRLF + (EncodeArg(kind) + tail)) == Some(([kind] + args, rest))
  {
    ReadCount(52, 4, EncodeArg(kind) + tail);
    ReadArgsBulk(kind, tail, 3, args, rest);
  }

  lemma ReadConfirm(kind: bytes, name: bytes, count: nat, rest: bytes)
    requires Transmissible(Confirm(kind, name, count))
    ensures Receive(Encode(Confirm(kind, name, count)) + rest) == Some(([kind, name, Decimal(count)], rest))
  {
    var s1 := EncodeInt(count) + rest;
    var s2 := EncodeArg(name) + s1;
    ReadArgsInt(count, rest);
    ReadArgsBulk(name, s1, 1, [Decimal(count)], rest);
    ReadArgsBulk(kind, s2, 2, [name] + [Decimal(count)], rest);
    FourOff([ASTERISK, 51] + CRLF, EncodeArg(kind), EncodeArg(name), EncodeInt(count), rest);
    ReadCount(51, 3, EncodeArg(kind) + s2);
    ThreeArgs([kind], [name], [Decimal(count)]);
  }

  lemma ThreeArgs(a: seq<bytes>, b: seq<bytes>, c: seq<bytes>)
    requires |a| == |b| == |c| == 1
    ensures a + (b + c) == [a[0], b[0], c[0]]
  {}

  lemma ReadLineFrame(f: Frame, line: bytes, rest: bytes)
    requires Pieces(f) == [line + CRLF] && LF !in line && line != [] && line[0] in [COLON, PLUS, 45]
    ensures Receive(Encode(f) + rest) == Some(([line], rest))
  {
    OneGranted(f, line + CRLF);
    ReadLineOf(line, rest);
  }

  /** The Go client reads each frame back as what it says, whatever bytes the topics and contents hold, and is left
      exactly at the next frame. */
  lemma ReceiveEncoded(f: Frame, rest: bytes)
    requires Transmissible(f)
    ensures Receive(Encode(f) + rest) == Some((Received(f), rest))
  {
    match f {
      case Publication(t, c) => ReadPublication(t, c, rest);
      case PatternPublication(p, t, c) => ReadPatternPublication(p, t, c, rest);
      case Confirm(kind, name, count) => ReadConfirm(kind, name, count, rest);
      case Integer(n) =>
        OneGranted(f, EncodeInt(n));
        ReadInt(n, rest);
      case StatusLine(text) => ReadLineFrame(f, [PLUS] + text, rest);
      case ErrorLine(text) => ReadLineFrame(f, ERR + text, rest);
    }
  }

  /** All responses of a stream, in order. */
  function ReceiveN(s: bytes, n: nat): (r: Option<(seq<seq<bytes>>, bytes)>) {
    if n == 0 then Some(([], s))
    else match ReceiveN(s, n - 1)
         case None => None
         case Some((done, rest)) =>
           match Receive(rest)
           case None => None
           case Some((one, tail)) => Some((done + [one], tail))
  }

  function ReceivedAll(fs: seq<Frame>): (r: seq<seq<bytes>>) {
    if fs == [] then [] else ReceivedAll(fs[..|fs| - 1]) + [Received(fs[|fs| - 1])]
  }

  predicate AllTransmissible(fs: seq<Frame>) { forall i | 0 <= i < |fs| :: Transmissible(fs[i]) }

  /** Frame for frame, the client sees what the channel accepted. */
  lemma {:induction false} ClientSeesFrames(fs: seq<Frame>, rest: bytes)
    requires AllTransmissible(fs)
    ensures ReceiveN(EncodeFrames(fs) + rest, |fs|) == Some((ReceivedAll(fs), rest))
    decreases |fs|
  {
    if fs == [] {
      assert EncodeFrames(fs) + rest == rest;
    } else {
      var front, last := fs[..|fs| - 1], fs[|fs| - 1];
      var e := Encode(last);
      ClientSeesFrames(front, e + rest);
      ReceiveEncoded(last, rest);
      ReceiveLast(EncodeFrames(front), e, rest, |front|, ReceivedAll(front), Received(last));
    }
  }

  lemma ReceiveLast(s: bytes, e: bytes, rest: bytes, n: nat, done: seq<seq<bytes>>, one: seq<bytes>)
    requires ReceiveN(s + (e + rest), n) == Some((done, e + rest)) && Receive(e + rest) == Some((one, rest))
    ensures ReceiveN(s + e + rest, n + 1) == Some((done + [one], rest))
  {
    Assoc(s, e, rest);
    OneMore(s + (e + rest), n, done, e + rest, one, rest);
  }

  lemma OneMore(s: bytes, n: nat, done: seq<seq<bytes>>, mid: bytes, one: seq<bytes>, rest: bytes)
    requires ReceiveN(s, n) == Some((done, mid)) && Receive(mid) == Some((one, rest))
    ensures ReceiveN(s, n + 1) == Some((done + [one], rest))
  {}

  // ----- A torn frame -----

  lemma {:induction false} FirstOfMany(s: bytes, n: nat)
    requires n > 0 && ReceiveN(s, n).Some?
    ensures Receive(s).Some?
  {
    if n > 1 { FirstOfMany(s, n - 1); }
  }

  /** What arrives of a message frame when the registration for its last piece alone is refused. */
  function TornMessage(t: bytes): (r: bytes) { [ASTERISK, 51] + CRLF + (EncodeArg(MESSAGE) + EncodeArg(t)) }

  predicate AllButTheFourth(i: nat) { i != 3 }

  lemma TornIsGranted(t: bytes, c: bytes)
    ensures Granted(Pieces(Publication(t, c)), AllButTheFourth) == TornMessage(t)
  {
    var head, kind, topic := [ASTERISK, 51] + CRLF, EncodeArg(MESSAGE), EncodeArg(t);
    GrantedFour(head, kind, topic, EncodeArg(c), AllButTheFourth);
    Assoc(head, kind, topic);
  }

  lemma TornIsNotRead(t: bytes)
    requires |t| <= LLONG_MAX
    ensures Receive(TornMessage(t)) == None
  {
    var s2 := EncodeArg(t);
    ReadCount(51, 3, EncodeArg(MESSAGE) + s2);
    NothingAdded(s2);
    ReadBulk(MESSAGE, s2);
    ReadBulk(t, []);
    assert ReadArgs([], 1) == None;
    assert ReadArgs(s2, 2) == None;
  }

  /** A frame torn between two pieces is a witness that refusals in the middle break the stream: no frames at all
      encode to what arrived. */
  lemma TornIsNoFrames(t: bytes, c: bytes, fs: seq<Frame>)
    requires |t| <= LLONG_MAX && AllTransmissible(fs)
    ensures EncodeFrames(fs) != Granted(Pieces(Publication(t, c)), AllButTheFourth)
  {
    TornIsGranted(t, c);
    TornIsNotRead(t);
    if fs != [] {
      ClientSeesFrames(fs, []);
      NothingAdded(EncodeFrames(fs));
      FirstOfMany(EncodeFrames(fs), |fs|);
    }
  }

  // ----- What the client does with a response nobody waits for -----

  datatype Log = Log(pattern: bytes, topic: bytes, content: bytes)

  function Upper(b: byte): (r: byte) { if 97 <= b <= 122 then b - 32 else b }

  function UpperAll(s: bytes): (r: bytes) { seq(|s|, i requires 0 <= i < |s| => Upper(s[i])) }

  /** recvResponseRoutine: messages go to the user, everything else is dropped. */
  function Dispatch(resp: seq<bytes>): (r: Option<Log>) {
    if |resp| >= 3 && UpperAll(resp[0]) == [77, 69, 83, 83, 65, 71, 69] then Some(Log([], resp[1], resp[2]))
    else if |resp| >= 4 && UpperAll(resp[0]) == [80, 77, 69, 83, 83, 65, 71, 69] then Some(Log(resp[1], resp[2], resp[3]))
    else None
  }

  /** The user gets each publication with its topic and content, by pattern with the pattern too, and nothing else. */
  lemma UserGets(f: Frame)
    requires f.Confirm? ==> f.kind in [SUBSCRIBE, PSUBSCRIBE, UNSUBSCRIBE, PUNSUBSCRIBE]
    ensures Dispatch(Received(f)) ==
            match f
            case Publication(t, c) => Some(Log([], t, c))
            case PatternPublication(p, t, c) => Some(Log(p, t, c))
            case _ => None
  {
    assert UpperAll(MESSAGE) == [77, 69, 83, 83, 65, 71, 69];
    assert UpperAll(PMESSAGE) == [80, 77, 69, 83, 83, 65, 71, 69];
    assert |UpperAll(SUBSCRIBE)| == 9 && |UpperAll(PSUBSCRIBE)| == 10 && |UpperAll(UNSUBSCRIBE)| == 11 && |UpperAll(PUNSUBSCRIBE)| == 12;
  }

  // ----- Byte for byte -----

  lemma InFour(a: bytes, b: bytes, c: bytes, d: bytes)
    ensures Concat([a, b, c, d]) == a + (b + (c + d))
  {
    FourOff(a, b, c, d, []);
    NothingAdded(d);
    NothingAdded(Concat([a, b, c, d]));
  }

  /** A message on the wire: `*3`, `$7`, `message`, and topic and content with their lengths. */
  lemma MessageOnTheWire(t: bytes, c: bytes)
    ensures Encode(Publication(t, c)) ==
            [42, 51, 13, 10] + ([36, 55, 13, 10, 109, 101, 115, 115, 97, 103, 101, 13, 10] +
            (([36] + Decimal(|t|) + [13, 10] + t + [13, 10]) + ([36] + Decimal(|c|) + [13, 10] + c + [13, 10])))
  {
    InFour([ASTERISK, 51] + CRLF, EncodeArg(MESSAGE), EncodeArg(t), EncodeArg(c));
    ShortArg(MESSAGE, 55);
    assert EncodeArg(MESSAGE) == [36, 55, 13, 10, 109, 101, 115, 115, 97, 103, 101, 13, 10];
    assert [ASTERISK, 51] + CRLF == [42, 51, 13, 10];
  }

  lemma ShortArg(a: bytes, digit: byte)
    requires |a| < 10 && digit == 48 + |a|
    ensures EncodeArg(a) == [36, digit, 13, 10] + a + [13, 10]
  {
    assert Decimal(|a|) == [digit];
  }

  /** A confirmation on the wire: `*3`, its kind, the name, and the count as an integer. */
  lemma ConfirmationOnTheWire(name: bytes, count: nat)
    ensures Encode(Confirm(SUBSCRIBE, name, count)) ==
            [42, 51, 13, 10] + ([36, 57, 13, 10, 115, 117, 98, 115, 99, 114, 105, 98, 101, 13, 10] +
            (([36] + Decimal(|name|) + [13, 10] + name + [13, 10]) + ([58] + Decimal(count) + [13, 10])))
  {
    InFour([ASTERISK, 51] + CRLF, EncodeArg(SUBSCRIBE), EncodeArg(name), EncodeInt(count));
    ShortArg(SUBSCRIBE, 57);
  }

  /** The one-line replies. */
  lemma LinesOnTheWire(n: int, text: bytes)
    ensures Encode(Integer(n)) == [58] + Decimal(n) + [13, 10]
    ensures Encode(StatusLine(text)) == [43] + text + [13, 10]
    ensures Encode(ErrorLine(text)) == [45, 69, 82, 82, 32] + text + [13, 10]
    ensures Encode(StatusLine(OK)) == [43, 79, 75, 13, 10]
  {
    OneGranted(Integer(n), EncodeInt(n));
    OneGranted(StatusLine(text), [PLUS] + text + CRLF);
    OneGranted(ErrorLine(text), ERR + text + CRLF);
    OneGranted(StatusLine(OK), [PLUS] + OK + CRLF);
  }
}
