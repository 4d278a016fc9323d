/** The reply side of a client connection: frames are appended to one buffer that is drained by partial writes
    (src/client.cc). */
module Reply {
  import opened Bytes
  import opened Numbers
  import opened Encoding
  import opened Request

  const COLON: byte := 58
  const PLUS: byte := 43
  const MAX_WRITE_PER_EVENT := 64 * 1024

  const MESSAGE: bytes := [109, 101, 115, 115, 97, 103, 101]
  const PMESSAGE: bytes := [112, 109, 101, 115, 115, 97, 103, 101]
  const SUBSCRIBE: bytes := [115, 117, 98, 115, 99, 114, 105, 98, 101]
  const PSUBSCRIBE: bytes := [112] + SUBSCRIBE
  const UNSUBSCRIBE: bytes := [117, 110] + SUBSCRIBE
  const PUNSUBSCRIBE: bytes := [112] + UNSUBSCRIBE
  const OK: bytes := [79, 75]
  const ERR: bytes := [45, 69, 82, 82, SPACE]

  /** One whole reply. Confirm is the answer to the four (un)subscribe commands; kind is its first bulk string. */
  datatype Frame =
    | Publication(topic: bytes, content: bytes)
    | PatternPublication(pattern: bytes, topic: bytes, content: bytes)
    | Confirm(kind: bytes, name: bytes, count: nat)
    | Integer(n: int)
    | StatusLine(text: bytes)
    | ErrorLine(text: bytes)

  /** The pieces a frame is put together from, each with a registration of its own; a bulk string is written as a
      request argument is. */
  function Pieces(f: Frame): (r: seq<bytes>) {
    match f
    case Publication(t, c) => [[ASTERISK, 51] + CRLF, EncodeArg(MESSAGE), EncodeArg(t), EncodeArg(c)]
    case PatternPublication(p, t, c) => [[ASTERISK, 52] + CRLF, EncodeArg(PMESSAGE), EncodeArg(p), EncodeArg(t), EncodeArg(c)]
    case Confirm(kind, name, count) => [[ASTERISK, 51] + CRLF, EncodeArg(kind), EncodeArg(name), EncodeInt(count)]
    case Integer(n) => [EncodeInt(n)]
    case StatusLine(text) => [[PLUS] + text + CRLF]
    case ErrorLine(text) => [ERR + text + CRLF]
  }

  function Encode(f: Frame): (r: bytes) { Concat(Pieces(f)) }

  function EncodeInt(n: int): (r: bytes) { [COLON] + Decimal(n) + CRLF }

  function EncodeFrames(fs: seq<Frame>): (r: bytes) {
    if fs == [] then [] else EncodeFrames(fs[..|fs| - 1]) + Encode(fs[|fs| - 1])
  }

  // ----- Pieces that are refused -----

  function If(granted: bool, piece: bytes): (r: bytes) { if granted then piece else [] }

  /** The pieces whose registration was granted. */
  function Granted(ps: seq<bytes>, grants: nat -> bool): (r: bytes) {
    if ps == [] then [] else Granted(ps[..|ps| - 1], grants) + If(grants(|ps| - 1), ps[|ps| - 1])
  }

  predicate AllGranted(n: nat, grants: nat -> bool) { forall i | 0 <= i < n :: grants(i) }

  predicate NoneGranted(n: nat, grants: nat -> bool) { forall i | 0 <= i < n :: !grants(i) }

  /** A frame arrives whole iff every piece is granted, and leaves no trace iff none is. */
  lemma {:induction false} WholeIffAll(ps: seq<bytes>, grants: nat -> bool)
    requires forall i | 0 <= i < |ps| :: ps[i] != []
    ensures |Granted(ps, grants)| <= |Concat(ps)|
    ensures Granted(ps, grants) == Concat(ps) <==> AllGranted(|ps|, grants)
    ensures Granted(ps, grants) == [] <==> NoneGranted(|ps|, grants)
  {
    if ps != [] {
      var front, last := ps[..|ps| - 1], ps[|ps| - 1];
      WholeIffAll(front, grants);
      ConcatSnoc(front, last);
      assert ps == front + [last];
      if grants(|ps| - 1) {
        if Granted(front, grants) + last == Concat(front) + last { SameFront(Granted(front, grants), Concat(front), last); }
      } else {
        assert |Granted(ps, grants)| < |Concat(ps)|;
      }
    }
  }

  lemma SameFront(a: bytes, b: bytes, tail: bytes)
    requires a + tail == b + tail
    ensures a == b
  {
    assert |a| == |b|;
    assert (a + tail)[..|a|] == a && (b + tail)[..|a|] == b;
  }

  lemma PiecesAreNotEmpty(f: Frame)
    ensures forall i | 0 <= i < |Pieces(f)| :: Pieces(f)[i] != []
  {}

  class ReplyChannel {
    var rep: bytes
    var sentlen: nat
    var closeAfterReply: bool
    var closeAsap: bool
    var freed: bool
    ghost var wire: bytes
    ghost var frames: seq<Frame>

    /** What went out and what is still to go are whole frames, in the order they were produced. */
    ghost predicate Valid()
      reads this
    {
      && sentlen <= |rep|
      && wire + rep[sentlen..] == EncodeFrames(frames)
    }

    /** Frames that start now are not dropped. */
    predicate Open()
      reads this
    {
      !closeAfterReply && sentlen == 0
    }

    constructor ()
      ensures Valid() && frames == [] && wire == [] && Open() && !freed
    {
      rep, sentlen := [], 0;
      closeAfterReply, closeAsap, freed := false, false, false;
      wire, frames := [], [];
    }

    /** The event loop is asked each time; it may refuse to watch the descriptor. */
    predicate SetWriteEvent(granted: bool)
      reads this
    {
      sentlen == 0 && granted
    }

    /** Hard and soft limits depend on the configuration and the clock. */
    method CheckOutputBufferLimits() returns (over: bool)
    {
      over := |rep| >= 0x100_0000;
    }

    method AsyncCloseOnOutputBufferLimitsReached()
      modifies this`closeAsap
      ensures old(closeAsap) ==> closeAsap
    {
      if closeAsap { return; }
      var over := CheckOutputBufferLimits();
      if over { closeAsap := true; }
    }

    /** Reply: one piece of a frame. */
    method Put(data: bytes, granted: bool)
      modifies this`rep, this`closeAsap
      ensures rep == old(rep) + If(Open() && granted, data)
    {
      if closeAfterReply { return; }
      if !SetWriteEvent(granted) { return; }
      rep := rep + data;
      AsyncCloseOnOutputBufferLimitsReached();
    }

    method PutBulk(data: bytes, granted: bool)
      modifies this`rep, this`closeAsap
      ensures rep == old(rep) + If(Open() && granted, EncodeArg(data))
    {
      if closeAfterReply { return; }
      if !SetWriteEvent(granted) { return; }
      AppendArg(rep, data);
      rep := rep + ([DOLLAR] + Decimal(|data|) + CRLF);
      rep := rep + data;
      rep := rep + CRLF;
      AsyncCloseOnOutputBufferLimitsReached();
    }

    method PutLongLong(n: int, granted: bool)
      requires LLONG_MIN < n <= LLONG_MAX
      modifies this`rep, this`closeAsap
      ensures rep == old(rep) + If(Open() && granted, EncodeInt(n))
    {
      if n == 0 || n == 1 {
        assert EncodeInt(n) == [COLON, 48 + n, CR, LF];
        Put([COLON, 48 + n, CR, LF], granted);
      } else {
        var digits := new byte[127];
        DigitsFit(if n < 0 then -n else n);
        var len := Ll2string(digits, 127, n);
        assert digits[..len] == Decimal(n);
        Put([COLON] + digits[..len] + CRLF, granted);
      }
    }

    /** A status or error line is put together behind one registration. */
    method PutLine(mark: bytes, text: bytes, granted: bool)
      modifies this`rep, this`closeAsap
      ensures rep == old(rep) + If(Open() && granted, mark + text + CRLF)
    {
      if closeAfterReply { return; }
      if !SetWriteEvent(granted) { return; }
      Assoc(rep, mark, text);
      Assoc(rep, mark + text, CRLF);
      rep := rep + mark;
      rep := rep + text;
      rep := rep + CRLF;
      AsyncCloseOnOutputBufferLimitsReached();
    }

    /** The history, once all pieces of a frame were put: the frame is in it if it is there whole. The channel is
        sound afterwards iff the frame is there whole or not at all. */
    ghost method Produced(f: Frame, got: bytes, all: bool, none: bool, before: bytes)
      requires sentlen <= |before| && wire + before[sentlen..] == EncodeFrames(frames)
      requires rep == before + If(Open(), got)
      requires (all ==> got == Encode(f)) && (none <==> got == [])
      modifies this`frames
      ensures frames == if Open() && all then old(frames) + [f] else old(frames)
      ensures Valid() <==> !Open() || all || none
    {
      if Open() {
        Arrival(wire, before, frames, f, got, all);
        assert before[0..] == before && rep[0..] == rep;
        if all { frames := frames + [f]; }
      } else {
        NothingAdded(before);
      }
    }

    method ReceiveMessage(topic: bytes, content: bytes, grants: nat -> bool)
      requires Valid()
      modifies this`rep, this`closeAsap, this`frames
      ensures rep == old(rep) + If(Open(), Granted(Pieces(Publication(topic, content)), grants))
      ensures frames == if Open() && AllGranted(4, grants) then old(frames) + [Publication(topic, content)] else old(frames)
      ensures Valid() <==> !Open() || AllGranted(4, grants) || NoneGranted(4, grants)
    {
      ghost var before := rep;
      Put([ASTERISK, 51] + CRLF, grants(0));
      Put(EncodeArg(MESSAGE), grants(1));
      PutBulk(topic, grants(2));
      PutBulk(content, grants(3));
      ghost var f := Publication(topic, content);
      ghost var got := FourGranted(before, f, [ASTERISK, 51] + CRLF, EncodeArg(MESSAGE), EncodeArg(topic), EncodeArg(content), grants, Open(), rep);
      Produced(f, got, AllGranted(4, grants), NoneGranted(4, grants), before);
    }

    method ReceivePatternMessage(pattern: bytes, topic: bytes, content: bytes, grants: nat -> bool)
      requires Valid()
      modifies this`rep, this`closeAsap, this`frames
      ensures rep == old(rep) + If(Open(), Granted(Pieces(PatternPublication(pattern, topic, content)), grants))
      ensures frames == if Open() && AllGranted(5, grants) then old(frames) + [PatternPublication(pattern, topic, content)] else old(frames)
      ensures Valid() <==> !Open() || AllGranted(5, grants) || NoneGranted(5, grants)
    {
      ghost var before := rep;
      Put([ASTERISK, 52] + CRLF, grants(0));
      Put(EncodeArg(PMESSAGE), grants(1));
      PutBulk(pattern, grants(2));
      PutBulk(topic, grants(3));
      PutBulk(content, grants(4));
      ghost var f := PatternPublication(pattern, topic, content);
      ghost var got := FiveGranted(before, f, [ASTERISK, 52] + CRLF, EncodeArg(PMESSAGE), EncodeArg(pattern), EncodeArg(topic), EncodeArg(content), grants, Open(), rep);
      Produced(f, got, AllGranted(5, grants), NoneGranted(5, grants), before);
    }

    /** The confirmation written by the (un)subscribe handlers of src/pubsub.cc. */
    method ConfirmSubscription(kind: bytes, name: bytes, count: nat, grants: nat -> bool)
      requires Valid() && count <= LLONG_MAX
      modifies this`rep, this`closeAsap, this`frames
      ensures rep == old(rep) + If(Open(), Granted(Pieces(Confirm(kind, name, count)), grants))
      ensures frames == if Open() && AllGranted(4, grants) then old(frames) + [Confirm(kind, name, count)] else old(frames)
      ensures Valid() <==> !Open() || AllGranted(4, grants) || NoneGranted(4, grants)
    {
      ghost var before := rep;
      Put([ASTERISK, 51] + CRLF, grants(0));
      Put(EncodeArg(kind), grants(1));
      PutBulk(name, grants(2));
      PutLongLong(count, grants(3));
      ghost var f := Confirm(kind, name, count);
      ghost var got := FourGranted(before, f, [ASTERISK, 51] + CRLF, EncodeArg(kind), EncodeArg(name), EncodeInt(count), grants, Open(), rep);
      Produced(f, got, AllGranted(4, grants), NoneGranted(4, grants), before);
    }

    method ReplyNumber(n: int, granted: bool)
      requires Valid() && LLONG_MIN < n <= LLONG_MAX
      modifies this`rep, this`closeAsap, this`frames
      ensures Valid() && frames == if Open() && granted then old(frames) + [Integer(n)] else old(frames)
    {
      PutLongLong(n, granted);
      OneGranted(Integer(n), EncodeInt(n));
      Produced(Integer(n), If(granted, EncodeInt(n)), granted, !granted, old(rep));
    }

    method ReplyStatus(text: bytes, granted: bool)
      requires Valid()
      modifies this`rep, this`closeAsap, this`frames
      ensures Valid() && frames == if Open() && granted then old(frames) + [StatusLine(text)] else old(frames)
    {
      PutLine([PLUS], text, granted);
      OneGranted(StatusLine(text), [PLUS] + text + CRLF);
      Produced(StatusLine(text), If(granted, [PLUS] + text + CRLF), granted, !granted, old(rep));
    }

    method ReplyError(text: bytes, granted: bool)
      requires Valid()
      modifies this`rep, this`closeAsap, this`frames
      ensures Valid() && frames == if Open() && granted then old(frames) + [ErrorLine(text)] else old(frames)
    {
      PutLine(ERR, text, granted);
      OneGranted(ErrorLine(text), ERR + text + CRLF);
      Produced(ErrorLine(text), If(granted, ERR + text + CRLF), granted, !granted, old(rep));
    }

    /** QUIT: the last frame, after which the channel takes no more. */
    method ProcessQuit(granted: bool)
      requires Valid()
      modifies this`rep, this`closeAsap, this`closeAfterReply, this`frames
      ensures Valid() && closeAfterReply && !Open()
      ensures frames == if old(Open()) && granted then old(frames) + [StatusLine(OK)] else old(frames)
    {
      Put([PLUS] + OK + CRLF, granted);
      OneGranted(StatusLine(OK), [PLUS] + OK + CRLF);
      Produced(StatusLine(OK), If(granted, [PLUS] + OK + CRLF), granted, !granted, old(rep));
      closeAfterReply := true;
    }

    /** The write event: any number of partial writes; the k-th is offered to by the socket as offers(k) says, and
        eagain is what errno says of a failed one. A client is freed here if and only if a write failed for good, or it
        is closing and nothing is left to send. */
    method SendReply(offers: nat -> int, eagain: bool) returns (failed: bool)
      requires Valid()
      modifies this`rep, this`sentlen, this`freed, this`wire
      ensures Valid() && failed == (!eagain && Fails(|old(rep)| - old(sentlen), offers, 0, 0))
      ensures var taken := Taken(|old(rep)| - old(sentlen), offers, 0, 0);
        && wire == old(wire) + old(rep)[old(sentlen)..old(sentlen) + taken]
        && (if taken > 0 && old(sentlen) + taken == |old(rep)| then rep == [] && sentlen == 0 && wire == EncodeFrames(frames)
            else rep == old(rep) && sentlen == old(sentlen) + taken)
      ensures freed <==> old(freed) || failed || (closeAfterReply && sentlen == |rep|)
    {
      var nwritten := WriteSome(offers, EncodeFrames(frames));
      failed := nwritten == -1 && !eagain;
      if failed {
        freed := true;
        return;
      }
      if sentlen >= |rep| {
        if closeAfterReply { freed := true; }
      }
    }

    /** The writes, and the buffer emptied if they took all of it; goal is all that was ever to be sent. */
    method WriteSome(offers: nat -> int, ghost goal: bytes) returns (nwritten: int)
      requires sentlen <= |rep| && wire + rep[sentlen..] == goal
      modifies this`rep, this`sentlen, this`wire
      ensures sentlen <= |rep| && wire + rep[sentlen..] == goal
      ensures nwritten == -1 <==> Fails(|old(rep)| - old(sentlen), offers, 0, 0)
      ensures nwritten == -1 ==> sentlen < |rep|
      ensures var taken := Taken(|old(rep)| - old(sentlen), offers, 0, 0);
        && wire == old(wire) + old(rep)[old(sentlen)..old(sentlen) + taken]
        && (if taken > 0 && old(sentlen) + taken == |old(rep)| then rep == [] && sentlen == 0 && wire == goal
            else rep == old(rep) && sentlen == old(sentlen) + taken)
    {
      var from := sentlen;
      nwritten := WriteLoop(offers, goal);
      assert sentlen - from == Taken(|rep| - from, offers, 0, 0);
      if sentlen > from && sentlen == |rep| {
        AllSent(wire, rep);
        NothingAdded(wire);
        rep, sentlen := [], 0;
      }
    }

    method WriteLoop(offers: nat -> int, ghost goal: bytes) returns (nwritten: int)
      requires sentlen <= |rep| && wire + rep[sentlen..] == goal
      modifies this`sentlen, this`wire
      ensures Moved(old(wire), wire, rep, old(sentlen), sentlen, goal)
      ensures EventIs(|rep| - old(sentlen), offers, sentlen - old(sentlen), nwritten)
      ensures nwritten == -1 ==> sentlen < |rep|
    {
      ghost var start, from, left := wire, sentlen, |rep| - sentlen;
      MovedNone(wire, rep, from, goal);
      var k, tot := 0, 0;
      nwritten := 0;
      while sentlen < |rep|
        invariant Moved(start, wire, rep, from, sentlen, goal)
        invariant tot == sentlen - from && nwritten != -1
        invariant Going(left, offers, k, tot)
        decreases |rep| - sentlen
      {
        nwritten := WriteOnce(offers(k), start, from, goal);
        GoingOn(left, offers, k, tot, nwritten);
        if nwritten <= 0 { return; }
        tot := tot + nwritten;
        if tot > MAX_WRITE_PER_EVENT { return; }
        k := k + 1;
      }
      GoingDone(left, offers, k, nwritten);
    }

    /** One write(2), when the socket would take `offer` bytes. */
    method WriteOnce(offer: int, ghost start: bytes, ghost from: nat, ghost goal: bytes) returns (n: int)
      requires Moved(start, wire, rep, from, sentlen, goal) && sentlen < |rep|
      modifies this`sentlen, this`wire
      ensures Moved(start, wire, rep, from, sentlen, goal)
      ensures n == Returned(offer, |rep| - old(sentlen)) && sentlen == old(sentlen) + if n > 0 then n else 0
    {
      n := Returned(offer, |rep| - sentlen);
      if n > 0 {
        MovedMore(start, wire, rep, from, sentlen, n, goal);
        wire := wire + rep[sentlen..sentlen + n];
        sentlen := sentlen + n;
      }
    }
  }

  /** The bytes from `from` up to `at` went out, and what is left completes what was to be sent. */
  predicate Moved(start: bytes, wire: bytes, rep: bytes, from: nat, at: nat, goal: bytes) {
    from <= at <= |rep| && wire == start + rep[from..at] && wire + rep[at..] == goal
  }

  lemma MovedNone(wire: bytes, rep: bytes, from: nat, goal: bytes)
    requires from <= |rep| && wire + rep[from..] == goal
    ensures Moved(wire, wire, rep, from, from, goal)
  {
    NothingAdded(wire);
    assert rep[from..from] == [];
  }

  lemma MovedMore(start: bytes, wire: bytes, rep: bytes, from: nat, at: nat, n: nat, goal: bytes)
    requires Moved(start, wire, rep, from, at, goal) && at + n <= |rep|
    ensures Moved(start, wire + rep[at..at + n], rep, from, at + n, goal)
    ensures at + n == |rep| ==> wire + rep[at..at + n] == goal
  {
    assert rep[from..at + n] == rep[from..at] + rep[at..at + n];
    Assoc(start, rep[from..at], rep[at..at + n]);
    Sent(wire, rep, at, n);
    AllSent(wire + rep[at..at + n], rep);
  }

  // ----- What a write event moves -----

  /** What write(2) returns for len bytes when the socket would take `offer` of them; -1 is an error. */
  function Returned(offer: int, len: nat): (n: int)
    ensures -1 <= n <= len
  {
    if offer > len then len else if offer < 0 then -1 else offer
  }

  /** How many of the bytes left one event moves, from its k-th write on, with tot moved already. */
  function Taken(left: nat, offers: nat -> int, k: nat, tot: nat): (r: nat)
    ensures r <= left
    decreases left
  {
    if left == 0 then 0
    else var n := Returned(offers(k), left);
      if n <= 0 then 0 else if tot + n > MAX_WRITE_PER_EVENT then n else n + Taken(left - n, offers, k + 1, tot + n)
  }

  /** Whether the event's last write is an error. */
  predicate Fails(left: nat, offers: nat -> int, k: nat, tot: nat)
    decreases left
  {
    left > 0 && var n := Returned(offers(k), left);
      n == -1 || (n > 0 && tot + n <= MAX_WRITE_PER_EVENT && Fails(left - n, offers, k + 1, tot + n))
  }

  /** An event moves something if and only if there is something and the socket takes some; a socket that takes whatever
      it is given gets all of it at once; and only an error makes it fail. */
  lemma TakenIs(left: nat, offers: nat -> int)
    ensures Taken(left, offers, 0, 0) > 0 <==> left > 0 && offers(0) > 0
    ensures offers(0) >= left ==> Taken(left, offers, 0, 0) == left
    ensures left > 0 && offers(0) < 0 ==> Fails(left, offers, 0, 0)
  {}

  /** An event stops behind the write that takes it past 65536 bytes, so that other clients are served. */
  lemma EventStops(left: nat, offers: nat -> int)
    requires 0 < offers(0) < left
    ensures offers(0) > 65536 ==> Taken(left, offers, 0, 0) == offers(0)
    ensures offers(0) <= 65536 && offers(1) >= left ==> Taken(left, offers, 0, 0) == left
  {
    TakenStep(left, offers, 0, 0, offers(0));
    if offers(0) <= 65536 && offers(1) >= left {
      TakenStep(left - offers(0), offers, 1, offers(0), left - offers(0));
    }
  }

  lemma {:induction false} NoErrorNoFailure(left: nat, offers: nat -> int, k: nat, tot: nat)
    requires forall j: nat :: offers(j) >= 0
    ensures !Fails(left, offers, k, tot)
    decreases left
  {
    if left > 0 && Returned(offers(k), left) > 0 {
      NoErrorNoFailure(left - Returned(offers(k), left), offers, k + 1, tot + Returned(offers(k), left));
    }
  }

  /** While the cap is not passed, an event takes what the socket offers, write by write, until it offers nothing. */
  lemma {:induction false} EventMoves(left: nat, offers: nat -> int, k: nat, tot: nat)
    ensures var r := Taken(left, offers, k, tot);
      r < left ==> tot + r > MAX_WRITE_PER_EVENT || exists j: nat :: j >= k && offers(j) <= 0
    decreases left
  {
    if left > 0 {
      var n := Returned(offers(k), left);
      if n > 0 && tot + n <= MAX_WRITE_PER_EVENT { EventMoves(left - n, offers, k + 1, tot + n); }
    }
  }

  /** What an event with `left` bytes to send comes to: how many it moved, and what its last write returned. */
  predicate EventIs(left: nat, offers: nat -> int, moved: nat, n: int) {
    moved == Taken(left, offers, 0, 0) && (n == -1 <==> Fails(left, offers, 0, 0))
  }

  /** In the middle of an event: tot bytes moved in k writes, and what is left decides how many it will be in all. */
  predicate Going(left: nat, offers: nat -> int, k: nat, tot: nat) {
    && tot <= left && Taken(left, offers, 0, 0) == tot + Taken(left - tot, offers, k, tot)
    && Fails(left, offers, 0, 0) == Fails(left - tot, offers, k, tot)
  }

  lemma GoingDone(left: nat, offers: nat -> int, k: nat, n: int)
    requires Going(left, offers, k, left) && n != -1
    ensures EventIs(left, offers, left, n)
  {}

  /** One write: it ends the event, or the event goes on with what it left. */
  lemma TakenStep(left: nat, offers: nat -> int, k: nat, tot: nat, n: int)
    requires left > 0 && n == Returned(offers(k), left)
    ensures n <= 0 ==> Taken(left, offers, k, tot) == 0 && Fails(left, offers, k, tot) == (n == -1)
    ensures n > 0 && tot + n > MAX_WRITE_PER_EVENT ==> Taken(left, offers, k, tot) == n && !Fails(left, offers, k, tot)
    ensures n > 0 && tot + n <= MAX_WRITE_PER_EVENT ==>
              && Taken(left, offers, k, tot) == n + Taken(left - n, offers, k + 1, tot + n)
              && Fails(left, offers, k, tot) == Fails(left - n, offers, k + 1, tot + n)
  {}

  lemma GoingOn(left: nat, offers: nat -> int, k: nat, tot: nat, n: int)
    requires Going(left, offers, k, tot) && tot < left && n == Returned(offers(k), left - tot)
    ensures n <= 0 ==> EventIs(left, offers, tot, n)
    ensures n > 0 && tot + n > MAX_WRITE_PER_EVENT ==> EventIs(left, offers, tot + n, n)
    ensures n > 0 && tot + n <= MAX_WRITE_PER_EVENT ==> Going(left, offers, k + 1, tot + n)
  {
    TakenStep(left - tot, offers, k, tot, n);
  }

  lemma FramesSnoc(fs: seq<Frame>, f: Frame)
    ensures EncodeFrames(fs + [f]) == EncodeFrames(fs) + Encode(f)
  {
    assert (fs + [f])[..|fs|] == fs;
  }

  lemma OneGranted(f: Frame, piece: bytes)
    requires Pieces(f) == [piece]
    ensures Encode(f) == piece && piece != []
  {
    PiecesAreNotEmpty(f);
    assert Pieces(f)[0] == piece;
    ConcatOne(piece);
  }

  lemma FrameGranted(f: Frame, ps: seq<bytes>, grants: nat -> bool)
    requires ps == Pieces(f)
    ensures Granted(ps, grants) == Encode(f) <==> AllGranted(|ps|, grants)
    ensures Granted(ps, grants) == [] <==> NoneGranted(|ps|, grants)
  {
    PiecesAreNotEmpty(f);
    WholeIffAll(ps, grants);
  }

  lemma GrantedNext(ps: seq<bytes>, p: bytes, more: seq<bytes>, grants: nat -> bool)
    requires more == ps + [p]
    ensures Granted(more, grants) == Granted(ps, grants) + If(grants(|ps|), p)
  {
    assert more[..|ps|] == ps && more[|ps|] == p;
  }

  lemma GrantedTwo(a: bytes, b: bytes, grants: nat -> bool)
    ensures Granted([a, b], grants) == If(grants(0), a) + If(grants(1), b)
  {
    GrantedNext([], a, [a], grants);
    NothingAdded(If(grants(0), a));
    GrantedNext([a], b, [a, b], grants);
  }

  /** Pieces put one after the other are the granted ones. */
  lemma GrantedFour(a: bytes, b: bytes, c: bytes, d: bytes, grants: nat -> bool)
    ensures Granted([a, b, c, d], grants) == If(grants(0), a) + If(grants(1), b) + If(grants(2), c) + If(grants(3), d)
  {
    GrantedTwo(a, b, grants);
    GrantedNext([a, b], c, [a, b, c], grants);
    GrantedNext([a, b, c], d, [a, b, c, d], grants);
  }

  lemma PutFour(before: bytes, a: bytes, b: bytes, c: bytes, d: bytes)
    ensures before + a + b + c + d == before + (a + b + c + d)
  {
    Assoc(before, a, b);
    Assoc(before, a + b, c);
    Assoc(before, a + b + c, d);
  }

  lemma FourGranted(before: bytes, f: Frame, a: bytes, b: bytes, c: bytes, d: bytes, grants: nat -> bool, open: bool, after: bytes) returns (got: bytes)
    requires Pieces(f) == [a, b, c, d]
    requires after == before + If(open && grants(0), a) + If(open && grants(1), b) + If(open && grants(2), c) + If(open && grants(3), d)
    ensures got == Granted(Pieces(f), grants) && after == before + If(open, got)
    ensures (AllGranted(4, grants) ==> got == Encode(f)) && (NoneGranted(4, grants) <==> got == [])
  {
    got := Granted([a, b, c, d], grants);
    FrameGranted(f, [a, b, c, d], grants);
    GrantedFour(a, b, c, d, grants);
    PutFour(before, If(open && grants(0), a), If(open && grants(1), b), If(open && grants(2), c), If(open && grants(3), d));
  }

  lemma FiveGranted(before: bytes, f: Frame, a: bytes, b: bytes, c: bytes, d: bytes, e: bytes, grants: nat -> bool, open: bool, after: bytes) returns (got: bytes)
    requires Pieces(f) == [a, b, c, d, e]
    requires after == before + If(open && grants(0), a) + If(open && grants(1), b) + If(open && grants(2), c) + If(open && grants(3), d)
                      + If(open && grants(4), e)
    ensures got == Granted(Pieces(f), grants) && after == before + If(open, got)
    ensures (AllGranted(5, grants) ==> got == Encode(f)) && (NoneGranted(5, grants) <==> got == [])
  {
    got := Granted([a, b, c, d, e], grants);
    FrameGranted(f, [a, b, c, d, e], grants);
    GrantedFour(a, b, c, d, grants);
    GrantedNext([a, b, c, d], e, [a, b, c, d, e], grants);
    PutFour(before, If(open && grants(0), a), If(open && grants(1), b), If(open && grants(2), c), If(open && grants(3), d));
    Assoc(before, If(open, Granted([a, b, c, d], grants)), If(open && grants(4), e));
  }

  /** What a frame does to a channel that is drained and open: it is there whole, or its bytes fit no history. */
  lemma Arrival(wire: bytes, before: bytes, frames: seq<Frame>, f: Frame, got: bytes, all: bool)
    requires wire + before == EncodeFrames(frames) && (all ==> got == Encode(f))
    ensures all ==> wire + (before + got) == EncodeFrames(frames + [f])
    ensures wire + (before + got) == EncodeFrames(frames) <==> got == []
  {
    Assoc(wire, before, got);
    FramesSnoc(frames, f);
    assert |wire + (before + got)| == |EncodeFrames(frames)| + |got|;
    NothingAdded(before);
  }

  lemma Sent(wire: bytes, rep: bytes, from: nat, n: nat)
    requires from + n <= |rep|
    ensures wire + rep[from..] == wire + rep[from..from + n] + rep[from + n..]
  {
    assert rep[from..] == rep[from..from + n] + rep[from + n..];
  }

  lemma AllSent(wire: bytes, rep: bytes)
    ensures wire + rep[|rep|..] == wire
  {}
}
