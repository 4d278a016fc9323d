/** The file format of the secondary store: each message is two records, a record is a native 32-bit length and
    the bytes (src/filesystem.cc, src/store/filestore.cc). The machine is little-endian. */
module BufferFile {
  import opened Bytes
  import opened Messages

  const INT_MAX := 0x7FFF_FFFF

  /** The lowest `width` bytes of n, the least significant first. */
  function LittleEndian(n: nat, width: nat): (r: bytes)
    ensures |r| == width
  {
    if width == 0 then [] else [n % 256] + LittleEndian(n / 256, width - 1)
  }

  function Le32(n: nat): (r: bytes) { LittleEndian(n, 4) }

  /** The int made of the bytes of s, the last one first, behind those already in acc; in two's complement. */
  function Assembled(s: bytes, acc: int): (r: int) {
    if s != [] then Assembled(s[..|s| - 1], acc * 256 + s[|s| - 1])
    else if acc > INT_MAX then acc - 0x1_0000_0000 else acc
  }

  /** The int that four bytes hold. */
  function Int32(f: bytes, pos: nat): (r: int)
    requires pos + 4 <= |f|
  {
    Assembled(f[pos..pos + 4], 0)
  }

  function EncodeRecord(data: bytes): (r: bytes)
    ensures |r| == 4 + |data|
  {
    Le32(|data|) + data
  }

  /** How many bytes a message takes in a file. */
  function Width(m: Message): (r: nat) { 4 + |m.topic| + (4 + |m.content|) }

  function EncodeMessage(m: Message): (r: bytes)
    ensures |r| == Width(m)
  {
    EncodeRecord(m.topic) + EncodeRecord(m.content)
  }

  function EncodeFile(ms: seq<Message>): (r: bytes) {
    if ms == [] then [] else EncodeMessage(ms[0]) + EncodeFile(ms[1..])
  }

  /** Both parts fit the length field. */
  predicate Fits(m: Message) { |m.topic| <= INT_MAX && |m.content| <= INT_MAX }

  predicate AllFit(ms: seq<Message>) { forall i | 0 <= i < |ms| :: Fits(ms[i]) }

  /** A record of length zero reads as a failure. */
  predicate Readable(m: Message) { m.topic != [] && m.content != [] }

  predicate AllReadable(ms: seq<Message>) { forall i | 0 <= i < |ms| :: Readable(ms[i]) }

  /** The longest prefix of readable messages. */
  function ReadablePrefix(ms: seq<Message>): (r: seq<Message>)
    ensures |r| <= |ms|
  {
    if ms == [] || !Readable(ms[0]) then [] else [ms[0]] + ReadablePrefix(ms[1..])
  }

  lemma {:induction false} PrefixIsReadable(ms: seq<Message>)
    ensures var r := ReadablePrefix(ms);
            r == ms[..|r|] && AllReadable(r) && (|r| < |ms| ==> !Readable(ms[|r|]))
  {
    if ms != [] && Readable(ms[0]) {
      PrefixIsReadable(ms[1..]);
      assert ms == [ms[0]] + ms[1..];
    }
  }

  /** Byte for byte: a record shorter than 256 bytes is its length, three NULs, and the bytes. */
  lemma ShortRecord(data: bytes)
    requires |data| < 256
    ensures EncodeRecord(data) == [|data|, 0, 0, 0] + data
  {
    Le32Bytes(|data|);
  }

  // ----- Decoding -----

  /** One record at pos: its bytes and the position behind it. */
  function ReadRecord(f: bytes, pos: nat): (r: Option<(bytes, nat)>)
    ensures r.Some? ==> pos + 4 < r.value.1 <= |f|
  {
    if pos + 4 > |f| then None
    else var n := Int32(f, pos);
      if n <= 0 || pos + 4 + n > |f| then None else Some((f[pos + 4..pos + 4 + n], pos + 4 + n))
  }

  function ReadMessage(f: bytes, pos: nat): (r: Option<(Message, nat)>)
    ensures r.Some? ==> pos < r.value.1 <= |f|
  {
    match ReadRecord(f, pos)
    case None => None
    case Some((topic, mid)) =>
      match ReadRecord(f, mid)
      case None => None
      case Some((content, end)) => Some((Message(topic, content), end))
  }

  function Decode(f: bytes, pos: nat): (r: seq<Message>)
    decreases |f| - pos
  {
    match ReadMessage(f, pos)
    case None => []
    case Some((m, end)) => [m] + Decode(f, end)
  }

  // ----- What decoding gives back -----

  lemma Le32Bytes(n: nat)
    ensures Le32(n) == [n % 256, n / 256 % 256, n / 256 / 256 % 256, n / 256 / 256 / 256 % 256]
  {
    var n1, n2, n3 := n / 256, n / 256 / 256, n / 256 / 256 / 256;
    assert LittleEndian(n3, 1) == [n3 % 256] + LittleEndian(n3 / 256, 0);
    assert LittleEndian(n2, 2) == [n2 % 256] + LittleEndian(n3, 1);
    assert LittleEndian(n1, 3) == [n1 % 256] + LittleEndian(n2, 2);
    assert LittleEndian(n, 4) == [n % 256] + LittleEndian(n1, 3);
  }

  lemma AssembledFour(a: byte, b: byte, c: byte, d: byte)
    ensures Assembled([a, b, c, d], 0) == Assembled([], ((d * 256 + c) * 256 + b) * 256 + a)
  {
    assert [a, b, c, d][..3] == [a, b, c] && [a, b, c][..2] == [a, b] && [a, b][..1] == [a] && [a][..0] == [];
    assert Assembled([a, b, c, d], 0) == Assembled([a, b, c], d);
    assert Assembled([a, b, c], d) == Assembled([a, b], d * 256 + c);
    assert Assembled([a, b], d * 256 + c) == Assembled([a], (d * 256 + c) * 256 + b);
  }

  lemma Le32RoundTrip(f: bytes, pos: nat, n: nat)
    requires pos + 4 <= |f| && n <= INT_MAX && f[pos..pos + 4] == Le32(n)
    ensures Int32(f, pos) == n
  {
    Le32Bytes(n);
    AssembledFour(n % 256, n / 256 % 256, n / 256 / 256 % 256, n / 256 / 256 / 256 % 256);
  }

  /** From pos on the file is text, or text cut short. */
  predicate CutOf(f: bytes, pos: nat, text: bytes) {
    pos <= |f| <= pos + |text| && forall k {:trigger text[k]} | 0 <= k < |f| - pos :: f[pos + k] == text[k]
  }

  /** Text in two parts: the first is in the file from pos on, and if it is whole, the second behind it. */
  lemma CutInTwo(f: bytes, pos: nat, a: bytes, b: bytes)
    requires CutOf(f, pos, a + b)
    ensures pos + |a| <= |f| ==> f[pos..pos + |a|] == a && CutOf(f, pos + |a|, b)
  {
    var text := a + b;
    if pos + |a| <= |f| {
      forall k | 0 <= k < |a| ensures f[pos + k] == a[k] { assert text[k] == a[k]; }
      forall k | 0 <= k < |f| - pos - |a| ensures f[pos + |a| + k] == b[k] { assert text[|a| + k] == b[k]; }
    }
  }

  /** A record that lies wholly inside the file is read back, unless it is empty; a cut one is not. */
  lemma ReadRecordAt(f: bytes, pos: nat, data: bytes, rest: bytes)
    requires CutOf(f, pos, EncodeRecord(data) + rest) && |data| <= INT_MAX
    ensures ReadRecord(f, pos) ==
            if data == [] || |f| < pos + 4 + |data| then None else Some((data, pos + 4 + |data|))
  {
    var size := Le32(|data|);
    Assoc(size, data, rest);
    CutInTwo(f, pos, size, data + rest);
    if pos + 4 <= |f| {
      Le32RoundTrip(f, pos, |data|);
      CutInTwo(f, pos + 4, data, rest);
    }
  }

  lemma ReadMessageAt(f: bytes, pos: nat, m: Message, rest: bytes)
    requires CutOf(f, pos, EncodeMessage(m) + rest) && Fits(m)
    ensures ReadMessage(f, pos) ==
            if !Readable(m) || |f| < pos + Width(m) then None else Some((m, pos + Width(m)))
  {
    var a, b := EncodeRecord(m.topic), EncodeRecord(m.content);
    Assoc(a, b, rest);
    ReadRecordAt(f, pos, m.topic, b + rest);
    CutInTwo(f, pos, a, b + rest);
    if |f| >= pos + |a| { ReadRecordAt(f, pos + |a|, m.content, rest); }
  }

  /** How many leading messages of the file lie wholly inside its first t bytes. */
  function Whole(ms: seq<Message>, t: int): (k: nat)
    ensures k <= |ms|
  {
    if ms == [] || t < Width(ms[0]) then 0 else 1 + Whole(ms[1..], t - Width(ms[0]))
  }

  /** The text is the encoding of the messages. */
  predicate FileOf(ms: seq<Message>, text: bytes) { text == EncodeFile(ms) && AllFit(ms) }

  /** The number of whole messages is the largest whose encoding fits. */
  lemma {:induction false} WholeIsExact(ms: seq<Message>, t: nat)
    ensures |EncodeFile(ms[..Whole(ms, t)])| <= t
    ensures Whole(ms, t) < |ms| ==> |EncodeFile(ms[..Whole(ms, t) + 1])| > t
    decreases |ms|
  {
    if ms != [] {
      var k := Whole(ms, t);
      if t < Width(ms[0]) {
        FileWidth(ms, 1);
      } else {
        WholeIsExact(ms[1..], t - Width(ms[0]));
        FileWidth(ms, k);
        if k < |ms| { FileWidth(ms, k + 1); }
      }
    }
  }

  lemma FileWidth(ms: seq<Message>, k: nat)
    requires 0 < k <= |ms|
    ensures |EncodeFile(ms[..k])| == Width(ms[0]) + |EncodeFile(ms[1..][..k - 1])|
  {
    assert ms[..k][0] == ms[0] && ms[..k][1..] == ms[1..][..k - 1];
  }

  /** What survives of the messages in the first t bytes of their file: those whole in it, up to the first unreadable. */
  predicate Survive(ms: seq<Message>, t: int, kept: seq<Message>) { kept == ReadablePrefix(ms[..Whole(ms, t)]) }

  /** A file cut anywhere gives back exactly what survives. */
  lemma {:induction false} DecodeTruncated(ms: seq<Message>, text: bytes, f: bytes, pos: nat, t: nat, kept: seq<Message>)
    requires CutOf(f, pos, text) && t == |f| - pos && FileOf(ms, text) && Survive(ms, t, kept)
    ensures Decode(f, pos) == kept
    decreases |ms|
  {
    if ms == [] {
      NothingDecoded(f, pos, kept);
    } else {
      var tail := SurviveFirst(ms, t, kept);
      var one, rest := FirstText(ms, text);
      if Width(ms[0]) <= t {
        CutInTwo(f, pos, one, rest);
        DecodeTruncated(ms[1..], rest, f, pos + Width(ms[0]), t - Width(ms[0]), tail);
      }
      DecodeOne(f, pos, ms[0], one, rest, kept, tail);
    }
  }

  lemma NothingDecoded(f: bytes, pos: nat, kept: seq<Message>)
    requires CutOf(f, pos, EncodeFile([])) && Survive([], |f| - pos, kept)
    ensures Decode(f, pos) == kept
  {
    DecodeStep(f, pos, None, kept);
  }

  predicate TextOf(m: Message, text: bytes) { text == EncodeMessage(m) && Fits(m) }

  lemma FirstText(ms: seq<Message>, text: bytes) returns (one: bytes, rest: bytes)
    requires ms != [] && FileOf(ms, text)
    ensures text == one + rest && TextOf(ms[0], one) && |one| == Width(ms[0]) && FileOf(ms[1..], rest)
  {
    one, rest := EncodeMessage(ms[0]), EncodeFile(ms[1..]);
  }

  /** The first message is read if it is whole and readable, and then what is behind it. */
  lemma DecodeOne(f: bytes, pos: nat, m: Message, one: bytes, rest: bytes, kept: seq<Message>, tail: seq<Message>)
    requires CutOf(f, pos, one + rest) && TextOf(m, one)
    requires kept == if |f| - pos < Width(m) || !Readable(m) then [] else [m] + tail
    requires pos + Width(m) <= |f| ==> Decode(f, pos + Width(m)) == tail
    ensures Decode(f, pos) == kept
  {
    var got := MessageGot(f, pos, m, one, rest);
    DecodeStep(f, pos, got, kept);
  }

  lemma MessageGot(f: bytes, pos: nat, m: Message, one: bytes, rest: bytes) returns (got: Option<(Message, nat)>)
    requires CutOf(f, pos, one + rest) && TextOf(m, one)
    ensures ReadMessage(f, pos) == got
    ensures got == if Readable(m) && pos + Width(m) <= |f| then Some((m, pos + Width(m))) else None
  {
    ReadMessageAt(f, pos, m, rest);
    got := ReadMessage(f, pos);
  }

  lemma DecodeStep(f: bytes, pos: nat, got: Option<(Message, nat)>, kept: seq<Message>)
    requires ReadMessage(f, pos) == got
    requires kept == if got.None? then [] else [got.value.0] + Decode(f, got.value.1)
    ensures Decode(f, pos) == kept
  {}

  lemma SurviveFirst(ms: seq<Message>, t: nat, kept: seq<Message>) returns (tail: seq<Message>)
    requires ms != [] && Survive(ms, t, kept)
    ensures kept == if t < Width(ms[0]) || !Readable(ms[0]) then [] else [ms[0]] + tail
    ensures Survive(ms[1..], t - Width(ms[0]), tail)
  {
    var k, rest := Whole(ms, t), ms[1..];
    tail := ReadablePrefix(rest[..Whole(rest, t - Width(ms[0]))]);
    if t >= Width(ms[0]) {
      assert ms[..k][0] == ms[0] && ms[..k][1..] == rest[..k - 1];
    }
  }

  /** Cutting a file at any byte loses the message that is cut and those behind it, and no other. */
  lemma DecodeAfterCrash(ms: seq<Message>, t: nat)
    requires t <= |EncodeFile(ms)| && AllFit(ms)
    ensures Decode(EncodeFile(ms)[..t], 0) == ReadablePrefix(ms[..Whole(ms, t)])
  {
    var text := EncodeFile(ms);
    DecodeTruncated(ms, text, text[..t], 0, t, ReadablePrefix(ms[..Whole(ms, t)]));
  }

  lemma {:induction false} WholeOfAll(ms: seq<Message>)
    ensures Whole(ms, |EncodeFile(ms)|) == |ms|
  {
    if ms != [] { WholeOfAll(ms[1..]); }
  }

  /** A whole file gives back the longest prefix of messages with a topic and a content. */
  lemma DecodeEncoded(ms: seq<Message>)
    requires AllFit(ms)
    ensures Decode(EncodeFile(ms), 0) == ReadablePrefix(ms)
  {
    WholeOfAll(ms);
    assert EncodeFile(ms)[..|EncodeFile(ms)|] == EncodeFile(ms) && ms[..|ms|] == ms;
    DecodeAfterCrash(ms, |EncodeFile(ms)|);
  }

  lemma {:induction false} PrefixOfReadable(ms: seq<Message>)
    ensures ReadablePrefix(ms) == ms <==> AllReadable(ms)
  {
    if ms != [] && Readable(ms[0]) {
      PrefixOfReadable(ms[1..]);
      assert ms == [ms[0]] + ms[1..];
      assert AllReadable(ms[1..]) ==> forall i | 0 < i < |ms| :: Readable(ms[i]) by {
        if AllReadable(ms[1..]) { forall i | 0 < i < |ms| ensures Readable(ms[i]) { assert ms[i] == ms[1..][i - 1]; } }
      }
    }
  }

  /** A file gives back what was written to it if and only if every message has a topic and a content. */
  lemma FileRoundTripIff(ms: seq<Message>)
    requires AllFit(ms)
    ensures Decode(EncodeFile(ms), 0) == ms <==> AllReadable(ms)
  {
    DecodeEncoded(ms);
    PrefixOfReadable(ms);
  }

  /** A witness: behind a message without a topic or a content nothing in the file is read. */
  lemma UnreadableHides(e: Message, ms: seq<Message>)
    requires !Readable(e) && Fits(e) && AllFit(ms)
    ensures Decode(EncodeFile([e] + ms), 0) == []
  {
    DecodeEncoded([e] + ms);
  }

  lemma ReadIsReadable(f: bytes, pos: nat)
    ensures ReadMessage(f, pos).Some? ==> Readable(ReadMessage(f, pos).value.0)
  {}

  /** Whatever is in a file, what is read from it is readable. */
  lemma {:induction false} DecodedIsReadable(f: bytes, pos: nat)
    ensures AllReadable(Decode(f, pos))
    decreases |f| - pos
  {
    ReadIsReadable(f, pos);
    var got := ReadMessage(f, pos);
    if got.Some? { DecodedIsReadable(f, got.value.1); }
  }

  lemma {:induction false} EncodeSnoc(ms: seq<Message>, m: Message, one: bytes)
    requires one == EncodeMessage(m)
    ensures EncodeFile(ms + [m]) == EncodeFile(ms) + one
  {
    if ms == [] {
      assert ms + [m] == [m] && [m][1..] == [];
      NothingAdded(one);
    } else {
      EncodeSnoc(ms[1..], m, one);
      assert (ms + [m])[0] == ms[0] && (ms + [m])[1..] == ms[1..] + [m];
      Assoc(EncodeMessage(ms[0]), EncodeFile(ms[1..]), one);
    }
  }

  // ----- The program's file -----

  /** An open file: what is in it and, for a reader, how far it has read. */
  class File {
    var data: bytes
    var pos: nat

    constructor (data: bytes)
      ensures this.data == data && pos == 0
    {
      this.data := data;
      pos := 0;
    }

    /** fwrite of the length, then of the bytes, at the end of the file. */
    method Write(bs: bytes)
      requires |bs| <= INT_MAX
      modifies this`data
      ensures data == old(data) + EncodeRecord(bs)
    {
      data := data + Le32(|bs|);
      data := data + bs;
    }

    /** fread of `size` bytes; zero bytes, or fewer than asked for, is a failure. */
    method Read(size: int) returns (bs: Option<bytes>)
      requires size >= 0
      modifies this`pos
      ensures bs == if size > 0 && old(pos) + size <= |data| then Some(data[old(pos)..old(pos) + size]) else None
      ensures bs.Some? ==> pos == old(pos) + size
    {
      if pos + size > |data| {
        pos := |data|;
        return None;
      }
      bs := if size == 0 then None else Some(data[pos..pos + size]);
      pos := pos + size;
    }

    /** The read loop of GetOldestMessages. */
    method ReadMessages() returns (ms: seq<Message>)
      requires pos == 0
      modifies this`pos
      ensures ms == Decode(data, 0)
    {
      ms := [];
      while true
        invariant pos <= |data| && ms + Decode(data, pos) == Decode(data, 0)
        decreases |data| - pos
      {
        ghost var start := pos;
        var topic := ReadOne();
        if topic == None { break; }
        var content := ReadOne();
        if content == None { break; }
        ms := ms + [Message(topic.value, content.value)];
      }
    }

    /** A length and that many bytes; a length that is not positive is given up on. */
    method ReadOne() returns (bs: Option<bytes>)
      modifies this`pos
      ensures var r := ReadRecord(data, old(pos)); bs == if r.Some? then Some(r.value.0) else None
      ensures bs.Some? ==> pos == ReadRecord(data, old(pos)).value.1
    {
      ghost var p := pos;
      var size := Read(4);
      if size == None { return None; }
      assert size.value == data[p..p + 4];
      var n := Int32(size.value, 0);
      assert size.value[0..4] == size.value;
      if n < 0 { return None; }
      bs := Read(n);
    }
  }
}
