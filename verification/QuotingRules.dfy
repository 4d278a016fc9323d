/** The quoting rules of src/sds.c, case by case: what a quoted form looks like, what each kind of quote means to
    sdssplitargs, and which lines it refuses. */
module QuotingRules {
  import opened Bytes
  import opened Sds

  // ----- What a quoted form looks like -----

  /** Printable bytes stand for themselves, except the double quote and the backslash, which get a backslash; five
      control characters have letters; everything else is written in four bytes of hexadecimal. */
  lemma EscapeForms(b: byte)
    ensures 32 <= b <= 126 && b != 34 && b != 92 ==> Escape(b) == [b]
    ensures b == 34 || b == 92 ==> Escape(b) == [92, b]
    ensures Escape(10) == [92, 110] && Escape(13) == [92, 114] && Escape(9) == [92, 116]
    ensures Escape(7) == [92, 97] && Escape(8) == [92, 98]
    ensures !(32 <= b <= 126) && b !in [7, 8, 9, 10, 13] ==> |Escape(b)| == 4 && Escape(b)[..2] == [92, 120]
  {}

  predicate Printable(s: bytes) { forall i | 0 <= i < |s| :: 32 <= s[i] <= 126 }

  lemma {:induction false} EscapedIsPrintable(s: bytes)
    ensures Printable(EscapeAll(s))
  {
    if s != [] {
      ByteIsPrintable(s[0]);
      EscapedIsPrintable(s[1..]);
    }
  }

  lemma ByteIsPrintable(b: byte)
    ensures Printable(Escape(b))
  {
    HexOfByte(b);
  }

  /** A quoted form is printable throughout, and begins and ends with a double quote. */
  lemma ReprIsPrintable(s: bytes)
    ensures Printable(Repr(s)) && |Repr(s)| >= 2 && Repr(s)[0] == 34 && Repr(s)[|Repr(s)| - 1] == 34
  {
    EscapedIsPrintable(s);
  }

  lemma {:induction false} PlainIsUnchanged(s: bytes)
    requires forall i | 0 <= i < |s| :: 32 <= s[i] <= 126 && s[i] != 34 && s[i] != 92
    ensures EscapeAll(s) == s && Repr(s) == [34] + s + [34]
  {
    if s != [] {
      PlainIsUnchanged(s[1..]);
      assert s == [s[0]] + s[1..];
    }
  }

  lemma SpacesAre(b: byte)
    ensures IsSpace(b) <==> b in [9, 10, 11, 12, 13, 32]
  {}

  // ----- Plain words -----

  predicate IsWord(s: bytes) { forall i | 0 <= i < |s| :: s[i] !in [0, 9, 10, 13, 32, 34, 39] }

  /** A plain word is taken as it stands, up to a blank, which is taken along, or to the end of the string. */
  lemma {:induction false} PlainToken(line: bytes, i: nat, s: bytes, current: bytes, whole: bytes, end: nat)
    requires StandsAt(line, i, s) && IsWord(s) && end == i + |s| && At(line, end) in [0, 9, 10, 13, 32] && whole == current + s
    ensures Token(line, i, Plain, current) == Some((whole, if At(line, end) == 0 then end else end + 1))
    decreases |s|
  {
    if s == [] {
      NothingAdded(current);
      TokenStep(line, end, Plain, current, Turn([], Plain, if At(line, end) == 0 then 0 else 1, true));
    } else {
      MoveOne(current, s);
      assert At(line, i) == s[0];
      TokenStep(line, i, Plain, current, Turn([s[0]], Plain, 1, false));
      StandsTail(line, i, s);
      PlainToken(line, i + 1, s[1..], current + [s[0]], whole, end);
      assert Token(line, i, Plain, current) == Token(line, i + 1, Plain, current + [s[0]]);
    }
  }

  lemma StandsTail(line: bytes, i: nat, s: bytes)
    requires s != [] && StandsAt(line, i, s)
    ensures StandsAt(line, i + 1, s[1..]) && line[i] == s[0]
  {
    forall k | 0 <= k < |s| - 1 ensures line[i + 1 + k] == s[1..][k] { assert s[1..][k] == s[k + 1]; }
  }

  /** A line that is one plain word is that one argument. */
  lemma WordIsArgument(s: bytes)
    requires s != [] && IsWord(s) && s[0] !in [11, 12]
    ensures Args(s, 0) == Some([s])
  {
    NothingAdded(s);
    PlainToken(s, 0, s, [], s, |s|);
    OneArgument(s, s);
  }

  // ----- Single quotes -----

  /** Between single quotes only a single quote is escaped. */
  function SingleText(s: bytes): (r: bytes) {
    if s == [] then [] else (if s[0] == 39 then [92, 39] else [s[0]]) + SingleText(s[1..])
  }

  /** No NUL, and no backslash in front of the closing quote. */
  predicate CanBeSingle(s: bytes) { (forall i | 0 <= i < |s| :: s[i] != 0) && (s != [] ==> s[|s| - 1] != 92) }

  predicate IsSingle(s: bytes, e: bytes) { e == SingleText(s) && CanBeSingle(s) }

  lemma NextSingle(line: bytes, i: nat, s: bytes, e: bytes, current: bytes, end: nat) returns (w: nat, rest: bytes)
    requires s != [] && IsSingle(s, e) && StandsAt(line, i, e) && i + |e| == end < |line| && line[end] == 39
    ensures 0 < w && w + |rest| == |e| && StandsAt(line, i + w, rest) && IsSingle(s[1..], rest) && i + w <= |line|
    ensures Token(line, i, Single, current) == Token(line, i + w, Single, current + [s[0]])
  {
    var one := if s[0] == 39 then [92, 39] else [s[0]];
    rest := SingleText(s[1..]);
    w := |one|;
    StandsSplit(line, i, one, rest);
    assert line[i] == one[0];
    if s[0] == 39 {
      assert line[i + 1] == one[1];
    } else if rest != [] {
      assert line[i + 1] == rest[0] && rest[0] != 39;
    }
    TokenStep(line, i, Single, current, Turn([s[0]], Single, w, false));
    RestIsSingle(s);
  }

  lemma RestIsSingle(s: bytes)
    requires s != [] && CanBeSingle(s)
    ensures CanBeSingle(s[1..])
  {
    if |s| > 1 { assert s[1..][|s| - 2] == s[|s| - 1]; }
  }

  lemma {:induction false} SingleToken(line: bytes, i: nat, s: bytes, e: bytes, current: bytes, whole: bytes, end: nat)
    requires IsSingle(s, e) && StandsAt(line, i, e) && i + |e| == end < |line| && line[end] == 39
    requires EndsWord(At(line, end + 1)) && whole == current + s
    ensures Token(line, i, Single, current) == Some((whole, end + 1))
    decreases |s|
  {
    if s == [] {
      NothingAdded(current);
      TokenStep(line, end, Single, current, Turn([], Plain, 1, true));
    } else {
      MoveOne(current, s);
      var w, rest := NextSingle(line, i, s, e, current, end);
      SingleToken(line, i + w, s[1..], rest, current + [s[0]], whole, end);
      assert Token(line, i, Single, current) == Some((whole, end + 1));
    }
  }

  /** Single-quoted text is taken byte for byte, except that an escaped single quote is a single quote. */
  lemma SingleQuotedIsArgument(s: bytes)
    requires CanBeSingle(s)
    ensures Args([39] + SingleText(s) + [39], 0) == Some([s])
  {
    var e := SingleText(s);
    var line := [39] + e + [39];
    BetweenSingles(line, e);
    NothingAdded(s);
    OpenedSingle(line);
    SingleToken(line, 1, s, e, [], s, 1 + |e|);
    OneArgument(line, s);
  }

  lemma BetweenSingles(line: bytes, e: bytes)
    requires line == [39] + e + [39]
    ensures StandsAt(line, 1, e) && 1 + |e| + 1 == |line| && line[0] == 39 && line[1 + |e|] == 39
  {}

  lemma OpenedSingle(line: bytes)
    requires line != [] && line[0] == 39
    ensures Token(line, 0, Plain, []) == Token(line, 1, Single, [])
  {
    NothingAdded<byte>([]);
    TokenStep(line, 0, Plain, [], Turn([], Single, 1, false));
  }

  /** A line that is one token, not beginning with a blank. */
  lemma OneArgument(line: bytes, s: bytes)
    requires line != [] && line[0] != 0 && !IsSpace(line[0]) && Token(line, 0, Plain, []) == Some((s, |line|))
    ensures Args(line, 0) == Some([s])
  {
    NoMoreArgs(line);
    assert SkipBlanks(line, 0) == 0;
    NothingAdded([s]);
  }

  // ----- Lines that are refused -----

  /** Bytes that mean nothing special between quotes of either kind. */
  predicate Harmless(s: bytes) { forall i | 0 <= i < |s| :: s[i] !in [0, 34, 39, 92] }

  lemma {:induction false} HarmlessRuns(line: bytes, i: nat, s: bytes, mode: Quoting, current: bytes, end: nat)
    requires StandsAt(line, i, s) && Harmless(s) && end == i + |s| && (mode == Double || mode == Single)
    ensures Token(line, i, mode, current) == Token(line, end, mode, current + s)
    decreases |s|
  {
    if s == [] {
      NothingAdded(current);
    } else {
      MoveOne(current, s);
      assert At(line, i) == s[0];
      TokenStep(line, i, mode, current, Turn([s[0]], mode, 1, false));
      StandsTail(line, i, s);
      HarmlessRuns(line, i + 1, s[1..], mode, current + [s[0]], end);
    }
  }

  lemma Opened(line: bytes, q: byte)
    requires line != [] && line[0] == q && q in [34, 39]
    ensures Token(line, 0, Plain, []) == Token(line, 1, if q == 34 then Double else Single, [])
    ensures Token(line, 0, Plain, []) == None ==> Args(line, 0) == None
  {
    NothingAdded<byte>([]);
    TokenStep(line, 0, Plain, [], Turn([], if q == 34 then Double else Single, 1, false));
    assert SkipBlanks(line, 0) == 0;
  }

  /** A quote that is not closed is refused, of either kind. */
  lemma UnclosedIsRefused(q: byte, s: bytes)
    requires q in [34, 39] && Harmless(s)
    ensures Args([q] + s, 0) == None
  {
    var line := [q] + s;
    Opened(line, q);
    assert StandsAt(line, 1, s);
    HarmlessRuns(line, 1, s, if q == 34 then Double else Single, [], |line|);
  }

  /** A closed quote with anything but a blank behind it is refused. */
  lemma JunkIsRefused(q: byte, s: bytes, x: byte, rest: bytes)
    requires q in [34, 39] && Harmless(s) && x !in [0, 9, 10, 11, 12, 13, 32]
    ensures Args([q] + s + [q, x] + rest, 0) == None
  {
    var line := [q] + s + [q, x] + rest;
    Opened(line, q);
    var end := 1 + |s|;
    assert line[end] == q && line[end + 1] == x;
    assert StandsAt(line, 1, s);
    HarmlessRuns(line, 1, s, if q == 34 then Double else Single, [], end);
  }
}
