/** Quoting, unquoting and splitting of strings (src/sds.c), in the C locale. */
module Sds {
  import opened Bytes

  const QUOTE: byte := 34
  const APOSTROPHE: byte := 39
  const LOWER_X: byte := 120

  predicate IsSpace(b: byte) { b == SPACE || 9 <= b <= 13 }

  predicate IsPrint(b: byte) { 32 <= b <= 126 }

  predicate IsHexDigit(b: byte) { 48 <= b <= 57 || 97 <= b <= 102 || 65 <= b <= 70 }

  function HexDigitToInt(b: byte): (n: nat)
    ensures n < 16
  {
    if 48 <= b <= 57 then b - 48 else if 97 <= b <= 102 then b - 87 else if 65 <= b <= 70 then b - 55 else 0
  }

  function HexDigit(n: nat): (r: byte)
    requires n < 16
  {
    if n < 10 then 48 + n else 87 + n
  }

  /** The lowest `width` hexadecimal digits of n, the most significant first. */
  function Hex(n: nat, width: nat): (r: bytes)
    ensures |r| == width
  {
    if width == 0 then [] else Hex(n / 16, width - 1) + [HexDigit(n % 16)]
  }

  // ----- Quoting -----

  /** How one byte is written between quotes. */
  function Escape(b: byte): (r: bytes) {
    if b == BACKSLASH || b == QUOTE then [BACKSLASH, b]
    else if b == 10 then [BACKSLASH, 110]
    else if b == 13 then [BACKSLASH, 114]
    else if b == 9 then [BACKSLASH, 116]
    else if b == 7 then [BACKSLASH, 97]
    else if b == 8 then [BACKSLASH, 98]
    else if IsPrint(b) then [b]
    else [BACKSLASH, LOWER_X] + Hex(b, 2)
  }

  function EscapeAll(s: bytes): (r: bytes) { if s == [] then [] else Escape(s[0]) + EscapeAll(s[1..]) }

  function Repr(s: bytes): (r: bytes) { [QUOTE] + EscapeAll(s) + [QUOTE] }

  lemma {:induction false} EscapeSnoc(s: bytes, b: byte, e: bytes)
    requires e == Escape(b)
    ensures EscapeAll(s + [b]) == EscapeAll(s) + e
  {
    if s == [] {
      EscapeFirst([b], b, []);
      NothingAdded(e);
    } else {
      EscapeSnoc(s[1..], b, e);
      assert s + [b] == [s[0]] + (s[1..] + [b]);
      EscapeFirst(s + [b], s[0], s[1..] + [b]);
      EscapeFirst(s, s[0], s[1..]);
      Assoc(Escape(s[0]), EscapeAll(s[1..]), e);
    }
  }

  lemma EscapeFirst(s: bytes, b: byte, rest: bytes)
    requires s == [b] + rest
    ensures EscapeAll(s) == Escape(b) + EscapeAll(rest)
  {
    assert s[1..] == rest;
  }

  lemma NextRepr(p: bytes, i: nat, r: bytes, e: bytes)
    requires i < |p| && r == [QUOTE] + EscapeAll(p[..i]) && e == Escape(p[i])
    ensures r + e == [QUOTE] + EscapeAll(p[..i + 1])
  {
    EscapeSnoc(p[..i], p[i], e);
    assert p[..i + 1] == p[..i] + [p[i]];
    Assoc([QUOTE], EscapeAll(p[..i]), e);
  }

  method CatRepr(s: bytes, p: bytes) returns (r: bytes)
    ensures r == s + Repr(p)
  {
    r := [QUOTE];
    for i := 0 to |p|
      invariant r == [QUOTE] + EscapeAll(p[..i])
    {
      NextRepr(p, i, r, Escape(p[i]));
      r := r + Escape(p[i]);
    }
    assert p[..|p|] == p;
    r := s + (r + [QUOTE]);
  }

  // ----- Unquoting -----

  datatype Quoting = Plain | Double | Single

  function Unescape(b: byte): (r: byte) {
    if b == 110 then 10 else if b == 114 then 13 else if b == 116 then 9 else if b == 98 then 8 else if b == 97 then 7 else b
  }

  predicate EndsWord(b: byte) { b == NUL || IsSpace(b) }

  /** One turn of the token loop at position i: the bytes it adds, the mode it goes on in, how far it moves, and
      whether the token is done; nothing on unbalanced quotes. */
  datatype Turn = Turn(added: bytes, mode: Quoting, width: nat, done: bool)

  function TurnAt(line: bytes, i: nat, mode: Quoting): (r: Option<Turn>)
    requires i <= |line|
    ensures r.Some? ==> i + r.value.width <= |line| && (r.value.width == 0 ==> r.value.done && At(line, i) == NUL)
  {
    match mode
    case Double => DoubleTurn(line, i)
    case Single => SingleTurn(line, i)
    case Plain => PlainTurn(line, i)
  }

  function DoubleTurn(line: bytes, i: nat): (r: Option<Turn>)
    requires i <= |line|
    ensures r.Some? ==> 0 < r.value.width && i + r.value.width <= |line|
  {
    var b := At(line, i);
    if b == BACKSLASH && At(line, i + 1) == LOWER_X && IsHexDigit(At(line, i + 2)) && IsHexDigit(At(line, i + 3)) then
      Some(Turn([HexDigitToInt(At(line, i + 2)) * 16 + HexDigitToInt(At(line, i + 3))], Double, 4, false))
    else if b == BACKSLASH && At(line, i + 1) != NUL then Some(Turn([Unescape(At(line, i + 1))], Double, 2, false))
    else if b == QUOTE then if EndsWord(At(line, i + 1)) then Some(Turn([], Plain, 1, true)) else None
    else if b == NUL then None
    else Some(Turn([b], Double, 1, false))
  }

  function SingleTurn(line: bytes, i: nat): (r: Option<Turn>)
    requires i <= |line|
    ensures r.Some? ==> 0 < r.value.width && i + r.value.width <= |line|
  {
    var b := At(line, i);
    if b == BACKSLASH && At(line, i + 1) == APOSTROPHE then Some(Turn([APOSTROPHE], Single, 2, false))
    else if b == APOSTROPHE then if EndsWord(At(line, i + 1)) then Some(Turn([], Plain, 1, true)) else None
    else if b == NUL then None
    else Some(Turn([b], Single, 1, false))
  }

  function PlainTurn(line: bytes, i: nat): (r: Option<Turn>)
    requires i <= |line|
    ensures r.Some? && i + r.value.width <= |line| && (r.value.width == 0 ==> r.value.done && At(line, i) == NUL)
  {
    var b := At(line, i);
    if b == NUL then Some(Turn([], Plain, 0, true))
    else if b == SPACE || b == LF || b == CR || b == TAB then Some(Turn([], Plain, 1, true))
    else if b == QUOTE then Some(Turn([], Double, 1, false))
    else if b == APOSTROPHE then Some(Turn([], Single, 1, false))
    else Some(Turn([b], Plain, 1, false))
  }

  /** The rest of a token from position i on: the token and the position behind it. */
  function Token(line: bytes, i: nat, mode: Quoting, current: bytes): (r: Option<(bytes, nat)>)
    requires i <= |line|
    ensures r.Some? ==> i <= r.value.1 <= |line| && (At(line, i) != NUL ==> i < r.value.1)
    decreases |line| - i
  {
    match TurnAt(line, i, mode)
    case None => None
    case Some(t) =>
      if t.done then Some((current + t.added, i + t.width))
      else Token(line, i + t.width, t.mode, current + t.added)
  }

  function SkipBlanks(line: bytes, i: nat): (j: nat)
    requires i <= |line|
    ensures i <= j <= |line| && !IsSpace(At(line, j))
    decreases |line| - i
  {
    if IsSpace(At(line, i)) then SkipBlanks(line, i + 1) else i
  }

  function Args(line: bytes, i: nat): (r: Option<seq<bytes>>)
    requires i <= |line|
    decreases |line| - i
  {
    var j := SkipBlanks(line, i);
    if At(line, j) == NUL then Some([])
    else match Token(line, j, Plain, [])
         case None => None
         case Some((token, end)) => Prepend([token], Args(line, end))
  }

  function Prepend(vector: seq<bytes>, rest: Option<seq<bytes>>): (r: Option<seq<bytes>>) {
    match rest
    case None => None
    case Some(r) => Some(vector + r)
  }

  lemma PrependTwice(vector: seq<bytes>, one: bytes, rest: Option<seq<bytes>>)
    ensures Prepend(vector, Prepend([one], rest)) == Prepend(vector + [one], rest)
  {
    if rest.Some? { assert vector + ([one] + rest.value) == vector + [one] + rest.value; }
  }

  /** sdssplitargs: two nested loops over one position. */
  method SplitArgs(line: bytes) returns (argv: Option<seq<bytes>>)
    ensures argv == Args(line, 0)
  {
    var p := 0;
    var vector := [];
    ghost var goal := Args(line, 0);
    assert goal.Some? ==> [] + goal.value == goal.value;
    while true
      invariant p <= |line| && goal == Prepend(vector, Args(line, p))
      decreases |line| - p
    {
      p := PassBlanks(line, p);
      if At(line, p) == NUL {
        NothingAdded(vector);
        return Some(vector);
      }
      var token := ReadToken(line, p);
      if token == None { return None; }
      var (current, end) := token.value;
      PrependTwice(vector, current, Args(line, end));
      p, vector := end, vector + [current];
    }
  }

  method PassBlanks(line: bytes, start: nat) returns (p: nat)
    requires start <= |line|
    ensures p == SkipBlanks(line, start)
  {
    p := start;
    while At(line, p) != NUL && IsSpace(At(line, p))
      invariant start <= p <= |line| && SkipBlanks(line, p) == SkipBlanks(line, start)
      decreases |line| - p
    {
      p := p + 1;
    }
  }

  /** The token loop, from the first byte of a token. */
  method ReadToken(line: bytes, start: nat) returns (r: Option<(bytes, nat)>)
    requires start <= |line|
    ensures r == Token(line, start, Plain, [])
  {
    var p, current, mode, done := start, [], Plain, false;
    while !done
      invariant p <= |line|
      invariant Token(line, start, Plain, []) == if done then Some((current, p)) else Token(line, p, mode, current)
      decreases !done, |line| - p
    {
      match TurnAt(line, p, mode) {
        case None => return None;
        case Some(t) =>
          current, mode, done := current + t.added, t.mode, t.done;
          p := p + t.width;
      }
    }
    return Some((current, p));
  }

  // ----- Unquoting undoes quoting -----

  lemma HexOfByte(b: byte)
    ensures var h := Hex(b, 2);
            IsHexDigit(h[0]) && IsHexDigit(h[1]) && HexDigitToInt(h[0]) * 16 + HexDigitToInt(h[1]) == b
  {
    var hi, lo := b / 16, b % 16;
    assert hi < 16 && hi % 16 == hi && b == 16 * hi + lo;
    assert Hex(hi, 1) == Hex(hi / 16, 0) + [HexDigit(hi)] == [HexDigit(hi)];
    assert Hex(b, 2) == Hex(hi, 1) + [HexDigit(lo)];
    DigitIsRead(hi);
    DigitIsRead(lo);
  }

  lemma DigitIsRead(n: nat)
    requires n < 16
    ensures IsHexDigit(HexDigit(n)) && HexDigitToInt(HexDigit(n)) == n
  {}

  /** The text x stands in the line at position i. */
  predicate StandsAt(line: bytes, i: nat, x: bytes) {
    i + |x| <= |line| && forall k {:trigger x[k]} | 0 <= k < |x| :: line[i + k] == x[k]
  }

  /** One escaped byte is read back as that byte. */
  lemma TurnAtEscape(line: bytes, i: nat, b: byte)
    requires StandsAt(line, i, Escape(b))
    ensures TurnAt(line, i, Double) == Some(Turn([b], Double, |Escape(b)|, false))
  {
    var e := Escape(b);
    assert At(line, i) == e[0];
    if |e| > 1 { assert At(line, i + 1) == e[1]; }
    if |e| > 2 {
      HexOfByte(b);
      assert At(line, i + 2) == e[2] && At(line, i + 3) == e[3];
    }
  }

  lemma StandsSplit(line: bytes, i: nat, a: bytes, b: bytes)
    requires StandsAt(line, i, a + b)
    ensures StandsAt(line, i, a) && StandsAt(line, i + |a|, b)
    ensures a != [] ==> line[i] == a[0]
  {
    var both := a + b;
    forall k | 0 <= k < |a| ensures line[i + k] == a[k] { assert both[k] == a[k]; }
    forall k | 0 <= k < |b| ensures line[i + |a| + k] == b[k] { assert both[|a| + k] == b[k]; }
  }

  lemma TokenStep(line: bytes, i: nat, mode: Quoting, current: bytes, t: Turn)
    requires i <= |line| && TurnAt(line, i, mode) == Some(t)
    ensures Token(line, i, mode, current) ==
            if t.done then Some((current + t.added, i + t.width)) else Token(line, i + t.width, t.mode, current + t.added)
  {}

  /** The text e is what the bytes s are written as. */
  predicate Escaped(s: bytes, e: bytes) { e == EscapeAll(s) }

  /** The first of some escaped bytes is read; the others stand behind it. */
  lemma NextEscaped(line: bytes, i: nat, s: bytes, e: bytes, current: bytes) returns (w: nat, rest: bytes)
    requires s != [] && StandsAt(line, i, e) && Escaped(s, e)
    ensures 0 < w && w + |rest| == |e| && StandsAt(line, i + w, rest) && Escaped(s[1..], rest)
    ensures i + w <= |line| && Token(line, i, Double, current) == Token(line, i + w, Double, current + [s[0]])
  {
    rest := EscapeAll(s[1..]);
    w := OneEscaped(line, i, s[0], Escape(s[0]), rest, current);
  }

  lemma OneEscaped(line: bytes, i: nat, b: byte, e: bytes, rest: bytes, current: bytes) returns (w: nat)
    requires StandsAt(line, i, e + rest) && e == Escape(b)
    ensures 0 < w == |e| && StandsAt(line, i + w, rest)
    ensures i + w <= |line| && Token(line, i, Double, current) == Token(line, i + w, Double, current + [b])
  {
    w := |e|;
    StandsSplit(line, i, e, rest);
    TurnAtEscape(line, i, b);
    TokenStep(line, i, Double, current, Turn([b], Double, w, false));
  }

  lemma ClosingQuote(line: bytes, i: nat, current: bytes)
    requires i < |line| && line[i] == QUOTE && EndsWord(At(line, i + 1))
    ensures Token(line, i, Double, current) == Some((current, i + 1))
  {
    TokenStep(line, i, Double, current, Turn([], Plain, 1, true));
    assert current + [] == current;
  }

  lemma {:induction false} TokenOfEscaped(line: bytes, i: nat, s: bytes, e: bytes, current: bytes, whole: bytes, end: nat)
    requires StandsAt(line, i, e) && i + |e| == end < |line| && Escaped(s, e) && whole == current + s
    requires line[end] == QUOTE && EndsWord(At(line, end + 1))
    ensures Token(line, i, Double, current) == Some((whole, end + 1))
    decreases |s|
  {
    if s == [] {
      NothingAdded(current);
      assert e == [];
      ClosingQuote(line, end, current);
    } else {
      MoveOne(current, s);
      var w, rest := NextEscaped(line, i, s, e, current);
      TokenOfEscaped(line, i + w, s[1..], rest, current + [s[0]], whole, end);
      assert Token(line, i, Double, current) == Some((whole, end + 1));
    }
  }

  lemma OpeningQuote(line: bytes, i: nat)
    requires i < |line| && line[i] == QUOTE
    ensures Token(line, i, Plain, []) == Token(line, i + 1, Double, [])
  {
    NothingAdded<byte>([]);
    TokenStep(line, i, Plain, [], Turn([], Double, 1, false));
  }

  /** A whole quoted argument, with the end of the line or a space behind it. */
  lemma TokenOfRepr(line: bytes, i: nat, s: bytes)
    requires StandsAt(line, i, Repr(s)) && EndsWord(At(line, i + |Repr(s)|))
    ensures At(line, i) == QUOTE && Token(line, i, Plain, []) == Some((s, i + |Repr(s)|))
  {
    NothingAdded(s);
    var e := ReprStands(line, i, s);
    OpeningQuote(line, i);
    TokenOfEscaped(line, i + 1, s, e, [], s, i + 1 + |e|);
  }

  lemma ReprStands(line: bytes, i: nat, s: bytes) returns (e: bytes)
    requires StandsAt(line, i, Repr(s))
    ensures Escaped(s, e) && |Repr(s)| == |e| + 2 && i < |line| && line[i] == QUOTE && StandsAt(line, i + 1, e)
    ensures i + 1 + |e| < |line| && line[i + 1 + |e|] == QUOTE
  {
    e := EscapeAll(s);
    BetweenQuotes(line, i, e);
  }

  lemma BetweenQuotes(line: bytes, i: nat, e: bytes)
    requires StandsAt(line, i, [QUOTE] + e + [QUOTE])
    ensures i < |line| && line[i] == QUOTE && StandsAt(line, i + 1, e)
    ensures i + 1 + |e| < |line| && line[i + 1 + |e|] == QUOTE
  {
    Assoc([QUOTE], e, [QUOTE]);
    StandsSplit(line, i, [QUOTE], e + [QUOTE]);
    StandsSplit(line, i + 1, e, [QUOTE]);
  }

  /** The quoted forms of the arguments, a space between any two. */
  function Line(args: seq<bytes>): (r: bytes) {
    if args == [] then [] else if |args| == 1 then Repr(args[0]) else Repr(args[0]) + ([SPACE] + Line(args[1..]))
  }

  lemma {:induction false} ArgsOfLine(line: bytes, i: nat, args: seq<bytes>)
    requires StandsAt(line, i, Line(args)) && i + |Line(args)| == |line|
    ensures Args(line, i) == Some(args)
    decreases |args|
  {
    if args == [] {
      NoMoreArgs(line);
    } else {
      var rest := args[1..];
      var end := FirstToken(line, i, args, rest);
      if rest == [] {
        NoMoreArgs(line);
      } else {
        ArgsOfLine(line, end + 1, rest);
        BlankFirst(line, end);
      }
      ArgsStep(line, i, args, end, rest);
    }
  }

  /** The first quoted form is read as the first argument; a space and the rest of the line follow it. */
  lemma FirstToken(line: bytes, i: nat, args: seq<bytes>, rest: seq<bytes>) returns (end: nat)
    requires args != [] && StandsAt(line, i, Line(args)) && i + |Line(args)| == |line| && rest == args[1..]
    ensures i <= end <= |line| && At(line, i) == QUOTE && Token(line, i, Plain, []) == Some((args[0], end))
    ensures rest == [] ==> end == |line|
    ensures rest != [] ==>
              && end < |line| && line[end] == SPACE
              && StandsAt(line, end + 1, Line(rest)) && end + 1 + |Line(rest)| == |line|
  {
    end := i + |Repr(args[0])|;
    if |args| > 1 { BehindRepr(line, i, args[0], Line(rest)); }
    TokenOfRepr(line, i, args[0]);
  }

  lemma BehindRepr(line: bytes, i: nat, first: bytes, tail: bytes)
    requires StandsAt(line, i, Repr(first) + ([SPACE] + tail))
    ensures var end := i + |Repr(first)|;
            StandsAt(line, i, Repr(first)) && end < |line| && line[end] == SPACE && StandsAt(line, end + 1, tail)
  {
    StandsSplit(line, i, Repr(first), [SPACE] + tail);
    StandsSplit(line, i + |Repr(first)|, [SPACE], tail);
  }

  lemma NoMoreArgs(line: bytes)
    ensures Args(line, |line|) == Some([])
  {}

  lemma ArgsStep(line: bytes, i: nat, args: seq<bytes>, end: nat, rest: seq<bytes>)
    requires i <= end <= |line| && At(line, i) == QUOTE && args != [] && rest == args[1..]
    requires Token(line, i, Plain, []) == Some((args[0], end)) && Args(line, end) == Some(rest)
    ensures Args(line, i) == Some(args)
  {
    assert args == [args[0]] + rest;
  }

  lemma BlankFirst(line: bytes, i: nat)
    requires i < |line| && IsSpace(line[i])
    ensures Args(line, i) == Args(line, i + 1)
  {}

  /** Splitting the quoted forms of any list of byte strings gives back that list. */
  lemma QuotingRoundTrip(args: seq<bytes>)
    ensures Args(Line(args), 0) == Some(args)
  {
    ArgsOfLine(Line(args), 0, args);
  }

  // ----- Splitting on a separator -----

  predicate Occurs(s: bytes, sep: bytes, k: nat) { k + |sep| <= |s| && s[k..k + |sep|] == sep }

  /** The pieces of s from `start` on, when no separator starts before j. */
  function Pieces(s: bytes, sep: bytes, start: nat, j: nat): (r: seq<bytes>)
    requires start <= j && start <= |s| && sep != []
    ensures r != []
    decreases |s| - j
  {
    if j + |sep| > |s| then [s[start..]]
    else if Occurs(s, sep, j) then [s[start..j]] + Pieces(s, sep, j + |sep|, j + |sep|)
    else Pieces(s, sep, start, j + 1)
  }

  function Join(tokens: seq<bytes>, sep: bytes): (r: bytes) {
    if tokens == [] then [] else if |tokens| == 1 then tokens[0] else tokens[0] + sep + Join(tokens[1..], sep)
  }

  lemma JoinFirst(first: bytes, rest: seq<bytes>, sep: bytes)
    requires rest != []
    ensures Join([first] + rest, sep) == first + sep + Join(rest, sep)
  {
    assert ([first] + rest)[1..] == rest;
  }

  lemma InThree(s: bytes, a: nat, b: nat, c: nat)
    requires a <= b <= c <= |s|
    ensures s[a..] == s[a..b] + s[b..c] + s[c..]
  {}

  lemma {:induction false} PiecesJoin(s: bytes, sep: bytes, start: nat, j: nat, ps: seq<bytes>)
    requires start <= j && start <= |s| && sep != [] && ps == Pieces(s, sep, start, j)
    ensures Join(ps, sep) == s[start..]
    decreases |s| - j
  {
    if j + |sep| <= |s| {
      if Occurs(s, sep, j) {
        var next := j + |sep|;
        var rest := Pieces(s, sep, next, next);
        PiecesJoin(s, sep, next, next, rest);
        JoinFirst(s[start..j], rest, sep);
        InThree(s, start, j, next);
      } else {
        PiecesJoin(s, sep, start, j + 1, ps);
      }
    }
  }

  /** No piece holds a separator, given that none starts between start and j. */
  lemma {:induction false} PiecesAreClean(s: bytes, sep: bytes, start: nat, j: nat)
    requires start <= j && start <= |s| && sep != []
    requires forall k | start <= k < j :: !Occurs(s, sep, k)
    ensures forall t, k: nat | t in Pieces(s, sep, start, j) :: !Occurs(t, sep, k)
    decreases |s| - j
  {
    if j + |sep| > |s| {
      assert s[start..|s|] == s[start..];
      forall k: nat ensures !Occurs(s[start..], sep, k) { SliceOccurs(s, sep, start, |s|, k); }
    } else if Occurs(s, sep, j) {
      PiecesAreClean(s, sep, j + |sep|, j + |sep|);
      forall k: nat ensures !Occurs(s[start..j], sep, k) { SliceOccurs(s, sep, start, j, k); }
    } else {
      PiecesAreClean(s, sep, start, j + 1);
    }
  }

  lemma SliceOccurs(s: bytes, sep: bytes, a: nat, b: nat, k: nat)
    requires a <= b <= |s| && sep != []
    ensures Occurs(s[a..b], sep, k) ==> Occurs(s, sep, a + k) && a + k < b && a + k + |sep| <= b
  {
    var t := s[a..b];
    if Occurs(t, sep, k) {
      var there := s[a + k..a + k + |sep|];
      assert forall x | 0 <= x < |sep| :: there[x] == sep[x] by {
        forall x | 0 <= x < |sep| ensures there[x] == sep[x] { assert sep[x] == t[k + x]; }
      }
      assert there == sep;
    }
  }

  /** The split of a non-empty string: joined with the separator it is the string again, and no token contains it. */
  lemma SplitIsExact(s: bytes, sep: bytes)
    requires sep != []
    ensures var r := Pieces(s, sep, 0, 0);
            Join(r, sep) == s && forall t, k: nat | t in r :: !Occurs(t, sep, k)
  {
    PiecesJoin(s, sep, 0, 0, Pieces(s, sep, 0, 0));
    PiecesAreClean(s, sep, 0, 0);
  }

  /** The first slots of the token array hold the tokens so far. */
  ghost predicate Holds(tokens: array<bytes>, elements: nat, done: seq<bytes>)
    reads tokens
  {
    elements <= tokens.Length && tokens[..elements] == done
  }

  /** The token array, doubled when it might not hold the next token and the final one. */
  method MakeRoom(tokens: array<bytes>, elements: nat, ghost done: seq<bytes>) returns (roomy: array<bytes>)
    requires elements < tokens.Length && Holds(tokens, elements, done)
    ensures elements + 2 <= roomy.Length && Holds(roomy, elements, done)
    ensures roomy == tokens || fresh(roomy)
  {
    roomy := tokens;
    if tokens.Length < elements + 2 {
      roomy := new bytes[2 * tokens.Length](i => []);
      for i := 0 to elements
        invariant roomy[..i] == tokens[..i]
      {
        roomy[i] := tokens[i];
      }
    }
  }

  method PutToken(tokens: array<bytes>, elements: nat, token: bytes, ghost done: seq<bytes>)
    requires elements < tokens.Length && Holds(tokens, elements, done)
    modifies tokens
    ensures Holds(tokens, elements + 1, done + [token])
  {
    tokens[elements] := token;
  }

  /** sdssplitlen: every token is written inside the array, whose room is made before it is needed. */
  method SplitLen(s: bytes, sep: bytes) returns (r: Option<seq<bytes>>)
    ensures r == if sep == [] then None else if s == [] then Some([]) else Some(Pieces(s, sep, 0, 0))
  {
    if |sep| < 1 { return None; }
    var tokens := new bytes[5](i => []);
    if |s| == 0 { return Some([]); }
    var elements, start, j := 0, 0, 0;
    ghost var done: seq<bytes> := [];
    ghost var whole := Pieces(s, sep, 0, 0);
    assert [] + whole == whole;
    while j < |s| - (|sep| - 1)
      invariant 0 <= start <= j && start <= |s| && elements < tokens.Length && fresh(tokens)
      invariant Holds(tokens, elements, done)
      invariant SoFar(done, s, sep, start, j, whole)
      decreases |s| - j
    {
      tokens := MakeRoom(tokens, elements, done);
      ghost var next := NextStart(s, sep, start, j);
      NextPiece(done, s, sep, start, j, whole, next);
      if s[j..j + |sep|] == sep {
        PutToken(tokens, elements, s[start..j], done);
        done := done + [s[start..j]];
        elements := elements + 1;
        start := j + |sep|;
        j := j + |sep| - 1;
      }
      j := j + 1;
      assert (start, j) == next;
    }
    LastPiece(done, s, sep, start, j, whole);
    PutToken(tokens, elements, s[start..], done);
    elements := elements + 1;
    return Some(tokens[..elements]);
  }

  /** The tokens taken and the pieces still to come make up the whole split. */
  predicate SoFar(done: seq<bytes>, s: bytes, sep: bytes, start: nat, j: nat, whole: seq<bytes>) {
    start <= j && start <= |s| && sep != [] && done + Pieces(s, sep, start, j) == whole
  }

  /** Where the loop is one turn on: the start of the current piece and the next position to try. */
  function NextStart(s: bytes, sep: bytes, start: nat, j: nat): (r: (nat, nat)) {
    if Occurs(s, sep, j) then (j + |sep|, j + |sep|) else (start, j + 1)
  }

  lemma NextPiece(done: seq<bytes>, s: bytes, sep: bytes, start: nat, j: nat, whole: seq<bytes>, next: (nat, nat))
    requires SoFar(done, s, sep, start, j, whole) && j + |sep| <= |s| && next == NextStart(s, sep, start, j)
    ensures Occurs(s, sep, j) ==> SoFar(done + [s[start..j]], s, sep, next.0, next.1, whole)
    ensures !Occurs(s, sep, j) ==> SoFar(done, s, sep, next.0, next.1, whole)
  {}

  lemma LastPiece(done: seq<bytes>, s: bytes, sep: bytes, start: nat, j: nat, whole: seq<bytes>)
    requires SoFar(done, s, sep, start, j, whole) && j + |sep| > |s|
    ensures done + [s[start..]] == whole
  {}
}
