/** Topic patterns: the backtracking matcher of src/util.cc and a declarative glob semantics. */
module Glob {
  import opened Bytes

  const STAR: byte := 42
  const QUESTION: byte := 63
  const OPEN: byte := 91
  const CLOSE: byte := 93
  const CARET: byte := 94
  const DASH: byte := 45

  /** The value of a C `char`, which is signed here. */
  function Signed(b: byte): (r: int) { if b < 128 then b else b - 256 }

  /** How bytes are compared; `lower` is the locale's tolower, about which nothing is assumed. */
  datatype Mode = Mode(nocase: bool, lower: int -> int)

  datatype Item = Exact(c: byte) | Plain(c: byte) | Range(a: byte, b: byte)

  datatype Token = Star | Any | Class(negated: bool, items: seq<Item>) | Lit(c: byte)

  predicate Same(m: Mode, a: byte, b: byte) {
    if m.nocase then m.lower(Signed(a)) == m.lower(Signed(b)) else a == b
  }

  /** Escaped class members ignore nocase; range ends are put in order before they are lowered. */
  predicate ItemMatches(m: Mode, item: Item, c: byte) {
    match item
    case Exact(e) => e == c
    case Plain(e) => Same(m, e, c)
    case Range(a, b) =>
      var lo, hi := if Signed(a) <= Signed(b) then Signed(a) else Signed(b), if Signed(a) <= Signed(b) then Signed(b) else Signed(a);
      if m.nocase then m.lower(lo) <= m.lower(Signed(c)) <= m.lower(hi) else lo <= Signed(c) <= hi
  }

  predicate AnyItem(m: Mode, items: seq<Item>, c: byte) {
    items != [] && (ItemMatches(m, items[0], c) || AnyItem(m, items[1..], c))
  }

  /** Whether a token other than `*` accepts one byte. */
  predicate Accepts(m: Mode, t: Token, c: byte) {
    match t
    case Star => false
    case Any => true
    case Class(negated, items) => negated != AnyItem(m, items, c)
    case Lit(e) => Same(m, e, c)
  }

  // ----- Concrete syntax -----

  /** A member of a class can be read at i: it is not closed there, nor cut off after a backslash. */
  predicate IsMember(p: bytes, i: nat) {
    i < |p| && p[i] != CLOSE && (p[i] == BACKSLASH ==> i + 1 < |p|)
  }

  predicate IsRange(p: bytes, i: nat) { i + 2 < |p| && p[i] != BACKSLASH && p[i + 1] == DASH }

  function MemberAt(p: bytes, i: nat): (r: Item)
    requires IsMember(p, i)
  {
    if p[i] == BACKSLASH then Exact(p[i + 1]) else if IsRange(p, i) then Range(p[i], p[i + 2]) else Plain(p[i])
  }

  function MemberEnd(p: bytes, i: nat): (end: nat)
    requires IsMember(p, i)
    ensures i < end <= |p|
  {
    if p[i] == BACKSLASH then i + 2 else if IsRange(p, i) then i + 3 else i + 1
  }

  /** The members of a class whose text starts at i; an unclosed class runs to the end of the pattern. */
  function ClassItems(p: bytes, i: nat): (r: seq<Item>)
    requires i <= |p|
    decreases |p| - i
  {
    if IsMember(p, i) then [MemberAt(p, i)] + ClassItems(p, MemberEnd(p, i)) else []
  }

  /** The position just after the class whose members start at i. */
  function ClassEnd(p: bytes, i: nat): (end: nat)
    requires i <= |p|
    ensures i <= end <= |p|
    decreases |p| - i
  {
    if IsMember(p, i) then ClassEnd(p, MemberEnd(p, i)) else if i < |p| && p[i] == CLOSE then i + 1 else |p|
  }

  /** No class text ends in a lone final backslash. */
  predicate ClassOk(p: bytes, i: nat)
    requires i <= |p|
    decreases |p| - i
  {
    if IsMember(p, i) then ClassOk(p, MemberEnd(p, i)) else i < |p| ==> p[i] == CLOSE
  }

  function ClassStart(p: bytes, i: nat): (j: nat)
    requires i < |p|
    ensures i < j <= |p|
  {
    if i + 1 < |p| && p[i + 1] == CARET then i + 2 else i + 1
  }

  function TokenAt(p: bytes, i: nat): (r: Token)
    requires i < |p|
  {
    if p[i] == STAR then Star
    else if p[i] == QUESTION then Any
    else if p[i] == OPEN then Class(ClassStart(p, i) == i + 2, ClassItems(p, ClassStart(p, i)))
    else if p[i] == BACKSLASH && i + 1 < |p| then Lit(p[i + 1])
    else Lit(p[i])
  }

  function TokenEnd(p: bytes, i: nat): (j: nat)
    requires i < |p|
    ensures i < j <= |p|
  {
    if p[i] == OPEN then ClassEnd(p, ClassStart(p, i))
    else if p[i] == BACKSLASH && i + 1 < |p| then i + 2
    else i + 1
  }

  function Tokens(p: bytes, i: nat): (r: seq<Token>)
    requires i <= |p|
    decreases |p| - i
  {
    if i == |p| then [] else [TokenAt(p, i)] + Tokens(p, TokenEnd(p, i))
  }

  predicate WellFormed(p: bytes, i: nat)
    requires i <= |p|
    decreases |p| - i
  {
    i < |p| ==> (p[i] == OPEN ==> ClassOk(p, ClassStart(p, i))) && WellFormed(p, TokenEnd(p, i))
  }

  // ----- Declarative semantics -----

  predicate TokenFits(m: Mode, t: Token, segment: bytes) {
    t.Star? || (|segment| == 1 && Accepts(m, t, segment[0]))
  }

  /** The subject is cut into one segment per token: any segment for `*`, one accepted byte for the others. */
  ghost predicate Segmented(m: Mode, tokens: seq<Token>, segments: seq<bytes>, subject: bytes) {
    && |segments| == |tokens|
    && Concat(segments) == subject
    && forall k | 0 <= k < |tokens| :: TokenFits(m, tokens[k], segments[k])
  }

  ghost predicate TokenByToken(m: Mode, p: bytes, subject: bytes) {
    exists segments: seq<bytes> :: Segmented(m, Tokens(p, 0), segments, subject)
  }

  /** A recursive decision of the same question, for the pattern from i and the subject from s. */
  predicate Matches(m: Mode, p: bytes, i: nat, str: bytes, s: nat)
    requires i <= |p| && s <= |str|
    decreases |p| - i, |str| - s
  {
    if i == |p| then s == |str|
    else if TokenAt(p, i).Star? then
      Matches(m, p, TokenEnd(p, i), str, s) || (s < |str| && Matches(m, p, i, str, s + 1))
    else s < |str| && Accepts(m, TokenAt(p, i), str[s]) && Matches(m, p, TokenEnd(p, i), str, s + 1)
  }

  lemma {:induction false} MatchesHasSegments(m: Mode, p: bytes, i: nat, str: bytes, s: nat) returns (segments: seq<bytes>)
    requires i <= |p| && s <= |str| && Matches(m, p, i, str, s)
    ensures Segmented(m, Tokens(p, i), segments, str[s..])
    decreases |p| - i, |str| - s
  {
    if i == |p| {
      return [];
    }
    var j := TokenEnd(p, i);
    var t, tokens := TokenAt(p, i), Tokens(p, j);
    if !t.Star? {
      var rest := MatchesHasSegments(m, p, j, str, s + 1);
      segments := [[str[s]]] + rest;
      SegmentedCons(m, t, tokens, [str[s]], rest, str[s + 1..]);
      assert [str[s]] + str[s + 1..] == str[s..];
    } else if Matches(m, p, j, str, s) {
      var rest := MatchesHasSegments(m, p, j, str, s);
      segments := [[]] + rest;
      SegmentedCons(m, t, tokens, [], rest, str[s..]);
      NothingAdded(str[s..]);
    } else {
      var longer := MatchesHasSegments(m, p, i, str, s + 1);
      segments := [[str[s]] + longer[0]] + longer[1..];
      SegmentedLonger(m, t, tokens, str[s], longer, str[s + 1..]);
      assert [str[s]] + str[s + 1..] == str[s..];
    }
  }

  lemma SegmentedCons(m: Mode, t: Token, tokens: seq<Token>, segment: bytes, rest: seq<bytes>, subject: bytes)
    requires TokenFits(m, t, segment) && Segmented(m, tokens, rest, subject)
    ensures Segmented(m, [t] + tokens, [segment] + rest, segment + subject)
  {
    assert ([segment] + rest)[1..] == rest;
  }

  lemma SegmentedLonger(m: Mode, t: Token, tokens: seq<Token>, c: byte, segments: seq<bytes>, subject: bytes)
    requires t.Star? && Segmented(m, [t] + tokens, segments, subject)
    ensures Segmented(m, [t] + tokens, [[c] + segments[0]] + segments[1..], [c] + subject)
  {
    var longer := [[c] + segments[0]] + segments[1..];
    assert longer[1..] == segments[1..];
    Assoc([c], segments[0], Concat(segments[1..]));
    forall k | 0 <= k < |[t] + tokens| ensures TokenFits(m, ([t] + tokens)[k], longer[k]) {
      assert TokenFits(m, ([t] + tokens)[k], segments[k]);
    }
  }

  lemma {:induction false} SegmentsMatch(m: Mode, p: bytes, i: nat, str: bytes, s: nat, segments: seq<bytes>)
    requires i <= |p| && s <= |str| && Segmented(m, Tokens(p, i), segments, str[s..])
    ensures Matches(m, p, i, str, s)
    decreases |p| - i, |str| - s
  {
    if i == |p| {
      return;
    }
    var first, rest := segments[0], segments[1..];
    var j := TokenEnd(p, i);
    assert Tokens(p, i)[1..] == Tokens(p, j);
    assert str[s..][..|first|] == first && str[s..][|first|..] == Concat(rest);
    if !TokenAt(p, i).Star? {
      assert str[s..][0] == first[0];
      SegmentsMatch(m, p, j, str, s + 1, rest);
    } else if first == [] {
      SegmentsMatch(m, p, j, str, s, rest);
    } else {
      var shorter := [first[1..]] + rest;
      assert shorter[1..] == rest;
      assert Concat(shorter) == str[s + 1..];
      SegmentsMatch(m, p, i, str, s + 1, shorter);
    }
  }

  /** The recursive decision is the declarative semantics. */
  lemma MatchesIffTokenByToken(m: Mode, p: bytes, str: bytes)
    ensures Matches(m, p, 0, str, 0) <==> TokenByToken(m, p, str)
  {
    assert str[0..] == str;
    if Matches(m, p, 0, str, 0) {
      var segments := MatchesHasSegments(m, p, 0, str, 0);
    }
    if TokenByToken(m, p, str) {
      var segments: seq<bytes> :| Segmented(m, Tokens(p, 0), segments, str);
      SegmentsMatch(m, p, 0, str, 0, segments);
    }
  }

  // ----- The empty subject -----

  predicate OnlyStars(p: bytes, i: nat) { forall k | i <= k < |p| :: p[k] == STAR }

  lemma {:induction false} EmptyRestNeedsStars(m: Mode, p: bytes, i: nat, str: bytes)
    requires i <= |p|
    ensures Matches(m, p, i, str, |str|) <==> OnlyStars(p, i)
    decreases |p| - i
  {
    if i < |p| && p[i] == STAR {
      EmptyRestNeedsStars(m, p, i + 1, str);
    }
  }

  /** At the end of the subject the matcher compares its first literal or class with the terminating NUL. */
  predicate TakesTerminator(m: Mode, p: bytes, i: nat)
    requires i <= |p|
  {
    i < |p| && !TokenAt(p, i).Any? && Accepts(m, TokenAt(p, i), NUL)
  }

  /** The one wrong answer: the terminator was taken for a byte, and the stars that remain match at once. */
  predicate Overrun(m: Mode, p: bytes, i: nat)
    requires i <= |p|
  {
    TakesTerminator(m, p, i) && TokenEnd(p, i) < |p| && OnlyStars(p, TokenEnd(p, i))
  }

  lemma {:induction false} StarTakesAll(m: Mode, p: bytes, i: nat, str: bytes, s: nat)
    requires i < |p| && p[i] == STAR && s <= |str|
    requires Matches(m, p, i, str, |str|)
    ensures Matches(m, p, i, str, s)
    decreases |str| - s
  {
    if s < |str| { StarTakesAll(m, p, i, str, s + 1); }
  }

  /** Two stars in a row are one. */
  lemma {:induction false} StarStar(m: Mode, p: bytes, i: nat, str: bytes, s: nat)
    requires i + 1 < |p| && p[i] == STAR && p[i + 1] == STAR && s <= |str|
    ensures Matches(m, p, i, str, s) == Matches(m, p, i + 1, str, s)
    decreases |str| - s
  {
    if s < |str| { StarStar(m, p, i, str, s + 1); }
  }

  // ----- The program's matcher -----

  /** What the member at q contributes to the class. */
  lemma ClassStep(m: Mode, pat: bytes, q: nat, c: byte)
    requires IsMember(pat, q)
    ensures AnyItem(m, ClassItems(pat, q), c) <==>
            ItemMatches(m, MemberAt(pat, q), c) || AnyItem(m, ClassItems(pat, MemberEnd(pat, q)), c)
  {
    var items := ClassItems(pat, q);
    assert items == [items[0]] + items[1..];
  }

  /** The `[` case: the byte c against the class whose members start after the `[` at p. The result q is the
      position the pattern pointer is left on, one before the next token. */
  method MatchClass(m: Mode, pat: bytes, p: nat, c: byte) returns (hit: bool, q: nat)
    requires p < |pat| && pat[p] == OPEN && ClassOk(pat, ClassStart(pat, p))
    ensures hit <==> (ClassStart(pat, p) == p + 2) != AnyItem(m, ClassItems(pat, ClassStart(pat, p)), c)
    ensures q + 1 == ClassEnd(pat, ClassStart(pat, p))
  {
    q := p + 1;
    var no := At(pat, q) == CARET;
    if no { q := q + 1; }
    hit := false;
    ghost var first := q;
    while At(pat, q) != CLOSE && q < |pat|
      invariant first <= q <= |pat| && ClassOk(pat, q) && ClassEnd(pat, q) == ClassEnd(pat, first)
      invariant hit || AnyItem(m, ClassItems(pat, q), c) <==> AnyItem(m, ClassItems(pat, first), c)
      decreases |pat| - q
    {
      ClassStep(m, pat, q, c);
      var one;
      one, q := MatchMember(m, pat, q, c);
      if one { hit := true; }
    }
    if q == |pat| { q := q - 1; }
    if no { hit := !hit; }
  }

  method InRange(m: Mode, a: byte, b: byte, c: byte) returns (hit: bool)
    ensures hit <==> ItemMatches(m, Range(a, b), c)
  {
    var start, end, ch := Signed(a), Signed(b), Signed(c);
    if start > end { start, end := end, start; }
    if m.nocase { start, end, ch := m.lower(start), m.lower(end), m.lower(ch); }
    hit := start <= ch <= end;
  }

  /** One member of a class: an escaped byte, a range, or a byte. */
  method MatchMember(m: Mode, pat: bytes, q0: nat, c: byte) returns (one: bool, q: nat)
    requires IsMember(pat, q0)
    ensures one == ItemMatches(m, MemberAt(pat, q0), c) && q == MemberEnd(pat, q0)
  {
    q := q0;
    if At(pat, q) == BACKSLASH {
      q := q + 1;
      one := At(pat, q) == c;
    } else if At(pat, q + 1) == DASH && |pat| - q >= 3 {
      one := InRange(m, pat[q], pat[q + 2], c);
      q := q + 2;
    } else {
      one := if m.nocase then m.lower(Signed(pat[q])) == m.lower(Signed(c)) else pat[q] == c;
    }
    q := q + 1;
  }

  /** The `*` case: a run of stars is skipped, then every non-empty rest of the subject is tried. */
  method MatchStar(m: Mode, pat: bytes, p0: nat, str: bytes, s0: nat) returns (r: bool)
    requires p0 < |pat| && pat[p0] == STAR && WellFormed(pat, p0)
    requires s0 <= |str| || OnlyStars(pat, p0)
    ensures r <==> s0 > |str| || Matches(m, pat, p0, str, s0)
    decreases |pat| - p0, 0
  {
    var p, s := p0, s0;
    while At(pat, p + 1) == STAR
      invariant p0 <= p < |pat| && pat[p] == STAR && WellFormed(pat, p)
      invariant s0 <= |str| ==> Matches(m, pat, p0, str, s0) == Matches(m, pat, p, str, s0)
      decreases |pat| - p
    {
      if s0 <= |str| { StarStar(m, pat, p, str, s0); }
      p := p + 1;
    }
    EmptyRestNeedsStars(m, pat, p, str);
    if |pat| - p == 1 {
      if s0 <= |str| { StarTakesAll(m, pat, p, str, s0); }
      return true;
    }
    while |str| - s > 0
      invariant s0 <= s <= |str|
      invariant Matches(m, pat, p, str, s0) == Matches(m, pat, p, str, s)
    {
      var matched := StringMatchLen(m, pat, p + 1, str, s);
      if matched { return true; }
      s := s + 1;
    }
    assert pat[p + 1] != STAR;
    return false;
  }

  /** One token other than `*`: whether it takes the byte at s, and the position behind it. */
  method MatchOne(m: Mode, pat: bytes, p: nat, str: bytes, s: nat) returns (hit: bool, q: nat)
    requires p < |pat| && pat[p] != STAR && WellFormed(pat, p) && s <= |str|
    ensures hit <==> Accepts(m, TokenAt(pat, p), At(str, s)) && (pat[p] == QUESTION ==> s < |str|)
    ensures hit ==> q == TokenEnd(pat, p)
  {
    q := p;
    if pat[p] == QUESTION {
      hit := |str| - s != 0;
    } else if pat[p] == OPEN {
      hit, q := MatchClass(m, pat, p, At(str, s));
    } else {
      if pat[p] == BACKSLASH && |pat| - p >= 2 { q := p + 1; }
      hit := if m.nocase then m.lower(Signed(pat[q])) == m.lower(Signed(At(str, s))) else pat[q] == At(str, s);
    }
    q := q + 1;
  }

  /** stringmatchlen from position p0 of the pattern and s0 of the subject; patternLen is |pat| - p and
      stringLen is |str| - s. The last precondition keeps the reads inside both strings. */
  method StringMatchLen(m: Mode, pat: bytes, p0: nat, str: bytes, s0: nat) returns (r: bool)
    requires p0 <= |pat| && s0 <= |str| && WellFormed(pat, p0)
    requires s0 < |str| || (TakesTerminator(m, pat, p0) ==> OnlyStars(pat, TokenEnd(pat, p0)))
    ensures r <==> Matches(m, pat, p0, str, s0) || (s0 == |str| && Overrun(m, pat, p0))
    decreases |pat| - p0, 1
  {
    var p, s := p0, s0;
    while p < |pat|
      invariant p0 <= p <= |pat| && s0 <= s <= |str| + 1 && WellFormed(pat, p)
      invariant s <= |str| ==> Matches(m, pat, p0, str, s0) == Matches(m, pat, p, str, s)
      invariant s == |str| ==> s0 == |str| && p == p0
      // stringLen is -1: the terminator was taken for a byte, and only stars can be left
      invariant s > |str| ==> s0 == |str| && OnlyStars(pat, p) && !Matches(m, pat, p0, str, s0)
      invariant s > |str| ==> Overrun(m, pat, p0) == (p < |pat|)
    {
      if pat[p] == STAR {
        r := MatchStar(m, pat, p, str, s);
        return;
      }
      var hit;
      hit, p := MatchOne(m, pat, p, str, s);
      if !hit { return false; }
      s := s + 1;
      if |str| - s == 0 {
        ghost var q := p;
        EmptyRestNeedsStars(m, pat, q, str);
        while At(pat, p) == STAR
          invariant q <= p <= |pat| && OnlyStars(pat, q) == OnlyStars(pat, p)
          decreases |pat| - p
        {
          p := p + 1;
        }
        break;
      }
    }
    r := |pat| - p == 0 && |str| - s == 0;
  }

  /** The matcher on whole strings: it decides the declarative semantics, except that it also says yes on an
      empty subject whose terminator it overran. */
  method StringMatch(m: Mode, pat: bytes, str: bytes) returns (r: bool)
    requires WellFormed(pat, 0)
    requires str != [] || (TakesTerminator(m, pat, 0) ==> OnlyStars(pat, TokenEnd(pat, 0)))
    ensures r <==> TokenByToken(m, pat, str) || (str == [] && Overrun(m, pat, 0))
    ensures str != [] ==> (r <==> TokenByToken(m, pat, str))
    ensures (r <==> TokenByToken(m, pat, str)) <==> !(str == [] && Overrun(m, pat, 0))
  {
    MatchesIffTokenByToken(m, pat, str);
    if str == [] && Overrun(m, pat, 0) { OverrunIsWrong(m, pat); }
    r := StringMatchLen(m, pat, 0, str, 0);
  }

  /** Overrunning is always a wrong answer: one byte had to be there. */
  lemma OverrunIsWrong(m: Mode, p: bytes)
    requires Overrun(m, p, 0)
    ensures !TokenByToken(m, p, [])
  {
    MatchesIffTokenByToken(m, p, []);
  }

  /** A witness: `[^a]*` is answered yes on the empty topic, although its class needs a byte. */
  lemma OverrunWitness(m: Mode)
    requires !m.nocase
    ensures var p := [OPEN, CARET, 97, CLOSE, STAR];
            WellFormed(p, 0) && Overrun(m, p, 0) && !TokenByToken(m, p, [])
  {
    var p: bytes := [OPEN, CARET, 97, CLOSE, STAR];
    assert ClassItems(p, 3) == [] && ClassItems(p, 2) == [Plain(97)];
    assert ClassEnd(p, 3) == 4 && ClassEnd(p, 2) == 4 && TokenEnd(p, 0) == 4;
    assert ClassOk(p, 3) && ClassOk(p, 2);
    assert TokenEnd(p, 4) == 5 && WellFormed(p, 5) && WellFormed(p, 4);
    OverrunIsWrong(m, p);
  }
}
