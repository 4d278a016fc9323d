/** What patterns mean, pattern by pattern: the declarative semantics spelled out without its own vocabulary, so that
    each kind of token is pinned to the bytes it takes. */
module Patterns {
  import opened Bytes
  import opened Glob

  /** The value of a signed char is the byte's, up to a multiple of 256, and in range. */
  lemma SignedIs(b: byte)
    ensures -128 <= Signed(b) <= 127 && (Signed(b) - b) % 256 == 0
  {}

  // ----- Plain text -----

  predicate IsSpecial(b: byte) { b in [42, 63, 91, 92] }

  /** From i on, pattern and subject are equal byte for byte, or equal when lowered. */
  predicate SameText(m: Mode, p: bytes, str: bytes, i: nat) {
    && |p| == |str|
    && forall k | i <= k < |p| :: if m.nocase then m.lower(Signed(p[k])) == m.lower(Signed(str[k])) else p[k] == str[k]
  }

  lemma {:induction false} TextMatches(m: Mode, p: bytes, str: bytes, i: nat)
    requires i <= |p| && i <= |str| && forall k | 0 <= k < |p| :: !IsSpecial(p[k])
    ensures Matches(m, p, i, str, i) <==> SameText(m, p, str, i)
    decreases |p| - i
  {
    if i < |p| && i < |str| {
      assert !IsSpecial(p[i]);
      TextMatches(m, p, str, i + 1);
    } else if i < |p| {
      assert !IsSpecial(p[i]);
    }
  }

  /** A pattern without special bytes matches exactly the subjects of its own length whose bytes are its bytes; with
      nocase, whose lowered bytes are its lowered bytes. */
  lemma LiteralsMatchIff(m: Mode, p: bytes, str: bytes)
    requires forall k | 0 <= k < |p| :: p[k] !in [42, 63, 91, 92]
    ensures TokenByToken(m, p, str) <==>
            |p| == |str| && forall k | 0 <= k < |p| ::
              if m.nocase then m.lower(Signed(p[k])) == m.lower(Signed(str[k])) else p[k] == str[k]
  {
    MatchesIffTokenByToken(m, p, str);
    TextMatches(m, p, str, 0);
  }

  /** An escape makes any byte plain; alone at the end a backslash stands for itself. */
  lemma EscapedMatchesIff(m: Mode, x: byte, str: bytes)
    ensures TokenByToken(m, [92, x], str) <==>
            |str| == 1 && if m.nocase then m.lower(Signed(x)) == m.lower(Signed(str[0])) else x == str[0]
    ensures TokenByToken(m, [92], str) <==>
            |str| == 1 && if m.nocase then m.lower(Signed(92)) == m.lower(Signed(str[0])) else 92 == str[0]
  {
    OneToken(m, [92, x], Lit(x), str);
    OneToken(m, [92], Lit(92), str);
  }

  // ----- One token -----

  lemma OneToken(m: Mode, p: bytes, t: Token, str: bytes)
    requires p != [] && TokenAt(p, 0) == t && TokenEnd(p, 0) == |p| && !t.Star?
    ensures TokenByToken(m, p, str) <==> |str| == 1 && Accepts(m, t, str[0])
  {
    MatchesIffTokenByToken(m, p, str);
  }

  /** `?` matches every one byte, `*` everything. */
  lemma WildMatches(m: Mode, str: bytes)
    ensures TokenByToken(m, [63], str) <==> |str| == 1
    ensures TokenByToken(m, [42], str)
  {
    OneToken(m, [63], Any, str);
    assert Tokens([42], 0) == [Star] + Tokens([42], 1);
    assert Concat([str]) == str by { ConcatOne(str); }
    assert Segmented(m, Tokens([42], 0), [str], str);
  }

  lemma OneItem(p: bytes, i: nat, item: Item)
    requires IsMember(p, i) && MemberAt(p, i) == item && MemberEnd(p, i) == |p| - 1 && p[|p| - 1] == CLOSE
    ensures ClassItems(p, i) == [item] && ClassEnd(p, i) == |p|
  {
    assert ClassItems(p, |p| - 1) == [] && ClassEnd(p, |p| - 1) == |p|;
    NothingAdded([item]);
  }

  lemma OneClass(m: Mode, p: bytes, negated: bool, item: Item, str: bytes)
    requires |p| > 2 && p[0] == OPEN && ClassStart(p, 0) == (if negated then 2 else 1)
    requires IsMember(p, ClassStart(p, 0)) && MemberAt(p, ClassStart(p, 0)) == item
    requires MemberEnd(p, ClassStart(p, 0)) == |p| - 1 && p[|p| - 1] == CLOSE
    ensures TokenByToken(m, p, str) <==> |str| == 1 && negated != ItemMatches(m, item, str[0])
  {
    OneItem(p, ClassStart(p, 0), item);
    OneToken(m, p, Class(negated, [item]), str);
    if |str| == 1 { assert AnyItem(m, [item], str[0]) == ItemMatches(m, item, str[0]); }
  }

  /** `[x]` and `[^x]`: one byte equal to x, or lowered equal; or one that is not. */
  lemma MemberMatchesIff(m: Mode, x: byte, str: bytes)
    requires x !in [92, 93, 94]
    ensures TokenByToken(m, [91, x, 93], str) <==>
            |str| == 1 && if m.nocase then m.lower(Signed(x)) == m.lower(Signed(str[0])) else x == str[0]
    ensures TokenByToken(m, [91, 94, x, 93], str) <==>
            |str| == 1 && if m.nocase then m.lower(Signed(x)) != m.lower(Signed(str[0])) else x != str[0]
  {
    OneClass(m, [91, x, 93], false, Plain(x), str);
    OneClass(m, [91, 94, x, 93], true, Plain(x), str);
  }

  /** An escaped member is equal to its byte in either mode. */
  lemma EscapedMemberMatchesIff(m: Mode, x: byte, str: bytes)
    ensures TokenByToken(m, [91, 92, x, 93], str) <==> str == [x]
  {
    OneClass(m, [91, 92, x, 93], false, Exact(x), str);
  }

  /** `[a-b]`: as signed characters, between the ends in either order; with nocase, the ends are put in order first and
      lowered then. */
  lemma RangeMatchesIff(m: Mode, a: byte, b: byte, str: bytes)
    requires a !in [92, 93, 94]
    ensures !m.nocase ==> (TokenByToken(m, [91, a, 45, b, 93], str) <==>
              |str| == 1 && (Signed(a) <= Signed(str[0]) <= Signed(b) || Signed(b) <= Signed(str[0]) <= Signed(a)))
    ensures m.nocase && Signed(a) <= Signed(b) ==> (TokenByToken(m, [91, a, 45, b, 93], str) <==>
              |str| == 1 && m.lower(Signed(a)) <= m.lower(Signed(str[0])) <= m.lower(Signed(b)))
    ensures m.nocase && Signed(b) <= Signed(a) ==> (TokenByToken(m, [91, a, 45, b, 93], str) <==>
              |str| == 1 && m.lower(Signed(b)) <= m.lower(Signed(str[0])) <= m.lower(Signed(a)))
  {
    OneClass(m, [91, a, 45, b, 93], false, Range(a, b), str);
  }

  // ----- Which patterns are well-formed -----

  lemma {:induction false} ClassOkWithoutEscapes(p: bytes, i: nat)
    requires i <= |p| && forall k | 0 <= k < |p| :: p[k] != 92
    ensures ClassOk(p, i)
    decreases |p| - i
  {
    if IsMember(p, i) { ClassOkWithoutEscapes(p, MemberEnd(p, i)); }
  }

  /** Only a pattern with both a class and a backslash can be ill-formed, and one with a byte behind every backslash is
      well-formed. */
  lemma {:induction false} WellFormedMostly(p: bytes, i: nat)
    requires i <= |p|
    requires (forall k | 0 <= k < |p| :: p[k] != 92) || (forall k | 0 <= k < |p| :: p[k] != 91)
    ensures WellFormed(p, i)
    decreases |p| - i
  {
    if i < |p| {
      if p[i] == OPEN { ClassOkWithoutEscapes(p, ClassStart(p, i)); }
      WellFormedMostly(p, TokenEnd(p, i));
    }
  }

  lemma {:induction false} ClassOkWithoutFinalEscape(p: bytes, i: nat)
    requires i <= |p| && (p != [] ==> p[|p| - 1] != 92)
    ensures ClassOk(p, i)
    decreases |p| - i
  {
    if IsMember(p, i) { ClassOkWithoutFinalEscape(p, MemberEnd(p, i)); }
  }

  lemma {:induction false} WellFormedWithoutFinalEscape(p: bytes, i: nat)
    requires i <= |p| && (p != [] ==> p[|p| - 1] != 92)
    ensures WellFormed(p, i)
    decreases |p| - i
  {
    if i < |p| {
      if p[i] == OPEN { ClassOkWithoutFinalEscape(p, ClassStart(p, i)); }
      WellFormedWithoutFinalEscape(p, TokenEnd(p, i));
    }
  }
}
