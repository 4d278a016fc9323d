/** Decimal printing and parsing of signed 64-bit integers (src/util.cc). */
module Numbers {
  import opened Bytes

  const LLONG_MAX: int := 0x7FFF_FFFF_FFFF_FFFF
  const LLONG_MIN: int := -0x8000_0000_0000_0000
  const ULLONG_MAX: int := 0xFFFF_FFFF_FFFF_FFFF
  const MINUS: byte := 45
  const ZERO: byte := 48

  predicate IsDigit(b: byte) { 48 <= b <= 57 }

  predicate AllDigits(s: bytes) { forall i | 0 <= i < |s| :: IsDigit(s[i]) }

  /** The canonical decimal form: no leading zero, no plus sign, no negative zero. */
  function Digits(n: nat): (r: bytes) {
    if n < 10 then [48 + n] else Digits(n / 10) + [48 + n % 10]
  }

  function Decimal(v: int): (r: bytes) {
    if v < 0 then [MINUS] + Digits(-v) else Digits(v)
  }

  /** The positional value of a digit string, leading zeros allowed. */
  function Value(s: bytes): (r: nat)
    requires AllDigits(s)
  {
    if s == [] then 0 else Value(s[..|s| - 1]) * 10 + (s[|s| - 1] - 48)
  }

  predicate CanonicalNat(s: bytes) {
    s != [] && AllDigits(s) && (|s| > 1 ==> s[0] != ZERO)
  }

  /** What string2ll accepts, as a function of the bytes. */
  function Parse(s: bytes): (r: Option<int>) {
    if CanonicalNat(s) && Value(s) <= LLONG_MAX then Some(Value(s))
    else if |s| > 1 && s[0] == MINUS && CanonicalNat(s[1..]) && 0 < Value(s[1..]) <= -LLONG_MIN then Some(0 - Value(s[1..]))
    else None
  }

  lemma {:induction false} DigitsAreCanonical(n: nat)
    ensures CanonicalNat(Digits(n)) && Value(Digits(n)) == n
    ensures n > 0 ==> Digits(n)[0] != ZERO
  {
    if n >= 10 {
      DigitsAreCanonical(n / 10);
      assert Digits(n)[..|Digits(n)| - 1] == Digits(n / 10);
    } else {
      assert Digits(n)[..0] == [];
    }
  }

  lemma {:induction false} CanonicalIsDigits(s: bytes)
    requires CanonicalNat(s)
    ensures s == Digits(Value(s))
    ensures s[0] != ZERO ==> Value(s) > 0
  {
    var t := s[..|s| - 1];
    if |s| == 1 {
      assert t == [];
    } else {
      CanonicalIsDigits(t);
      assert s == t + [s[|s| - 1]];
    }
  }

  /** The exact partial inverse: a value is read precisely from its canonical form. */
  lemma ParseInvertsDecimal(s: bytes, v: int)
    ensures Parse(s) == Some(v) <==> LLONG_MIN <= v <= LLONG_MAX && s == Decimal(v)
  {
    if Parse(s) == Some(v) { ParsedIsDecimal(s, v); }
    if LLONG_MIN <= v <= LLONG_MAX { DecimalIsParsed(v); }
  }

  lemma ParsedIsDecimal(s: bytes, v: int)
    requires Parse(s) == Some(v)
    ensures LLONG_MIN <= v <= LLONG_MAX && s == Decimal(v)
  {
    if CanonicalNat(s) && Value(s) <= LLONG_MAX {
      CanonicalIsDigits(s);
    } else {
      CanonicalIsDigits(s[1..]);
      assert s == [MINUS] + s[1..];
    }
  }

  lemma DecimalIsParsed(v: int)
    requires LLONG_MIN <= v <= LLONG_MAX
    ensures Parse(Decimal(v)) == Some(v)
  {
    DigitsAreCanonical(if v < 0 then -v else v);
    if v < 0 { assert Decimal(v)[1..] == Digits(-v); }
  }

  lemma {:induction false} ValuePrefix(s: bytes, k: nat)
    requires AllDigits(s) && k <= |s|
    ensures Value(s[..k]) <= Value(s)
    ensures k < |s| ==> Value(s[..k]) * 10 + (s[k] - 48) <= Value(s)
    decreases |s|
  {
    if k < |s| {
      var t := s[..|s| - 1];
      ValuePrefix(t, k);
      assert t[..k] == s[..k];
    } else {
      assert s[..k] == s;
    }
  }

  /** Where the digits start: after the sign, if there is one. */
  function Start(s: bytes): (r: nat) { if s != [] && s[0] == MINUS then 1 else 0 }

  lemma RejectedAt(s: bytes, k: nat)
    requires Start(s) <= k < |s| && !IsDigit(s[k])
    ensures Parse(s).None?
  {
    assert Start(s) == 1 ==> s[1..][k - 1] == s[k];
  }

  lemma RejectedFirst(s: bytes)
    requires Start(s) == |s| || (!(49 <= s[Start(s)] <= 57) && s != [ZERO])
    ensures Parse(s).None?
  {
    if Start(s) < |s| {
      var t := s[Start(s)..];
      assert t[0] == s[Start(s)];
      if CanonicalNat(t) { assert t == [ZERO] && t[..0] == [] && Value(t) == 0; }
      assert s[0] != MINUS ==> t == s;
    }
  }

  /** A digit run whose next digit takes the value past 64 unsigned bits dooms the whole string. */
  lemma TooBig(s: bytes, k: nat)
    requires Start(s) < k < |s| && AllDigits(s[Start(s)..k]) && IsDigit(s[k])
    requires Value(s[Start(s)..k]) * 10 + (s[k] - 48) > ULLONG_MAX
    ensures Parse(s).None?
  {
    var from := Start(s);
    var t := s[from..];
    if AllDigits(t) {
      assert t[..k - from] == s[from..k];
      ValuePrefix(t, k - from);
    }
    assert from == 0 ==> t == s;
  }

  lemma Accepted(s: bytes)
    requires Start(s) < |s| && AllDigits(s[Start(s)..]) && s[Start(s)] != ZERO
    ensures var v := Value(s[Start(s)..]);
            Parse(s) == if Start(s) == 1 then (if v <= -LLONG_MIN then Some(0 - v) else None)
                        else if v <= LLONG_MAX then Some(v) else None
  {
    CanonicalIsDigits(s[Start(s)..]);
    assert Start(s) == 0 ==> s[Start(s)..] == s;
  }

  lemma ValueSnoc(s: bytes, from: nat, p: nat)
    requires from <= p < |s| && AllDigits(s[from..p]) && IsDigit(s[p])
    ensures AllDigits(s[from..p + 1])
    ensures Value(s[from..p + 1]) == Value(s[from..p]) * 10 + (s[p] - 48)
  {
    var t := s[from..p + 1];
    SliceSlice(s, from, p + 1, 0, p - from);
    assert t[..|t| - 1] == s[from..p];
    forall i | 0 <= i < |t| ensures IsDigit(t[i]) {
      if i < p - from { assert t[i] == s[from..p][i]; }
    }
  }

  /** Two's complement: how the machine stores -v for an unsigned v, read as signed. */
  function NegateAsSigned(v: int): (r: int)
    requires 0 <= v <= ULLONG_MAX
  {
    var u := (ULLONG_MAX + 1 - v) % (ULLONG_MAX + 1);
    if u > LLONG_MAX then u - (ULLONG_MAX + 1) else u
  }

  /** The digit loop of string2ll, past the first digit, with its two overflow guards. */
  method ReadDigits(s: bytes, first: nat) returns (r: Option<(int, nat)>)
    requires first == Start(s) < |s| && 49 <= s[first] <= 57
    ensures r.None? ==> Parse(s).None?
    ensures r.Some? ==> var (v, p) := r.value;
      && first < p <= |s| && AllDigits(s[first..p]) && v == Value(s[first..p]) && 0 <= v <= ULLONG_MAX
      && (p < |s| ==> !IsDigit(s[p]))
  {
    var v: int := s[first] - 48;
    ValueSnoc(s, first, first);
    assert s[first..first] == [];
    var p := first + 1;
    while p < |s| && IsDigit(s[p])
      invariant first < p <= |s|
      invariant AllDigits(s[first..p]) && v == Value(s[first..p]) && 0 <= v <= ULLONG_MAX
    {
      ValueSnoc(s, first, p);
      if v > ULLONG_MAX / 10 {
        TooBig(s, p);
        return None;
      }
      v := v * 10;
      if v > ULLONG_MAX - (s[p] - 48) {
        TooBig(s, p);
        return None;
      }
      v := v + (s[p] - 48);
      p := p + 1;
    }
    return Some((v, p));
  }

  lemma ParseZero(s: bytes)
    requires s == [ZERO]
    ensures Parse(s) == Some(0)
  {
    assert s[..0] == [] && Value(s) == 0;
  }

  lemma ParseEmpty()
    ensures Parse([]).None?
  {}

  /** string2ll: one pass with an unsigned accumulator. */
  method String2ll(s: bytes) returns (r: Option<int>)
    ensures r == Parse(s)
  {
    if |s| == 0 {
      ParseEmpty();
      return None;
    }
    if |s| == 1 && s[0] == ZERO {
      ParseZero(s);
      return Some(0);
    }
    var p := 0;
    var negative := false;
    if s[0] == MINUS {
      negative := true;
      p := 1;
      if p == |s| {
        RejectedFirst(s);
        return None;
      }
    }
    if !(49 <= s[p] <= 57) {
      RejectedFirst(s);
      return None;
    }
    var digits := ReadDigits(s, p);
    if digits == None { return None; }
    var (v, end) := digits.value;
    if end < |s| {
      RejectedAt(s, end);
      return None;
    }
    assert s[p..end] == s[p..];
    Accepted(s);
    r := WithSign(negative, v);
  }

  /** The range checks that end string2ll. */
  method WithSign(negative: bool, v: int) returns (r: Option<int>)
    requires 0 <= v <= ULLONG_MAX
    ensures negative ==> r == if v <= -LLONG_MIN then Some(0 - v) else None
    ensures !negative ==> r == if v <= LLONG_MAX then Some(v) else None
  {
    if negative {
      if v > -LLONG_MIN { return None; }
      return Some(NegateAsSigned(v));
    }
    if v > LLONG_MAX { return None; }
    return Some(v);
  }

  function Pow10(k: nat): (r: nat) { if k == 0 then 1 else 10 * Pow10(k - 1) }

  lemma {:induction false} DigitsLength(n: nat, k: nat)
    requires 0 < k && n < Pow10(k)
    ensures |Digits(n)| <= k
  {
    if n >= 10 { DigitsLength(n / 10, k - 1); }
  }

  lemma DigitsFit(n: nat)
    requires n <= -LLONG_MIN
    ensures |Digits(n)| <= 19
  {
    assert Pow10(5) == 100_000;
    assert Pow10(10) == 10_000_000_000;
    assert Pow10(15) == 1_000_000_000_000_000;
    assert Pow10(19) == 10_000_000_000_000_000_000;
    DigitsLength(n, 19);
  }

  /** The digits of n are those of v, if any, and then tail, which has room in 20 bytes. */
  predicate DigitsLeft(n: nat, v: nat, tail: bytes) {
    Digits(n) == (if v == 0 then tail else Digits(v) + tail) && |tail| + (if v == 0 then 0 else 1) <= 20
  }

  lemma NextDigit(n: nat, v: nat, tail: bytes)
    requires Digits(n) == Digits(v) + tail && |Digits(n)| <= 20
    ensures DigitsLeft(n, v / 10, [48 + v % 10] + tail)
  {
    if v >= 10 { Assoc(Digits(v / 10), [48 + v % 10], tail); }
  }

  /** The last digit of v goes in front of the text that ends the array. */
  method PutDigit(buf: array<byte>, p: nat, v: nat, ghost tail: bytes) returns (left: nat)
    requires p < buf.Length && buf[p + 1..] == tail
    modifies buf
    ensures left == v / 10 && buf[p..] == [48 + v % 10] + tail
  {
    buf[p] := 48 + v % 10;
    assert buf[p..] == [buf[p]] + buf[p + 1..];
    left := v / 10;
  }

  /** The backward digit loop of ll2string and sdsfromlonglong: the digits of v end at the array's end. */
  method FillDigits(buf: array<byte>, n: nat) returns (p: nat)
    requires buf.Length == 32 && n <= -LLONG_MIN
    modifies buf
    ensures 12 <= p < 32 && buf[p..] == Digits(n)
  {
    DigitsFit(n);
    NothingAdded(Digits(n));
    NextDigit(n, n, []);
    p := 31;
    var v := PutDigit(buf, p, n, []);
    while v != 0
      invariant p <= 31 && DigitsLeft(n, v, buf[p..])
    {
      ghost var tail := buf[p..];
      NextDigit(n, v, tail);
      p := p - 1;
      v := PutDigit(buf, p, v, tail);
    }
  }

  /** ll2string: digits are produced backwards in a 32-byte scratch array, then copied; the text is cut
      to the room there is, and a terminating NUL always fits. */
  method Ll2string(s: array<byte>, len: nat, value: int) returns (l: nat)
    requires LLONG_MIN < value <= LLONG_MAX && len <= s.Length
    modifies s
    ensures len == 0 ==> l == 0 && s[..] == old(s[..])
    ensures len > 0 ==> l == if |Decimal(value)| < len then |Decimal(value)| else len - 1
    ensures len > 0 ==> s[..l] == Decimal(value)[..l] && s[l] == NUL && s[l + 1..] == old(s[l + 1..])
  {
    if len == 0 { return 0; }
    var buf := new byte[32];
    var p := FillDigits(buf, if value < 0 then -value else value);
    if value < 0 {
      ghost var digits := buf[p..];
      p := p - 1;
      buf[p] := MINUS;
      assert buf[p..] == [MINUS] + digits;
    }
    ghost var text := buf[p..];
    l := 32 - p;
    if l + 1 > len { l := len - 1; }
    CopyOut(s, buf, p, l, text);
  }

  /** memcpy of l bytes of buf from p on to the front of s, and a NUL behind them. */
  method CopyOut(s: array<byte>, buf: array<byte>, p: nat, l: nat, ghost text: bytes)
    requires l < s.Length && p + l <= buf.Length && s != buf && text == buf[p..]
    modifies s
    ensures s[..l] == text[..l] && s[l] == NUL && s[l + 1..] == old(s[l + 1..])
  {
    forall i | 0 <= i < l {
      s[i] := buf[p + i];
    }
    s[l] := NUL;
    forall i | 0 <= i < l ensures s[..l][i] == text[..l][i] {}
  }
}
