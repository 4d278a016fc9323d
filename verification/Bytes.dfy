/** Bytes, optional values and flattening: the vocabulary shared by every component. */
module Bytes {
  type byte = b: int | 0 <= b < 256
  type bytes = seq<byte>

  datatype Option<+T> = None | Some(value: T)

  const NUL: byte := 0
  const TAB: byte := 9
  const LF: byte := 10
  const CR: byte := 13
  const SPACE: byte := 32
  const BACKSLASH: byte := 92
  const CRLF: bytes := [CR, LF]

  /** Where something lies in a memory that a model makes explicit. */
  type Addr = nat

  /** A C string read: the byte at i, or the NUL just after the last one; never further. */
  function At(s: bytes, i: nat): (r: byte)
    requires i <= |s|
  {
    if i < |s| then s[i] else NUL
  }

  /** The concatenation of a list of sequences, in order. */
  function Concat<T>(xs: seq<seq<T>>): (r: seq<T>) {
    if xs == [] then [] else xs[0] + Concat(xs[1..])
  }

  lemma Assoc<T>(a: seq<T>, b: seq<T>, c: seq<T>)
    ensures a + b + c == a + (b + c)
  {}

  lemma NothingAdded<T>(a: seq<T>)
    ensures a + [] == a && [] + a == a
  {}

  /** A slice of a slice is a slice. */
  lemma SliceSlice<T>(s: seq<T>, a: nat, b: nat, x: nat, y: nat)
    requires a <= b <= |s| && x <= y <= b - a
    ensures s[a..b][x..y] == s[a + x..a + y]
  {
    forall i | 0 <= i < y - x ensures s[a..b][x..y][i] == s[a + x..a + y][i] {}
  }

  /** One element moves from the front of what is left to the end of what is done. */
  lemma MoveOne<T>(done: seq<T>, left: seq<T>)
    requires left != []
    ensures left == [left[0]] + left[1..] && done + [left[0]] + left[1..] == done + left
  {
    assert left == [left[0]] + left[1..];
    Assoc(done, [left[0]], left[1..]);
  }

  lemma {:induction false} ConcatAppend<T>(xs: seq<seq<T>>, ys: seq<seq<T>>)
    ensures Concat(xs + ys) == Concat(xs) + Concat(ys)
  {
    if xs == [] {
      assert xs + ys == ys;
    } else {
      ConcatAppend(xs[1..], ys);
      assert (xs + ys)[0] == xs[0] && (xs + ys)[1..] == xs[1..] + ys;
      Assoc(xs[0], Concat(xs[1..]), Concat(ys));
    }
  }

  lemma ConcatOne<T>(x: seq<T>)
    ensures Concat([x]) == x
  {
    assert Concat([x]) == x + Concat([]);
  }

  lemma ConcatSnoc<T>(xs: seq<seq<T>>, x: seq<T>)
    ensures Concat(xs + [x]) == Concat(xs) + x
  {
    ConcatAppend(xs, [x]);
    ConcatOne(x);
  }
}
