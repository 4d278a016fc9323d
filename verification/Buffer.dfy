/** The copy-on-write byte buffer (src/buffer.cc). Memory is explicit: blocks have addresses, freeing removes them,
    and any number of handles may point at one block. A block is a data array together with its count cell, which
    the program allocates, shares and frees as a pair. */
module Buffer {
  import opened Bytes

  const UINT32 := 0x1_0000_0000

  datatype Block = Block(data: bytes, count: nat)

  /** One Buffer object: where its block is, and its own size and capacity. */
  datatype Handle = Handle(block: Addr, size: nat, capacity: nat)

  /** The allocated blocks, the handles in use, and an address above all blocks. */
  datatype Memory = Memory(blocks: map<Addr, Block>, handles: map<nat, Handle>, brk: Addr)

  function Owners(m: Memory, a: Addr): (r: set<nat>) { set i | i in m.handles && m.handles[i].block == a }

  predicate Sound(m: Memory, i: nat)
    requires i in m.handles
  {
    var h := m.handles[i];
    h.block in m.blocks && h.size <= h.capacity && |m.blocks[h.block].data| == h.capacity + 1
  }

  /** Every handle points at a live block; every block's count is the number of its handles, and there is one. */
  ghost predicate Valid(m: Memory) { AllSound(m) && CountsRight(m) }

  ghost predicate CountsRight(m: Memory) {
    forall a | a in m.blocks :: a < m.brk && m.blocks[a].count == |Owners(m, a)| > 0
  }

  /** Valid, except that handle i may claim more bytes than its block has room for. */
  ghost predicate ValidBut(m: Memory, i: nat) {
    && i in m.handles && m.handles[i].block in m.blocks
    && |m.blocks[m.handles[i].block].data| == m.handles[i].capacity + 1
    && (forall j | j in m.handles && j != i :: Sound(m, j)) && CountsRight(m)
  }

  predicate AllSound(m: Memory) { forall i | i in m.handles :: Sound(m, i) }

  /** What the program sees behind a handle. */
  function Content(m: Memory, i: nat): (r: bytes)
    requires i in m.handles && Sound(m, i)
  {
    m.blocks[m.handles[i].block].data[..m.handles[i].size]
  }

  /** A NUL follows the content, which the request parser's strchr relies on. */
  predicate Terminated(m: Memory, i: nat) {
    i in m.handles && Sound(m, i) && m.blocks[m.handles[i].block].data[m.handles[i].size] == NUL
  }

  /** Handles other than i are there as before, with the same bytes behind them. */
  ghost predicate OthersKept(m: Memory, n: Memory, i: nat) {
    && n.handles.Keys - {i} == m.handles.Keys - {i}
    && forall j | j in m.handles && j != i ::
         j in n.handles && n.handles[j] == m.handles[j] && SameData(m, n, m.handles[j].block)
  }

  predicate SameData(m: Memory, n: Memory, a: Addr) {
    a in m.blocks && a in n.blocks && n.blocks[a].data == m.blocks[a].data
  }

  // ----- The moves every operation is made of -----

  /** A handle with a block of its own: new data and a new count of one. */
  function Own(m: Memory, i: nat, data: bytes, size: nat): (r: Memory)
    requires size < |data|
  {
    Memory(m.blocks[m.brk := Block(data, 1)], m.handles[i := Handle(m.brk, size, |data| - 1)], m.brk + 1)
  }

  function Recount(m: Memory, a: Addr, count: nat): (r: Memory)
    requires a in m.blocks
  {
    m.(blocks := m.blocks[a := m.blocks[a].(count := count)])
  }

  function ShallowCopy(m: Memory, i: nat, other: nat): (r: Memory)
    requires other in m.handles && Sound(m, other)
  {
    var h := m.handles[other];
    Recount(m, h.block, m.blocks[h.block].count + 1).(handles := m.handles[i := h])
  }

  /** The count comes down; at zero the block goes. */
  function Free(m: Memory, i: nat): (r: Memory)
    requires i in m.handles && Sound(m, i) && m.blocks[m.handles[i].block].count > 0
  {
    var a := m.handles[i].block;
    var n := m.(handles := m.handles - {i});
    if m.blocks[a].count == 1 then n.(blocks := m.blocks - {a}) else Recount(n, a, m.blocks[a].count - 1)
  }

  /** A sole owner writes its data, in place or into reallocated room. */
  function Rewrite(m: Memory, i: nat, data: bytes, size: nat): (r: Memory)
    requires i in m.handles && m.handles[i].block in m.blocks && data != []
  {
    var h := m.handles[i];
    m.(blocks := m.blocks[h.block := m.blocks[h.block].(data := data)],
       handles := m.handles[i := Handle(h.block, size, |data| - 1)])
  }

  lemma CountedHandle(m: Memory, i: nat)
    requires Valid(m) && i in m.handles
    ensures Sound(m, i) && m.blocks[m.handles[i].block].count > 0 && i in Owners(m, m.handles[i].block)
    ensures m.blocks[m.handles[i].block].count == 1 ==> forall j | j in m.handles && j != i :: m.handles[j].block != m.handles[i].block
  {
    assert Sound(m, i);
    if m.blocks[m.handles[i].block].count == 1 { OnlyOwner(m, i); }
  }

  lemma OwnCounts(m: Memory, i: nat, data: bytes, size: nat)
    requires Valid(m) && i !in m.handles && size < |data|
    ensures CountsRight(Own(m, i, data, size))
  {
    var n := Own(m, i, data, size);
    assert forall j | j in m.handles :: Sound(m, j) && m.handles[j].block < m.brk;
    assert Owners(n, m.brk) == {i};
    forall a | a in m.blocks ensures Owners(n, a) == Owners(m, a) {}
  }

  lemma OwnOthers(m: Memory, i: nat, data: bytes, size: nat)
    requires Valid(m) && i !in m.handles && size < |data|
    ensures var n := Own(m, i, data, size); OthersKept(m, n, i) && forall j | j in m.handles :: Sound(n, j)
  {
    var n := Own(m, i, data, size);
    forall j | j in m.handles ensures Sound(n, j) && SameData(m, n, m.handles[j].block) {
      assert Sound(m, j) && m.handles[j].block < m.brk;
    }
  }

  lemma OwnKeeps(m: Memory, i: nat, data: bytes, size: nat)
    requires Valid(m) && i !in m.handles && size < |data|
    ensures var n := Own(m, i, data, size);
            && Valid(n) && OthersKept(m, n, i) && n.blocks[n.handles[i].block] == Block(data, 1)
  {
    OwnCounts(m, i, data, size);
    OwnOthers(m, i, data, size);
  }

  lemma CopyCounts(m: Memory, i: nat, other: nat)
    requires Valid(m) && i !in m.handles && other in m.handles && Sound(m, other)
    ensures CountsRight(ShallowCopy(m, i, other))
  {
    var n := ShallowCopy(m, i, other);
    var b := m.handles[other].block;
    assert Owners(n, b) == Owners(m, b) + {i};
    forall a | a in n.blocks && a != b ensures Owners(n, a) == Owners(m, a) {}
  }

  lemma CopyKeeps(m: Memory, i: nat, other: nat)
    requires Valid(m) && i !in m.handles && other in m.handles && Sound(m, other)
    ensures var n := ShallowCopy(m, i, other);
            Valid(n) && OthersKept(m, n, i) && n.handles[i] == m.handles[other] && SameData(m, n, m.handles[other].block)
  {
    var n := ShallowCopy(m, i, other);
    CopyCounts(m, i, other);
    forall j | j in m.handles ensures Sound(n, j) && SameData(m, n, m.handles[j].block) {
      assert Sound(m, j);
    }
  }

  lemma FreeCounts(m: Memory, i: nat)
    requires Valid(m) && i in m.handles && Sound(m, i) && m.blocks[m.handles[i].block].count > 0
    ensures var n := Free(m, i);
            CountsRight(n) && (m.handles[i].block in n.blocks <==> Owners(n, m.handles[i].block) != {})
  {
    var n := Free(m, i);
    var b := m.handles[i].block;
    assert Owners(n, b) == Owners(m, b) - {i} && i in Owners(m, b);
    forall a | a in n.blocks && a != b ensures Owners(n, a) == Owners(m, a) {}
  }

  /** A block is freed exactly when its last handle leaves. */
  lemma FreeKeeps(m: Memory, i: nat)
    requires Valid(m) && i in m.handles && Sound(m, i) && m.blocks[m.handles[i].block].count > 0
    ensures var n := Free(m, i);
            && Valid(n) && OthersKept(m, n, i) && i !in n.handles
            && (m.handles[i].block in n.blocks <==> Owners(n, m.handles[i].block) != {})
  {
    var n := Free(m, i);
    CountedHandle(m, i);
    FreeCounts(m, i);
    forall j | j in n.handles ensures Sound(n, j) && SameData(m, n, m.handles[j].block) {
      assert Sound(m, j);
    }
  }

  lemma RewriteKeepsOthers(m: Memory, i: nat, data: bytes, size: nat)
    requires ValidBut(m, i) && m.blocks[m.handles[i].block].count == 1 && data != []
    ensures var n := Rewrite(m, i, data, size);
            && ValidBut(n, i) && OthersKept(m, n, i) && n.blocks[n.handles[i].block] == Block(data, 1)
  {
    var n := Rewrite(m, i, data, size);
    OnlyOwner(m, i);
    forall j | j in m.handles && j != i ensures Sound(n, j) && SameData(m, n, m.handles[j].block) {
      assert Sound(m, j);
    }
    forall a | a in n.blocks ensures a < n.brk && n.blocks[a].count == |Owners(n, a)| > 0 {
      assert Owners(n, a) == Owners(m, a);
    }
  }

  lemma OnlyOwner(m: Memory, i: nat)
    requires CountsRight(m) && i in m.handles && m.handles[i].block in m.blocks && m.blocks[m.handles[i].block].count == 1
    ensures forall j | j in m.handles && j != i :: m.handles[j].block != m.handles[i].block
  {
    var o := Owners(m, m.handles[i].block);
    assert i in o && |o| == 1;
    assert o == {i} by { assert |o - {i}| == 0; }
    assert forall j | j in m.handles && j != i :: j !in o;
  }

  lemma RewriteKeeps(m: Memory, i: nat, data: bytes, size: nat)
    requires ValidBut(m, i) && m.blocks[m.handles[i].block].count == 1 && size < |data|
    ensures var n := Rewrite(m, i, data, size);
            && Valid(n) && OthersKept(m, n, i) && n.blocks[n.handles[i].block] == Block(data, 1)
  {
    var n := Rewrite(m, i, data, size);
    RewriteKeepsOthers(m, i, data, size);
    forall j | j in n.handles ensures Sound(n, j) {}
  }

  // ----- Value semantics -----

  /** The pool as a program thinks of it: every handle has a value of its own. */
  ghost function View(m: Memory): (r: map<nat, bytes>)
    requires AllSound(m)
  {
    map i | i in m.handles :: Content(m, i)
  }

  lemma SeesTheSame(m: Memory, n: Memory, i: nat, j: nat)
    requires AllSound(m) && AllSound(n) && OthersKept(m, n, i) && j in m.handles && j != i
    ensures j in n.handles && Sound(m, j) && Sound(n, j) && Content(n, j) == Content(m, j)
  {
    assert SameData(m, n, m.handles[j].block);
  }

  lemma SameKeys(m: Memory, n: Memory, i: nat)
    requires OthersKept(m, n, i)
    ensures n.handles.Keys == if i in n.handles then m.handles.Keys + {i} else m.handles.Keys - {i}
  {
    assert forall j | j != i :: j in n.handles.Keys <==> j in n.handles.Keys - {i};
    assert forall j | j != i :: j in m.handles.Keys <==> j in m.handles.Keys - {i};
  }

  lemma OneUpdated(m: Memory, n: Memory, i: nat)
    requires AllSound(m) && AllSound(n) && OthersKept(m, n, i) && i in n.handles
    ensures Sound(n, i) && View(n) == View(m)[i := Content(n, i)]
  {
    SameKeys(m, n, i);
    var after, updated := View(n), View(m)[i := Content(n, i)];
    assert after.Keys == n.handles.Keys && updated.Keys == m.handles.Keys + {i};
    forall j | j in after ensures after[j] == updated[j] {
      if j != i { SeesTheSame(m, n, i, j); }
    }
  }

  lemma OneRemoved(m: Memory, n: Memory, i: nat)
    requires AllSound(m) && AllSound(n) && OthersKept(m, n, i) && i !in n.handles
    ensures View(n) == View(m) - {i} && n.handles.Keys == m.handles.Keys - {i}
  {
    SameKeys(m, n, i);
    var after, rest := View(n), View(m) - {i};
    assert after.Keys == n.handles.Keys && rest.Keys == m.handles.Keys - {i};
    forall j | j in after ensures after[j] == rest[j] { SeesTheSame(m, n, i, j); }
  }

  /** An operation on handle i is an update of i's value and of no other. */
  lemma OnlyThisChanged(m: Memory, n: Memory, i: nat)
    requires Valid(m) && Valid(n) && OthersKept(m, n, i)
    ensures i in n.handles ==> Sound(n, i) && View(n) == View(m)[i := Content(n, i)]
    ensures i !in n.handles ==> View(n) == View(m) - {i} && n.handles.Keys == m.handles.Keys - {i}
  {
    if i in n.handles { OneUpdated(m, n, i); } else { OneRemoved(m, n, i); }
  }

  lemma KeptTwice(m: Memory, mid: Memory, n: Memory, i: nat)
    requires OthersKept(m, mid, i) && OthersKept(mid, n, i)
    ensures OthersKept(m, n, i)
  {
    assert forall j | j in m.handles && j != i :: SameData(m, mid, m.handles[j].block);
  }

  /** Block i is one the handle may write to. */
  predicate SoleOwner(m: Memory, i: nat) {
    i in m.handles && Sound(m, i) && m.blocks[m.handles[i].block].count == 1
  }

  /** All Buffer objects of the program, and the memory they live in. */
  class Buffers {
    var m: Memory

    constructor ()
      ensures Valid(m) && View(m) == map[]
    {
      m := Memory(map[], map[], 0);
    }

    /** malloc: n bytes of which nothing is known. */
    static method Malloc(n: nat) returns (b: bytes)
      ensures |b| == n
    {
      b := seq(n, k => NUL);
    }

    /** realloc: n bytes, of which as many as fit are the old ones. */
    static method Realloc(b: bytes, n: nat) returns (r: bytes)
      ensures |r| == n && forall k | 0 <= k < n && k < |b| :: r[k] == b[k]
    {
      var kept := if |b| < n then |b| else n;
      var fill := Malloc(n - kept);
      r := b[..kept] + fill;
    }

    method FromBytes(i: nat, data: bytes)
      requires Valid(m) && i !in m.handles
      modifies this
      ensures Valid(m) && View(m) == View(old(m))[i := data] && Terminated(m, i) && m.handles[i].capacity == |data|
    {
      OwnKeeps(m, i, data + [NUL], |data|);
      OnlyThisChanged(m, Own(m, i, data + [NUL], |data|), i);
      m := Own(m, i, data + [NUL], |data|);
      assert (data + [NUL])[..|data|] == data;
    }

    method WithCapacity(i: nat, size: nat)
      requires Valid(m) && i !in m.handles
      modifies this
      ensures Valid(m) && View(m) == View(old(m))[i := []] && i in m.handles && m.handles[i].capacity == size
      ensures size == 0 ==> Terminated(m, i)
    {
      var data := Malloc(size + 1);
      data := data[size := NUL];
      OwnKeeps(m, i, data, 0);
      OnlyThisChanged(m, Own(m, i, data, 0), i);
      m := Own(m, i, data, 0);
    }

    method CopyOf(i: nat, other: nat)
      requires Valid(m) && i !in m.handles && other in m.handles
      modifies this
      ensures Valid(m) && View(m) == View(old(m))[i := View(old(m))[other]]
      ensures i in m.handles && m.handles[i] == old(m).handles[other]
      ensures Terminated(old(m), other) ==> Terminated(m, i)
    {
      CopyKeeps(m, i, other);
      OnlyThisChanged(m, ShallowCopy(m, i, other), i);
      m := ShallowCopy(m, i, other);
    }

    method Destroy(i: nat)
      requires Valid(m) && i in m.handles
      modifies this
      ensures Valid(m) && View(m) == View(old(m)) - {i} && m.handles.Keys == old(m).handles.Keys - {i}
      ensures old(m).handles[i].block in m.blocks <==> exists j :: j in m.handles && m.handles[j].block == old(m).handles[i].block
    {
      CountedHandle(m, i);
      FreeKeeps(m, i);
      OnlyThisChanged(m, Free(m, i), i);
      ghost var b := m.handles[i].block;
      m := Free(m, i);
      if b in m.blocks {
        var j :| j in Owners(m, b);
      } else {
        assert forall j | j in m.handles && m.handles[j].block == b :: j in Owners(m, b);
      }
    }

    /** operator=(const Buffer&), not onto itself. */
    method Assign(i: nat, other: nat)
      requires Valid(m) && i in m.handles && other in m.handles && i != other
      modifies this
      ensures Valid(m) && View(m) == View(old(m))[i := View(old(m))[other]]
    {
      ghost var v: map<nat, bytes> := View(m);
      ghost var gone: set<nat> := {i};
      Destroy(i);
      CopyOf(i, other);
      assert View(m) == (v - gone)[i := v[other]];
    }

    /** A handle that shares its block moves to a copy of it; a sole owner stays. */
    method Clone(i: nat)
      requires Valid(m) && i in m.handles
      modifies this
      ensures Valid(m) && OthersKept(old(m), m, i) && SoleOwner(m, i)
      ensures SoleOwner(old(m), i) ==> m == old(m)
      ensures Sound(old(m), i) && Content(m, i) == Content(old(m), i)
      ensures m.handles[i].size == old(m).handles[i].size && m.handles[i].capacity == old(m).handles[i].capacity
      ensures Terminated(old(m), i) ==> Terminated(m, i)
    {
      CountedHandle(m, i);
      var h := m.handles[i];
      if m.blocks[h.block].count == 1 { return; }
      var buf := Malloc(h.capacity + 1);
      buf := m.blocks[h.block].data[..h.size + 1] + buf[h.size + 1..];
      assert buf[..h.size] == m.blocks[h.block].data[..h.size];
      FreeKeeps(m, i);
      OwnKeeps(Free(m, i), i, buf, h.size);
      KeptTwice(m, Free(m, i), Own(Free(m, i), i, buf, h.size), i);
      m := Own(Free(m, i), i, buf, h.size);
    }

    /** realloc to size + 1 bytes; the last of them is set to NUL. Below the handle's own size the handle is left
        claiming more than there is. */
    method Resize(i: nat, size: nat) returns (capacity: nat)
      requires Valid(m) && SoleOwner(m, i) && size < UINT32 - 1
      modifies this
      ensures ValidBut(m, i) && OthersKept(old(m), m, i) && m.blocks[m.handles[i].block].count == 1
      ensures capacity == m.handles[i].capacity == size && m.handles[i].size == old(m).handles[i].size
      ensures m.handles[i].size <= size ==> Valid(m) && SoleOwner(m, i) && Content(m, i) == Content(old(m), i)
      ensures m.handles[i].size <= size && (size == m.handles[i].size || Terminated(old(m), i)) ==> Terminated(m, i)
    {
      var h := m.handles[i];
      var old_data := m.blocks[h.block].data;
      var data := Realloc(old_data, size + 1);
      data := data[size := NUL];
      RewriteKeepsOthers(m, i, data, h.size);
      if h.size <= size {
        assert data[..h.size] == old_data[..h.size];
        RewriteKeeps(m, i, data, h.size);
      }
      m := Rewrite(m, i, data, h.size);
      capacity := size;
    }

    /** The size alone is set, within the capacity. */
    method SetSize(i: nat, size: nat)
      requires ValidBut(m, i) && m.blocks[m.handles[i].block].count == 1 && size <= m.handles[i].capacity
      modifies this
      ensures Valid(m) && OthersKept(old(m), m, i) && i in m.handles && m.handles[i] == old(m).handles[i].(size := size)
      ensures m.handles[i].block in m.blocks
      ensures m.blocks[m.handles[i].block].data == old(m).blocks[old(m).handles[i].block].data
    {
      ghost var h := m.handles[i];
      RewriteKeeps(m, i, m.blocks[h.block].data, size);
      m := Rewrite(m, i, m.blocks[m.handles[i].block].data, size);
    }

    /** How SendReply empties a reply buffer that was sent: cut to `room` if it is larger, then emptied. */
    method EmptyForReuse(i: nat, room: nat)
      requires Valid(m) && SoleOwner(m, i) && room < UINT32 - 1
      modifies this
      ensures Valid(m) && View(m) == View(old(m))[i := []]
      ensures i in m.handles && m.handles[i].capacity == if old(m).handles[i].size > room then room else old(m).handles[i].capacity
    {
      ghost var m0 := m;
      if m.handles[i].size > room { var got := Resize(i, room); }
      ghost var m1 := m;
      SetSize(i, 0);
      KeptTwice(m0, m1, m, i);
      OnlyThisChanged(m0, m, i);
    }

    /** Room for `size` bytes: nothing to do below the capacity, else at least twice the capacity, in 32 bits. */
    method Reserve(i: nat, size: nat) returns (ok: bool)
      requires Valid(m) && SoleOwner(m, i) && size < UINT32 - 1
      modifies this
      ensures Valid(m) && OthersKept(old(m), m, i) && SoleOwner(m, i)
      ensures ok && size <= m.handles[i].capacity && m.handles[i].size == old(m).handles[i].size
      ensures var had := old(m).handles[i].capacity;
              var twice := 2 * had % 0x1_0000_0000;
              m.handles[i].capacity == if size < had then had else if twice > size then twice else size
      ensures Content(m, i) == Content(old(m), i)
    {
      var capacity := m.handles[i].capacity;
      if size < capacity { return true; }
      var s := if 2 * capacity % UINT32 > size then 2 * capacity % UINT32 else size;
      var got := Resize(i, s);
      return got >= s;
    }

    /** Bytes written by a sole owner. */
    method Store(i: nat, data: bytes, size: nat)
      requires Valid(m) && SoleOwner(m, i) && size < |data|
      modifies this
      ensures Valid(m) && OthersKept(old(m), m, i) && SoleOwner(m, i)
      ensures m.handles[i].size == size && m.handles[i].capacity == |data| - 1
      ensures m.blocks[m.handles[i].block].data == data
    {
      RewriteKeeps(m, i, data, size);
      m := Rewrite(m, i, data, size);
    }

    method Append(i: nat, data: bytes) returns (ok: bool)
      requires Valid(m) && i in m.handles && m.handles[i].size + |data| < UINT32 - 1
      modifies this
      ensures Valid(m) && ok && View(m) == View(old(m))[i := View(old(m))[i] + data]
      ensures data != [] || Terminated(old(m), i) ==> Terminated(m, i)
    {
      if |data| == 0 {
        assert View(m)[i] + data == View(m)[i];
        return true;
      }
      Clone(i);
      ghost var m1 := m;
      var room := Reserve(i, m.handles[i].size + |data|);
      ghost var m2 := m;
      KeptTwice(old(m), m1, m2, i);
      var h := m.handles[i];
      var block := m.blocks[h.block].data;
      var size := h.size + |data|;
      var written := (block[..h.size] + data + block[size..])[size := NUL];
      assert written[..size] == block[..h.size] + data;
      Store(i, written, size);
      KeptTwice(old(m), m2, m, i);
      OnlyThisChanged(old(m), m, i);
      return true;
    }

    /** The first `size` bytes go; the terminator moves along, and slack over half is given back. */
    method RemoveFront(i: nat, size: nat)
      requires Valid(m) && i in m.handles && size <= m.handles[i].size < UINT32 - 1
      modifies this
      ensures Valid(m) && View(m) == View(old(m))[i := View(old(m))[i][size..]] && i in m.handles
      ensures var left, had := old(m).handles[i].size - size, old(m).handles[i].capacity;
              m.handles[i].capacity == if size > 0 && left * 2 < had then left else had
      ensures Terminated(old(m), i) ==> Terminated(m, i)
    {
      if size == 0 { return; }
      Clone(i);
      ghost var m1 := m;
      var h := m.handles[i];
      var block := m.blocks[h.block].data;
      var left := h.size - size;
      var moved := block[size..h.size + 1] + block[left + 1..];
      assert moved[..left] == block[..h.size][size..] && moved[left] == block[h.size];
      Store(i, moved, left);
      ghost var m2 := m;
      KeptTwice(old(m), m1, m2, i);
      if left * 2 < m.handles[i].capacity {
        var got := Resize(i, left);
        KeptTwice(old(m), m2, m, i);
      }
      OnlyThisChanged(old(m), m, i);
    }

    method Clear(i: nat)
      requires Valid(m) && i in m.handles
      modifies this
      ensures Valid(m) && View(m) == View(old(m))[i := []] && Terminated(m, i)
      ensures SoleOwner(m, i) && m.handles[i].capacity == 0
    {
      CountedHandle(m, i);
      FreeKeeps(m, i);
      OwnKeeps(Free(m, i), i, [NUL], 0);
      KeptTwice(m, Free(m, i), Own(Free(m, i), i, [NUL], 0), i);
      OnlyThisChanged(m, Own(Free(m, i), i, [NUL], 0), i);
      m := Own(Free(m, i), i, [NUL], 0);
    }

    /** operator=(const char*), up to the first NUL: a shared block is left to the others; an own one is reused if it
        is big enough. */
    method AssignCString(i: nat, cstring: bytes)
      requires Valid(m) && i in m.handles
      modifies this
      ensures Valid(m) && View(m) == View(old(m))[i := cstring[..Strlen(cstring)]] && Terminated(m, i)
      ensures var had := old(m).handles[i].capacity;
              m.handles[i].capacity == if SoleOwner(old(m), i) && had >= Strlen(cstring) then had else Strlen(cstring)
    {
      CountedHandle(m, i);
      var h := m.handles[i];
      var str := cstring[..Strlen(cstring)];
      var text := str + [NUL];
      assert text[..|str|] == str;
      if m.blocks[h.block].count > 1 {
        FreeKeeps(m, i);
        OwnKeeps(Free(m, i), i, text, |str|);
        KeptTwice(m, Free(m, i), Own(Free(m, i), i, text, |str|), i);
        m := Own(Free(m, i), i, text, |str|);
      } else {
        var data := if h.capacity < |str| then text else text + m.blocks[h.block].data[|str| + 1..];
        assert data[..|str|] == str;
        RewriteKeeps(m, i, data, |str|);
        m := Rewrite(m, i, data, |str|);
      }
      OnlyThisChanged(old(m), m, i);
    }
  }

  /** strlen: the bytes before the first NUL, or all of them before the NUL that is added. */
  function Strlen(s: bytes): (n: nat)
    ensures n <= |s| && (n < |s| ==> s[n] == NUL) && forall k | 0 <= k < n :: s[k] != NUL
  {
    if s == [] || s[0] == NUL then 0 else
    var n := 1 + Strlen(s[1..]);
    assert forall k | 1 <= k < n :: s[k] == s[1..][k - 1];
    n
  }
}
