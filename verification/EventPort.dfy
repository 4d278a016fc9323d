/** Registration of file descriptors with an event port (deps/ae/ae_evport.c under deps/ae/ae.c). An event that
    fires dissociates its descriptor; the descriptor then waits in a slot of the pending table until the next poll
    associates it again. */
module EventPort {
  datatype Mask = Mask(readable: bool, writable: bool) {
    function Or(other: Mask): (r: Mask) { Mask(readable || other.readable, writable || other.writable) }

    function Without(other: Mask): (r: Mask) { Mask(readable && !other.readable, writable && !other.writable) }
  }

  const NONE := Mask(false, false)
  const MAX_EVENT_BATCHSZ := 512

  /** What the loop's mask table, the pending table and the kernel say; -1 marks an empty slot. */
  datatype State = State(masks: seq<Mask>, fds: seq<int>, pending: seq<Mask>, kernel: map<int, Mask>)

  predicate InSlot(s: State, fd: int) { fd in s.fds }

  /** A registered descriptor is associated in the kernel or waits in exactly one slot, never both, and either
      place holds the mask of the loop's table; an unregistered one is in neither. */
  ghost predicate Consistent(s: State) {
    && |s.fds| == |s.pending| <= MAX_EVENT_BATCHSZ
    && (forall i | 0 <= i < |s.fds| :: s.fds[i] == -1 || Waiting(s, i))
    && (forall i, j | 0 <= i < j < |s.fds| && s.fds[i] != -1 :: s.fds[i] != s.fds[j])
    && (forall fd | fd in s.kernel :: Associated(s, fd))
    && (forall fd | 0 <= fd < |s.masks| :: s.masks[fd] == NONE || fd in s.kernel || InSlot(s, fd))
  }

  predicate Waiting(s: State, i: nat)
    requires i < |s.fds| == |s.pending|
  {
    0 <= s.fds[i] < |s.masks| && s.masks[s.fds[i]] != NONE && s.pending[i] == s.masks[s.fds[i]] && s.fds[i] !in s.kernel
  }

  predicate Associated(s: State, fd: int)
    requires fd in s.kernel
  {
    0 <= fd < |s.masks| && s.masks[fd] != NONE && s.kernel[fd] == s.masks[fd] && !InSlot(s, fd)
  }

  /** The largest registered descriptor, or -1. */
  ghost predicate IsMaxFd(masks: seq<Mask>, maxfd: int) {
    && -1 <= maxfd < |masks|
    && (maxfd >= 0 ==> masks[maxfd] != NONE)
    && forall fd | maxfd < fd < |masks| :: masks[fd] == NONE
  }

  /** The slot of a descriptor, if it has one. */
  ghost predicate IsSlotOf(s: State, fd: int, slot: int) {
    && -1 <= slot < |s.fds|
    && (slot >= 0 ==> s.fds[slot] == fd)
    && (slot == -1 ==> !InSlot(s, fd))
  }

  /** Adding interest sets the bits asked for and keeps the others; removing it clears them and keeps the others. */
  lemma MaskBits(a: Mask, b: Mask)
    ensures a.Or(b) == b.Or(a) && a.Or(NONE) == a && a.Or(a) == a && NONE.Or(a) == a
    ensures a.Without(NONE) == a && a.Without(a) == NONE && NONE.Without(a) == NONE
    ensures a.Or(b).Without(b) == a.Without(b) && a.Without(b).Or(b) == a.Or(b)
    ensures Mask(true, false).Or(Mask(false, true)) == Mask(true, true)
    ensures Mask(true, true).Without(Mask(true, false)) == Mask(false, true)
    ensures Mask(true, true).Without(Mask(false, true)) == Mask(true, false)
  {}

  // ----- The operations on values -----

  /** aeApiAddEvent, then the mask table. */
  function AddEvent(s: State, fd: nat, mask: Mask, slot: int): (r: State)
    requires fd < |s.masks| && -1 <= slot < |s.fds| == |s.pending|
  {
    var full := mask.Or(s.masks[fd]);
    var t := if slot >= 0 then s.(pending := s.pending[slot := s.pending[slot].Or(full)]) else s.(kernel := s.kernel[fd := full]);
    t.(masks := s.masks[fd := s.masks[fd].Or(mask)])
  }

  /** The mask table, then aeApiDelEvent. */
  function DelEvent(s: State, fd: nat, mask: Mask, slot: int): (r: State)
    requires fd < |s.masks| && -1 <= slot < |s.fds| == |s.pending|
  {
    var left := s.masks[fd].Without(mask);
    var t := s.(masks := s.masks[fd := left]);
    if slot >= 0 then
      var waits := s.pending[slot].Without(mask);
      t.(pending := s.pending[slot := waits], fds := if waits == NONE then s.fds[slot := -1] else s.fds)
    else if left == NONE then t.(kernel := s.kernel - {fd})
    else t.(kernel := s.kernel[fd := left])
  }

  lemma AddKeeps(s: State, fd: nat, mask: Mask, slot: int)
    requires Consistent(s) && fd < |s.masks| && mask != NONE && IsSlotOf(s, fd, slot)
    ensures Consistent(AddEvent(s, fd, mask, slot))
  {}

  /** Removing an event from a descriptor that waits for the next poll. */
  lemma DelWaiting(s: State, fd: nat, mask: Mask, slot: nat)
    requires Consistent(s) && fd < |s.masks| && s.masks[fd] != NONE && IsSlotOf(s, fd, slot)
    ensures Consistent(DelEvent(s, fd, mask, slot))
  {}

  /** Removing an event from a descriptor that does not wait: it is associated. */
  lemma DelAssociated(s: State, fd: nat, mask: Mask)
    requires Consistent(s) && fd < |s.masks| && s.masks[fd] != NONE && IsSlotOf(s, fd, -1)
    ensures Consistent(DelEvent(s, fd, mask, -1)) && fd in s.kernel
  {}

  /** Removing an event never dissociates a descriptor that is not associated. */
  lemma DelKeeps(s: State, fd: nat, mask: Mask, slot: int)
    requires Consistent(s) && fd < |s.masks| && s.masks[fd] != NONE && IsSlotOf(s, fd, slot)
    ensures Consistent(DelEvent(s, fd, mask, slot))
    ensures slot == -1 ==> fd in s.kernel
  {
    if slot == -1 { DelAssociated(s, fd, mask); } else { DelWaiting(s, fd, mask, slot); }
  }

  // ----- Polling -----

  /** The kernel after the first n slots were associated again. */
  function Reassociated(s: State, n: nat): (r: map<int, Mask>)
    requires n <= |s.fds| == |s.pending|
  {
    if n == 0 then s.kernel
    else if s.fds[n - 1] == -1 then Reassociated(s, n - 1)
    else Reassociated(s, n - 1)[s.fds[n - 1] := s.pending[n - 1]]
  }

  /** Everything registered is associated again, with its own mask. */
  lemma {:induction false} ReassociatedIs(s: State, n: nat)
    requires Consistent(s) && n <= |s.fds|
    ensures forall fd :: fd in Reassociated(s, n) <==> fd in s.kernel || (fd != -1 && fd in s.fds[..n])
    ensures forall fd | fd in Reassociated(s, n) :: 0 <= fd < |s.masks| && Reassociated(s, n)[fd] == s.masks[fd]
  {
    if n > 0 {
      ReassociatedIs(s, n - 1);
      assert s.fds[..n] == s.fds[..n - 1] + [s.fds[n - 1]];
      assert s.fds[n - 1] == -1 || Waiting(s, n - 1);
    } else {
      assert forall fd | fd in s.kernel :: Associated(s, fd);
    }
  }

  /** After a poll that fires some registered descriptors, each once, these wait and all others are associated. */
  function Polled(s: State, fired: seq<int>): (r: State)
    requires forall i | 0 <= i < |fired| :: 0 <= fired[i] < |s.masks|
  {
    State(s.masks, fired, seq(|fired|, i requires 0 <= i < |fired| => s.masks[fired[i]]),
      map fd | 0 <= fd < |s.masks| && s.masks[fd] != NONE && fd !in fired :: s.masks[fd])
  }

  predicate CanFire(s: State, fired: seq<int>) {
    && |fired| <= MAX_EVENT_BATCHSZ
    && (forall i | 0 <= i < |fired| :: 0 <= fired[i] < |s.masks| && s.masks[fired[i]] != NONE)
    && (forall i, j | 0 <= i < j < |fired| :: fired[i] != fired[j])
  }

  lemma PollKeeps(s: State, fired: seq<int>)
    requires Consistent(s) && CanFire(s, fired)
    ensures Consistent(Polled(s, fired))
  {}

  // ----- The program's loop -----

  class EventLoop {
    const masks: array<Mask>
    var maxfd: int
    var npending: nat
    const pendingFds: array<int>
    const pendingMasks: array<Mask>
    var kernel: map<int, Mask>

    ghost predicate Shape()
      reads this
    {
      && pendingFds.Length == pendingMasks.Length == MAX_EVENT_BATCHSZ && npending <= MAX_EVENT_BATCHSZ
      && masks != pendingMasks
    }

    ghost function View(): (r: State)
      requires Shape()
      reads this, masks, pendingFds, pendingMasks
    {
      State(masks[..], pendingFds[..npending], pendingMasks[..npending], kernel)
    }

    ghost predicate Valid()
      reads this, masks, pendingFds, pendingMasks
    {
      Shape() && Consistent(View()) && IsMaxFd(masks[..], maxfd)
    }

    constructor (setsize: nat)
      ensures Valid() && masks.Length == setsize && (forall fd | 0 <= fd < setsize :: masks[fd] == NONE) && maxfd == -1
      ensures fresh(masks) && fresh(pendingFds) && fresh(pendingMasks)
      ensures pendingFds.Length == pendingMasks.Length == 512
    {
      masks := new Mask[setsize](i => NONE);
      pendingFds := new int[MAX_EVENT_BATCHSZ](i => -1);
      pendingMasks := new Mask[MAX_EVENT_BATCHSZ](i => NONE);
      maxfd, npending, kernel := -1, 0, map[];
    }

    method LookupPending(fd: int) returns (slot: int)
      requires Shape()
      ensures IsSlotOf(View(), fd, slot)
    {
      var i := 0;
      while i < npending
        invariant 0 <= i <= npending && fd !in pendingFds[..i]
      {
        if pendingFds[i] == fd { return i; }
        i := i + 1;
      }
      return -1;
    }

    /** Registers interest; `associates` says whether the kernel grants a new association. */
    method CreateFileEvent(fd: nat, mask: Mask, associates: bool) returns (ok: bool)
      requires Valid() && mask != NONE
      modifies this, masks, pendingMasks
      ensures Valid()
      ensures ok ==> fd < masks.Length && masks[..] == old(masks[..])[fd := old(masks[fd]).Or(mask)]
      ensures !ok ==> masks[..] == old(masks[..]) && View() == old(View())
      ensures fd >= masks.Length ==> !ok
      ensures fd < masks.Length && associates ==> ok
    {
      if fd >= masks.Length { return false; }
      var slot := LookupPending(fd);
      ghost var before := View();
      AddKeeps(before, fd, mask, slot);
      var full := mask.Or(masks[fd]);
      if slot != -1 {
        pendingMasks[slot] := pendingMasks[slot].Or(full);
      } else if associates {
        kernel := kernel[fd := full];
      } else {
        return false;
      }
      masks[fd] := masks[fd].Or(mask);
      if fd > maxfd { maxfd := fd; }
      assert View() == AddEvent(before, fd, mask, slot);
      return true;
    }

    /** Withdraws interest. */
    method DeleteFileEvent(fd: nat, mask: Mask)
      requires Valid()
      modifies this, masks, pendingFds, pendingMasks
      ensures Valid()
      ensures fd < masks.Length ==> masks[..] == old(masks[..])[fd := old(masks[fd]).Without(mask)]
      ensures fd >= masks.Length ==> masks[..] == old(masks[..])
    {
      if fd >= masks.Length { return; }
      if masks[fd] == NONE { return; }
      ghost var before := View();
      masks[fd] := masks[fd].Without(mask);
      LowerMaxFd(fd, before.masks);
      ApiDelEvent(fd, mask, before);
    }

    /** The largest registered descriptor is looked for downwards, if it was this one. */
    method LowerMaxFd(fd: nat, ghost was: seq<Mask>)
      requires fd < masks.Length && IsMaxFd(was, maxfd) && |was| == masks.Length && was[fd] != NONE
      requires masks[..] == was[fd := masks[fd]]
      modifies this`maxfd
      ensures IsMaxFd(masks[..], maxfd)
    {
      if fd == maxfd && masks[fd] == NONE {
        var j := maxfd - 1;
        while j >= 0 && masks[j] == NONE
          invariant -1 <= j < maxfd && forall k | j < k < masks.Length :: masks[k] == NONE
          decreases j
        {
          j := j - 1;
        }
        maxfd := j;
      }
    }

    /** The mask table is up to date already. The dissociation, when there is one, is of an associated descriptor. */
    method ApiDelEvent(fd: nat, mask: Mask, ghost before: State)
      requires Shape() && Consistent(before) && fd < masks.Length == |before.masks| && before.masks[fd] != NONE
      requires View() == before.(masks := before.masks[fd := before.masks[fd].Without(mask)])
      modifies this`kernel, pendingFds, pendingMasks
      ensures Shape() && Consistent(View())
    {
      var slot := LookupPending(fd);
      DelKeeps(before, fd, mask, slot);
      if slot != -1 {
        pendingMasks[slot] := pendingMasks[slot].Without(mask);
        if pendingMasks[slot] == NONE { pendingFds[slot] := -1; }
      } else if masks[fd] == NONE {
        assert fd in kernel;
        kernel := kernel - {fd};
      } else {
        kernel := kernel[fd := masks[fd]];
      }
      assert View() == DelEvent(before, fd, mask, slot);
    }

    /** Everything pending is associated again; then the kernel reports the fired descriptors, which it
        dissociates, and they wait in the pending table with the masks they were associated with. */
    method Poll(fired: seq<int>)
      requires Valid() && CanFire(View(), fired)
      modifies this`npending, this`kernel, pendingFds, pendingMasks
      ensures Valid() && View() == Polled(old(View()), fired)
    {
      ghost var before := View();
      PollKeeps(before, fired);
      AllFiredAreAssociated(before, fired);
      Reassociate();
      Collect(fired, before.masks);
      PolledIs(before, fired, View());
    }

    /** The fired descriptors go from the kernel to the pending table. */
    method Collect(fired: seq<int>, ghost table: seq<Mask>)
      requires Shape() && |fired| <= MAX_EVENT_BATCHSZ
      requires forall i | 0 <= i < |fired| :: 0 <= fired[i] < |table| && fired[i] in kernel && kernel[fired[i]] == table[fired[i]]
      requires forall i, j | 0 <= i < j < |fired| :: fired[i] != fired[j]
      modifies this`npending, this`kernel, pendingFds, pendingMasks
      ensures npending == |fired| && pendingFds[..npending] == fired
      ensures forall i | 0 <= i < |fired| :: pendingMasks[i] == table[fired[i]]
      ensures kernel == Dissociated(old(kernel), fired, |fired|)
    {
      npending := |fired|;
      var i := 0;
      while i < |fired|
        invariant 0 <= i <= |fired| == npending
        invariant forall k | 0 <= k < i :: pendingFds[k] == fired[k] && pendingMasks[k] == table[fired[k]]
        invariant forall k | i <= k < |fired| :: fired[k] in kernel && kernel[fired[k]] == table[fired[k]]
        invariant kernel == Dissociated(old(kernel), fired, i)
      {
        var fd := fired[i];
        pendingFds[i] := fd;
        pendingMasks[i] := kernel[fd];
        kernel := kernel - {fd};
        i := i + 1;
      }
    }

    method Reassociate()
      requires Valid()
      modifies this`npending, this`kernel, pendingFds, pendingMasks
      ensures kernel == Reassociated(old(View()), |old(View()).fds|) && npending == 0
    {
      ghost var before := View();
      var i := 0;
      while i < npending
        invariant 0 <= i <= npending == |before.fds|
        invariant kernel == Reassociated(before, i)
        invariant forall k | i <= k < npending :: pendingFds[k] == before.fds[k] && pendingMasks[k] == before.pending[k]
      {
        if pendingFds[i] != -1 {
          kernel := kernel[pendingFds[i] := pendingMasks[i]];
          pendingMasks[i] := NONE;
          pendingFds[i] := -1;
        }
        i := i + 1;
      }
      npending := 0;
    }
  }

  /** The kernel without the first n descriptors that fired. */
  function Dissociated(kernel: map<int, Mask>, fired: seq<int>, n: nat): (r: map<int, Mask>)
    requires n <= |fired|
  {
    if n == 0 then kernel else Dissociated(kernel, fired, n - 1) - {fired[n - 1]}
  }

  lemma {:induction false} DissociatedIs(kernel: map<int, Mask>, fired: seq<int>, n: nat)
    requires n <= |fired|
    ensures forall fd :: fd in Dissociated(kernel, fired, n) <==> fd in kernel && fd !in fired[..n]
    ensures forall fd | fd in Dissociated(kernel, fired, n) :: Dissociated(kernel, fired, n)[fd] == kernel[fd]
  {
    if n > 0 {
      DissociatedIs(kernel, fired, n - 1);
      assert fired[..n] == fired[..n - 1] + [fired[n - 1]];
    }
  }

  lemma FiredIsAssociated(s: State, fired: seq<int>, i: nat)
    requires Consistent(s) && CanFire(s, fired) && i < |fired|
    ensures fired[i] in Reassociated(s, |s.fds|) && Reassociated(s, |s.fds|)[fired[i]] == s.masks[fired[i]]
  {
    ReassociatedIs(s, |s.fds|);
    assert s.fds[..|s.fds|] == s.fds;
    assert s.masks[fired[i]] == NONE || fired[i] in s.kernel || InSlot(s, fired[i]);
  }

  lemma AllFiredAreAssociated(s: State, fired: seq<int>)
    requires Consistent(s) && CanFire(s, fired)
    ensures var whole := Reassociated(s, |s.fds|);
            forall i | 0 <= i < |fired| :: fired[i] in whole && whole[fired[i]] == s.masks[fired[i]]
  {
    forall i | 0 <= i < |fired| { FiredIsAssociated(s, fired, i); }
  }

  lemma PolledIs(s: State, fired: seq<int>, t: State)
    requires Consistent(s) && CanFire(s, fired) && t.masks == s.masks && t.fds == fired && |t.pending| == |fired|
    requires forall i | 0 <= i < |fired| :: t.pending[i] == s.masks[fired[i]]
    requires t.kernel == Dissociated(Reassociated(s, |s.fds|), fired, |fired|)
    ensures t == Polled(s, fired)
  {
    KernelIs(s, fired, t.kernel);
    assert t.pending == Polled(s, fired).pending;
  }

  lemma KernelIs(s: State, fired: seq<int>, kernel: map<int, Mask>)
    requires Consistent(s) && CanFire(s, fired)
    requires kernel == Dissociated(Reassociated(s, |s.fds|), fired, |fired|)
    ensures kernel == Polled(s, fired).kernel
  {
    ReassociatedIs(s, |s.fds|);
    DissociatedIs(Reassociated(s, |s.fds|), fired, |fired|);
    assert s.fds[..|s.fds|] == s.fds && fired[..|fired|] == fired;
    forall fd ensures fd in kernel <==> fd in Polled(s, fired).kernel {
      if 0 <= fd < |s.masks| { assert s.masks[fd] == NONE || fd in s.kernel || InSlot(s, fd); }
      if fd in s.kernel { assert Associated(s, fd); }
      if fd in s.fds && fd != -1 {
        var i :| 0 <= i < |s.fds| && s.fds[i] == fd;
        assert Waiting(s, i);
      }
    }
  }
}
