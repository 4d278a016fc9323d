/** The shared queue, its notice pipes and its garbage collection, as an interleaving of the atomic steps of
    N worker threads, the storer thread and the master thread (src/master.cc, worker.cc, storer.cc, msgqueue.cc).
    Worker w is publisher w and consumer w; the storer is consumer N. Memory is explicit: a node is deleted by
    removing its address from the heap, and a later node may reuse that address. */
module Broker {
  import opened Bytes
  import opened Messages

  datatype Config = Config(workers: nat, limit: nat)

  datatype Node = Node(value: Option<Message>, next: Option<Addr>)

  /** Where a worker is inside PutMessage or NotifyNewMessage. */
  datatype Phase =
    | Idle
    | Checked(m: Message)
    | Announcing(next: nat)
    | Notifying(next: nat)

  /** item, waiting, piped and holding are the program's; pos and seen are history. */
  datatype Consumer = Consumer(
    item: Addr, waiting: seq<nat>, piped: seq<nat>, holding: bool, pos: nat, seen: seq<Message>)

  /** The master's Cron: cursors are read one by one, then nodes are freed one by one; at is history. */
  datatype Collector =
    | Resting
    | Reading(snaps: seq<Addr>, at: seq<nat>)
    | Freeing(snaps: seq<Addr>, at: seq<nat>, p: Addr, count: nat, weight: nat)

  /** log, chain and freed are history: all messages pushed, the address each node got, nodes deleted so far. */
  datatype State = State(
    heap: map<Addr, Node>, head: Addr, tail: Addr, size: int, memory: int,
    phases: seq<Phase>, consumers: seq<Consumer>, collector: Collector,
    fault: bool, wrongNotices: nat,
    log: seq<Message>, chain: seq<Addr>, freed: nat)

  datatype Action =
    | CheckSize(p: nat, m: Message)
    | MQPush(p: nat, a: Addr)
    | AddNotify(p: nat)
    | TryWrite(p: nat, ok: bool)
    | CronNotify(p: nat)
    | ReadNotice(c: nat, p: nat)
    | MQNext(c: nat)
    | StartCollection
    | ReadCursor
    | FreeNode

  function Init(cfg: Config): (r: State) {
    var zeros := seq(cfg.workers, i => 0);
    var reader := Consumer(0, zeros, zeros, false, 0, []);
    State(map[0 := Node(None, None)], 0, 0, 0, 0,
      seq(cfg.workers, i => Idle), seq(cfg.workers + 1, i => reader), Resting,
      false, 0, [], [0], 0)
  }

  predicate Shape(cfg: Config, s: State) {
    && |s.phases| == cfg.workers && |s.consumers| == cfg.workers + 1
    && (forall c | 0 <= c <= cfg.workers ::
          |s.consumers[c].waiting| == cfg.workers && |s.consumers[c].piped| == cfg.workers)
    && (forall p | 0 <= p < cfg.workers ::
          (s.phases[p].Announcing? || s.phases[p].Notifying?) ==> s.phases[p].next <= cfg.workers)
    && (!s.collector.Resting? ==> |s.collector.snaps| <= cfg.workers + 1)
  }

  /** A worker thread runs one handler at a time; the storer thread only consumes. */
  predicate Enabled(cfg: Config, s: State, a: Action)
    requires Shape(cfg, s)
  {
    match a
    case CheckSize(p, m) => p < cfg.workers && s.phases[p].Idle? && !s.consumers[p].holding
    case MQPush(p, a) => p < cfg.workers && s.phases[p].Checked? && a !in s.heap
    case AddNotify(p) => p < cfg.workers && s.phases[p].Announcing?
    case TryWrite(p, ok) => p < cfg.workers && s.phases[p].Notifying?
    case CronNotify(p) => p < cfg.workers && s.phases[p].Idle? && !s.consumers[p].holding
    case ReadNotice(c, p) =>
      && c <= cfg.workers && p < cfg.workers && !s.consumers[c].holding && s.consumers[c].piped[p] > 0
      && (c < cfg.workers ==> s.phases[c].Idle?)
    case MQNext(c) => c <= cfg.workers && s.consumers[c].holding
    case StartCollection => s.collector.Resting?
    case ReadCursor => s.collector.Reading? && |s.collector.snaps| <= cfg.workers
    case FreeNode => s.collector.Freeing?
  }

  function Push(s: State, p: nat, a: Addr): (r: State)
    requires p < |s.phases| && s.phases[p].Checked?
  {
    if s.tail !in s.heap then s.(fault := true) else
    var m := s.phases[p].m;
    s.(heap := s.heap[s.tail := s.heap[s.tail].(next := Some(a))][a := Node(Some(m), None)],
       tail := a, size := s.size + 1, memory := s.memory + m.Weight(),
       phases := s.phases[p := Announcing(0)], log := s.log + [m], chain := s.chain + [a])
  }

  /** One increment of msg_wait_to_notify_; the storer comes after the workers. */
  function Announce(cfg: Config, s: State, p: nat): (r: State)
    requires Shape(cfg, s) && p < cfg.workers && s.phases[p].Announcing?
  {
    var k := s.phases[p].next;
    var r := s.consumers[k];
    s.(consumers := s.consumers[k := r.(waiting := r.waiting[p := r.waiting[p] + 1])],
       phases := s.phases[p := if k < cfg.workers then Announcing(k + 1) else Notifying(0)])
  }

  /** One turn of the write loop towards one consumer: a byte goes out and the counter comes down, or the
      loop moves on to the next consumer because nothing waits or the write failed. */
  function Write(cfg: Config, s: State, p: nat, ok: bool): (r: State)
    requires Shape(cfg, s) && p < cfg.workers && s.phases[p].Notifying?
  {
    var k := s.phases[p].next;
    var r := s.consumers[k];
    if r.waiting[p] > 0 && ok then
      s.(consumers := s.consumers[k := r.(waiting := r.waiting[p := r.waiting[p] - 1],
                                          piped := r.piped[p := r.piped[p] + 1])])
    else
      s.(phases := s.phases[p := if k < cfg.workers then Notifying(k + 1) else Idle])
  }

  function Read(s: State, c: nat, p: nat): (r: State)
    requires c < |s.consumers| && p < |s.consumers[c].piped| && s.consumers[c].piped[p] > 0
  {
    var r := s.consumers[c];
    s.(consumers := s.consumers[c := r.(piped := r.piped[p := r.piped[p] - 1], holding := true)])
  }

  function Advance(s: State, c: nat): (r: State)
    requires c < |s.consumers|
  {
    var r := s.consumers[c];
    if r.item !in s.heap then s.(fault := true) else
    match s.heap[r.item].next
    case None =>
      s.(consumers := s.consumers[c := r.(holding := false)], wrongNotices := s.wrongNotices + 1)
    case Some(n) =>
      if n !in s.heap || s.heap[n].value.None? then s.(fault := true) else
      s.(consumers := s.consumers[c := r.(item := n, holding := false, pos := r.pos + 1,
                                          seen := r.seen + [s.heap[n].value.value])])
  }

  /** One cursor is read without a lock; after the last one the walk starts from the head. */
  function Snapshot(cfg: Config, s: State): (r: State)
    requires s.collector.Reading? && |s.collector.snaps| < |s.consumers|
  {
    var r := s.consumers[|s.collector.snaps|];
    var snaps, at := s.collector.snaps + [r.item], s.collector.at + [r.pos];
    s.(collector := if |snaps| == cfg.workers + 1 then Freeing(snaps, at, s.head, 0, 0) else Reading(snaps, at))
  }

  function Free(s: State): (r: State)
    requires s.collector.Freeing?
  {
    var g := s.collector;
    if g.p in g.snaps then
      s.(head := g.p, size := s.size - g.count, memory := s.memory - g.weight, collector := Resting)
    else if g.p !in s.heap || s.heap[g.p].next.None? then s.(fault := true) else
    var n := s.heap[g.p];
    s.(heap := s.heap - {g.p}, freed := s.freed + 1,
       collector := g.(p := n.next.value, count := g.count + 1,
                       weight := g.weight + if n.value.Some? then n.value.value.Weight() else 0))
  }

  function Step(cfg: Config, s: State, a: Action): (r: State)
    requires Shape(cfg, s) && Enabled(cfg, s, a)
  {
    match a
    case CheckSize(p, m) => if s.size >= cfg.limit then s else s.(phases := s.phases[p := Checked(m)])
    case MQPush(p, a) => Push(s, p, a)
    case AddNotify(p) => Announce(cfg, s, p)
    case TryWrite(p, ok) => Write(cfg, s, p, ok)
    case CronNotify(p) => s.(phases := s.phases[p := Notifying(0)])
    case ReadNotice(c, p) => Read(s, c, p)
    case MQNext(c) => Advance(s, c)
    case StartCollection => s.(collector := Reading([], []))
    case ReadCursor => Snapshot(cfg, s)
    case FreeNode => Free(s)
  }

  /** The state after a run from s, if every action of the run was enabled. */
  function After(cfg: Config, s: State, run: seq<Action>): (r: Option<State>) {
    if run == [] then Some(s)
    else match After(cfg, s, run[..|run| - 1])
         case None => None
         case Some(t) =>
           if Shape(cfg, t) && Enabled(cfg, t, run[|run| - 1]) then Some(Step(cfg, t, run[|run| - 1])) else None
  }

  function Exec(cfg: Config, run: seq<Action>): (r: Option<State>) { After(cfg, Init(cfg), run) }

  // ----- The invariant -----

  function NodeWeight(log: seq<Message>, i: nat): (r: nat)
    requires i <= |log|
  {
    if i == 0 then 0 else log[i - 1].Weight()
  }

  /** The bytes of nodes lo up to, not including, hi. */
  function Span(log: seq<Message>, lo: nat, hi: nat): (r: nat)
    requires lo <= hi <= |log| + 1
    decreases hi
  {
    if lo == hi then 0 else Span(log, lo, hi - 1) + NodeWeight(log, hi - 1)
  }

  /** How many nodes were deleted before the current free pass; outside a pass, before the head. */
  function HeadPos(s: State): (r: int) {
    if s.collector.Freeing? then s.freed - s.collector.count else s.freed
  }

  /** What the i-th node of the list holds: the sentinel is first, and each node points to the next. */
  function NodeOf(log: seq<Message>, chain: seq<Addr>, i: nat): (r: Node)
    requires i <= |log| && |chain| == |log| + 1
  {
    Node(if i == 0 then None else Some(log[i - 1]), if i < |log| then Some(chain[i + 1]) else None)
  }

  predicate HasNode(heap: map<Addr, Node>, log: seq<Message>, chain: seq<Addr>, i: nat)
    requires i <= |log| && |chain| == |log| + 1
  {
    chain[i] in heap && heap[chain[i]] == NodeOf(log, chain, i)
  }

  /** The live nodes are exactly the window of the chain from freed on, linked in push order. */
  predicate Linked(s: State) {
    && |s.chain| == |s.log| + 1 && s.freed <= |s.log|
    && (forall i, j | s.freed <= i < j < |s.chain| :: s.chain[i] != s.chain[j])
    && (forall i | s.freed <= i < |s.chain| :: HasNode(s.heap, s.log, s.chain, i))
    && |s.heap| == |s.chain| - s.freed
    && s.tail == s.chain[|s.log|]
    && (if s.collector.Freeing? then s.collector.p == s.chain[s.freed] else s.head == s.chain[s.freed])
    && !s.fault
  }

  predicate Cursors(cfg: Config, s: State)
    requires Shape(cfg, s) && Linked(s)
  {
    && (forall c | 0 <= c <= cfg.workers ::
          && s.freed <= s.consumers[c].pos <= |s.log|
          && s.consumers[c].item == s.chain[s.consumers[c].pos]
          && s.consumers[c].seen == s.log[..s.consumers[c].pos])
    && (!s.collector.Resting? ==>
          && |s.collector.at| == |s.collector.snaps|
          && (forall c | 0 <= c < |s.collector.snaps| ::
                && s.freed <= s.collector.at[c] <= s.consumers[c].pos
                && s.collector.snaps[c] == s.chain[s.collector.at[c]]))
    && (s.collector.Freeing? ==> |s.collector.snaps| == cfg.workers + 1)
  }

  /** What publisher p still owes consumer c: counter, bytes in the pipe, and a push not yet announced. */
  function Debt(cfg: Config, s: State, c: nat, p: nat): (r: nat)
    requires Shape(cfg, s) && c <= cfg.workers && p < cfg.workers
  {
    s.consumers[c].waiting[p] + s.consumers[c].piped[p]
      + if s.phases[p].Announcing? && s.phases[p].next <= c then 1 else 0
  }

  function Owed(cfg: Config, s: State, c: nat, n: nat): (r: nat)
    requires Shape(cfg, s) && c <= cfg.workers && n <= cfg.workers
  {
    if n == 0 then 0 else Owed(cfg, s, c, n - 1) + Debt(cfg, s, c, n - 1)
  }

  /** Messages not yet seen by a consumer, not counting the notice in its hand. */
  function Behind(s: State, c: nat): (r: int)
    requires c < |s.consumers|
  {
    |s.log| - s.consumers[c].pos - if s.consumers[c].holding then 1 else 0
  }

  /** The counting invariant: pushed minus consumed is exactly what is owed plus what is in hand. */
  predicate Counted(cfg: Config, s: State)
    requires Shape(cfg, s)
  {
    && (forall c | 0 <= c <= cfg.workers ::
          Behind(s, c) == Owed(cfg, s, c, cfg.workers))
    && s.wrongNotices == 0
  }

  function Pushing(phases: seq<Phase>): (r: nat) {
    if phases == [] then 0 else Pushing(phases[..|phases| - 1]) + if phases[|phases| - 1].Checked? then 1 else 0
  }

  /** The limit, and one message more for every other worker that could be past the check. */
  function Bound(cfg: Config): (r: nat) { if cfg.workers == 0 || cfg.limit == 0 then 0 else cfg.limit + cfg.workers - 1 }

  predicate Sized(cfg: Config, s: State)
    requires Shape(cfg, s) && Linked(s)
  {
    && 0 <= HeadPos(s)
    && s.size == |s.log| - HeadPos(s)
    && s.memory == Span(s.log, HeadPos(s), |s.log| + 1)
    && (s.collector.Freeing? ==> s.collector.weight == Span(s.log, HeadPos(s), s.freed))
    && s.size + Pushing(s.phases) <= Bound(cfg)
  }

  ghost predicate Inv(cfg: Config, s: State) {
    Shape(cfg, s) && Linked(s) && Cursors(cfg, s) && Counted(cfg, s) && Sized(cfg, s)
  }

  // ----- Every step keeps it -----

  lemma OwedStart(cfg: Config, c: nat, n: nat)
    requires c <= cfg.workers && n <= cfg.workers
    ensures Owed(cfg, Init(cfg), c, n) == 0
  {}

  lemma {:induction false} NobodyPushes(phases: seq<Phase>)
    requires forall i | 0 <= i < |phases| :: !phases[i].Checked?
    ensures Pushing(phases) == 0
  {
    if phases != [] { NobodyPushes(phases[..|phases| - 1]); }
  }

  lemma InitInv(cfg: Config)
    ensures Inv(cfg, Init(cfg))
  {
    var s := Init(cfg);
    forall c | 0 <= c <= cfg.workers ensures Owed(cfg, s, c, cfg.workers) == 0 {
      OwedStart(cfg, c, cfg.workers);
    }
    NobodyPushes(s.phases);
    assert Span(s.log, 0, 1) == Span(s.log, 0, 0) + NodeWeight(s.log, 0);
  }

  lemma {:induction false} PushingUpdate(phases: seq<Phase>, p: nat, f: Phase)
    requires p < |phases|
    ensures Pushing(phases[p := f]) ==
            Pushing(phases) - (if phases[p].Checked? then 1 else 0) + (if f.Checked? then 1 else 0)
  {
    var last := |phases| - 1;
    if p == last {
      assert phases[p := f][..last] == phases[..last];
    } else {
      PushingUpdate(phases[..last], p, f);
      assert phases[p := f][..last] == phases[..last][p := f];
    }
  }

  lemma {:induction false} PushingBound(phases: seq<Phase>)
    ensures Pushing(phases) <= |phases|
  {
    if phases != [] { PushingBound(phases[..|phases| - 1]); }
  }

  lemma {:induction false} SpanSplit(log: seq<Message>, lo: nat, mid: nat, hi: nat)
    requires lo <= mid <= hi <= |log| + 1
    ensures Span(log, lo, hi) == Span(log, lo, mid) + Span(log, mid, hi)
    decreases hi
  {
    if mid < hi { SpanSplit(log, lo, mid, hi - 1); }
  }

  lemma {:induction false} SpanGrow(log: seq<Message>, m: Message, lo: nat, hi: nat)
    requires lo <= hi <= |log| + 1
    ensures Span(log + [m], lo, hi) == Span(log, lo, hi)
    decreases hi
  {
    if lo < hi { SpanGrow(log, m, lo, hi - 1); }
  }

  lemma {:induction false} OwedSame(cfg: Config, s: State, t: State, c: nat, n: nat)
    requires Shape(cfg, s) && Shape(cfg, t) && c <= cfg.workers && n <= cfg.workers
    requires forall q | 0 <= q < n :: Debt(cfg, t, c, q) == Debt(cfg, s, c, q)
    ensures Owed(cfg, t, c, n) == Owed(cfg, s, c, n)
  {
    if n > 0 { OwedSame(cfg, s, t, c, n - 1); }
  }

  lemma {:induction false} OwedChange(cfg: Config, s: State, t: State, c: nat, p: nat, n: nat)
    requires Shape(cfg, s) && Shape(cfg, t) && c <= cfg.workers && p < n <= cfg.workers
    requires forall q | 0 <= q < n && q != p :: Debt(cfg, t, c, q) == Debt(cfg, s, c, q)
    ensures Owed(cfg, t, c, n) - Owed(cfg, s, c, n) == Debt(cfg, t, c, p) - Debt(cfg, s, c, p)
  {
    if p == n - 1 { OwedSame(cfg, s, t, c, n - 1); } else { OwedChange(cfg, s, t, c, p, n - 1); }
  }

  /** A consumer that holds a notice has a next node. */
  lemma HoldingHasNext(cfg: Config, s: State, c: nat)
    requires Inv(cfg, s) && c <= cfg.workers && s.consumers[c].holding
    ensures s.consumers[c].pos < |s.log|
    ensures s.consumers[c].item in s.heap
    ensures s.heap[s.consumers[c].item].next == Some(s.chain[s.consumers[c].pos + 1])
    ensures s.chain[s.consumers[c].pos + 1] in s.heap
    ensures s.heap[s.chain[s.consumers[c].pos + 1]].value == Some(s.log[s.consumers[c].pos])
  {
    assert Behind(s, c) == Owed(cfg, s, c, cfg.workers);
    var i := s.consumers[c].pos + 1;
    assert HasNode(s.heap, s.log, s.chain, i) && HasNode(s.heap, s.log, s.chain, i - 1);
  }

  /** The address the walk stands on is a snapshot exactly when its position is one of theirs. */
  lemma WalkStops(cfg: Config, s: State)
    requires Inv(cfg, s) && s.collector.Freeing?
    ensures s.collector.p in s.collector.snaps <==> s.freed in s.collector.at
    ensures s.collector.p in s.heap && s.heap[s.collector.p] == NodeOf(s.log, s.chain, s.freed)
    ensures s.collector.p !in s.collector.snaps ==>
              && s.freed < |s.log|
              && (forall c | 0 <= c <= cfg.workers :: s.freed < s.collector.at[c] <= s.consumers[c].pos)
  {
    var g := s.collector;
    forall c | 0 <= c <= cfg.workers
      ensures g.snaps[c] == g.p <==> g.at[c] == s.freed
    {
      assert g.snaps[c] == s.chain[g.at[c]];
    }
    if g.p in g.snaps {
      var c :| 0 <= c < |g.snaps| && g.snaps[c] == g.p;
      assert g.at[c] in g.at;
    }
    if s.freed in g.at {
      var c :| 0 <= c < |g.at| && g.at[c] == s.freed;
      assert g.snaps[c] in g.snaps;
    }
    forall c | 0 <= c <= cfg.workers && g.p !in g.snaps ensures s.freed < g.at[c] <= s.consumers[c].pos {
      assert g.snaps[c] in g.snaps;
    }
    assert s.freed <= g.at[0] <= s.consumers[0].pos;
    assert HasNode(s.heap, s.log, s.chain, s.freed);
  }

  lemma PushKeepsNodes(cfg: Config, s: State, p: nat, n: Addr)
    requires Inv(cfg, s) && Enabled(cfg, s, MQPush(p, n))
    ensures var t := Push(s, p, n);
      && t == s.(heap := t.heap, tail := n, size := s.size + 1, memory := t.memory,
                 phases := s.phases[p := Announcing(0)], log := s.log + [s.phases[p].m], chain := s.chain + [n])
      && t.heap.Keys == s.heap.Keys + {n}
      && (forall i | s.freed <= i < |t.chain| :: HasNode(t.heap, t.log, t.chain, i))
  {
    var t := Push(s, p, n);
    assert HasNode(s.heap, s.log, s.chain, |s.log|);
    assert t.heap.Keys == s.heap.Keys + {n};
    forall i | s.freed <= i < |t.chain|
      ensures HasNode(t.heap, t.log, t.chain, i)
    {
      if i < |s.chain| { assert HasNode(s.heap, s.log, s.chain, i); }
      if i < |s.log| { assert s.chain[i] != s.chain[|s.log|]; }
    }
  }

  lemma PushKeepsLinks(cfg: Config, s: State, p: nat, n: Addr)
    requires Inv(cfg, s) && Enabled(cfg, s, MQPush(p, n))
    ensures var t := Push(s, p, n); Shape(cfg, t) && Linked(t) && Cursors(cfg, t)
  {
    var t := Push(s, p, n);
    PushKeepsNodes(cfg, s, p, n);
    forall i, j | t.freed <= i < j < |t.chain| ensures t.chain[i] != t.chain[j] {
      assert HasNode(s.heap, s.log, s.chain, i);
    }
  }

  lemma FreeKeepsLinks(cfg: Config, s: State)
    requires Inv(cfg, s) && s.collector.Freeing?
    ensures var t := Free(s); Shape(cfg, t) && Linked(t) && Cursors(cfg, t)
  {
    var t := Free(s);
    WalkStops(cfg, s);
    if s.collector.p !in s.collector.snaps {
      assert t.heap.Keys == s.heap.Keys - {s.collector.p};
      forall i | t.freed <= i < |t.chain| ensures HasNode(t.heap, t.log, t.chain, i) {
        assert HasNode(s.heap, s.log, s.chain, i);
        assert s.chain[i] != s.chain[s.freed];
      }
    }
  }

  lemma AdvanceKeepsLinks(cfg: Config, s: State, c: nat)
    requires Inv(cfg, s) && Enabled(cfg, s, MQNext(c))
    ensures var t := Advance(s, c); Shape(cfg, t) && Linked(t) && Cursors(cfg, t)
  {
    HoldingHasNext(cfg, s, c);
    forall i | s.freed <= i < |s.chain| ensures HasNode(Advance(s, c).heap, s.log, s.chain, i) {
      assert HasNode(s.heap, s.log, s.chain, i);
    }
  }

  /** Steps on counters, pipes and phases leave the list, the cursors and the collector alone. */
  predicate SameList(s: State, t: State) {
    && t == s.(phases := t.phases, consumers := t.consumers)
    && |t.consumers| == |s.consumers|
    && forall c | 0 <= c < |s.consumers| ::
         && t.consumers[c].item == s.consumers[c].item && t.consumers[c].pos == s.consumers[c].pos
         && t.consumers[c].seen == s.consumers[c].seen
  }

  predicate OffList(a: Action) {
    a.CheckSize? || a.AddNotify? || a.TryWrite? || a.CronNotify? || a.ReadNotice?
  }

  lemma OffListSteps(cfg: Config, s: State, a: Action)
    requires Shape(cfg, s) && Enabled(cfg, s, a) && OffList(a)
    ensures Shape(cfg, Step(cfg, s, a)) && SameList(s, Step(cfg, s, a))
  {}

  lemma SameListKeepsLinks(cfg: Config, s: State, t: State)
    requires Inv(cfg, s) && Shape(cfg, t) && SameList(s, t)
    ensures Linked(t) && Cursors(cfg, t) && HeadPos(t) == HeadPos(s)
  {}

  lemma CollectKeepsLinks(cfg: Config, s: State, a: Action)
    requires Inv(cfg, s) && Enabled(cfg, s, a) && (a.StartCollection? || a.ReadCursor?)
    ensures var t := Step(cfg, s, a); Shape(cfg, t) && Linked(t) && Cursors(cfg, t)
  {}

  lemma StepKeepsLinks(cfg: Config, s: State, a: Action)
    requires Inv(cfg, s) && Enabled(cfg, s, a)
    ensures var t := Step(cfg, s, a); Shape(cfg, t) && Linked(t) && Cursors(cfg, t)
  {
    match a {
      case MQNext(c) => AdvanceKeepsLinks(cfg, s, c);
      case FreeNode => FreeKeepsLinks(cfg, s);
      case MQPush(p, n) => PushKeepsLinks(cfg, s, p, n);
      case StartCollection => CollectKeepsLinks(cfg, s, a);
      case ReadCursor => CollectKeepsLinks(cfg, s, a);
      case _ =>
        OffListSteps(cfg, s, a);
        SameListKeepsLinks(cfg, s, Step(cfg, s, a));
    }
  }

  /** Only the acting publisher's debt changes, and only by what the step moves. */
  lemma PublisherDebt(cfg: Config, s: State, a: Action, c: nat, q: nat)
    requires Shape(cfg, s) && Enabled(cfg, s, a) && Shape(cfg, Step(cfg, s, a)) && c <= cfg.workers && q < cfg.workers
    requires a.CheckSize? || a.AddNotify? || a.TryWrite? || a.CronNotify?
    ensures Debt(cfg, Step(cfg, s, a), c, q) == Debt(cfg, s, c, q)
  {}

  lemma PushDebt(cfg: Config, s: State, p: nat, n: Addr, c: nat, q: nat)
    requires Inv(cfg, s) && Enabled(cfg, s, MQPush(p, n)) && Shape(cfg, Push(s, p, n)) && c <= cfg.workers && q < cfg.workers
    ensures Debt(cfg, Push(s, p, n), c, q) == Debt(cfg, s, c, q) + (if q == p then 1 else 0)
    ensures Push(s, p, n).log == s.log + [s.phases[p].m] && Push(s, p, n).consumers == s.consumers
  {
    assert HasNode(s.heap, s.log, s.chain, |s.log|);
  }

  lemma NoticeDebt(cfg: Config, s: State, c0: nat, p: nat, c: nat, q: nat)
    requires Shape(cfg, s) && Enabled(cfg, s, ReadNotice(c0, p)) && c <= cfg.workers && q < cfg.workers
    requires Shape(cfg, Read(s, c0, p))
    ensures Debt(cfg, Read(s, c0, p), c, q) == Debt(cfg, s, c, q) - if c == c0 && q == p then 1 else 0
  {}

  /** Steps of the master and cursor moves touch no counter and no pipe. */
  lemma OtherDebt(cfg: Config, s: State, a: Action, c: nat, q: nat)
    requires Shape(cfg, s) && Enabled(cfg, s, a) && Shape(cfg, Step(cfg, s, a)) && c <= cfg.workers && q < cfg.workers
    requires a.MQNext? || a.StartCollection? || a.ReadCursor? || a.FreeNode?
    ensures Debt(cfg, Step(cfg, s, a), c, q) == Debt(cfg, s, c, q)
  {}

  lemma StepKeepsCount(cfg: Config, s: State, a: Action)
    requires Inv(cfg, s) && Enabled(cfg, s, a)
    requires Shape(cfg, Step(cfg, s, a))
    ensures Counted(cfg, Step(cfg, s, a))
  {
    var t := Step(cfg, s, a);
    if a.MQNext? { HoldingHasNext(cfg, s, a.c); }
    forall c | 0 <= c <= cfg.workers ensures Behind(t, c) == Owed(cfg, t, c, cfg.workers) {
      OneConsumerCount(cfg, s, a, c);
    }
  }

  lemma BehindOffList(cfg: Config, s: State, a: Action, c: nat)
    requires Shape(cfg, s) && Enabled(cfg, s, a) && OffList(a) && c <= cfg.workers
    ensures c < |Step(cfg, s, a).consumers|
    ensures Behind(Step(cfg, s, a), c) == Behind(s, c) - if a.ReadNotice? && a.c == c then 1 else 0
  {
    OffListSteps(cfg, s, a);
  }

  lemma BehindAfter(cfg: Config, s: State, a: Action, c: nat)
    requires Inv(cfg, s) && Enabled(cfg, s, a) && c <= cfg.workers && !a.MQPush?
    requires Shape(cfg, Step(cfg, s, a))
    ensures Behind(Step(cfg, s, a), c) == Behind(s, c) - if a.ReadNotice? && a.c == c then 1 else 0
  {
    if OffList(a) {
      BehindOffList(cfg, s, a, c);
    } else if a.MQNext? {
      HoldingHasNext(cfg, s, a.c);
    }
  }

  lemma OneConsumerCount(cfg: Config, s: State, a: Action, c: nat)
    requires Inv(cfg, s) && Enabled(cfg, s, a) && c <= cfg.workers
    requires Shape(cfg, Step(cfg, s, a))
    ensures var t := Step(cfg, s, a); Behind(t, c) == Owed(cfg, t, c, cfg.workers)
  {
    var t := Step(cfg, s, a);
    assert Behind(s, c) == Owed(cfg, s, c, cfg.workers);
    if a.MQPush? {
      PushCount(cfg, s, a.p, a.a, c);
    } else {
      BehindAfter(cfg, s, a, c);
      if a.ReadNotice? {
        forall q | 0 <= q < cfg.workers { NoticeDebt(cfg, s, a.c, a.p, c, q); }
        OwedChange(cfg, s, t, c, a.p, cfg.workers);
      } else {
        forall q | 0 <= q < cfg.workers ensures Debt(cfg, t, c, q) == Debt(cfg, s, c, q) {
          if a.MQNext? || a.StartCollection? || a.ReadCursor? || a.FreeNode? {
            OtherDebt(cfg, s, a, c, q);
          } else {
            PublisherDebt(cfg, s, a, c, q);
          }
        }
        OwedSame(cfg, s, t, c, cfg.workers);
      }
    }
  }

  lemma PushCount(cfg: Config, s: State, p: nat, n: Addr, c: nat)
    requires Inv(cfg, s) && Enabled(cfg, s, MQPush(p, n)) && c <= cfg.workers && Shape(cfg, Push(s, p, n))
    ensures var t := Push(s, p, n); Behind(t, c) == Owed(cfg, t, c, cfg.workers)
  {
    forall q | 0 <= q < cfg.workers { PushDebt(cfg, s, p, n, c, q); }
    OwedChange(cfg, s, Push(s, p, n), c, p, cfg.workers);
  }

  lemma PhasesKeepBound(cfg: Config, s: State, a: Action)
    requires Inv(cfg, s) && Enabled(cfg, s, a)
    requires a.CheckSize? || a.MQPush? || a.AddNotify? || a.TryWrite? || a.CronNotify?
    ensures var t := Step(cfg, s, a); t.size + Pushing(t.phases) <= Bound(cfg)
  {
    var t := Step(cfg, s, a);
    assert t.phases == s.phases[a.p := t.phases[a.p]];
    PushingUpdate(s.phases, a.p, t.phases[a.p]);
    PushingBound(t.phases);
  }

  lemma FreeKeepsSize(cfg: Config, s: State)
    requires Inv(cfg, s) && s.collector.Freeing?
    requires var t := Free(s); Shape(cfg, t) && Linked(t)
    ensures Sized(cfg, Free(s))
  {
    WalkStops(cfg, s);
    if s.collector.p in s.collector.snaps {
      SpanSplit(s.log, HeadPos(s), s.freed, |s.log| + 1);
    } else {
      OneMoreFreed(cfg, s, Free(s));
    }
  }

  lemma OneMoreFreed(cfg: Config, s: State, t: State)
    requires Shape(cfg, s) && Linked(s) && Sized(cfg, s) && s.collector.Freeing? && s.freed < |s.log|
    requires Shape(cfg, t) && Linked(t) && t.freed == s.freed + 1 && t.log == s.log && t.phases == s.phases
    requires t.size == s.size && t.memory == s.memory
    requires t.collector.Freeing?
    requires t.collector == s.collector.(p := t.collector.p, count := s.collector.count + 1,
                                         weight := s.collector.weight + NodeWeight(s.log, s.freed))
    ensures Sized(cfg, t)
  {
    assert HeadPos(t) == HeadPos(s) <= s.freed;
  }

  lemma PushKeepsSize(cfg: Config, s: State, p: nat, n: Addr)
    requires Inv(cfg, s) && Enabled(cfg, s, MQPush(p, n))
    requires var t := Push(s, p, n); Shape(cfg, t) && Linked(t)
    ensures Sized(cfg, Push(s, p, n))
  {
    PhasesKeepBound(cfg, s, MQPush(p, n));
    var m := s.phases[p].m;
    SpanGrow(s.log, m, HeadPos(s), |s.log| + 1);
    if s.collector.Freeing? { SpanGrow(s.log, m, HeadPos(s), s.freed); }
    assert HasNode(s.heap, s.log, s.chain, |s.log|);
  }

  /** Neither reading cursors, moving one, nor starting a pass changes the account. */
  lemma QuietSize(cfg: Config, s: State, a: Action)
    requires Inv(cfg, s) && Enabled(cfg, s, a)
    requires a.MQNext? || a.StartCollection? || a.ReadCursor? || a.ReadNotice?
    requires var t := Step(cfg, s, a); Shape(cfg, t) && Linked(t)
    ensures Sized(cfg, Step(cfg, s, a))
  {
    if a.MQNext? { HoldingHasNext(cfg, s, a.c); }
  }

  lemma PhaseSize(cfg: Config, s: State, a: Action)
    requires Inv(cfg, s) && Enabled(cfg, s, a) && OffList(a) && !a.ReadNotice?
    requires var t := Step(cfg, s, a); Shape(cfg, t) && Linked(t)
    ensures Sized(cfg, Step(cfg, s, a))
  {
    PhasesKeepBound(cfg, s, a);
    OffListSteps(cfg, s, a);
    SameListKeepsLinks(cfg, s, Step(cfg, s, a));
  }

  lemma StepKeepsSize(cfg: Config, s: State, a: Action)
    requires Inv(cfg, s) && Enabled(cfg, s, a)
    requires var t := Step(cfg, s, a); Shape(cfg, t) && Linked(t)
    ensures Sized(cfg, Step(cfg, s, a))
  {
    if a.MQPush? {
      PushKeepsSize(cfg, s, a.p, a.a);
    } else if a.FreeNode? {
      FreeKeepsSize(cfg, s);
    } else if OffList(a) && !a.ReadNotice? {
      PhaseSize(cfg, s, a);
    } else {
      QuietSize(cfg, s, a);
    }
  }

  lemma StepKeepsInv(cfg: Config, s: State, a: Action)
    requires Inv(cfg, s) && Enabled(cfg, s, a)
    ensures Inv(cfg, Step(cfg, s, a))
  {
    StepKeepsLinks(cfg, s, a);
    StepKeepsCount(cfg, s, a);
    StepKeepsSize(cfg, s, a);
  }

  /** The invariant holds after every run, of any length and any interleaving. */
  lemma {:induction false} EveryRunIsSafe(cfg: Config, run: seq<Action>)
    requires Exec(cfg, run).Some?
    ensures Inv(cfg, Exec(cfg, run).value)
  {
    if run == [] {
      InitInv(cfg);
    } else {
      var front := run[..|run| - 1];
      EveryRunIsSafe(cfg, front);
      StepKeepsInv(cfg, Exec(cfg, front).value, run[|run| - 1]);
    }
  }

  // ----- What it means -----

  ghost predicate Reachable(cfg: Config, s: State) { exists run: seq<Action> :: Exec(cfg, run) == Some(s) }

  lemma ReachableInv(cfg: Config, s: State)
    requires Reachable(cfg, s)
    ensures Inv(cfg, s)
  {
    var run: seq<Action> :| Exec(cfg, run) == Some(s);
    EveryRunIsSafe(cfg, run);
  }

  /** For each consumer, pushed minus consumed is counters plus pipe bytes plus unannounced pushes plus the notice
      in hand; so the MQNext after a notice byte delivers the next message in push order, and never comes back
      empty or touches a deleted node. */
  lemma NoticesAreExact(cfg: Config, s: State)
    requires Reachable(cfg, s)
    ensures Shape(cfg, s) && !s.fault && s.wrongNotices == 0
    ensures forall c | 0 <= c <= cfg.workers ::
              |s.log| - |s.consumers[c].seen| == Owed(cfg, s, c, cfg.workers) + if s.consumers[c].holding then 1 else 0
    ensures forall c | 0 <= c <= cfg.workers && s.consumers[c].holding ::
              var t := Advance(s, c);
              && |s.consumers[c].seen| < |s.log| && !t.fault && t.wrongNotices == 0 && |t.consumers| == |s.consumers|
              && t.consumers[c].seen == s.consumers[c].seen + [s.log[|s.consumers[c].seen|]]
  {
    ReachableInv(cfg, s);
    forall c | 0 <= c <= cfg.workers && s.consumers[c].holding
      ensures |s.consumers[c].seen| < |s.log| && !Advance(s, c).fault && Advance(s, c).wrongNotices == 0
      ensures |Advance(s, c).consumers| == |s.consumers|
      ensures Advance(s, c).consumers[c].seen == s.consumers[c].seen + [s.log[|s.consumers[c].seen|]]
    {
      HoldingHasNext(cfg, s, c);
    }
  }

  lemma {:induction false} OwedNothing(cfg: Config, s: State, c: nat, n: nat)
    requires Shape(cfg, s) && c <= cfg.workers && n <= cfg.workers
    requires forall p | 0 <= p < n :: Debt(cfg, s, c, p) == 0
    ensures Owed(cfg, s, c, n) == 0
  {
    if n > 0 { OwedNothing(cfg, s, c, n - 1); }
  }

  /** Every consumer has seen a prefix of the one push order; once no worker is inside PutMessage and nothing
      waits, is piped or is in hand for it, it has seen every message exactly once. */
  lemma HistoriesAreThePushOrder(cfg: Config, s: State, c: nat)
    requires Reachable(cfg, s) && c <= cfg.workers
    ensures Shape(cfg, s) && s.consumers[c].seen <= s.log
    ensures ((forall p | 0 <= p < cfg.workers :: Debt(cfg, s, c, p) == 0) && !s.consumers[c].holding)
              ==> s.consumers[c].seen == s.log
  {
    ReachableInv(cfg, s);
    if forall p | 0 <= p < cfg.workers :: Debt(cfg, s, c, p) == 0 {
      OwedNothing(cfg, s, c, cfg.workers);
    }
  }

  /** Conversely a consumer that is behind with nothing in hand is owed a notice by some publisher. */
  lemma BehindMeansOwed(cfg: Config, s: State, c: nat)
    requires Reachable(cfg, s) && c <= cfg.workers
    ensures Shape(cfg, s)
    ensures s.consumers[c].seen != s.log && !s.consumers[c].holding ==>
              exists p :: 0 <= p < cfg.workers && Debt(cfg, s, c, p) > 0
  {
    ReachableInv(cfg, s);
    HistoriesAreThePushOrder(cfg, s, c);
    if forall p | 0 <= p < cfg.workers :: Debt(cfg, s, c, p) <= 0 {
      assert forall p | 0 <= p < cfg.workers :: Debt(cfg, s, c, p) == 0;
    }
  }

  /** A free step that deletes a node deletes one strictly before every current cursor, although the cursors were
      read one at a time while they moved; the tail, every node a consumer stands on and every node still ahead
      of one stay alive; each step of the pass shrinks the heap or ends the pass on the oldest snapshot. */
  lemma ReclamationIsSafe(cfg: Config, s: State)
    requires Reachable(cfg, s) && s.collector.Freeing?
    ensures Shape(cfg, s) && Linked(s) && !Free(s).fault
    ensures Free(s).collector.Resting? || (|Free(s).heap| < |s.heap| && s.freed < |s.log|)
    ensures Free(s).collector.Resting? ==> s.freed in s.collector.at && forall k | 0 <= k < |s.collector.at| :: s.freed <= s.collector.at[k]
    ensures s.tail in Free(s).heap
    ensures forall c, i | 0 <= c <= cfg.workers && s.consumers[c].pos <= i <= |s.log| :: s.chain[i] in Free(s).heap
    ensures forall x | x in s.heap && x !in Free(s).heap ::
              x == s.chain[s.freed] && forall c | 0 <= c <= cfg.workers :: s.freed < s.consumers[c].pos
  {
    ReachableInv(cfg, s);
    WalkStops(cfg, s);
    FreeKeepsLinks(cfg, s);
    forall i | Free(s).freed <= i <= |s.log| ensures s.chain[i] in Free(s).heap {
      assert HasNode(Free(s).heap, s.log, s.chain, i);
    }
  }

  /** Outside a free pass `size` is the number of nodes after the head and `memory_usage` the bytes of all live
      nodes; at every moment `size` is at most the limit plus the workers that could race past the check. */
  lemma AccountsAndBound(cfg: Config, s: State)
    requires Reachable(cfg, s)
    ensures s.size <= Bound(cfg)
    ensures !s.collector.Freeing? ==> s.size == |s.heap| - 1
    ensures !s.collector.Freeing? ==> s.freed <= |s.log| && s.memory == Span(s.log, s.freed, |s.log| + 1)
  {
    ReachableInv(cfg, s);
  }
}
