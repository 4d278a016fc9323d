/** Runs of the shared queue that lead somewhere: from every reachable state everybody can be served, and the size
    bound of the queue is reached. */
module Delivery {
  import opened Bytes
  import opened Messages
  import opened Broker

  /** The steps that carry on with what was begun, and the master's; with `anew`, a worker may also take up a new
      message. */
  predicate May(a: Action, anew: bool) {
    || a.MQPush? || a.AddNotify? || (a.TryWrite? && a.ok) || a.CronNotify? || a.ReadNotice? || a.MQNext?
    || a.StartCollection? || a.ReadCursor? || a.FreeNode? || (anew && a.CheckSize?)
  }

  predicate AllMay(run: seq<Action>, anew: bool) { forall i | 0 <= i < |run| :: May(run[i], anew) }

  ghost predicate Live(cfg: Config, s: State) { Shape(cfg, s) && Reachable(cfg, s) }

  ghost predicate Leads(cfg: Config, s: State, t: State, anew: bool) {
    Live(cfg, t) && exists run: seq<Action> :: AllMay(run, anew) && After(cfg, s, run) == Some(t)
  }

  lemma {:induction false} AfterAppend(cfg: Config, s: State, a: seq<Action>, b: seq<Action>)
    requires After(cfg, s, a).Some?
    ensures After(cfg, s, a + b) == After(cfg, After(cfg, s, a).value, b)
    decreases |b|
  {
    if b == [] {
      assert a + b == a;
    } else {
      AfterAppend(cfg, s, a, b[..|b| - 1]);
      assert (a + b)[..|a + b| - 1] == a + b[..|b| - 1] && (a + b)[|a + b| - 1] == b[|b| - 1];
    }
  }

  lemma LeadsHere(cfg: Config, s: State, anew: bool)
    requires Live(cfg, s)
    ensures Leads(cfg, s, s, anew)
  {
    assert AllMay([], anew) && After(cfg, s, []) == Some(s);
  }

  lemma LeadsOn(cfg: Config, s: State, t: State, u: State, anew: bool)
    requires Leads(cfg, s, t, anew) && Leads(cfg, t, u, anew)
    ensures Leads(cfg, s, u, anew)
  {
    var a: seq<Action> :| AllMay(a, anew) && After(cfg, s, a) == Some(t);
    var b: seq<Action> :| AllMay(b, anew) && After(cfg, t, b) == Some(u);
    AfterAppend(cfg, s, a, b);
    assert AllMay(a + b, anew);
  }

  lemma LiveStep(cfg: Config, s: State, a: Action)
    requires Live(cfg, s) && Enabled(cfg, s, a)
    ensures Live(cfg, Step(cfg, s, a))
  {
    var run: seq<Action> :| Exec(cfg, run) == Some(s);
    assert (run + [a])[..|run|] == run;
    assert Exec(cfg, run + [a]) == Some(Step(cfg, s, a));
    ReachableInv(cfg, Step(cfg, s, a));
  }

  lemma LiveAtFirst(cfg: Config)
    ensures Live(cfg, Init(cfg))
  {
    assert Exec(cfg, []) == Some(Init(cfg));
    InitInv(cfg);
  }

  lemma LeadsByStep(cfg: Config, s: State, a: Action, anew: bool) returns (t: State)
    requires Live(cfg, s) && Enabled(cfg, s, a) && May(a, anew)
    ensures t == Step(cfg, s, a) && Leads(cfg, s, t, anew)
  {
    t := Step(cfg, s, a);
    LiveStep(cfg, s, a);
    assert [a][..0] == [];
    assert AllMay([a], anew) && After(cfg, s, [a]) == Some(t);
  }

  // ----- Publishers finish what they began -----

  predicate Quiet(s: State) { forall c | 0 <= c < |s.consumers| :: !s.consumers[c].holding }

  predicate Clean(cfg: Config, s: State, p: nat)
    requires Shape(cfg, s) && p < cfg.workers
  {
    s.phases[p].Idle? && forall c | 0 <= c <= cfg.workers :: s.consumers[c].waiting[p] == 0
  }

  /** Nobody holds a notice, and all publishers but p are as they were. */
  predicate OnlyOf(cfg: Config, s: State, t: State, p: nat) {
    && Shape(cfg, s) && Shape(cfg, t) && Quiet(t)
    && forall q | 0 <= q < cfg.workers && q != p :: SamePublisher(cfg, s, t, q)
  }

  predicate SamePublisher(cfg: Config, s: State, t: State, q: nat)
    requires Shape(cfg, s) && Shape(cfg, t) && q < cfg.workers
  {
    t.phases[q] == s.phases[q] && forall c | 0 <= c <= cfg.workers :: t.consumers[c].waiting[q] == s.consumers[c].waiting[q]
  }

  lemma OnlyOfTwice(cfg: Config, s: State, t: State, u: State, p: nat)
    requires OnlyOf(cfg, s, t, p) && OnlyOf(cfg, t, u, p)
    ensures OnlyOf(cfg, s, u, p)
  {
    forall q | 0 <= q < cfg.workers && q != p ensures SamePublisher(cfg, s, u, q) {
      assert SamePublisher(cfg, s, t, q) && SamePublisher(cfg, t, u, q);
    }
  }

  /** From position k of the write loop on, nothing waits. */
  predicate WrittenFrom(cfg: Config, s: State, p: nat, k: nat)
    requires Shape(cfg, s) && p < cfg.workers
  {
    forall c | k <= c <= cfg.workers :: s.consumers[c].waiting[p] == 0
  }

  predicate SameBelow(cfg: Config, s: State, t: State, p: nat, k: nat)
    requires Shape(cfg, s) && Shape(cfg, t) && p < cfg.workers && k <= cfg.workers + 1
  {
    forall c | 0 <= c < k :: t.consumers[c].waiting[p] == s.consumers[c].waiting[p]
  }

  /** One successful turn of the write loop at position k: a byte for consumer k, or on to the next. */
  predicate Wrote(cfg: Config, s: State, t: State, p: nat, k: nat) {
    && OnlyOf(cfg, s, t, p) && p < cfg.workers && k <= cfg.workers && t.size == s.size && t.log == s.log
    && SameBelow(cfg, s, t, p, k)
    && if s.consumers[k].waiting[p] > 0
       then t.phases[p] == Notifying(k) && t.consumers[k].waiting[p] == s.consumers[k].waiting[p] - 1
       else t.consumers[k].waiting[p] == 0 && t.phases[p] == if k < cfg.workers then Notifying(k + 1) else Idle
  }

  lemma WriteStep(cfg: Config, s: State, p: nat, k: nat, anew: bool) returns (t: State)
    requires Live(cfg, s) && Quiet(s) && p < cfg.workers && s.phases[p] == Notifying(k)
    ensures Leads(cfg, s, t, anew) && Wrote(cfg, s, t, p, k)
  {
    t := LeadsByStep(cfg, s, TryWrite(p, true), anew);
    assert t == Write(cfg, s, p, true);
  }

  predicate WrittenOut(cfg: Config, s: State, t: State, p: nat, k: nat) {
    && OnlyOf(cfg, s, t, p) && p < cfg.workers && k <= cfg.workers + 1 && t.size == s.size && t.log == s.log
    && t.phases[p].Idle? && WrittenFrom(cfg, t, p, k) && SameBelow(cfg, s, t, p, k)
  }

  lemma WroteOn(cfg: Config, s: State, u: State, t: State, p: nat, k: nat)
    requires Wrote(cfg, s, u, p, k)
    requires u.phases[p].Idle? ==> t == u
    requires u.phases[p].Notifying? ==> WrittenOut(cfg, u, t, p, u.phases[p].next)
    ensures WrittenOut(cfg, s, t, p, k)
  {
    if u.phases[p].Notifying? { OnlyOfTwice(cfg, s, u, t, p); }
  }

  /** With writes that succeed the write loop ends and nothing waits from where it was on. */
  lemma {:induction false} WriteOut(cfg: Config, s: State, p: nat, k: nat, anew: bool) returns (t: State)
    requires Live(cfg, s) && Quiet(s) && p < cfg.workers && s.phases[p] == Notifying(k)
    ensures Leads(cfg, s, t, anew) && WrittenOut(cfg, s, t, p, k)
    decreases cfg.workers - k, s.consumers[k].waiting[p]
  {
    var u := WriteStep(cfg, s, p, k, anew);
    if u.phases[p].Idle? {
      t := u;
    } else {
      t := WriteOut(cfg, u, p, u.phases[p].next, anew);
      LeadsOn(cfg, s, u, t, anew);
    }
    WroteOn(cfg, s, u, t, p, k);
  }

  /** The announcements of a push are completed. */
  lemma {:induction false} AnnounceOut(cfg: Config, s: State, p: nat, k: nat, anew: bool) returns (t: State)
    requires Live(cfg, s) && Quiet(s) && p < cfg.workers && s.phases[p] == Announcing(k)
    ensures Leads(cfg, s, t, anew) && OnlyOf(cfg, s, t, p) && t.phases[p] == Notifying(0)
    ensures t.size == s.size && t.log == s.log
    decreases cfg.workers - k
  {
    var u := LeadsByStep(cfg, s, AddNotify(p), anew);
    assert OnlyOf(cfg, s, u, p);
    if k == cfg.workers {
      t := u;
    } else {
      t := AnnounceOut(cfg, u, p, k + 1, anew);
      LeadsOn(cfg, s, u, t, anew);
      OnlyOfTwice(cfg, s, u, t, p);
    }
  }

  /** An idle worker's cron writes out whatever waits from it. */
  lemma CronOut(cfg: Config, s: State, p: nat, anew: bool) returns (t: State)
    requires Live(cfg, s) && Quiet(s) && p < cfg.workers && s.phases[p].Idle?
    ensures Leads(cfg, s, t, anew) && OnlyOf(cfg, s, t, p) && Clean(cfg, t, p) && t.size == s.size && t.log == s.log
  {
    var u := LeadsByStep(cfg, s, CronNotify(p), anew);
    assert OnlyOf(cfg, s, u, p);
    t := WriteOut(cfg, u, p, 0, anew);
    LeadsOn(cfg, s, u, t, anew);
    OnlyOfTwice(cfg, s, u, t, p);
  }

  /** An address that is not in use. */
  lemma {:induction false} Unused(heap: set<Addr>) returns (a: Addr)
    ensures a !in heap && forall x | x in heap :: x < a
    decreases |heap|
  {
    if heap == {} {
      a := 0;
    } else {
      var x :| x in heap;
      var b := Unused(heap - {x});
      a := if x < b then b else x + 1;
      forall y | y in heap ensures y < a { assert y == x || y in heap - {x}; }
    }
  }

  lemma PushOut(cfg: Config, s: State, p: nat, anew: bool) returns (t: State)
    requires Live(cfg, s) && Quiet(s) && p < cfg.workers && s.phases[p].Checked?
    ensures Leads(cfg, s, t, anew) && OnlyOf(cfg, s, t, p) && t.phases[p] == Announcing(0)
    ensures t.size == s.size + 1 && s.log <= t.log
  {
    var a := Unused(s.heap.Keys);
    t := LeadsByStep(cfg, s, MQPush(p, a), anew);
    ReachableInv(cfg, s);
    assert HasNode(s.heap, s.log, s.chain, |s.log|);
  }

  /** A worker that is left alone finishes its PutMessage and its writes. */
  lemma Finish(cfg: Config, s: State, p: nat, anew: bool) returns (t: State)
    requires Live(cfg, s) && Quiet(s) && p < cfg.workers
    ensures Leads(cfg, s, t, anew) && OnlyOf(cfg, s, t, p) && Clean(cfg, t, p)
    ensures t.size == s.size + (if s.phases[p].Checked? then 1 else 0) && s.log <= t.log
  {
    t := s;
    LeadsHere(cfg, s, anew);
    if t.phases[p].Checked? { t := PushOut(cfg, s, p, anew); }
    if t.phases[p].Announcing? {
      var u := AnnounceOut(cfg, t, p, t.phases[p].next, anew);
      LeadsOn(cfg, s, t, u, anew);
      OnlyOfTwice(cfg, s, t, u, p);
      t := u;
    }
    if t.phases[p].Notifying? {
      var u := WriteOut(cfg, t, p, t.phases[p].next, anew);
      LeadsOn(cfg, s, t, u, anew);
      OnlyOfTwice(cfg, s, t, u, p);
      t := u;
    }
    var u := CronOut(cfg, t, p, anew);
    LeadsOn(cfg, s, t, u, anew);
    OnlyOfTwice(cfg, s, t, u, p);
    t := u;
  }

  predicate CleanBelow(cfg: Config, s: State, n: nat)
    requires Shape(cfg, s) && n <= cfg.workers
  {
    forall p | 0 <= p < n :: Clean(cfg, s, p)
  }

  lemma {:induction false} FinishAll(cfg: Config, s: State, n: nat) returns (t: State)
    requires Live(cfg, s) && Quiet(s) && n <= cfg.workers
    ensures Leads(cfg, s, t, false) && Quiet(t) && CleanBelow(cfg, t, n) && s.log <= t.log
  {
    if n == 0 {
      t := s;
      LeadsHere(cfg, s, false);
    } else {
      var u := FinishAll(cfg, s, n - 1);
      t := Finish(cfg, u, n - 1, false);
      LeadsOn(cfg, s, u, t, false);
      CleanNext(cfg, u, t, n);
    }
  }

  lemma CleanNext(cfg: Config, u: State, t: State, n: nat)
    requires 0 < n <= cfg.workers && OnlyOf(cfg, u, t, n - 1) && CleanBelow(cfg, u, n - 1) && Clean(cfg, t, n - 1)
    ensures CleanBelow(cfg, t, n)
  {
    forall p | 0 <= p < n ensures Clean(cfg, t, p) {
      if p < n - 1 { assert Clean(cfg, u, p) && SamePublisher(cfg, u, t, p); }
    }
  }

  // ----- Consumers catch up -----

  predicate NoneInHand(s: State, n: nat) { n <= |s.consumers| && forall c | 0 <= c < n :: !s.consumers[c].holding }

  /** The notices in hand below n are used. */
  lemma {:induction false} UseNotices(cfg: Config, s: State, n: nat) returns (t: State)
    requires Live(cfg, s) && n <= cfg.workers + 1
    ensures Leads(cfg, s, t, false) && t.log == s.log && NoneInHand(t, n)
  {
    if n == 0 {
      t := s;
      LeadsHere(cfg, s, false);
    } else {
      var u := UseNotices(cfg, s, n - 1);
      t := UseIfAny(cfg, u, n - 1);
      LeadsOn(cfg, s, u, t, false);
    }
  }

  lemma UseIfAny(cfg: Config, u: State, c: nat) returns (t: State)
    requires Live(cfg, u) && c <= cfg.workers && NoneInHand(u, c)
    ensures Leads(cfg, u, t, false) && t.log == u.log && NoneInHand(t, c + 1)
  {
    if u.consumers[c].holding {
      t := UseNotice(cfg, u, c);
    } else {
      t := u;
      LeadsHere(cfg, u, false);
    }
  }

  lemma UseNotice(cfg: Config, s: State, c: nat) returns (t: State)
    requires Live(cfg, s) && c <= cfg.workers && s.consumers[c].holding
    ensures Leads(cfg, s, t, false) && t.log == s.log && t.phases == s.phases
    ensures t.consumers == s.consumers[c := t.consumers[c]] && !t.consumers[c].holding
    ensures t.consumers[c].waiting == s.consumers[c].waiting && t.consumers[c].piped == s.consumers[c].piped
  {
    ReachableInv(cfg, s);
    HoldingHasNext(cfg, s, c);
    t := LeadsByStep(cfg, s, MQNext(c), false);
  }

  /** Publishers are done and nobody holds a notice. */
  predicate Settled(cfg: Config, s: State) { Shape(cfg, s) && Quiet(s) && CleanBelow(cfg, s, cfg.workers) }

  predicate OtherPipes(cfg: Config, s: State, t: State, c: nat, p: nat)
    requires Shape(cfg, s) && Shape(cfg, t)
  {
    forall d, q | 0 <= d <= cfg.workers && 0 <= q < cfg.workers && (d != c || q != p) ::
      t.consumers[d].piped[q] == s.consumers[d].piped[q]
  }

  lemma ReadOne(cfg: Config, s: State, c: nat, p: nat) returns (t: State)
    requires Live(cfg, s) && Settled(cfg, s) && c <= cfg.workers && p < cfg.workers && s.consumers[c].piped[p] > 0
    ensures Leads(cfg, s, t, false) && Settled(cfg, t) && t.log == s.log
    ensures OtherPipes(cfg, s, t, c, p) && t.consumers[c].piped[p] == s.consumers[c].piped[p] - 1
  {
    if c < cfg.workers { assert Clean(cfg, s, c); }
    var u := LeadsByStep(cfg, s, ReadNotice(c, p), false);
    TakeNotice(cfg, s, u, c, p);
    t := UseNotice(cfg, u, c);
    LeadsOn(cfg, s, u, t, false);
    StillSettled(cfg, s, t);
  }

  predicate SamePublishers(cfg: Config, s: State, t: State)
    requires Shape(cfg, s) && Shape(cfg, t)
  {
    t.phases == s.phases && forall c | 0 <= c <= cfg.workers :: t.consumers[c].waiting == s.consumers[c].waiting
  }

  lemma TakeNotice(cfg: Config, s: State, u: State, c: nat, p: nat)
    requires Shape(cfg, s) && Shape(cfg, u) && c <= cfg.workers && p < cfg.workers && s.consumers[c].piped[p] > 0
    requires u == Read(s, c, p)
    ensures SamePublishers(cfg, s, u) && OtherPipes(cfg, s, u, c, p) && u.log == s.log && u.consumers[c].holding
    ensures u.consumers[c].piped[p] == s.consumers[c].piped[p] - 1 && u.consumers == s.consumers[c := u.consumers[c]]
  {}

  lemma StillSettled(cfg: Config, s: State, t: State)
    requires Settled(cfg, s) && Shape(cfg, t) && Quiet(t) && SamePublishers(cfg, s, t)
    ensures Settled(cfg, t)
  {
    forall q | 0 <= q < cfg.workers ensures Clean(cfg, t, q) { assert Clean(cfg, s, q); }
  }

  /** One pipe is read until it is empty. */
  lemma {:induction false} ReadOut(cfg: Config, s: State, c: nat, p: nat) returns (t: State)
    requires Live(cfg, s) && Settled(cfg, s) && c <= cfg.workers && p < cfg.workers
    ensures Leads(cfg, s, t, false) && Settled(cfg, t) && t.log == s.log
    ensures OtherPipes(cfg, s, t, c, p) && t.consumers[c].piped[p] == 0
    decreases s.consumers[c].piped[p]
  {
    if s.consumers[c].piped[p] == 0 {
      t := s;
      LeadsHere(cfg, s, false);
    } else {
      var u := ReadOne(cfg, s, c, p);
      t := ReadOut(cfg, u, c, p);
      LeadsOn(cfg, s, u, t, false);
    }
  }

  predicate EmptyPipes(cfg: Config, s: State, c: nat, n: nat)
    requires Shape(cfg, s) && c <= cfg.workers && n <= cfg.workers
  {
    forall p | 0 <= p < n :: s.consumers[c].piped[p] == 0
  }

  lemma {:induction false} ReadPipes(cfg: Config, s: State, c: nat, n: nat) returns (t: State)
    requires Live(cfg, s) && Settled(cfg, s) && c <= cfg.workers && n <= cfg.workers
    ensures Leads(cfg, s, t, false) && Settled(cfg, t) && t.log == s.log && EmptyPipes(cfg, t, c, n)
    ensures forall d | 0 <= d <= cfg.workers && d != c && EmptyPipes(cfg, s, d, cfg.workers) :: EmptyPipes(cfg, t, d, cfg.workers)
    decreases n
  {
    if n == 0 {
      t := s;
      LeadsHere(cfg, s, false);
    } else {
      var u := ReadPipes(cfg, s, c, n - 1);
      t := ReadOut(cfg, u, c, n - 1);
      LeadsOn(cfg, s, u, t, false);
    }
  }

  lemma {:induction false} ReadAll(cfg: Config, s: State, n: nat) returns (t: State)
    requires Live(cfg, s) && Settled(cfg, s) && n <= cfg.workers + 1
    ensures Leads(cfg, s, t, false) && Settled(cfg, t) && t.log == s.log
    ensures forall c | 0 <= c < n :: EmptyPipes(cfg, t, c, cfg.workers)
  {
    if n == 0 {
      t := s;
      LeadsHere(cfg, s, false);
    } else {
      var u := ReadAll(cfg, s, n - 1);
      t := ReadPipes(cfg, u, n - 1, cfg.workers);
      LeadsOn(cfg, s, u, t, false);
    }
  }

  lemma CaughtUp(cfg: Config, s: State, c: nat)
    requires Live(cfg, s) && Settled(cfg, s) && c <= cfg.workers && EmptyPipes(cfg, s, c, cfg.workers)
    ensures s.consumers[c].seen == s.log
  {
    forall p | 0 <= p < cfg.workers ensures Debt(cfg, s, c, p) == 0 { assert Clean(cfg, s, p); }
    OwedNothing(cfg, s, c, cfg.workers);
    ReachableInv(cfg, s);
    assert Behind(s, c) == Owed(cfg, s, c, cfg.workers);
  }

  predicate AllRead(cfg: Config, s: State) { Shape(cfg, s) && forall c | 0 <= c <= cfg.workers :: s.consumers[c].seen == s.log }

  lemma CatchUp(cfg: Config, s: State) returns (t: State)
    requires Live(cfg, s)
    ensures Leads(cfg, s, t, false) && s.log <= t.log && Settled(cfg, t) && AllRead(cfg, t)
  {
    var u := UseNotices(cfg, s, cfg.workers + 1);
    var v := FinishAll(cfg, u, cfg.workers);
    LeadsOn(cfg, s, u, v, false);
    t := ReadAll(cfg, v, cfg.workers + 1);
    LeadsOn(cfg, s, v, t, false);
    forall c | 0 <= c <= cfg.workers ensures t.consumers[c].seen == t.log { CaughtUp(cfg, t, c); }
  }

  /** No message is ever stuck: from every reachable state, whatever writes failed before and wherever the collector
      is, some run in which no new message is taken up and every write succeeds ends with every consumer having seen
      the whole push order. */
  lemma EverybodyCatchesUp(cfg: Config, s: State) returns (run: seq<Action>, t: State)
    requires Reachable(cfg, s)
    ensures AllMay(run, false) && After(cfg, s, run) == Some(t) && AllRead(cfg, t) && s.log <= t.log
  {
    ReachableInv(cfg, s);
    t := CatchUp(cfg, s);
    run :| AllMay(run, false) && After(cfg, s, run) == Some(t);
  }

  // ----- The bound is reached -----

  predicate AllIdle(cfg: Config, s: State) {
    Shape(cfg, s) && Quiet(s) && forall p | 0 <= p < cfg.workers :: s.phases[p].Idle?
  }

  /** One worker alone brings the queue to n messages, as long as that is below the limit. */
  lemma {:induction false} Fill(cfg: Config, m: Message, n: nat) returns (s: State)
    requires cfg.workers > 0 && n < cfg.limit
    ensures Leads(cfg, Init(cfg), s, true) && AllIdle(cfg, s) && s.size == n
  {
    if n == 0 {
      LiveAtFirst(cfg);
      s := Init(cfg);
      LeadsHere(cfg, s, true);
    } else {
      var r := Fill(cfg, m, n - 1);
      var u := LeadsByStep(cfg, r, CheckSize(0, m), true);
      LeadsOn(cfg, Init(cfg), r, u, true);
      s := Finish(cfg, u, 0, true);
      LeadsOn(cfg, Init(cfg), u, s, true);
      forall p | 0 < p < cfg.workers ensures s.phases[p].Idle? { assert SamePublisher(cfg, u, s, p); }
    }
  }

  /** The first n workers have passed the check, or have pushed; the others are a step behind. */
  predicate Rank(cfg: Config, s: State, n: nat, pushed: bool) {
    && Shape(cfg, s) && Quiet(s) && n <= cfg.workers
    && (forall p | 0 <= p < n :: if pushed then s.phases[p].Announcing? else s.phases[p].Checked?)
    && (forall p | n <= p < cfg.workers :: if pushed then s.phases[p].Checked? else s.phases[p].Idle?)
  }

  lemma {:induction false} CheckAll(cfg: Config, s: State, m: Message, n: nat) returns (t: State)
    requires Live(cfg, s) && AllIdle(cfg, s) && s.size < cfg.limit && n <= cfg.workers
    ensures Leads(cfg, s, t, true) && Rank(cfg, t, n, false) && t.size == s.size
  {
    if n == 0 {
      t := s;
      LeadsHere(cfg, s, true);
    } else {
      var u := CheckAll(cfg, s, m, n - 1);
      t := LeadsByStep(cfg, u, CheckSize(n - 1, m), true);
      LeadsOn(cfg, s, u, t, true);
    }
  }

  lemma {:induction false} PushAll(cfg: Config, s: State, n: nat) returns (t: State)
    requires Live(cfg, s) && Rank(cfg, s, cfg.workers, false) && n <= cfg.workers
    ensures Leads(cfg, s, t, true) && Rank(cfg, t, n, true) && t.size == s.size + n
  {
    if n == 0 {
      t := s;
      LeadsHere(cfg, s, true);
    } else {
      var u := PushAll(cfg, s, n - 1);
      t := PushOut(cfg, u, n - 1, true);
      LeadsOn(cfg, s, u, t, true);
      RankNext(cfg, u, t, n);
    }
  }

  lemma RankNext(cfg: Config, u: State, t: State, n: nat)
    requires 0 < n && Rank(cfg, u, n - 1, true) && n <= cfg.workers && OnlyOf(cfg, u, t, n - 1) && t.phases[n - 1].Announcing?
    ensures Rank(cfg, t, n, true)
  {
    forall p | 0 <= p < cfg.workers && p != n - 1 ensures t.phases[p] == u.phases[p] { assert SamePublisher(cfg, u, t, p); }
  }

  /** The bound is exact: for any number of workers and any limit some run reaches it. One worker fills the queue up
      to one below the limit, then all pass the check before any pushes. */
  lemma BoundIsReached(cfg: Config, m: Message) returns (s: State)
    ensures Reachable(cfg, s) && s.size == Bound(cfg)
  {
    if Bound(cfg) == 0 {
      s := Init(cfg);
      assert Exec(cfg, []) == Some(s);
    } else {
      var r := Fill(cfg, m, cfg.limit - 1);
      var u := CheckAll(cfg, r, m, cfg.workers);
      LeadsOn(cfg, Init(cfg), r, u, true);
      s := PushAll(cfg, u, cfg.workers);
    }
  }
}
