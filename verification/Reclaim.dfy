/** The master's collection gets somewhere: a whole pass frees everything that every consumer had passed when the pass
    began, and a queue that everybody has read can be emptied. */
module Reclaim {
  import opened Bytes
  import opened Messages
  import opened Broker
  import opened Delivery

  // ----- One whole pass -----

  /** No second pass begins in these steps. */
  predicate OnePass(run: seq<Action>) { forall i | 0 <= i < |run| :: !run[i].StartCollection? }

  predicate NoneBehind(s: State, at: seq<nat>) { |at| <= |s.consumers| && forall c | 0 <= c < |at| :: at[c] >= s.consumers[c].pos }

  predicate AllAhead(s: State, u: State) {
    |u.consumers| == |s.consumers| && forall c | 0 <= c < |s.consumers| :: u.consumers[c].pos >= s.consumers[c].pos
  }

  /** Where a pass that began in s stands in u: every snapshot is at or beyond what the consumer had passed in s, and
      a finished pass has freed up to some consumer's position in s or beyond. */
  ghost predicate PassFrom(cfg: Config, s: State, u: State) {
    && Shape(cfg, s) && AllAhead(s, u)
    && (!u.collector.Resting? ==> NoneBehind(s, u.collector.at))
    && (u.collector.Freeing? ==> |u.collector.at| == cfg.workers + 1)
    && (u.collector.Resting? ==> exists c :: 0 <= c <= cfg.workers && u.freed >= s.consumers[c].pos)
  }

  lemma PosOnlyGrows(cfg: Config, s: State, a: Action)
    requires Inv(cfg, s) && Enabled(cfg, s, a)
    ensures AllAhead(s, Step(cfg, s, a)) && Step(cfg, s, a).freed >= s.freed
  {
    if a.MQNext? { HoldingHasNext(cfg, s, a.c); }
    if a.MQPush? { PushKeepsNodes(cfg, s, a.p, a.a); }
  }

  lemma AheadTwice(s: State, u: State, v: State)
    requires AllAhead(s, u) && AllAhead(u, v)
    ensures AllAhead(s, v)
  {}

  lemma OthersLeaveCollector(cfg: Config, s: State, a: Action)
    requires Inv(cfg, s) && Enabled(cfg, s, a) && !a.StartCollection? && !a.ReadCursor? && !a.FreeNode?
    ensures Step(cfg, s, a).collector == s.collector && Step(cfg, s, a).freed == s.freed
  {
    if a.MQNext? { HoldingHasNext(cfg, s, a.c); }
    if a.MQPush? { PushKeepsNodes(cfg, s, a.p, a.a); }
  }

  lemma PassGoesOn(cfg: Config, s: State, u: State, a: Action)
    requires PassFrom(cfg, s, u) && Inv(cfg, u) && Enabled(cfg, u, a) && !a.StartCollection?
    ensures PassFrom(cfg, s, Step(cfg, u, a))
  {
    var v := Step(cfg, u, a);
    PosOnlyGrows(cfg, u, a);
    AheadTwice(s, u, v);
    if a.FreeNode? {
      FreeInPass(cfg, s, u);
    } else if !a.ReadCursor? {
      OthersLeaveCollector(cfg, u, a);
    }
  }

  lemma FreeInPass(cfg: Config, s: State, u: State)
    requires PassFrom(cfg, s, u) && Inv(cfg, u) && u.collector.Freeing? && AllAhead(s, Free(u))
    ensures PassFrom(cfg, s, Free(u))
  {
    WalkStops(cfg, u);
    if Free(u).collector.Resting? {
      var c :| 0 <= c < |u.collector.at| && u.collector.at[c] == u.freed;
      assert u.freed >= s.consumers[c].pos;
    }
  }

  lemma {:induction false} PassRuns(cfg: Config, s: State, run: seq<Action>)
    requires Reachable(cfg, s) && |run| > 0 && run[0] == StartCollection && OnePass(run[1..]) && After(cfg, s, run).Some?
    ensures PassFrom(cfg, s, After(cfg, s, run).value) && Reachable(cfg, After(cfg, s, run).value)
    decreases |run|
  {
    var front, a := run[..|run| - 1], run[|run| - 1];
    ReachableInv(cfg, s);
    if |run| == 1 {
      assert After(cfg, s, front) == Some(s);
      ReachableOn(cfg, s, a);
    } else {
      assert front[1..] == run[1..][..|run| - 2] && a == run[1..][|run| - 2];
      PassRuns(cfg, s, front);
      var u := After(cfg, s, front).value;
      ReachableInv(cfg, u);
      PassGoesOn(cfg, s, u, a);
      ReachableOn(cfg, u, a);
    }
  }

  lemma ReachableOn(cfg: Config, s: State, a: Action)
    requires Reachable(cfg, s) && Shape(cfg, s) && Enabled(cfg, s, a)
    ensures Reachable(cfg, Step(cfg, s, a))
  {
    LiveStep(cfg, s, a);
  }

  /** A pass that began in s and has ended leaves at most what lies behind the slowest consumer of s: the nodes that
      are left in memory, and the size, are no more than what some consumer had still to read in s and what was pushed
      since. */
  lemma PassReclaims(cfg: Config, s: State, run: seq<Action>)
    requires Reachable(cfg, s) && |run| > 0 && run[0] == StartCollection && OnePass(run[1..])
    requires After(cfg, s, run).Some? && After(cfg, s, run).value.collector.Resting?
    ensures var t := After(cfg, s, run).value;
      && Shape(cfg, s) && t.size == |t.heap| - 1
      && exists c :: 0 <= c <= cfg.workers && |t.heap| - 1 <= |t.log| - |s.consumers[c].seen|
  {
    var t := After(cfg, s, run).value;
    ReachableInv(cfg, s);
    PassRuns(cfg, s, run);
    ReachableInv(cfg, t);
    var c :| 0 <= c <= cfg.workers && t.freed >= s.consumers[c].pos;
    assert |s.consumers[c].seen| == s.consumers[c].pos;
  }

  // ----- A pass ends, and can empty the queue -----

  /** Only the master did something. */
  predicate SameServed(s: State, t: State) { t.log == s.log && t.consumers == s.consumers && t.phases == s.phases }

  /** All snapshots so far are at the end of the push order. */
  predicate AllAtEnd(s: State) { !s.collector.Resting? ==> forall c | 0 <= c < |s.collector.at| :: s.collector.at[c] == |s.log| }

  lemma ReadStep(cfg: Config, s: State) returns (t: State)
    requires Live(cfg, s) && s.collector.Reading? && |s.collector.snaps| <= cfg.workers
    ensures Leads(cfg, s, t, false) && SameServed(s, t)
    ensures if |s.collector.snaps| == cfg.workers then t.collector.Freeing?
            else t.collector.Reading? && |t.collector.snaps| == |s.collector.snaps| + 1
    ensures AllAtEnd(s) && AllRead(cfg, s) ==> AllAtEnd(t)
  {
    ReachableInv(cfg, s);
    t := LeadsByStep(cfg, s, ReadCursor, false);
  }

  lemma {:induction false} ReadCursors(cfg: Config, s: State, n: nat) returns (t: State)
    requires Live(cfg, s) && s.collector.Reading? && |s.collector.snaps| + n == cfg.workers
    ensures Leads(cfg, s, t, false) && SameServed(s, t) && t.collector.Freeing?
    ensures AllAtEnd(s) && AllRead(cfg, s) ==> AllAtEnd(t)
    decreases n
  {
    t := ReadStep(cfg, s);
    if n > 0 {
      var u := t;
      t := ReadCursors(cfg, u, n - 1);
      LeadsOn(cfg, s, u, t, false);
    }
  }

  lemma FreeStep(cfg: Config, s: State) returns (t: State)
    requires Live(cfg, s) && s.collector.Freeing?
    ensures Leads(cfg, s, t, false) && SameServed(s, t)
    ensures t.collector.Resting? || (t.collector.Freeing? && s.freed < |s.log| && t.freed == s.freed + 1)
    ensures AllAtEnd(s) && t.collector.Resting? ==> t.size == 0
    ensures AllAtEnd(s) ==> AllAtEnd(t)
  {
    ReachableInv(cfg, s);
    WalkStops(cfg, s);
    t := LeadsByStep(cfg, s, FreeNode, false);
    ReachableInv(cfg, t);
  }

  lemma {:induction false} FreeNodes(cfg: Config, s: State, left: nat) returns (t: State)
    requires Live(cfg, s) && s.collector.Freeing? && s.freed + left >= |s.log|
    ensures Leads(cfg, s, t, false) && SameServed(s, t) && t.collector.Resting?
    ensures AllAtEnd(s) ==> t.size == 0
    decreases left
  {
    t := FreeStep(cfg, s);
    if !t.collector.Resting? {
      var u := t;
      t := FreeNodes(cfg, u, left - 1);
      LeadsOn(cfg, s, u, t, false);
    }
  }

  /** From wherever the master is, its pass comes to an end. */
  lemma FinishPass(cfg: Config, s: State) returns (t: State)
    requires Live(cfg, s) && (s.collector.Reading? ==> |s.collector.snaps| <= cfg.workers)
    ensures Leads(cfg, s, t, false) && SameServed(s, t) && t.collector.Resting?
    ensures AllAtEnd(s) && AllRead(cfg, s) && !s.collector.Resting? ==> t.size == 0
  {
    t := s;
    LeadsHere(cfg, s, false);
    if s.collector.Reading? { t := ReadCursors(cfg, s, cfg.workers - |s.collector.snaps|); }
    if t.collector.Freeing? {
      var u := t;
      t := FreeNodes(cfg, u, |u.log|);
      LeadsOn(cfg, s, u, t, false);
    }
  }

  /** The collection is never stuck: it is never left waiting with all cursors read. */
  lemma {:induction false} ReadingIsShort(cfg: Config, run: seq<Action>)
    requires Exec(cfg, run).Some?
    ensures Exec(cfg, run).value.collector.Reading? ==> |Exec(cfg, run).value.collector.snaps| <= cfg.workers
  {
    if run != [] {
      var front := run[..|run| - 1];
      ReadingIsShort(cfg, front);
      EveryRunIsSafe(cfg, front);
      ShortStep(cfg, Exec(cfg, front).value, run[|run| - 1]);
    }
  }

  lemma ShortStep(cfg: Config, s: State, a: Action)
    requires Inv(cfg, s) && Enabled(cfg, s, a) && (s.collector.Reading? ==> |s.collector.snaps| <= cfg.workers)
    ensures var t := Step(cfg, s, a); t.collector.Reading? ==> |t.collector.snaps| <= cfg.workers
  {
    if !a.StartCollection? && !a.ReadCursor? && !a.FreeNode? { OthersLeaveCollector(cfg, s, a); }
  }

  /** From every reachable state some run, in which no new message is taken up, ends with every consumer having seen
      every message and with an empty queue: one node in memory and size 0. Then a put is let through again, whatever
      the limit is, unless it is 0. */
  lemma EverythingIsReclaimed(cfg: Config, s: State) returns (run: seq<Action>, t: State)
    requires Reachable(cfg, s)
    ensures AllMay(run, false) && After(cfg, s, run) == Some(t) && AllRead(cfg, t) && s.log <= t.log
    ensures t.size == 0 && |t.heap| == 1
    ensures forall p, m | 0 <= p < cfg.workers && cfg.limit > 0 ::
              Enabled(cfg, t, CheckSize(p, m)) && Step(cfg, t, CheckSize(p, m)).phases[p] == Checked(m)
  {
    ReachableInv(cfg, s);
    var u := CatchUp(cfg, s);
    var calm := PassOver(cfg, u);
    LeadsOn(cfg, s, u, calm, false);
    var begun := LeadsByStep(cfg, calm, StartCollection, false);
    LeadsOn(cfg, s, calm, begun, false);
    t := FinishPass(cfg, begun);
    LeadsOn(cfg, s, begun, t, false);
    LiveAccount(cfg, t);
    ReadyAgain(cfg, u, t);
    run :| AllMay(run, false) && After(cfg, s, run) == Some(t);
  }

  lemma ReadyAgain(cfg: Config, u: State, t: State)
    requires Settled(cfg, u) && Shape(cfg, t) && SameServed(u, t) && t.size == 0
    ensures forall p, m | 0 <= p < cfg.workers && cfg.limit > 0 ::
              Enabled(cfg, t, CheckSize(p, m)) && Step(cfg, t, CheckSize(p, m)).phases[p] == Checked(m)
  {
    forall p | 0 <= p < cfg.workers ensures t.phases[p].Idle? { assert Clean(cfg, u, p); }
  }

  lemma LiveAccount(cfg: Config, t: State)
    requires Live(cfg, t) && t.collector.Resting?
    ensures t.size == |t.heap| - 1
  {
    AccountsAndBound(cfg, t);
  }

  lemma PassOver(cfg: Config, s: State) returns (t: State)
    requires Live(cfg, s)
    ensures Leads(cfg, s, t, false) && SameServed(s, t) && t.collector.Resting?
  {
    var run: seq<Action> :| Exec(cfg, run) == Some(s);
    ReadingIsShort(cfg, run);
    t := FinishPass(cfg, s);
  }
}
