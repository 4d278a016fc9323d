/** The failover store gets everything to the primary: where an added message goes, when the store switches, and that
    a calm environment brings every accepted message there, from whatever state a run has led to. */
module Recovery {
  import opened Bytes
  import opened Messages
  import opened BufferFile
  import opened BufferStore

  // ----- Where a message goes -----

  /** Towards a primary that is open and takes it, a message is delivered at once and nothing is buffered; refused or
      with the primary closed, it is the only message of a new buffer file, and the store has switched. */
  lemma AddTowardsPrimary(s: Store, m: Message, env: Env)
    requires Sound(s) && s.status.ToPrimary? && !s.appending
    ensures var t := DoAdd(s, m, env);
      if env.primaryOpen && env.accepts(0) then
        && t.delivered == s.delivered + [m]
        && t.files == s.files && t.queue == s.queue && t.status.ToPrimary? && !t.appending
      else
        && t.delivered == s.delivered && t.status.ToSecondary? && t.appending
        && t.files == s.files + [EncodeFile([m])] && t.queue == s.queue
  {
    EncodeOne(m);
    NothingAdded(EncodeMessage(m));
  }

  lemma EncodeOne(m: Message)
    ensures EncodeFile([m]) == EncodeMessage(m)
  {
    assert EncodeFile([m]) == EncodeMessage(m) + EncodeFile([]);
  }

  /** Otherwise it is written behind what the last file holds, or to a new file if none is open; the primary is not
      asked, and the state is kept. */
  lemma AddTowardsSecondary(s: Store, m: Message, env: Env)
    requires Sound(s) && !s.status.ToPrimary?
    ensures var t := DoAdd(s, m, env);
      && t.delivered == s.delivered && t.queue == s.queue && t.status == s.status && t.appending
      && t.files != [] && var last := |t.files| - 1;
         if s.appending then t.files[..last] == s.files[..last] && |s.files| == |t.files| && t.files[last] == s.files[last] + EncodeMessage(m)
         else t.files[..last] == s.files && t.files[last] == EncodeFile([m])
  {
    EncodeOne(m);
    NothingAdded(EncodeMessage(m));
  }

  /** How the store starts: towards the primary only if that is open and no buffer file is left; with the primary
      closed, on a new empty file behind the old ones. Nothing is read or lost. */
  lemma OpenedIs(files: seq<bytes>, env: Env)
    ensures var s := Opened(files, env);
      && s.queue == [] && s.delivered == [] && Sound(s) && (s.appending <==> !env.primaryOpen)
      && (s.status.ToPrimary? <==> env.primaryOpen && files == [])
      && (s.status.ToSecondary? <==> !env.primaryOpen)
      && s.files == (if env.primaryOpen then files else files + [[]])
      && Due(s) == Backlog(files)
  {
    BacklogSnoc(files);
    NothingAdded(Backlog(files));
  }

  /** A cron while the primary is closed only rotates: a due rotation puts a new empty file behind the others, in place
      of the open one if that is empty. */
  lemma ClosedCron(s: Store, env: Env, max: nat)
    requires Sound(s) && s.status.ToSecondary? && s.appending && !env.primaryOpen
    ensures var t := DoCron(s, env, max);
      && (!env.rotate ==> t == s)
      && (env.rotate ==> t == s.(files := if s.files[|s.files| - 1] == [] then s.files else s.files + [[]]))
  {
    var last := |s.files| - 1;
    if s.files[last] == [] { assert s.files == s.files[..last] + [[]]; }
  }

  /** Towards the primary a cron without a file open changes nothing. */
  lemma PrimaryCron(s: Store, env: Env, max: nat)
    requires Sound(s) && s.status.ToPrimary? && !s.appending
    ensures DoCron(s, env, max) == s
  {}

  /** A transfer turn that meets a refusal delivers what stands before the refused message, drops that one alone, and
      leaves the rest for the next turn. */
  lemma {:induction false} RefusalEndsTurn(queue: seq<Message>, accepts: nat -> bool, cnt: nat, max: nat, k: nat)
    requires k < |queue| && cnt + k < max && !accepts(cnt + k) && forall i | cnt <= i < cnt + k :: accepts(i)
    ensures Transfer(queue, accepts, cnt, max) == (queue[k + 1..], queue[..k])
    ensures Refusal(queue, accepts, cnt, max) == [queue[k]]
    decreases k
  {
    if k > 0 {
      RefusalEndsTurn(queue[1..], accepts, cnt + 1, max, k - 1);
      assert queue[1..][k..] == queue[k + 1..] && [queue[0]] + queue[1..][..k - 1] == queue[..k];
    }
  }

  // ----- The switch -----

  /** Waiting for the primary: nothing queued, and a file open. */
  predicate Waiting(s: Store) { s.status.ToSecondary? && s.queue == [] && s.appending && s.files != [] }

  /** The first cron that finds the primary open begins the transfer, reads a file and may even be done; nothing due is
      lost. */
  lemma SwitchProgress(s: Store, env: Env, max: nat, t: Store)
    requires Sound(s) && Waiting(s) && max >= 1 && Calm(env, max) && env.primaryOpen && t == DoCron(s, env, max)
    ensures Due(t) == Due(s) && (BackAtPrimary(t) || (UnderWay(t) && Nearer(t, s)))
  {
    var a := s.(status := Transfering);
    assert DoCron(a, env, max) == t;
    CronProgress(a, env, max, t);
    assert Due(a) == Due(s);
  }

  /** Every state that a run leads to is one of three. */
  predicate Expected(s: Store) { Sound(s) && (BackAtPrimary(s) || Waiting(s) || UnderWay(s)) }

  lemma ExplainedIsExpected(h: History, s: Store)
    requires Explains(h, s)
    ensures Expected(s)
  {}

  ghost predicate CalmFrom(envs: nat -> Env, max: nat) { forall j: nat :: Calm(envs(j), max) && envs(j).primaryOpen }

  /** From every such state, once the primary is open and takes what it is offered, finitely many crons lead back to
      the primary, which by then has everything that was due. */
  lemma EveryStateDrains(s: Store, envs: nat -> Env, i: nat, max: nat) returns (n: nat)
    requires Expected(s) && max >= 1 && CalmFrom(envs, max)
    ensures BackAtPrimary(Crons(s, envs, i, n, max)) && Crons(s, envs, i, n, max).delivered == Due(s)
  {
    if BackAtPrimary(s) {
      n := 0;
      NothingAdded(s.delivered);
    } else if UnderWay(s) {
      n := TransferDrains(s, envs, i, max);
    } else {
      var t := DoCron(s, envs(i), max);
      SwitchProgress(s, envs(i), max, t);
      n := RestDrains(t, envs, i + 1, max, |s.files|, |s.queue|);
      OneMoreCron(s, envs, i, n, max);
      n := n + 1;
    }
  }

  // ----- Everything arrives -----

  lemma {:induction false} AllDelivered(os: seq<Outcome>)
    requires Those(os, Refused) == [] && Those(os, Unreadable) == []
    ensures Those(os, Delivered) == Subjects(os)
  {
    if os != [] {
      var last := |os| - 1;
      AllDelivered(os[..last]);
      assert Subjects(os) == Subjects(os[..last]) + [os[last].m];
    }
  }

  lemma {:induction false} BacklogIsRecords(records: seq<seq<Message>>, files: seq<bytes>, appending: bool)
    requires Filed(records, files, appending) && AllReadable(Concat(records))
    ensures Backlog(files) == Concat(records)
    decreases |files|
  {
    if files != [] {
      assert ReadsAs(files[0], records[0]);
      var rest := Concat(records[1..]);
      assert forall i | 0 <= i < |records[0]| :: Concat(records)[i] == records[0][i];
      assert forall i | 0 <= i < |rest| :: Concat(records)[|records[0]| + i] == rest[i];
      PrefixOfReadable(records[0]);
      TailFiled(records, files, appending);
      BacklogIsRecords(records[1..], files[1..], appending);
    }
  }

  lemma TailFiled(records: seq<seq<Message>>, files: seq<bytes>, appending: bool)
    requires Filed(records, files, appending) && files != []
    ensures Filed(records[1..], files[1..], appending)
  {
    forall i | 0 <= i < |files| - 1 ensures ReadsAs(files[1..][i], records[1..][i]) {
      assert ReadsAs(files[i + 1], records[i + 1]);
    }
  }

  /** If nothing was refused and everything can be read back, all that was accepted is due, in order. */
  lemma DueIsAccepted(h: History, s: Store)
    requires Explains(h, s) && Those(h.resolved, Refused) == [] && AllReadable(Accepted(h, s))
    ensures Due(s) == Accepted(h, s)
  {
    var ahead, behind := Ahead(h, s), Concat(h.records);
    assert forall i | 0 <= i < |behind| :: Accepted(h, s)[|ahead| + i] == behind[i];
    BacklogIsRecords(h.records, s.files, s.appending);
    AllDelivered(h.resolved);
    NothingAdded(Subjects(h.resolved) + s.queue);
  }

  /** End to end: whatever was in the old buffer files and was added during a run in which the primary came and went,
      as long as it refused nothing during transfers and no added message lacks a topic or a content, once the primary
      stays open and takes what it is offered it has all of it after finitely many crons: each message once, in order,
      and nothing else. */
  lemma EverythingArrives(files: seq<bytes>, start: Env, ops: seq<Op>, max: nat, envs: nat -> Env) returns (n: nat)
    requires OpsFit(ops) && AllReadable(Added(ops)) && max >= 1 && CalmFrom(envs, max)
    requires Refusals(Opened(files, start), ops, max) == []
    ensures var t := Crons(Exec(Opened(files, start), ops, max), envs, 0, n, max);
            BackAtPrimary(t) && t.delivered == Backlog(files) + Added(ops)
  {
    var s := Exec(Opened(files, start), ops, max);
    var h := ExplainedRun(files, start, ops, max, s);
    ExplainedIsExpected(h, s);
    BacklogIsReadable(files);
    assert AllReadable(Backlog(files) + Added(ops));
    DueIsAccepted(h, s);
    n := EveryStateDrains(s, envs, 0, max);
  }

  /** And without any such proviso every run ends in a state that drains. */
  lemma EveryRunDrains(files: seq<bytes>, start: Env, ops: seq<Op>, max: nat, envs: nat -> Env) returns (n: nat)
    requires OpsFit(ops) && max >= 1 && CalmFrom(envs, max)
    ensures var s := Exec(Opened(files, start), ops, max);
            var t := Crons(s, envs, 0, n, max);
            BackAtPrimary(t) && t.delivered == Due(s)
  {
    var s := Exec(Opened(files, start), ops, max);
    var h := ExplainedRun(files, start, ops, max, s);
    ExplainedIsExpected(h, s);
    n := EveryStateDrains(s, envs, 0, max);
  }
}
