/** What the shared queue holds, told from the actions of a run alone: which messages were put, in which order, and
    when a put is refused. */
module Origin {
  import opened Bytes
  import opened Messages
  import opened Broker

  /** The message of worker p's last size check. */
  function LastChecked(run: seq<Action>, p: nat): (r: Option<Message>) {
    if run == [] then None
    else var last := run[|run| - 1];
      if last.CheckSize? && last.p == p then Some(last.m) else LastChecked(run[..|run| - 1], p)
  }

  /** The messages pushed: for each push, what the pushing worker had last checked the size for. */
  function Put(run: seq<Action>): (r: seq<Message>) {
    if run == [] then []
    else var front, last := run[..|run| - 1], run[|run| - 1];
      if !last.MQPush? then Put(front)
      else match LastChecked(front, last.p)
           case None => Put(front)
           case Some(m) => Put(front) + [m]
  }

  /** A worker between check and push carries the message of its last check. */
  predicate Carries(s: State, run: seq<Action>) {
    s.log == Put(run) && forall p | 0 <= p < |s.phases| && s.phases[p].Checked? :: LastChecked(run, p) == Some(s.phases[p].m)
  }

  lemma PushAppends(cfg: Config, s: State, p: nat, n: Addr)
    requires Inv(cfg, s) && Enabled(cfg, s, MQPush(p, n))
    ensures Push(s, p, n).log == s.log + [s.phases[p].m] && Push(s, p, n).phases == s.phases[p := Announcing(0)]
  {
    PushKeepsNodes(cfg, s, p, n);
  }

  lemma OthersCarry(cfg: Config, s: State, a: Action)
    requires Shape(cfg, s) && Enabled(cfg, s, a) && !a.MQPush? && !a.CheckSize?
    ensures Step(cfg, s, a).log == s.log && |Step(cfg, s, a).phases| == |s.phases|
    ensures forall p | 0 <= p < |s.phases| && Step(cfg, s, a).phases[p].Checked? :: s.phases[p] == Step(cfg, s, a).phases[p]
  {}

  lemma CarriesOn(cfg: Config, s: State, front: seq<Action>, a: Action, run: seq<Action>)
    requires Inv(cfg, s) && Enabled(cfg, s, a) && Carries(s, front) && run == front + [a]
    ensures Carries(Step(cfg, s, a), run)
  {
    assert run[..|run| - 1] == front && run[|run| - 1] == a;
    if a.MQPush? {
      PushAppends(cfg, s, a.p, a.a);
    } else if !a.CheckSize? {
      OthersCarry(cfg, s, a);
    }
  }

  lemma {:induction false} RunCarries(cfg: Config, run: seq<Action>)
    requires Exec(cfg, run).Some?
    ensures Carries(Exec(cfg, run).value, run)
  {
    if run != [] {
      var front, a := run[..|run| - 1], run[|run| - 1];
      RunCarries(cfg, front);
      EveryRunIsSafe(cfg, front);
      assert run == front + [a];
      CarriesOn(cfg, Exec(cfg, front).value, front, a, run);
    }
  }

  /** The queue has held exactly the messages that were put, topic and content as given, in the order of the pushes;
      and every consumer has seen the first of them. */
  lemma LogIsWhatWasPut(cfg: Config, run: seq<Action>)
    requires Exec(cfg, run).Some?
    ensures var s := Exec(cfg, run).value;
      && s.log == Put(run)
      && Shape(cfg, s) && forall c | 0 <= c <= cfg.workers :: s.consumers[c].seen <= Put(run)
  {
    RunCarries(cfg, run);
    EveryRunIsSafe(cfg, run);
  }

  /** A put is let past the check if and only if fewer messages than the limit are pushed and not yet taken off the
      account; outside a free pass that is: fewer than the limit are in memory behind the sentinel. A refused put
      changes nothing. */
  lemma CheckIsTakenIff(cfg: Config, run: seq<Action>, p: nat, m: Message)
    requires Exec(cfg, run).Some?
    requires Shape(cfg, Exec(cfg, run).value) && Enabled(cfg, Exec(cfg, run).value, CheckSize(p, m))
    ensures var s := Exec(cfg, run).value;
            var t := Step(cfg, s, CheckSize(p, m));
      && (t.phases[p] == Checked(m) <==> |Put(run)| - HeadPos(s) < cfg.limit)
      && (!s.collector.Freeing? ==> (t.phases[p] == Checked(m) <==> |s.heap| <= cfg.limit))
      && t == s.(phases := t.phases) && (t.phases[p] != Checked(m) ==> t == s)
      && forall q | 0 <= q < cfg.workers && q != p :: t.phases[q] == s.phases[q]
  {
    RunCarries(cfg, run);
    EveryRunIsSafe(cfg, run);
  }

  function Topics(ms: seq<Message>): (r: seq<bytes>) { seq(|ms|, i requires 0 <= i < |ms| => ms[i].topic) }

  function Contents(ms: seq<Message>): (r: seq<bytes>) { seq(|ms|, i requires 0 <= i < |ms| => ms[i].content) }

  /** All the text of some messages, laid end to end. */
  function Text(ms: seq<Message>): (r: bytes) { Concat(Topics(ms)) + Concat(Contents(ms)) }

  lemma TextSnoc(ms: seq<Message>, m: Message)
    ensures |Text(ms + [m])| == |Text(ms)| + |m.topic| + |m.content|
  {
    assert Topics(ms + [m]) == Topics(ms) + [m.topic];
    assert Contents(ms + [m]) == Contents(ms) + [m.content];
    ConcatSnoc(Topics(ms), m.topic);
    ConcatSnoc(Contents(ms), m.content);
  }

  lemma {:induction false} SpanIsText(log: seq<Message>, lo: nat, hi: nat)
    requires 1 <= lo <= hi <= |log| + 1
    ensures Span(log, lo, hi) == |Text(log[lo - 1..hi - 1])|
    decreases hi
  {
    if lo == hi {
      assert log[lo - 1..hi - 1] == [];
    } else {
      SpanIsText(log, lo, hi - 1);
      assert log[lo - 1..hi - 1] == log[lo - 1..hi - 2] + [log[hi - 2]];
      TextSnoc(log[lo - 1..hi - 2], log[hi - 2]);
    }
  }

  lemma SpanFrom(log: seq<Message>, freed: nat)
    requires freed <= |log|
    ensures Span(log, freed, |log| + 1) == |Text(log[if freed == 0 then 0 else freed - 1..])|
  {
    if freed == 0 {
      SpanIsText(log, 1, |log| + 1);
      SpanSplit(log, 0, 1, |log| + 1);
      assert Span(log, 0, 1) == Span(log, 0, 0) + NodeWeight(log, 0);
      assert log[0..|log|] == log[0..];
    } else {
      SpanIsText(log, freed, |log| + 1);
      assert log[freed - 1..|log|] == log[freed - 1..];
    }
  }

  /** Outside a free pass memory_usage is the length of all topics and contents in memory: those behind the head and
      the head's own, if it is not the sentinel any more. */
  lemma MemoryIsText(cfg: Config, run: seq<Action>)
    requires Exec(cfg, run).Some? && !Exec(cfg, run).value.collector.Freeing?
    ensures var s := Exec(cfg, run).value;
            s.freed <= |Put(run)| && s.memory == |Text(Put(run)[if s.freed == 0 then 0 else s.freed - 1..])|
  {
    RunCarries(cfg, run);
    MemoryIsSpan(cfg, run);
    SpanFrom(Put(run), Exec(cfg, run).value.freed);
  }

  lemma MemoryIsSpan(cfg: Config, run: seq<Action>)
    requires Exec(cfg, run).Some? && !Exec(cfg, run).value.collector.Freeing?
    ensures var s := Exec(cfg, run).value; s.freed <= |s.log| && s.memory == Span(s.log, s.freed, |s.log| + 1)
  {
    EveryRunIsSafe(cfg, run);
  }
}
