/** What clients are told and what each event does to whom, spelled out subscription by subscription. */
module Sessions {
  import opened Bytes
  import opened PubSub
  import opened Worker

  // ----- Confirmations -----

  lemma NotifySays(ix: Index, c: Id, kind: Kind, name: bytes)
    requires Exists(ix, c)
    ensures Notify(ix, c, kind, name) ==
            ix.(sent := ix.sent + [Notice(c, kind, name, |ix.topicsOf[c]| + |ix.patternsOf[c]|)])
  {}

  /** A SUBSCRIBE is answered name for name, in order, each answer with the number of subscriptions the client then
      has: its topics with the names so far, and its patterns. */
  function TopicAnswers(ix: Index, c: Id, argv: seq<bytes>, n: nat): (r: seq<Notice>)
    requires Exists(ix, c) && n <= |argv|
  {
    if n <= 1 then []
    else TopicAnswers(ix, c, argv, n - 1) + [Notice(c, Subscribed, argv[n - 1], |ix.topicsOf[c] + Named(argv, n)| + |ix.patternsOf[c]|)]
  }

  lemma TopicCount(ix: Index, c: Id, argv: seq<bytes>, n: nat, m: Index)
    requires Agree(ix) && SubscribedUpTo(ix, m, c, argv, n)
    ensures |m.topicsOf[c]| + |m.patternsOf[c]| == |ix.topicsOf[c] + Named(argv, n)| + |ix.patternsOf[c]|
  {
    SubscribeManyAgrees(ix, c, argv, n, m);
  }

  lemma NoTopicAnswer(ix: Index, c: Id, argv: seq<bytes>, n: nat, m: Index)
    requires SubscribedUpTo(ix, m, c, argv, n) && n <= 1
    ensures m.sent == ix.sent + TopicAnswers(ix, c, argv, n)
  {
    NothingAdded(ix.sent);
  }

  lemma {:induction false} SubscribeConfirms(ix: Index, c: Id, argv: seq<bytes>, n: nat, m: Index)
    requires Agree(ix) && SubscribedUpTo(ix, m, c, argv, n)
    ensures m.sent == ix.sent + TopicAnswers(ix, c, argv, n)
    decreases n
  {
    if n <= 1 {
      NoTopicAnswer(ix, c, argv, n, m);
    } else {
      var mid := SubscribeBack(ix, m, c, argv, n);
      SubscribeConfirms(ix, c, argv, n - 1, mid);
      TopicAnswered(ix, c, argv, n, mid, m);
    }
  }

  lemma TopicAnswered(ix: Index, c: Id, argv: seq<bytes>, n: nat, mid: Index, m: Index)
    requires Agree(ix) && 1 < n && SubscribedUpTo(ix, m, c, argv, n) && Exists(mid, c)
    requires m == Notify(AddTopic(mid, c, argv[n - 1]), c, Subscribed, argv[n - 1])
    requires mid.sent == ix.sent + TopicAnswers(ix, c, argv, n - 1)
    ensures m.sent == ix.sent + TopicAnswers(ix, c, argv, n)
  {
    TopicCount(ix, c, argv, n, m);
    TopicConfirmed(mid, m, c, argv[n - 1]);
    TopicAnswerMore(ix, c, argv, n, mid.sent, m.sent);
  }

  lemma TopicAnswerMore(ix: Index, c: Id, argv: seq<bytes>, n: nat, mid: seq<Notice>, sent: seq<Notice>)
    requires Exists(ix, c) && 1 < n <= |argv| && mid == ix.sent + TopicAnswers(ix, c, argv, n - 1)
    requires sent == mid + [Notice(c, Subscribed, argv[n - 1], |ix.topicsOf[c] + Named(argv, n)| + |ix.patternsOf[c]|)]
    ensures sent == ix.sent + TopicAnswers(ix, c, argv, n)
  {
    Assoc(ix.sent, TopicAnswers(ix, c, argv, n - 1), [Notice(c, Subscribed, argv[n - 1], |ix.topicsOf[c] + Named(argv, n)| + |ix.patternsOf[c]|)]);
  }

  lemma TopicConfirmed(mid: Index, m: Index, c: Id, name: bytes)
    requires Exists(mid, c) && m == Notify(AddTopic(mid, c, name), c, Subscribed, name)
    ensures Exists(m, c) && m.sent == mid.sent + [Notice(c, Subscribed, name, |m.topicsOf[c]| + |m.patternsOf[c]|)]
  {}

  /** A PSUBSCRIBE likewise. */
  function PatternAnswers(ix: Index, c: Id, argv: seq<bytes>, n: nat): (r: seq<Notice>)
    requires Exists(ix, c) && n <= |argv|
  {
    if n <= 1 then []
    else PatternAnswers(ix, c, argv, n - 1) + [Notice(c, PSubscribed, argv[n - 1], |ix.topicsOf[c]| + |ix.patternsOf[c] + Named(argv, n)|)]
  }

  lemma PatternCount(ix: Index, c: Id, argv: seq<bytes>, n: nat, m: Index)
    requires Agree(ix) && PSubscribedUpTo(ix, m, c, argv, n)
    ensures |m.topicsOf[c]| + |m.patternsOf[c]| == |ix.topicsOf[c]| + |ix.patternsOf[c] + Named(argv, n)|
  {
    PSubscribeManyAgrees(ix, c, argv, n, m);
  }

  lemma NoPatternAnswer(ix: Index, c: Id, argv: seq<bytes>, n: nat, m: Index)
    requires PSubscribedUpTo(ix, m, c, argv, n) && n <= 1
    ensures m.sent == ix.sent + PatternAnswers(ix, c, argv, n)
  {
    NothingAdded(ix.sent);
  }

  lemma {:induction false} PSubscribeConfirms(ix: Index, c: Id, argv: seq<bytes>, n: nat, m: Index)
    requires Agree(ix) && PSubscribedUpTo(ix, m, c, argv, n)
    ensures m.sent == ix.sent + PatternAnswers(ix, c, argv, n)
    decreases n
  {
    if n <= 1 {
      NoPatternAnswer(ix, c, argv, n, m);
    } else {
      var mid := PSubscribeBack(ix, m, c, argv, n);
      PSubscribeConfirms(ix, c, argv, n - 1, mid);
      PatternAnswered(ix, c, argv, n, mid, m);
    }
  }

  lemma PatternAnswered(ix: Index, c: Id, argv: seq<bytes>, n: nat, mid: Index, m: Index)
    requires Agree(ix) && 1 < n && PSubscribedUpTo(ix, m, c, argv, n) && Exists(mid, c)
    requires m == Notify(AddPattern(mid, c, argv[n - 1]), c, PSubscribed, argv[n - 1])
    requires mid.sent == ix.sent + PatternAnswers(ix, c, argv, n - 1)
    ensures m.sent == ix.sent + PatternAnswers(ix, c, argv, n)
  {
    PatternCount(ix, c, argv, n, m);
    PatternConfirmed(mid, m, c, argv[n - 1]);
    PatternAnswerMore(ix, c, argv, n, mid.sent, m.sent);
  }

  lemma PatternAnswerMore(ix: Index, c: Id, argv: seq<bytes>, n: nat, mid: seq<Notice>, sent: seq<Notice>)
    requires Exists(ix, c) && 1 < n <= |argv| && mid == ix.sent + PatternAnswers(ix, c, argv, n - 1)
    requires sent == mid + [Notice(c, PSubscribed, argv[n - 1], |ix.topicsOf[c]| + |ix.patternsOf[c] + Named(argv, n)|)]
    ensures sent == ix.sent + PatternAnswers(ix, c, argv, n)
  {
    Assoc(ix.sent, PatternAnswers(ix, c, argv, n - 1), [Notice(c, PSubscribed, argv[n - 1], |ix.topicsOf[c]| + |ix.patternsOf[c] + Named(argv, n)|)]);
  }

  lemma PatternConfirmed(mid: Index, m: Index, c: Id, name: bytes)
    requires Exists(mid, c) && m == Notify(AddPattern(mid, c, name), c, PSubscribed, name)
    ensures Exists(m, c) && m.sent == mid.sent + [Notice(c, PSubscribed, name, |m.topicsOf[c]| + |m.patternsOf[c]|)]
  {}

  /** The first answer a fresh client gets says 1, and so does the second, if it names the same topic again. */
  lemma FirstConfirmation(ix: Index, c: Id, argv: seq<bytes>)
    requires Agree(ix) && Exists(ix, c) && ix.topicsOf[c] == {} && ix.patternsOf[c] == {}
    requires |argv| == 3 && argv[1] == argv[2]
    ensures SubscribeMany(ix, c, argv, 3).sent == ix.sent + [Notice(c, Subscribed, argv[1], 1), Notice(c, Subscribed, argv[1], 1)]
  {
    SubscribeConfirms(ix, c, argv, 3, SubscribeMany(ix, c, argv, 3));
    TwoAnswers(ix, c, argv);
  }

  lemma TwoAnswers(ix: Index, c: Id, argv: seq<bytes>)
    requires Exists(ix, c) && ix.topicsOf[c] == {} && ix.patternsOf[c] == {} && |argv| == 3 && argv[1] == argv[2]
    ensures TopicAnswers(ix, c, argv, 3) == [Notice(c, Subscribed, argv[1], 1), Notice(c, Subscribed, argv[1], 1)]
  {
    OneName(argv);
    assert TopicAnswers(ix, c, argv, 2) == TopicAnswers(ix, c, argv, 1) + [Notice(c, Subscribed, argv[1], 1)];
  }

  lemma OneName(argv: seq<bytes>)
    requires |argv| == 3 && argv[1] == argv[2]
    ensures |{} + Named(argv, 2)| == 1 && |{} + Named(argv, 3)| == 1
  {
    assert {} + Named(argv, 2) == {argv[1]} && {} + Named(argv, 3) == {argv[1]};
  }

  /** What a command names. */
  lemma NamedIs(argv: seq<bytes>, u: bytes)
    ensures u in Named(argv, |argv|) <==> exists i :: 1 <= i < |argv| && argv[i] == u
  {}

  /** Clients are served in the order they subscribed in: a new one comes last, and the others keep their places. */
  lemma NewcomersAreLast(ix: Index, c: Id, name: bytes)
    requires Exists(ix, c)
    ensures name !in ix.topicsOf[c] ==>
              && DirectOffers(ListOf(AddTopic(ix, c, name), name)) == DirectOffers(ListOf(ix, name)) + [Direct(c)]
              && forall u | u != name :: ListOf(AddTopic(ix, c, name), u) == ListOf(ix, u)
    ensures name !in ix.patternsOf[c] ==> AddPattern(ix, c, name).patterns == ix.patterns + [(name, c)]
    ensures name in ix.topicsOf[c] ==> AddTopic(ix, c, name) == ix
    ensures name in ix.patternsOf[c] ==> AddPattern(ix, c, name) == ix
  {}

  // ----- Events -----

  predicate Asks(wanted: map<Id, set<bytes>>, d: Id, u: bytes) { d in wanted && u in wanted[d] }

  ghost predicate Names(argv: seq<bytes>, u: bytes) { exists i :: 1 <= i < |argv| && argv[i] == u }

  /** After a SUBSCRIBE a client wants what it wanted and, if it is the one that sent it and exists, what is named. */
  lemma AfterSubscribe(tb: Table, c: Id, argv: seq<bytes>, d: Id, u: bytes)
    ensures var t := Next(tb, Subscribe(c, argv));
      && (Asks(t.topics, d, u) <==> Asks(tb.topics, d, u) || (d == c && c in tb.topics && Names(argv, u)))
      && t.topics.Keys == tb.topics.Keys && t.patterns == tb.patterns && t.open == tb.open && t.closing == tb.closing
  {
    NamedIs(argv, u);
  }

  lemma AfterPSubscribe(tb: Table, c: Id, argv: seq<bytes>, d: Id, u: bytes)
    ensures var t := Next(tb, PSubscribe(c, argv));
      && (Asks(t.patterns, d, u) <==> Asks(tb.patterns, d, u) || (d == c && c in tb.patterns && Names(argv, u)))
      && t.patterns.Keys == tb.patterns.Keys && t.topics == tb.topics && t.open == tb.open && t.closing == tb.closing
  {
    NamedIs(argv, u);
  }

  /** After an UNSUBSCRIBE a client wants what it wanted, except, if it is the one that sent it, what is named, or
      anything at all if nothing is named. */
  lemma AfterUnSubscribe(tb: Table, c: Id, argv: seq<bytes>, d: Id, u: bytes)
    ensures var t := Next(tb, UnSubscribe(c, argv));
      && (Asks(t.topics, d, u) <==> Asks(tb.topics, d, u) && !(d == c && (|argv| <= 1 || Names(argv, u))))
      && t.topics.Keys == tb.topics.Keys && t.patterns == tb.patterns && t.open == tb.open && t.closing == tb.closing
  {
    NamedIs(argv, u);
  }

  lemma AfterPUnSubscribe(tb: Table, c: Id, argv: seq<bytes>, d: Id, u: bytes)
    ensures var t := Next(tb, PUnSubscribe(c, argv));
      && (Asks(t.patterns, d, u) <==> Asks(tb.patterns, d, u) && !(d == c && (|argv| <= 1 || Names(argv, u))))
      && t.patterns.Keys == tb.patterns.Keys && t.topics == tb.topics && t.open == tb.open && t.closing == tb.closing
  {
    NamedIs(argv, u);
  }

  /** A new client wants nothing; a creation that fails changes nothing. */
  lemma AfterConnect(tb: Table, c: Id, created: bool, d: Id, u: bytes)
    requires c !in tb.topics && c !in tb.patterns
    ensures var t := Next(tb, Connect(c, created));
      && (Asks(t.topics, d, u) <==> Asks(tb.topics, d, u)) && (Asks(t.patterns, d, u) <==> Asks(tb.patterns, d, u))
      && (d in t.topics <==> d in tb.topics || (created && d == c)) && (d in t.patterns <==> d in tb.patterns || (created && d == c))
      && (d in t.open <==> d in tb.open || (created && d == c)) && t.closing == tb.closing
  {}

  /** A closed client is gone at once, if it was open; everybody else stays and wants what it wanted. */
  lemma AfterClose(tb: Table, c: Id, d: Id, u: bytes)
    ensures var t := Next(tb, Close(c));
            var stays := d != c || c !in tb.open;
      && (Asks(t.topics, d, u) <==> Asks(tb.topics, d, u) && stays) && (Asks(t.patterns, d, u) <==> Asks(tb.patterns, d, u) && stays)
      && (d in t.topics <==> d in tb.topics && stays) && (d in t.open <==> d in tb.open && stays) && t.closing == tb.closing
  {}

  /** A client over its limit keeps its subscriptions until the cron, which deletes exactly the clients put off. */
  lemma AfterOverLimitAndCron(tb: Table, c: Id, d: Id, u: bytes)
    ensures var t := Next(tb, OverLimit(c));
      && t.topics == tb.topics && t.patterns == tb.patterns
      && (d in t.open <==> d in tb.open && d != c) && (d in t.closing <==> d in tb.closing || (d == c && c in tb.open))
    ensures var t := Next(tb, Cron);
      && (Asks(t.topics, d, u) <==> Asks(tb.topics, d, u) && d !in tb.closing)
      && (Asks(t.patterns, d, u) <==> Asks(tb.patterns, d, u) && d !in tb.closing)
      && (d in t.topics <==> d in tb.topics && d !in tb.closing) && t.open == tb.open && t.closing == {}
  {}
}
