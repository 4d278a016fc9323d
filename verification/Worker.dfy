/** The worker's handlers that change or use the subscription index, as the program runs them. */
module Worker {
  import opened Bytes
  import opened Glob
  import opened PubSub

  // ----- Whole commands -----

  /** SUBSCRIBE t1 t2 ..., up to the name before position n; argv[0] is the command itself. Each confirmation carries
      the count after its topic was added. */
  function SubscribeMany(ix: Index, c: Id, argv: seq<bytes>, n: nat): (m: Index)
    requires Exists(ix, c) && n <= |argv|
    ensures Exists(m, c)
  {
    if n <= 1 then ix
    else Notify(AddTopic(SubscribeMany(ix, c, argv, n - 1), c, argv[n - 1]), c, Subscribed, argv[n - 1])
  }

  function PSubscribeMany(ix: Index, c: Id, argv: seq<bytes>, n: nat): (m: Index)
    requires Exists(ix, c) && n <= |argv|
    ensures Exists(m, c)
  {
    if n <= 1 then ix
    else Notify(AddPattern(PSubscribeMany(ix, c, argv, n - 1), c, argv[n - 1]), c, PSubscribed, argv[n - 1])
  }

  /** UNSUBSCRIBE of one topic: the confirmation, if wanted, carries the count from before. */
  function Unsubscribe(ix: Index, c: Id, t: bytes, notify: bool): (n: Index)
    requires Exists(ix, c)
    ensures Exists(n, c)
  {
    DropTopic(if notify then Notify(ix, c, Unsubscribed, t) else ix, c, t)
  }

  function PUnsubscribe(ix: Index, c: Id, p: bytes, notify: bool): (n: Index)
    requires Exists(ix, c)
    ensures Exists(n, c)
  {
    DropPattern(if notify then Notify(ix, c, PUnsubscribed, p) else ix, c, p)
  }

  /** A client's destructor, after both of its sets were emptied. */
  function Gone(ix: Index, c: Id): (r: Index) { ix.(topicsOf := ix.topicsOf - {c}, patternsOf := ix.patternsOf - {c}) }

  lemma NotifyAgrees(ix: Index, c: Id, kind: Kind, name: bytes)
    requires Exists(ix, c)
    ensures TopicsAgree(ix) ==> TopicsAgree(Notify(ix, c, kind, name))
    ensures PatternsAgree(ix) ==> PatternsAgree(Notify(ix, c, kind, name))
    ensures ClientsAgree(ix) ==> ClientsAgree(Notify(ix, c, kind, name))
  {
    var n := Notify(ix, c, kind, name);
    if TopicsAgree(ix) { SameTopicSide(ix, n); }
    if PatternsAgree(ix) { SamePatternSide(ix, n); }
  }

  lemma SubscribeOneAgrees(ix: Index, c: Id, t: bytes)
    requires Agree(ix) && Exists(ix, c)
    ensures var n := Notify(AddTopic(ix, c, t), c, Subscribed, t);
      && Agree(n) && n.patternsOf == ix.patternsOf
      && forall d, u :: Wants(n, d, u) <==> Wants(ix, d, u) || (d == c && u == t)
  {
    var a := AddTopic(ix, c, t);
    AddTopicAgrees(ix, c, t);
    NotifyAgrees(a, c, Subscribed, t);
    forall d, u ensures Wants(Notify(a, c, Subscribed, t), d, u) == Wants(a, d, u) {}
  }

  lemma PSubscribeOneAgrees(ix: Index, c: Id, p: bytes)
    requires Agree(ix) && Exists(ix, c)
    ensures var n := Notify(AddPattern(ix, c, p), c, PSubscribed, p);
      && Agree(n) && n.topicsOf == ix.topicsOf
      && forall d, q :: PWants(n, d, q) <==> PWants(ix, d, q) || (d == c && q == p)
  {
    var a := AddPattern(ix, c, p);
    AddPatternAgrees(ix, c, p);
    NotifyAgrees(a, c, PSubscribed, p);
    forall d, q ensures PWants(Notify(a, c, PSubscribed, p), d, q) == PWants(a, d, q) {}
  }

  function SetOf<T(==)>(xs: seq<T>): set<T> { set x | x in xs }

  /** What a command names before position n: argv[0] is the command itself. */
  function Named(argv: seq<bytes>, n: nat): (r: set<bytes>)
    requires n <= |argv|
  {
    set i | 1 <= i < n :: argv[i]
  }

  /** Client c now has the first n names of argv too; nothing else about subscriptions or clients changed. */
  predicate TopicsGrew(ix: Index, m: Index, c: Id, argv: seq<bytes>, n: nat) {
    && Exists(ix, c) && n <= |argv| && SameClients(ix, m) && m.patternsOf == ix.patternsOf
    && m.topicsOf == ix.topicsOf[c := ix.topicsOf[c] + Named(argv, n)]
  }

  predicate PatternsGrew(ix: Index, m: Index, c: Id, argv: seq<bytes>, n: nat) {
    && Exists(ix, c) && n <= |argv| && SameClients(ix, m) && m.topicsOf == ix.topicsOf
    && m.patternsOf == ix.patternsOf[c := ix.patternsOf[c] + Named(argv, n)]
  }

  lemma NothingNamed(argv: seq<bytes>, n: nat, had: map<Id, set<bytes>>, c: Id)
    requires n <= |argv| && n <= 1 && c in had
    ensures had == had[c := had[c] + Named(argv, n)]
  {
    assert had[c] + Named(argv, n) == had[c];
  }

  lemma NothingGrew(ix: Index, c: Id, argv: seq<bytes>, n: nat)
    requires Exists(ix, c) && n <= |argv| && n <= 1
    ensures TopicsGrew(ix, ix, c, argv, n) && PatternsGrew(ix, ix, c, argv, n)
  {
    NothingNamed(argv, n, ix.topicsOf, c);
    NothingNamed(argv, n, ix.patternsOf, c);
  }

  lemma OneNamed(argv: seq<bytes>, n: nat, had: map<Id, set<bytes>>, mid: map<Id, set<bytes>>, after: map<Id, set<bytes>>, c: Id)
    requires 1 <= n < |argv| && c in had && mid == had[c := had[c] + Named(argv, n)]
    requires after == mid[c := mid[c] + {argv[n]}]
    ensures after == had[c := had[c] + Named(argv, n + 1)]
  {
    assert Named(argv, n + 1) == Named(argv, n) + {argv[n]};
    assert had[c] + Named(argv, n + 1) == had[c] + Named(argv, n) + {argv[n]};
  }

  lemma AddTopicGrows(ix: Index, c: Id, t: bytes)
    requires Exists(ix, c)
    ensures var m := Notify(AddTopic(ix, c, t), c, Subscribed, t);
      && m.topicsOf == ix.topicsOf[c := ix.topicsOf[c] + {t}] && m.patternsOf == ix.patternsOf && SameClients(ix, m)
  {
    if t in ix.topicsOf[c] { assert ix.topicsOf[c] + {t} == ix.topicsOf[c]; }
  }

  lemma AddPatternGrows(ix: Index, c: Id, p: bytes)
    requires Exists(ix, c)
    ensures var m := Notify(AddPattern(ix, c, p), c, PSubscribed, p);
      && m.patternsOf == ix.patternsOf[c := ix.patternsOf[c] + {p}] && m.topicsOf == ix.topicsOf && SameClients(ix, m)
  {
    if p in ix.patternsOf[c] { assert ix.patternsOf[c] + {p} == ix.patternsOf[c]; }
  }

  predicate SubscribedUpTo(ix: Index, m: Index, c: Id, argv: seq<bytes>, n: nat) {
    Exists(ix, c) && n <= |argv| && m == SubscribeMany(ix, c, argv, n)
  }

  lemma SubscribeBack(ix: Index, m: Index, c: Id, argv: seq<bytes>, n: nat) returns (mid: Index)
    requires 1 < n <= |argv| && SubscribedUpTo(ix, m, c, argv, n)
    ensures SubscribedUpTo(ix, mid, c, argv, n - 1) && Exists(mid, c)
    ensures m == Notify(AddTopic(mid, c, argv[n - 1]), c, Subscribed, argv[n - 1])
  {
    mid := SubscribeMany(ix, c, argv, n - 1);
  }

  /** Subscribing adds exactly the named topics to exactly this client. */
  lemma {:induction false} SubscribeManyAgrees(ix: Index, c: Id, argv: seq<bytes>, n: nat, m: Index)
    requires Agree(ix) && SubscribedUpTo(ix, m, c, argv, n)
    ensures Agree(m) && TopicsGrew(ix, m, c, argv, n)
    decreases n
  {
    if n <= 1 {
      NothingGrew(ix, c, argv, n);
    } else {
      var mid := SubscribeBack(ix, m, c, argv, n);
      SubscribeManyAgrees(ix, c, argv, n - 1, mid);
      OneTopicMore(ix, mid, m, c, argv, n);
    }
  }

  lemma OneTopicMore(ix: Index, mid: Index, m: Index, c: Id, argv: seq<bytes>, n: nat)
    requires 1 < n <= |argv| && Agree(mid) && Exists(mid, c) && TopicsGrew(ix, mid, c, argv, n - 1)
    requires m == Notify(AddTopic(mid, c, argv[n - 1]), c, Subscribed, argv[n - 1])
    ensures Agree(m) && TopicsGrew(ix, m, c, argv, n)
  {
    SubscribeOneAgrees(mid, c, argv[n - 1]);
    AddTopicGrows(mid, c, argv[n - 1]);
    OneNamed(argv, n - 1, ix.topicsOf, mid.topicsOf, m.topicsOf, c);
  }

  predicate PSubscribedUpTo(ix: Index, m: Index, c: Id, argv: seq<bytes>, n: nat) {
    Exists(ix, c) && n <= |argv| && m == PSubscribeMany(ix, c, argv, n)
  }

  lemma PSubscribeBack(ix: Index, m: Index, c: Id, argv: seq<bytes>, n: nat) returns (mid: Index)
    requires 1 < n <= |argv| && PSubscribedUpTo(ix, m, c, argv, n)
    ensures PSubscribedUpTo(ix, mid, c, argv, n - 1) && Exists(mid, c)
    ensures m == Notify(AddPattern(mid, c, argv[n - 1]), c, PSubscribed, argv[n - 1])
  {
    mid := PSubscribeMany(ix, c, argv, n - 1);
  }

  /** Likewise for patterns. */
  lemma {:induction false} PSubscribeManyAgrees(ix: Index, c: Id, argv: seq<bytes>, n: nat, m: Index)
    requires Agree(ix) && PSubscribedUpTo(ix, m, c, argv, n)
    ensures Agree(m) && PatternsGrew(ix, m, c, argv, n)
    decreases n
  {
    if n <= 1 {
      NothingGrew(ix, c, argv, n);
    } else {
      var mid := PSubscribeBack(ix, m, c, argv, n);
      PSubscribeManyAgrees(ix, c, argv, n - 1, mid);
      OnePatternMore(ix, mid, m, c, argv, n);
    }
  }

  lemma OnePatternMore(ix: Index, mid: Index, m: Index, c: Id, argv: seq<bytes>, n: nat)
    requires 1 < n <= |argv| && Agree(mid) && Exists(mid, c) && PatternsGrew(ix, mid, c, argv, n - 1)
    requires m == Notify(AddPattern(mid, c, argv[n - 1]), c, PSubscribed, argv[n - 1])
    ensures Agree(m) && PatternsGrew(ix, m, c, argv, n)
  {
    PSubscribeOneAgrees(mid, c, argv[n - 1]);
    AddPatternGrows(mid, c, argv[n - 1]);
    OneNamed(argv, n - 1, ix.patternsOf, mid.patternsOf, m.patternsOf, c);
  }

  lemma UnsubscribeAgrees(ix: Index, c: Id, t: bytes, notify: bool)
    requires TopicsAgree(ix) && PatternsAgree(ix) && Exists(ix, c)
    ensures var n := Unsubscribe(ix, c, t, notify);
      && TopicsAgree(n) && PatternsAgree(n) && SameClients(ix, n)
      && n.topicsOf == ix.topicsOf[c := ix.topicsOf[c] - {t}] && n.patternsOf == ix.patternsOf
  {
    var a := if notify then Notify(ix, c, Unsubscribed, t) else ix;
    NotifyAgrees(ix, c, Unsubscribed, t);
    DropTopicAgrees(a, c, t);
    if t !in ix.topicsOf[c] { assert ix.topicsOf[c] - {t} == ix.topicsOf[c]; }
  }

  /** What is sent, if anything. */
  function Said(notify: bool, x: Notice): (r: seq<Notice>) { if notify then [x] else [] }

  /** The confirmations for some names that go one after the other, with the counts from before each. */
  function Dismissals(c: Id, kind: Kind, names: seq<bytes>, total: nat): (r: seq<Notice>)
    requires |names| <= total
  {
    seq(|names|, i requires 0 <= i < |names| => Notice(c, kind, names[i], total - i))
  }

  /** The names are all of the set, each once, in some order. */
  predicate Lists(names: seq<bytes>, all: set<bytes>) { SetOf(names) == all && |names| == |all| }

  lemma ChangedTwice(had: map<Id, set<bytes>>, mid: map<Id, set<bytes>>, after: map<Id, set<bytes>>, c: Id, now: set<bytes>)
    requires c in had && c in mid && mid == had[c := mid[c]] && after == mid[c := now]
    ensures after == had[c := now] && after[c] == now
  {}

  /** Some of what there was has gone, and `left` is left. */
  predicate Leaving(names: seq<bytes>, left: set<bytes>, all: set<bytes>) {
    SetOf(names) + left == all && |names| + |left| == |all|
  }

  lemma LeaveOne(names: seq<bytes>, left: set<bytes>, all: set<bytes>, t: bytes)
    requires Leaving(names, left, all) && t in left
    ensures Leaving(names + [t], left - {t}, all)
  {
    assert |left - {t}| == |left| - 1;
    assert SetOf(names + [t]) == SetOf(names) + {t};
    assert SetOf(names) + {t} + (left - {t}) == SetOf(names) + left;
  }

  lemma DismissOne(c: Id, kind: Kind, names: seq<bytes>, total: nat, t: bytes, count: nat, before: seq<Notice>, mid: seq<Notice>, after: seq<Notice>, notify: bool)
    requires |names| < total && count == total - |names|
    requires mid == before + If(notify, Dismissals(c, kind, names, total)) && after == mid + Said(notify, Notice(c, kind, t, count))
    ensures after == before + If(notify, Dismissals(c, kind, names + [t], total))
  {
    var d, x := Dismissals(c, kind, names, total), Notice(c, kind, t, count);
    assert Dismissals(c, kind, names + [t], total) == d + [x];
    Assoc(before, d, [x]);
    NothingAdded(before);
  }

  /** The confirmations for the names before position n of a command: each count is taken before that name's removal. */
  function NamedNotices(c: Id, kind: Kind, argv: seq<bytes>, n: nat, had: set<bytes>, others: nat): (r: seq<Notice>)
    requires n <= |argv|
  {
    if n <= 1 then []
    else NamedNotices(c, kind, argv, n - 1, had, others) + [Notice(c, kind, argv[n - 1], |had - Named(argv, n - 1)| + others)]
  }

  function If(notify: bool, xs: seq<Notice>): (r: seq<Notice>) { if notify then xs else [] }

  lemma PUnsubscribeAgrees(ix: Index, c: Id, p: bytes, notify: bool)
    requires TopicsAgree(ix) && PatternsAgree(ix) && Exists(ix, c)
    ensures var n := PUnsubscribe(ix, c, p, notify);
      && TopicsAgree(n) && PatternsAgree(n) && SameClients(ix, n)
      && n.patternsOf == ix.patternsOf[c := ix.patternsOf[c] - {p}] && n.topicsOf == ix.topicsOf
  {
    var a := if notify then Notify(ix, c, PUnsubscribed, p) else ix;
    NotifyAgrees(ix, c, PUnsubscribed, p);
    DropPatternAgrees(a, c, p);
    if p !in ix.patternsOf[c] { assert ix.patternsOf[c] - {p} == ix.patternsOf[c]; }
  }

  predicate SameClients(ix: Index, n: Index) {
    && n.clients == ix.clients && n.closing == ix.closing
    && n.topicsOf.Keys == ix.topicsOf.Keys && n.patternsOf.Keys == ix.patternsOf.Keys
  }

  /** A client with nothing subscribed leaves no trace when it goes. */
  lemma GoneAgrees(ix: Index, c: Id)
    requires TopicsAgree(ix) && PatternsAgree(ix) && Exists(ix, c) && ix.topicsOf[c] == {} && ix.patternsOf[c] == {}
    ensures TopicsAgree(Gone(ix, c)) && PatternsAgree(Gone(ix, c))
  {
    var n := Gone(ix, c);
    forall u, d ensures Listed(n, u, d) == if Wants(n, d, u) then 1 else 0 {
      assert Listed(ix, u, d) == if Wants(ix, d, u) then 1 else 0;
    }
    forall p, d ensures PListed(n, p, d) == if PWants(n, d, p) then 1 else 0 {
      assert PListed(ix, p, d) == if PWants(ix, d, p) then 1 else 0;
    }
  }

  lemma {:induction false} FirstAt<T>(xs: seq<T>, x: T, i: nat)
    requires i < |xs| && xs[i] == x && x !in xs[..i]
    ensures RemoveFirst(xs, x) == xs[..i] + xs[i + 1..]
  {
    if i > 0 {
      assert xs[0] == xs[..i][0] && xs[1..][..i - 1] == xs[..i][1..];
      FirstAt(xs[1..], x, i - 1);
      assert xs[..i] + xs[i + 1..] == [xs[0]] + (xs[1..][..i - 1] + xs[1..][i..]);
    }
  }

  lemma SetOfSnoc<T>(xs: seq<T>, i: nat)
    requires i < |xs|
    ensures SetOf(xs[..i + 1]) == SetOf(xs[..i]) + {xs[i]}
  {
    assert xs[..i + 1] == xs[..i] + [xs[i]];
  }

  lemma NamedNone(argv: seq<bytes>, had: map<Id, set<bytes>>, c: Id)
    requires argv != [] && c in had
    ensures had == had[c := had[c] - Named(argv, 1)]
  {
    assert had[c] - Named(argv, 1) == had[c];
  }

  lemma NamedNext(argv: seq<bytes>, i: nat, had: set<bytes>)
    requires 1 <= i < |argv|
    ensures had - Named(argv, i + 1) == had - Named(argv, i) - {argv[i]}
  {
    assert Named(argv, i + 1) == Named(argv, i) + {argv[i]};
  }

  lemma TopicIsListed(ix: Index, c: Id, t: bytes)
    requires TopicsAgree(ix) && Exists(ix, c) && t in ix.topicsOf[c]
    ensures t in ix.byTopic
  {
    assert Listed(ix, t, c) == if Wants(ix, c, t) then 1 else 0;
  }

  lemma PatternIsListed(ix: Index, c: Id, p: bytes)
    requires PatternsAgree(ix) && Exists(ix, c) && p in ix.patternsOf[c]
    ensures (p, c) in ix.patterns
  {
    assert PListed(ix, p, c) == if PWants(ix, c, p) then 1 else 0;
  }

  lemma FurtherOn<T>(xs: seq<T>, x: T, i: nat)
    requires i < |xs| && x in xs && x !in xs[..i] && xs[i] != x
    ensures i + 1 < |xs| && x !in xs[..i + 1]
  {
    assert xs[..i + 1] == xs[..i] + [xs[i]];
    assert xs == xs[..i + 1] + xs[i + 1..];
  }

  // ----- Clients come and go -----

  function Connected(ix: Index, c: Id): (r: Index) {
    ix.(topicsOf := ix.topicsOf[c := {}], patternsOf := ix.patternsOf[c := {}], clients := ix.clients + [c])
  }

  lemma ConnectedAgrees(ix: Index, c: Id)
    requires Agree(ix) && c !in ix.topicsOf
    ensures Agree(Connected(ix, c))
  {
    var n := Connected(ix, c);
    forall u, d ensures Listed(n, u, d) == if Wants(n, d, u) then 1 else 0 {
      assert Listed(ix, u, d) == if Wants(ix, d, u) then 1 else 0;
    }
    forall p, d ensures PListed(n, p, d) == if PWants(n, d, p) then 1 else 0 {
      assert PListed(ix, p, d) == if PWants(ix, d, p) then 1 else 0;
    }
    assert multiset(n.clients + n.closing) == multiset(ix.clients + ix.closing) + multiset{c};
  }

  /** Moved from the clients to those that are to be closed. */
  function Postponed(ix: Index, c: Id): (r: Index) { ix.(clients := RemoveAll(ix.clients, c), closing := ix.closing + [c]) }

  lemma PostponedAgrees(ix: Index, c: Id)
    requires Agree(ix) && c in ix.clients
    ensures Agree(Postponed(ix, c))
  {
    var n := Postponed(ix, c);
    SameTopicSide(ix, n);
    SamePatternSide(ix, n);
    ClientsExist(ix, c);
    forall d ensures multiset(n.clients + n.closing)[d] == if d in n.topicsOf then 1 else 0 {
      RemoveAllCount(ix.clients, c, d);
      Tally(ix, d);
      assert multiset(n.clients + n.closing) == multiset(n.clients) + multiset(ix.closing) + multiset{c};
    }
  }

  /** How often a client is in the two lists. */
  lemma Tally(ix: Index, d: Id)
    requires ClientsAgree(ix)
    ensures multiset(ix.clients)[d] + multiset(ix.closing)[d] == if d in ix.topicsOf then 1 else 0
    ensures d in ix.clients <==> multiset(ix.clients)[d] > 0
    ensures d in ix.closing <==> multiset(ix.closing)[d] > 0
  {
    assert multiset(ix.clients + ix.closing) == multiset(ix.clients) + multiset(ix.closing);
    assert multiset(ix.clients + ix.closing)[d] == if d in ix.topicsOf then 1 else 0;
  }

  /** The clients in `done` are deleted; the lists are as they were. */
  ghost predicate Reaping(was: Index, ix: Index, done: seq<Id>) {
    && TopicsAgree(ix) && PatternsAgree(ix) && ix.clients == was.clients && ix.closing == was.closing
    && ix.topicsOf == was.topicsOf - SetOf(done) && ix.patternsOf == was.patternsOf - SetOf(done)
  }

  lemma ReapingNext(was: Index, ix: Index, n: Index, done: seq<Id>, c: Id, more: seq<Id>)
    requires Reaping(was, ix, done) && SetOf(more) == SetOf(done) + {c} && TopicsAgree(n) && PatternsAgree(n)
    requires n.topicsOf == ix.topicsOf - {c} && n.patternsOf == ix.patternsOf - {c}
    requires n.clients == ix.clients && n.closing == ix.closing
    ensures Reaping(was, n, more)
  {}

  lemma ClosingOnce(ix: Index, i: nat)
    requires ClientsAgree(ix) && i < |ix.closing|
    ensures Exists(ix, ix.closing[i]) && ix.closing[i] !in SetOf(ix.closing[..i])
  {
    var c, before := ix.closing[i], ix.closing[..i];
    assert c in SetOf(before) <==> multiset(before)[c] > 0;
    Tally(ix, c);
    assert ix.closing == ix.closing[..i] + [c] + ix.closing[i + 1..];
    assert multiset(ix.closing) == multiset(ix.closing[..i]) + multiset{c} + multiset(ix.closing[i + 1..]);
  }

  lemma ReapedAgrees(was: Index, ix: Index, n: Index)
    requires ClientsAgree(was) && Reaping(was, ix, was.closing) && n == ix.(closing := [])
    ensures Agree(n) && forall d :: d in n.topicsOf <==> d in n.clients
  {
    SameTopicSide(ix, n);
    SamePatternSide(ix, n);
    NothingAdded(n.clients);
    forall d ensures multiset(n.clients)[d] == (if d in n.topicsOf then 1 else 0) && (d in n.topicsOf <==> d in n.clients) {
      Tally(was, d);
    }
  }

  // ----- What a whole run amounts to -----

  /** What reaches a worker: connections, commands of its clients, and its cron. */
  datatype Event =
    | Connect(c: Id, created: bool)
    | Subscribe(c: Id, argv: seq<bytes>)
    | PSubscribe(c: Id, argv: seq<bytes>)
    | UnSubscribe(c: Id, argv: seq<bytes>)
    | PUnSubscribe(c: Id, argv: seq<bytes>)
    | Close(c: Id)
    | OverLimit(c: Id)
    | Cron

  /** Who asked for what, and who is open or about to be closed: all that the index is about. */
  datatype Table = Table(topics: map<Id, set<bytes>>, patterns: map<Id, set<bytes>>, open: set<Id>, closing: set<Id>)

  function TableOf(ix: Index): (r: Table) { Table(ix.topicsOf, ix.patternsOf, SetOf(ix.clients), SetOf(ix.closing)) }

  function Changed(had: map<Id, set<bytes>>, c: Id, wants: set<bytes>): (r: map<Id, set<bytes>>) {
    if c in had then had[c := wants] else had
  }

  function Asked(had: map<Id, set<bytes>>, c: Id): (r: set<bytes>) { if c in had then had[c] else {} }

  function Next(tb: Table, e: Event): (r: Table) {
    match e
    case Connect(c, created) =>
      if !created || c in tb.topics then tb
      else Table(tb.topics[c := {}], tb.patterns[c := {}], tb.open + {c}, tb.closing)
    case Subscribe(c, argv) => tb.(topics := Changed(tb.topics, c, Asked(tb.topics, c) + Named(argv, |argv|)))
    case PSubscribe(c, argv) => tb.(patterns := Changed(tb.patterns, c, Asked(tb.patterns, c) + Named(argv, |argv|)))
    case UnSubscribe(c, argv) =>
      tb.(topics := Changed(tb.topics, c, if |argv| > 1 then Asked(tb.topics, c) - Named(argv, |argv|) else {}))
    case PUnSubscribe(c, argv) =>
      tb.(patterns := Changed(tb.patterns, c, if |argv| > 1 then Asked(tb.patterns, c) - Named(argv, |argv|) else {}))
    case Close(c) =>
      if c !in tb.open then tb else Table(tb.topics - {c}, tb.patterns - {c}, tb.open - {c}, tb.closing)
    case OverLimit(c) => if c !in tb.open then tb else tb.(open := tb.open - {c}, closing := tb.closing + {c})
    case Cron => Table(tb.topics - tb.closing, tb.patterns - tb.closing, tb.open, {})
  }

  function Run(tb: Table, events: seq<Event>): (r: Table) {
    if events == [] then tb else Next(Run(tb, events[..|events| - 1]), events[|events| - 1])
  }

  lemma RemovedFirst(xs: seq<Id>, x: Id)
    requires multiset(xs)[x] <= 1
    ensures SetOf(RemoveFirst(xs, x)) == SetOf(xs) - {x}
  {
    forall y ensures y in SetOf(RemoveFirst(xs, x)) <==> y in SetOf(xs) - {x} {
      RemoveFirstCount(xs, x, y);
      assert y in RemoveFirst(xs, x) <==> multiset(RemoveFirst(xs, x))[y] > 0;
      assert y in xs <==> multiset(xs)[y] > 0;
    }
  }

  lemma RemovedAll(xs: seq<Id>, x: Id)
    ensures SetOf(RemoveAll(xs, x)) == SetOf(xs) - {x}
  {
    forall y ensures y in SetOf(RemoveAll(xs, x)) <==> y in SetOf(xs) - {x} {
      RemoveAllCount(xs, x, y);
      assert y in RemoveAll(xs, x) <==> multiset(RemoveAll(xs, x))[y] > 0;
      assert y in xs <==> multiset(xs)[y] > 0;
    }
  }

  lemma OneMore(xs: seq<Id>, x: Id)
    ensures SetOf(xs + [x]) == SetOf(xs) + {x}
  {
    assert (xs + [x])[..|xs|] == xs && (xs + [x])[..|xs| + 1] == xs + [x];
    SetOfSnoc(xs + [x], |xs|);
  }

  lemma PutOff(ix: Index, n: Index, c: Id)
    requires n.topicsOf == ix.topicsOf && n.patternsOf == ix.patternsOf
    requires c in ix.clients ==> n.clients == RemoveAll(ix.clients, c) && n.closing == ix.closing + [c]
    requires c !in ix.clients ==> n == ix
    ensures TableOf(n) == Next(TableOf(ix), OverLimit(c))
  {
    RemovedAll(ix.clients, c);
    OneMore(ix.closing, c);
  }

  lemma SubscribeNext(ix: Index, mid: Index, m: Index, c: Id, argv: seq<bytes>, n: nat)
    requires 1 < n <= |argv| && SubscribedUpTo(ix, mid, c, argv, n - 1)
    requires m == Notify(AddTopic(mid, c, argv[n - 1]), c, Subscribed, argv[n - 1])
    ensures SubscribedUpTo(ix, m, c, argv, n)
  {}

  lemma PSubscribeNext(ix: Index, mid: Index, m: Index, c: Id, argv: seq<bytes>, n: nat)
    requires 1 < n <= |argv| && PSubscribedUpTo(ix, mid, c, argv, n - 1)
    requires m == Notify(AddPattern(mid, c, argv[n - 1]), c, PSubscribed, argv[n - 1])
    ensures PSubscribedUpTo(ix, m, c, argv, n)
  {}

  /** One topic of client c is gone, with a confirmation if wanted; the index still agrees and nothing else changed. */
  ghost predicate TopicGone(ix: Index, n: Index, c: Id, name: bytes, notify: bool) {
    && TopicsAgree(n) && PatternsAgree(n) && Exists(ix, c) && SameClients(ix, n)
    && n.topicsOf == ix.topicsOf[c := ix.topicsOf[c] - {name}] && n.patternsOf == ix.patternsOf
    && n.sent == ix.sent + Said(notify, Notice(c, Unsubscribed, name, |ix.topicsOf[c]| + |ix.patternsOf[c]|))
  }

  /** In the middle of removing all topics of a client. */
  ghost predicate TopicsLeaving(ix: Index, n: Index, c: Id, names: seq<bytes>, notify: bool) {
    && TopicsAgree(n) && PatternsAgree(n) && Exists(ix, c) && Exists(n, c) && SameClients(ix, n)
    && n.topicsOf == ix.topicsOf[c := n.topicsOf[c]] && n.patternsOf == ix.patternsOf
    && Leaving(names, n.topicsOf[c], ix.topicsOf[c])
    && n.sent == ix.sent + If(notify, Dismissals(c, Unsubscribed, names, |ix.topicsOf[c]| + |ix.patternsOf[c]|))
  }

  lemma TopicsStay(ix: Index, c: Id, notify: bool)
    requires TopicsAgree(ix) && PatternsAgree(ix) && Exists(ix, c)
    ensures TopicsLeaving(ix, ix, c, [], notify)
  {
    NothingAdded(ix.sent);
  }

  /** One of them goes. */
  lemma TopicLeaves(ix: Index, mid: Index, n: Index, c: Id, names: seq<bytes>, t: bytes, notify: bool)
    requires TopicsLeaving(ix, mid, c, names, notify) && t in mid.topicsOf[c]
    requires TopicGone(mid, n, c, t, notify)
    ensures TopicsLeaving(ix, n, c, names + [t], notify)
  {
    LeaveOne(names, mid.topicsOf[c], ix.topicsOf[c], t);
    ChangedTwice(ix.topicsOf, mid.topicsOf, n.topicsOf, c, mid.topicsOf[c] - {t});
    var total, count := |ix.topicsOf[c]| + |ix.patternsOf[c]|, |mid.topicsOf[c]| + |mid.patternsOf[c]|;
    DismissOne(c, Unsubscribed, names, total, t, count, ix.sent, mid.sent, n.sent, notify);
  }

  /** In the middle of removing the topics that a command names. */
  ghost predicate TopicsNamed(ix: Index, n: Index, c: Id, argv: seq<bytes>, i: nat, notify: bool) {
    && TopicsAgree(n) && PatternsAgree(n) && Exists(ix, c) && Exists(n, c) && SameClients(ix, n) && i <= |argv|
    && n.topicsOf == ix.topicsOf[c := ix.topicsOf[c] - Named(argv, i)] && n.patternsOf == ix.patternsOf
    && n.sent == ix.sent + If(notify, NamedNotices(c, Unsubscribed, argv, i, ix.topicsOf[c], |ix.patternsOf[c]|))
  }

  lemma TopicsUnnamed(ix: Index, c: Id, argv: seq<bytes>, notify: bool)
    requires TopicsAgree(ix) && PatternsAgree(ix) && Exists(ix, c) && argv != []
    ensures TopicsNamed(ix, ix, c, argv, 1, notify)
  {
    NamedNone(argv, ix.topicsOf, c);
    NothingAdded(ix.sent);
  }

  lemma TopicsNamedOn(ix: Index, mid: Index, n: Index, c: Id, argv: seq<bytes>, i: nat, notify: bool)
    requires 1 <= i < |argv| && TopicsNamed(ix, mid, c, argv, i, notify)
    requires TopicGone(mid, n, c, argv[i], notify)
    ensures TopicsNamed(ix, n, c, argv, i + 1, notify)
  {
    ChangedTwice(ix.topicsOf, mid.topicsOf, n.topicsOf, c, mid.topicsOf[c] - {argv[i]});
    NamedNext(argv, i, ix.topicsOf[c]);
    var x := Notice(c, Unsubscribed, argv[i], |mid.topicsOf[c]| + |mid.patternsOf[c]|);
    Assoc(ix.sent, NamedNotices(c, Unsubscribed, argv, i, ix.topicsOf[c], |ix.patternsOf[c]|), [x]);
    NothingAdded(ix.sent);
  }

  /** One pattern of client c is gone, with a confirmation if wanted; the index still agrees and nothing else changed. */
  ghost predicate PatternGone(ix: Index, n: Index, c: Id, name: bytes, notify: bool) {
    && TopicsAgree(n) && PatternsAgree(n) && Exists(ix, c) && SameClients(ix, n)
    && n.patternsOf == ix.patternsOf[c := ix.patternsOf[c] - {name}] && n.topicsOf == ix.topicsOf
    && n.sent == ix.sent + Said(notify, Notice(c, PUnsubscribed, name, |ix.topicsOf[c]| + |ix.patternsOf[c]|))
  }

  /** In the middle of removing all patterns of a client. */
  ghost predicate PatternsLeaving(ix: Index, n: Index, c: Id, names: seq<bytes>, notify: bool) {
    && TopicsAgree(n) && PatternsAgree(n) && Exists(ix, c) && Exists(n, c) && SameClients(ix, n)
    && n.patternsOf == ix.patternsOf[c := n.patternsOf[c]] && n.topicsOf == ix.topicsOf
    && Leaving(names, n.patternsOf[c], ix.patternsOf[c])
    && n.sent == ix.sent + If(notify, Dismissals(c, PUnsubscribed, names, |ix.topicsOf[c]| + |ix.patternsOf[c]|))
  }

  lemma PatternsStay(ix: Index, c: Id, notify: bool)
    requires TopicsAgree(ix) && PatternsAgree(ix) && Exists(ix, c)
    ensures PatternsLeaving(ix, ix, c, [], notify)
  {
    NothingAdded(ix.sent);
  }

  /** One of them goes. */
  lemma PatternLeaves(ix: Index, mid: Index, n: Index, c: Id, names: seq<bytes>, t: bytes, notify: bool)
    requires PatternsLeaving(ix, mid, c, names, notify) && t in mid.patternsOf[c]
    requires PatternGone(mid, n, c, t, notify)
    ensures PatternsLeaving(ix, n, c, names + [t], notify)
  {
    LeaveOne(names, mid.patternsOf[c], ix.patternsOf[c], t);
    ChangedTwice(ix.patternsOf, mid.patternsOf, n.patternsOf, c, mid.patternsOf[c] - {t});
    var total, count := |ix.topicsOf[c]| + |ix.patternsOf[c]|, |mid.topicsOf[c]| + |mid.patternsOf[c]|;
    DismissOne(c, PUnsubscribed, names, total, t, count, ix.sent, mid.sent, n.sent, notify);
  }

  /** In the middle of removing the patterns that a command names. */
  ghost predicate PatternsNamed(ix: Index, n: Index, c: Id, argv: seq<bytes>, i: nat, notify: bool) {
    && TopicsAgree(n) && PatternsAgree(n) && Exists(ix, c) && Exists(n, c) && SameClients(ix, n) && i <= |argv|
    && n.patternsOf == ix.patternsOf[c := ix.patternsOf[c] - Named(argv, i)] && n.topicsOf == ix.topicsOf
    && n.sent == ix.sent + If(notify, NamedNotices(c, PUnsubscribed, argv, i, ix.patternsOf[c], |ix.topicsOf[c]|))
  }

  lemma PatternsUnnamed(ix: Index, c: Id, argv: seq<bytes>, notify: bool)
    requires TopicsAgree(ix) && PatternsAgree(ix) && Exists(ix, c) && argv != []
    ensures PatternsNamed(ix, ix, c, argv, 1, notify)
  {
    NamedNone(argv, ix.patternsOf, c);
    NothingAdded(ix.sent);
  }

  lemma PatternsNamedOn(ix: Index, mid: Index, n: Index, c: Id, argv: seq<bytes>, i: nat, notify: bool)
    requires 1 <= i < |argv| && PatternsNamed(ix, mid, c, argv, i, notify)
    requires PatternGone(mid, n, c, argv[i], notify)
    ensures PatternsNamed(ix, n, c, argv, i + 1, notify)
  {
    ChangedTwice(ix.patternsOf, mid.patternsOf, n.patternsOf, c, mid.patternsOf[c] - {argv[i]});
    NamedNext(argv, i, ix.patternsOf[c]);
    var x := Notice(c, PUnsubscribed, argv[i], |mid.topicsOf[c]| + |mid.patternsOf[c]|);
    Assoc(ix.sent, NamedNotices(c, PUnsubscribed, argv, i, ix.patternsOf[c], |ix.topicsOf[c]|), [x]);
    NothingAdded(ix.sent);
  }

  /** An unsubscribe confirmation says how many subscriptions are left if and only if there was nothing to remove:
      the count is taken before the removal. */
  lemma TopicCountIsRightIff(ix: Index, n: Index, c: Id, t: bytes)
    requires TopicGone(ix, n, c, t, true)
    ensures n.sent == ix.sent + [Notice(c, Unsubscribed, t, |ix.topicsOf[c]| + |ix.patternsOf[c]|)]
    ensures n.sent[|ix.sent|].count == |n.topicsOf[c]| + |n.patternsOf[c]| <==> t !in ix.topicsOf[c]
  {
    var had := ix.topicsOf[c];
    if t in had { assert |had - {t}| == |had| - 1; } else { assert had - {t} == had; }
  }

  lemma PatternCountIsRightIff(ix: Index, n: Index, c: Id, p: bytes)
    requires PatternGone(ix, n, c, p, true)
    ensures n.sent == ix.sent + [Notice(c, PUnsubscribed, p, |ix.topicsOf[c]| + |ix.patternsOf[c]|)]
    ensures n.sent[|ix.sent|].count == |n.topicsOf[c]| + |n.patternsOf[c]| <==> p !in ix.patternsOf[c]
  {
    var had := ix.patternsOf[c];
    if p in had { assert |had - {p}| == |had| - 1; } else { assert had - {p} == had; }
  }

  lemma UnsubscribedTopic(ix: Index, c: Id, t: bytes, notify: bool)
    requires TopicsAgree(ix) && PatternsAgree(ix) && Exists(ix, c)
    ensures TopicGone(ix, Unsubscribe(ix, c, t, notify), c, t, notify)
  {
    UnsubscribeAgrees(ix, c, t, notify);
    UnsubscribeSays(ix, c, t, notify);
  }

  lemma UnsubscribeSays(ix: Index, c: Id, t: bytes, notify: bool)
    requires Exists(ix, c)
    ensures Unsubscribe(ix, c, t, notify).sent ==
            ix.sent + Said(notify, Notice(c, Unsubscribed, t, |ix.topicsOf[c]| + |ix.patternsOf[c]|))
  {
    NothingAdded(ix.sent);
  }

  lemma UnsubscribedPattern(ix: Index, c: Id, p: bytes, notify: bool)
    requires TopicsAgree(ix) && PatternsAgree(ix) && Exists(ix, c)
    ensures PatternGone(ix, PUnsubscribe(ix, c, p, notify), c, p, notify)
  {
    PUnsubscribeAgrees(ix, c, p, notify);
    NothingAdded(ix.sent);
  }

  class WorkerThread {
    var ix: Index
    var offered: seq<Offer>

    constructor ()
      ensures Agree(ix) && ix.topicsOf == map[] && offered == []
    {
      ix := Index(map[], [], map[], map[], [], [], []);
      offered := [];
    }

    /** A notice is read and a client created for its descriptor, or one of the two fails. */
    method GetNewConnection(c: Id, created: bool)
      requires Agree(ix) && c !in ix.topicsOf
      modifies this`ix
      ensures Agree(ix) && (!created ==> ix == old(ix))
      ensures created ==> Exists(ix, c) && ix.topicsOf == old(ix).topicsOf[c := {}]
      ensures created ==> ix.patternsOf == old(ix).patternsOf[c := {}] && ix.byTopic == old(ix).byTopic
      ensures created ==> ix.clients == old(ix).clients + [c] && ix.closing == old(ix).closing
    {
      if !created { return; }
      ConnectedAgrees(ix, c);
      ix := Connected(ix, c);
    }

    method ProcessSubscribe(c: Id, argv: seq<bytes>) returns (ok: bool)
      requires Agree(ix) && Exists(ix, c)
      modifies this`ix
      ensures Agree(ix) && ok == (|argv| >= 2) && (!ok ==> ix == old(ix))
      ensures ix == SubscribeMany(old(ix), c, argv, |argv|) && TopicsGrew(old(ix), ix, c, argv, |argv|)
    {
      ok := |argv| >= 2;
      if ok { SubscribeEach(c, argv); }
      SubscribeManyAgrees(old(ix), c, argv, |argv|, ix);
    }

    method SubscribeEach(c: Id, argv: seq<bytes>)
      requires Exists(ix, c) && |argv| > 1
      modifies this`ix
      ensures ix == SubscribeMany(old(ix), c, argv, |argv|)
    {
      var i := 1;
      while i < |argv|
        invariant 1 <= i <= |argv| && SubscribedUpTo(old(ix), ix, c, argv, i)
      {
        ghost var mid := ix;
        SubscribeTopic(c, argv[i]);
        i := i + 1;
        SubscribeNext(old(ix), mid, ix, c, argv, i);
      }
    }

    method SubscribeTopic(c: Id, topic: bytes)
      requires Exists(ix, c)
      modifies this`ix
      ensures ix == Notify(AddTopic(old(ix), c, topic), c, Subscribed, topic)
    {
      if topic !in ix.topicsOf[c] {
        assert [] + [c] == [c];
        var listed := if topic in ix.byTopic then ix.byTopic[topic] + [c] else [c];
        ix := ix.(topicsOf := ix.topicsOf[c := ix.topicsOf[c] + {topic}], byTopic := ix.byTopic[topic := listed]);
      }
      ix := Notify(ix, c, Subscribed, topic);
    }

    method ProcessPSubscribe(c: Id, argv: seq<bytes>) returns (ok: bool)
      requires Agree(ix) && Exists(ix, c)
      modifies this`ix
      ensures Agree(ix) && ok == (|argv| >= 2) && (!ok ==> ix == old(ix))
      ensures ix == PSubscribeMany(old(ix), c, argv, |argv|) && PatternsGrew(old(ix), ix, c, argv, |argv|)
    {
      ok := |argv| >= 2;
      if ok { PSubscribeEach(c, argv); }
      PSubscribeManyAgrees(old(ix), c, argv, |argv|, ix);
    }

    method PSubscribeEach(c: Id, argv: seq<bytes>)
      requires Exists(ix, c) && |argv| > 1
      modifies this`ix
      ensures ix == PSubscribeMany(old(ix), c, argv, |argv|)
    {
      var i := 1;
      while i < |argv|
        invariant 1 <= i <= |argv| && PSubscribedUpTo(old(ix), ix, c, argv, i)
      {
        ghost var mid := ix;
        SubscribePattern(c, argv[i]);
        i := i + 1;
        PSubscribeNext(old(ix), mid, ix, c, argv, i);
      }
    }

    method SubscribePattern(c: Id, pattern: bytes)
      requires Exists(ix, c)
      modifies this`ix
      ensures ix == Notify(AddPattern(old(ix), c, pattern), c, PSubscribed, pattern)
    {
      if pattern !in ix.patternsOf[c] {
        ix := ix.(patternsOf := ix.patternsOf[c := ix.patternsOf[c] + {pattern}], patterns := ix.patterns + [(pattern, c)]);
      }
      ix := Notify(ix, c, PSubscribed, pattern);
    }

    method UnsubscribeTopic(c: Id, topic: bytes, notify: bool)
      requires TopicsAgree(ix) && PatternsAgree(ix) && Exists(ix, c)
      modifies this`ix
      ensures TopicGone(old(ix), ix, c, topic, notify)
    {
      UnsubscribedTopic(ix, c, topic, notify);
      NotifyAgrees(ix, c, Unsubscribed, topic);
      if notify { ix := Notify(ix, c, Unsubscribed, topic); }
      EraseTopic(c, topic);
    }

    /** The client leaves the topic's list, and the list goes if nobody is left. */
    method EraseTopic(c: Id, topic: bytes)
      requires TopicsAgree(ix) && Exists(ix, c)
      modifies this`ix
      ensures ix == DropTopic(old(ix), c, topic)
    {
      if topic in ix.topicsOf[c] {
        TopicIsListed(ix, c, topic);
        var left := RemoveAll(ix.byTopic[topic], c);
        ix := ix.(topicsOf := ix.topicsOf[c := ix.topicsOf[c] - {topic}], byTopic := ix.byTopic[topic := left]);
        if |left| == 0 {
          assert ix.byTopic - {topic} == old(ix).byTopic - {topic};
          ix := ix.(byTopic := ix.byTopic - {topic});
        }
      }
    }

    method UnsubscribePattern(c: Id, pattern: bytes, notify: bool)
      requires TopicsAgree(ix) && PatternsAgree(ix) && Exists(ix, c)
      modifies this`ix
      ensures PatternGone(old(ix), ix, c, pattern, notify)
    {
      UnsubscribedPattern(ix, c, pattern, notify);
      NotifyAgrees(ix, c, PUnsubscribed, pattern);
      if notify { ix := Notify(ix, c, PUnsubscribed, pattern); }
      ErasePattern(c, pattern);
    }

    /** The worker's list is searched for the first entry of this client and pattern. */
    method ErasePattern(c: Id, pattern: bytes)
      requires PatternsAgree(ix) && Exists(ix, c)
      modifies this`ix
      ensures ix == DropPattern(old(ix), c, pattern)
    {
      if pattern in ix.patternsOf[c] {
        PatternIsListed(ix, c, pattern);
        ghost var was := ix;
        var i := 0;
        while ix.patterns[i] != (pattern, c)
          invariant ix == was && 0 <= i < |ix.patterns| && (pattern, c) !in ix.patterns[..i]
          decreases |ix.patterns| - i
        {
          FurtherOn(ix.patterns, (pattern, c), i);
          i := i + 1;
        }
        FirstAt(ix.patterns, (pattern, c), i);
        ix := ix.(patterns := ix.patterns[..i] + ix.patterns[i + 1..],
                  patternsOf := ix.patternsOf[c := ix.patternsOf[c] - {pattern}]);
      }
    }

    method UnsubscribeAllTopics(c: Id, notify: bool) returns (ghost names: seq<bytes>)
      requires TopicsAgree(ix) && PatternsAgree(ix) && Exists(ix, c)
      modifies this`ix
      ensures TopicsAgree(ix) && PatternsAgree(ix) && SameClients(old(ix), ix)
      ensures ix.topicsOf == old(ix).topicsOf[c := {}] && ix.patternsOf == old(ix).patternsOf
      ensures Lists(names, old(ix).topicsOf[c])
      ensures ix.sent == old(ix).sent + If(notify, Dismissals(c, Unsubscribed, names, |old(ix).topicsOf[c]| + |old(ix).patternsOf[c]|))
    {
      names := [];
      TopicsStay(ix, c, notify);
      while ix.topicsOf[c] != {}
        invariant TopicsLeaving(old(ix), ix, c, names, notify)
        decreases ix.topicsOf[c]
      {
        var t :| t in ix.topicsOf[c];
        ghost var was := ix;
        UnsubscribeTopic(c, t, notify);
        TopicLeaves(old(ix), was, ix, c, names, t, notify);
        names := names + [t];
      }
    }

    method UnsubscribeAllPatterns(c: Id, notify: bool) returns (ghost names: seq<bytes>)
      requires TopicsAgree(ix) && PatternsAgree(ix) && Exists(ix, c)
      modifies this`ix
      ensures TopicsAgree(ix) && PatternsAgree(ix) && SameClients(old(ix), ix)
      ensures ix.patternsOf == old(ix).patternsOf[c := {}] && ix.topicsOf == old(ix).topicsOf
      ensures Lists(names, old(ix).patternsOf[c])
      ensures ix.sent == old(ix).sent + If(notify, Dismissals(c, PUnsubscribed, names, |old(ix).topicsOf[c]| + |old(ix).patternsOf[c]|))
    {
      names := [];
      PatternsStay(ix, c, notify);
      while ix.patternsOf[c] != {}
        invariant PatternsLeaving(old(ix), ix, c, names, notify)
        decreases ix.patternsOf[c]
      {
        var t :| t in ix.patternsOf[c];
        ghost var was := ix;
        UnsubscribePattern(c, t, notify);
        PatternLeaves(old(ix), was, ix, c, names, t, notify);
        names := names + [t];
      }
    }

    /** UNSUBSCRIBE: the named topics, or all of them if none is named. */
    method ProcessUnSubscribe(c: Id, argv: seq<bytes>, notify: bool) returns (ghost names: seq<bytes>)
      requires Agree(ix) && Exists(ix, c)
      modifies this`ix
      ensures Agree(ix) && ix.patternsOf == old(ix).patternsOf && SameClients(old(ix), ix)
      ensures ix.topicsOf == old(ix).topicsOf[c := if |argv| > 1 then old(ix).topicsOf[c] - Named(argv, |argv|) else {}]
      ensures |argv| <= 1 ==> Lists(names, old(ix).topicsOf[c])
      ensures |argv| <= 1 ==>
        ix.sent == old(ix).sent + If(notify, Dismissals(c, Unsubscribed, names, |old(ix).topicsOf[c]| + |old(ix).patternsOf[c]|))
      ensures |argv| > 1 ==>
        ix.sent == old(ix).sent + If(notify, NamedNotices(c, Unsubscribed, argv, |argv|, old(ix).topicsOf[c], |old(ix).patternsOf[c]|))
    {
      names := [];
      if |argv| > 1 {
        ProcessNamed(c, argv, notify);
      } else {
        names := UnsubscribeAllTopics(c, notify);
      }
    }

    method ProcessNamed(c: Id, argv: seq<bytes>, notify: bool)
      requires TopicsAgree(ix) && PatternsAgree(ix) && Exists(ix, c) && |argv| > 1
      modifies this`ix
      ensures TopicsNamed(old(ix), ix, c, argv, |argv|, notify)
    {
      TopicsUnnamed(ix, c, argv, notify);
      ProcessNamesFrom(c, argv, 1, notify, ix);
    }

    /** The loop over the names, from position i on. */
    method ProcessNamesFrom(c: Id, argv: seq<bytes>, first: nat, notify: bool, ghost start: Index)
      requires 1 <= first <= |argv| && TopicsNamed(start, ix, c, argv, first, notify)
      modifies this`ix
      ensures TopicsNamed(start, ix, c, argv, |argv|, notify)
    {
      for i := first to |argv|
        invariant TopicsNamed(start, ix, c, argv, i, notify)
      {
        ProcessName(c, argv, i, notify, start);
      }
    }

    method ProcessName(c: Id, argv: seq<bytes>, i: nat, notify: bool, ghost start: Index)
      requires 1 <= i < |argv| && TopicsNamed(start, ix, c, argv, i, notify)
      modifies this`ix
      ensures TopicsNamed(start, ix, c, argv, i + 1, notify)
    {
      ghost var was := ix;
      UnsubscribeTopic(c, argv[i], notify);
      TopicsNamedOn(start, was, ix, c, argv, i, notify);
    }

    /** PUNSUBSCRIBE, likewise. */
    method ProcessPUnSubscribe(c: Id, argv: seq<bytes>, notify: bool) returns (ghost names: seq<bytes>)
      requires Agree(ix) && Exists(ix, c)
      modifies this`ix
      ensures Agree(ix) && ix.topicsOf == old(ix).topicsOf && SameClients(old(ix), ix)
      ensures ix.patternsOf == old(ix).patternsOf[c := if |argv| > 1 then old(ix).patternsOf[c] - Named(argv, |argv|) else {}]
      ensures |argv| <= 1 ==> Lists(names, old(ix).patternsOf[c])
      ensures |argv| <= 1 ==>
        ix.sent == old(ix).sent + If(notify, Dismissals(c, PUnsubscribed, names, |old(ix).topicsOf[c]| + |old(ix).patternsOf[c]|))
      ensures |argv| > 1 ==>
        ix.sent == old(ix).sent + If(notify, NamedNotices(c, PUnsubscribed, argv, |argv|, old(ix).patternsOf[c], |old(ix).topicsOf[c]|))
    {
      names := [];
      if |argv| > 1 {
        ProcessPNamed(c, argv, notify);
      } else {
        names := UnsubscribeAllPatterns(c, notify);
      }
    }

    method ProcessPNamed(c: Id, argv: seq<bytes>, notify: bool)
      requires TopicsAgree(ix) && PatternsAgree(ix) && Exists(ix, c) && |argv| > 1
      modifies this`ix
      ensures PatternsNamed(old(ix), ix, c, argv, |argv|, notify)
    {
      PatternsUnnamed(ix, c, argv, notify);
      ProcessPNamesFrom(c, argv, 1, notify, ix);
    }

    /** The loop over the names, from position i on. */
    method ProcessPNamesFrom(c: Id, argv: seq<bytes>, first: nat, notify: bool, ghost start: Index)
      requires 1 <= first <= |argv| && PatternsNamed(start, ix, c, argv, first, notify)
      modifies this`ix
      ensures PatternsNamed(start, ix, c, argv, |argv|, notify)
    {
      for i := first to |argv|
        invariant PatternsNamed(start, ix, c, argv, i, notify)
      {
        ProcessPName(c, argv, i, notify, start);
      }
    }

    method ProcessPName(c: Id, argv: seq<bytes>, i: nat, notify: bool, ghost start: Index)
      requires 1 <= i < |argv| && PatternsNamed(start, ix, c, argv, i, notify)
      modifies this`ix
      ensures PatternsNamed(start, ix, c, argv, i + 1, notify)
    {
      ghost var was := ix;
      UnsubscribePattern(c, argv[i], notify);
      PatternsNamedOn(start, was, ix, c, argv, i, notify);
    }

    /** The destructor of a client. */
    method DeleteClient(c: Id)
      requires TopicsAgree(ix) && PatternsAgree(ix) && Exists(ix, c)
      modifies this`ix
      ensures TopicsAgree(ix) && PatternsAgree(ix)
      ensures ix.topicsOf == old(ix).topicsOf - {c} && ix.patternsOf == old(ix).patternsOf - {c}
      ensures ix.clients == old(ix).clients && ix.closing == old(ix).closing && ix.sent == old(ix).sent
    {
      ghost var topics := UnsubscribeAllTopics(c, false);
      ghost var patterns := UnsubscribeAllPatterns(c, false);
      GoneAgrees(ix, c);
      ix := Gone(ix, c);
    }

    method FreeClient(c: Id)
      requires Agree(ix)
      modifies this`ix
      ensures Agree(ix)
      ensures c in old(ix).clients ==> ix.topicsOf == old(ix).topicsOf - {c} && ix.patternsOf == old(ix).patternsOf - {c}
      ensures c in old(ix).clients ==> ix.clients == RemoveFirst(old(ix).clients, c) && ix.closing == old(ix).closing
      ensures c !in old(ix).clients ==> ix == old(ix)
    {
      if c in ix.clients {
        ghost var was := ix;
        ClientsExist(ix, c);
        ix := ix.(clients := RemoveFirst(ix.clients, c));
        SameTopicSide(was, ix);
        SamePatternSide(was, ix);
        DeleteClient(c);
        forall d ensures multiset(ix.clients + ix.closing)[d] == if d in ix.topicsOf then 1 else 0 {
          RemoveFirstCount(was.clients, c, d);
          assert multiset(was.clients + was.closing)[d] == if d in was.topicsOf then 1 else 0;
          assert multiset(ix.clients + ix.closing) == multiset(ix.clients) + multiset(ix.closing);
          assert multiset(was.clients + was.closing) == multiset(was.clients) + multiset(was.closing);
        }
      }
    }

    /** A client over its output limit is only moved to the closing list, so that no list is changed under a loop. */
    method FreeClientAsync(c: Id)
      requires Agree(ix)
      modifies this`ix
      ensures Agree(ix) && ix.topicsOf == old(ix).topicsOf && ix.patternsOf == old(ix).patternsOf
      ensures ix.byTopic == old(ix).byTopic && ix.patterns == old(ix).patterns
      ensures c in old(ix).clients ==> ix.clients == RemoveAll(old(ix).clients, c) && ix.closing == old(ix).closing + [c]
      ensures c !in old(ix).clients ==> ix == old(ix)
    {
      if c in ix.clients {
        PostponedAgrees(ix, c);
        ix := Postponed(ix, c);
      }
    }

    method FreeClientsInAsyncFreeQueue()
      requires Agree(ix)
      modifies this`ix
      ensures Agree(ix) && ix.closing == [] && ix.clients == old(ix).clients
      ensures forall d :: d in ix.topicsOf <==> d in ix.clients
      ensures ix.topicsOf == old(ix).topicsOf - SetOf(old(ix).closing)
      ensures ix.patternsOf == old(ix).patternsOf - SetOf(old(ix).closing)
    {
      var all := ix.closing;
      for i := 0 to |all|
        invariant Reaping(old(ix), ix, all[..i])
      {
        ClosingOnce(old(ix), i);
        SetOfSnoc(all, i);
        ghost var was := ix;
        DeleteClient(all[i]);
        ReapingNext(old(ix), was, ix, all[..i], all[i], all[..i + 1]);
      }
      assert all[..|all|] == all;
      ReapedAgrees(old(ix), ix, ix.(closing := []));
      ix := ix.(closing := []);
    }

    /** One event: the handler that the event loop or ProcessCommand calls for it. */
    method Handle(e: Event)
      requires Agree(ix)
      modifies this`ix
      ensures Agree(ix) && TableOf(ix) == Next(TableOf(old(ix)), e)
    {
      match e {
        case Connect(c, created) => HandleConnect(c, created);
        case Subscribe(c, argv) => if c in ix.topicsOf { var ok := ProcessSubscribe(c, argv); }
        case PSubscribe(c, argv) => if c in ix.patternsOf { var ok := ProcessPSubscribe(c, argv); }
        case UnSubscribe(c, argv) => if c in ix.topicsOf { ghost var names := ProcessUnSubscribe(c, argv, true); }
        case PUnSubscribe(c, argv) => if c in ix.patternsOf { ghost var names := ProcessPUnSubscribe(c, argv, true); }
        case Close(c) => HandleClose(c);
        case OverLimit(c) => HandleOverLimit(c);
        case Cron => FreeClientsInAsyncFreeQueue();
      }
    }

    method HandleConnect(c: Id, created: bool)
      requires Agree(ix)
      modifies this`ix
      ensures Agree(ix) && TableOf(ix) == Next(TableOf(old(ix)), Connect(c, created))
    {
      if c !in ix.topicsOf {
        OneMore(ix.clients, c);
        GetNewConnection(c, created);
      }
    }

    method HandleClose(c: Id)
      requires Agree(ix)
      modifies this`ix
      ensures Agree(ix) && TableOf(ix) == Next(TableOf(old(ix)), Close(c))
    {
      Tally(ix, c);
      RemovedFirst(ix.clients, c);
      FreeClient(c);
    }

    method HandleOverLimit(c: Id)
      requires Agree(ix)
      modifies this`ix
      ensures Agree(ix) && TableOf(ix) == Next(TableOf(old(ix)), OverLimit(c))
    {
      FreeClientAsync(c);
      PutOff(old(ix), ix, c);
    }

    /** Any run of the worker: the index agrees with itself throughout, and says exactly who asked for what and has
        not been closed since. */
    method Serve(events: seq<Event>)
      requires Agree(ix)
      modifies this`ix
      ensures Agree(ix) && TableOf(ix) == Run(TableOf(old(ix)), events)
    {
      for i := 0 to |events|
        invariant Agree(ix) && TableOf(ix) == Run(TableOf(old(ix)), events[..i])
      {
        Handle(events[i]);
        assert events[..i + 1][..i] == events[..i] && events[..i + 1][i] == events[i];
      }
      assert events[..|events|] == events;
    }

    /** The two loops of PublishMessage. */
    method PublishMessage(m: Mode, topic: bytes)
      requires forall i | 0 <= i < |ix.patterns| :: Matchable(m, ix.patterns[i].0, topic)
      modifies this`offered
      ensures offered == old(offered) + Offers(ix, m, topic)
    {
      var direct := ListOf(ix, topic);
      NothingAdded(offered);
      for i := 0 to |direct|
        invariant offered == old(offered) + DirectOffers(direct[..i])
      {
        DirectNext(direct, i, old(offered));
        offered := offered + [Direct(direct[i])];
      }
      assert direct[..|direct|] == direct;
      ghost var half := offered;
      NothingAdded(half);
      for i := 0 to |ix.patterns|
        invariant offered == half + PatternOffers(m, ix.patterns[..i], topic)
      {
        var (pattern, c) := ix.patterns[i];
        PatternNext(m, ix.patterns, i, topic, half);
        var hit := MatchTopic(m, pattern, topic);
        if hit { offered := offered + [ByPattern(c, pattern)]; }
      }
      assert ix.patterns[..|ix.patterns|] == ix.patterns;
      Assoc(old(offered), DirectOffers(direct), PatternOffers(m, ix.patterns, topic));
    }

    method MatchTopic(m: Mode, pattern: bytes, topic: bytes) returns (hit: bool)
      requires Matchable(m, pattern, topic)
      ensures hit == Hits(m, pattern, topic)
    {
      MatchesIffTokenByToken(m, pattern, topic);
      hit := StringMatch(m, pattern, topic);
    }
  }

  lemma DirectNext(cs: seq<Id>, i: nat, before: seq<Offer>)
    requires i < |cs|
    ensures before + DirectOffers(cs[..i]) + [Direct(cs[i])] == before + DirectOffers(cs[..i + 1])
  {
    assert DirectOffers(cs[..i + 1]) == DirectOffers(cs[..i]) + [Direct(cs[i])];
    Assoc(before, DirectOffers(cs[..i]), [Direct(cs[i])]);
  }

  lemma PatternNext(m: Mode, ps: seq<(bytes, Id)>, i: nat, topic: bytes, before: seq<Offer>)
    requires i < |ps|
    ensures before + PatternOffers(m, ps[..i + 1], topic) ==
            before + PatternOffers(m, ps[..i], topic) + (if Hits(m, ps[i].0, topic) then [ByPattern(ps[i].1, ps[i].0)] else [])
  {
    assert ps[..i + 1][..i] == ps[..i] && ps[..i + 1][i] == ps[i];
    Assoc(before, PatternOffers(m, ps[..i], topic), if Hits(m, ps[i].0, topic) then [ByPattern(ps[i].1, ps[i].0)] else []);
  }

  /** The matcher reads inside both strings on these inputs. */
  predicate Matchable(m: Mode, p: bytes, topic: bytes) {
    && WellFormed(p, 0)
    && (topic != [] || (TakesTerminator(m, p, 0) ==> OnlyStars(p, TokenEnd(p, 0))))
  }

  lemma ClientsExist(ix: Index, c: Id)
    requires ClientsAgree(ix) && c in ix.clients
    ensures Exists(ix, c)
  {
    assert c in ix.clients + ix.closing;
    assert multiset(ix.clients + ix.closing)[c] > 0;
  }
}
