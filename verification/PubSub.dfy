/** The subscription index of one worker (src/pubsub.cc, src/worker.cc): each client keeps the topics and patterns it
    asked for, the worker keeps a list of clients per topic and one list of patterns. */
module PubSub {
  import opened Bytes
  import opened Glob

  type Id = nat

  datatype Kind = Subscribed | PSubscribed | Unsubscribed | PUnsubscribed

  /** A confirmation sent to a client, with the subscription count it carries. */
  datatype Notice = Notice(to: Id, kind: Kind, name: bytes, count: nat)

  /** byTopic and patterns are the worker's; topicsOf and patternsOf are the sub_topics_ and sub_patterns_ of the
      clients that exist; clients and closing are the worker's two client lists. */
  datatype Index = Index(
    byTopic: map<bytes, seq<Id>>, patterns: seq<(bytes, Id)>,
    topicsOf: map<Id, set<bytes>>, patternsOf: map<Id, set<bytes>>,
    clients: seq<Id>, closing: seq<Id>, sent: seq<Notice>)

  function ListOf(ix: Index, t: bytes): (r: seq<Id>) { if t in ix.byTopic then ix.byTopic[t] else [] }

  predicate Wants(ix: Index, c: Id, t: bytes) { c in ix.topicsOf && t in ix.topicsOf[c] }

  predicate PWants(ix: Index, c: Id, p: bytes) { c in ix.patternsOf && p in ix.patternsOf[c] }

  /** How often client c is listed under topic t, and under pattern p. */
  function Listed(ix: Index, t: bytes, c: Id): (r: nat) { multiset(ListOf(ix, t))[c] }

  function PListed(ix: Index, p: bytes, c: Id): (r: nat) { multiset(ix.patterns)[(p, c)] }

  ghost predicate TopicsAgree(ix: Index) {
    && (forall t, c :: Listed(ix, t, c) == if Wants(ix, c, t) then 1 else 0)
    && (forall t | t in ix.byTopic :: ix.byTopic[t] != [])
  }

  ghost predicate PatternsAgree(ix: Index) {
    forall p, c :: PListed(ix, p, c) == if PWants(ix, c, p) then 1 else 0
  }

  /** The clients that exist are those in the two lists, each once. */
  ghost predicate ClientsAgree(ix: Index) {
    && ix.topicsOf.Keys == ix.patternsOf.Keys
    && (forall c :: multiset(ix.clients + ix.closing)[c] == if c in ix.topicsOf then 1 else 0)
  }

  ghost predicate Agree(ix: Index) { TopicsAgree(ix) && PatternsAgree(ix) && ClientsAgree(ix) }

  // ----- Operations -----

  predicate Exists(ix: Index, c: Id) { c in ix.topicsOf && c in ix.patternsOf }

  function CountOf(ix: Index, c: Id): (r: nat)
    requires Exists(ix, c)
  {
    |ix.topicsOf[c]| + |ix.patternsOf[c]|
  }

  function Notify(ix: Index, c: Id, kind: Kind, name: bytes): (n: Index)
    requires Exists(ix, c)
    ensures Exists(n, c)
  {
    ix.(sent := ix.sent + [Notice(c, kind, name, CountOf(ix, c))])
  }

  function AddTopic(ix: Index, c: Id, t: bytes): (n: Index)
    requires Exists(ix, c)
    ensures Exists(n, c) && n.topicsOf.Keys == ix.topicsOf.Keys && n.patternsOf.Keys == ix.patternsOf.Keys
  {
    if t in ix.topicsOf[c] then ix else
    ix.(topicsOf := ix.topicsOf[c := ix.topicsOf[c] + {t}], byTopic := ix.byTopic[t := ListOf(ix, t) + [c]])
  }

  function AddPattern(ix: Index, c: Id, p: bytes): (n: Index)
    requires Exists(ix, c)
    ensures Exists(n, c) && n.topicsOf.Keys == ix.topicsOf.Keys && n.patternsOf.Keys == ix.patternsOf.Keys
  {
    if p in ix.patternsOf[c] then ix else
    ix.(patternsOf := ix.patternsOf[c := ix.patternsOf[c] + {p}], patterns := ix.patterns + [(p, c)])
  }

  /** std::list::remove: every occurrence goes. */
  function RemoveAll<T(==)>(xs: seq<T>, x: T): seq<T> {
    if xs == [] then [] else (if xs[0] == x then [] else [xs[0]]) + RemoveAll(xs[1..], x)
  }

  function RemoveFirst<T(==)>(xs: seq<T>, x: T): seq<T> {
    if xs == [] then [] else if xs[0] == x then xs[1..] else [xs[0]] + RemoveFirst(xs[1..], x)
  }

  /** A topic nobody is left under goes from the table. */
  function DropTopic(ix: Index, c: Id, t: bytes): (n: Index)
    requires Exists(ix, c)
    ensures Exists(n, c) && n.topicsOf.Keys == ix.topicsOf.Keys && n.patternsOf.Keys == ix.patternsOf.Keys
  {
    if t !in ix.topicsOf[c] then ix else
    var left := RemoveAll(ListOf(ix, t), c);
    ix.(topicsOf := ix.topicsOf[c := ix.topicsOf[c] - {t}],
        byTopic := if left == [] then ix.byTopic - {t} else ix.byTopic[t := left])
  }

  function DropPattern(ix: Index, c: Id, p: bytes): (n: Index)
    requires Exists(ix, c)
    ensures Exists(n, c) && n.topicsOf.Keys == ix.topicsOf.Keys && n.patternsOf.Keys == ix.patternsOf.Keys
  {
    if p !in ix.patternsOf[c] then ix else
    ix.(patternsOf := ix.patternsOf[c := ix.patternsOf[c] - {p}], patterns := RemoveFirst(ix.patterns, (p, c)))
  }

  // ----- Each operation keeps the agreement -----

  lemma {:induction false} RemoveAllCount<T>(xs: seq<T>, x: T, y: T)
    ensures multiset(RemoveAll(xs, x))[y] == if y == x then 0 else multiset(xs)[y]
  {
    if xs != [] {
      RemoveAllCount(xs[1..], x, y);
      assert xs == [xs[0]] + xs[1..];
    }
  }

  lemma {:induction false} RemoveFirstCount<T>(xs: seq<T>, x: T, y: T)
    ensures multiset(RemoveFirst(xs, x))[y] == multiset(xs)[y] - if y == x && x in xs then 1 else 0
  {
    if xs != [] {
      assert xs == [xs[0]] + xs[1..];
      if xs[0] != x { RemoveFirstCount(xs[1..], x, y); }
    }
  }

  lemma SamePatternSide(ix: Index, n: Index)
    requires PatternsAgree(ix) && n.patterns == ix.patterns && n.patternsOf == ix.patternsOf
    ensures PatternsAgree(n)
  {
    forall p, c ensures PListed(n, p, c) == if PWants(n, c, p) then 1 else 0 {
      assert PListed(ix, p, c) == if PWants(ix, c, p) then 1 else 0;
    }
  }

  lemma SameTopicSide(ix: Index, n: Index)
    requires TopicsAgree(ix) && n.byTopic == ix.byTopic && n.topicsOf == ix.topicsOf
    ensures TopicsAgree(n)
  {
    forall u, d ensures Listed(n, u, d) == if Wants(n, d, u) then 1 else 0 {
      assert Listed(ix, u, d) == if Wants(ix, d, u) then 1 else 0;
    }
  }

  lemma AddTopicListed(ix: Index, c: Id, t: bytes, d: Id, u: bytes)
    requires TopicsAgree(ix) && Exists(ix, c)
    ensures Wants(AddTopic(ix, c, t), d, u) <==> Wants(ix, d, u) || (d == c && u == t)
    ensures Listed(AddTopic(ix, c, t), u, d) == if Wants(AddTopic(ix, c, t), d, u) then 1 else 0
  {
    assert Listed(ix, u, d) == if Wants(ix, d, u) then 1 else 0;
    if t !in ix.topicsOf[c] && u == t {
      assert ListOf(AddTopic(ix, c, t), u) == ListOf(ix, t) + [c];
      CountSnoc(ListOf(ix, t), c, d);
    } else {
      assert ListOf(AddTopic(ix, c, t), u) == ListOf(ix, u);
    }
  }

  lemma AddTopicAgrees(ix: Index, c: Id, t: bytes)
    requires Agree(ix) && Exists(ix, c)
    ensures Agree(AddTopic(ix, c, t)) && Exists(AddTopic(ix, c, t), c)
    ensures forall d, u :: Wants(AddTopic(ix, c, t), d, u) <==> Wants(ix, d, u) || (d == c && u == t)
  {
    forall d, u { AddTopicListed(ix, c, t, d, u); }
    SamePatternSide(ix, AddTopic(ix, c, t));
  }

  lemma AddPatternListed(ix: Index, c: Id, p: bytes, d: Id, q: bytes)
    requires PatternsAgree(ix) && Exists(ix, c)
    ensures PWants(AddPattern(ix, c, p), d, q) <==> PWants(ix, d, q) || (d == c && q == p)
    ensures PListed(AddPattern(ix, c, p), q, d) == if PWants(AddPattern(ix, c, p), d, q) then 1 else 0
  {
    assert PListed(ix, q, d) == if PWants(ix, d, q) then 1 else 0;
  }

  lemma AddPatternAgrees(ix: Index, c: Id, p: bytes)
    requires Agree(ix) && Exists(ix, c)
    ensures Agree(AddPattern(ix, c, p)) && Exists(AddPattern(ix, c, p), c)
    ensures forall d, q :: PWants(AddPattern(ix, c, p), d, q) <==> PWants(ix, d, q) || (d == c && q == p)
  {
    forall d, q { AddPatternListed(ix, c, p, d, q); }
    SameTopicSide(ix, AddPattern(ix, c, p));
  }

  lemma DropTopicListed(ix: Index, c: Id, t: bytes, d: Id, u: bytes)
    requires TopicsAgree(ix) && Exists(ix, c)
    ensures Wants(DropTopic(ix, c, t), d, u) <==> Wants(ix, d, u) && !(d == c && u == t)
    ensures Listed(DropTopic(ix, c, t), u, d) == if Wants(DropTopic(ix, c, t), d, u) then 1 else 0
  {
    assert Listed(ix, u, d) == if Wants(ix, d, u) then 1 else 0;
    if t in ix.topicsOf[c] && u == t {
      assert ListOf(DropTopic(ix, c, t), u) == RemoveAll(ListOf(ix, t), c);
      RemoveAllCount(ListOf(ix, t), c, d);
    } else {
      assert ListOf(DropTopic(ix, c, t), u) == ListOf(ix, u);
    }
  }

  lemma DropTopicAgrees(ix: Index, c: Id, t: bytes)
    requires TopicsAgree(ix) && PatternsAgree(ix) && Exists(ix, c)
    ensures TopicsAgree(DropTopic(ix, c, t)) && PatternsAgree(DropTopic(ix, c, t))
    ensures forall d, u :: Wants(DropTopic(ix, c, t), d, u) <==> Wants(ix, d, u) && !(d == c && u == t)
  {
    forall d, u { DropTopicListed(ix, c, t, d, u); }
    SamePatternSide(ix, DropTopic(ix, c, t));
  }

  lemma DropPatternListed(ix: Index, c: Id, p: bytes, d: Id, q: bytes)
    requires PatternsAgree(ix) && Exists(ix, c)
    ensures PWants(DropPattern(ix, c, p), d, q) <==> PWants(ix, d, q) && !(d == c && q == p)
    ensures PListed(DropPattern(ix, c, p), q, d) == if PWants(DropPattern(ix, c, p), d, q) then 1 else 0
  {
    assert PListed(ix, q, d) == if PWants(ix, d, q) then 1 else 0;
    RemoveFirstCount(ix.patterns, (p, c), (q, d));
    assert (p, c) in ix.patterns <==> PListed(ix, p, c) > 0;
  }

  lemma DropPatternAgrees(ix: Index, c: Id, p: bytes)
    requires TopicsAgree(ix) && PatternsAgree(ix) && Exists(ix, c)
    ensures TopicsAgree(DropPattern(ix, c, p)) && PatternsAgree(DropPattern(ix, c, p))
    ensures forall d, q :: PWants(DropPattern(ix, c, p), d, q) <==> PWants(ix, d, q) && !(d == c && q == p)
  {
    forall d, q { DropPatternListed(ix, c, p, d, q); }
    SameTopicSide(ix, DropPattern(ix, c, p));
  }

  // ----- Publishing -----

  datatype Offer = Direct(to: Id) | ByPattern(to: Id, pattern: bytes)

  /** What the matcher answers for a topic, its one wrong answer on the empty topic included. */
  predicate Hits(m: Mode, p: bytes, topic: bytes) {
    Matches(m, p, 0, topic, 0) || (topic == [] && Overrun(m, p, 0))
  }

  function DirectOffers(cs: seq<Id>): (r: seq<Offer>) { seq(|cs|, i requires 0 <= i < |cs| => Direct(cs[i])) }

  function PatternOffers(m: Mode, ps: seq<(bytes, Id)>, topic: bytes): (r: seq<Offer>) {
    if ps == [] then [] else
    var last := ps[|ps| - 1];
    PatternOffers(m, ps[..|ps| - 1], topic) + (if Hits(m, last.0, topic) then [ByPattern(last.1, last.0)] else [])
  }

  function Offers(ix: Index, m: Mode, topic: bytes): (r: seq<Offer>) {
    DirectOffers(ListOf(ix, topic)) + PatternOffers(m, ix.patterns, topic)
  }

  lemma {:induction false} DirectCount(cs: seq<Id>, c: Id)
    ensures multiset(DirectOffers(cs))[Direct(c)] == multiset(cs)[c]
    ensures forall p :: multiset(DirectOffers(cs))[ByPattern(c, p)] == 0
  {
    if cs != [] {
      DirectCount(cs[1..], c);
      assert cs == [cs[0]] + cs[1..];
      assert DirectOffers(cs) == [Direct(cs[0])] + DirectOffers(cs[1..]);
    }
  }

  lemma {:induction false} PatternCount(m: Mode, ps: seq<(bytes, Id)>, topic: bytes, c: Id, p: bytes)
    ensures multiset(PatternOffers(m, ps, topic))[ByPattern(c, p)] == if Hits(m, p, topic) then multiset(ps)[(p, c)] else 0
    ensures multiset(PatternOffers(m, ps, topic))[Direct(c)] == 0
  {
    if ps != [] {
      var front, last := ps[..|ps| - 1], ps[|ps| - 1];
      var offers, offer := PatternOffers(m, front, topic), ByPattern(last.1, last.0);
      PatternCount(m, front, topic, c, p);
      assert ps == front + [last];
      CountSnoc(front, last, (p, c));
      CountSnoc(offers, offer, ByPattern(c, p));
      CountSnoc(offers, offer, Direct(c));
      NothingAdded(offers);
    }
  }

  lemma CountSnoc<T>(xs: seq<T>, x: T, y: T)
    ensures multiset(xs + [x])[y] == multiset(xs)[y] + if x == y then 1 else 0
  {}

  /** Publishing offers a client one frame if it subscribed to the topic and one for each of its patterns that
      hits it, and nothing else; a client that does not exist is offered nothing. */
  lemma OffersAreExact(ix: Index, m: Mode, topic: bytes, c: Id)
    requires Agree(ix)
    ensures multiset(Offers(ix, m, topic))[Direct(c)] == if Wants(ix, c, topic) then 1 else 0
    ensures forall p :: multiset(Offers(ix, m, topic))[ByPattern(c, p)] ==
                        if PWants(ix, c, p) && Hits(m, p, topic) then 1 else 0
  {
    DirectCount(ListOf(ix, topic), c);
    assert Listed(ix, topic, c) == if Wants(ix, c, topic) then 1 else 0;
    PatternCount(m, ix.patterns, topic, c, []);
    forall p
      ensures multiset(Offers(ix, m, topic))[ByPattern(c, p)] == if PWants(ix, c, p) && Hits(m, p, topic) then 1 else 0
    {
      PatternCount(m, ix.patterns, topic, c, p);
      assert PListed(ix, p, c) == if PWants(ix, c, p) then 1 else 0;
    }
  }

  function CountFor(os: seq<Offer>, c: Id): (r: nat) {
    if os == [] then 0 else CountFor(os[..|os| - 1], c) + if os[|os| - 1].to == c then 1 else 0
  }

  lemma {:induction false} CountForAppend(a: seq<Offer>, b: seq<Offer>, c: Id)
    ensures CountFor(a + b, c) == CountFor(a, c) + CountFor(b, c)
    decreases |b|
  {
    if b == [] {
      assert a + b == a;
    } else {
      CountForAppend(a, b[..|b| - 1], c);
      assert (a + b)[..|a + b| - 1] == a + b[..|b| - 1];
    }
  }

  lemma {:induction false} CountForDirect(cs: seq<Id>, c: Id)
    ensures CountFor(DirectOffers(cs), c) == multiset(cs)[c]
  {
    if cs != [] {
      var last := |cs| - 1;
      CountForDirect(cs[..last], c);
      assert cs == cs[..last] + [cs[last]];
      assert DirectOffers(cs)[..last] == DirectOffers(cs[..last]);
    }
  }

  function Hitting(m: Mode, ps: seq<(bytes, Id)>, topic: bytes, c: Id): (r: set<bytes>) {
    set i | 0 <= i < |ps| && ps[i].1 == c && Hits(m, ps[i].0, topic) :: ps[i].0
  }

  lemma {:induction false} CountForPatterns(m: Mode, ps: seq<(bytes, Id)>, topic: bytes, c: Id)
    requires forall x :: multiset(ps)[x] <= 1
    ensures CountFor(PatternOffers(m, ps, topic), c) == |Hitting(m, ps, topic, c)|
  {
    if ps != [] {
      var front, last := ps[..|ps| - 1], ps[|ps| - 1];
      assert ps == front + [last];
      forall x ensures multiset(front)[x] <= 1 { assert multiset(ps)[x] >= multiset(front)[x]; }
      CountForPatterns(m, front, topic, c);
      if Hits(m, last.0, topic) {
        CountForAppend(PatternOffers(m, front, topic), [ByPattern(last.1, last.0)], c);
        assert CountFor([ByPattern(last.1, last.0)], c) == (if last.1 == c then 1 else 0) by { assert [ByPattern(last.1, last.0)][..0] == []; }
      }
      var os := PatternOffers(m, front, topic);
      assert os + [] == os;
      HittingSnoc(m, front, last, topic, c);
    }
  }

  lemma HittingSnoc(m: Mode, front: seq<(bytes, Id)>, last: (bytes, Id), topic: bytes, c: Id)
    requires multiset(front + [last])[last] <= 1
    ensures |Hitting(m, front + [last], topic, c)| ==
            |Hitting(m, front, topic, c)| + if last.1 == c && Hits(m, last.0, topic) then 1 else 0
  {
    var ps := front + [last];
    var before, after := Hitting(m, front, topic, c), Hitting(m, ps, topic, c);
    forall p | p in before ensures p in after {
      var i :| 0 <= i < |front| && front[i].1 == c && Hits(m, front[i].0, topic) && front[i].0 == p;
      assert ps[i] == front[i];
    }
    if last.1 == c && Hits(m, last.0, topic) {
      assert ps[|front|] == last && last.0 in after;
      assert multiset(front)[last] == 0;
      assert last !in front;
      assert forall i | 0 <= i < |front| :: front[i] in front && front[i] != last;
      assert last.0 !in before;
      assert after == before + {last.0};
    } else {
      assert after == before;
    }
  }

  /** In all, a client is offered [it subscribed to the topic] + the number of its patterns that hit the topic. */
  lemma OffersInAll(ix: Index, m: Mode, topic: bytes, c: Id)
    requires Agree(ix) && Exists(ix, c)
    ensures CountFor(Offers(ix, m, topic), c) ==
            (if topic in ix.topicsOf[c] then 1 else 0) + |set p | p in ix.patternsOf[c] && Hits(m, p, topic)|
  {
    CountForAppend(DirectOffers(ListOf(ix, topic)), PatternOffers(m, ix.patterns, topic), c);
    CountForDirect(ListOf(ix, topic), c);
    assert Listed(ix, topic, c) == if Wants(ix, c, topic) then 1 else 0;
    forall x ensures multiset(ix.patterns)[x] <= 1 { assert PListed(ix, x.0, x.1) <= 1; }
    CountForPatterns(m, ix.patterns, topic, c);
    HittingIsWanted(ix, m, topic, c);
  }

  lemma HittingIsWanted(ix: Index, m: Mode, topic: bytes, c: Id)
    requires Agree(ix) && Exists(ix, c)
    ensures Hitting(m, ix.patterns, topic, c) == set p | p in ix.patternsOf[c] && Hits(m, p, topic)
  {
    forall p ensures p in ix.patternsOf[c] <==> (p, c) in ix.patterns {
      assert PListed(ix, p, c) == if PWants(ix, c, p) then 1 else 0;
    }
    forall p | p in ix.patternsOf[c] && Hits(m, p, topic) ensures p in Hitting(m, ix.patterns, topic, c) {
      var i :| 0 <= i < |ix.patterns| && ix.patterns[i] == (p, c);
    }
    forall p | p in Hitting(m, ix.patterns, topic, c) ensures p in ix.patternsOf[c] {
      var i :| 0 <= i < |ix.patterns| && ix.patterns[i].1 == c && ix.patterns[i].0 == p;
      assert ix.patterns[i] == (p, c);
    }
  }
}
