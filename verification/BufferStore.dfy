/** Store failover (src/store/bufferstore.cc over the secondary side of src/store/filestore.cc): messages go to the
    primary while it works, to files while it does not, and from the files back to the primary afterwards. */
module BufferStore {
  import opened Bytes
  import opened Messages
  import opened BufferFile

  datatype Status = ToPrimary | ToSecondary | Transfering

  /** files are the secondary's buffer files, oldest first; while appending, the last one is open. delivered is
      what the primary has taken. */
  datatype Store = Store(
    status: Status, queue: seq<Message>, files: seq<bytes>, appending: bool, delivered: seq<Message>)

  /** What the outside world does during one call: whether the primary is open, which of the messages offered
      to it in this call it takes, and whether the clock asks for a new buffer file. */
  datatype Env = Env(primaryOpen: bool, accepts: nat -> bool, rotate: bool)

  datatype Op = Add(m: Message, env: Env) | Cron(env: Env)

  predicate Sound(s: Store) { s.appending ==> s.files != [] }

  /** Closing the open file removes it if it is empty. */
  function Closed(files: seq<bytes>, appending: bool): (r: seq<bytes>) {
    if appending && files != [] && files[|files| - 1] == [] then files[..|files| - 1] else files
  }

  function Close(s: Store): (t: Store)
    requires Sound(s)
    ensures !t.appending
  {
    s.(files := Closed(s.files, s.appending), appending := false)
  }

  function OpenFile(s: Store): (t: Store)
    requires Sound(s)
    ensures t.appending && Sound(t)
  {
    s.(files := Closed(s.files, s.appending) + [[]], appending := true)
  }

  /** A message written to the secondary, which is opened first if need be. */
  function Append(s: Store, m: Message): (t: Store)
    requires Sound(s)
    ensures Sound(t)
  {
    var o := if s.appending then s else OpenFile(s);
    var last := |o.files| - 1;
    o.(files := o.files[last := o.files[last] + EncodeMessage(m)])
  }

  function Opened(files: seq<bytes>, env: Env): (r: Store) {
    var s := Store(ToPrimary, [], files, false, []);
    if !env.primaryOpen then OpenFile(s).(status := ToSecondary)
    else if files != [] then s.(status := Transfering)
    else s
  }

  function DoAdd(s: Store, m: Message, env: Env): (r: Store)
    requires Sound(s)
  {
    if s.status.ToPrimary? then
      if env.primaryOpen && env.accepts(0) then s.(delivered := s.delivered + [m])
      else Append(OpenFile(s).(status := ToSecondary), m)
    else Append(s, m)
  }

  /** The transfer loop: the queue that is left and the messages the primary took. A refused message is popped
      too, and ends the loop. */
  function Transfer(queue: seq<Message>, accepts: nat -> bool, cnt: nat, max: nat): (r: (seq<Message>, seq<Message>))
    decreases |queue|
  {
    if queue == [] || cnt >= max then (queue, [])
    else if !accepts(cnt) then (queue[1..], [])
    else var (left, taken) := Transfer(queue[1..], accepts, cnt + 1, max); (left, [queue[0]] + taken)
  }

  /** Once the queue is empty the oldest file, if any, becomes the queue. */
  function Refill(s: Store): (t: Store)
    requires Sound(s)
    ensures Sound(t)
  {
    if s.queue != [] || s.files == [] then s
    else var c := Close(s);
      if c.files == [] then c else c.(queue := Decode(c.files[0], 0), files := c.files[1..])
  }

  function Finish(s: Store): (t: Store)
    requires Sound(s)
    ensures Sound(t)
  {
    if s.queue == [] && s.files == [] then Close(s).(status := ToPrimary) else s
  }

  function Rotate(s: Store, env: Env): (r: Store)
    requires Sound(s)
  {
    if s.appending && env.rotate then OpenFile(s) else s
  }

  function Drained(s: Store, env: Env, max: nat): (r: Store) {
    var (left, taken) := Transfer(s.queue, env.accepts, 0, max);
    s.(queue := left, delivered := s.delivered + taken)
  }

  function DoCron(s: Store, env: Env, max: nat): (t: Store)
    requires Sound(s)
    ensures Sound(t)
  {
    var a := if s.status.ToSecondary? && env.primaryOpen then s.(status := Transfering, queue := []) else s;
    var b := if a.status.Transfering? then Finish(Refill(Drained(a, env, max))) else a;
    Rotate(b, env)
  }

  function Apply(s: Store, op: Op, max: nat): (r: Store)
    requires Sound(s)
  {
    match op
    case Add(m, env) => DoAdd(s, m, env)
    case Cron(env) => DoCron(s, env, max)
  }

  function Exec(s: Store, ops: seq<Op>, max: nat): (t: Store)
    requires Sound(s)
    ensures Sound(t)
    decreases |ops|
  {
    if ops == [] then s else Exec(Apply(s, ops[0], max), ops[1..], max)
  }

  // ----- Refinement of a FIFO -----

  datatype Fate = Delivered | Refused | Unreadable

  datatype Outcome = Outcome(m: Message, fate: Fate)

  /** What happened so far: the messages dealt with, in order and with their fate; those of the last file read that
      could not be read back, waiting behind the queue; and what each buffer file was made of. */
  datatype History = History(resolved: seq<Outcome>, doomed: seq<Message>, records: seq<seq<Message>>)

  function Subjects(os: seq<Outcome>): (r: seq<Message>) { seq(|os|, i requires 0 <= i < |os| => os[i].m) }

  function WithFate(ms: seq<Message>, fate: Fate): (r: seq<Outcome>) {
    seq(|ms|, i requires 0 <= i < |ms| => Outcome(ms[i], fate))
  }

  /** The messages that met one fate, in order. */
  function Those(os: seq<Outcome>, fate: Fate): (r: seq<Message>) {
    if os == [] then []
    else Those(os[..|os| - 1], fate) + if os[|os| - 1].fate == fate then [os[|os| - 1].m] else []
  }

  /** The messages the primary refused during one transfer turn: none or one. */
  function Refusal(queue: seq<Message>, accepts: nat -> bool, cnt: nat, max: nat): (r: seq<Message>)
    decreases |queue|
  {
    if queue == [] || cnt >= max then []
    else if !accepts(cnt) then [queue[0]]
    else Refusal(queue[1..], accepts, cnt + 1, max)
  }

  /** The messages the primary refused during the transfers of a whole run. */
  function Refusals(s: Store, ops: seq<Op>, max: nat): (r: seq<Message>)
    requires Sound(s)
    decreases |ops|
  {
    if ops == [] then [] else RefusedBy(s, ops[0], max) + Refusals(Apply(s, ops[0], max), ops[1..], max)
  }

  function RefusedBy(s: Store, op: Op, max: nat): (r: seq<Message>) {
    if op.Cron? && s.status.Transfering? then Refusal(s.queue, op.env.accepts, 0, max) else []
  }

  /** Everything accepted, in order: dealt with, queued, unreadable behind the queue, and in the files. */
  function Accepted(h: History, s: Store): (r: seq<Message>) { Ahead(h, s) + Concat(h.records) }

  function Ahead(h: History, s: Store): (r: seq<Message>) { Subjects(h.resolved) + s.queue + h.doomed }

  /** What a buffer file was made of: it reads back as the readable prefix. An old file may be damaged or cut. */
  predicate ReadsAs(file: bytes, ms: seq<Message>) { Decode(file, 0) == ReadablePrefix(ms) }

  /** The file that is open for appending holds exactly its messages. */
  predicate Written(file: bytes, ms: seq<Message>) { file == EncodeFile(ms) && AllFit(ms) }

  ghost predicate Filed(records: seq<seq<Message>>, files: seq<bytes>, appending: bool) {
    && |records| == |files|
    && (forall i | 0 <= i < |files| :: ReadsAs(files[i], records[i]))
    && (appending && files != [] ==> Written(files[|files| - 1], records[|files| - 1]))
  }

  predicate NothingLost(h: History) {
    h.doomed == [] && Those(h.resolved, Unreadable) == []
  }

  /** The part of the explanation that every stage of an operation keeps. */
  ghost predicate Accounts(h: History, s: Store) {
    && Sound(s)
    && Filed(h.records, s.files, s.appending)
    && s.delivered == Those(h.resolved, Delivered)
    && (s.queue == [] ==> h.doomed == [])
    && (AllReadable(Accepted(h, s)) ==> NothingLost(h))
  }

  ghost predicate Explains(h: History, s: Store) {
    && Accounts(h, s)
    && (s.status.ToPrimary? ==> s.queue == [] && s.files == [])
    && (s.status.ToSecondary? ==> s.queue == [] && s.appending)
    && (s.status.Transfering? ==> s.queue != [] || s.files != [])
  }

  lemma {:induction false} ThoseAppend(a: seq<Outcome>, b: seq<Outcome>, fate: Fate)
    ensures Those(a + b, fate) == Those(a, fate) + Those(b, fate)
    decreases |b|
  {
    if b == [] {
      assert a + b == a;
    } else {
      var last := |b| - 1;
      ThoseAppend(a, b[..last], fate);
      assert (a + b)[..|a + b| - 1] == a + b[..last] && (a + b)[|a + b| - 1] == b[last];
      Assoc(Those(a, fate), Those(b[..last], fate), if b[last].fate == fate then [b[last].m] else []);
    }
  }

  lemma {:induction false} ThoseUnreadable(ms: seq<Message>, fate: Fate)
    ensures Those(WithFate(ms, Unreadable), fate) == if fate == Unreadable then ms else []
    decreases |ms|
  {
    if ms != [] {
      var last := |ms| - 1;
      ThoseUnreadable(ms[..last], fate);
      assert WithFate(ms, Unreadable)[..last] == WithFate(ms[..last], Unreadable);
    }
  }

  lemma ThoseOne(o: Outcome, fate: Fate)
    ensures Those([o], fate) == if o.fate == fate then [o.m] else []
  {
    assert [o][..0] == [];
  }

  lemma {:induction false} EncodedEmpty(ms: seq<Message>)
    ensures EncodeFile(ms) == [] <==> ms == []
  {}

  lemma CloseFiled(records: seq<seq<Message>>, s: Store) returns (r: seq<seq<Message>>)
    requires Sound(s) && Filed(records, s.files, s.appending)
    ensures Filed(r, Close(s).files, false) && Concat(r) == Concat(records)
  {
    r := records;
    if s.appending && s.files[|s.files| - 1] == [] {
      var last := |s.files| - 1;
      EncodedEmpty(records[last]);
      r := records[..last];
      assert records == r + [[]];
      ConcatSnoc(r, []);
    }
  }

  lemma EmptyWritten()
    ensures Written([], []) && ReadsAs([], [])
  {
    DecodeEncoded([]);
  }

  lemma OpenFiled(records: seq<seq<Message>>, s: Store) returns (r: seq<seq<Message>>)
    requires Sound(s) && Filed(records, s.files, s.appending)
    ensures Filed(r, OpenFile(s).files, true) && Concat(r) == Concat(records)
  {
    var c := CloseFiled(records, s);
    r := c + [[]];
    EmptyWritten();
    ConcatSnoc(c, []);
  }

  lemma AppendFiled(records: seq<seq<Message>>, s: Store, m: Message) returns (r: seq<seq<Message>>)
    requires Sound(s) && Filed(records, s.files, s.appending) && Fits(m)
    ensures Filed(r, Append(s, m).files, true) && Concat(r) == Concat(records) + [m]
  {
    var o := records;
    if !s.appending { o := OpenFiled(records, s); }
    r := AppendLast(o, if s.appending then s.files else OpenFile(s).files, m);
  }

  lemma AppendLast(o: seq<seq<Message>>, files: seq<bytes>, m: Message) returns (r: seq<seq<Message>>)
    requires files != [] && Filed(o, files, true) && Fits(m)
    ensures var last := |files| - 1; Filed(r, files[last := files[last] + EncodeMessage(m)], true)
    ensures Concat(r) == Concat(o) + [m]
  {
    var last := |o| - 1;
    WriteOne(files[last], o[last], m);
    r := o[last := o[last] + [m]];
    LastFiled(o, files, files[last] + EncodeMessage(m), o[last] + [m]);
    SnocInLast(o, m);
  }

  lemma LastFiled(o: seq<seq<Message>>, files: seq<bytes>, file: bytes, ms: seq<Message>)
    requires files != [] && Filed(o, files, true) && Written(file, ms) && ReadsAs(file, ms)
    ensures var last := |files| - 1; Filed(o[last := ms], files[last := file], true)
  {
    var last := |files| - 1;
    var r, after := o[last := ms], files[last := file];
    forall i | 0 <= i < |after| ensures ReadsAs(after[i], r[i]) {
      if i < last { assert ReadsAs(files[i], o[i]); }
    }
  }

  lemma WriteOne(file: bytes, ms: seq<Message>, m: Message)
    requires Written(file, ms) && Fits(m)
    ensures Written(file + EncodeMessage(m), ms + [m]) && ReadsAs(file + EncodeMessage(m), ms + [m])
  {
    EncodeSnoc(ms, m, EncodeMessage(m));
    DecodeEncoded(ms + [m]);
  }

  lemma SnocInLast(o: seq<seq<Message>>, m: Message)
    requires o != []
    ensures var last := |o| - 1; Concat(o[last := o[last] + [m]]) == Concat(o) + [m]
  {
    var last := |o| - 1;
    assert o == o[..last] + [o[last]] && o[last := o[last] + [m]] == o[..last] + [o[last] + [m]];
    ConcatSnoc(o[..last], o[last]);
    ConcatSnoc(o[..last], o[last] + [m]);
  }

  lemma AllReadableFront(ms: seq<Message>, m: Message)
    ensures AllReadable(ms + [m]) ==> AllReadable(ms)
  {
    assert forall i | 0 <= i < |ms| :: (ms + [m])[i] == ms[i];
  }

  /** A transfer turn dealt with the front of the queue: these messages delivered, these refused, nothing else. */
  predicate Tells(os: seq<Outcome>, queue: seq<Message>, left: seq<Message>, taken: seq<Message>, refused: seq<Message>) {
    Subjects(os) + left == queue && Those(os, Delivered) == taken && Those(os, Refused) == refused && Those(os, Unreadable) == []
  }

  lemma TellsRefused(queue: seq<Message>)
    requires queue != []
    ensures Tells([Outcome(queue[0], Refused)], queue, queue[1..], [], [queue[0]])
  {
    var o := Outcome(queue[0], Refused);
    ThoseOne(o, Delivered); ThoseOne(o, Refused); ThoseOne(o, Unreadable);
    assert Subjects([o]) == [queue[0]];
  }

  lemma TellsDelivered(rest: seq<Outcome>, queue: seq<Message>, left: seq<Message>, taken: seq<Message>, refused: seq<Message>)
    requires queue != [] && Tells(rest, queue[1..], left, taken, refused)
    ensures Tells([Outcome(queue[0], Delivered)] + rest, queue, left, [queue[0]] + taken, refused)
  {
    var o := Outcome(queue[0], Delivered);
    ThoseOne(o, Delivered); ThoseOne(o, Refused); ThoseOne(o, Unreadable);
    Resolve([o], rest);
    NothingAdded(refused);
    NothingAdded<Message>([]);
    assert Subjects([o]) == [queue[0]];
    Assoc([queue[0]], Subjects(rest), left);
  }

  lemma {:induction false} TransferOutcomes(queue: seq<Message>, accepts: nat -> bool, cnt: nat, max: nat) returns (os: seq<Outcome>)
    ensures var turn := Transfer(queue, accepts, cnt, max);
            Tells(os, queue, turn.0, turn.1, Refusal(queue, accepts, cnt, max))
    decreases |queue|
  {
    if queue == [] || cnt >= max {
      os := [];
      NothingAdded(queue);
    } else if !accepts(cnt) {
      os := [Outcome(queue[0], Refused)];
      TellsRefused(queue);
    } else {
      var rest := TransferOutcomes(queue[1..], accepts, cnt + 1, max);
      os := [Outcome(queue[0], Delivered)] + rest;
      var (left, taken) := Transfer(queue[1..], accepts, cnt + 1, max);
      TellsDelivered(rest, queue, left, taken, Refusal(queue[1..], accepts, cnt + 1, max));
    }
  }

  /** Outcomes are added at the end: subjects and each fate's messages grow alike. */
  lemma Resolve(a: seq<Outcome>, b: seq<Outcome>)
    ensures Subjects(a + b) == Subjects(a) + Subjects(b)
    ensures Those(a + b, Delivered) == Those(a, Delivered) + Those(b, Delivered)
    ensures Those(a + b, Refused) == Those(a, Refused) + Those(b, Refused)
    ensures Those(a + b, Unreadable) == Those(a, Unreadable) + Those(b, Unreadable)
  {
    ThoseAppend(a, b, Delivered);
    ThoseAppend(a, b, Refused);
    ThoseAppend(a, b, Unreadable);
  }

  /** Once the queue is empty the messages waiting behind it are known to be lost. */
  function Settle(h: History, queue: seq<Message>): (r: History) {
    if queue == [] then h.(resolved := h.resolved + WithFate(h.doomed, Unreadable), doomed := []) else h
  }

  lemma SettleKeeps(h: History, s: Store)
    ensures var g := Settle(h, s.queue);
            && Ahead(g, s) == Ahead(h, s) && Those(g.resolved, Delivered) == Those(h.resolved, Delivered)
            && Those(g.resolved, Refused) == Those(h.resolved, Refused)
            && g.records == h.records && h.resolved <= g.resolved && (NothingLost(h) ==> NothingLost(g))
            && (s.queue == [] ==> g.doomed == [])
  {
    if s.queue == [] {
      DoomedResolved(h.resolved, h.doomed);
      var subjects := Subjects(h.resolved);
      NothingAdded(subjects);
      NothingAdded(subjects + h.doomed);
    }
  }

  lemma DoomedResolved(os: seq<Outcome>, doomed: seq<Message>)
    ensures var after := os + WithFate(doomed, Unreadable);
      && Subjects(after) == Subjects(os) + doomed && Those(after, Delivered) == Those(os, Delivered)
      && Those(after, Refused) == Those(os, Refused) && Those(after, Unreadable) == Those(os, Unreadable) + doomed
  {
    var late := WithFate(doomed, Unreadable);
    Resolve(os, late);
    ThoseUnreadable(doomed, Delivered);
    ThoseUnreadable(doomed, Refused);
    ThoseUnreadable(doomed, Unreadable);
    NothingAdded(Those(os, Delivered));
    NothingAdded(Those(os, Refused));
    assert Subjects(late) == doomed;
  }

  lemma DrainedMiddle(h: History, s: Store, env: Env, max: nat) returns (mid: History)
    requires Accounts(h, s)
    ensures var t := Drained(s, env, max); Ahead(mid, t) == Ahead(h, s) && t.delivered == Those(mid.resolved, Delivered)
    ensures mid.doomed == h.doomed && mid.records == h.records && h.resolved <= mid.resolved
    ensures Those(mid.resolved, Refused) == Those(h.resolved, Refused) + Refusal(s.queue, env.accepts, 0, max)
    ensures Those(mid.resolved, Unreadable) == Those(h.resolved, Unreadable)
  {
    var os := TransferOutcomes(s.queue, env.accepts, 0, max);
    mid := h.(resolved := h.resolved + os);
    Resolve(h.resolved, os);
    var left := Drained(s, env, max).queue;
    Assoc(Subjects(h.resolved), Subjects(os), left);
    NothingAdded(Those(h.resolved, Unreadable));
  }

  lemma DrainedAccounts(h: History, s: Store, env: Env, max: nat) returns (g: History)
    requires Accounts(h, s)
    ensures Accounts(g, Drained(s, env, max)) && Accepted(g, Drained(s, env, max)) == Accepted(h, s)
    ensures h.resolved <= g.resolved && g.records == h.records
    ensures Those(g.resolved, Refused) == Those(h.resolved, Refused) + Refusal(s.queue, env.accepts, 0, max)
  {
    var t := Drained(s, env, max);
    var mid := DrainedMiddle(h, s, env, max);
    SettleKeeps(mid, t);
    g := Settle(mid, t.queue);
  }

  /** Reading a file back: what is readable is queued, the rest waits behind it. */
  lemma ReadBack(h: History, s: Store) returns (g: History)
    requires Accounts(h, s) && s.queue == [] && s.files != [] && !s.appending
    ensures var t := s.(queue := Decode(s.files[0], 0), files := s.files[1..]);
            && Accounts(g, t) && Accepted(g, t) == Accepted(h, s)
            && h.resolved <= g.resolved && Those(g.resolved, Refused) == Those(h.resolved, Refused)
  {
    var t := s.(queue := Decode(s.files[0], 0), files := s.files[1..]);
    var mid := ReadBackMiddle(h, s, t);
    SettleKeeps(mid, t);
    g := Settle(mid, t.queue);
  }

  lemma ReadBackMiddle(h: History, s: Store, t: Store) returns (mid: History)
    requires Accounts(h, s) && s.queue == [] && s.files != [] && !s.appending
    requires t == s.(queue := Decode(s.files[0], 0), files := s.files[1..])
    ensures Filed(mid.records, t.files, false) && mid.resolved == h.resolved && Accepted(mid, t) == Accepted(h, s)
    ensures AllReadable(Accepted(h, s)) ==> NothingLost(mid)
  {
    assert ReadsAs(s.files[0], h.records[0]);
    mid := ReadBackHistory(h, s, t);
  }

  lemma ReadBackHistory(h: History, s: Store, t: Store) returns (mid: History)
    requires h.records != [] && h.doomed == [] && s.queue == [] && t.queue == ReadablePrefix(h.records[0])
    requires AllReadable(Accepted(h, s)) ==> NothingLost(h)
    ensures mid.resolved == h.resolved && mid.records == h.records[1..] && Accepted(mid, t) == Accepted(h, s)
    ensures AllReadable(Accepted(h, s)) ==> NothingLost(mid)
  {
    PrefixIsReadable(h.records[0]);
    var late := h.records[0][|t.queue|..];
    mid := History(h.resolved, late, h.records[1..]);
    UnreadableShows(h, s, late);
    QueueFromFile(h, s, t, late);
  }

  lemma QueueFromFile(h: History, s: Store, t: Store, late: seq<Message>)
    requires h.records != [] && s.queue == [] && h.doomed == [] && t.queue + late == h.records[0]
    ensures Accepted(History(h.resolved, late, h.records[1..]), t) == Accepted(h, s)
  {
    SameOrder(Subjects(h.resolved), h.records, t.queue, late);
  }

  lemma SameOrder(before: seq<Message>, records: seq<seq<Message>>, queue: seq<Message>, late: seq<Message>)
    requires records != [] && queue + late == records[0]
    ensures before + queue + late + Concat(records[1..]) == before + [] + [] + Concat(records)
  {
    var after := Concat(records[1..]);
    assert before + queue + late == before + (queue + late);
    assert before + records[0] + after == before + (records[0] + after);
    assert before + [] + [] == before;
  }

  /** Something unreadable in the oldest file shows among the accepted messages. */
  lemma UnreadableShows(h: History, s: Store, late: seq<Message>)
    requires h.records != [] && late == h.records[0][|ReadablePrefix(h.records[0])|..]
    ensures AllReadable(Accepted(h, s)) ==> late == []
  {
    PrefixIsReadable(h.records[0]);
    if late != [] {
      var i := |Ahead(h, s)| + |ReadablePrefix(h.records[0])|;
      assert Accepted(h, s) == Ahead(h, s) + (h.records[0] + Concat(h.records[1..]));
      assert !Readable(Accepted(h, s)[i]);
    }
  }

  lemma RefillAccounts(h: History, s: Store) returns (g: History)
    requires Accounts(h, s)
    ensures Accounts(g, Refill(s)) && Accepted(g, Refill(s)) == Accepted(h, s)
    ensures h.resolved <= g.resolved && Those(g.resolved, Refused) == Those(h.resolved, Refused)
  {
    g := h;
    if s.queue == [] && s.files != [] {
      var r := CloseFiled(h.records, s);
      g := h.(records := r);
      assert Ahead(g, Close(s)) == Ahead(h, s);
      if Close(s).files != [] { g := ReadBack(g, Close(s)); }
    }
  }

  /** Accepting a message puts it behind all others; nothing else changes its place or its fate. */
  lemma AddExplained(h: History, s: Store, m: Message, env: Env) returns (g: History)
    requires Explains(h, s) && Fits(m)
    ensures Explains(g, DoAdd(s, m, env))
    ensures Accepted(g, DoAdd(s, m, env)) == Accepted(h, s) + [m]
    ensures h.resolved <= g.resolved && Those(g.resolved, Refused) == Those(h.resolved, Refused)
  {
    AllReadableFront(Accepted(h, s), m);
    var t := DoAdd(s, m, env);
    if s.status.ToPrimary? && env.primaryOpen && env.accepts(0) {
      g := DeliverExplained(h, s, m);
    } else {
      var o, u := h.records, s;
      if s.status.ToPrimary? {
        o := OpenFiled(h.records, s);
        u := OpenFile(s).(status := ToSecondary);
      }
      var r := AppendFiled(o, u, m);
      g := h.(records := r);
      assert Ahead(g, t) == Ahead(h, s) && Concat(r) == Concat(h.records) + [m];
      assert Ahead(h, s) + (Concat(h.records) + [m]) == Ahead(h, s) + Concat(h.records) + [m];
      assert Accepted(g, t) == Accepted(h, s) + [m];
    }
  }

  lemma DeliverExplained(h: History, s: Store, m: Message) returns (g: History)
    requires Explains(h, s) && s.status.ToPrimary?
    ensures var t := s.(delivered := s.delivered + [m]);
            && Explains(g, t) && Accepted(g, t) == Accepted(h, s) + [m]
            && h.resolved <= g.resolved && Those(g.resolved, Refused) == Those(h.resolved, Refused)
  {
    var t := s.(delivered := s.delivered + [m]);
    var one := [Outcome(m, Delivered)];
    g := h.(resolved := h.resolved + one);
    OneMoreDelivered(h.resolved, m);
    var before := Subjects(h.resolved);
    NothingAdded(before);
    NothingAdded(before + [m]);
    assert Accepted(h, s) == before && Accepted(g, t) == before + [m];
    AllReadableFront(before, m);
  }

  lemma OneMoreDelivered(os: seq<Outcome>, m: Message)
    ensures var after := os + [Outcome(m, Delivered)];
      && Subjects(after) == Subjects(os) + [m] && Those(after, Delivered) == Those(os, Delivered) + [m]
      && Those(after, Refused) == Those(os, Refused) && Those(after, Unreadable) == Those(os, Unreadable)
  {
    var o := Outcome(m, Delivered);
    ThoseOne(o, Delivered); ThoseOne(o, Refused); ThoseOne(o, Unreadable);
    Resolve(os, [o]);
    NothingAdded(Those(os, Refused));
    NothingAdded(Those(os, Unreadable));
  }

  /** A transfer turn keeps the account and ends either with something left to transfer or back at the primary. */
  lemma TransferExplained(h: History, s: Store, env: Env, max: nat) returns (g: History)
    requires Accounts(h, s) && s.status.Transfering?
    ensures Explains(g, Finish(Refill(Drained(s, env, max))))
    ensures Accepted(g, Finish(Refill(Drained(s, env, max)))) == Accepted(h, s) && h.resolved <= g.resolved
    ensures Those(g.resolved, Refused) == Those(h.resolved, Refused) + Refusal(s.queue, env.accepts, 0, max)
  {
    var d := DrainedAccounts(h, s, env, max);
    var r := Refill(Drained(s, env, max));
    g := RefillAccounts(d, Drained(s, env, max));
    assert Ahead(g, Finish(r)) == Ahead(g, r) && Finish(r).files == r.files;
  }

  /** A cron moves messages along without adding, dropping or reordering any; fates once given stay. */
  lemma CronExplained(h: History, s: Store, env: Env, max: nat) returns (g: History)
    requires Explains(h, s)
    ensures Explains(g, DoCron(s, env, max))
    ensures Accepted(g, DoCron(s, env, max)) == Accepted(h, s) && h.resolved <= g.resolved
    ensures Those(g.resolved, Refused) == Those(h.resolved, Refused) + RefusedBy(s, Cron(env), max)
  {
    var a := if s.status.ToSecondary? && env.primaryOpen then s.(status := Transfering, queue := []) else s;
    assert Ahead(h, a) == Ahead(h, s);
    var b := a;
    g := h;
    if a.status.Transfering? {
      g := TransferExplained(h, a, env, max);
      b := Finish(Refill(Drained(a, env, max)));
    }
    if b.appending && env.rotate {
      var r := OpenFiled(g.records, b);
      g := g.(records := r);
      assert Ahead(g, OpenFile(b)) == Ahead(g, b);
    }
  }

  function Added(ops: seq<Op>): (r: seq<Message>) {
    if ops == [] then [] else (if ops[0].Add? then [ops[0].m] else []) + Added(ops[1..])
  }

  predicate OpsFit(ops: seq<Op>) { forall i | 0 <= i < |ops| && ops[i].Add? :: Fits(ops[i].m) }

  lemma {:induction false} ExecExplained(h: History, s: Store, ops: seq<Op>, max: nat, t: Store) returns (g: History)
    requires Explains(h, s) && OpsFit(ops) && t == Exec(s, ops, max)
    ensures Explains(g, t)
    ensures Accepted(g, t) == Accepted(h, s) + Added(ops) && h.resolved <= g.resolved
    ensures Those(g.resolved, Refused) == Those(h.resolved, Refused) + Refusals(s, ops, max)
    decreases |ops|
  {
    if ops == [] {
      g := h;
      assert Accepted(h, s) + Added(ops) == Accepted(h, s);
    } else {
      var mid := ApplyExplained(h, s, ops[0], max);
      g := ExecExplained(mid, Apply(s, ops[0], max), ops[1..], max, t);
      AddedCons(Accepted(h, s), ops);
      Assoc(Those(h.resolved, Refused), RefusedBy(s, ops[0], max), Refusals(Apply(s, ops[0], max), ops[1..], max));
    }
  }

  lemma AddedCons(before: seq<Message>, ops: seq<Op>)
    requires ops != []
    ensures before + (if ops[0].Add? then [ops[0].m] else []) + Added(ops[1..]) == before + Added(ops)
  {}

  lemma ApplyExplained(h: History, s: Store, op: Op, max: nat) returns (g: History)
    requires Explains(h, s) && (op.Add? ==> Fits(op.m))
    ensures Explains(g, Apply(s, op, max)) && h.resolved <= g.resolved
    ensures Those(g.resolved, Refused) == Those(h.resolved, Refused) + RefusedBy(s, op, max)
    ensures Accepted(g, Apply(s, op, max)) == Accepted(h, s) + if op.Add? then [op.m] else []
  {
    match op {
      case Add(m, env) => g := AddExplained(h, s, m, env);
      case Cron(env) => g := CronExplained(h, s, env, max);
    }
  }

  /** A history of a run from old files that are known to have been made of some messages. */
  lemma HistoryOf(records: seq<seq<Message>>, files: seq<bytes>, start: Env, ops: seq<Op>, max: nat, t: Store) returns (h: History)
    requires Filed(records, files, false) && OpsFit(ops) && t == Exec(Opened(files, start), ops, max)
    ensures Explains(h, t) && Accepted(h, t) == Concat(records) + Added(ops)
    ensures Those(h.resolved, Refused) == Refusals(Opened(files, start), ops, max)
  {
    var s := Opened(files, start);
    var r := records;
    if !start.primaryOpen { r := OpenFiled(records, Store(ToPrimary, [], files, false, [])); }
    var h0 := History([], [], r);
    assert Ahead(h0, s) == [];
    assert Accepted(h0, s) == Concat(records);
    h := ExecExplained(h0, s, ops, max, t);
  }

  /** The store refines a FIFO, for old buffer files that are known to have been made of some messages, whole, cut
      or damaged. */
  lemma RefinesFifoOf(records: seq<seq<Message>>, files: seq<bytes>, start: Env, ops: seq<Op>, max: nat) returns (h: History)
    requires Filed(records, files, false) && OpsFit(ops)
    ensures Explained(Concat(records) + Added(ops), h, files, start, ops, max)
  {
    h := HistoryOf(records, files, start, ops, max, Exec(Opened(files, start), ops, max));
  }

  /** A history that accounts for every message that was there or came, after a run over some old files. */
  ghost predicate Explained(all: seq<Message>, h: History, files: seq<bytes>, start: Env, ops: seq<Op>, max: nat) {
    var t := Exec(Opened(files, start), ops, max);
    && all == Subjects(h.resolved) + t.queue + h.doomed + Concat(h.records)
    && Filed(h.records, t.files, t.appending)
    && t.delivered == Those(h.resolved, Delivered)
    && Those(h.resolved, Refused) == Refusals(Opened(files, start), ops, max)
    && (AllReadable(all) ==> Those(h.resolved, Unreadable) == [] && h.doomed == [])
    && (t.status.ToPrimary? ==> t.queue == [] && t.files == [])
  }

  function Backlog(files: seq<bytes>): (r: seq<Message>) {
    if files == [] then [] else Decode(files[0], 0) + Backlog(files[1..])
  }

  /** What each file holds, read back. */
  function Contents(files: seq<bytes>): (r: seq<seq<Message>>) {
    seq(|files|, i requires 0 <= i < |files| => Decode(files[i], 0))
  }

  lemma {:induction false} BacklogIsContents(files: seq<bytes>)
    ensures Concat(Contents(files)) == Backlog(files)
  {
    if files != [] {
      BacklogIsContents(files[1..]);
      assert Contents(files)[1..] == Contents(files[1..]);
    }
  }

  lemma {:induction false} BacklogIsReadable(files: seq<bytes>)
    ensures AllReadable(Backlog(files))
  {
    if files != [] {
      DecodedIsReadable(files[0], 0);
      BacklogIsReadable(files[1..]);
    }
  }

  /** A history of a run from any bytes in the old files: what can be read from them counts as their messages. */
  lemma ExplainedRun(files: seq<bytes>, start: Env, ops: seq<Op>, max: nat, t: Store) returns (h: History)
    requires OpsFit(ops) && t == Exec(Opened(files, start), ops, max)
    ensures Explains(h, t) && Accepted(h, t) == Backlog(files) + Added(ops)
    ensures Those(h.resolved, Refused) == Refusals(Opened(files, start), ops, max)
  {
    forall i | 0 <= i < |files| ensures ReadsAs(files[i], Contents(files)[i]) {
      DecodedIsReadable(files[i], 0);
      PrefixOfReadable(Decode(files[i], 0));
    }
    BacklogIsContents(files);
    h := HistoryOf(Contents(files), files, start, ops, max, t);
  }

  /** The store refines a FIFO. After any run from any bytes in any number of old buffer files, the messages that can
      be read from those files and those added since are, in order and each exactly once: those dealt with, the queue,
      and the files. The primary got exactly those with fate Delivered; those with fate Refused are exactly what it
      refused during transfers; no other is missing unless an added message had an empty topic or content; and towards
      the primary nothing is buffered anywhere. */
  lemma RefinesFifo(files: seq<bytes>, start: Env, ops: seq<Op>, max: nat) returns (h: History)
    requires OpsFit(ops)
    ensures Explained(Backlog(files) + Added(ops), h, files, start, ops, max)
    ensures AllReadable(Added(ops)) ==> Those(h.resolved, Unreadable) == [] && h.doomed == []
  {
    BacklogIsReadable(files);
    h := ExplainedRun(files, start, ops, max, Exec(Opened(files, start), ops, max));
    assert AllReadable(Added(ops)) ==> AllReadable(Backlog(files) + Added(ops));
  }

  // ----- A transfer ends -----

  /** The primary takes whatever it is offered and no new buffer file is called for. */
  predicate Calm(env: Env, max: nat) { !env.rotate && forall i | 0 <= i < max :: env.accepts(i) }

  /** The state after n crons, the first in environment envs(i). */
  function Crons(s: Store, envs: nat -> Env, i: nat, n: nat, max: nat): (t: Store)
    requires Sound(s)
    ensures Sound(t)
    decreases n
  {
    if n == 0 then s else Crons(DoCron(s, envs(i), max), envs, i + 1, n - 1, max)
  }

  lemma {:induction false} TransferAll(queue: seq<Message>, accepts: nat -> bool, cnt: nat, max: nat)
    requires cnt <= max && forall i | cnt <= i < max :: accepts(i)
    ensures var k := if |queue| < max - cnt then |queue| else max - cnt;
            Transfer(queue, accepts, cnt, max) == (queue[k..], queue[..k])
    decreases |queue|
  {
    if queue != [] && cnt < max {
      TransferAll(queue[1..], accepts, cnt + 1, max);
      var k := if |queue| < max - cnt then |queue| else max - cnt;
      assert queue[1..][k - 1..] == queue[k..] && [queue[0]] + queue[1..][..k - 1] == queue[..k];
    }
  }

  lemma {:induction false} BacklogSnoc(files: seq<bytes>)
    ensures Backlog(files + [[]]) == Backlog(files)
  {
    if files == [] {
      assert files + [[]] == [[]] && Backlog([[]]) == Decode([], 0) + Backlog([]);
    } else {
      BacklogSnoc(files[1..]);
      assert (files + [[]])[0] == files[0] && (files + [[]])[1..] == files[1..] + [[]];
    }
  }

  lemma CloseBacklog(s: Store)
    requires Sound(s)
    ensures Backlog(Close(s).files) == Backlog(s.files) && |Close(s).files| <= |s.files|
  {
    if Close(s).files != s.files {
      assert s.files == Close(s).files + [[]];
      BacklogSnoc(Close(s).files);
    }
  }

  /** What the primary will have got once the transfer is over. */
  function Due(s: Store): (r: seq<Message>) { s.delivered + s.queue + Backlog(s.files) }

  lemma RefillDue(s: Store)
    requires Sound(s)
    ensures Due(Refill(s)) == Due(s) && Refill(s).status == s.status
    ensures s.queue == [] && s.files != [] ==> |Refill(s).files| < |s.files|
    ensures s.queue != [] || s.files == [] ==> Refill(s) == s
  {
    if s.queue == [] && s.files != [] {
      CloseBacklog(s);
      OldestFirst(s.delivered, Close(s).files);
    }
  }

  lemma OldestFirst(before: seq<Message>, files: seq<bytes>)
    ensures files != [] ==> before + Decode(files[0], 0) + Backlog(files[1..]) == before + [] + Backlog(files)
  {
    NothingAdded(before);
    if files != [] { Assoc(before, Decode(files[0], 0), Backlog(files[1..])); }
  }

  predicate UnderWay(s: Store) { s.status.Transfering? && (s.queue != [] || s.files != []) }

  predicate BackAtPrimary(s: Store) { s.status.ToPrimary? && s.queue == [] && s.files == [] }

  /** Fewer files, or as many and a shorter queue. */
  predicate Nearer(t: Store, s: Store) { |t.files| < |s.files| || (|t.files| == |s.files| && |t.queue| < |s.queue|) }

  /** One cron of a calm transfer gets to the primary or strictly decreases (files, queue); nothing due is lost. */
  lemma CronProgress(s: Store, env: Env, max: nat, t: Store)
    requires Sound(s) && UnderWay(s) && max >= 1 && Calm(env, max) && t == DoCron(s, env, max)
    ensures Due(t) == Due(s) && (BackAtPrimary(t) || (UnderWay(t) && Nearer(t, s)))
  {
    var d := Drained(s, env, max);
    CalmDrain(s, env, max);
    FinishProgress(d, Refill(d));
  }

  lemma FinishProgress(d: Store, r: Store)
    requires Sound(d) && d.status.Transfering? && r == Refill(d)
    ensures var t := Finish(r);
      && Due(t) == Due(d) && (BackAtPrimary(t) || UnderWay(t)) && |t.files| <= |d.files|
      && (UnderWay(t) ==> t == r && (d.queue != [] ==> r == d) && (d.queue == [] && d.files != [] ==> |t.files| < |d.files|))
  {
    RefillDue(d);
    if r.queue == [] && r.files == [] { CloseBacklog(r); }
  }

  /** A calm drain delivers the front of the queue, and something unless the queue was empty. */
  lemma CalmDrain(s: Store, env: Env, max: nat)
    requires max >= 1 && Calm(env, max)
    ensures var d := Drained(s, env, max);
      && Due(d) == Due(s) && d == s.(queue := d.queue, delivered := d.delivered)
      && (s.queue != [] ==> |d.queue| < |s.queue|)
  {
    TransferAll(s.queue, env.accepts, 0, max);
    var k := if |s.queue| < max then |s.queue| else max;
    assert s.queue == s.queue[..k] + s.queue[k..];
    Assoc(s.delivered, s.queue[..k], s.queue[k..]);
  }

  /** From any transfer, whatever the calm environment, finitely many crons lead back to the primary, which by then
      has every message that was queued or could be read from the files. */
  lemma {:induction false} TransferDrains(s: Store, envs: nat -> Env, i: nat, max: nat) returns (n: nat)
    requires Sound(s) && UnderWay(s) && max >= 1 && forall j: nat :: Calm(envs(j), max)
    ensures BackAtPrimary(Crons(s, envs, i, n, max)) && Crons(s, envs, i, n, max).delivered == Due(s)
    decreases |s.files|, |s.queue|, 1
  {
    var t := DoCron(s, envs(i), max);
    CronProgress(s, envs(i), max, t);
    n := RestDrains(t, envs, i + 1, max, |s.files|, |s.queue|);
    OneMoreCron(s, envs, i, n, max);
    n := n + 1;
  }

  lemma RestDrains(t: Store, envs: nat -> Env, i: nat, max: nat, files: nat, queue: nat) returns (n: nat)
    requires Sound(t) && max >= 1 && forall j: nat :: Calm(envs(j), max)
    requires BackAtPrimary(t) || (UnderWay(t) && (|t.files| < files || (|t.files| == files && |t.queue| < queue)))
    ensures BackAtPrimary(Crons(t, envs, i, n, max)) && Crons(t, envs, i, n, max).delivered == Due(t)
    decreases files, queue, 0
  {
    if BackAtPrimary(t) {
      n := 0;
      assert Due(t) == t.delivered + [] + [];
    } else {
      n := TransferDrains(t, envs, i, max);
    }
  }

  lemma OneMoreCron(s: Store, envs: nat -> Env, i: nat, n: nat, max: nat)
    requires Sound(s)
    ensures Crons(s, envs, i, n + 1, max) == Crons(DoCron(s, envs(i), max), envs, i + 1, n, max)
  {}
}
