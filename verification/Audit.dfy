/** The audit pipeline: request handlers drop entries into a bounded queue, one writer
    stores them, and `sync` waits behind a sentinel. */
module Audit {
  import opened Text

  const CAPACITY: nat := 1024
  const TWO_64: nat := 0x1_0000_0000_0000_0000
  const SENTINEL := "__sync__"

  /** An audit entry: the request method, everything else that is persisted, and the
      acknowledgement channel of the `sync` call it belongs to, if any. */
  datatype Entry = Entry(verb: string, body: string, ack: Option<nat>)

  predicate IsSentinel(e: Entry) {
    e.verb == SENTINEL
  }

  datatype SyncPc = Sending | Waiting | Returned

  /** `syncs` has one program counter per `sync` call; call `i` owns channel `i`, and
      `closed` holds the channels the writer has closed. */
  datatype State = State(
    queue: seq<Entry>,
    rows: seq<Entry>,
    written: nat,
    dropped: nat,
    closed: set<nat>,
    syncs: seq<SyncPc>,
    running: bool)

  const EMPTY := State([], [], 0, 0, {}, [], true)

  datatype Choice =
    | Record(verb: string, body: string)
    | Write(ok: bool)
    | SyncCall
    | SyncSend(i: nat)
    | SyncReturn(i: nat)
    | Stop

  function Close(closed: set<nat>, ack: Option<nat>): set<nat> {
    if ack.Some? then closed + {ack.value} else closed
  }

  /** One round of the writer; `ok` is whether an insert would succeed. */
  function WriterStep(s: State, ok: bool): State {
    if !s.running || s.queue == [] then s
    else
      var e, s1 := s.queue[0], s.(queue := s.queue[1..]);
      if IsSentinel(e) then s1.(closed := Close(s.closed, e.ack))
      else if !ok then s1
      else s1.(rows := s.rows + [e], written := (s.written + 1) % TWO_64, closed := Close(s.closed, e.ack))
  }

  function RecordStep(s: State, e: Entry): State {
    if |s.queue| < CAPACITY then s.(queue := s.queue + [e])
    else s.(dropped := (s.dropped + 1) % TWO_64)
  }

  predicate CanSend(s: State, i: nat) {
    i < |s.syncs| && s.syncs[i].Sending? && |s.queue| < CAPACITY
  }

  function Marker(i: nat): Entry {
    Entry(SENTINEL, "", Some(i))
  }

  function Apply(s: State, c: Choice): State {
    match c
    case Record(verb, body) => RecordStep(s, Entry(verb, body, None))
    case Write(ok) => WriterStep(s, ok)
    case SyncCall => s.(syncs := s.syncs + [Sending])
    case SyncSend(i) =>
      if CanSend(s, i) then s.(queue := s.queue + [Marker(i)], syncs := s.syncs[i := Waiting]) else s
    case SyncReturn(i) =>
      if i < |s.syncs| && s.syncs[i].Waiting? && i in s.closed then s.(syncs := s.syncs[i := Returned]) else s
    case Stop => s.(running := false)
  }

  function Exec(s: State, cs: seq<Choice>): State
    decreases cs
  {
    if cs == [] then s else Exec(Apply(s, cs[0]), cs[1..])
  }

  // ----- what a run did, read off its steps -----

  /** The entries this step put into the queue. */
  function AcceptedAt(s: State, c: Choice): seq<Entry> {
    match c
    case Record(verb, body) => if |s.queue| < CAPACITY then [Entry(verb, body, None)] else []
    case SyncSend(i) => if CanSend(s, i) then [Marker(i)] else []
    case _ => []
  }

  datatype Handled = Handled(e: Entry, ok: bool)

  /** The entry this step took out of the queue, and whether its insert succeeded. */
  function HandledAt(s: State, c: Choice): seq<Handled> {
    if c.Write? && s.running && s.queue != [] then [Handled(s.queue[0], c.ok)] else []
  }

  function Accepted(s: State, cs: seq<Choice>): seq<Entry>
    decreases cs
  {
    if cs == [] then [] else AcceptedAt(s, cs[0]) + Accepted(Apply(s, cs[0]), cs[1..])
  }

  function HandledIn(s: State, cs: seq<Choice>): seq<Handled>
    decreases cs
  {
    if cs == [] then [] else HandledAt(s, cs[0]) + HandledIn(Apply(s, cs[0]), cs[1..])
  }

  function Entries(hs: seq<Handled>): (es: seq<Entry>)
    ensures |es| == |hs| && forall n :: 0 <= n < |hs| ==> es[n] == hs[n].e
  {
    seq(|hs|, n requires 0 <= n < |hs| => hs[n].e)
  }

  function StoredOne(h: Handled): seq<Entry> {
    if h.ok && !IsSentinel(h.e) then [h.e] else []
  }

  /** Those of the handled entries that became rows. */
  function Stored(hs: seq<Handled>): seq<Entry> {
    if hs == [] then []
    else StoredOne(hs[0]) + Stored(hs[1..])
  }

  lemma StepIsFifo(s: State, c: Choice)
    ensures s.queue + AcceptedAt(s, c) == Entries(HandledAt(s, c)) + Apply(s, c).queue
    ensures Apply(s, c).rows == s.rows + Stored(HandledAt(s, c))
  {
    if HandledAt(s, c) != [] {
      assert Entries(HandledAt(s, c)) == [s.queue[0]];
      assert s.queue == [s.queue[0]] + s.queue[1..];
    } else {
      assert Entries(HandledAt(s, c)) == [];
    }
  }

  lemma {:induction false} StoredSplits(a: seq<Handled>, b: seq<Handled>)
    ensures Stored(a + b) == Stored(a) + Stored(b)
  {
    if a == [] {
      assert a + b == b;
    } else {
      assert (a + b)[0] == a[0] && (a + b)[1..] == a[1..] + b;
      StoredSplits(a[1..], b);
    }
  }

  lemma StoredConcat(a: seq<Handled>, b: seq<Handled>)
    ensures Entries(a + b) == Entries(a) + Entries(b)
    ensures Stored(a + b) == Stored(a) + Stored(b)
  {
    StoredSplits(a, b);
  }

  lemma {:induction false} RowsAreStored(s: State, cs: seq<Choice>)
    ensures Exec(s, cs).rows == s.rows + Stored(HandledIn(s, cs))
    decreases cs
  {
    if cs != [] {
      var s1 := Apply(s, cs[0]);
      var hs, rest := HandledAt(s, cs[0]), HandledIn(s1, cs[1..]);
      RowsAreStored(s1, cs[1..]);
      StepIsFifo(s, cs[0]);
      StoredConcat(hs, rest);
      assert (s.rows + Stored(hs)) + Stored(rest) == s.rows + (Stored(hs) + Stored(rest));
    }
  }

  lemma {:induction false} QueueIsFifo(s: State, cs: seq<Choice>)
    ensures s.queue + Accepted(s, cs) == Entries(HandledIn(s, cs)) + Exec(s, cs).queue
    decreases cs
  {
    if cs == [] {
      assert Entries(HandledIn(s, cs)) == [];
    } else {
      var s1 := Apply(s, cs[0]);
      var hs, rest := HandledAt(s, cs[0]), HandledIn(s1, cs[1..]);
      QueueIsFifo(s1, cs[1..]);
      StepIsFifo(s, cs[0]);
      StoredConcat(hs, rest);
      Chain(s.queue, AcceptedAt(s, cs[0]), Accepted(s1, cs[1..]), Entries(hs), s1.queue, Entries(rest),
        Exec(s, cs).queue);
    }
  }

  /** First in, first out: at every moment, what was queued at the start and accepted since
      is, in that order, what was handled followed by what is still queued; and the stored
      rows are the handled entries that are no sentinels and did not fail, in order. */
  lemma FirstInFirstOut(s: State, cs: seq<Choice>)
    ensures var t, hs := Exec(s, cs), HandledIn(s, cs);
      && s.queue + Accepted(s, cs) == Entries(hs) + t.queue
      && t.rows == s.rows + Stored(hs)
  {
    RowsAreStored(s, cs);
    QueueIsFifo(s, cs);
  }

  lemma Chain<T>(q: seq<T>, acc: seq<T>, later: seq<T>, e1: seq<T>, q1: seq<T>, e2: seq<T>, q2: seq<T>)
    requires q + acc == e1 + q1 && q1 + later == e2 + q2
    ensures q + (acc + later) == (e1 + e2) + q2
  {
    assert q + (acc + later) == (q + acc) + later == e1 + (q1 + later);
    assert e1 + (e2 + q2) == (e1 + e2) + q2;
  }

  // ----- conservation -----

  function Plain(es: seq<Entry>): nat {
    if es == [] then 0 else (if IsSentinel(es[0]) then 0 else 1) + Plain(es[1..])
  }

  lemma {:induction false} PlainConcat(a: seq<Entry>, b: seq<Entry>)
    ensures Plain(a + b) == Plain(a) + Plain(b)
  {
    if a == [] {
      assert a + b == b;
    } else {
      assert (a + b)[1..] == a[1..] + b;
      PlainConcat(a[1..], b);
    }
  }

  /** How many calls of `record` offered an entry that is no sentinel. */
  function Offered(cs: seq<Choice>): nat {
    if cs == [] then 0
    else (if cs[0].Record? && cs[0].verb != SENTINEL then 1 else 0) + Offered(cs[1..])
  }

  predicate DropsAt(s: State, c: Choice) {
    c.Record? && |s.queue| >= CAPACITY
  }

  /** How many calls of `record` found the queue full, with or without sentinels. */
  function Dropped(s: State, cs: seq<Choice>, all: bool): nat
    decreases cs
  {
    if cs == [] then 0
    else
      (if DropsAt(s, cs[0]) && (all || cs[0].verb != SENTINEL) then 1 else 0)
      + Dropped(Apply(s, cs[0]), cs[1..], all)
  }

  /** How many entries failed their insert. */
  function FailedIn(s: State, cs: seq<Choice>): nat
    decreases cs
  {
    if cs == [] then 0
    else
      var hs := HandledAt(s, cs[0]);
      (if hs != [] && !hs[0].ok && !IsSentinel(hs[0].e) then 1 else 0) + FailedIn(Apply(s, cs[0]), cs[1..])
  }

  lemma StepConserves(s: State, c: Choice)
    ensures var t := Apply(s, c);
      Plain(s.queue) + Offered([c]) ==
        (|t.rows| - |s.rows|) + FailedIn(s, [c]) + Plain(t.queue) + Dropped(s, [c], false)
    ensures Apply(s, c).dropped == (if DropsAt(s, c) then (s.dropped + 1) % TWO_64 else s.dropped)
    ensures |s.queue| <= CAPACITY ==> |Apply(s, c).queue| <= CAPACITY
  {
    match c
    case Record(verb, body) => PlainConcat(s.queue, [Entry(verb, body, None)]);
    case SyncSend(i) => PlainConcat(s.queue, [Marker(i)]);
    case _ =>
  }

  /** Conservation in every run: every offered entry that is no sentinel is a row, failed its
      insert, is still queued or was dropped, and is only one of these. The queue never
      exceeds its capacity. */
  lemma {:induction false} Conservation(s: State, cs: seq<Choice>)
    requires |s.queue| <= CAPACITY
    ensures var t := Exec(s, cs);
      && Plain(s.queue) + Offered(cs) ==
           (|t.rows| - |s.rows|) + FailedIn(s, cs) + Plain(t.queue) + Dropped(s, cs, false)
      && |t.queue| <= CAPACITY
    decreases cs
  {
    if cs != [] {
      StepConserves(s, cs[0]);
      Conservation(Apply(s, cs[0]), cs[1..]);
      assert cs == [cs[0]] + cs[1..];
    }
  }

  /** Counting one more of `n` things modulo 2^64. */
  lemma CountOn(start: nat, n: nat, c: nat)
    requires c == (start + n) % TWO_64
    ensures (c + 1) % TWO_64 == (start + (1 + n)) % TWO_64
  {
  }

  lemma {:induction false} RowsCounted(s: State, cs: seq<Choice>)
    requires s.written == |s.rows| % TWO_64
    ensures Exec(s, cs).written == |Exec(s, cs).rows| % TWO_64
    decreases cs
  {
    if cs != [] {
      RowsCounted(Apply(s, cs[0]), cs[1..]);
    }
  }

  lemma {:induction false} DropsCounted(s: State, cs: seq<Choice>, start: nat)
    requires s.dropped == start % TWO_64
    ensures Exec(s, cs).dropped == (start + Dropped(s, cs, true)) % TWO_64
    decreases cs
  {
    if cs != [] {
      StepConserves(s, cs[0]);
      if DropsAt(s, cs[0]) {
        CountOn(start, 0, s.dropped);
        DropsCounted(Apply(s, cs[0]), cs[1..], start + 1);
      } else {
        DropsCounted(Apply(s, cs[0]), cs[1..], start);
      }
    }
  }

  /** The two monitoring counters are the number of rows and of dropped calls, modulo 2^64. */
  lemma CountersCount(s: State, cs: seq<Choice>)
    requires s.written == |s.rows| % TWO_64 && s.dropped < TWO_64
    ensures var t := Exec(s, cs);
      && t.written == |t.rows| % TWO_64
      && t.dropped == (s.dropped + Dropped(s, cs, true)) % TWO_64
  {
    RowsCounted(s, cs);
    DropsCounted(s, cs, s.dropped);
  }

  // ----- the barrier -----

  /** Channels in the queue belong to calls that have sent, are open, and occur once. */
  predicate Open(e: Entry, syncs: seq<SyncPc>, closed: set<nat>) {
    e.ack.Some? ==> e.ack.value < |syncs| && !syncs[e.ack.value].Sending? && e.ack.value !in closed
  }

  predicate QueueOpen(queue: seq<Entry>, syncs: seq<SyncPc>, closed: set<nat>) {
    forall n :: 0 <= n < |queue| ==> Open(queue[n], syncs, closed)
  }

  predicate Distinct(queue: seq<Entry>) {
    forall m, n :: 0 <= m < n < |queue| && queue[m].ack.Some? ==> queue[m].ack != queue[n].ack
  }

  predicate ClosedSent(syncs: seq<SyncPc>, closed: set<nat>) {
    forall i :: i in closed ==> i < |syncs| && !syncs[i].Sending?
  }

  predicate AckInv(s: State) {
    QueueOpen(s.queue, s.syncs, s.closed) && Distinct(s.queue) && ClosedSent(s.syncs, s.closed)
  }

  lemma TakenKeepsAcks(queue: seq<Entry>, syncs: seq<SyncPc>, closed: set<nat>)
    requires queue != [] && QueueOpen(queue, syncs, closed) && Distinct(queue) && ClosedSent(syncs, closed)
    ensures QueueOpen(queue[1..], syncs, closed) && Distinct(queue[1..])
    ensures QueueOpen(queue[1..], syncs, Close(closed, queue[0].ack)) && ClosedSent(syncs, Close(closed, queue[0].ack))
  {
    assert Open(queue[0], syncs, closed);
    assert forall n :: 0 <= n < |queue| - 1 ==> queue[1..][n] == queue[n + 1];
  }

  lemma SentKeepsAcks(queue: seq<Entry>, syncs: seq<SyncPc>, closed: set<nat>, i: nat)
    requires QueueOpen(queue, syncs, closed) && Distinct(queue) && ClosedSent(syncs, closed)
    requires i < |syncs| && syncs[i].Sending?
    ensures var after := syncs[i := Waiting];
      && QueueOpen(queue + [Marker(i)], after, closed) && Distinct(queue + [Marker(i)]) && ClosedSent(after, closed)
  {
    assert forall n :: 0 <= n < |queue| ==> Open(queue[n], syncs, closed);
  }

  lemma StepKeepsAcks(s: State, c: Choice)
    requires AckInv(s)
    ensures AckInv(Apply(s, c))
  {
    match c
    case Write(_) =>
      if s.running && s.queue != [] {
        TakenKeepsAcks(s.queue, s.syncs, s.closed);
      }
    case SyncSend(i) =>
      if CanSend(s, i) {
        SentKeepsAcks(s.queue, s.syncs, s.closed, i);
      }
    case _ => OthersKeepAcks(s, c);
  }

  lemma OthersKeepAcks(s: State, c: Choice)
    requires AckInv(s) && !c.Write? && !c.SyncSend?
    ensures AckInv(Apply(s, c))
  {
    assert forall n :: 0 <= n < |s.queue| ==> Open(s.queue[n], s.syncs, s.closed);
  }

  lemma {:induction false} RunKeepsAcks(s: State, cs: seq<Choice>)
    requires AckInv(s)
    ensures AckInv(Exec(s, cs))
    decreases cs
  {
    if cs != [] {
      StepKeepsAcks(s, cs[0]);
      RunKeepsAcks(Apply(s, cs[0]), cs[1..]);
    }
  }

  /** In no run does the writer close a channel that is already closed. */
  lemma NeverClosesTwice(cs: seq<Choice>, ok: bool)
    ensures var s := Exec(EMPTY, cs);
      forall h :: h in HandledAt(s, Write(ok)) && h.e.ack.Some? ==> h.e.ack.value !in s.closed
  {
    RunKeepsAcks(EMPTY, cs);
  }

  /** Once a call has sent its sentinel, no later entry carries its channel, and its channel
      is only closed by handling an entry that does. */
  lemma {:induction false} ClosedByHandling(s: State, cs: seq<Choice>, i: nat)
    requires i < |s.syncs| && !s.syncs[i].Sending? && i !in s.closed
    ensures forall n :: 0 <= n < |Accepted(s, cs)| ==> Accepted(s, cs)[n].ack != Some(i)
    ensures i in Exec(s, cs).closed ==>
      exists n :: 0 <= n < |HandledIn(s, cs)| && HandledIn(s, cs)[n].e.ack == Some(i)
    decreases cs
  {
    if cs != [] {
      var s1 := Apply(s, cs[0]);
      var hs, rest := HandledAt(s, cs[0]), HandledIn(s1, cs[1..]);
      assert HandledIn(s, cs) == hs + rest;
      if i in s1.closed {
        assert HandledIn(s, cs)[0].e.ack == Some(i);
        AcceptedLater(s1, cs[1..], i);
      } else {
        ClosedByHandling(s1, cs[1..], i);
        if i in Exec(s, cs).closed {
          var n :| 0 <= n < |rest| && rest[n].e.ack == Some(i);
          assert (hs + rest)[|hs| + n] == rest[n];
        }
      }
    }
  }

  lemma {:induction false} AcceptedLater(s: State, cs: seq<Choice>, i: nat)
    requires i < |s.syncs| && !s.syncs[i].Sending?
    ensures forall n :: 0 <= n < |Accepted(s, cs)| ==> Accepted(s, cs)[n].ack != Some(i)
    decreases cs
  {
    if cs != [] {
      AcceptedLater(Apply(s, cs[0]), cs[1..], i);
    }
  }

  lemma {:induction false} ReturnedMeansClosed(s: State, cs: seq<Choice>, i: nat)
    requires i < |s.syncs| && (s.syncs[i].Returned? ==> i in s.closed)
    ensures i < |Exec(s, cs).syncs|
    ensures Exec(s, cs).syncs[i].Returned? ==> i in Exec(s, cs).closed
    decreases cs
  {
    if cs != [] {
      ReturnedMeansClosed(Apply(s, cs[0]), cs[1..], i);
    }
  }

  lemma {:induction false} ExecConcat(s: State, a: seq<Choice>, b: seq<Choice>)
    ensures Exec(s, a + b) == Exec(Exec(s, a), b)
    ensures Accepted(s, a + b) == Accepted(s, a) + Accepted(Exec(s, a), b)
    ensures HandledIn(s, a + b) == HandledIn(s, a) + HandledIn(Exec(s, a), b)
    decreases a
  {
    if a == [] {
      assert a + b == b;
    } else {
      var s1, t := Apply(s, a[0]), Exec(s, a);
      assert (a + b)[0] == a[0] && (a + b)[1..] == a[1..] + b;
      ExecConcat(s1, a[1..], b);
    }
  }

  /** The barrier, for one call: when it has returned, everything that was in the queue when
      it sent its sentinel has been handled. */
  lemma QueueHandled(s: State, i: nat, cs: seq<Choice>)
    requires AckInv(s) && CanSend(s, i)
    requires var t := Exec(Apply(s, SyncSend(i)), cs); i < |t.syncs| && t.syncs[i].Returned?
    ensures s.queue <= Entries(HandledIn(Apply(s, SyncSend(i)), cs))
  {
    var s1 := Apply(s, SyncSend(i));
    var hs, t := HandledIn(s1, cs), Exec(s1, cs);
    ReturnedMeansClosed(s1, cs, i);
    ClosedByHandling(s1, cs, i);
    FirstInFirstOut(s1, cs);
    var n :| 0 <= n < |hs| && hs[n].e.ack == Some(i);
    assert s1.queue + Accepted(s1, cs) == Entries(hs) + t.queue;
    assert (Entries(hs) + t.queue)[n] == hs[n].e;
    assert (s1.queue + Accepted(s1, cs))[n].ack == Some(i);
    assert n < |s1.queue|;
    assert s1.queue[n].ack == Some(i);
    assert n == |s.queue|;
    assert s.queue == (s1.queue + Accepted(s1, cs))[..|s.queue|] == (Entries(hs) + t.queue)[..|s.queue|];
  }

  lemma SendFirst(s: State, i: nat, after: seq<Choice>)
    ensures Exec(s, [SyncSend(i)] + after) == Exec(Apply(s, SyncSend(i)), after)
    ensures HandledIn(s, [SyncSend(i)] + after) == HandledIn(Apply(s, SyncSend(i)), after)
  {
    assert ([SyncSend(i)] + after)[1..] == after;
  }

  /** The barrier, for whole runs: when `sync` has returned, every entry accepted before its
      sentinel has been written or has failed its insert. */
  lemma SyncIsABarrier(before: seq<Choice>, i: nat, after: seq<Choice>)
    requires CanSend(Exec(EMPTY, before), i)
    requires var t := Exec(EMPTY, before + ([SyncSend(i)] + after)); i < |t.syncs| && t.syncs[i].Returned?
    ensures Accepted(EMPTY, before) <= Entries(HandledIn(EMPTY, before + ([SyncSend(i)] + after)))
  {
    var s := Exec(EMPTY, before);
    var tail := [SyncSend(i)] + after;
    RunKeepsAcks(EMPTY, before);
    ExecConcat(EMPTY, before, tail);
    SendFirst(s, i, after);
    QueueHandled(s, i, after);
    FirstInFirstOut(EMPTY, before);
    var h1, h2 := HandledIn(EMPTY, before), HandledIn(s, tail);
    StoredConcat(h1, h2);
    assert Accepted(EMPTY, before) == [] + Accepted(EMPTY, before) == Entries(h1) + s.queue;
  }

  // ----- the barrier opens -----

  lemma {:induction false} ClosedStays(s: State, cs: seq<Choice>)
    ensures s.closed <= Exec(s, cs).closed
    decreases cs
  {
    if cs != [] {
      ClosedStays(Apply(s, cs[0]), cs[1..]);
    }
  }

  /** Handling this entry closes channel `i`: it carries it and is a sentinel or was stored. */
  predicate Acknowledges(h: Handled, i: nat) {
    h.e.ack == Some(i) && (h.ok || h.e.verb == "__sync__")
  }

  lemma HandlingCloses(s: State, c: Choice, i: nat)
    ensures i in Apply(s, c).closed <==> i in s.closed || exists h :: h in HandledAt(s, c) && Acknowledges(h, i)
  {
    if c.Write? && s.running && s.queue != [] {
      assert HandledAt(s, c) == [Handled(s.queue[0], c.ok)];
      assert Handled(s.queue[0], c.ok) in HandledAt(s, c);
    }
  }

  /** In every run exactly these channels are closed: those that were, and those of the entries
      handled, a sentinel's always and any other's unless its insert failed. */
  lemma {:induction false} ClosedExactly(s: State, cs: seq<Choice>, i: nat)
    ensures i in Exec(s, cs).closed <==> i in s.closed || exists h :: h in HandledIn(s, cs) && Acknowledges(h, i)
    decreases cs
  {
    if cs != [] {
      var s1 := Apply(s, cs[0]);
      HandlingCloses(s, cs[0], i);
      ClosedExactly(s1, cs[1..], i);
      assert forall h :: h in HandledIn(s, cs) <==> h in HandledAt(s, cs[0]) || h in HandledIn(s1, cs[1..]);
    }
  }

  predicate WaitsFor(s: State, i: nat) {
    i < |s.syncs| && s.syncs[i].Waiting? ==> i in s.closed || Marker(i) in s.queue
  }

  /** Whoever waits has its sentinel in the queue, or its channel is closed. */
  predicate WaitInv(s: State) {
    forall i: nat :: i < |s.syncs| ==> WaitsFor(s, i)
  }

  lemma WaitsForStays(s: State, c: Choice, i: nat)
    requires WaitsFor(s, i)
    ensures WaitsFor(Apply(s, c), i)
  {
    if c.Write? && s.running && s.queue != [] {
      assert s.queue == [s.queue[0]] + s.queue[1..];
    }
    if c.SyncSend? && CanSend(s, c.i) {
      assert (s.queue + [Marker(c.i)])[|s.queue|] == Marker(c.i);
    }
  }

  lemma {:induction false} RunKeepsWaits(s: State, cs: seq<Choice>)
    requires WaitInv(s)
    ensures WaitInv(Exec(s, cs))
    decreases cs
  {
    if cs != [] {
      var t := Apply(s, cs[0]);
      forall i: nat | i < |t.syncs| ensures WaitsFor(t, i) {
        if i < |s.syncs| {
          WaitsForStays(s, cs[0], i);
        }
      }
      RunKeepsWaits(t, cs[1..]);
    }
  }

  /** The number of rounds the writer is given. */
  function Writes(cs: seq<Choice>): nat {
    if cs == [] then 0 else (if cs[0].Write? then 1 else 0) + Writes(cs[1..])
  }

  lemma {:induction false} WritesDrain(s: State, cs: seq<Choice>)
    requires s.running && Stop !in cs
    ensures |HandledIn(s, cs)| >= if Writes(cs) < |s.queue| then Writes(cs) else |s.queue|
    decreases cs
  {
    if cs != [] {
      assert cs[0] != Stop && forall c :: c in cs[1..] ==> c in cs;
      WritesDrain(Apply(s, cs[0]), cs[1..]);
    }
  }

  lemma {:induction false} OnceSent(s: State, cs: seq<Choice>, i: nat)
    requires i < |s.syncs| && !s.syncs[i].Sending?
    ensures i < |Exec(s, cs).syncs| && !Exec(s, cs).syncs[i].Sending?
    decreases cs
  {
    if cs != [] {
      OnceSent(Apply(s, cs[0]), cs[1..], i);
    }
  }

  lemma QueuedIsHandled(s: State, cs: seq<Choice>, e: Entry)
    requires s.running && Stop !in cs && Writes(cs) >= |s.queue| && e in s.queue
    ensures exists h :: h in HandledIn(s, cs) && h.e == e
  {
    var hs := HandledIn(s, cs);
    WritesDrain(s, cs);
    QueueIsFifo(s, cs);
    var n :| 0 <= n < |s.queue| && s.queue[n] == e;
    assert (s.queue + Accepted(s, cs))[n] == (Entries(hs) + Exec(s, cs).queue)[n];
    assert hs[n] in hs;
  }

  /** `sync` comes back: in every run, a call that waits while the writer runs has its channel
      closed by the time the writer has had as many rounds as entries were queued, whether
      their inserts succeed or not and whatever else happens meanwhile; its wait is then
      over at its next step, if it was not before. */
  lemma SyncReturns(before: seq<Choice>, i: nat, after: seq<Choice>)
    requires var s := Exec(EMPTY, before);
      && s.running && i < |s.syncs| && s.syncs[i].Waiting?
      && Stop !in after && Writes(after) >= |s.queue|
    ensures var t := Exec(Exec(EMPTY, before), after);
      i < |t.syncs| && i in t.closed && Apply(t, SyncReturn(i)).syncs[i].Returned?
  {
    var s := Exec(EMPTY, before);
    RunKeepsWaits(EMPTY, before);
    assert WaitsFor(s, i);
    OnceSent(s, after, i);
    if i in s.closed {
      ClosedStays(s, after);
    } else {
      QueuedIsHandled(s, after, Marker(i));
      ClosedExactly(s, after, i);
    }
  }

  /** Once the context is done, nothing is handled, stored or acknowledged any more. */
  lemma {:induction false} StoppedForGood(s: State, cs: seq<Choice>)
    ensures var t := Apply(s, Stop);
      HandledIn(t, cs) == [] && Exec(t, cs).rows == s.rows && Exec(t, cs).closed == s.closed && !Exec(t, cs).running
    decreases cs
  {
    if cs != [] {
      var t := Apply(s, Stop);
      StoppedForGood(Apply(t, cs[0]), cs[1..]);
      assert Apply(Apply(t, cs[0]), Stop) == Apply(t, cs[0]);
    }
  }

  // ----- sentinels and the capacity -----

  /** No sentinel ever becomes a row. */
  lemma {:induction false} NoSentinelStored(s: State, cs: seq<Choice>)
    requires forall e :: e in s.rows ==> e.verb != "__sync__"
    ensures forall e :: e in Exec(s, cs).rows ==> e.verb != "__sync__"
    decreases cs
  {
    if cs != [] {
      NoSentinelStored(Apply(s, cs[0]), cs[1..]);
    }
  }

  /** In every run `record` drops an entry exactly when 1024 entries are queued, and queues it
      last otherwise. */
  lemma DropsExactlyWhenFull(cs: seq<Choice>, verb: string, body: string)
    ensures var s, c := Exec(EMPTY, cs), Record(verb, body);
      && (DropsAt(s, c) <==> |s.queue| == 1024)
      && Apply(s, c).queue == if |s.queue| == 1024 then s.queue else s.queue + [Entry(verb, body, None)]
  {
    Conservation(EMPTY, cs);
  }

  // ----- what has been persisted -----

  /** The entries that are no sentinels. */
  function Unmarked(es: seq<Entry>): seq<Entry> {
    if es == [] then [] else (if IsSentinel(es[0]) then [] else [es[0]]) + Unmarked(es[1..])
  }

  predicate NoneFailed(hs: seq<Handled>) {
    forall n :: 0 <= n < |hs| ==> hs[n].ok || IsSentinel(hs[n].e)
  }

  /** What was stored of the handled entries is all of them that should be iff no insert
      failed. */
  lemma {:induction false} StoredAllExactly(hs: seq<Handled>)
    ensures |Stored(hs)| <= |Unmarked(Entries(hs))|
    ensures Stored(hs) == Unmarked(Entries(hs)) <==> NoneFailed(hs)
  {
    if hs != [] {
      var h, rest := hs[0], hs[1..];
      StoredAllExactly(rest);
      assert Entries(hs)[0] == h.e && Entries(hs)[1..] == Entries(rest);
      FailedCons(hs);
      if IsSentinel(h.e) {
        assert Stored(hs) == Stored(rest) && Unmarked(Entries(hs)) == Unmarked(Entries(rest));
      } else if h.ok {
        assert Stored(hs) == [h.e] + Stored(rest) && Unmarked(Entries(hs)) == [h.e] + Unmarked(Entries(rest));
        assert Stored(hs)[1..] == Stored(rest) && Unmarked(Entries(hs))[1..] == Unmarked(Entries(rest));
      } else {
        assert |Stored(hs)| == |Stored(rest)| && |Unmarked(Entries(hs))| == 1 + |Unmarked(Entries(rest))|;
      }
    }
  }

  lemma FailedCons(hs: seq<Handled>)
    requires hs != []
    ensures NoneFailed(hs) <==> (hs[0].ok || IsSentinel(hs[0].e)) && NoneFailed(hs[1..])
  {
    assert forall n :: 1 <= n < |hs| ==> hs[n] == hs[1..][n - 1];
    assert forall n :: 0 <= n < |hs| - 1 ==> hs[1..][n] == hs[n + 1];
  }

  lemma StoredPrefix(a: seq<Handled>, b: seq<Handled>)
    ensures Stored(a) <= Stored(a + b)
  {
    StoredConcat(a, b);
  }

  /** What a returned `sync` does promise: of the entries accepted before its sentinel, the
      rows begin with those whose insert succeeded, in order; these are all of them, the
      sentinels aside, iff none of their inserts failed. */
  lemma PersistedExactly(before: seq<Choice>, i: nat, after: seq<Choice>)
    requires CanSend(Exec(EMPTY, before), i)
    requires var t := Exec(EMPTY, before + ([SyncSend(i)] + after)); i < |t.syncs| && t.syncs[i].Returned?
    ensures var run := before + ([SyncSend(i)] + after);
      var es, hs := Accepted(EMPTY, before), HandledIn(EMPTY, run);
      && |es| <= |hs|
      && Entries(hs[..|es|]) == es
      && Stored(hs[..|es|]) <= Exec(EMPTY, run).rows
      && (Stored(hs[..|es|]) == Unmarked(es) <==> NoneFailed(hs[..|es|]))
  {
    var run := before + ([SyncSend(i)] + after);
    var es, hs := Accepted(EMPTY, before), HandledIn(EMPTY, run);
    SyncIsABarrier(before, i, after);
    RowsAreStored(EMPTY, run);
    Prefixed(es, hs);
    StoredPrefix(hs[..|es|], hs[|es|..]);
    assert hs[..|es|] + hs[|es|..] == hs;
    StoredAllExactly(hs[..|es|]);
  }

  lemma Prefixed(es: seq<Entry>, hs: seq<Handled>)
    requires es <= Entries(hs)
    ensures |es| <= |hs| && Entries(hs[..|es|]) == es
  {
  }

  /** So `sync` returns although nothing has been persisted: a run with one entry. */
  lemma SyncMissesFailedInsert(verb: string, body: string)
    requires verb != SENTINEL
    ensures var t := Exec(EMPTY, [Record(verb, body), SyncCall, SyncSend(0), Write(false), Write(true), SyncReturn(0)]);
      t.syncs == [Returned] && t.rows == [] && t.queue == []
  {
    var e := Entry(verb, body, None);
    var s1 := EMPTY.(queue := [e]);
    var s2 := s1.(syncs := [Sending]);
    var s3 := s1.(queue := [e, Marker(0)], syncs := [Waiting]);
    var s4 := s3.(queue := [Marker(0)]);
    var s5 := s3.(queue := [], closed := {0});
    assert [e, Marker(0)][1..] == [Marker(0)] && [Marker(0)][1..] == [];
    Next(EMPTY, Record(verb, body), s1, [SyncCall, SyncSend(0), Write(false), Write(true), SyncReturn(0)]);
    Next(s1, SyncCall, s2, [SyncSend(0), Write(false), Write(true), SyncReturn(0)]);
    Next(s2, SyncSend(0), s3, [Write(false), Write(true), SyncReturn(0)]);
    Next(s3, Write(false), s4, [Write(true), SyncReturn(0)]);
    Next(s4, Write(true), s5, [SyncReturn(0)]);
    Next(s5, SyncReturn(0), s5.(syncs := [Returned]), []);
    Listed(Record(verb, body));
  }

  lemma Listed(c: Choice)
    ensures [SyncReturn(0)] + [] == [SyncReturn(0)]
    ensures [Write(true)] + [SyncReturn(0)] == [Write(true), SyncReturn(0)]
    ensures [Write(false)] + [Write(true), SyncReturn(0)] == [Write(false), Write(true), SyncReturn(0)]
    ensures [SyncSend(0)] + [Write(false), Write(true), SyncReturn(0)]
         == [SyncSend(0), Write(false), Write(true), SyncReturn(0)]
    ensures [SyncCall] + [SyncSend(0), Write(false), Write(true), SyncReturn(0)]
         == [SyncCall, SyncSend(0), Write(false), Write(true), SyncReturn(0)]
    ensures [c] + [SyncCall, SyncSend(0), Write(false), Write(true), SyncReturn(0)]
         == [c, SyncCall, SyncSend(0), Write(false), Write(true), SyncReturn(0)]
  {
  }

  lemma Next(s: State, c: Choice, t: State, cs: seq<Choice>)
    requires Apply(s, c) == t
    ensures Exec(s, [c] + cs) == Exec(t, cs)
  {
    assert ([c] + cs)[1..] == cs;
  }

  // ----- the auditor object -----

  /** The object keeps its past in `history`: what was done to it since it was made. */
  class Auditor {
    var queue: seq<Entry>
    var rows: seq<Entry>
    var written: nat
    var dropped: nat
    var closed: set<nat>
    var running: bool
    var syncs: seq<SyncPc>
    ghost var history: seq<Choice>

    ghost function View(): State
      reads this
    {
      State(queue, rows, written, dropped, closed, syncs, running)
    }

    /** It is in the state that its history leads to. */
    ghost predicate Valid()
      reads this
    {
      View() == Exec(EMPTY, history)
    }

    constructor ()
      ensures Valid() && View() == EMPTY && history == []
    {
      queue, rows, written, dropped, closed, syncs, running := [], [], 0, 0, {}, [], true;
      history := [];
    }

    /** `record`: never blocks, drops when the queue is full. */
    method RecordEntry(verb: string, body: string)
      requires Valid()
      modifies this
      ensures Valid() && history == old(history) + [Record(verb, body)]
      ensures View() == Apply(old(View()), Record(verb, body))
    {
      if |queue| < CAPACITY {
        queue := queue + [Entry(verb, body, None)];
      } else {
        dropped := (dropped + 1) % TWO_64;
      }
      AppendOne(history, Record(verb, body));
      history := history + [Record(verb, body)];
    }

    /** The start of `sync`: a call with an acknowledgement channel of its own. */
    method BeginSync() returns (i: nat)
      requires Valid()
      modifies this
      ensures Valid() && history == old(history) + [SyncCall]
      ensures i == |old(syncs)| && syncs == old(syncs) + [Sending]
    {
      AppendOne(history, SyncCall);
      history := history + [SyncCall];
      i := |syncs|;
      syncs := syncs + [Sending];
    }

    /** The blocking send of `sync`: goes through iff the queue has room. */
    method SendSentinel(i: nat) returns (sent: bool)
      requires Valid()
      modifies this
      ensures Valid() && history == old(history) + [SyncSend(i)]
      ensures sent == CanSend(old(View()), i)
      ensures queue == if sent then old(queue) + [Marker(i)] else old(queue)
    {
      AppendOne(history, SyncSend(i));
      history := history + [SyncSend(i)];
      sent := i < |syncs| && syncs[i].Sending? && |queue| < CAPACITY;
      if sent {
        queue := queue + [Marker(i)];
        syncs := syncs[i := Waiting];
      }
    }

    /** The wait of `sync` for its channel: when it is over, everything accepted before its
        sentinel has been handled. */
    method AwaitAck(i: nat) returns (back: bool)
      requires Valid()
      modifies this
      ensures Valid() && history == old(history) + [SyncReturn(i)]
      ensures back == (i < |old(syncs)| && old(syncs)[i].Waiting? && i in old(closed))
      ensures back ==> forall before, after ::
        history == before + ([SyncSend(i)] + after) && CanSend(Exec(EMPTY, before), i) ==>
          Accepted(EMPTY, before) <= Entries(HandledIn(EMPTY, history))
    {
      AppendOne(history, SyncReturn(i));
      history := history + [SyncReturn(i)];
      back := i < |syncs| && syncs[i].Waiting? && i in closed;
      if back {
        syncs := syncs[i := Returned];
        forall before, after | history == before + ([SyncSend(i)] + after) && CanSend(Exec(EMPTY, before), i)
          ensures Accepted(EMPTY, before) <= Entries(HandledIn(EMPTY, history))
        {
          SyncIsABarrier(before, i, after);
        }
      }
    }

    /** One round of the writer's loop. The channel it closes is open. */
    method Round(ok: bool)
      requires Valid()
      modifies this
      ensures Valid() && history == old(history) + [Write(ok)] && running == old(running)
    {
      NeverClosesTwice(history, ok);
      AppendOne(history, Write(ok));
      history := history + [Write(ok)];
      if !running || queue == [] {
        return;
      }
      var e := queue[0];
      assert e.ack.Some? ==> e.ack.value !in closed by {
        assert Handled(e, ok) in HandledAt(old(View()), Write(ok));
      }
      queue := queue[1..];
      if e.verb == SENTINEL {
        if e.ack.Some? {
          closed := closed + {e.ack.value};
        }
        return;
      }
      if !ok {
        return;
      }
      rows := rows + [e];
      written := (written + 1) % TWO_64;
      if e.ack.Some? {
        closed := closed + {e.ack.value};
      }
    }

    /** `run`, for as many rounds as there are insert outcomes; `cancelled` says whether its
        context is done after them. Once it has stopped it handles nothing more. */
    method Run(outcomes: seq<bool>, cancelled: bool)
      requires Valid()
      modifies this
      ensures Valid() && history == old(history) + Rounds(outcomes) + (if cancelled then [Stop] else [])
      ensures running == (old(running) && !cancelled)
    {
      for i := 0 to |outcomes|
        invariant Valid() && history == old(history) + Rounds(outcomes[..i]) && running == old(running)
      {
        RoundsNext(outcomes, i);
        Round(outcomes[i]);
      }
      assert outcomes[..|outcomes|] == outcomes;
      if cancelled {
        AppendOne(history, Stop);
        running, history := false, history + [Stop];
      }
    }

    /** `stats`: over the whole life of the object, the number of rows and the number of calls
        of `record` that found the queue full, modulo 2^64. With the failed inserts and
        what is queued they account for every entry offered. */
    method Stats() returns (w: nat, d: nat)
      requires Valid()
      ensures w == |rows| % TWO_64 && d == Dropped(EMPTY, history, true) % TWO_64
      ensures Offered(history) == |rows| + FailedIn(EMPTY, history) + Plain(queue) + Dropped(EMPTY, history, false)
    {
      CountersCount(EMPTY, history);
      Conservation(EMPTY, history);
      w, d := written, dropped;
    }
  }

  lemma AppendOne(history: seq<Choice>, c: Choice)
    ensures Exec(EMPTY, history + [c]) == Apply(Exec(EMPTY, history), c)
  {
    ExecConcat(EMPTY, history, [c]);
    assert [c][1..] == [];
    assert Exec(Exec(EMPTY, history), [c]) == Apply(Exec(EMPTY, history), c);
  }

  /** The rounds of the writer with these insert outcomes. */
  function Rounds(outcomes: seq<bool>): seq<Choice> {
    if outcomes == [] then [] else Rounds(outcomes[..|outcomes| - 1]) + [Write(outcomes[|outcomes| - 1])]
  }

  lemma RoundsNext(outcomes: seq<bool>, i: nat)
    requires i < |outcomes|
    ensures Rounds(outcomes[..i + 1]) == Rounds(outcomes[..i]) + [Write(outcomes[i])]
  {
    assert outcomes[..i + 1][..i] == outcomes[..i];
  }
}
