/** What every run of the key cache guarantees to its callers: which document an answer
    comes from, that nobody waits for ever, and that the double check saves fetches. */
module JwksProgress {
  import opened Text
  import opened Jwks

  /** In every run: at most one call is between locking and unlocking the refresh mutex, and
      so at most one is inside the refresh; nobody reads while somebody replaces the
      cache; whoever holds the read lock sees keys and expiry of one and the same fetched
      document; and every key that was handed out comes from an installed document. */
  lemma EveryRunIsSafe(configured: bool, start: nat, cs: seq<Choice>, i: nat, j: nat)
    requires var s := Exec(Fresh(configured, start), cs); i < |s.calls| && j < |s.calls|
    ensures var s := Exec(Fresh(configured, start), cs);
      var p, q := s.calls[i].pc, s.calls[j].pc;
      && (Refreshes(p) && Refreshes(q) ==> i == j)
      && !(Writes(p) && Reads(q))
      && (Reads(p) ==> Coherent(s))
      && (p.Done? && p.result.Key? ==> Served(s, s.calls[i].kid, p.result.key))
  {
    RunKeepsInv(Fresh(configured, start), cs);
    var s := Exec(Fresh(configured, start), cs);
    MutualExclusion(s, i, j);
    assert LocksAt(s, i) && DataAt(s, s.calls[i]);
  }

  // ----- which document an answer comes from -----

  /** In every run, a hit under the read lock, on the fast path and on the double check,
      is the key that the most recently installed document gives, and that document was
      installed less than fifteen minutes ago. */
  lemma HitIsCurrent(configured: bool, start: nat, cs: seq<Choice>, i: nat, fetch: Fetch)
    requires var s := Exec(Fresh(configured, start), cs);
      && i < |s.calls| && (s.calls[i].pc.FastHeld? || s.calls[i].pc.DoubleHeld?)
      && NextPc(s, s.calls[i], fetch).hit.Some?
    ensures var s := Exec(Fresh(configured, start), cs);
      && s.installs != []
      && Lookup(Last(s).doc, s.calls[i].kid) == NextPc(s, s.calls[i], fetch).hit
      && Last(s).at <= s.now < Last(s).at + 15 * 60 * 1_000_000_000
  {
    RunKeepsInv(Fresh(configured, start), cs);
    HitIsFresh(Exec(Fresh(configured, start), cs), i);
  }

  /** The document a call has fetched and not yet answered from. */
  function Carried(p: Pc): Option<Keys> {
    if p.Announce? || p.LockWait? || p.WriteKeys? || p.WriteExpiry? || p.WriteUnlock?
       || p.FinalWait? || p.FinalHeld? || p.FinalRelease?
    then Some(p.doc) else None
  }

  /** Call `i` asks the network in this step. */
  predicate AsksAt(s: State, c: Choice, i: nat) {
    c.Step? && c.i == i && Enabled(s, i) && s.calls[i].pc.Refreshing? && s.configured
  }

  /** The usable keys of the last document that call `i` fetched in this run. */
  function OwnFetch(s: State, cs: seq<Choice>, i: nat): Option<Keys>
    decreases cs
  {
    if cs == [] then None
    else
      var later := OwnFetch(Apply(s, cs[0]), cs[1..], i);
      if later.Some? then later
      else if AsksAt(s, cs[0], i) && cs[0].fetch.Fetched? then Some(KeySet(cs[0].fetch.doc))
      else None
  }

  /** A call begins to carry a document only by fetching it. */
  lemma CarriedStep(s: State, c: Choice, i: nat)
    ensures var t := Apply(s, c);
      i < |t.calls| && Carried(t.calls[i].pc).Some? ==>
        if AsksAt(s, c, i) then c.fetch.Fetched? && Carried(t.calls[i].pc) == Some(KeySet(c.fetch.doc))
        else i < |s.calls| && Carried(s.calls[i].pc) == Carried(t.calls[i].pc)
  {
  }

  lemma {:induction false} CarriesOwnFetch(s: State, cs: seq<Choice>, i: nat)
    ensures var t := Exec(s, cs);
      i < |t.calls| && Carried(t.calls[i].pc).Some? ==>
        || OwnFetch(s, cs, i) == Carried(t.calls[i].pc)
        || (OwnFetch(s, cs, i).None? && i < |s.calls| && Carried(s.calls[i].pc) == Carried(t.calls[i].pc))
    decreases cs
  {
    if cs != [] {
      CarriedStep(s, cs[0], i);
      CarriesOwnFetch(Apply(s, cs[0]), cs[1..], i);
    }
  }

  /** In every run, the answer after a refresh is looked up in the document which that same
      call has just fetched, not in one that another call installed meanwhile. */
  lemma SlowAnswerFromOwnFetch(configured: bool, start: nat, cs: seq<Choice>, i: nat, fetch: Fetch)
    requires var s := Exec(Fresh(configured, start), cs); i < |s.calls| && s.calls[i].pc.FinalHeld?
    ensures var s := Exec(Fresh(configured, start), cs);
      var own := OwnFetch(Fresh(configured, start), cs, i);
      && own.Some?
      && NextPc(s, s.calls[i], fetch) == FinalRelease(own.value, Lookup(own.value, s.calls[i].kid))
  {
    var s0 := Fresh(configured, start);
    RunKeepsInv(s0, cs);
    CarriesOwnFetch(s0, cs, i);
    var s := Exec(s0, cs);
    assert LocksAt(s, i) && DataAt(s, s.calls[i]);
  }

  /** A refresh that fails, or finds no usable key, makes its caller fail and leaves keys,
      expiry and history alone; and nothing but a completed fetch ever changes them. */
  lemma FailedRefreshChangesNothing(s: State, i: nat, fetch: Fetch)
    requires Enabled(s, i)
    ensures var t, p := Advance(s, i, fetch), s.calls[i].pc;
      && (p.Refreshing? && (!s.configured || fetch.Failed? || KeySet(fetch.doc) == map[]) ==>
            && t.calls[i].pc == MutexRelease(Error)
            && (t.keys, t.expiry, t.installs, t.mu) == (s.keys, s.expiry, s.installs, s.mu))
      && ((t.keys, t.expiry, t.installs) != (s.keys, s.expiry, s.installs) ==> Carried(p).Some?)
  {
  }

  // ----- nobody waits for ever -----

  /** A queued writer keeps new readers out: no step of any call adds a reader until it has had
      the lock. */
  lemma QueuedWriterGoesFirst(s: State, i: nat, fetch: Fetch)
    requires Enabled(s, i) && s.mu.queued.Some?
    ensures Advance(s, i, fetch).mu.readers <= s.mu.readers
  {
  }

  /** Whenever some call is unfinished, some call can take a step. */
  lemma NoDeadlock(s: State, i: nat) returns (j: nat)
    requires LockInv(s) && i < |s.calls| && !s.calls[i].pc.Done?
    ensures Enabled(s, j)
  {
    assert LocksAt(s, i);
    if s.mu.readers != {} {
      j :| j in s.mu.readers;
      assert LocksAt(s, j);
    } else if s.mu.writer.Some? {
      j := s.mu.writer.value;
      assert LocksAt(s, j);
    } else if s.mu.queued.Some? {
      j := s.mu.queued.value;
      assert LocksAt(s, j);
    } else if s.calls[i].pc.MutexWait? && s.refreshMu.Some? {
      j := s.refreshMu.value;
      assert LocksAt(s, j);
    } else {
      j := i;
    }
  }

  /** An upper bound on the steps a call still has to take. */
  function Rank(p: Pc): nat {
    match p
    case Start => 18
    case FastWait => 17
    case FastHeld => 16
    case FastRelease(_) => 15
    case MutexWait => 14
    case DoubleWait => 13
    case DoubleHeld => 12
    case DoubleRelease(_) => 11
    case Refreshing => 10
    case Announce(_) => 9
    case LockWait(_) => 8
    case WriteKeys(_) => 7
    case WriteExpiry(_) => 6
    case WriteUnlock(_) => 5
    case FinalWait(_) => 4
    case FinalHeld(_) => 3
    case FinalRelease(_, _) => 2
    case MutexRelease(_) => 1
    case Done(_) => 0
  }

  lemma StepDescends(s: State, i: nat, fetch: Fetch)
    requires Enabled(s, i)
    ensures Rank(NextPc(s, s.calls[i], fetch)) < Rank(s.calls[i].pc)
  {
  }

  function TotalRank(calls: seq<Resolver>): nat {
    if calls == [] then 0 else Rank(calls[0].pc) + TotalRank(calls[1..])
  }

  lemma {:induction false} TotalRankUpdate(calls: seq<Resolver>, i: nat, r: Resolver)
    requires i < |calls|
    ensures TotalRank(calls[i := r]) == TotalRank(calls) - Rank(calls[i].pc) + Rank(r.pc)
  {
    if i == 0 {
      assert calls[0 := r][1..] == calls[1..];
    } else {
      TotalRankUpdate(calls[1..], i - 1, r);
      assert calls[i := r][1..] == calls[1..][i - 1 := r];
    }
  }

  predicate AllDone(s: State) {
    forall i :: 0 <= i < |s.calls| ==> s.calls[i].pc.Done?
  }

  /** From every reachable state, whatever the network answers, the calls in flight can be
      run to their end, in no more steps than their ranks add up to. */
  lemma {:induction false} AllCallsCanFinish(s: State, fetch: Fetch) returns (cs: seq<Choice>)
    requires Inv(s)
    ensures AllDone(Exec(s, cs)) && |cs| <= TotalRank(s.calls)
    ensures forall c :: c in cs ==> c.Step? && c.fetch == fetch
    decreases TotalRank(s.calls)
  {
    if AllDone(s) {
      cs := [];
    } else {
      var i: nat :| i < |s.calls| && !s.calls[i].pc.Done?;
      var j := NoDeadlock(s, i);
      var c := Step(j, fetch);
      StepDescends(s, j, fetch);
      TotalRankUpdate(s.calls, j, Resolver(s.calls[j].kid, NextPc(s, s.calls[j], fetch)));
      StepKeepsInv(s, c);
      var rest := AllCallsCanFinish(Apply(s, c), fetch);
      cs := [c] + rest;
      assert cs[1..] == rest;
    }
  }

  predicate StepsAt(s: State, c: Choice) {
    c.Step? && Enabled(s, c.i)
  }

  /** How many steps the calls really take in this run. */
  function StepCount(s: State, cs: seq<Choice>): nat
    decreases cs
  {
    if cs == [] then 0
    else (if StepsAt(s, cs[0]) then 1 else 0) + StepCount(Apply(s, cs[0]), cs[1..])
  }

  function ArrivalCount(cs: seq<Choice>): nat {
    if cs == [] then 0 else (if cs[0].Arrive? then 1 else 0) + ArrivalCount(cs[1..])
  }

  lemma {:induction false} TotalRankAppend(calls: seq<Resolver>, r: Resolver)
    ensures TotalRank(calls + [r]) == TotalRank(calls) + Rank(r.pc)
  {
    if calls != [] {
      assert (calls + [r])[1..] == calls[1..] + [r];
      TotalRankAppend(calls[1..], r);
    }
  }

  lemma ChoiceLowersRank(s: State, c: Choice)
    ensures (if StepsAt(s, c) then 1 else 0) + TotalRank(Apply(s, c).calls)
         <= TotalRank(s.calls) + (if c.Arrive? then 18 else 0)
  {
    if StepsAt(s, c) {
      StepDescends(s, c.i, c.fetch);
      TotalRankUpdate(s.calls, c.i, Resolver(s.calls[c.i].kid, NextPc(s, s.calls[c.i], c.fetch)));
    } else if c.Arrive? {
      TotalRankAppend(s.calls, Resolver(c.kid, Start));
    }
  }

  /** No schedule whatever lets a call spin: in every run from any state the calls together
      take at most as many steps as their ranks add up to, plus 18 for each new arrival. */
  lemma {:induction false} StepsBounded(s: State, cs: seq<Choice>)
    ensures StepCount(s, cs) + TotalRank(Exec(s, cs).calls) <= TotalRank(s.calls) + 18 * ArrivalCount(cs)
    decreases cs
  {
    if cs != [] {
      ChoiceLowersRank(s, cs[0]);
      StepsBounded(Apply(s, cs[0]), cs[1..]);
    }
  }

  /** The choices that were not wasted: some call stepped, or all had finished already. */
  function Useful(s: State, cs: seq<Choice>): nat
    decreases cs
  {
    if cs == [] then 0
    else (if StepsAt(s, cs[0]) || AllDone(s) then 1 else 0) + Useful(Apply(s, cs[0]), cs[1..])
  }

  lemma {:induction false} AllDoneStays(s: State, cs: seq<Choice>)
    requires AllDone(s) && forall c :: c in cs ==> !c.Arrive?
    ensures AllDone(Exec(s, cs))
    decreases cs
  {
    if cs != [] {
      assert cs[0] in cs;
      AllDoneStays(Apply(s, cs[0]), cs[1..]);
    }
  }

  lemma {:induction false} UsefulLowersRank(s: State, cs: seq<Choice>)
    requires forall c :: c in cs ==> !c.Arrive?
    ensures AllDone(Exec(s, cs)) || Useful(s, cs) + TotalRank(Exec(s, cs).calls) <= TotalRank(s.calls)
    decreases cs
  {
    if AllDone(s) {
      AllDoneStays(s, cs);
    } else if cs != [] {
      assert cs[0] in cs;
      ChoiceLowersRank(s, cs[0]);
      UsefulLowersRank(Apply(s, cs[0]), cs[1..]);
    }
  }

  /** From the end of every run, once nobody arrives any more, every schedule finishes every
      call as soon as it has made as many useful choices as the ranks add up to: whichever
      calls it lets step, whatever the network answers, whether calls are answered from the
      cache, fail or fetch, and however the clock runs and choices are wasted in between. */
  lemma EverySchedulerFinishes(configured: bool, start: nat, cs: seq<Choice>, more: seq<Choice>)
    requires forall c :: c in more ==> !c.Arrive?
    requires var s := Exec(Fresh(configured, start), cs); Useful(s, more) >= TotalRank(s.calls)
    ensures AllDone(Exec(Exec(Fresh(configured, start), cs), more))
  {
    var s := Exec(Fresh(configured, start), cs);
    UsefulLowersRank(s, more);
    if TotalRank(Exec(s, more).calls) == 0 {
      RankZeroIsDone(Exec(s, more).calls);
    }
  }

  /** And at the end of every run there is a useful choice, whatever the network answers. */
  lemma UsefulChoiceExists(configured: bool, start: nat, cs: seq<Choice>, fetch: Fetch) returns (c: Choice)
    ensures c.Step? && c.fetch == fetch
    ensures var s := Exec(Fresh(configured, start), cs);
      (StepsAt(s, c) || AllDone(s)) && Useful(s, [c]) == 1
  {
    var s := Exec(Fresh(configured, start), cs);
    RunKeepsInv(Fresh(configured, start), cs);
    c := Step(0, fetch);
    if !AllDone(s) {
      var i: nat :| i < |s.calls| && !s.calls[i].pc.Done?;
      var j := NoDeadlock(s, i);
      c := Step(j, fetch);
    }
    assert [c][1..] == [];
  }

  lemma {:induction false} RankZeroIsDone(calls: seq<Resolver>)
    requires TotalRank(calls) == 0
    ensures forall i :: 0 <= i < |calls| ==> calls[i].pc.Done?
  {
    if calls != [] {
      RankZeroIsDone(calls[1..]);
      assert forall i :: 1 <= i < |calls| ==> calls[i] == calls[1..][i - 1];
    }
  }

  /** No run can get stuck: whatever has happened, and whatever the network answers from
      then on, every call in flight can still be brought to its end. */
  lemma EveryRunCanFinish(configured: bool, start: nat, cs: seq<Choice>, fetch: Fetch) returns (more: seq<Choice>)
    ensures AllDone(Exec(Exec(Fresh(configured, start), cs), more))
    ensures forall c :: c in more ==> c.Step? && c.fetch == fetch
  {
    RunKeepsInv(Fresh(configured, start), cs);
    more := AllCallsCanFinish(Exec(Fresh(configured, start), cs), fetch);
  }

  /** And no document is given up early: under the read lock, a key of the last document is a
      hit until fifteen minutes after its installation, in every run. */
  lemma FreshIsHit(configured: bool, start: nat, cs: seq<Choice>, i: nat)
    requires var s := Exec(Fresh(configured, start), cs);
      && i < |s.calls| && Reads(s.calls[i].pc) && s.installs != []
      && s.now < Last(s).at + 15 * 60 * 1_000_000_000
    ensures var s := Exec(Fresh(configured, start), cs);
      Check(s, s.calls[i].kid) == Lookup(Last(s).doc, s.calls[i].kid)
  {
    EveryRunIsSafe(configured, start, cs, i, i);
  }

  // ----- the double check saves fetches -----

  predicate FetchAt(s: State, c: Choice, kid: string) {
    c.Step? && AsksAt(s, c, c.i) && s.calls[c.i].kid == kid
  }

  /** How often calls for `kid` ask the network. */
  function FetchCount(s: State, cs: seq<Choice>, kid: string): nat
    decreases cs
  {
    if cs == [] then 0
    else (if FetchAt(s, cs[0], kid) then 1 else 0) + FetchCount(Apply(s, cs[0]), cs[1..], kid)
  }

  /** The network always answers with a document that has `kid`. */
  predicate AlwaysServes(cs: seq<Choice>, kid: string) {
    forall c :: c in cs && c.Step? ==> c.fetch.Fetched? && kid in KeySet(c.fetch.doc)
  }

  /** The clock stays inside one TTL of the first installed document. */
  predicate WithinTtl(s: State, cs: seq<Choice>)
    decreases cs
  {
    && (s.installs != [] ==> s.now < s.installs[0].at + TTL)
    && (cs != [] ==> WithinTtl(Apply(s, cs[0]), cs[1..]))
  }

  /** A call for `kid` that is about to ask the network. */
  predicate AboutToAsk(r: Resolver, kid: string) {
    r.kid == kid && (r.pc == DoubleRelease(None) || r.pc.Refreshing?)
  }

  predicate SavingAt(s: State, r: Resolver, kid: string) {
    && (Carried(r.pc).Some? ==> kid in Carried(r.pc).value)
    && (s.installs != [] ==> !AboutToAsk(r, kid))
  }

  predicate SavingInv(s: State, kid: string) {
    && (forall n :: 0 <= n < |s.installs| ==> kid in s.installs[n].doc)
    && (forall i :: 0 <= i < |s.calls| ==> SavingAt(s, s.calls[i], kid))
  }

  /** Some call holds a fetched document that has not been installed yet, or one already is. */
  predicate Supplied(s: State) {
    s.installs != [] || exists i :: 0 <= i < |s.calls| && Carried(s.calls[i].pc).Some?
  }

  lemma SavingOther(s: State, i: nat, fetch: Fetch, j: nat, kid: string)
    requires Inv(s) && SavingInv(s, kid) && Enabled(s, i) && j < |s.calls| && j != i
    ensures var t := Advance(s, i, fetch); SavingAt(t, t.calls[j], kid)
  {
    assert LocksAt(s, i) && LocksAt(s, j) && SavingAt(s, s.calls[j], kid);
  }

  lemma SuppliedStays(s: State, i: nat, fetch: Fetch)
    requires Inv(s) && Enabled(s, i) && Supplied(s)
    ensures Supplied(Advance(s, i, fetch))
  {
    var t := Advance(s, i, fetch);
    if s.installs == [] {
      var h: nat :| h < |s.calls| && Carried(s.calls[h].pc).Some?;
      assert DataAt(s, s.calls[h]);
      assert t.installs != [] || Carried(t.calls[h].pc).Some?;
    }
  }

  /** A call can only ask for `kid` while nothing is supplied, and supplies it by asking. */
  lemma AskingSupplies(s: State, i: nat, fetch: Fetch, kid: string)
    requires Inv(s) && SavingInv(s, kid) && Enabled(s, i) && AboutToAsk(s.calls[i], kid)
    requires s.calls[i].pc.Refreshing? && s.configured && fetch.Fetched? && kid in KeySet(fetch.doc)
    ensures !Supplied(s) && Supplied(Advance(s, i, fetch))
  {
    assert SavingAt(s, s.calls[i], kid) && LocksAt(s, i);
    forall h: nat | h < |s.calls| && h != i ensures Carried(s.calls[h].pc).None? {
      assert LocksAt(s, h);
    }
    var t := Advance(s, i, fetch);
    assert Carried(t.calls[i].pc).Some?;
  }

  lemma SavingStep(s: State, c: Choice, kid: string)
    requires Inv(s) && SavingInv(s, kid) && AlwaysServes([c], kid)
    requires s.installs != [] ==> s.now < s.installs[0].at + TTL
    ensures SavingInv(Apply(s, c), kid)
    ensures FetchAt(s, c, kid) ==> !Supplied(s) && Supplied(Apply(s, c))
    ensures Supplied(s) ==> Supplied(Apply(s, c))
  {
    assert c in [c];
    if c.Step? && Enabled(s, c.i) {
      SavingActs(s, c.i, c.fetch, kid);
      if FetchAt(s, c, kid) {
        AskingSupplies(s, c.i, c.fetch, kid);
      }
      if Supplied(s) {
        SuppliedStays(s, c.i, c.fetch);
      }
    } else {
      SavingQuiet(s, c, kid);
    }
  }

  lemma SavingActs(s: State, i: nat, fetch: Fetch, kid: string)
    requires Inv(s) && SavingInv(s, kid) && Enabled(s, i)
    requires fetch.Fetched? && kid in KeySet(fetch.doc)
    requires s.installs != [] ==> s.now < s.installs[0].at + TTL
    ensures SavingInv(Advance(s, i, fetch), kid)
  {
    var t := Advance(s, i, fetch);
    SavingActor(s, i, fetch, kid);
    assert SavingAt(s, s.calls[i], kid);
    forall j: nat | j < |t.calls| ensures SavingAt(t, t.calls[j], kid) {
      if j != i {
        SavingOther(s, i, fetch, j, kid);
      }
    }
  }

  lemma SavingQuiet(s: State, c: Choice, kid: string)
    requires SavingInv(s, kid) && !(c.Step? && Enabled(s, c.i))
    ensures SavingInv(Apply(s, c), kid)
    ensures Supplied(s) ==> Supplied(Apply(s, c))
  {
    var t := Apply(s, c);
    assert forall j :: 0 <= j < |s.calls| ==> t.calls[j] == s.calls[j];
    forall j: nat | j < |t.calls| ensures SavingAt(t, t.calls[j], kid) {
      if j < |s.calls| {
        assert SavingAt(s, s.calls[j], kid);
      }
    }
  }

  lemma SavingActor(s: State, i: nat, fetch: Fetch, kid: string)
    requires Inv(s) && SavingInv(s, kid) && Enabled(s, i)
    requires fetch.Fetched? && kid in KeySet(fetch.doc)
    requires s.installs != [] ==> s.now < s.installs[0].at + TTL
    ensures var t := Advance(s, i, fetch); SavingAt(t, t.calls[i], kid)
  {
    var r := s.calls[i];
    assert LocksAt(s, i) && DataAt(s, r) && SavingAt(s, r, kid);
    if r.pc.DoubleHeld? && r.kid == kid && s.installs != [] {
      assert Coherent(s);
      assert s.installs[|s.installs| - 1] == Last(s);
      assert Check(s, kid).Some?;
    }
  }

  lemma {:induction false} FetchesBounded(s: State, cs: seq<Choice>, kid: string)
    requires Inv(s) && SavingInv(s, kid) && AlwaysServes(cs, kid) && WithinTtl(s, cs)
    ensures FetchCount(s, cs, kid) <= if Supplied(s) then 0 else 1
    decreases cs
  {
    if cs != [] {
      assert cs[0] in cs;
      SavingStep(s, cs[0], kid);
      StepKeepsInv(s, cs[0]);
      FetchesBounded(Apply(s, cs[0]), cs[1..], kid);
    }
  }

  /** If every fetched document has the key id and the clock stays within one TTL of the
      first install, then all the requests for that key id, however many and however
      they interleave with each other and with requests for other ids, ask the network
      at most once. */
  lemma AtMostOneFetch(configured: bool, start: nat, cs: seq<Choice>, kid: string)
    requires AlwaysServes(cs, kid) && WithinTtl(Fresh(configured, start), cs)
    ensures FetchCount(Fresh(configured, start), cs, kid) <= 1
  {
    FetchesBounded(Fresh(configured, start), cs, kid);
  }
}
