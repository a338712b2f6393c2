/** The cache object is the transition system with a single call in it: a call that starts
    while all locks are free, and whose steps nobody crosses, does what `Cache.Resolve` does. */
module JwksAlone {
  import opened Text
  import opened Jwks

  function Steps(i: nat, fetch: Fetch, n: nat): seq<Choice> {
    if n == 0 then [] else [Step(i, fetch)] + Steps(i, fetch, n - 1)
  }

  /** Call `i` takes `n` steps in a row. */
  function Walk(s: State, i: nat, fetch: Fetch, n: nat): State
    decreases n
  {
    if n == 0 then s else Walk(Apply(s, Step(i, fetch)), i, fetch, n - 1)
  }

  lemma {:induction false} WalkIsExec(s: State, i: nat, fetch: Fetch, n: nat)
    ensures Exec(s, Steps(i, fetch, n)) == Walk(s, i, fetch, n)
    decreases n
  {
    if n > 0 {
      assert Steps(i, fetch, n)[1..] == Steps(i, fetch, n - 1);
      WalkIsExec(Apply(s, Step(i, fetch)), i, fetch, n - 1);
    }
  }

  lemma {:induction false} ExecConcat(s: State, a: seq<Choice>, b: seq<Choice>)
    ensures Exec(s, a + b) == Exec(Exec(s, a), b)
    decreases a
  {
    if a == [] {
      assert a + b == b;
    } else {
      assert (a + b)[0] == a[0] && (a + b)[1..] == a[1..] + b;
      ExecConcat(Apply(s, a[0]), a[1..], b);
    }
  }

  /** All locks are free but the refresh mutex, whose holder is `holder`. */
  predicate Idle(s: State, i: nat, holder: Option<nat>) {
    i < |s.calls| && s.mu == RwMutex({}, None, None) && s.refreshMu == holder
  }

  /** The same state with call `i` at `pc`. */
  function At(s: State, i: nat, pc: Pc): State
    requires i < |s.calls|
  {
    s.(calls := s.calls[i := Resolver(s.calls[i].kid, pc)])
  }

  lemma AtAt(s: State, i: nat, p: Pc, q: Pc)
    requires i < |s.calls|
    ensures At(At(s, i, p), i, q) == At(s, i, q)
  {
    var kid := s.calls[i].kid;
    assert s.calls[i := Resolver(kid, p)][i := Resolver(kid, q)] == s.calls[i := Resolver(kid, q)];
  }

  lemma {:induction false} WalkNext(s: State, i: nat, fetch: Fetch, t: State, n: nat)
    requires Apply(s, Step(i, fetch)) == t && n > 0
    ensures Walk(s, i, fetch, n) == Walk(t, i, fetch, n - 1)
  {
  }

  /** `k` steps of call `i` lead from `s` to `t`. */
  ghost predicate Becomes(s: State, i: nat, fetch: Fetch, k: nat, t: State) {
    forall n: nat :: Walk(s, i, fetch, k + n) == Walk(t, i, fetch, n)
  }

  lemma {:induction false} OneStep(s: State, i: nat, fetch: Fetch, t: State)
    requires Apply(s, Step(i, fetch)) == t
    ensures Becomes(s, i, fetch, 1, t)
  {
    forall n: nat ensures Walk(s, i, fetch, 1 + n) == Walk(t, i, fetch, n) {
      WalkNext(s, i, fetch, t, 1 + n);
    }
  }

  lemma {:induction false} Chain(s: State, i: nat, fetch: Fetch, k: nat, t: State, l: nat, u: State)
    requires Becomes(s, i, fetch, k, t) && Becomes(t, i, fetch, l, u)
    ensures Becomes(s, i, fetch, k + l, u)
  {
    forall n: nat ensures Walk(s, i, fetch, k + l + n) == Walk(u, i, fetch, n) {
      assert Walk(s, i, fetch, k + (l + n)) == Walk(t, i, fetch, l + n);
    }
  }

  lemma {:induction false} Exactly(s: State, i: nat, fetch: Fetch, k: nat, t: State)
    requires Becomes(s, i, fetch, k, t)
    ensures Walk(s, i, fetch, k) == t
  {
    assert Walk(s, i, fetch, k + 0) == Walk(t, i, fetch, 0);
  }

  lemma {:induction false} FinishedStays(s: State, i: nat, fetch: Fetch, n: nat)
    requires i < |s.calls| && s.calls[i].pc.Done?
    ensures Walk(s, i, fetch, n) == s
  {
    if n > 0 {
      FinishedStays(s, i, fetch, n - 1);
    }
  }

  lemma {:induction false} Finishes(s: State, i: nat, fetch: Fetch, k: nat, t: State, n: nat)
    requires Becomes(s, i, fetch, k, t) && i < |t.calls| && t.calls[i].pc.Done? && n >= k
    ensures Walk(s, i, fetch, n) == t
  {
    var m: nat := n - k;
    assert Walk(s, i, fetch, k + m) == Walk(t, i, fetch, m);
    FinishedStays(t, i, fetch, m);
  }

  /** One step that only moves the program counter and the locks. */
  lemma Moves(s: State, u: State, i: nat, fetch: Fetch, p: Pc, q: Pc)
    requires i < |s.calls| && Allowed(s.mu, s.refreshMu, p)
    requires q == NextPc(s, Resolver(s.calls[i].kid, p), fetch)
    requires !p.WriteKeys? && !p.WriteExpiry?
    requires u == s.(mu := MuAfter(s.mu, i, p), refreshMu := MutexAfter(s.refreshMu, i, p))
    ensures Becomes(At(s, i, p), i, fetch, 1, At(u, i, q))
  {
    AtAt(s, i, p, q);
    assert NextPc(At(s, i, p), Resolver(s.calls[i].kid, p), fetch) == q;
    OneStep(At(s, i, p), i, fetch, At(u, i, q));
  }

  function ReadLocked(s: State, i: nat): State {
    s.(mu := RwMutex({i}, None, None))
  }

  /** A lookup under the read lock, whichever of the three it is: after three steps the lock
      has been released. `wait`, `held` and `release` are its program counters. */
  lemma ReadStretch(s: State, i: nat, fetch: Fetch, wait: Pc, held: Pc, release: Pc, after: Pc)
    requires i < |s.calls| && s.mu == RwMutex({}, None, None)
    requires var r := Resolver(s.calls[i].kid, wait);
      && NextPc(s, r, fetch) == held
      && NextPc(s, r.(pc := held), fetch) == release
      && NextPc(s, r.(pc := release), fetch) == after
    requires wait == FastWait || wait == DoubleWait || wait.FinalWait?
    requires held == FastHeld || held == DoubleHeld || held.FinalHeld?
    requires release.FastRelease? || release.DoubleRelease? || release.FinalRelease?
    ensures Becomes(At(s, i, wait), i, fetch, 3, At(s, i, after))
  {
    var l := ReadLocked(s, i);
    assert {} + {i} == {i} && {i} - {i} == {};
    Moves(s, l, i, fetch, wait, held);
    assert NextPc(l, Resolver(s.calls[i].kid, held), fetch) == release;
    Moves(l, l, i, fetch, held, release);
    Moves(l, s, i, fetch, release, after);
    Chain(At(s, i, wait), i, fetch, 1, At(l, i, held), 1, At(l, i, release));
    Chain(At(s, i, wait), i, fetch, 2, At(l, i, release), 1, At(s, i, after));
  }

  function MutexHeld(s: State, i: nat): State {
    s.(refreshMu := Some(i))
  }

  /** Having answered and released the refresh mutex. */
  function Released(s: State, i: nat, result: Result): State
    requires i < |s.calls|
  {
    At(s.(refreshMu := None), i, Done(result))
  }

  lemma ReleaseStretch(s: State, i: nat, fetch: Fetch, result: Result)
    requires Idle(s, i, Some(i))
    ensures Becomes(At(s, i, MutexRelease(result)), i, fetch, 1, Released(s, i, result))
  {
    Moves(s, s.(refreshMu := None), i, fetch, MutexRelease(result), Done(result));
  }

  function Installed(s: State, doc: Keys): State {
    s.(keys := doc, expiry := s.now + TTL, installs := s.installs + [Install(doc, s.now)])
  }

  function WriteLocked(s: State, i: nat): State {
    s.(mu := RwMutex({}, Some(i), None))
  }

  lemma LockStretch(s: State, i: nat, fetch: Fetch, doc: Keys)
    requires Idle(s, i, Some(i))
    ensures Becomes(At(s, i, Announce(doc)), i, fetch, 2, At(WriteLocked(s, i), i, WriteKeys(doc)))
  {
    var queued := s.(mu := RwMutex({}, None, Some(i)));
    Moves(s, queued, i, fetch, Announce(doc), LockWait(doc));
    Moves(queued, WriteLocked(s, i), i, fetch, LockWait(doc), WriteKeys(doc));
    Chain(At(s, i, Announce(doc)), i, fetch, 1, At(queued, i, LockWait(doc)),
      1, At(WriteLocked(s, i), i, WriteKeys(doc)));
  }

  lemma KeysStored(s: State, i: nat, fetch: Fetch, doc: Keys)
    requires i < |s.calls|
    ensures Becomes(At(s, i, WriteKeys(doc)), i, fetch, 1, At(s.(keys := doc), i, WriteExpiry(doc)))
  {
    AtAt(s, i, WriteKeys(doc), WriteExpiry(doc));
    OneStep(At(s, i, WriteKeys(doc)), i, fetch, At(s.(keys := doc), i, WriteExpiry(doc)));
  }

  lemma ExpiryStored(s: State, i: nat, fetch: Fetch, doc: Keys)
    requires i < |s.calls|
    ensures Becomes(At(s.(keys := doc), i, WriteExpiry(doc)), i, fetch, 1, At(Installed(s, doc), i, WriteUnlock(doc)))
  {
    AtAt(s, i, WriteExpiry(doc), WriteUnlock(doc));
    OneStep(At(s.(keys := doc), i, WriteExpiry(doc)), i, fetch, At(Installed(s, doc), i, WriteUnlock(doc)));
  }

  lemma StoreStretch(s: State, i: nat, fetch: Fetch, doc: Keys)
    requires Idle(s, i, Some(i))
    ensures Becomes(At(WriteLocked(s, i), i, WriteKeys(doc)), i, fetch, 3, At(Installed(s, doc), i, FinalWait(doc)))
  {
    var locked := WriteLocked(s, i);
    KeysStored(locked, i, fetch, doc);
    ExpiryStored(locked, i, fetch, doc);
    Moves(Installed(locked, doc), Installed(s, doc), i, fetch, WriteUnlock(doc), FinalWait(doc));
    Chain(At(locked, i, WriteKeys(doc)), i, fetch, 1, At(locked.(keys := doc), i, WriteExpiry(doc)),
      1, At(Installed(locked, doc), i, WriteUnlock(doc)));
    Chain(At(locked, i, WriteKeys(doc)), i, fetch, 2, At(Installed(locked, doc), i, WriteUnlock(doc)),
      1, At(Installed(s, doc), i, FinalWait(doc)));
  }

  lemma FinalStretch(s: State, i: nat, fetch: Fetch, doc: Keys)
    requires Idle(s, i, Some(i)) && s.keys == doc
    ensures Becomes(At(s, i, FinalWait(doc)), i, fetch, 4, Released(s, i, Answer(Lookup(doc, s.calls[i].kid))))
  {
    var hit := Lookup(doc, s.calls[i].kid);
    ReadStretch(s, i, fetch, FinalWait(doc), FinalHeld(doc), FinalRelease(doc, hit), MutexRelease(Answer(hit)));
    ReleaseStretch(s, i, fetch, Answer(hit));
    Chain(At(s, i, FinalWait(doc)), i, fetch, 3, At(s, i, MutexRelease(Answer(hit))), 1, Released(s, i, Answer(hit)));
  }

  lemma InstallStretch(s: State, i: nat, fetch: Fetch, doc: Keys)
    requires Idle(s, i, Some(i))
    ensures Becomes(At(s, i, Announce(doc)), i, fetch, 9,
      Released(Installed(s, doc), i, Answer(Lookup(doc, s.calls[i].kid))))
  {
    var s1, s2 := At(s, i, Announce(doc)), At(WriteLocked(s, i), i, WriteKeys(doc));
    var s3 := At(Installed(s, doc), i, FinalWait(doc));
    LockStretch(s, i, fetch, doc);
    StoreStretch(s, i, fetch, doc);
    Chain(s1, i, fetch, 2, s2, 3, s3);
    FinalStretch(Installed(s, doc), i, fetch, doc);
    Chain(s1, i, fetch, 5, s3, 4, Released(Installed(s, doc), i, Answer(Lookup(doc, s.calls[i].kid))));
  }

  predicate Refreshable(s: State, fetch: Fetch) {
    s.configured && fetch.Fetched? && KeySet(fetch.doc) != map[]
  }

  lemma RefreshSucceeds(s: State, i: nat, fetch: Fetch, doc: Keys)
    requires Idle(s, i, Some(i)) && Refreshable(s, fetch) && doc == KeySet(fetch.doc)
    ensures Becomes(At(s, i, Refreshing), i, fetch, 10,
      Released(Installed(s, doc), i, Answer(Lookup(doc, s.calls[i].kid))))
  {
    Moves(s, s, i, fetch, Refreshing, Announce(doc));
    InstallStretch(s, i, fetch, doc);
    Chain(At(s, i, Refreshing), i, fetch, 1, At(s, i, Announce(doc)),
      9, Released(Installed(s, doc), i, Answer(Lookup(doc, s.calls[i].kid))));
  }

  lemma RefreshFails(s: State, i: nat, fetch: Fetch)
    requires Idle(s, i, Some(i)) && !Refreshable(s, fetch)
    ensures Becomes(At(s, i, Refreshing), i, fetch, 2, Released(s, i, Error))
  {
    Moves(s, s, i, fetch, Refreshing, MutexRelease(Error));
    ReleaseStretch(s, i, fetch, Error);
    Chain(At(s, i, Refreshing), i, fetch, 1, At(s, i, MutexRelease(Error)), 1, Released(s, i, Error));
  }

  /** The call has answered, all locks are free, and the cache is this. */
  predicate Ends(t: State, i: nat, outcome: (Result, Keys, nat)) {
    Idle(t, i, None) && t.calls[i].pc == Done(outcome.0) && t.keys == outcome.1 && t.expiry == outcome.2
  }

  /** What a call comes to after both checks. */
  function Ending(pc: Pc, configured: bool, keys: Keys, expiry: nat, kid: string,
                  install: nat, fetch: Fetch): (Result, Keys, nat)
    requires pc.Done? || pc.MutexRelease? || pc == Refreshing
  {
    if pc.Done? || pc.MutexRelease? then (pc.result, keys, expiry)
    else if configured && fetch.Fetched? && KeySet(fetch.doc) != map[] then
      (Answer(Lookup(KeySet(fetch.doc), kid)), KeySet(fetch.doc), install + TTL)
    else (Error, keys, expiry)
  }

  lemma {:induction false} EndStretch(s: State, i: nat, fetch: Fetch, pc: Pc, n: nat)
    requires (pc.Done? || pc.MutexRelease? || pc == Refreshing) && n >= 10
    requires Idle(s, i, if pc.Done? then None else Some(i))
    ensures Ends(Walk(At(s, i, pc), i, fetch, n), i,
      Ending(pc, s.configured, s.keys, s.expiry, s.calls[i].kid, s.now, fetch))
  {
    if pc.Done? {
      FinishedStays(At(s, i, pc), i, fetch, n);
    } else if pc.MutexRelease? {
      ReleaseStretch(s, i, fetch, pc.result);
      Finishes(At(s, i, pc), i, fetch, 1, Released(s, i, pc.result), n);
    } else if Refreshable(s, fetch) {
      var doc := KeySet(fetch.doc);
      RefreshSucceeds(s, i, fetch, doc);
      Finishes(At(s, i, pc), i, fetch, 10, Released(Installed(s, doc), i, Answer(Lookup(doc, s.calls[i].kid))), n);
    } else {
      RefreshFails(s, i, fetch);
      Finishes(At(s, i, pc), i, fetch, 2, Released(s, i, Error), n);
    }
  }

  function Later(s: State, d: nat): State {
    s.(now := s.now + d)
  }

  lemma LaterAt(s: State, i: nat, pc: Pc, d: nat)
    requires i < |s.calls|
    ensures Later(At(s, i, pc), d) == At(Later(s, d), i, pc)
  {
  }

  /** What the fast path finds, and where the call then stands. */
  function Fast(s: State, kid: string): Pc {
    if kid == "" then Done(Error)
    else if Check(s, kid).Some? then Done(Key(Check(s, kid).value))
    else MutexWait
  }

  /** How many steps one of the two checks takes, up to the next wait. */
  const CHECK_STEPS: nat := 4

  lemma {:induction false} FastStretch(s: State, i: nat, fetch: Fetch)
    requires Idle(s, i, None)
    ensures Walk(At(s, i, Start), i, fetch, CHECK_STEPS) == At(s, i, Fast(s, s.calls[i].kid))
  {
    var kid, hit := s.calls[i].kid, Check(s, s.calls[i].kid);
    if kid == "" {
      Moves(s, s, i, fetch, Start, Done(Error));
      Finishes(At(s, i, Start), i, fetch, 1, At(s, i, Done(Error)), CHECK_STEPS);
    } else {
      Moves(s, s, i, fetch, Start, FastWait);
      ReadStretch(s, i, fetch, FastWait, FastHeld, FastRelease(hit), Fast(s, kid));
      Chain(At(s, i, Start), i, fetch, 1, At(s, i, FastWait), 3, At(s, i, Fast(s, kid)));
      Exactly(At(s, i, Start), i, fetch, CHECK_STEPS, At(s, i, Fast(s, kid)));
    }
  }

  function Double(s: State, kid: string): Pc {
    if Check(s, kid).Some? then MutexRelease(Key(Check(s, kid).value)) else Refreshing
  }

  lemma {:induction false} DoubleStretch(s: State, i: nat, fetch: Fetch)
    requires Idle(s, i, None)
    ensures Walk(At(s, i, MutexWait), i, fetch, CHECK_STEPS) == At(MutexHeld(s, i), i, Double(s, s.calls[i].kid))
  {
    var kid, hit := s.calls[i].kid, Check(s, s.calls[i].kid);
    var held := MutexHeld(s, i);
    Moves(s, held, i, fetch, MutexWait, DoubleWait);
    ReadStretch(held, i, fetch, DoubleWait, DoubleHeld, DoubleRelease(hit), Double(s, kid));
    Chain(At(s, i, MutexWait), i, fetch, 1, At(held, i, DoubleWait), 3, At(held, i, Double(s, kid)));
    Exactly(At(s, i, MutexWait), i, fetch, CHECK_STEPS, At(held, i, Double(s, kid)));
  }

  /** The run of a call that nobody crosses: the steps of the fast path, a `wait` for the
      refresh mutex, those of the double check, a `delay` of the network, `n` more steps. */
  function Alone(i: nat, fetch: Fetch, wait: nat, delay: nat, n: nat): seq<Choice> {
    Steps(i, fetch, CHECK_STEPS) + [Tick(wait)] + Steps(i, fetch, CHECK_STEPS) + [Tick(delay)] + Steps(i, fetch, n)
  }

  lemma TickIsLater(s: State, d: nat)
    ensures Exec(s, [Tick(d)]) == Later(s, d)
  {
    assert [Tick(d)][1..] == [];
    assert Exec(s, [Tick(d)]) == Exec(Apply(s, Tick(d)), []);
  }

  lemma {:induction false} AloneIsWalks(s: State, i: nat, fetch: Fetch, wait: nat, delay: nat, n: nat)
    ensures Exec(s, Alone(i, fetch, wait, delay, n)) ==
      Walk(Later(Walk(Later(Walk(s, i, fetch, CHECK_STEPS), wait), i, fetch, CHECK_STEPS), delay), i, fetch, n)
  {
    var a, b, c := Steps(i, fetch, CHECK_STEPS), [Tick(wait)], Steps(i, fetch, CHECK_STEPS);
    var d, e := [Tick(delay)], Steps(i, fetch, n);
    ExecConcat(s, a + b + c + d, e);
    ExecConcat(s, a + b + c, d);
    ExecConcat(s, a + b, c);
    ExecConcat(s, a, b);
    WalkIsExec(s, i, fetch, CHECK_STEPS);
    TickIsLater(Exec(s, a), wait);
    WalkIsExec(Exec(s, a + b), i, fetch, CHECK_STEPS);
    TickIsLater(Exec(s, a + b + c), delay);
    WalkIsExec(Exec(s, a + b + c + d), i, fetch, n);
  }

  lemma StartIsHere(s: State, i: nat)
    requires i < |s.calls| && s.calls[i].pc == Start
    ensures At(s, i, Start) == s
  {
    assert s.calls[i := Resolver(s.calls[i].kid, Start)] == s.calls;
  }

  /** What a call comes to after both checks, by what they find. */
  function Found(s: State, kid: string, wait: nat): Pc {
    if Fast(s, kid).Done? then Fast(s, kid) else Double(Later(s, wait), kid)
  }

  lemma OutcomeIsEnding(s: State, kid: string, wait: nat, delay: nat, fetch: Fetch)
    ensures Outcome(s.configured, s.keys, s.expiry, kid, s.now, s.now + wait, s.now + wait + delay, fetch)
      == Ending(Found(s, kid, wait), s.configured, s.keys, s.expiry, kid, s.now + wait + delay, fetch)
  {
  }

  lemma {:induction false} BothChecks(s: State, i: nat, fetch: Fetch, wait: nat)
    requires Idle(s, i, None)
    ensures var pc := Found(s, s.calls[i].kid, wait);
      Walk(Later(Walk(At(s, i, Start), i, fetch, CHECK_STEPS), wait), i, fetch, CHECK_STEPS)
        == At(if pc.Done? then Later(s, wait) else MutexHeld(Later(s, wait), i), i, pc)
  {
    var pc := Fast(s, s.calls[i].kid);
    FastStretch(s, i, fetch);
    LaterAt(s, i, pc, wait);
    if pc.Done? {
      FinishedStays(At(Later(s, wait), i, pc), i, fetch, CHECK_STEPS);
    } else {
      DoubleStretch(Later(s, wait), i, fetch);
    }
  }

  /** A call alone among free locks, taking four steps up to each wait and at least ten at the
      end, ends with the answer, the keys and the expiry of the sequential cache, whatever
      other calls there are, and leaves the locks free. */
  lemma {:induction false} AloneIsResolve(s: State, i: nat, fetch: Fetch, wait: nat, delay: nat, n: nat)
    requires Idle(s, i, None) && s.calls[i].pc == Start && n >= 10
    ensures Ends(Exec(s, Alone(i, fetch, wait, delay, n)), i,
      Outcome(s.configured, s.keys, s.expiry, s.calls[i].kid, s.now, s.now + wait, s.now + wait + delay, fetch))
  {
    var kid := s.calls[i].kid;
    var pc := Found(s, kid, wait);
    var t := if pc.Done? then Later(s, wait) else MutexHeld(Later(s, wait), i);
    AloneIsWalks(s, i, fetch, wait, delay, n);
    StartIsHere(s, i);
    BothChecks(s, i, fetch, wait);
    LaterAt(t, i, pc, delay);
    EndStretch(Later(t, delay), i, fetch, pc, n);
    OutcomeIsEnding(s, kid, wait, delay, fetch);
  }
}
