/** The secret handlers as a transition system. A handler is a sequence of separate
    transactions; any number of handlers are in flight and any one of them may take the
    next step. A schedule lists the arrivals and steps in the order they happen, so a
    claim about every schedule is a claim about every interleaving. */
module Protocol {
  import opened Text
  import opened BigEndian
  import opened KeyLayout
  import opened Requests
  import opened Transactions

  datatype Response =
    | Found(value: Bytes, version: Int64)
    | Created(version: Int64)
    | Updated(version: Int64)
    | Deleted
    | NotFound
    | Conflict(current: Int64, expected: Int64)
    | InternalError
    | Refused(status: nat)

  /** A handler between two transactions; the constructor is its program counter. */
  datatype Handler =
    | Done(resp: Response)
    | GetRead(k: string)
    | GetVersion(k: string, value: Bytes)
    | PostPut(k: string, value: Bytes)
    | PostBump(k: string)
    | PostMtime(k: string, reported: Int64)
    | PatchCheck(k: string, value: Bytes, expected: Int64)
    | PatchCas(k: string, value: Bytes, expected: Int64)
    | PatchConflict(k: string, expected: Int64)
    | PatchPut(k: string, value: Bytes, expected: Int64, version: Int64)
    | PatchMtime(k: string, expected: Int64, version: Int64)
    | DelSecret(k: string)
    | DelVersion(k: string)
    | DelMtime(k: string)

  /** A handler that has just been handed its request. */
  function Start(r: Request): Handler {
    Begin(Admit(r))
  }

  function Begin(d: Decision): Handler {
    match d
    case Refuse(status) => Done(Refused(status))
    case Accept(Get(k)) => GetRead(k)
    case Accept(Post(k, value)) => PostPut(k, value)
    case Accept(Patch(k, value, e)) => PatchCheck(k, value, e)
    case Accept(Delete(k)) => DelSecret(k)
  }

  /** One transaction of a handler, and the code up to its next transaction. */
  function Advance(db: Db, h: Handler, fault: Fault, now: Int64): (Db, Handler) {
    match h
    case Done(_) => (db, h)
    case GetRead(k) =>
      if fault != Fine || k !in db.secrets then (db, Done(NotFound))
      else (db, GetVersion(k, db.secrets[k]))
    case GetVersion(k, value) =>
      (db, Done(Found(value, if fault == Fine then Counter(db, k) else 0)))
    case PostPut(k, value) =>
      if fault != Fine then (db, Done(InternalError))
      else (PutSecret(db, k, value, fault), PostBump(k))
    case PostBump(k) =>
      (match BumpVersion(db, k, -1, fault)
       case (after, Bumped(v)) => (after, PostMtime(k, v))
       case (after, Mismatch) => (after, PostMtime(k, 0))
       case (after, Lost(v)) => (after, PostMtime(k, v)))
    case PostMtime(k, v) =>
      (WriteMtime(db, k, now, fault), Done(Created(v)))
    case PatchCheck(k, value, e) =>
      if fault != Fine || k !in db.secrets then (db, Done(NotFound))
      else (db, PatchCas(k, value, e))
    case PatchCas(k, value, e) =>
      (match BumpVersion(db, k, e, fault)
       case (after, Bumped(v)) => (after, PatchPut(k, value, e, v))
       case (after, Mismatch) => (after, PatchConflict(k, e))
       case (after, Lost(_)) => (after, Done(InternalError)))
    case PatchConflict(k, e) =>
      (db, Done(Conflict(if fault == Fine then Counter(db, k) else 0, e)))
    case PatchPut(k, value, e, v) =>
      if fault != Fine then (db, Done(InternalError))
      else (PutSecret(db, k, value, fault), PatchMtime(k, e, v))
    case PatchMtime(k, e, v) =>
      (WriteMtime(db, k, now, fault), Done(Updated(v)))
    case DelSecret(k) =>
      if fault != Fine || k !in db.secrets then (db, Done(NotFound))
      else (DeleteSecret(db, k, fault), DelVersion(k))
    case DelVersion(k) =>
      (DeleteVersion(db, k, fault), DelMtime(k))
    case DelMtime(k) =>
      (DeleteMtime(db, k, fault), Done(Deleted))
  }

  datatype State = State(db: Db, handlers: seq<Handler>)

  datatype Choice =
    | Arrive(r: Request)
    | Step(i: nat, fault: Fault, now: Int64)

  function Apply(s: State, c: Choice): State {
    match c
    case Arrive(r) => s.(handlers := s.handlers + [Start(r)])
    case Step(i, fault, now) =>
      if i >= |s.handlers| then s
      else
        var (db, h) := Advance(s.db, s.handlers[i], fault, now);
        State(db, s.handlers[i := h])
  }

  /** The state a schedule leads to. */
  function Exec(s: State, cs: seq<Choice>): State
    decreases cs
  {
    if cs == [] then s else Exec(Apply(s, cs[0]), cs[1..])
  }

  lemma {:induction false} ExecConcat(s: State, a: seq<Choice>, b: seq<Choice>)
    ensures Exec(s, a + b) == Exec(Exec(s, a), b)
    decreases a
  {
    if a == [] {
      assert a + b == b;
    } else {
      assert (a + b)[0] == a[0] && (a + b)[1..] == a[1..] + b;
      ExecConcat(Apply(s, a[0]), a[1..], b);
    }
  }

  // ----- the version counter over whole runs -----

  /** The handler that `c` lets step. */
  function Actor(s: State, c: Choice): Option<Handler> {
    if c.Step? && c.i < |s.handlers| then Some(s.handlers[c.i]) else None
  }

  /** The version returned by a successful bump of `k` in this step. */
  function BumpAt(s: State, c: Choice, k: string): Option<Int64> {
    match Actor(s, c)
    case Some(PostBump(l)) =>
      var r := BumpVersion(s.db, l, -1, c.fault).1;
      if l == k && r.Bumped? then Some(r.version) else None
    case Some(PatchCas(l, _, e)) =>
      var r := BumpVersion(s.db, l, e, c.fault).1;
      if l == k && r.Bumped? then Some(r.version) else None
    case _ => None
  }

  /** This step deletes the version record of `k`. */
  predicate ResetAt(s: State, c: Choice, k: string) {
    Actor(s, c) == Some(DelVersion(k)) && c.fault == Fine
  }

  predicate HasReset(s: State, cs: seq<Choice>, k: string)
    decreases cs
  {
    cs != [] && (ResetAt(s, cs[0], k) || HasReset(Apply(s, cs[0]), cs[1..], k))
  }

  /** The versions returned by the successful bumps of `k` after its last reset, in order. */
  function BumpsOf(s: State, cs: seq<Choice>, k: string): seq<Int64>
    decreases cs
  {
    if cs == [] then []
    else
      var rest := BumpsOf(Apply(s, cs[0]), cs[1..], k);
      if HasReset(Apply(s, cs[0]), cs[1..], k) || BumpAt(s, cs[0], k).None? then rest
      else [BumpAt(s, cs[0], k).value] + rest
  }

  lemma StepMovesCounter(s: State, c: Choice, k: string)
    ensures var before, after := Counter(s.db, k), Counter(Apply(s, c).db, k);
      && (BumpAt(s, c, k).Some? ==> BumpAt(s, c, k).value == after == Next64(before))
      && (ResetAt(s, c, k) ==> after == 0)
      && (BumpAt(s, c, k).None? && !ResetAt(s, c, k) ==> after == before)
  {
    match Actor(s, c)
    case Some(PostBump(l)) => BumpMovesCounter(s.db, l, -1, c.fault, k);
    case Some(PatchCas(l, _, e)) => BumpMovesCounter(s.db, l, e, c.fault, k);
    case _ =>
  }

  /** `vs` counts up from the version after `base`. */
  predicate Consecutive(base: Int64, vs: seq<Int64>) {
    forall n :: 0 <= n < |vs| ==> vs[n] == Plus64(base, n + 1)
  }

  lemma ConsecutiveCons(base: Int64, rest: seq<Int64>)
    requires Consecutive(Next64(base), rest)
    ensures Consecutive(base, [Next64(base)] + rest)
    ensures Plus64(Next64(base), |rest|) == Plus64(base, 1 + |rest|)
  {
    var vs := [Next64(base)] + rest;
    Plus64OfNext(base, |rest|);
    forall n | 0 <= n < |vs| ensures vs[n] == Plus64(base, n + 1) {
      Plus64OfNext(base, n);
      assert n > 0 ==> vs[n] == rest[n - 1];
    }
  }

  /** In every run, with deletes and faults anywhere, the counter of a key is the number of
      successful bumps since the key's last reset (added to the starting value if there
      was none), and those bumps returned consecutive versions. Arithmetic is 64-bit. */
  lemma {:induction false} CounterCountsBumps(s: State, cs: seq<Choice>, k: string)
    ensures var base := if HasReset(s, cs, k) then 0 else Counter(s.db, k);
      && Counter(Exec(s, cs).db, k) == Plus64(base, |BumpsOf(s, cs, k)|)
      && Consecutive(base, BumpsOf(s, cs, k))
    decreases cs
  {
    if cs != [] {
      var s' := Apply(s, cs[0]);
      StepMovesCounter(s, cs[0], k);
      CounterCountsBumps(s', cs[1..], k);
      if !HasReset(s', cs[1..], k) && BumpAt(s, cs[0], k).Some? {
        ConsecutiveCons(Counter(s.db, k), BumpsOf(s', cs[1..], k));
      }
    }
  }

  /** Below 2^63 that is ordinary counting. */
  lemma ConsecutiveInRange(base: Int64, vs: seq<Int64>)
    requires Consecutive(base, vs) && base + |vs| < TWO_63
    ensures Plus64(base, |vs|) == base + |vs|
    ensures forall n :: 0 <= n < |vs| ==> vs[n] == base + 1 + n
  {
    Plus64InRange(base, |vs|);
    forall n | 0 <= n < |vs| ensures vs[n] == base + 1 + n {
      Plus64InRange(base, n + 1);
    }
  }

  /** While no version record of `k` is deleted and the counter stays below 2^63, bumps
      return the versions after the starting one, gap-free, increasing and all distinct. */
  lemma VersionsGapFree(s: State, cs: seq<Choice>, k: string)
    requires !HasReset(s, cs, k)
    requires Counter(s.db, k) + |BumpsOf(s, cs, k)| < TWO_63
    ensures var c, vs := Counter(s.db, k), BumpsOf(s, cs, k);
      && Counter(Exec(s, cs).db, k) == c + |vs|
      && (forall n :: 0 <= n < |vs| ==> vs[n] == c + 1 + n)
      && (forall m, n :: 0 <= m < n < |vs| ==> vs[m] < vs[n])
  {
    CounterCountsBumps(s, cs, k);
    ConsecutiveInRange(Counter(s.db, k), BumpsOf(s, cs, k));
  }

  lemma {:induction false} FewBumps(s: State, cs: seq<Choice>, k: string)
    ensures |BumpsOf(s, cs, k)| <= |cs|
    decreases cs
  {
    if cs != [] {
      FewBumps(Apply(s, cs[0]), cs[1..], k);
    }
  }

  /** This step is a compare-and-set on `k` that expects `e`. */
  predicate CasAt(s: State, c: Choice, k: string, e: Int64) {
    var a := Actor(s, c);
    a.Some? && a.value.PatchCas? && a.value.k == k && a.value.expected == e
  }

  /** Of all the PATCHes expecting one version of a key, at most one commits: after one
      has, every later compare-and-set expecting it fails, until the key is deleted. */
  lemma AtMostOneCommit(s: State, first: Choice, between: seq<Choice>, second: Choice, k: string, e: Int64)
    requires e >= 0 && CasAt(s, first, k, e) && BumpAt(s, first, k).Some?
    requires var s' := Apply(s, first);
      && !HasReset(s', between, k)
      && CasAt(Exec(s', between), second, k, e)
    requires |between| + 1 < TWO_64
    ensures BumpAt(Exec(Apply(s, first), between), second, k).None?
  {
    var s1 := Apply(s, first);
    var n := |BumpsOf(s1, between, k)|;
    BumpMovesCounter(s.db, k, e, first.fault, k);
    CounterCountsBumps(s1, between, k);
    FewBumps(s1, between, k);
    Plus64OfNext(e, n);
    Plus64Wraps(e, n + 1);
    BumpOutcome(Exec(s1, between).db, k, e, second.fault);
  }

  /** Put the other way round: two commits on one version have a delete between them. */
  lemma SecondCommitNeedsReset(s: State, first: Choice, between: seq<Choice>, second: Choice, k: string, e: Int64)
    requires e >= 0 && CasAt(s, first, k, e) && BumpAt(s, first, k).Some?
    requires var s2 := Exec(Apply(s, first), between); CasAt(s2, second, k, e) && BumpAt(s2, second, k).Some?
    requires |between| + 1 < TWO_64
    ensures HasReset(Apply(s, first), between, k)
  {
    if !HasReset(Apply(s, first), between, k) {
      AtMostOneCommit(s, first, between, second, k, e);
    }
  }

  /** No handler has started and nothing is stored. */
  const EMPTY := State(Db(map[], map[], map[]), [])

  predicate Readable(db: Db, k: string) {
    k in db.versions ==> |db.versions[k]| == 8
  }

  lemma StepReadable(db: Db, h: Handler, fault: Fault, now: Int64, k: string)
    requires Readable(db, k)
    ensures Readable(Advance(db, h, fault, now).0, k)
  {
  }

  lemma ChoiceReadable(s: State, c: Choice, k: string)
    requires Readable(s.db, k)
    ensures Readable(Apply(s, c).db, k)
  {
    if Actor(s, c).Some? {
      StepReadable(s.db, s.handlers[c.i], c.fault, c.now, k);
    }
  }

  lemma {:induction false} StaysReadable(s: State, cs: seq<Choice>, k: string)
    requires Readable(s.db, k)
    ensures Readable(Exec(s, cs).db, k)
    decreases cs
  {
    if cs != [] {
      ChoiceReadable(s, cs[0], k);
      StaysReadable(Apply(s, cs[0]), cs[1..], k);
    }
  }

  /** Exactly when a PATCH commits, in every run from an empty store: a fault-free
      compare-and-set expecting `e` succeeds iff `e` is the number of writes to the key that
      were counted since its version record was last deleted. After a delete and enough new
      writes an old PATCH is therefore accepted again. */
  lemma CommitsExactly(cs: seq<Choice>, c: Choice, k: string, e: Int64)
    requires CasAt(Exec(EMPTY, cs), c, k, e) && c.fault == Fine && |cs| < TWO_63
    ensures BumpAt(Exec(EMPTY, cs), c, k).Some? <==> |BumpsOf(EMPTY, cs, k)| == e
  {
    PatchAlwaysCompares(EMPTY, cs);
    assert Actor(Exec(EMPTY, cs), c).value in Exec(EMPTY, cs).handlers;
    StaysReadable(EMPTY, cs, k);
    CounterCountsBumps(EMPTY, cs, k);
    FewBumps(EMPTY, cs, k);
    Plus64InRange(0, |BumpsOf(EMPTY, cs, k)|);
    BumpOutcome(Exec(EMPTY, cs).db, k, e, c.fault);
  }

  lemma PassedVersionStaysPassed(s: State, cs: seq<Choice>, k: string, e: Int64)
    requires Counter(s.db, k) > e && !HasReset(s, cs, k)
    requires Counter(s.db, k) + |cs| < TWO_63
    ensures Counter(Exec(s, cs).db, k) > e
  {
    FewBumps(s, cs, k);
    VersionsGapFree(s, cs, k);
  }

  // ----- replay safety -----

  predicate IsPatch(h: Handler, k: string, e: Int64) {
    match h
    case PatchCheck(l, _, f) => l == k && f == e
    case PatchCas(l, _, f) => l == k && f == e
    case PatchConflict(l, f) => l == k && f == e
    case PatchPut(l, _, f, _) => l == k && f == e
    case PatchMtime(l, f, _) => l == k && f == e
    case _ => false
  }

  /** A PATCH of `k` expecting `e` that has won its compare-and-set. */
  predicate Committed(h: Handler, k: string, e: Int64) {
    IsPatch(h, k, e) && (h.PatchPut? || h.PatchMtime?)
  }

  /** Every PATCH still holds the non-negative version its request named. */
  predicate CasNeverSkipped(s: State) {
    forall h :: h in s.handlers && (h.PatchCheck? || h.PatchCas?) ==> h.expected >= 0
  }

  /** In every run, no PATCH ever reaches the bump with the comparison switched off. */
  lemma {:induction false} PatchAlwaysCompares(s: State, cs: seq<Choice>)
    requires CasNeverSkipped(s)
    ensures CasNeverSkipped(Exec(s, cs))
    decreases cs
  {
    if cs != [] {
      if cs[0].Arrive? && Admit(cs[0].r).Accept? {
        AdmitSound(cs[0].r);
      }
      PatchAlwaysCompares(Apply(s, cs[0]), cs[1..]);
    }
  }

  /** Handler `i` is not a PATCH of `k` expecting `e` that has won its compare-and-set. */
  predicate NotTheWinner(s: State, i: nat, k: string, e: Int64) {
    i < |s.handlers| ==> !Committed(s.handlers[i], k, e)
  }

  lemma StaleStep(s: State, c: Choice, i: nat, k: string, e: Int64)
    requires e >= 0 && Counter(s.db, k) != e && Readable(s.db, k) && NotTheWinner(s, i, k, e)
    ensures NotTheWinner(Apply(s, c), i, k, e)
    ensures var a := Actor(s, c);
      a.Some? && c.i == i && IsPatch(a.value, k, e) ==>
        && Apply(s, c).db == s.db
        && (a.value.PatchCas? && c.fault == Fine ==> Apply(s, c).handlers[i] == PatchConflict(k, e))
  {
    var a := Actor(s, c);
    if a.Some? && c.i == i && a.value.PatchCas? {
      BumpOutcome(s.db, a.value.k, a.value.expected, c.fault);
    }
  }

  /** What step `c` of handler `i` does at the end of a run, if it is a stale PATCH. */
  predicate Harmless(t: State, c: Choice, i: nat, k: string, e: Int64) {
    var a := Actor(t, c);
    && (a.Some? && c.i == i && IsPatch(a.value, k, e) ==> Apply(t, c).db == t.db)
    && (CasAt(t, c, k, e) && c.i == i && c.fault == Fine ==> Apply(t, c).handlers[i] == PatchConflict(k, e))
  }

  /** The counter of `k` is `d` bumps past `e` and will not come round to it again. */
  lemma {:induction false} StaleRun(s: State, cs: seq<Choice>, c: Choice, i: nat, k: string, e: Int64, d: nat)
    requires e >= 0 && NotTheWinner(s, i, k, e) && !HasReset(s, cs, k) && Readable(s.db, k)
    requires Counter(s.db, k) == Plus64(e, d) && 0 < d && d + |cs| < TWO_64
    ensures NotTheWinner(Exec(s, cs), i, k, e) && Harmless(Exec(s, cs), c, i, k, e)
    decreases cs
  {
    Plus64Wraps(e, d);
    if cs == [] {
      StaleStep(s, c, i, k, e);
    } else {
      StaleStep(s, cs[0], i, k, e);
      StepMovesCounter(s, cs[0], k);
      ChoiceReadable(s, cs[0], k);
      StaleRun(Apply(s, cs[0]), cs[1..], c, i, k, e, if BumpAt(s, cs[0], k).Some? then d + 1 else d);
    }
  }

  /** Replay safety. Once the counter of `k` has passed `e`, every PATCH expecting `e` other
      than the one that won it - already in flight or yet to arrive, while the winner is
      still writing or long after - never commits in a run that deletes no version record
      of `k`: at every point of the run each of its steps leaves all three families as they
      are, and its compare-and-set ends in the conflict. */
  lemma ReplayHasNoEffect(s: State, cs: seq<Choice>, c: Choice, i: nat, k: string, e: Int64)
    requires e >= 0 && Counter(s.db, k) > e && NotTheWinner(s, i, k, e)
    requires !HasReset(s, cs, k) && |cs| < TWO_63
    ensures NotTheWinner(Exec(s, cs), i, k, e) && Harmless(Exec(s, cs), c, i, k, e)
  {
    var d := Counter(s.db, k) - e;
    Plus64InRange(e, d);
    StaleRun(s, cs, c, i, k, e, d);
  }

  /** From the moment one PATCH has committed on `e`, every other handler is such a stale one:
      it leaves the store alone for as long as it is a PATCH of `k` expecting `e`. */
  lemma LosersHaveNoEffect(s: State, first: Choice, cs: seq<Choice>, c: Choice, i: nat, k: string, e: Int64)
    requires e >= 0 && CasAt(s, first, k, e) && BumpAt(s, first, k).Some?
    requires i != first.i && NotTheWinner(s, i, k, e)
    requires !HasReset(Apply(s, first), cs, k) && 1 + |cs| < TWO_64
    ensures Harmless(Exec(Apply(s, first), cs), c, i, k, e)
  {
    BumpMovesCounter(s.db, k, e, first.fault, k);
    assert Plus64(e, 1) == Next64(Plus64(e, 0));
    StaleRun(Apply(s, first), cs, c, i, k, e, 1);
  }

  // ----- how the families nest -----

  /** What a handler may rely on at its program counter. */
  predicate Backed(db: Db, h: Handler) {
    match h
    case PostBump(k) => k in db.secrets
    case PostMtime(k, _) => k in db.versions
    case PatchCas(k, _, _) => k in db.secrets
    case PatchPut(k, _, _, _) => k in db.versions
    case PatchMtime(k, _, _) => k in db.versions
    case DelSecret(_) => false
    case DelVersion(_) => false
    case DelMtime(_) => false
    case _ => true
  }

  /** If `k` has an update time it has a version, and if it has a version it has a secret. */
  predicate Nested(db: Db, k: string) {
    && (k in db.mtimes ==> k in db.versions)
    && (k in db.versions ==> k in db.secrets)
  }

  predicate NestedInv(s: State, k: string) {
    && Nested(s.db, k)
    && forall h :: h in s.handlers && !h.Done? && h.k == k ==> Backed(s.db, h)
  }

  /** No DELETE of `k` arrives, and no POST of `k` loses its bump. */
  predicate Undisturbed(s: State, cs: seq<Choice>, k: string)
    decreases cs
  {
    cs == [] || (
      && (cs[0].Arrive? ==> Start(cs[0].r) != DelSecret(k))
      && (Actor(s, cs[0]) == Some(PostBump(k)) ==> cs[0].fault == Fine)
      && Undisturbed(Apply(s, cs[0]), cs[1..], k))
  }

  lemma NestedStep(s: State, c: Choice, k: string)
    requires NestedInv(s, k) && Undisturbed(s, [c], k)
    ensures NestedInv(Apply(s, c), k)
  {
    var s' := Apply(s, c);
    if c.Step? && c.i < |s.handlers| {
      var h := s.handlers[c.i];
      ActorStaysBacked(s.db, h, c.fault, c.now, k);
      forall g | g in s.handlers && !g.Done? && g.k == k ensures Backed(s'.db, g) {
        BackedStays(s.db, s'.db, g);
      }
    }
  }

  lemma ActorStaysBacked(db: Db, h: Handler, fault: Fault, now: Int64, k: string)
    requires Nested(db, k) && (!h.Done? && h.k == k ==> Backed(db, h))
    requires h == PostBump(k) ==> fault == Fine
    ensures var (after, g) := Advance(db, h, fault, now);
      && Nested(after, k)
      && (k in db.secrets ==> k in after.secrets) && (k in db.versions ==> k in after.versions)
      && (!g.Done? && g.k == k ==> Backed(after, g))
  {
  }

  lemma BackedStays(db: Db, after: Db, h: Handler)
    requires !h.Done? && Backed(db, h)
    requires h.k in db.secrets ==> h.k in after.secrets
    requires h.k in db.versions ==> h.k in after.versions
    ensures Backed(after, h)
  {
  }

  /** At every intermediate step of every run in which no DELETE of `k` arrives and no POST of
      `k` loses its bump, an update time of `k` has its version and a version its secret.
      Other transactions, and all those of other keys, may fail at will. */
  lemma {:induction false} FamiliesStayNested(s: State, cs: seq<Choice>, k: string)
    requires NestedInv(s, k) && Undisturbed(s, cs, k)
    ensures NestedInv(Exec(s, cs), k)
    decreases cs
  {
    if cs != [] {
      NestedStep(s, cs[0], k);
      FamiliesStayNested(Apply(s, cs[0]), cs[1..], k);
    }
  }
}
