/** When interleaved handlers still behave like the simple map. It is enough that handlers
    of the same key do not overlap; handlers of other keys may cross them at will, and
    their transactions may fail at will. */
module Isolation {
  import opened BigEndian
  import opened KeyLayout
  import opened Requests
  import opened Transactions
  import opened Protocol
  import opened Refinement

  /** A handler of `k` that has not answered yet. */
  predicate Concerns(h: Handler, k: string) {
    !h.Done? && h.k == k
  }

  /** A handler that has not made its first transaction. */
  predicate Unstarted(h: Handler) {
    h.GetRead? || h.PostPut? || h.PatchCheck? || h.DelSecret?
  }

  predicate Midway(h: Handler, k: string) {
    Concerns(h, k) && !Unstarted(h)
  }

  function OpOf(h: Handler): Op
    requires Unstarted(h)
  {
    match h
    case GetRead(k) => Get(k)
    case PostPut(k, value) => Post(k, value)
    case PatchCheck(k, value, e) => Patch(k, value, e)
    case DelSecret(k) => Delete(k)
  }

  /** The step is one of a handler of `k`. */
  predicate ActsOn(s: State, c: Choice, k: string) {
    Actor(s, c).Some? && Concerns(Actor(s, c).value, k)
  }

  /** Nobody else is midway. */
  predicate Alone(s: State, i: nat, k: string) {
    forall j :: 0 <= j < |s.handlers| && j != i ==> !Midway(s.handlers[j], k)
  }

  /** Handlers of `k` step only while no other handler of `k` is midway, and their
      transactions succeed. */
  predicate Isolated(s: State, cs: seq<Choice>, k: string)
    decreases cs
  {
    cs != [] ==>
      && (ActsOn(s, cs[0], k) ==> cs[0].fault == Fine && Alone(s, cs[0].i, k))
      && Isolated(Apply(s, cs[0]), cs[1..], k)
  }

  /** The request of `k` that this step begins. */
  function BegunAt(s: State, c: Choice, k: string): seq<Timed> {
    if ActsOn(s, c, k) && Unstarted(Actor(s, c).value) then [Timed(Accept(OpOf(Actor(s, c).value)), c.now)] else []
  }

  /** The requests of `k` in the order in which they made their first transaction. */
  function Begun(s: State, cs: seq<Choice>, k: string): seq<Timed>
    decreases cs
  {
    if cs == [] then [] else BegunAt(s, cs[0], k) + Begun(Apply(s, cs[0]), cs[1..], k)
  }

  // ----- what the store shows of the simple map -----

  predicate SecretIs(db: Db, k: string, value: Bytes) {
    k in db.secrets && db.secrets[k] == value
  }

  predicate VersionIs(db: Db, k: string, v: Int64) {
    k in db.versions && ReadRecord(db.versions, k) == Number(v)
  }

  /** The three families hold the record of `k`, or none of them does. */
  predicate Shows(db: Db, m: Table, k: string) {
    if k in m then SecretIs(db, k, m[k].value) && VersionIs(db, k, m[k].version) && k in db.mtimes
    else k !in db.secrets && k !in db.versions && k !in db.mtimes
  }

  /** What the store shows while `h` is midway and `m` already has its request's effect. */
  predicate Partly(db: Db, m: Table, h: Handler) {
    match h
    case GetVersion(k, value) => Shows(db, m, k) && k in m && value == m[k].value
    case PostBump(k) =>
      && k in m && SecretIs(db, k, m[k].value)
      && ReadRecord(db.versions, k).Number? && m[k].version == Next64(Counter(db, k))
    case PostMtime(k, v) => k in m && SecretIs(db, k, m[k].value) && VersionIs(db, k, v) && v == m[k].version
    case PatchCas(k, value, e) =>
      && k in m && k in db.mtimes && k in db.secrets
      && (if VersionIs(db, k, e) then m[k].value == value && m[k].version == Next64(e) else Shows(db, m, k))
    case PatchConflict(k, e) => Shows(db, m, k) && k in m
    case PatchPut(k, value, e, v) =>
      k in m && k in db.mtimes && VersionIs(db, k, v) && v == m[k].version && value == m[k].value
    case PatchMtime(k, e, v) => k in m && SecretIs(db, k, m[k].value) && VersionIs(db, k, v) && v == m[k].version
    case DelVersion(k) => k !in m && k !in db.secrets
    case DelMtime(k) => k !in m && k !in db.secrets && k !in db.versions
    case _ => true
  }

  /** The answer a handler that is midway is going to give. */
  function Promised(db: Db, h: Handler): Response {
    match h
    case Done(resp) => resp
    case GetVersion(k, value) => Found(value, Counter(db, k))
    case PostBump(k) => Created(Next64(Counter(db, k)))
    case PostMtime(k, v) => Created(v)
    case PatchCas(k, value, e) => if VersionIs(db, k, e) then Updated(Next64(e)) else Conflict(Counter(db, k), e)
    case PatchConflict(k, e) => Conflict(Counter(db, k), e)
    case PatchPut(k, value, e, v) => Updated(v)
    case PatchMtime(k, e, v) => Updated(v)
    case _ => Deleted
  }

  // ----- one step of a handler -----

  /** What one fault-free step must establish: the new store shows `m`, as far as the
      handler has come, and the handler is going to answer `resp`. */
  predicate Keeps(db: Db, h: Handler, m: Table, k: string, resp: Response) {
    && (if h.Done? then Shows(db, m, k) else Midway(h, k) && Partly(db, m, h))
    && Promised(db, h) == resp
  }

  lemma FirstStep(db: Db, m: Table, h: Handler, now: Int64)
    requires Unstarted(h) && Shows(db, m, h.k) && (h.PatchCheck? ==> h.expected >= 0)
    ensures var (after, h') := Advance(db, h, Fine, now);
      var (m', resp) := Spec(m, Accept(OpOf(h)), now);
      Keeps(after, h', m', h.k, resp)
  {
  }

  lemma LaterStep(db: Db, m: Table, h: Handler, now: Int64)
    requires !h.Done? && !Unstarted(h) && Partly(db, m, h) && (h.PatchCas? ==> h.expected >= 0)
    ensures var (after, h') := Advance(db, h, Fine, now);
      Keeps(after, h', m, h.k, Promised(db, h))
  {
    match h
    case PostBump(k) => Int64RoundTrip(Next64(Counter(db, k)));
    case PatchCas(k, _, e) => Int64RoundTrip(Next64(e));
    case _ =>
  }

  /** The three records of `k` are the same in both stores. */
  predicate SameAt(a: Db, b: Db, k: string) {
    && (k in a.secrets <==> k in b.secrets) && (k in a.secrets ==> a.secrets[k] == b.secrets[k])
    && (k in a.versions <==> k in b.versions) && (k in a.versions ==> a.versions[k] == b.versions[k])
    && (k in a.mtimes <==> k in b.mtimes)
  }

  /** A step leaves the records of every key but its own alone, whatever fails. */
  lemma OtherKeysAlone(db: Db, h: Handler, fault: Fault, now: Int64, k: string)
    requires !Concerns(h, k)
    ensures SameAt(db, Advance(db, h, fault, now).0, k)
    ensures !Concerns(Advance(db, h, fault, now).1, k)
  {
  }

  lemma SameAtKeeps(a: Db, b: Db, m: Table, h: Handler, k: string)
    requires SameAt(a, b, k)
    ensures Shows(a, m, k) ==> Shows(b, m, k)
    ensures Midway(h, k) ==> Promised(a, h) == Promised(b, h)
    ensures Midway(h, k) && Partly(a, m, h) ==> Partly(b, m, h)
  {
  }

  // ----- whole runs -----

  /** The store shows `m` at `k`: entirely when no handler of `k` is midway, and as far as
      that handler has come when one is. */
  predicate Simulates(s: State, m: Table, k: string) {
    && (forall j :: 0 <= j < |s.handlers| && Midway(s.handlers[j], k) ==> Partly(s.db, m, s.handlers[j]))
    && (Quiet(s, k) ==> Shows(s.db, m, k))
  }

  predicate Quiet(s: State, k: string) {
    forall j :: 0 <= j < |s.handlers| ==> !Midway(s.handlers[j], k)
  }

  lemma OtherStep(s: State, c: Choice, m: Table, k: string)
    requires Simulates(s, m, k) && !ActsOn(s, c, k)
    ensures Simulates(Apply(s, c), m, k) && SameAt(s.db, Apply(s, c).db, k)
  {
    var t := Apply(s, c);
    if Actor(s, c).Some? {
      OtherKeysAlone(s.db, s.handlers[c.i], c.fault, c.now, k);
    }
    forall j | 0 <= j < |t.handlers| && Midway(t.handlers[j], k)
      ensures j < |s.handlers| && t.handlers[j] == s.handlers[j] && Partly(t.db, m, t.handlers[j])
    {
      SameAtKeeps(s.db, t.db, m, t.handlers[j], k);
    }
    if Quiet(t, k) {
      forall j | 0 <= j < |s.handlers| ensures !Midway(s.handlers[j], k) {
        assert !Midway(t.handlers[j], k);
      }
      SameAtKeeps(s.db, t.db, m, Done(Deleted), k);
    }
  }

  /** The simple map after one step. */
  function MapAfter(s: State, c: Choice, m: Table, k: string): Table {
    if ActsOn(s, c, k) && Unstarted(Actor(s, c).value) then Spec(m, Accept(OpOf(Actor(s, c).value)), c.now).0 else m
  }

  lemma MapAfterServes(s: State, c: Choice, m: Table, k: string, later: seq<Timed>)
    ensures ServeSpec(m, BegunAt(s, c, k) + later).0 == ServeSpec(MapAfter(s, c, m, k), later).0
  {
    if BegunAt(s, c, k) == [] {
      assert BegunAt(s, c, k) + later == later;
    } else {
      assert (BegunAt(s, c, k) + later)[1..] == later;
    }
  }

  /** The answer a handler is bound to give after its step. */
  function AnswerAfter(s: State, c: Choice, m: Table): Response
    requires Actor(s, c).Some?
  {
    var h := s.handlers[c.i];
    if Unstarted(h) then Spec(m, Accept(OpOf(h)), c.now).1 else Promised(s.db, h)
  }

  lemma OwnRecords(s: State, c: Choice, m: Table, k: string)
    requires Simulates(s, m, k) && CasNeverSkipped(s)
    requires ActsOn(s, c, k) && c.fault == Fine && Alone(s, c.i, k)
    ensures Keeps(Apply(s, c).db, Apply(s, c).handlers[c.i], MapAfter(s, c, m, k), k, AnswerAfter(s, c, m))
  {
    var h := s.handlers[c.i];
    assert h in s.handlers;
    if Unstarted(h) {
      assert Quiet(s, k);
      FirstStep(s.db, m, h, c.now);
    } else {
      assert Midway(h, k);
      LaterStep(s.db, m, h, c.now);
    }
  }

  lemma OwnStep(s: State, c: Choice, m: Table, k: string)
    requires Simulates(s, m, k) && CasNeverSkipped(s)
    requires ActsOn(s, c, k) && c.fault == Fine && Alone(s, c.i, k)
    ensures Simulates(Apply(s, c), MapAfter(s, c, m, k), k)
    ensures Promised(Apply(s, c).db, Apply(s, c).handlers[c.i]) == AnswerAfter(s, c, m)
  {
    OwnRecords(s, c, m, k);
    AloneSimulates(s, Apply(s, c), c.i, MapAfter(s, c, m, k), k, AnswerAfter(s, c, m));
  }

  lemma AloneSimulates(s: State, t: State, i: nat, m: Table, k: string, resp: Response)
    requires i < |s.handlers| == |t.handlers| && Alone(s, i, k)
    requires forall j :: 0 <= j < |s.handlers| && j != i ==> t.handlers[j] == s.handlers[j]
    requires Keeps(t.db, t.handlers[i], m, k, resp)
    ensures Simulates(t, m, k)
  {
    assert Quiet(t, k) ==> !Midway(t.handlers[i], k);
  }

  /** Isolation per key is enough. In every run in which the handlers of `k` do not overlap,
      the records of `k` are at the end what the simple map holds after the requests of
      `k` one by one, in the order they began. */
  lemma {:induction false} IsolatedKeyRefines(s: State, cs: seq<Choice>, m: Table, k: string)
    requires Simulates(s, m, k) && CasNeverSkipped(s) && Isolated(s, cs, k)
    ensures Simulates(Exec(s, cs), ServeSpec(m, Begun(s, cs, k)).0, k)
    decreases cs
  {
    if cs != [] {
      if ActsOn(s, cs[0], k) {
        OwnStep(s, cs[0], m, k);
      } else {
        OtherStep(s, cs[0], m, k);
      }
      PatchAlwaysCompares(s, [cs[0]]);
      assert Exec(s, [cs[0]]) == Apply(s, cs[0]);
      IsolatedKeyRefines(Apply(s, cs[0]), cs[1..], MapAfter(s, cs[0], m, k), k);
      MapAfterServes(s, cs[0], m, k, Begun(Apply(s, cs[0]), cs[1..], k));
    }
  }

  lemma PromiseStep(s: State, c: Choice, m: Table, k: string, i: nat)
    requires Simulates(s, m, k) && CasNeverSkipped(s) && Isolated(s, [c], k)
    requires i < |s.handlers| && (Midway(s.handlers[i], k) || s.handlers[i].Done?)
    ensures var t := Apply(s, c);
      && Simulates(t, MapAfter(s, c, m, k), k) && CasNeverSkipped(t)
      && i < |t.handlers| && (Midway(t.handlers[i], k) || t.handlers[i].Done?)
      && Promised(t.db, t.handlers[i]) == Promised(s.db, s.handlers[i])
  {
    PatchAlwaysCompares(s, [c]);
    assert Exec(s, [c]) == Apply(s, c);
    if ActsOn(s, c, k) {
      OwnRecords(s, c, m, k);
      OwnStep(s, c, m, k);
    } else {
      OtherStep(s, c, m, k);
      SameAtKeeps(s.db, Apply(s, c).db, m, s.handlers[i], k);
    }
  }

  /** In such a run a handler that is midway gives the answer it promised. */
  lemma {:induction false} PromiseKept(s: State, cs: seq<Choice>, m: Table, k: string, i: nat)
    requires Simulates(s, m, k) && CasNeverSkipped(s) && Isolated(s, cs, k)
    requires i < |s.handlers| && (Midway(s.handlers[i], k) || s.handlers[i].Done?)
    ensures var t := Exec(s, cs);
      i < |t.handlers| && (t.handlers[i].Done? ==> t.handlers[i].resp == Promised(s.db, s.handlers[i]))
    decreases cs
  {
    if cs != [] {
      PromiseStep(s, cs[0], m, k, i);
      PromiseKept(Apply(s, cs[0]), cs[1..], MapAfter(s, cs[0], m, k), k, i);
    }
  }

  /** And so every request of `k` that begins in such a run, once it has been answered, was
      answered from the simple map as it stood after the requests that began before. */
  lemma IsolatedAnswers(s: State, before: seq<Choice>, c: Choice, after: seq<Choice>, m: Table, k: string)
    requires Simulates(s, m, k) && CasNeverSkipped(s) && Isolated(s, before, k)
    requires Isolated(Exec(s, before), [c] + after, k)
    requires BegunAt(Exec(s, before), c, k) != []
    ensures var t := Exec(Exec(s, before), [c] + after);
      && c.i < |t.handlers|
      && (t.handlers[c.i].Done? ==>
            t.handlers[c.i].resp ==
              Spec(ServeSpec(m, Begun(s, before, k)).0, BegunAt(Exec(s, before), c, k)[0].d, c.now).1)
  {
    var s1, m1 := Exec(s, before), ServeSpec(m, Begun(s, before, k)).0;
    IsolatedKeyRefines(s, before, m, k);
    PatchAlwaysCompares(s, before);
    assert ([c] + after)[1..] == after;
    OwnRecords(s1, c, m1, k);
    OwnStep(s1, c, m1, k);
    PatchAlwaysCompares(s1, [c]);
    assert Exec(s1, [c]) == Apply(s1, c);
    PromiseKept(Apply(s1, c), after, MapAfter(s1, c, m1, k), k, c.i);
  }

  lemma {:induction false} FewBegun(s: State, cs: seq<Choice>, k: string)
    ensures |Begun(s, cs, k)| <= |cs|
    decreases cs
  {
    if cs != [] {
      FewBegun(Apply(s, cs[0]), cs[1..], k);
    }
  }

  /** From an empty store, whatever happens to other keys: when the handlers of `k` have not
      overlapped and none is midway, the three families agree on whether `k` is there, its
      value is the last one written since its last delete, and its version counts the
      writes since then. */
  lemma IsolatedKeyCountsWrites(cs: seq<Choice>, k: string)
    requires Isolated(EMPTY, cs, k) && Quiet(Exec(EMPTY, cs), k) && |cs| < TWO_63
    ensures var db, ws := Exec(EMPTY, cs).db, WritesSinceDelete(map[], Begun(EMPTY, cs, k), k);
      && Holds(db, k, ws)
      && (k in db.secrets <==> k in db.versions) && (k in db.versions <==> k in db.mtimes)
  {
    var rs := Begun(EMPTY, cs, k);
    IsolatedKeyRefines(EMPTY, cs, map[], k);
    TableCountsWrites(map[], rs, k);
    FewBegun(EMPTY, cs, k);
    FewWrites(map[], rs, k);
    ShownHolds(Exec(EMPTY, cs).db, rs, k);
  }

  lemma ShownHolds(db: Db, rs: seq<Timed>, k: string)
    requires var m := ServeSpec(map[], rs).0; Shows(db, m, k) && CountsWrites(map[], rs, k, m)
    requires |WritesSinceDelete(map[], rs, k)| < TWO_63
    ensures Holds(db, k, WritesSinceDelete(map[], rs, k))
    ensures (k in db.secrets <==> k in db.versions) && (k in db.versions <==> k in db.mtimes)
  {
    Plus64InRange(0, |WritesSinceDelete(map[], rs, k)|);
  }
}
