/** Concrete runs, from an empty store and real requests to the last answer, for the
    guarantees that crossing handlers or a delete take away. Nothing fails in them. */
module Runs {
  import opened Text
  import opened BigEndian
  import opened KeyLayout
  import opened Requests
  import opened Transactions
  import opened Protocol
  import opened Refinement
  import opened Interleavings

  /** The listed handlers take one fault-free step each, in order. */
  function Turns(order: seq<nat>): seq<Choice> {
    if order == [] then [] else [Step(order[0], Fine, 0)] + Turns(order[1..])
  }

  function Arrivals(rs: seq<Request>): seq<Choice> {
    if rs == [] then [] else [Arrive(rs[0])] + Arrivals(rs[1..])
  }

  function Starts(rs: seq<Request>): seq<Handler> {
    if rs == [] then [] else [Start(rs[0])] + Starts(rs[1..])
  }

  lemma ExecCons(s: State, c: Choice, cs: seq<Choice>)
    ensures Exec(s, [c] + cs) == Exec(Apply(s, c), cs)
  {
    assert ([c] + cs)[1..] == cs;
  }

  lemma {:induction false} AfterArrivals(s: State, rs: seq<Request>)
    ensures Exec(s, Arrivals(rs)) == State(s.db, s.handlers + Starts(rs))
    decreases rs
  {
    if rs == [] {
      assert s.handlers + Starts(rs) == s.handlers;
    } else {
      ExecCons(s, Arrive(rs[0]), Arrivals(rs[1..]));
      AfterArrivals(State(s.db, s.handlers + [Start(rs[0])]), rs[1..]);
      assert s.handlers + [Start(rs[0])] + Starts(rs[1..]) == s.handlers + Starts(rs);
    }
  }

  lemma {:induction false} TurnsConcat(a: seq<nat>, b: seq<nat>)
    ensures Turns(a + b) == Turns(a) + Turns(b)
  {
    if a == [] {
      assert a + b == b;
    } else {
      assert (a + b)[1..] == a[1..] + b;
      TurnsConcat(a[1..], b);
    }
  }

  /** The outcome of the listed turns. */
  function Play(s: State, order: seq<nat>): State {
    Exec(s, Turns(order))
  }

  lemma Then(s: State, a: seq<nat>, t: State, b: seq<nat>)
    requires Play(s, a) == t
    ensures Play(s, a + b) == Play(t, b)
  {
    TurnsConcat(a, b);
    ExecConcat(s, Turns(a), Turns(b));
  }

  lemma One(s: State, i: nat, db: Db, h: Handler)
    requires i < |s.handlers| && Advance(s.db, s.handlers[i], Fine, 0) == (db, h)
    ensures Play(s, [i]) == State(db, s.handlers[i := h])
  {
    assert [i][1..] == [] && Turns([i]) == [Step(i, Fine, 0)];
    assert [Step(i, Fine, 0)][1..] == [];
    assert Exec(s, [Step(i, Fine, 0)]) == Apply(s, Step(i, Fine, 0));
  }

  lemma Two(s: State, i: nat, d1: Db, h1: Handler, d2: Db, h2: Handler)
    requires i < |s.handlers| && Advance(s.db, s.handlers[i], Fine, 0) == (d1, h1)
    requires Advance(d1, h1, Fine, 0) == (d2, h2)
    ensures Play(s, [i, i]) == State(d2, s.handlers[i := h2])
  {
    var t := State(d1, s.handlers[i := h1]);
    One(s, i, d1, h1);
    One(t, i, d2, h2);
    Then(s, [i], t, [i]);
    assert [i] + [i] == [i, i];
    assert s.handlers[i := h1][i := h2] == s.handlers[i := h2];
  }

  lemma Three(s: State, i: nat, d1: Db, h1: Handler, d2: Db, h2: Handler, d3: Db, h3: Handler)
    requires i < |s.handlers| && Advance(s.db, s.handlers[i], Fine, 0) == (d1, h1)
    requires Advance(d1, h1, Fine, 0) == (d2, h2) && Advance(d2, h2, Fine, 0) == (d3, h3)
    ensures Play(s, [i, i, i]) == State(d3, s.handlers[i := h3])
  {
    var t := State(d2, s.handlers[i := h2]);
    Two(s, i, d1, h1, d2, h2);
    One(t, i, d3, h3);
    Then(s, [i, i], t, [i]);
    assert [i, i] + [i] == [i, i, i];
    assert s.handlers[i := h2][i := h3] == s.handlers[i := h3];
  }

  // ----- stretches of single handlers -----

  function Bump(db: Db, k: string, v: Int64): Db {
    db.(versions := db.versions[k := EncodeInt64(v)])
  }

  function Put(db: Db, k: string, value: Bytes): Db {
    db.(secrets := db.secrets[k := value])
  }

  function Stamp(db: Db, k: string): Db {
    db.(mtimes := db.mtimes[k := EncodeInt64(0)])
  }

  function Gone(db: Db, k: string): Db {
    Db(db.secrets - {k}, db.versions - {k}, db.mtimes - {k})
  }

  predicate CountIs(db: Db, k: string, v: Int64) {
    ReadRecord(db.versions, k) == Number(v)
  }

  lemma BumpGives(db: Db, k: string, expected: Int64, v: Int64)
    requires CountIs(db, k, v) && (expected < 0 || expected == v) && v + 1 < TWO_63
    ensures BumpVersion(db, k, expected, Fine) == (Bump(db, k, v + 1), Bumped(v + 1))
    ensures CountIs(Bump(db, k, v + 1), k, v + 1)
  {
    Int64RoundTrip(v + 1);
  }

  lemma BumpAndStamp(s: State, i: nat, k: string, v: Int64)
    requires i < |s.handlers| && s.handlers[i] == PostBump(k) && CountIs(s.db, k, v) && v + 1 < TWO_63
    ensures Play(s, [i, i]) == State(Stamp(Bump(s.db, k, v + 1), k), s.handlers[i := Done(Created(v + 1))])
  {
    BumpGives(s.db, k, -1, v);
    Two(s, i, Bump(s.db, k, v + 1), PostMtime(k, v + 1), Stamp(Bump(s.db, k, v + 1), k), Done(Created(v + 1)));
  }

  lemma PutOnly(s: State, i: nat, k: string, value: Bytes)
    requires i < |s.handlers| && s.handlers[i] == PostPut(k, value)
    ensures Play(s, [i]) == State(Put(s.db, k, value), s.handlers[i := PostBump(k)])
  {
    One(s, i, Put(s.db, k, value), PostBump(k));
  }

  lemma WholePost(s: State, i: nat, k: string, value: Bytes, v: Int64)
    requires i < |s.handlers| && s.handlers[i] == PostPut(k, value) && CountIs(s.db, k, v) && v + 1 < TWO_63
    ensures Play(s, [i, i, i])
         == State(Stamp(Bump(Put(s.db, k, value), k, v + 1), k), s.handlers[i := Done(Created(v + 1))])
  {
    var d1 := Put(s.db, k, value);
    var d2 := Bump(d1, k, v + 1);
    BumpGives(d1, k, -1, v);
    Three(s, i, d1, PostBump(k), d2, PostMtime(k, v + 1), Stamp(d2, k), Done(Created(v + 1)));
  }

  lemma CheckAndCas(s: State, i: nat, k: string, update: Bytes, v: Int64)
    requires i < |s.handlers| && s.handlers[i] == PatchCheck(k, update, v)
    requires k in s.db.secrets && CountIs(s.db, k, v) && v + 1 < TWO_63
    ensures Play(s, [i, i]) == State(Bump(s.db, k, v + 1), s.handlers[i := PatchPut(k, update, v, v + 1)])
  {
    BumpGives(s.db, k, v, v);
    Two(s, i, s.db, PatchCas(k, update, v), Bump(s.db, k, v + 1), PatchPut(k, update, v, v + 1));
  }

  lemma PutAndStamp(s: State, i: nat, k: string, update: Bytes, e: Int64, v: Int64)
    requires i < |s.handlers| && s.handlers[i] == PatchPut(k, update, e, v)
    ensures Play(s, [i, i]) == State(Stamp(Put(s.db, k, update), k), s.handlers[i := Done(Updated(v))])
  {
    Two(s, i, Put(s.db, k, update), PatchMtime(k, e, v), Stamp(Put(s.db, k, update), k), Done(Updated(v)));
  }

  lemma WholeDelete(s: State, i: nat, k: string)
    requires i < |s.handlers| && s.handlers[i] == DelSecret(k) && k in s.db.secrets
    ensures Play(s, [i, i, i]) == State(Gone(s.db, k), s.handlers[i := Done(Deleted)])
  {
    var d1 := s.db.(secrets := s.db.secrets - {k});
    var d2 := d1.(versions := d1.versions - {k});
    Three(s, i, d1, DelVersion(k), d2, DelMtime(k), Gone(s.db, k), Done(Deleted));
  }

  // ----- the runs -----

  /** Requests arrive and take turns, from an empty store. */
  function RunOf(rs: seq<Request>, order: seq<nat>): State {
    Exec(EMPTY, Arrivals(rs) + Turns(order))
  }

  lemma RunIsPlay(rs: seq<Request>, order: seq<nat>)
    ensures RunOf(rs, order) == Play(State(EMPTY.db, Starts(rs)), order)
  {
    AfterArrivals(EMPTY, rs);
    ExecConcat(EMPTY, Arrivals(rs), Turns(order));
    assert EMPTY.handlers + Starts(rs) == Starts(rs);
  }

  lemma StartsOfTwo(a: Request, b: Request)
    ensures Starts([a, b]) == [Start(a), Start(b)]
  {
    assert [a, b][1..] == [b] && [b][1..] == [];
    assert Starts([b]) == [Start(b)];
  }

  lemma StartsOfThree(a: Request, b: Request, c: Request)
    ensures Starts([a, b, c]) == [Start(a), Start(b), Start(c)]
  {
    assert [a, b, c][1..] == [b, c];
    StartsOfTwo(b, c);
  }

  lemma StartsOfFour(a: Request, b: Request, c: Request, d: Request)
    ensures Starts([a, b, c, d]) == [Start(a), Start(b), Start(c), Start(d)]
  {
    assert [a, b, c, d][1..] == [b, c, d];
    StartsOfThree(b, c, d);
  }

  /** Who calls, and for which secret. */
  datatype Caller = Caller(auth: Claims, org: string, path: string, env: string, name: string)

  /** The caller may act on the organisation, and the secret can be written and addressed. */
  predicate Fit(c: Caller) {
    CanActOnOrg(c.auth, c.org) && Addressable(c.path, c.env, c.name)
  }

  function KeyOf(c: Caller): string {
    Rel(Triple(c.path, c.env, c.name))
  }

  function PostBy(c: Caller, value: Bytes): Request {
    PostRequest(Some(c.auth), c.org, Some(PostBody(c.path, c.name, c.env, value)))
  }

  function GetBy(c: Caller): Request {
    GetRequest(Some(c.auth), c.org, c.path + ['/'] + c.name, c.env)
  }

  function PatchBy(c: Caller, update: Bytes, e: Int64): Request {
    PatchRequest(Some(c.auth), c.org, c.path + ['/'] + c.name, Some(PatchBody(update, Some(e), c.env)), "", Absent)
  }

  function DeleteBy(c: Caller): Request {
    DeleteRequest(Some(c.auth), c.org, c.path + ['/'] + c.name, c.env)
  }

  /** These requests begin the handlers of the caller's secret. */
  lemma RequestsBegin(c: Caller, value: Bytes, update: Bytes, e: Int64)
    requires Fit(c) && e >= 0
    ensures Start(PostBy(c, value)) == PostPut(KeyOf(c), value) && Start(GetBy(c)) == GetRead(KeyOf(c))
    ensures Start(PatchBy(c, update, e)) == PatchCheck(KeyOf(c), update, e) && Start(DeleteBy(c)) == DelSecret(KeyOf(c))
  {
    RequestsAdmitted(c, value, update, e);
  }

  lemma RequestsAdmitted(c: Caller, value: Bytes, update: Bytes, e: Int64)
    requires Fit(c) && e >= 0
    ensures Admit(PostBy(c, value)) == Accept(Post(KeyOf(c), value)) && Admit(GetBy(c)) == Accept(Get(KeyOf(c)))
    ensures Admit(PatchBy(c, update, e)) == Accept(Patch(KeyOf(c), update, e))
    ensures Admit(DeleteBy(c)) == Accept(Delete(KeyOf(c)))
  {
    SameKeyAcrossVerbs(c.auth, c.org, c.path, c.env, c.name, value, update, e);
  }

  /** A DELETE between the compare-and-set and the put of a PATCH: all three requests succeed,
      and the key holds a secret again, with no version record. */
  lemma PatchMayCreate(c: Caller, value: Bytes, update: Bytes)
    requires Fit(c)
    ensures var rs := [PostBy(c, value), PatchBy(c, update, 1), DeleteBy(c)];
      var t := RunOf(rs, ([0, 0, 0] + [1, 1]) + ([2, 2, 2] + [1, 1]));
      && t.handlers == [Done(Created(1)), Done(Updated(2)), Done(Deleted)]
      && Stored(t.db, KeyOf(c)) == Some(update) && KeyOf(c) !in t.db.versions
  {
    var k := KeyOf(c);
    RequestsBegin(c, value, update, 1);
    RunIsPlay([PostBy(c, value), PatchBy(c, update, 1), DeleteBy(c)], ([0, 0, 0] + [1, 1]) + ([2, 2, 2] + [1, 1]));
    StartsOfThree(PostBy(c, value), PatchBy(c, update, 1), DeleteBy(c));
    CreatingPatch(k, value, update);
  }

  lemma CreatingPatch(k: string, value: Bytes, update: Bytes)
    ensures var s := State(EMPTY.db, [PostPut(k, value), PatchCheck(k, update, 1), DelSecret(k)]);
      var t := Play(s, ([0, 0, 0] + [1, 1]) + ([2, 2, 2] + [1, 1]));
      && t.handlers == [Done(Created(1)), Done(Updated(2)), Done(Deleted)]
      && Stored(t.db, k) == Some(update) && k !in t.db.versions
  {
    PostThenCas(k, value, update, DelSecret(k));
    DeleteThenPut(Bump(FirstWrite(k, value), k, 2), k, update, Done(Created(1)));
    TwoLegs(State(EMPTY.db, [PostPut(k, value), PatchCheck(k, update, 1), DelSecret(k)]), [0, 0, 0] + [1, 1],
      State(Bump(FirstWrite(k, value), k, 2), [Done(Created(1)), PatchPut(k, update, 1, 2), DelSecret(k)]),
      [2, 2, 2] + [1, 1],
      State(Stamp(Put(Gone(Bump(FirstWrite(k, value), k, 2), k), k, update), k),
        [Done(Created(1)), Done(Updated(2)), Done(Deleted)]));
  }

  /** The store after a first POST. */
  function FirstWrite(k: string, value: Bytes): Db {
    Stamp(Bump(Put(EMPTY.db, k, value), k, 1), k)
  }

  lemma FirstPost(s: State, k: string, value: Bytes)
    requires s.handlers != [] && s.handlers[0] == PostPut(k, value) && s.db == EMPTY.db
    ensures Play(s, [0, 0, 0]) == State(FirstWrite(k, value), s.handlers[0 := Done(Created(1))])
    ensures CountIs(FirstWrite(k, value), k, 1)
  {
    BumpGives(Put(EMPTY.db, k, value), k, -1, 0);
    WholePost(s, 0, k, value, 0);
  }

  lemma TwoLegs(s: State, a: seq<nat>, t: State, b: seq<nat>, u: State)
    requires Play(s, a) == t && Play(t, b) == u
    ensures Play(s, a + b) == u
  {
    Then(s, a, t, b);
  }

  lemma PostThenCas(k: string, value: Bytes, update: Bytes, other: Handler)
    ensures Play(State(EMPTY.db, [PostPut(k, value), PatchCheck(k, update, 1), other]), [0, 0, 0] + [1, 1])
         == State(Bump(FirstWrite(k, value), k, 2), [Done(Created(1)), PatchPut(k, update, 1, 2), other])
  {
    var s := State(EMPTY.db, [PostPut(k, value), PatchCheck(k, update, 1), other]);
    var t := State(FirstWrite(k, value), [Done(Created(1)), PatchCheck(k, update, 1), other]);
    FirstPost(s, k, value);
    FirstCas(k, value, update, other);
    TwoLegs(s, [0, 0, 0], t, [1, 1],
      State(Bump(FirstWrite(k, value), k, 2), [Done(Created(1)), PatchPut(k, update, 1, 2), other]));
  }

  lemma FirstCas(k: string, value: Bytes, update: Bytes, other: Handler)
    ensures Play(State(FirstWrite(k, value), [Done(Created(1)), PatchCheck(k, update, 1), other]), [1, 1])
         == State(Bump(FirstWrite(k, value), k, 2), [Done(Created(1)), PatchPut(k, update, 1, 2), other])
  {
    BumpGives(Put(EMPTY.db, k, value), k, -1, 0);
    CheckAndCas(State(FirstWrite(k, value), [Done(Created(1)), PatchCheck(k, update, 1), other]), 1, k, update, 1);
  }

  lemma DeleteThenPut(db: Db, k: string, update: Bytes, other: Handler)
    requires k in db.secrets
    ensures Play(State(db, [other, PatchPut(k, update, 1, 2), DelSecret(k)]), [2, 2, 2] + [1, 1])
         == State(Stamp(Put(Gone(db, k), k, update), k), [other, Done(Updated(2)), Done(Deleted)])
  {
    var s := State(db, [other, PatchPut(k, update, 1, 2), DelSecret(k)]);
    var t := State(Gone(db, k), [other, PatchPut(k, update, 1, 2), Done(Deleted)]);
    WholeDelete(s, 2, k);
    PutAndStamp(t, 1, k, update, 1, 2);
    Then(s, [2, 2, 2], t, [1, 1]);
  }

  /** Two POSTs whose puts and bumps cross: the value that stays belongs to the POST that
      was told the earlier version. */
  lemma ValueMayLagVersion(c: Caller, value: Bytes, other: Bytes)
    requires Fit(c)
    ensures var t := RunOf([PostBy(c, value), PostBy(c, other)], ([0] + [1]) + ([1, 1] + [0, 0]));
      && t.handlers == [Done(Created(2)), Done(Created(1))]
      && Stored(t.db, KeyOf(c)) == Some(other) && Counter(t.db, KeyOf(c)) == 2
  {
    RequestsBegin(c, value, [], 0);
    RequestsBegin(c, other, [], 0);
    RunIsPlay([PostBy(c, value), PostBy(c, other)], ([0] + [1]) + ([1, 1] + [0, 0]));
    StartsOfTwo(PostBy(c, value), PostBy(c, other));
    CrossingPosts(KeyOf(c), value, other);
  }

  lemma CrossingPosts(k: string, value: Bytes, other: Bytes)
    ensures var s := State(EMPTY.db, [PostPut(k, value), PostPut(k, other)]);
      var t := Play(s, ([0] + [1]) + ([1, 1] + [0, 0]));
      && t.handlers == [Done(Created(2)), Done(Created(1))]
      && Stored(t.db, k) == Some(other) && Counter(t.db, k) == 2
  {
    var db := Put(Put(EMPTY.db, k, value), k, other);
    PutsCross(k, value, other);
    BumpsCross(db, k);
    TwoLegs(State(EMPTY.db, [PostPut(k, value), PostPut(k, other)]), [0] + [1],
      State(db, [PostBump(k), PostBump(k)]), [1, 1] + [0, 0], BothBumped(db, k));
  }

  /** After both bumps, the second handler's first. */
  function BothBumped(db: Db, k: string): State {
    State(Stamp(Bump(Stamp(Bump(db, k, 1), k), k, 2), k), [Done(Created(2)), Done(Created(1))])
  }

  lemma PutsCross(k: string, value: Bytes, other: Bytes)
    ensures Play(State(EMPTY.db, [PostPut(k, value), PostPut(k, other)]), [0] + [1])
         == State(Put(Put(EMPTY.db, k, value), k, other), [PostBump(k), PostBump(k)])
  {
    var s := State(EMPTY.db, [PostPut(k, value), PostPut(k, other)]);
    var t := State(Put(EMPTY.db, k, value), [PostBump(k), PostPut(k, other)]);
    PutOnly(s, 0, k, value);
    PutOnly(t, 1, k, other);
    Then(s, [0], t, [1]);
  }

  lemma BumpsCross(db: Db, k: string)
    requires k !in db.versions
    ensures Play(State(db, [PostBump(k), PostBump(k)]), [1, 1] + [0, 0]) == BothBumped(db, k)
    ensures Counter(BothBumped(db, k).db, k) == 2
  {
    var s := State(db, [PostBump(k), PostBump(k)]);
    var d1 := Stamp(Bump(db, k, 1), k);
    var t := State(d1, [PostBump(k), Done(Created(1))]);
    BumpGives(db, k, -1, 0);
    BumpGives(d1, k, -1, 1);
    BumpAndStamp(s, 1, k, 0);
    BumpAndStamp(t, 0, k, 1);
    Then(s, [1, 1], t, [0, 0]);
  }

  /** Two PATCHes that win one after the other and put in the reverse order: the value that
      stays is the first winner's, under the version of the second. */
  lemma PatchMayLagVersion(c: Caller, value: Bytes, update: Bytes, other: Bytes)
    requires Fit(c)
    ensures var rs := [PostBy(c, value), PatchBy(c, update, 1), PatchBy(c, other, 2)];
      var t := RunOf(rs, ([0, 0, 0] + [1, 1]) + ([2, 2] + [2, 2]) + [1, 1]);
      && t.handlers == [Done(Created(1)), Done(Updated(2)), Done(Updated(3))]
      && Stored(t.db, KeyOf(c)) == Some(update) && Counter(t.db, KeyOf(c)) == 3
  {
    var post, first, second := PostBy(c, value), PatchBy(c, update, 1), PatchBy(c, other, 2);
    RequestsBegin(c, value, update, 1);
    RequestsBegin(c, value, other, 2);
    RunIsPlay([post, first, second], ([0, 0, 0] + [1, 1]) + ([2, 2] + [2, 2]) + [1, 1]);
    StartsOfThree(post, first, second);
    PutsReversed(KeyOf(c), value, update, other);
  }

  /** The store after the first winner's bump and all of the second winner's transactions. */
  function SecondWon(k: string, value: Bytes, other: Bytes): Db {
    Stamp(Put(Bump(Bump(FirstWrite(k, value), k, 2), k, 3), k, other), k)
  }

  lemma BothWin(k: string, value: Bytes, update: Bytes, other: Bytes)
    ensures var s := State(EMPTY.db, [PostPut(k, value), PatchCheck(k, update, 1), PatchCheck(k, other, 2)]);
      Play(s, ([0, 0, 0] + [1, 1]) + ([2, 2] + [2, 2]))
        == State(SecondWon(k, value, other), [Done(Created(1)), PatchPut(k, update, 1, 2), Done(Updated(3))])
    ensures CountIs(SecondWon(k, value, other), k, 3)
  {
    var d1 := Bump(FirstWrite(k, value), k, 2);
    PostThenCas(k, value, update, PatchCheck(k, other, 2));
    Int64RoundTrip(2);
    ThirdPatches(d1, k, other, Done(Created(1)), PatchPut(k, update, 1, 2));
    TwoLegs(State(EMPTY.db, [PostPut(k, value), PatchCheck(k, update, 1), PatchCheck(k, other, 2)]), [0, 0, 0] + [1, 1],
      State(d1, [Done(Created(1)), PatchPut(k, update, 1, 2), PatchCheck(k, other, 2)]), [2, 2] + [2, 2],
      State(SecondWon(k, value, other), [Done(Created(1)), PatchPut(k, update, 1, 2), Done(Updated(3))]));
  }

  lemma PutsReversed(k: string, value: Bytes, update: Bytes, other: Bytes)
    ensures var s := State(EMPTY.db, [PostPut(k, value), PatchCheck(k, update, 1), PatchCheck(k, other, 2)]);
      var t := Play(s, ([0, 0, 0] + [1, 1]) + ([2, 2] + [2, 2]) + [1, 1]);
      && t.handlers == [Done(Created(1)), Done(Updated(2)), Done(Updated(3))]
      && Stored(t.db, k) == Some(update) && Counter(t.db, k) == 3
  {
    var s := State(EMPTY.db, [PostPut(k, value), PatchCheck(k, update, 1), PatchCheck(k, other, 2)]);
    var d := SecondWon(k, value, other);
    var t := State(d, [Done(Created(1)), PatchPut(k, update, 1, 2), Done(Updated(3))]);
    var u := State(Stamp(Put(d, k, update), k), [Done(Created(1)), Done(Updated(2)), Done(Updated(3))]);
    BothWin(k, value, update, other);
    PutAndStamp(t, 1, k, update, 1, 2);
    TwoLegs(s, ([0, 0, 0] + [1, 1]) + ([2, 2] + [2, 2]), t, [1, 1], u);
  }

  /** The third handler's PATCH from its check to its answer. */
  lemma ThirdPatches(db: Db, k: string, update: Bytes, x: Handler, y: Handler)
    requires k in db.secrets && CountIs(db, k, 2)
    ensures var after := Stamp(Put(Bump(db, k, 3), k, update), k);
      && Play(State(db, [x, y, PatchCheck(k, update, 2)]), [2, 2] + [2, 2]) == State(after, [x, y, Done(Updated(3))])
      && CountIs(after, k, 3)
  {
    var s := State(db, [x, y, PatchCheck(k, update, 2)]);
    var t := State(Bump(db, k, 3), [x, y, PatchPut(k, update, 2, 3)]);
    BumpGives(db, k, 2, 2);
    CheckAndCas(s, 2, k, update, 2);
    PutAndStamp(t, 2, k, update, 2, 3);
    Then(s, [2, 2], t, [2, 2]);
  }

  /** A GET crossed by a POST answers with the old value and the new version; with that
      version a PATCH is accepted, although its author never saw the value it replaces. */
  lemma ReadMayBeTorn(c: Caller, value: Bytes, other: Bytes, update: Bytes)
    requires Fit(c)
    ensures var rs := [PostBy(c, value), GetBy(c), PostBy(c, other), PatchBy(c, update, 2)];
      var t := RunOf(rs, ([0, 0, 0] + [1]) + ([2, 2, 2] + [1]) + ([3, 3] + [3, 3]));
      && t.handlers == [Done(Created(1)), Done(Found(value, 2)), Done(Created(2)), Done(Updated(3))]
      && Stored(t.db, KeyOf(c)) == Some(update)
  {
    var post, get, again, patch := PostBy(c, value), GetBy(c), PostBy(c, other), PatchBy(c, update, 2);
    RequestsBegin(c, value, update, 2);
    RequestsBegin(c, other, update, 2);
    RunIsPlay([post, get, again, patch], ([0, 0, 0] + [1]) + ([2, 2, 2] + [1]) + ([3, 3] + [3, 3]));
    StartsOfFour(post, get, again, patch);
    TornRead(KeyOf(c), value, other, update);
  }

  lemma TornRead(k: string, value: Bytes, other: Bytes, update: Bytes)
    ensures var s := State(EMPTY.db, [PostPut(k, value), GetRead(k), PostPut(k, other), PatchCheck(k, update, 2)]);
      var t := Play(s, ([0, 0, 0] + [1]) + ([2, 2, 2] + [1]) + ([3, 3] + [3, 3]));
      && t.handlers == [Done(Created(1)), Done(Found(value, 2)), Done(Created(2)), Done(Updated(3))]
      && Stored(t.db, k) == Some(update)
  {
    var p := PatchCheck(k, update, 2);
    var d1 := FirstWrite(k, value);
    var d2 := Stamp(Bump(Put(d1, k, other), k, 2), k);
    var a, b := [0, 0, 0] + [1], [2, 2, 2] + [1];
    var s := State(EMPTY.db, [PostPut(k, value), GetRead(k), PostPut(k, other), p]);
    var s1 := State(d1, [Done(Created(1)), GetVersion(k, value), PostPut(k, other), p]);
    var s2 := State(d2, [Done(Created(1)), Done(Found(value, 2)), Done(Created(2)), p]);
    PostThenRead(k, value, PostPut(k, other), p);
    PostThenVersion(d1, k, value, other, Done(Created(1)), p);
    CasThenPut(d2, k, update, Done(Created(1)), Done(Found(value, 2)), Done(Created(2)));
    TwoLegs(s, a, s1, b, s2);
    TwoLegs(s, a + b, s2, [3, 3] + [3, 3],
      State(Stamp(Put(Bump(d2, k, 3), k, update), k),
        [Done(Created(1)), Done(Found(value, 2)), Done(Created(2)), Done(Updated(3))]));
  }

  lemma PostThenRead(k: string, value: Bytes, x: Handler, y: Handler)
    ensures Play(State(EMPTY.db, [PostPut(k, value), GetRead(k), x, y]), [0, 0, 0] + [1])
         == State(FirstWrite(k, value), [Done(Created(1)), GetVersion(k, value), x, y])
    ensures CountIs(FirstWrite(k, value), k, 1)
  {
    var s := State(EMPTY.db, [PostPut(k, value), GetRead(k), x, y]);
    var t := State(FirstWrite(k, value), [Done(Created(1)), GetRead(k), x, y]);
    FirstPost(s, k, value);
    One(t, 1, FirstWrite(k, value), GetVersion(k, value));
    Then(s, [0, 0, 0], t, [1]);
  }

  lemma PostThenVersion(db: Db, k: string, value: Bytes, other: Bytes, x: Handler, y: Handler)
    requires CountIs(db, k, 1)
    ensures var after := Stamp(Bump(Put(db, k, other), k, 2), k);
      && Play(State(db, [x, GetVersion(k, value), PostPut(k, other), y]), [2, 2, 2] + [1])
         == State(after, [x, Done(Found(value, 2)), Done(Created(2)), y])
      && CountIs(after, k, 2) && k in after.secrets
  {
    var after := Stamp(Bump(Put(db, k, other), k, 2), k);
    var s := State(db, [x, GetVersion(k, value), PostPut(k, other), y]);
    var t := State(after, [x, GetVersion(k, value), Done(Created(2)), y]);
    BumpGives(Put(db, k, other), k, -1, 1);
    WholePost(s, 2, k, other, 1);
    One(t, 1, after, Done(Found(value, 2)));
    Then(s, [2, 2, 2], t, [1]);
  }

  lemma CasThenPut(db: Db, k: string, update: Bytes, x: Handler, y: Handler, z: Handler)
    requires k in db.secrets && CountIs(db, k, 2)
    ensures Play(State(db, [x, y, z, PatchCheck(k, update, 2)]), [3, 3] + [3, 3])
         == State(Stamp(Put(Bump(db, k, 3), k, update), k), [x, y, z, Done(Updated(3))])
  {
    var s := State(db, [x, y, z, PatchCheck(k, update, 2)]);
    var t := State(Bump(db, k, 3), [x, y, z, PatchPut(k, update, 2, 3)]);
    CheckAndCas(s, 3, k, update, 2);
    PutAndStamp(t, 3, k, update, 2, 3);
    Then(s, [3, 3], t, [3, 3]);
  }

  /** A PATCH captured before a DELETE is accepted once more after a POST has created the key
      again, and brings back the value it carried. */
  lemma ReplayAfterRecreate(c: Caller, value: Bytes, stale: Bytes, renewed: Bytes, now: Int64)
    requires Fit(c)
    ensures var post, patch := Timed(Admit(PostBy(c, value)), now), Timed(Admit(PatchBy(c, stale, 1)), now);
      var delete, again := Timed(Admit(DeleteBy(c)), now), Timed(Admit(PostBy(c, renewed)), now);
      var (db, answers) := Serve(EMPTY.db, [post, patch, delete, again, patch]);
      && answers == [Done(Created(1)), Done(Updated(2)), Done(Deleted), Done(Created(1)), Done(Updated(2))]
      && Stored(db, KeyOf(c)) == Some(stale)
  {
    var k := KeyOf(c);
    var post, patch := Timed(Accept(Post(k, value)), now), Timed(Accept(Patch(k, stale, 1)), now);
    RequestsAdmitted(c, value, stale, 1);
    RequestsAdmitted(c, renewed, stale, 1);
    var delete := Timed(Accept(Delete(k)), now);
    var again := Timed(Accept(Post(k, renewed)), now);
    var rs := [post, patch, delete, again, patch];
    assert Abs(EMPTY.db) == map[];
    ServeRefines(EMPTY.db, rs);
    ReplayOnTable(k, post, patch, delete, again, value, stale, renewed, now);
    ReadsTable(Serve(EMPTY.db, rs).0, k);
  }

  /** A POST that is served again after a PATCH reverts the secret to the value it carried. */
  lemma ReplayedPostReverts(c: Caller, value: Bytes, update: Bytes, now: Int64)
    requires Fit(c)
    ensures var post, patch := Timed(Admit(PostBy(c, value)), now), Timed(Admit(PatchBy(c, update, 1)), now);
      var (db, answers) := Serve(EMPTY.db, [post, patch, post]);
      && answers == [Done(Created(1)), Done(Updated(2)), Done(Created(3))]
      && Stored(db, KeyOf(c)) == Some(value) && Counter(db, KeyOf(c)) == 3
  {
    var k := KeyOf(c);
    var post, patch := Timed(Accept(Post(k, value)), now), Timed(Accept(Patch(k, update, 1)), now);
    RequestsAdmitted(c, value, update, 1);
    var rs := [post, patch, post];
    assert Abs(EMPTY.db) == map[];
    ServeRefines(EMPTY.db, rs);
    PostRevertsTable(k, post, patch, value, update, now);
    ReadsTable(Serve(EMPTY.db, rs).0, k);
  }

  lemma PostRevertsTable(k: string, post: Timed, patch: Timed, value: Bytes, update: Bytes, now: Int64)
    requires post == Timed(Accept(Post(k, value)), now) && patch == Timed(Accept(Patch(k, update, 1)), now)
    ensures var (m, answers) := ServeSpec(map[], [post, patch, post]);
      && answers == [Done(Created(1)), Done(Updated(2)), Done(Created(3))]
      && k in m && m[k] == Record(value, 3, now)
  {
    ServeSpecCons(map[], post, [patch, post]);
    ServeSpecCons(map[k := Record(value, 1, now)], patch, [post]);
    ServeSpecCons(map[k := Record(update, 2, now)], post, []);
    assert [post] + [] == [post] && [patch] + [post] == [patch, post];
    assert [post] + [patch, post] == [post, patch, post];
  }

  lemma ServeSpecCons(m: Table, t: Timed, rest: seq<Timed>)
    ensures var (m1, resp) := Spec(m, t.d, t.now);
      ServeSpec(m, [t] + rest) == (ServeSpec(m1, rest).0, [Done(resp)] + ServeSpec(m1, rest).1)
  {
    assert ([t] + rest)[1..] == rest;
  }

  lemma ReplayOnTable(k: string, post: Timed, patch: Timed, delete: Timed, again: Timed,
                      value: Bytes, stale: Bytes, renewed: Bytes, now: Int64)
    requires post == Timed(Accept(Post(k, value)), now) && patch == Timed(Accept(Patch(k, stale, 1)), now)
    requires delete == Timed(Accept(Delete(k)), now) && again == Timed(Accept(Post(k, renewed)), now)
    ensures var (m, answers) := ServeSpec(map[], [post, patch, delete, again, patch]);
      && answers == [Done(Created(1)), Done(Updated(2)), Done(Deleted), Done(Created(1)), Done(Updated(2))]
      && k in m && m[k].value == stale
  {
    var r1, r2, r3 := Record(value, 1, now), Record(stale, 2, now), Record(renewed, 1, now);
    assert map[k := r2] - {k} == map[];
    ServeSpecCons(map[], post, [patch, delete, again, patch]);
    ServeSpecCons(map[k := r1], patch, [delete, again, patch]);
    ServeSpecCons(map[k := r2], delete, [again, patch]);
    ServeSpecCons(map[], again, [patch]);
    ServeSpecCons(map[k := r3], patch, []);
    assert [patch] + [] == [patch] && [again] + [patch] == [again, patch];
    assert [delete] + [again, patch] == [delete, again, patch];
    assert [patch] + [delete, again, patch] == [patch, delete, again, patch];
    assert [post] + [patch, delete, again, patch] == [post, patch, delete, again, patch];
  }
}
