/** Handlers that run one at a time refine a simple map from key to record. */
module Refinement {
  import opened Text
  import opened BigEndian
  import opened KeyLayout
  import opened Requests
  import opened Transactions
  import opened Protocol

  /** The database's answers to the transactions of one handler; none has more than four. */
  datatype Faults = Faults(a: Fault, b: Fault, c: Fault, d: Fault)

  const ALL_FINE := Faults(Fine, Fine, Fine, Fine)

  /** A handler run to its end with nothing in between. */
  function Finish(db: Db, h: Handler, f: Faults, now: Int64): (Db, Handler) {
    var (d1, h1) := Advance(db, h, f.a, now);
    var (d2, h2) := Advance(d1, h1, f.b, now);
    var (d3, h3) := Advance(d2, h2, f.c, now);
    Advance(d3, h3, f.d, now)
  }

  /** A request always gets its answer within four transactions, whatever fails. */
  lemma FinishAnswers(db: Db, d: Decision, f: Faults, now: Int64)
    ensures Finish(db, Begin(d), f, now).1.Done?
  {
    var h := Begin(d);
    var (d1, h1) := Advance(db, h, f.a, now);
    var (d2, h2) := Advance(d1, h1, f.b, now);
    var (d3, h3) := Advance(d2, h2, f.c, now);
  }

  /** `Finish` is the run of the transition system in which one handler takes all its steps
      without interruption. */
  lemma FinishIsUninterrupted(s: State, i: nat, f: Faults, now: Int64)
    requires i < |s.handlers|
    ensures var (db, h) := Finish(s.db, s.handlers[i], f, now);
      Exec(s, [Step(i, f.a, now), Step(i, f.b, now), Step(i, f.c, now), Step(i, f.d, now)])
      == State(db, s.handlers[i := h])
  {
    var a, b, c, d := Step(i, f.a, now), Step(i, f.b, now), Step(i, f.c, now), Step(i, f.d, now);
    assert [a, b, c, d][1..] == [b, c, d] && [b, c, d][1..] == [c, d] && [c, d][1..] == [d] && [d][1..] == [];
    var s1 := Apply(s, a);
    var s2 := Apply(s1, b);
    var s3 := Apply(s2, c);
    assert Exec(s3, [d]) == Apply(s3, d);
    assert Exec(s2, [c, d]) == Exec(s3, [d]);
    assert Exec(s1, [b, c, d]) == Exec(s2, [c, d]);
  }

  /** GET in every store, also one in which the three families disagree: without the secret
      there is nothing to find, with it the answer is its value and the counter, and a read
      of the counter that fails counts as zero. */
  lemma GetSteps(db: Db, k: string, f: Faults, now: Int64)
    ensures Finish(db, GetRead(k), f, now) ==
      if f.a == Fine && k in db.secrets then (db, Done(Found(db.secrets[k], if f.b == Fine then Counter(db, k) else 0)))
      else (db, Done(NotFound))
  {
    if f.a == Fine && k in db.secrets {
      assert Advance(db, GetRead(k), f.a, now) == (db, GetVersion(k, db.secrets[k]));
    }
  }

  datatype Record = Record(value: Bytes, version: Int64, mtime: Int64)
  type Table = map<string, Record>

  /** The three families describe the same keys, with readable records. */
  predicate Consistent(db: Db) {
    && db.secrets.Keys == db.versions.Keys == db.mtimes.Keys
    && forall k :: k in db.secrets ==> |db.versions[k]| == 8 && |db.mtimes[k]| == 8
  }

  function Abs(db: Db): Table
    requires Consistent(db)
  {
    map k | k in db.secrets :: Record(db.secrets[k], DecodeInt64(db.versions[k]), DecodeInt64(db.mtimes[k]))
  }

  /** What each request does to the simple map, and what it answers. */
  function Spec(m: Table, d: Decision, now: Int64): (Table, Response) {
    match d
    case Refuse(status) => (m, Refused(status))
    case Accept(Get(k)) =>
      if k in m then (m, Found(m[k].value, m[k].version)) else (m, NotFound)
    case Accept(Post(k, value)) =>
      var v := if k in m then Next64(m[k].version) else 1;
      (m[k := Record(value, v, now)], Created(v))
    case Accept(Patch(k, value, e)) =>
      if k !in m then (m, NotFound)
      else if m[k].version != e then (m, Conflict(m[k].version, e))
      else (m[k := Record(value, Next64(e), now)], Updated(Next64(e)))
    case Accept(Delete(k)) =>
      if k in m then (m - {k}, Deleted) else (m, NotFound)
  }

  /** The decisions that requests lead to. */
  ghost predicate Admitted(d: Decision) {
    exists r :: d == Admit(r)
  }

  /** What one uninterrupted, fault-free request must do. */
  predicate Refines(db: Db, d: Decision, now: Int64)
    requires Consistent(db)
  {
    var (after, h) := Finish(db, Begin(d), ALL_FINE, now);
    && Consistent(after)
    && Abs(after) == Spec(Abs(db), d, now).0
    && h == Done(Spec(Abs(db), d, now).1)
  }

  /** One uninterrupted, fault-free request refines one step of the simple map: the families
      keep equal domains, and the answer and the new contents are the specified ones. */
  lemma RequestRefines(db: Db, d: Decision, now: Int64)
    requires Consistent(db) && Admitted(d)
    ensures Refines(db, d, now)
  {
    match d
    case Refuse(_) =>
    case Accept(Get(k)) => GetRefines(db, k, now);
    case Accept(Post(k, value)) => PostRefines(db, k, value, now);
    case Accept(Patch(k, value, e)) =>
      var r :| d == Admit(r);
      AdmitSound(r);
      PatchRefines(db, k, value, e, now);
    case Accept(Delete(k)) => DeleteRefines(db, k, now);
  }

  lemma GetRefines(db: Db, k: string, now: Int64)
    requires Consistent(db)
    ensures Refines(db, Accept(Get(k)), now)
  {
    if k in db.secrets {
      assert Finish(db, GetRead(k), ALL_FINE, now) == (db, Done(Found(db.secrets[k], Counter(db, k))));
    }
  }

  lemma PostRefines(db: Db, k: string, value: Bytes, now: Int64)
    requires Consistent(db)
    ensures Refines(db, Accept(Post(k, value)), now)
  {
    var v := Next64(Counter(db, k));
    var d1 := PutSecret(db, k, value, Fine);
    var d2 := d1.(versions := d1.versions[k := EncodeInt64(v)]);
    var d3 := WriteMtime(d2, k, now, Fine);
    assert BumpVersion(d1, k, -1, Fine) == (d2, Bumped(v));
    assert Advance(db, PostPut(k, value), Fine, now) == (d1, PostBump(k));
    assert Advance(d1, PostBump(k), Fine, now) == (d2, PostMtime(k, v));
    assert Advance(d2, PostMtime(k, v), Fine, now) == (d3, Done(Created(v)));
    assert Finish(db, PostPut(k, value), ALL_FINE, now) == (d3, Done(Created(v)));
    WrittenRecord(db, d3, k, value, v, now);
  }

  lemma PatchRefines(db: Db, k: string, value: Bytes, e: Int64, now: Int64)
    requires Consistent(db) && e >= 0
    ensures Refines(db, Accept(Patch(k, value, e)), now)
  {
    if k in db.secrets && Counter(db, k) == e {
      var v := Next64(e);
      var d1 := db.(versions := db.versions[k := EncodeInt64(v)]);
      var d2 := PutSecret(d1, k, value, Fine);
      var d3 := WriteMtime(d2, k, now, Fine);
      assert Advance(db, PatchCheck(k, value, e), Fine, now) == (db, PatchCas(k, value, e));
      assert Advance(db, PatchCas(k, value, e), Fine, now) == (d1, PatchPut(k, value, e, v));
      assert Advance(d1, PatchPut(k, value, e, v), Fine, now) == (d2, PatchMtime(k, e, v));
      assert Finish(db, PatchCheck(k, value, e), ALL_FINE, now) == (d3, Done(Updated(v)));
      WrittenRecord(db, d3, k, value, v, now);
    } else if k in db.secrets {
      var c := Counter(db, k);
      assert Advance(db, PatchCheck(k, value, e), Fine, now) == (db, PatchCas(k, value, e));
      assert Advance(db, PatchCas(k, value, e), Fine, now) == (db, PatchConflict(k, e));
      assert Finish(db, PatchCheck(k, value, e), ALL_FINE, now) == (db, Done(Conflict(c, e)));
    } else {
      assert Finish(db, PatchCheck(k, value, e), ALL_FINE, now) == (db, Done(NotFound));
    }
  }

  lemma DeleteRefines(db: Db, k: string, now: Int64)
    requires Consistent(db)
    ensures Refines(db, Accept(Delete(k)), now)
  {
    if k in db.secrets {
      var d1 := DeleteSecret(db, k, Fine);
      var d2 := DeleteVersion(d1, k, Fine);
      var d3 := DeleteMtime(d2, k, Fine);
      assert Advance(db, DelSecret(k), Fine, now) == (d1, DelVersion(k));
      assert Advance(d1, DelVersion(k), Fine, now) == (d2, DelMtime(k));
      assert Finish(db, DelSecret(k), ALL_FINE, now) == (d3, Done(Deleted));
      assert Abs(d3) == Abs(db) - {k};
    } else {
      assert Finish(db, DelSecret(k), ALL_FINE, now) == (db, Done(NotFound));
    }
  }

  /** Writing all three records of a key writes one record of the simple map. */
  lemma WrittenRecord(db: Db, after: Db, k: string, value: Bytes, v: Int64, now: Int64)
    requires Consistent(db)
    requires after == Db(db.secrets[k := value], db.versions[k := EncodeInt64(v)], db.mtimes[k := EncodeInt64(now)])
    ensures Consistent(after) && Abs(after) == Abs(db)[k := Record(value, v, now)]
  {
    Int64RoundTrip(v);
    Int64RoundTrip(now);
  }

  // ----- whole sequences of requests -----

  datatype Timed = Timed(d: Decision, now: Int64)

  function Serve(db: Db, rs: seq<Timed>): (Db, seq<Handler>)
    decreases rs
  {
    if rs == [] then (db, [])
    else
      var (d1, h) := Finish(db, Begin(rs[0].d), ALL_FINE, rs[0].now);
      var (d2, hs) := Serve(d1, rs[1..]);
      (d2, [h] + hs)
  }

  function ServeSpec(m: Table, rs: seq<Timed>): (Table, seq<Handler>)
    decreases rs
  {
    if rs == [] then (m, [])
    else
      var (m1, resp) := Spec(m, rs[0].d, rs[0].now);
      var (m2, hs) := ServeSpec(m1, rs[1..]);
      (m2, [Done(resp)] + hs)
  }

  /** Every sequence of requests, served one after the other, gives the answers and the
      contents of the simple map. */
  lemma {:induction false} ServeRefines(db: Db, rs: seq<Timed>)
    requires Consistent(db) && forall t :: t in rs ==> Admitted(t.d)
    ensures Consistent(Serve(db, rs).0)
    ensures (Abs(Serve(db, rs).0), Serve(db, rs).1) == ServeSpec(Abs(db), rs)
    decreases rs
  {
    if rs != [] {
      assert rs[0] in rs;
      RequestRefines(db, rs[0].d, rs[0].now);
      ServeRefines(Finish(db, Begin(rs[0].d), ALL_FINE, rs[0].now).0, rs[1..]);
    }
  }

  /** The value a decision successfully writes to `k`, if it does. */
  function WriteOf(m: Table, d: Decision, k: string): Option<Bytes> {
    match d
    case Accept(Post(l, value)) => if l == k then Some(value) else None
    case Accept(Patch(l, value, e)) => if l == k && k in m && m[k].version == e then Some(value) else None
    case _ => None
  }

  predicate DeletesLater(rs: seq<Timed>, k: string) {
    exists i :: 0 <= i < |rs| && rs[i].d == Accept(Delete(k))
  }

  /** The values written to `k` since it was last deleted. */
  function WritesSinceDelete(m: Table, rs: seq<Timed>, k: string): seq<Bytes>
    decreases rs
  {
    if rs == [] then []
    else
      var m1 := Spec(m, rs[0].d, rs[0].now).0;
      var rest := WritesSinceDelete(m1, rs[1..], k);
      if DeletesLater(rs[1..], k) || WriteOf(m, rs[0].d, k).None? then rest
      else [WriteOf(m, rs[0].d, k).value] + rest
  }

  lemma SpecAtKey(m: Table, d: Decision, now: Int64, k: string)
    ensures var m1, w := Spec(m, d, now).0, WriteOf(m, d, k);
      var v: Int64 := if k in m then m[k].version else 0;
      && (w.Some? ==> k in m1 && m1[k] == Record(w.value, Next64(v), now))
      && (d == Accept(Delete(k)) ==> k !in m1)
      && (w.None? && d != Accept(Delete(k)) ==> (k in m1 <==> k in m) && (k in m ==> m1[k] == m[k]))
  {
  }

  /** What the record of `k` must be after `rs`. */
  predicate CountsWrites(m: Table, rs: seq<Timed>, k: string, final: Table) {
    var kept := k in m && !DeletesLater(rs, k);
    var base: Int64 := if kept then m[k].version else 0;
    var ws := WritesSinceDelete(m, rs, k);
    && (k in final <==> ws != [] || kept)
    && (k in final ==>
          && final[k].version == Plus64(base, |ws|)
          && final[k].value == if ws != [] then ws[|ws| - 1] else m[k].value)
  }

  /** After any sequence of requests a key is present iff it has been written since its last
      delete (or was there and never deleted), its value is the last one written, and
      its version counts those writes. */
  lemma {:induction false} TableCountsWrites(m: Table, rs: seq<Timed>, k: string)
    ensures CountsWrites(m, rs, k, ServeSpec(m, rs).0)
    decreases rs
  {
    if rs != [] {
      var d := rs[0].d;
      var m1 := Spec(m, d, rs[0].now).0;
      var final := ServeSpec(m1, rs[1..]).0;
      TableCountsWrites(m1, rs[1..], k);
      SpecAtKey(m, d, rs[0].now, k);
      DeletesSplit(rs, k);
      if !DeletesLater(rs[1..], k) && WriteOf(m, d, k).Some? {
        Plus64OfNext(if k in m then m[k].version else 0, |WritesSinceDelete(m1, rs[1..], k)|);
      }
    }
  }

  lemma DeletesSplit(rs: seq<Timed>, k: string)
    requires rs != []
    ensures DeletesLater(rs, k) <==> rs[0].d == Accept(Delete(k)) || DeletesLater(rs[1..], k)
  {
    if DeletesLater(rs, k) && rs[0].d != Accept(Delete(k)) {
      var i :| 0 <= i < |rs| && rs[i].d == Accept(Delete(k));
      assert rs[1..][i - 1].d == Accept(Delete(k));
    }
  }

  /** What the server holds for `k` after the writes `ws`. */
  predicate Holds(db: Db, k: string, ws: seq<Bytes>) {
    && (k in db.secrets <==> ws != [])
    && (ws != [] ==> db.secrets[k] == ws[|ws| - 1] && Counter(db, k) == |ws|)
  }

  lemma TableHolds(db: Db, rs: seq<Timed>, k: string)
    requires Consistent(db) && CountsWrites(map[], rs, k, Abs(db)) && |WritesSinceDelete(map[], rs, k)| < TWO_63
    ensures Holds(db, k, WritesSinceDelete(map[], rs, k))
  {
    Plus64InRange(0, |WritesSinceDelete(map[], rs, k)|);
  }

  /** Started empty, and below 2^63 requests: the families have equal domains after every
      sequence of requests; a key is there iff it was written since its last delete, with
      the last value written and a version that is the number of those writes. A key that
      is created again after a delete therefore starts at 1. */
  lemma ServerCountsWrites(rs: seq<Timed>, k: string)
    requires |rs| < TWO_63 && forall t :: t in rs ==> Admitted(t.d)
    ensures var db := Serve(EMPTY.db, rs).0;
      Consistent(db) && Holds(db, k, WritesSinceDelete(map[], rs, k))
  {
    ServerTable(rs);
    TableCountsWrites(map[], rs, k);
    FewWrites(map[], rs, k);
    TableHolds(Serve(EMPTY.db, rs).0, rs, k);
  }

  lemma ServerTable(rs: seq<Timed>)
    requires forall t :: t in rs ==> Admitted(t.d)
    ensures var db := Serve(EMPTY.db, rs).0;
      Consistent(db) && Abs(db) == ServeSpec(map[], rs).0
  {
    assert Abs(EMPTY.db) == map[];
    ServeRefines(EMPTY.db, rs);
  }

  /** A GET answers with the record of the simple map. */
  lemma ReadsTable(db: Db, k: string)
    requires Consistent(db)
    ensures k in db.secrets <==> k in Abs(db)
    ensures k in Abs(db) ==> db.secrets[k] == Abs(db)[k].value && Counter(db, k) == Abs(db)[k].version
    ensures Finish(db, GetRead(k), ALL_FINE, 0) ==
      (db, Done(if k in Abs(db) then Found(Abs(db)[k].value, Abs(db)[k].version) else NotFound))
  {
    GetRefines(db, k, 0);
  }

  lemma {:induction false} FewWrites(m: Table, rs: seq<Timed>, k: string)
    ensures |WritesSinceDelete(m, rs, k)| <= |rs|
    decreases rs
  {
    if rs != [] {
      FewWrites(Spec(m, rs[0].d, rs[0].now).0, rs[1..], k);
    }
  }

  lemma {:induction false} TableOnlyPostCreates(m: Table, rs: seq<Timed>, k: string)
    requires k !in m && forall i, value :: 0 <= i < |rs| ==> rs[i].d != Accept(Post(k, value))
    ensures k !in ServeSpec(m, rs).0
    decreases rs
  {
    if rs != [] {
      SpecAtKey(m, rs[0].d, rs[0].now, k);
      TableOnlyPostCreates(Spec(m, rs[0].d, rs[0].now).0, rs[1..], k);
    }
  }

  /** Requests served one by one, without a POST of an absent key among them, leave no record
      of that key in any family. */
  lemma OnlyPostCreates(db: Db, rs: seq<Timed>, k: string)
    requires Consistent(db) && forall t :: t in rs ==> Admitted(t.d)
    requires k !in db.secrets && forall i, value :: 0 <= i < |rs| ==> rs[i].d != Accept(Post(k, value))
    ensures var after := Serve(db, rs).0; k !in after.secrets && k !in after.versions && k !in after.mtimes
  {
    ServeRefines(db, rs);
    TableOnlyPostCreates(Abs(db), rs, k);
  }
}
