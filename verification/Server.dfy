/** The store and the handlers in the form the server has them: one key-value database
    keyed by full strings, transactions that read and set records in place, and handlers
    that call them step by step. Every method is tied to the transition system. */
module Server {
  import opened Text
  import opened BigEndian
  import opened KeyLayout
  import opened Requests
  import opened Transactions
  import opened Protocol
  import opened Refinement

  datatype BumpError = NoError | VersionMismatch | OtherError

  class Database {
    var data: Data

    constructor ()
      ensures data == map[] && Families(data) == Db(map[], map[], map[])
    {
      data := map[];
    }

    /** `secStore.Get`. */
    method GetSecret(k: string, fault: Fault) returns (r: Option<Bytes>)
      ensures r == if fault == Fine && k in Families(data).secrets then Some(Families(data).secrets[k]) else None
    {
      FamilyLookup(data, Secrets, k);
      var key := DbKey(Secrets, k);
      if fault != Fine || key !in data {
        return None;
      }
      return Some(data[key]);
    }

    method PutSecret(k: string, value: Bytes, fault: Fault) returns (ok: bool)
      modifies this
      ensures ok == (fault == Fine)
      ensures Families(data) == Transactions.PutSecret(old(Families(data)), k, value, fault)
    {
      if fault != Fine {
        return false;
      }
      FamilyPutAll(data, Secrets, k, value);
      data := data[DbKey(Secrets, k) := value];
      return true;
    }

    /** `secStore.Delete`: fails when the secret is not there. */
    method DeleteSecret(k: string, fault: Fault) returns (ok: bool)
      modifies this
      ensures ok == (fault == Fine && k in old(Families(data)).secrets)
      ensures Families(data) ==
        if ok then Transactions.DeleteSecret(old(Families(data)), k, fault) else old(Families(data))
    {
      FamilyLookup(data, Secrets, k);
      if fault != Fine || DbKey(Secrets, k) !in data {
        return false;
      }
      FamilyDeleteAll(data, Secrets, k);
      data := data - {DbKey(Secrets, k)};
      return true;
    }

    /** `readVersion` with its error dropped. */
    method ReadVersion(k: string, fault: Fault) returns (v: Int64)
      ensures v == if fault == Fine then Counter(Families(data), k) else 0
    {
      FamilyLookup(data, Versions, k);
      var key := DbKey(Versions, k);
      v := 0;
      if fault == Fine && key in data && |data[key]| == 8 {
        v := DecodeInt64(data[key]);
      }
    }

    /** `bumpVersion`. `newVer` is set before the commit, so a failed commit still
        hands it to the caller. */
    method BumpVersion(k: string, expected: Int64, fault: Fault) returns (newVer: Int64, err: BumpError)
      modifies this
      ensures var (after, r) := Transactions.BumpVersion(old(Families(data)), k, expected, fault);
        && Families(data) == after
        && r == (match err
                 case NoError => Bumped(newVer)
                 case VersionMismatch => Mismatch
                 case OtherError => Lost(newVer))
        && (err.VersionMismatch? ==> newVer == 0)
    {
      FamilyLookup(data, Versions, k);
      var key := DbKey(Versions, k);
      newVer := 0;
      if fault == ReadFails {
        return 0, OtherError;
      }
      var cur: Int64 := 0;
      if key in data {
        if |data[key]| != 8 {
          return 0, OtherError;
        }
        cur := DecodeInt64(data[key]);
      }
      if expected >= 0 && expected != cur {
        return 0, VersionMismatch;
      }
      newVer := Next64(cur);
      if fault == CommitFails {
        return newVer, OtherError;
      }
      FamilyPutAll(data, Versions, k, EncodeInt64(newVer));
      data := data[key := EncodeInt64(newVer)];
      return newVer, NoError;
    }

    method DeleteVersion(k: string, fault: Fault)
      modifies this
      ensures Families(data) == Transactions.DeleteVersion(old(Families(data)), k, fault)
    {
      if fault == Fine {
        FamilyDeleteAll(data, Versions, k);
        data := data - {DbKey(Versions, k)};
      }
    }

    method WriteMtime(k: string, now: Int64, fault: Fault)
      modifies this
      ensures Families(data) == Transactions.WriteMtime(old(Families(data)), k, now, fault)
    {
      if fault == Fine {
        FamilyPutAll(data, Mtimes, k, EncodeInt64(now));
        data := data[DbKey(Mtimes, k) := EncodeInt64(now)];
      }
    }

    method DeleteMtime(k: string, fault: Fault)
      modifies this
      ensures Families(data) == Transactions.DeleteMtime(old(Families(data)), k, fault)
    {
      if fault == Fine {
        FamilyDeleteAll(data, Mtimes, k);
        data := data - {DbKey(Mtimes, k)};
      }
    }

    /** The GET handler. */
    method HandleGet(k: string, f: Faults, ghost now: Int64) returns (resp: Response)
      ensures (Families(data), Done(resp)) == Finish(Families(data), GetRead(k), f, now)
    {
      var sec := GetSecret(k, f.a);
      if sec.None? {
        return NotFound;
      }
      var cur := ReadVersion(k, f.b);
      return Found(sec.value, cur);
    }

    /** The POST handler: put, unconditional bump, update time. */
    method HandlePost(k: string, value: Bytes, f: Faults, now: Int64) returns (resp: Response)
      modifies this
      ensures (Families(data), Done(resp)) == Finish(old(Families(data)), PostPut(k, value), f, now)
    {
      ghost var d0 := Families(data);
      PostSteps(d0, k, value, f, now);
      var ok := PutSecret(k, value, f.a);
      if !ok {
        return InternalError;
      }
      ghost var d1 := Families(data);
      var newVer, err := BumpVersion(k, -1, f.b);
      ghost var d2 := Families(data);
      assert newVer == Reported(Transactions.BumpVersion(d1, k, -1, f.b).1);
      WriteMtime(k, now, f.c);
      resp := Created(newVer);
      assert Families(data) == Transactions.WriteMtime(d2, k, now, f.c);
    }

    /** The PATCH handler: existence check, compare-and-set bump, put, update time. */
    method HandlePatch(k: string, value: Bytes, expected: Int64, f: Faults, now: Int64) returns (resp: Response)
      modifies this
      ensures (Families(data), Done(resp)) == Finish(old(Families(data)), PatchCheck(k, value, expected), f, now)
    {
      PatchSteps(Families(data), k, value, expected, f, now);
      var sec := GetSecret(k, f.a);
      if sec.None? {
        return NotFound;
      }
      var newVer, err := BumpVersion(k, expected, f.b);
      if err.VersionMismatch? {
        var cur := ReadVersion(k, f.c);
        return Conflict(cur, expected);
      }
      if err.OtherError? {
        return InternalError;
      }
      var ok := PutSecret(k, value, f.c);
      if !ok {
        return InternalError;
      }
      WriteMtime(k, now, f.d);
      return Updated(newVer);
    }

    /** The DELETE handler: the three records, one at a time. */
    method HandleDelete(k: string, f: Faults, ghost now: Int64) returns (resp: Response)
      modifies this
      ensures (Families(data), Done(resp)) == Finish(old(Families(data)), DelSecret(k), f, now)
    {
      DeleteSteps(Families(data), k, f, now);
      var ok := DeleteSecret(k, f.a);
      if !ok {
        return NotFound;
      }
      DeleteVersion(k, f.b);
      DeleteMtime(k, f.c);
      return Deleted;
    }

    /** One request from decoding to answer, for every request and every fault. When nothing
        fails, it is one step of the simple map. */
    method Handle(r: Request, f: Faults, now: Int64) returns (resp: Response)
      modifies this
      ensures (Families(data), Done(resp)) == Finish(old(Families(data)), Start(r), f, now)
      ensures f == ALL_FINE && Consistent(old(Families(data))) ==>
        && Consistent(Families(data))
        && (Abs(Families(data)), resp) == Spec(Abs(old(Families(data))), Admit(r), now)
    {
      ghost var before := Families(data);
      var d := Admit(r);
      match d {
        case Refuse(status) => resp := Refused(status);
        case Accept(Get(k)) => resp := HandleGet(k, f, now);
        case Accept(Post(k, value)) => resp := HandlePost(k, value, f, now);
        case Accept(Patch(k, value, e)) => resp := HandlePatch(k, value, e, f, now);
        case Accept(Delete(k)) => resp := HandleDelete(k, f, now);
      }
      assert (Families(data), Done(resp)) == Finish(before, Begin(d), f, now);
      if f == ALL_FINE && Consistent(before) {
        assert Admitted(d);
        RequestRefines(before, d, now);
      }
    }
  }

  function Reported(r: Bumped): Int64 {
    match r
    case Bumped(v) => v
    case Mismatch => 0
    case Lost(v) => v
  }

  lemma PostSteps(db: Db, k: string, value: Bytes, f: Faults, now: Int64)
    ensures Finish(db, PostPut(k, value), f, now) ==
      if f.a != Fine then (db, Done(InternalError))
      else
        var (d2, r) := Transactions.BumpVersion(Transactions.PutSecret(db, k, value, f.a), k, -1, f.b);
        (Transactions.WriteMtime(d2, k, now, f.c), Done(Created(Reported(r))))
  {
    if f.a == Fine {
      var d1 := Transactions.PutSecret(db, k, value, f.a);
      var (d2, r) := Transactions.BumpVersion(d1, k, -1, f.b);
      assert Advance(db, PostPut(k, value), f.a, now) == (d1, PostBump(k));
      assert Advance(d1, PostBump(k), f.b, now) == (d2, PostMtime(k, Reported(r)));
    }
  }

  lemma PatchSteps(db: Db, k: string, value: Bytes, e: Int64, f: Faults, now: Int64)
    ensures Finish(db, PatchCheck(k, value, e), f, now) ==
      if f.a != Fine || k !in db.secrets then (db, Done(NotFound))
      else
        var (d1, r) := Transactions.BumpVersion(db, k, e, f.b);
        match r
        case Mismatch => (db, Done(Conflict(if f.c == Fine then Counter(db, k) else 0, e)))
        case Lost(_) => (db, Done(InternalError))
        case Bumped(v) =>
          if f.c != Fine then (d1, Done(InternalError))
          else (Transactions.WriteMtime(Transactions.PutSecret(d1, k, value, f.c), k, now, f.d), Done(Updated(v)))
  {
    if f.a == Fine && k in db.secrets {
      assert Advance(db, PatchCheck(k, value, e), f.a, now) == (db, PatchCas(k, value, e));
      var (d1, r) := Transactions.BumpVersion(db, k, e, f.b);
      if r.Bumped? {
        assert Advance(db, PatchCas(k, value, e), f.b, now) == (d1, PatchPut(k, value, e, r.version));
      }
    }
  }

  lemma DeleteSteps(db: Db, k: string, f: Faults, now: Int64)
    ensures Finish(db, DelSecret(k), f, now) ==
      if f.a != Fine || k !in db.secrets then (db, Done(NotFound))
      else
        var gone := Transactions.DeleteVersion(Transactions.DeleteSecret(db, k, f.a), k, f.b);
        (Transactions.DeleteMtime(gone, k, f.c), Done(Deleted))
  {
    if f.a == Fine && k in db.secrets {
      var d1 := Transactions.DeleteSecret(db, k, f.a);
      assert Advance(db, DelSecret(k), f.a, now) == (d1, DelVersion(k));
      assert Advance(d1, DelVersion(k), f.b, now) == (Transactions.DeleteVersion(d1, k, f.b), DelMtime(k));
    }
  }

  lemma FamilyPutAll(data: Data, f: Family, k: string, b: Bytes)
    ensures Families(data[DbKey(f, k) := b]) == match f
      case Secrets => Families(data).(secrets := Families(data).secrets[k := b])
      case Versions => Families(data).(versions := Families(data).versions[k := b])
      case Mtimes => Families(data).(mtimes := Families(data).mtimes[k := b])
  {
    FamilyPut(data, f, k, b, Secrets);
    FamilyPut(data, f, k, b, Versions);
    FamilyPut(data, f, k, b, Mtimes);
  }

  lemma FamilyDeleteAll(data: Data, f: Family, k: string)
    ensures Families(data - {DbKey(f, k)}) == match f
      case Secrets => Families(data).(secrets := Families(data).secrets - {k})
      case Versions => Families(data).(versions := Families(data).versions - {k})
      case Mtimes => Families(data).(mtimes := Families(data).mtimes - {k})
  {
    FamilyDelete(data, f, k, Secrets);
    FamilyDelete(data, f, k, Versions);
    FamilyDelete(data, f, k, Mtimes);
  }
}
