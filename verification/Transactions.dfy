/** The atomic transactions on the store. Each either commits or, when the database
    reports a fault, leaves everything as it was. */
module Transactions {
  import opened BigEndian
  import opened KeyLayout

  /** How the database answers one transaction: it may fail to read, or fail to commit
      after the transaction body has run. */
  datatype Fault = Fine | ReadFails | CommitFails

  datatype Lookup = Number(v: Int64) | Corrupt

  /** The number in an eight-byte record; an absent record counts as zero. */
  function ReadRecord(records: map<string, Bytes>, k: string): Lookup {
    if k !in records then Number(0)
    else if |records[k]| != 8 then Corrupt
    else Number(DecodeInt64(records[k]))
  }

  /** `readVersion` and `readMtime`, whose callers drop the error and keep the zero. */
  function NumberOrZero(records: map<string, Bytes>, k: string): Int64 {
    var r := ReadRecord(records, k);
    if r.Number? then r.v else 0
  }

  /** The version counter of `k`. */
  function Counter(db: Db, k: string): Int64 {
    NumberOrZero(db.versions, k)
  }

  /** What a bump returns. `Lost` is every failure other than a mismatch; `reported` is the
      number the caller still receives next to the error. */
  datatype Bumped = Bumped(version: Int64) | Mismatch | Lost(reported: Int64)

  /** `bumpVersion`: compare (unless `expected` is negative) and increment. */
  function BumpVersion(db: Db, k: string, expected: Int64, fault: Fault): (r: (Db, Bumped))
    ensures !r.1.Bumped? ==> r.0 == db
    ensures r.1.Bumped? ==>
      && Counter(r.0, k) == r.1.version && (expected >= 0 ==> Counter(db, k) == expected)
      && r.0 == db.(versions := r.0.versions) && r.0.versions - {k} == db.versions - {k}
  {
    var cur := ReadRecord(db.versions, k);
    if fault == ReadFails || cur.Corrupt? then (db, Lost(0))
    else if expected >= 0 && expected != cur.v then (db, Mismatch)
    else
      var next := Next64(cur.v);
      Int64RoundTrip(next);
      if fault == CommitFails then (db, Lost(next))
      else (db.(versions := db.versions[k := EncodeInt64(next)]), Bumped(next))
  }

  function PutSecret(db: Db, k: string, value: Bytes, fault: Fault): Db {
    if fault == Fine then db.(secrets := db.secrets[k := value]) else db
  }

  function WriteMtime(db: Db, k: string, now: Int64, fault: Fault): Db {
    if fault == Fine then db.(mtimes := db.mtimes[k := EncodeInt64(now)]) else db
  }

  function DeleteSecret(db: Db, k: string, fault: Fault): Db {
    if fault == Fine then db.(secrets := db.secrets - {k}) else db
  }

  function DeleteVersion(db: Db, k: string, fault: Fault): Db {
    if fault == Fine then db.(versions := db.versions - {k}) else db
  }

  function DeleteMtime(db: Db, k: string, fault: Fault): Db {
    if fault == Fine then db.(mtimes := db.mtimes - {k}) else db
  }

  /** A successful bump moves the counter of its own key by exactly one, through the
      encoded record, moves no other counter and touches no other family. */
  lemma BumpMovesCounter(db: Db, k: string, expected: Int64, fault: Fault, l: string)
    ensures var (after, r) := BumpVersion(db, k, expected, fault);
      && (r.Bumped? ==> r.version == Counter(after, k) == Next64(Counter(db, k)))
      && (r.Bumped? && expected >= 0 ==> Counter(db, k) == expected)
      && (l != k || !r.Bumped? ==> Counter(after, l) == Counter(db, l))
      && after.secrets == db.secrets && after.mtimes == db.mtimes
  {
    Int64RoundTrip(Next64(Counter(db, k)));
  }

  /** The counter, byte by byte: eight bytes that spell `v` below 2^63 are version `v`, and no
      record, or one of another length, is version 0. */
  lemma CounterOfRecord(db: Db, k: string)
    ensures k in db.versions && |db.versions[k]| == 8 && db.versions[k][0] < 128 ==>
      Counter(db, k) == Spelled(db.versions[k])
    ensures k !in db.versions || |db.versions[k]| != 8 ==> Counter(db, k) == 0
  {
    if k in db.versions && |db.versions[k]| == 8 {
      RecordIsTwosComplement(db.versions[k]);
    }
  }

  /** A successful bump below 2^63 - 1 writes the eight bytes that spell the number after the
      one it found. */
  lemma BumpWritesNext(db: Db, k: string, expected: Int64, fault: Fault)
    requires var r := BumpVersion(db, k, expected, fault).1; r.Bumped? && 0 <= Counter(db, k) < TWO_63 - 1
    ensures var after := BumpVersion(db, k, expected, fault).0;
      && k in after.versions && |after.versions[k]| == 8
      && Spelled(after.versions[k]) == Counter(db, k) + 1
  {
    WrittenBytes(Counter(db, k) + 1);
  }

  /** Exactly when a bump succeeds, when it reports a mismatch, and what it hands out
      with any other failure. */
  lemma BumpOutcome(db: Db, k: string, expected: Int64, fault: Fault)
    ensures var r := BumpVersion(db, k, expected, fault).1;
      var readable := k in db.versions ==> |db.versions[k]| == 8;
      var matches := expected < 0 || expected == Counter(db, k);
      && (r.Bumped? <==> fault == Fine && readable && matches)
      && (r.Mismatch? <==> fault != ReadFails && readable && !matches)
      && (r == Lost(0) <== fault == ReadFails || !readable)
      && (r == Lost(Next64(Counter(db, k))) <== fault == CommitFails && readable && matches)
  {
  }
}
