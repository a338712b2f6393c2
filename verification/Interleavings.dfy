/** What an arbitrary interleaving leaves behind: which value a key holds, whose version
    that value belongs to, and what a read that is crossed by writes answers. */
module Interleavings {
  import opened Text
  import opened BigEndian
  import opened KeyLayout
  import opened Transactions
  import opened Protocol

  /** The last thing a run did to the secret record of a key; `writer` is the handler. */
  datatype Event = Nothing | Wrote(value: Bytes, writer: nat) | Removed

  function EventAt(s: State, c: Choice, k: string): Event {
    match Actor(s, c)
    case Some(PostPut(l, v)) => if l == k && c.fault == Fine then Wrote(v, c.i) else Nothing
    case Some(PatchPut(l, v, _, _)) => if l == k && c.fault == Fine then Wrote(v, c.i) else Nothing
    case Some(DelSecret(l)) => if l == k && c.fault == Fine then Removed else Nothing
    case _ => Nothing
  }

  function LastEvent(s: State, cs: seq<Choice>, k: string): Event
    decreases cs
  {
    if cs == [] then Nothing
    else
      var later := LastEvent(Apply(s, cs[0]), cs[1..], k);
      if later != Nothing then later else EventAt(s, cs[0], k)
  }

  function Stored(db: Db, k: string): Option<Bytes> {
    if k in db.secrets then Some(db.secrets[k]) else None
  }

  lemma StepStores(s: State, c: Choice, k: string)
    ensures Stored(Apply(s, c).db, k) ==
      match EventAt(s, c, k)
      case Nothing => Stored(s.db, k)
      case Wrote(v, _) => Some(v)
      case Removed => None
  {
  }

  /** In every run a key holds the value of its last successful write, or nothing if its
      last event was a removal. */
  lemma {:induction false} SecretIsLastWrite(s: State, cs: seq<Choice>, k: string)
    ensures Stored(Exec(s, cs).db, k) ==
      match LastEvent(s, cs, k)
      case Nothing => Stored(s.db, k)
      case Wrote(v, _) => Some(v)
      case Removed => None
    decreases cs
  {
    if cs != [] {
      StepStores(s, cs[0], k);
      SecretIsLastWrite(Apply(s, cs[0]), cs[1..], k);
    }
  }

  // ----- PATCH and creation -----

  /** A PATCH that found its secret goes on to create a key exactly when the last thing that
      happened to that secret between its check and its put was a removal. */
  lemma PatchCreatesExactlyAfterRemoval(s: State, cs: seq<Choice>, i: nat, c: Choice)
    requires i < |s.handlers| && s.handlers[i].PatchCheck? && s.handlers[i].k in s.db.secrets
    requires var t := Exec(s, cs);
      && i < |t.handlers| && t.handlers[i].PatchPut? && t.handlers[i].k == s.handlers[i].k
      && c.Step? && c.i == i && c.fault == Fine
    ensures var k, t := s.handlers[i].k, Exec(s, cs);
      (k !in t.db.secrets && k in Apply(t, c).db.secrets) <==> LastEvent(s, cs, k) == Removed
  {
    SecretIsLastWrite(s, cs, s.handlers[i].k);
    PutCreates(Exec(s, cs), i, c);
  }

  lemma PutCreates(t: State, i: nat, c: Choice)
    requires i < |t.handlers| && t.handlers[i].PatchPut? && c.Step? && c.i == i && c.fault == Fine
    ensures t.handlers[i].k in Apply(t, c).db.secrets
  {
  }

  /** A handler that may still write the secret of `k` without looking at it first. */
  predicate MayWrite(h: Handler, k: string) {
    (h.PostPut? || h.PatchCas? || h.PatchPut?) && h.k == k
  }

  predicate Unwritten(s: State, k: string) {
    k !in s.db.secrets && forall h :: h in s.handlers ==> !MayWrite(h, k)
  }

  lemma StaysUnwritten(db: Db, h: Handler, fault: Fault, now: Int64, k: string)
    requires k !in db.secrets && !MayWrite(h, k)
    ensures var (after, g) := Advance(db, h, fault, now); k !in after.secrets && !MayWrite(g, k)
  {
  }

  lemma UnwrittenStep(s: State, c: Choice, k: string)
    requires Unwritten(s, k) && (c.Arrive? ==> !MayWrite(Start(c.r), k))
    ensures Unwritten(Apply(s, c), k)
  {
    if c.Step? && c.i < |s.handlers| {
      StaysUnwritten(s.db, s.handlers[c.i], c.fault, c.now, k);
    }
  }

  /** No PATCH ever adds a key that was absent when it made its check: in every run that
      starts without the key and without a writer past its check, and in which no POST of
      the key arrives, the key stays absent. */
  lemma {:induction false} OnlyPostCreates(s: State, cs: seq<Choice>, k: string)
    requires Unwritten(s, k)
    requires forall c :: c in cs && c.Arrive? ==> !MayWrite(Start(c.r), k)
    ensures k !in Exec(s, cs).db.secrets
    decreases cs
  {
    if cs != [] {
      assert cs[0] in cs;
      UnwrittenStep(s, cs[0], k);
      OnlyPostCreates(Apply(s, cs[0]), cs[1..], k);
    }
  }

  // ----- value and version -----

  /** The handlers that made the bumps in `BumpsOf`. */
  function Bumpers(s: State, cs: seq<Choice>, k: string): (bs: seq<nat>)
    ensures |bs| == |BumpsOf(s, cs, k)|
    decreases cs
  {
    if cs == [] then []
    else
      var rest := Bumpers(Apply(s, cs[0]), cs[1..], k);
      if HasReset(Apply(s, cs[0]), cs[1..], k) || BumpAt(s, cs[0], k).None? then rest
      else [cs[0].i] + rest
  }

  /** Some bump by handler `i` returned `v`. */
  predicate Returned(bs: seq<nat>, vs: seq<Int64>, i: nat, v: Int64)
    requires |bs| == |vs|
  {
    exists n :: 0 <= n < |bs| && bs[n] == i && vs[n] == v
  }

  predicate IsLast(bs: seq<nat>, i: nat) {
    bs != [] && bs[|bs| - 1] == i
  }

  /** A bump of `k` by handler `i` since the last reset returned `v`. */
  predicate GotVersion(s: State, cs: seq<Choice>, k: string, i: nat, v: Int64) {
    Returned(Bumpers(s, cs, k), BumpsOf(s, cs, k), i, v)
  }

  predicate MadeLastBump(s: State, cs: seq<Choice>, k: string, i: nat) {
    IsLast(Bumpers(s, cs, k), i)
  }

  /** The versions since the last reset start from here. */
  function Base(s: State, cs: seq<Choice>, k: string): Int64 {
    if HasReset(s, cs, k) then 0 else Counter(s.db, k)
  }

  /** Fewer than 2^64 consecutive versions are all different from the last. */
  lemma LastInRow(bs: seq<nat>, vs: seq<Int64>, base: Int64, i: nat, v: Int64)
    requires |bs| == |vs| < TWO_64 && Consecutive(base, vs) && v == Plus64(base, |vs|)
    ensures Returned(bs, vs, i, v) <==> IsLast(bs, i)
  {
    Plus64Wraps(base, |vs|);
    forall n | 0 <= n < |vs| ensures vs[n] == v <==> n == |vs| - 1 {
      Plus64Wraps(base, n + 1);
    }
  }

  lemma CurrentVersionIsLastBump(s: State, cs: seq<Choice>, k: string, i: nat)
    requires |BumpsOf(s, cs, k)| < TWO_64
    ensures GotVersion(s, cs, k, i, Counter(Exec(s, cs).db, k)) <==> MadeLastBump(s, cs, k, i)
  {
    CounterCountsBumps(s, cs, k);
    LastInRow(Bumpers(s, cs, k), BumpsOf(s, cs, k), Base(s, cs, k), i, Counter(Exec(s, cs).db, k));
  }

  /** Exactly when the stored value belongs to the current version, in every run and with any
      deletes and faults: the handler that wrote the stored value is one that was given the
      current version iff the last successful bump is that handler's, too. */
  lemma ValueBelongsExactly(s: State, cs: seq<Choice>, k: string)
    requires |BumpsOf(s, cs, k)| < TWO_64
    requires LastEvent(s, cs, k).Wrote?
    ensures var w, t := LastEvent(s, cs, k), Exec(s, cs);
      && Stored(t.db, k) == Some(w.value)
      && (GotVersion(s, cs, k, w.writer, Counter(t.db, k)) <==> MadeLastBump(s, cs, k, w.writer))
  {
    SecretIsLastWrite(s, cs, k);
    CurrentVersionIsLastBump(s, cs, k, LastEvent(s, cs, k).writer);
  }

  /** The version a handler has been given, or has answered with. */
  function Told(h: Handler): Option<Int64> {
    match h
    case PostMtime(_, v) => Some(v)
    case PatchPut(_, _, _, v) => Some(v)
    case PatchMtime(_, _, v) => Some(v)
    case Done(Created(v)) => Some(v)
    case Done(Updated(v)) => Some(v)
    case _ => None
  }

  /** It still holds `v`, or has failed at its put. */
  predicate Answers(s: State, i: nat, v: Int64) {
    i < |s.handlers| && (Told(s.handlers[i]) == Some(v) || s.handlers[i] == Done(InternalError))
  }

  lemma {:induction false} AnswersStays(s: State, cs: seq<Choice>, i: nat, v: Int64)
    requires Answers(s, i, v)
    ensures Answers(Exec(s, cs), i, v)
    decreases cs
  {
    if cs != [] {
      AnswersStays(Apply(s, cs[0]), cs[1..], i, v);
    }
  }

  lemma BumpIsTold(s: State, c: Choice, k: string)
    requires BumpAt(s, c, k).Some?
    ensures Answers(Apply(s, c), c.i, BumpAt(s, c, k).value)
  {
  }

  /** Each of the bumps is answered. */
  predicate AllTold(t: State, bs: seq<nat>, vs: seq<Int64>)
    requires |bs| == |vs|
  {
    forall n :: 0 <= n < |bs| ==> Answers(t, bs[n], vs[n])
  }

  lemma AllToldCons(t: State, i: nat, v: Int64, bs: seq<nat>, vs: seq<Int64>)
    requires |bs| == |vs| && Answers(t, i, v) && AllTold(t, bs, vs)
    ensures AllTold(t, [i] + bs, [v] + vs)
  {
  }

  /** The version that a bump returned to a handler is the one its caller is told, unless its
      put fails afterwards. */
  lemma {:induction false} BumpsAreTold(s: State, cs: seq<Choice>, k: string)
    ensures AllTold(Exec(s, cs), Bumpers(s, cs, k), BumpsOf(s, cs, k))
    decreases cs
  {
    if cs != [] {
      var c, s1, later := cs[0], Apply(s, cs[0]), cs[1..];
      BumpsAreTold(s1, later, k);
      if !HasReset(s1, later, k) && BumpAt(s, c, k).Some? {
        var v := BumpAt(s, c, k).value;
        BumpIsTold(s, c, k);
        AnswersStays(s1, later, c.i, v);
        AllToldCons(Exec(s1, later), c.i, v, Bumpers(s1, later, k), BumpsOf(s1, later, k));
      }
    }
  }

  // ----- a read crossed by writes -----

  lemma {:induction false} ReadStays(s: State, cs: seq<Choice>, i: nat, k: string, value: Bytes)
    requires i < |s.handlers| && (s.handlers[i] == GetVersion(k, value) || s.handlers[i].Done?)
    ensures var t := Exec(s, cs);
      i < |t.handlers| && (t.handlers[i] == GetVersion(k, value) || t.handlers[i].Done?)
    decreases cs
  {
    if cs != [] {
      ReadStays(Apply(s, cs[0]), cs[1..], i, k, value);
    }
  }

  /** After the first `n` steps the key held this value, and with it the version it has at
      the end of the run. */
  predicate HeldAt(s: State, cs: seq<Choice>, k: string, value: Bytes, n: nat)
    requires n <= |cs|
  {
    var mid := Exec(s, cs[..n]);
    Stored(mid.db, k) == Some(value) && Counter(mid.db, k) == Counter(Exec(s, cs).db, k)
  }

  /** The run leaves the value alone, or writes it again last. */
  predicate KeepsValue(s: State, cs: seq<Choice>, k: string, value: Bytes) {
    match LastEvent(s, cs, k)
    case Nothing => true
    case Wrote(v, _) => v == value
    case Removed => false
  }

  /** The run has no bump, or its bumps since a reset lead back to the same counter. */
  predicate KeepsVersion(s: State, cs: seq<Choice>, k: string) {
    if HasReset(s, cs, k) then |BumpsOf(s, cs, k)| == Counter(s.db, k) else BumpsOf(s, cs, k) == []
  }

  lemma KeepsValueExactly(s: State, cs: seq<Choice>, k: string, value: Bytes)
    requires Stored(s.db, k) == Some(value)
    ensures Stored(Exec(s, cs).db, k) == Some(value) <==> KeepsValue(s, cs, k, value)
  {
    SecretIsLastWrite(s, cs, k);
  }

  lemma KeepsVersionExactly(s: State, cs: seq<Choice>, k: string)
    requires |cs| < TWO_63
    ensures Counter(Exec(s, cs).db, k) == Counter(s.db, k) <==> KeepsVersion(s, cs, k)
  {
    var n := |BumpsOf(s, cs, k)|;
    CounterCountsBumps(s, cs, k);
    FewBumps(s, cs, k);
    if HasReset(s, cs, k) {
      Plus64InRange(0, n);
    } else {
      Plus64Wraps(Counter(s.db, k), n);
    }
  }

  lemma HeldAtExactly(s: State, cs: seq<Choice>, k: string, value: Bytes, n: nat)
    requires Stored(s.db, k) == Some(value) && n <= |cs| < TWO_63
    ensures HeldAt(s, cs, k, value, n) <==>
      KeepsValue(s, cs[..n], k, value) && KeepsVersion(Exec(s, cs[..n]), cs[n..], k)
  {
    var mid := Exec(s, cs[..n]);
    ExecConcat(s, cs[..n], cs[n..]);
    assert cs[..n] + cs[n..] == cs;
    KeepsValueExactly(s, cs[..n], k, value);
    KeepsVersionExactly(mid, cs[n..], k);
  }

  /** Some moment between the two reads of a GET, their own moments included, from which on
      no bump was made (or, after a reset, the bumps lead back to the same counter), and up
      to which the value was left alone (or written again last). */
  ghost predicate Untorn(s: State, cs: seq<Choice>, k: string, value: Bytes) {
    exists n :: 0 <= n <= |cs| && KeepsValue(s, cs[..n], k, value) && KeepsVersion(Exec(s, cs[..n]), cs[n..], k)
  }

  /** A GET that reads its value in `s` and its version in `t` answers with that pair. The
      store held the pair at a given moment between the reads iff up to then nothing
      changed the value for good and from then on nothing changed the version for good;
      it held the pair at some moment at all iff there is such a moment. The first and the
      second read themselves are the moments 0 and `|cs|`. */
  lemma ReadIsSnapshotExactly(s: State, i: nat, read: Choice, cs: seq<Choice>, last: Choice)
    requires i < |s.handlers| && s.handlers[i].GetRead? && s.handlers[i].k in s.db.secrets
    requires read.Step? && read.i == i && read.fault == Fine && |cs| < TWO_63
    requires var t := Exec(Apply(s, read), cs); i < |t.handlers| && t.handlers[i].GetVersion?
    requires last.Step? && last.i == i && last.fault == Fine
    ensures var k, s1 := s.handlers[i].k, Apply(s, read);
      var t, value := Exec(s1, cs), s.db.secrets[k];
      && Apply(t, last).handlers[i] == Done(Found(value, Counter(t.db, k)))
      && (forall n :: 0 <= n <= |cs| ==> (HeldAt(s1, cs, k, value, n) <==>
            KeepsValue(s1, cs[..n], k, value) && KeepsVersion(Exec(s1, cs[..n]), cs[n..], k)))
      && ((exists n :: 0 <= n <= |cs| && HeldAt(s1, cs, k, value, n)) <==> Untorn(s1, cs, k, value))
  {
    var k, s1 := s.handlers[i].k, Apply(s, read);
    var value := s.db.secrets[k];
    FoundIsRead(s, i, read, cs, last);
    forall n | 0 <= n <= |cs|
      ensures HeldAt(s1, cs, k, value, n) <==>
        KeepsValue(s1, cs[..n], k, value) && KeepsVersion(Exec(s1, cs[..n]), cs[n..], k)
    {
      HeldAtExactly(s1, cs, k, value, n);
    }
  }

  lemma FoundIsRead(s: State, i: nat, read: Choice, cs: seq<Choice>, last: Choice)
    requires i < |s.handlers| && s.handlers[i].GetRead? && s.handlers[i].k in s.db.secrets
    requires read.Step? && read.i == i && read.fault == Fine
    requires var t := Exec(Apply(s, read), cs); i < |t.handlers| && t.handlers[i].GetVersion?
    requires last.Step? && last.i == i && last.fault == Fine
    ensures var k, s1 := s.handlers[i].k, Apply(s, read);
      && Stored(s1.db, k) == Some(s.db.secrets[k])
      && Apply(Exec(s1, cs), last).handlers[i] == Done(Found(s.db.secrets[k], Counter(Exec(s1, cs).db, k)))
  {
    var k, s1 := s.handlers[i].k, Apply(s, read);
    assert s1.db == s.db && s1.handlers[i] == GetVersion(k, s.db.secrets[k]);
    ReadStays(s1, cs, i, k, s.db.secrets[k]);
  }

  /** When the commit of a bump fails, POST goes on to answer with the version it failed to
      write. The next bump returns that same version, and until it happens the key may
      have an update time without a version. */
  lemma LostBumpIsReported(db: Db, k: string, c: Int64, now: Int64)
    requires ReadRecord(db.versions, k) == Number(c)
    ensures var (after, h) := Advance(db, PostBump(k), CommitFails, now);
      && after == db && h == PostMtime(k, Next64(c))
      && BumpVersion(after, k, -1, Fine).1 == Bumped(Next64(c))
      && Advance(after, h, Fine, now).1 == Done(Created(Next64(c)))
      && (k !in db.versions ==> !Nested(Advance(after, h, Fine, now).0, k))
  {
    var t := WriteMtime(db, k, now, Fine);
    assert k in t.mtimes && (k !in db.versions ==> k !in t.versions);
  }
}
