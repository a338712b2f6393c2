/** The signing-key cache: any number of goroutines resolve key ids through a
    double-checked refresh guarded by a reader-writer lock and a refresh mutex. */
module Jwks {
  import opened Text

  // ----- from a fetched document to the set of usable keys -----

  datatype PublicKey = PublicKey(n: nat, e: nat)

  /** One entry of a key set document; `n` and `e` are `None` when they do not decode. */
  datatype Jwk = Jwk(kty: string, kid: string, use: string, n: Option<nat>, e: Option<nat>)

  type Keys = map<string, PublicKey>

  /** `parseJWKSRSAPublicKey`: the exponent must fit a signed 64-bit integer. */
  function ParseKey(j: Jwk): Option<PublicKey> {
    if j.n.None? || j.e.None? || j.e.value >= 0x8000_0000_0000_0000 then None
    else Some(PublicKey(j.n.value, j.e.value))
  }

  predicate Usable(j: Jwk) {
    j.kty == "RSA" && (j.use == "" || j.use == "sig") && ParseKey(j).Some?
  }

  function KeySet(doc: seq<Jwk>): Keys {
    if doc == [] then map[]
    else
      var before, j := KeySet(doc[..|doc| - 1]), doc[|doc| - 1];
      if Usable(j) then before[j.kid := ParseKey(j).value] else before
  }

  /** The loop of `refresh` that fills the new map. */
  method FillKeys(doc: seq<Jwk>) returns (out: Keys)
    ensures out == KeySet(doc)
  {
    out := map[];
    for i := 0 to |doc|
      invariant out == KeySet(doc[..i])
    {
      var k := doc[i];
      assert doc[..i + 1][..i] == doc[..i];
      if k.kty != "RSA" {
        continue;
      }
      if k.use != "" && k.use != "sig" {
        continue;
      }
      var pub := ParseKey(k);
      if pub.None? {
        continue;
      }
      out := out[k.kid := pub.value];
    }
    assert doc[..|doc|] == doc;
  }

  /** Entry `i` is the last usable one with its key id. */
  predicate LastUsable(doc: seq<Jwk>, i: nat) {
    i < |doc| && Usable(doc[i]) && forall j :: i < j < |doc| ==> !(Usable(doc[j]) && doc[j].kid == doc[i].kid)
  }

  /** Entry `i` is the last usable one, and has this id. */
  predicate LastFor(doc: seq<Jwk>, i: nat, kid: string) {
    LastUsable(doc, i) && doc[i].kid == kid
  }

  /** An entry that is not usable for an id changes nothing about which one is last for it. */
  lemma LastForPrefix(doc: seq<Jwk>, i: nat, kid: string)
    requires doc != [] && !(Usable(doc[|doc| - 1]) && doc[|doc| - 1].kid == kid)
    ensures LastFor(doc, i, kid) <==> LastFor(doc[..|doc| - 1], i, kid)
  {
    var before := doc[..|doc| - 1];
    if i < |before| && doc[i].kid == kid {
      assert forall j :: i < j < |before| ==> before[j] == doc[j];
    }
  }

  lemma {:induction false} KeySetIsLastUsable(doc: seq<Jwk>, kid: string)
    ensures kid in KeySet(doc) <==> exists i: nat :: LastFor(doc, i, kid)
    ensures forall i: nat :: LastFor(doc, i, kid) ==> KeySet(doc)[kid] == ParseKey(doc[i]).value
  {
    if doc != [] {
      var last := |doc| - 1;
      if Usable(doc[last]) && doc[last].kid == kid {
        assert LastFor(doc, last, kid);
        assert forall i: nat :: LastFor(doc, i, kid) ==> i == last;
      } else {
        KeySetIsLastUsable(doc[..last], kid);
        forall i: nat ensures LastFor(doc, i, kid) <==> LastFor(doc[..last], i, kid) {
          LastForPrefix(doc, i, kid);
        }
      }
    }
  }

  /** Entry `i` is an RSA key with that id, for signatures or for no stated use, whose two
      numbers decode and whose exponent fits a signed 64-bit integer. */
  predicate SigningKey(doc: seq<Jwk>, i: nat, kid: string) {
    && i < |doc| && doc[i].kid == kid
    && doc[i].kty == "RSA" && doc[i].use in ["", "sig"]
    && doc[i].n.Some? && doc[i].e.Some? && doc[i].e.value <= 0x7FFF_FFFF_FFFF_FFFF
  }

  predicate LastSigningKey(doc: seq<Jwk>, i: nat, kid: string) {
    SigningKey(doc, i, kid) && forall j: nat :: i < j < |doc| ==> !SigningKey(doc, j, kid)
  }

  lemma SigningIsUsable(doc: seq<Jwk>, i: nat, kid: string)
    ensures SigningKey(doc, i, kid) <==> i < |doc| && Usable(doc[i]) && doc[i].kid == kid
  {
  }

  lemma LastSigningIsLastUsable(doc: seq<Jwk>, i: nat, kid: string)
    ensures LastSigningKey(doc, i, kid) <==> LastFor(doc, i, kid)
  {
    SigningIsUsable(doc, i, kid);
    forall j: nat | i < j < |doc| ensures SigningKey(doc, j, kid) <==> Usable(doc[j]) && doc[j].kid == kid {
      SigningIsUsable(doc, j, kid);
    }
  }

  /** The key set holds, for each key id, the modulus and the exponent of the last signing key
      with that id, and nothing for an id that no signing key has. */
  lemma KeySetExactly(doc: seq<Jwk>, kid: string)
    ensures kid in KeySet(doc) <==> exists i: nat :: LastSigningKey(doc, i, kid)
    ensures forall i: nat :: LastSigningKey(doc, i, kid) ==>
      KeySet(doc)[kid].n == doc[i].n.value && KeySet(doc)[kid].e == doc[i].e.value
  {
    KeySetIsLastUsable(doc, kid);
    forall i: nat ensures LastSigningKey(doc, i, kid) <==> LastFor(doc, i, kid) {
      LastSigningIsLastUsable(doc, i, kid);
    }
  }

  // ----- the cache and its goroutines -----

  /** Fifteen minutes, in nanoseconds. */
  const TTL: nat := 900_000_000_000

  datatype Fetch = Failed | Fetched(doc: seq<Jwk>)

  datatype Result = Key(key: PublicKey) | Error

  function Lookup(keys: Keys, kid: string): Option<PublicKey> {
    if kid in keys then Some(keys[kid]) else None
  }

  /** What one call comes to when it is alone: the answer and the cache it leaves. An answer
      comes either from an unexpired cache, which then stays as it is, or from the document
      just fetched. */
  function Outcome(configured: bool, keys: Keys, expiry: nat, kid: string,
                   fast: nat, double: nat, install: nat, fetch: Fetch): (Result, Keys, nat) {
    if kid == "" then (Error, keys, expiry)
    else if (fast < expiry || double < expiry) && kid in keys then (Key(keys[kid]), keys, expiry)
    else if configured && fetch.Fetched? && KeySet(fetch.doc) != map[] then
      (Answer(Lookup(KeySet(fetch.doc), kid)), KeySet(fetch.doc), install + TTL)
    else (Error, keys, expiry)
  }

  function Answer(hit: Option<PublicKey>): Result {
    if hit.Some? then Key(hit.value) else Error
  }

  /** The cache object as a single goroutine sees it. */
  class Cache {
    const configured: bool
    var keys: Keys
    var expiry: nat

    constructor (configured: bool)
      ensures this.configured == configured && keys == map[] && expiry == 0
    {
      this.configured := configured;
      keys, expiry := map[], 0;
    }

    /** Replaces both fields together, or neither. */
    method Refresh(fetch: Fetch, now: nat) returns (ok: bool)
      modifies this
      ensures ok <==> configured && fetch.Fetched? && KeySet(fetch.doc) != map[]
      ensures if ok then keys == KeySet(fetch.doc) && expiry == now + TTL
              else keys == old(keys) && expiry == old(expiry)
    {
      if !configured || fetch.Failed? {
        return false;
      }
      var out := FillKeys(fetch.doc);
      if out == map[] {
        return false;
      }
      keys := out;
      expiry := now + TTL;
      return true;
    }

    /** `resolve`, with the clock readings of its three checks. */
    method Resolve(kid: string, fast: nat, double: nat, install: nat, fetch: Fetch) returns (r: Result)
      modifies this
      ensures (r, keys, expiry) == Outcome(configured, old(keys), old(expiry), kid, fast, double, install, fetch)
    {
      if kid == "" {
        return Error;
      }
      if fast < expiry && kid in keys {
        return Key(keys[kid]);
      }
      if double < expiry && kid in keys {
        return Key(keys[kid]);
      }
      var ok := Refresh(fetch, install);
      if !ok {
        return Error;
      }
      if kid !in keys {
        return Error;
      }
      return Key(keys[kid]);
    }
  }

  /** Where a call of `resolve` stands. A document that the call fetched travels with it. */
  datatype Pc =
    | Start
    | FastWait
    | FastHeld
    | FastRelease(hit: Option<PublicKey>)
    | MutexWait
    | DoubleWait
    | DoubleHeld
    | DoubleRelease(hit: Option<PublicKey>)
    | Refreshing
    | Announce(doc: Keys)
    | LockWait(doc: Keys)
    | WriteKeys(doc: Keys)
    | WriteExpiry(doc: Keys)
    | WriteUnlock(doc: Keys)
    | FinalWait(doc: Keys)
    | FinalHeld(doc: Keys)
    | FinalRelease(doc: Keys, hit: Option<PublicKey>)
    | MutexRelease(result: Result)
    | Done(result: Result)

  datatype Resolver = Resolver(kid: string, pc: Pc)

  /** Go's reader-writer lock: a queued writer keeps new readers out. */
  datatype RwMutex = RwMutex(readers: set<nat>, writer: Option<nat>, queued: Option<nat>)

  /** A completed replacement of the cached keys. */
  datatype Install = Install(doc: Keys, at: nat)

  /** `installs` is the history of completed replacements; no step looks at it. */
  datatype State = State(
    configured: bool,
    mu: RwMutex,
    refreshMu: Option<nat>,
    keys: Keys,
    expiry: nat,
    now: nat,
    calls: seq<Resolver>,
    installs: seq<Install>)

  function Fresh(configured: bool, now: nat): State {
    State(configured, RwMutex({}, None, None), None, map[], 0, now, [], [])
  }

  /** The check under the read lock: not expired, and present. */
  function Check(s: State, kid: string): Option<PublicKey> {
    if s.now < s.expiry then Lookup(s.keys, kid) else None
  }

  predicate CanRead(mu: RwMutex) {
    mu.writer.None? && mu.queued.None?
  }

  /** Do the locks let a call with this program counter go on? */
  predicate Allowed(mu: RwMutex, refreshMu: Option<nat>, p: Pc) {
    match p
    case FastWait => CanRead(mu)
    case DoubleWait => CanRead(mu)
    case FinalWait(_) => CanRead(mu)
    case MutexWait => refreshMu.None?
    case Announce(_) => mu.writer.None? && mu.queued.None?
    case LockWait(_) => mu.readers == {}
    case Done(_) => false
    case _ => true
  }

  predicate Enabled(s: State, i: nat) {
    i < |s.calls| && Allowed(s.mu, s.refreshMu, s.calls[i].pc)
  }

  /** Where the next atomic action of a call leads; `fetch` is what the network answers if
      the call asks. */
  function NextPc(s: State, r: Resolver, fetch: Fetch): Pc {
    match r.pc
    case Start => if r.kid == "" then Done(Error) else FastWait
    case FastWait => FastHeld
    case FastHeld => FastRelease(Check(s, r.kid))
    case FastRelease(hit) => if hit.Some? then Done(Key(hit.value)) else MutexWait
    case MutexWait => DoubleWait
    case DoubleWait => DoubleHeld
    case DoubleHeld => DoubleRelease(Check(s, r.kid))
    case DoubleRelease(hit) => if hit.Some? then MutexRelease(Key(hit.value)) else Refreshing
    case Refreshing =>
      if !s.configured || fetch.Failed? || KeySet(fetch.doc) == map[] then MutexRelease(Error)
      else Announce(KeySet(fetch.doc))
    case Announce(doc) => LockWait(doc)
    case LockWait(doc) => WriteKeys(doc)
    case WriteKeys(doc) => WriteExpiry(doc)
    case WriteExpiry(doc) => WriteUnlock(doc)
    case WriteUnlock(doc) => FinalWait(doc)
    case FinalWait(doc) => FinalHeld(doc)
    case FinalHeld(doc) => FinalRelease(doc, Lookup(s.keys, r.kid))
    case FinalRelease(_, hit) => MutexRelease(Answer(hit))
    case MutexRelease(result) => Done(result)
    case Done(result) => Done(result)
  }

  function MuAfter(mu: RwMutex, i: nat, p: Pc): RwMutex {
    if p.FastWait? || p.DoubleWait? || p.FinalWait? then mu.(readers := mu.readers + {i})
    else if p.FastRelease? || p.DoubleRelease? || p.FinalRelease? then mu.(readers := mu.readers - {i})
    else if p.Announce? then mu.(queued := Some(i))
    else if p.LockWait? then mu.(queued := None, writer := Some(i))
    else if p.WriteUnlock? then mu.(writer := None)
    else mu
  }

  function MutexAfter(m: Option<nat>, i: nat, p: Pc): Option<nat> {
    if p.MutexWait? then Some(i) else if p.MutexRelease? then None else m
  }

  /** The next atomic action of call `i`. */
  function Advance(s: State, i: nat, fetch: Fetch): State
    requires i < |s.calls|
  {
    var r := s.calls[i];
    State(
      s.configured,
      MuAfter(s.mu, i, r.pc),
      MutexAfter(s.refreshMu, i, r.pc),
      if r.pc.WriteKeys? then r.pc.doc else s.keys,
      if r.pc.WriteExpiry? then s.now + TTL else s.expiry,
      s.now,
      s.calls[i := Resolver(r.kid, NextPc(s, r, fetch))],
      if r.pc.WriteExpiry? then s.installs + [Install(r.pc.doc, s.now)] else s.installs)
  }

  datatype Choice =
    | Arrive(kid: string)
    | Tick(d: nat)
    | Step(i: nat, fetch: Fetch)

  function Apply(s: State, c: Choice): State {
    match c
    case Arrive(kid) => s.(calls := s.calls + [Resolver(kid, Start)])
    case Tick(d) => s.(now := s.now + d)
    case Step(i, fetch) => if Enabled(s, i) then Advance(s, i, fetch) else s
  }

  function Exec(s: State, cs: seq<Choice>): State
    decreases cs
  {
    if cs == [] then s else Exec(Apply(s, cs[0]), cs[1..])
  }

  // ----- who holds which lock -----

  predicate Reads(p: Pc) {
    p.FastHeld? || p.FastRelease? || p.DoubleHeld? || p.DoubleRelease? || p.FinalHeld? || p.FinalRelease?
  }

  predicate Writes(p: Pc) {
    p.WriteKeys? || p.WriteExpiry? || p.WriteUnlock?
  }

  /** Between locking and unlocking the refresh mutex. */
  predicate Refreshes(p: Pc) {
    !p.Start? && !p.FastWait? && !p.FastHeld? && !p.FastRelease? && !p.MutexWait? && !p.Done?
  }

  predicate LocksAt(s: State, i: nat)
    requires i < |s.calls|
  {
    var p := s.calls[i].pc;
    && (i in s.mu.readers <==> Reads(p))
    && (s.mu.writer == Some(i) <==> Writes(p))
    && (s.mu.queued == Some(i) <==> p.LockWait?)
    && (s.refreshMu == Some(i) <==> Refreshes(p))
  }

  predicate LockInv(s: State) {
    && (forall i :: 0 <= i < |s.calls| ==> LocksAt(s, i))
    && (forall i :: i in s.mu.readers ==> i < |s.calls|)
    && (s.mu.writer.Some? ==> s.mu.writer.value < |s.calls| && s.mu.readers == {} && s.mu.queued.None?)
    && (s.mu.queued.Some? ==> s.mu.queued.value < |s.calls|)
    && (s.refreshMu.Some? ==> s.refreshMu.value < |s.calls|)
  }

  /** The program counters after which each lock is held. */
  lemma NextPcLocks(s: State, r: Resolver, fetch: Fetch)
    ensures var p, q := r.pc, NextPc(s, r, fetch);
      && (Reads(q) <==> p.FastWait? || p.DoubleWait? || p.FinalWait? || p.FastHeld? || p.DoubleHeld? || p.FinalHeld?)
      && (Writes(q) <==> p.LockWait? || p.WriteKeys? || p.WriteExpiry?)
      && (q.LockWait? <==> p.Announce?)
      && (Refreshes(q) <==> p.MutexWait? || (Refreshes(p) && !p.MutexRelease?))
  {
  }

  lemma ActorKeepsLocks(s: State, i: nat, fetch: Fetch)
    requires LockInv(s) && Enabled(s, i)
    ensures LocksAt(Advance(s, i, fetch), i)
  {
    NextPcLocks(s, s.calls[i], fetch);
    assert LocksAt(s, i);
  }

  /** A step changes nothing in the place or the locks of another call. */
  lemma OthersUntouched(s: State, i: nat, fetch: Fetch, j: nat)
    requires LockInv(s) && Enabled(s, i) && j < |s.calls| && j != i
    ensures var t := Advance(s, i, fetch);
      && |t.calls| == |s.calls| && t.calls[j] == s.calls[j] && t.calls[i].kid == s.calls[i].kid
      && (j in t.mu.readers <==> j in s.mu.readers)
      && (t.mu.writer == Some(j) <==> s.mu.writer == Some(j))
      && (t.mu.queued == Some(j) <==> s.mu.queued == Some(j))
      && (t.refreshMu == Some(j) <==> s.refreshMu == Some(j))
  {
    assert LocksAt(s, i);
  }

  lemma StepKeepsLockOwners(s: State, i: nat, fetch: Fetch)
    requires LockInv(s) && Enabled(s, i)
    ensures var t := Advance(s, i, fetch);
      && (t.mu.writer.Some? ==> t.mu.writer.value < |s.calls| && t.mu.readers == {} && t.mu.queued.None?)
      && (t.mu.queued.Some? ==> t.mu.queued.value < |s.calls|)
      && (t.refreshMu.Some? ==> t.refreshMu.value < |s.calls|)
      && t.mu.readers <= s.mu.readers + {i}
  {
    assert LocksAt(s, i);
    if s.mu.writer.Some? {
      assert LocksAt(s, s.mu.writer.value);
    }
    if s.mu.queued.Some? {
      assert LocksAt(s, s.mu.queued.value);
    }
  }

  lemma StepKeepsLocks(s: State, c: Choice)
    requires LockInv(s)
    ensures LockInv(Apply(s, c))
  {
    var s' := Apply(s, c);
    if c.Step? && Enabled(s, c.i) {
      ActorKeepsLocks(s, c.i, c.fetch);
      StepKeepsLockOwners(s, c.i, c.fetch);
      forall j: nat | j < |s.calls| && j != c.i ensures LocksAt(s', j) {
        assert LocksAt(s, j);
        OthersUntouched(s, c.i, c.fetch, j);
      }
    } else {
      forall j: nat | j < |s'.calls| ensures LocksAt(s', j) {
        if j < |s.calls| {
          assert LocksAt(s, j);
        }
      }
    }
  }

  /** No two calls are ever between locking and unlocking the refresh mutex, so no two are
      ever inside the refresh; nor does anybody read while somebody replaces the cache. */
  lemma MutualExclusion(s: State, i: nat, j: nat)
    requires LockInv(s) && i < |s.calls| && j < |s.calls|
    ensures Refreshes(s.calls[i].pc) && Refreshes(s.calls[j].pc) ==> i == j
    ensures !(Writes(s.calls[i].pc) && Reads(s.calls[j].pc))
  {
    assert LocksAt(s, i) && LocksAt(s, j);
  }

  // ----- what the cache contains -----

  function Last(s: State): Install
    requires s.installs != []
  {
    s.installs[|s.installs| - 1]
  }

  /** Keys and expiry both come from the last completed replacement. */
  predicate Coherent(s: State) {
    if s.installs == [] then s.keys == map[] && s.expiry == 0
    else s.keys == Last(s).doc && s.expiry == Last(s).at + TTL
  }

  /** Somebody has replaced the keys and not yet the expiry. */
  predicate HalfWay(s: State) {
    s.mu.writer.Some? && s.mu.writer.value < |s.calls| && s.calls[s.mu.writer.value].pc.WriteExpiry?
  }

  /** Some installed document maps the key id to this key. */
  predicate Served(s: State, kid: string, key: PublicKey) {
    exists n :: 0 <= n < |s.installs| && Lookup(s.installs[n].doc, kid) == Some(key)
  }

  predicate DataAt(s: State, r: Resolver) {
    match r.pc
    case FastRelease(Some(k)) => Served(s, r.kid, k)
    case DoubleRelease(Some(k)) => Served(s, r.kid, k)
    case MutexRelease(Key(k)) => Served(s, r.kid, k)
    case Done(Key(k)) => Served(s, r.kid, k)
    case Announce(doc) => doc != map[]
    case LockWait(doc) => doc != map[]
    case WriteKeys(doc) => doc != map[]
    case WriteExpiry(doc) => doc != map[] && s.keys == doc
    case WriteUnlock(doc) => s.installs != [] && Last(s).doc == doc
    case FinalWait(doc) => s.installs != [] && Last(s).doc == doc
    case FinalHeld(doc) => s.installs != [] && Last(s).doc == doc
    case FinalRelease(doc, hit) => s.installs != [] && Last(s).doc == doc && hit == Lookup(doc, r.kid)
    case _ => true
  }

  predicate DataInv(s: State) {
    && (HalfWay(s) || Coherent(s))
    && (forall n :: 0 <= n < |s.installs| ==>
          s.installs[n].doc != map[] && s.installs[0].at <= s.installs[n].at <= s.now)
    && (forall i :: 0 <= i < |s.calls| ==> DataAt(s, s.calls[i]))
  }

  predicate Inv(s: State) {
    LockInv(s) && DataInv(s)
  }

  lemma ServedStays(s: State, s': State, kid: string, key: PublicKey)
    requires Served(s, kid, key) && s.installs <= s'.installs
    ensures Served(s', kid, key)
  {
    var n :| 0 <= n < |s.installs| && Lookup(s.installs[n].doc, kid) == Some(key);
    assert s'.installs[n] == s.installs[n];
  }

  /** A hit under the read lock is the key of the last document, installed less than the
      TTL ago. */
  lemma HitIsFresh(s: State, i: nat)
    requires Inv(s) && i < |s.calls| && Reads(s.calls[i].pc)
    requires Check(s, s.calls[i].kid).Some?
    ensures s.installs != []
    ensures Lookup(Last(s).doc, s.calls[i].kid) == Check(s, s.calls[i].kid)
    ensures Last(s).at <= s.now < Last(s).at + TTL
    ensures Served(s, s.calls[i].kid, Check(s, s.calls[i].kid).value)
  {
    assert LocksAt(s, i);
    assert Coherent(s);
    assert s.installs[|s.installs| - 1] == Last(s);
  }

  lemma OthersKeepData(s: State, c: Choice, j: nat)
    requires Inv(s) && c.Step? && Enabled(s, c.i) && j < |s.calls| && j != c.i
    ensures DataAt(Apply(s, c), Apply(s, c).calls[j])
  {
    var s' := Apply(s, c);
    var r := s.calls[j];
    assert LocksAt(s, j) && LocksAt(s, c.i) && DataAt(s, r);
    match r.pc
    case FastRelease(Some(k)) => ServedStays(s, s', r.kid, k);
    case DoubleRelease(Some(k)) => ServedStays(s, s', r.kid, k);
    case MutexRelease(Key(k)) => ServedStays(s, s', r.kid, k);
    case Done(Key(k)) => ServedStays(s, s', r.kid, k);
    case _ =>
  }

  lemma ActorKeepsData(s: State, i: nat, fetch: Fetch)
    requires Inv(s) && Enabled(s, i)
    ensures DataAt(Advance(s, i, fetch), Advance(s, i, fetch).calls[i])
    ensures HalfWay(Advance(s, i, fetch)) || Coherent(Advance(s, i, fetch))
  {
    var s' := Advance(s, i, fetch);
    var r := s.calls[i];
    assert LocksAt(s, i) && DataAt(s, r);
    match r.pc
    case FastHeld =>
      if Check(s, r.kid).Some? {
        HitIsFresh(s, i);
        ServedStays(s, s', r.kid, Check(s, r.kid).value);
      }
    case DoubleHeld =>
      if Check(s, r.kid).Some? {
        HitIsFresh(s, i);
        ServedStays(s, s', r.kid, Check(s, r.kid).value);
      }
    case FastRelease(Some(k)) => ServedStays(s, s', r.kid, k);
    case DoubleRelease(Some(k)) => ServedStays(s, s', r.kid, k);
    case MutexRelease(Key(k)) => ServedStays(s, s', r.kid, k);
    case FinalRelease(doc, hit) =>
      assert s'.installs[|s'.installs| - 1] == Last(s);
    case _ =>
  }

  lemma StepKeepsInv(s: State, c: Choice)
    requires Inv(s)
    ensures Inv(Apply(s, c))
  {
    StepKeepsLocks(s, c);
    var s' := Apply(s, c);
    if c.Step? && Enabled(s, c.i) {
      ActorKeepsData(s, c.i, c.fetch);
      forall j | 0 <= j < |s'.calls| ensures DataAt(s', s'.calls[j]) {
        if j != c.i {
          OthersKeepData(s, c, j);
        }
      }
    } else {
      forall j | 0 <= j < |s'.calls| ensures DataAt(s', s'.calls[j]) {
        if j < |s.calls| {
          assert DataAt(s, s.calls[j]);
          QuietKeepsData(s, s', s.calls[j]);
        }
      }
    }
  }

  lemma QuietKeepsData(s: State, s': State, r: Resolver)
    requires DataAt(s, r) && s'.installs == s.installs && s'.keys == s.keys
    ensures DataAt(s', r)
  {
    match r.pc
    case FastRelease(Some(k)) => ServedStays(s, s', r.kid, k);
    case DoubleRelease(Some(k)) => ServedStays(s, s', r.kid, k);
    case MutexRelease(Key(k)) => ServedStays(s, s', r.kid, k);
    case Done(Key(k)) => ServedStays(s, s', r.kid, k);
    case _ =>
  }

  /** Every state of every run satisfies the invariant. */
  lemma {:induction false} RunKeepsInv(s: State, cs: seq<Choice>)
    requires Inv(s)
    ensures Inv(Exec(s, cs))
    decreases cs
  {
    if cs != [] {
      StepKeepsInv(s, cs[0]);
      RunKeepsInv(Apply(s, cs[0]), cs[1..]);
    }
  }
}
