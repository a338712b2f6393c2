/** The customer key in the client's memory: one live array, copies for every operation,
    and a lock that clears the live array in place. */
module KeyBuffer {
  import opened Text
  import opened BigEndian

  /** Go's `clear` on a byte slice. */
  method Clear(a: array<Byte>)
    modifies a
    ensures forall i :: 0 <= i < a.Length ==> a[i] == 0
  {
    for n := 0 to a.Length
      invariant forall i :: 0 <= i < n ==> a[i] == 0
    {
      a[n] := 0;
    }
  }

  /** A fresh array with the given contents. */
  method Allocate(key: Bytes) returns (a: array<Byte>)
    ensures fresh(a) && a[..] == key
  {
    a := new Byte[|key|](i requires 0 <= i < |key| => key[i]);
  }

  class Client {
    var cek: array?<Byte>
    /** Every array ever handed out. */
    ghost var copies: set<array<Byte>>

    /** The live key is never one of the arrays handed out. */
    ghost predicate Valid()
      reads this
    {
      cek !in copies
    }

    ghost function LiveKey(): Option<Bytes>
      reads this, cek
    {
      if cek == null then None else Some(cek[..])
    }

    constructor ()
      ensures Valid() && LiveKey() == None && copies == {}
    {
      cek := null;
      copies := {};
    }

    /** `Unlock` and `Bootstrap`: `derived` is the key the passphrase leads to. A failed
        derivation changes nothing. A live key that is replaced is not cleared. */
    method Unlock(derived: Option<Bytes>) returns (ok: bool)
      requires Valid()
      modifies this
      ensures Valid() && copies == old(copies)
      ensures ok == derived.Some?
      ensures ok ==> fresh(cek) && LiveKey() == derived
      ensures !ok ==> cek == old(cek)
    {
      if derived.None? {
        return false;
      }
      var key := Allocate(derived.value);
      cek := key;
      return true;
    }

    /** `Lock`: zeroes the live array, then forgets it. */
    method Lock()
      requires Valid()
      modifies this, cek
      ensures Valid() && copies == old(copies)
      ensures cek == null && LiveKey() == None
      ensures old(cek) != null ==> forall i :: 0 <= i < old(cek).Length ==> old(cek)[i] == 0
    {
      if cek != null {
        Clear(cek);
        cek := null;
      }
    }

    /** `getCEK` and `ExportCEK`: a fresh array with the contents of the live key. */
    method GetCek() returns (r: Option<array<Byte>>)
      requires Valid()
      modifies this`copies
      ensures Valid()
      ensures r.None? <==> cek == null
      ensures r.None? ==> copies == old(copies)
      ensures r.Some? ==>
        && fresh(r.value) && r.value != cek
        && r.value[..] == cek[..]
        && copies == old(copies) + {r.value}
    {
      if cek == null {
        return None;
      }
      var a := Allocate(cek[..]);
      copies := copies + {a};
      return Some(a);
    }

    /** The frame that `Set`, `Get`, `Delete` and `List` share: take a copy, work with it,
        clear it on the way out. `used` is the key the work saw. */
    method Operation() returns (used: Option<Bytes>)
      requires Valid()
      modifies this`copies
      ensures Valid() && old(copies) <= copies
      ensures used == old(LiveKey()) == LiveKey()
      ensures forall c :: c in copies - old(copies) ==> fresh(c) && forall i :: 0 <= i < c.Length ==> c[i] == 0
    {
      var copy := GetCek();
      if copy.None? {
        return None;
      }
      used := Some(copy.value[..]);
      Clear(copy.value);
    }
  }

  // ----- whole runs -----

  datatype Command =
    | DoUnlock(derived: Option<Bytes>)
    | DoLock
    | DoOperation
    | DoExport
    | Scribble(n: nat, b: Byte)

  /** What each command does to the key in memory, and which key it reports to have seen. */
  function Step(live: Option<Bytes>, c: Command): (Option<Bytes>, Option<Bytes>) {
    match c
    case DoUnlock(derived) => if derived.Some? then (derived, derived) else (live, None)
    case DoLock => (None, None)
    case DoOperation => (live, live)
    case DoExport => (live, live)
    case Scribble(_, _) => (live, None)
  }

  function Run(live: Option<Bytes>, script: seq<Command>): (r: (Option<Bytes>, seq<Option<Bytes>>))
    ensures |r.1| == |script|
  {
    if script == [] then (live, [])
    else
      var (before, seen) := Run(live, script[..|script| - 1]);
      var (after, s) := Step(before, script[|script| - 1]);
      (after, seen + [s])
  }

  /** This command decides which key is live from then on. */
  predicate Decides(c: Command) {
    c.DoLock? || (c.DoUnlock? && c.derived.Some?)
  }

  /** The live key is the one derived by the last command that decided: none after a lock, and
      the one there was at the start if nothing has decided since. */
  lemma {:induction false} LiveExactly(live: Option<Bytes>, script: seq<Command>, i: nat)
    requires i <= |script| && forall j :: i <= j < |script| ==> !Decides(script[j])
    requires i > 0 ==> Decides(script[i - 1])
    ensures Run(live, script).0 ==
      if i == 0 then live else if script[i - 1].DoLock? then None else script[i - 1].derived
  {
    if i < |script| {
      LiveExactly(live, script[..|script| - 1], i);
    }
  }

  /** What each command reports: an operation and an export the key that is live at that moment,
      an unlock the key it derived, and nothing else anything. */
  lemma {:induction false} SeenExactly(live: Option<Bytes>, script: seq<Command>, k: nat)
    requires k < |script|
    ensures Run(live, script).1[k] ==
      match script[k]
      case DoOperation => Run(live, script[..k]).0
      case DoExport => Run(live, script[..k]).0
      case DoUnlock(derived) => derived
      case DoLock => None
      case Scribble(_, _) => None
  {
    var init := script[..|script| - 1];
    if k < |init| {
      SeenExactly(live, init, k);
      assert init[..k] == script[..k];
    }
  }

  /** Any script of commands on a new client behaves as if the key were a plain value: no
      operation and no holder of an exported copy, whatever it writes into it, can change
      the live key. */
  method Drive(script: seq<Command>) returns (seen: seq<Option<Bytes>>)
    ensures seen == Run(None, script).1
  {
    var client := new Client();
    var exported: seq<array<Byte>> := [];
    seen := [];
    for k := 0 to |script|
      invariant fresh(client) && client.Valid() && (client.cek != null ==> fresh(client.cek))
      invariant forall c :: c in exported ==> c in client.copies && fresh(c)
      invariant (client.LiveKey(), seen) == Run(None, script[..k])
    {
      assert script[..k + 1][..k] == script[..k];
      var s: Option<Bytes> := None;
      match script[k] {
        case DoUnlock(derived) =>
          var ok := client.Unlock(derived);
          if ok {
            s := derived;
          }
        case DoLock =>
          client.Lock();
        case DoOperation =>
          s := client.Operation();
        case DoExport =>
          var copy := client.GetCek();
          if copy.Some? {
            s := Some(copy.value[..]);
            exported := exported + [copy.value];
          }
        case Scribble(n, b) =>
          if n < |exported| {
            var a := exported[n];
            assert a in exported;
            for i := 0 to a.Length
              invariant client.LiveKey() == Run(None, script[..k]).0
              modifies a
            {
              a[i] := b;
            }
          }
      }
      seen := seen + [s];
    }
    assert script[..|script|] == script;
  }

  /** After a lock every operation fails, until a derivation succeeds. */
  lemma {:induction false} LockedUntilUnlocked(live: Option<Bytes>, before: seq<Command>, after: seq<Command>)
    requires forall c :: c in after && c.DoUnlock? ==> c.derived.None?
    ensures var script := before + [DoLock] + after;
      && Run(live, script).0 == None
      && forall k :: |before| <= k < |script| ==> Run(live, script).1[k] == None
    decreases |after|
  {
    if after == [] {
      assert before + [DoLock] + after == before + [DoLock];
      assert (before + [DoLock])[..|before|] == before;
    } else {
      var init := after[..|after| - 1];
      LockedUntilUnlocked(live, before, init);
      assert (before + [DoLock] + after)[..|before| + |after|] == before + [DoLock] + init;
      assert after[|after| - 1] in after;
    }
  }
}
