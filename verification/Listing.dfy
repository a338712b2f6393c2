/** The metadata listing: a keys-only scan under an organisation's namespace. */
module Listing {
  import opened Text
  import opened BigEndian
  import opened KeyLayout
  import opened Requests
  import opened Transactions

  const MAX_ROWS: nat := 10000

  /** One row; `updated` is `None` when no positive update time is recorded. */
  datatype Row = Row(triple: Triple, version: Int64, updated: Option<Int64>)

  /** The order of the store's keys. */
  predicate Less(a: string, b: string) {
    b != [] && (a == [] || a[0] < b[0] || (a[0] == b[0] && Less(a[1..], b[1..])))
  }

  lemma {:induction false} LessIrreflexive(a: string)
    ensures !Less(a, a)
  {
    if a != [] {
      LessIrreflexive(a[1..]);
    }
  }

  /** The order is that of the first differing character, a prefix coming first. */
  lemma {:induction false} LessExactly(a: string, b: string)
    ensures Less(a, b) <==>
      || (|a| < |b| && a == b[..|a|])
      || exists i :: 0 <= i < |a| && i < |b| && a[..i] == b[..i] && a[i] < b[i]
  {
    if a != [] && b != [] {
      var x, y := a[1..], b[1..];
      LessExactly(x, y);
      if a[0] == b[0] {
        SameHead(a, b);
      } else {
        assert a[..0] == b[..0];
        assert forall i :: 0 < i < |a| && i < |b| ==> a[..i][0] == a[0] && b[..i][0] == b[0];
        assert |a| <= |b| ==> b[..|a|][0] == b[0];
      }
    }
  }

  lemma SameHead(a: string, b: string)
    requires a != [] && b != [] && a[0] == b[0]
    ensures |a| <= |b| ==> (a == b[..|a|] <==> a[1..] == b[1..][..|a| - 1])
    ensures (exists i :: 0 <= i < |a| && i < |b| && a[..i] == b[..i] && a[i] < b[i]) <==>
      (exists i :: 0 <= i < |a[1..]| && i < |b[1..]| && a[1..][..i] == b[1..][..i] && a[1..][i] < b[1..][i])
  {
    var x, y := a[1..], b[1..];
    assert a == [a[0]] + x && b == [a[0]] + y;
    if |a| <= |b| {
      assert b[..|a|] == [a[0]] + y[..|a| - 1];
    }
    forall i | 0 < i < |a| && i < |b| ensures a[..i] == b[..i] <==> x[..i - 1] == y[..i - 1] {
      assert a[..i] == [a[0]] + x[..i - 1] && b[..i] == [a[0]] + y[..i - 1];
      assert a[..i][1..] == x[..i - 1] && b[..i][1..] == y[..i - 1];
    }
    if i :| 0 <= i < |a| && i < |b| && a[..i] == b[..i] && a[i] < b[i] {
      assert i > 0;
      assert x[..i - 1] == y[..i - 1] && x[i - 1] < y[i - 1];
    }
    if i :| 0 <= i < |x| && i < |y| && x[..i] == y[..i] && x[i] < y[i] {
      assert a[..i + 1] == b[..i + 1] && a[i + 1] < b[i + 1];
    }
  }

  // ----- filtering an ordered sequence -----

  predicate Ascending(keys: seq<string>, less: (string, string) -> bool) {
    forall i, j :: 0 <= i < j < |keys| ==> less(keys[i], keys[j])
  }

  function Filter(keys: seq<string>, p: string -> bool): seq<string> {
    if keys == [] then []
    else
      var before, k := Filter(keys[..|keys| - 1], p), keys[|keys| - 1];
      if p(k) then before + [k] else before
  }

  lemma {:induction false} FilterExactly(keys: seq<string>, p: string -> bool, less: (string, string) -> bool)
    ensures forall k :: k in Filter(keys, p) <==> k in keys && p(k)
    ensures Ascending(keys, less) ==> Ascending(Filter(keys, p), less)
  {
    if keys != [] {
      var init, last := keys[..|keys| - 1], keys[|keys| - 1];
      var before := Filter(init, p);
      FilterExactly(init, p, less);
      assert keys == init + [last];
      if Ascending(keys, less) {
        assert Ascending(init, less);
        forall i | 0 <= i < |before| ensures less(before[i], last) {
          assert before[i] in before;
          assert before[i] in init;
        }
      }
    }
  }

  /** Filtering more keys only appends. */
  lemma {:induction false} FilterGrows(keys: seq<string>, n: nat, p: string -> bool)
    requires n <= |keys|
    ensures Filter(keys[..n], p) <= Filter(keys, p)
  {
    if n == |keys| {
      assert keys[..n] == keys;
    } else {
      var init := keys[..|keys| - 1];
      FilterGrows(init, n, p);
      assert init[..n] == keys[..n];
    }
  }

  lemma {:induction false} AscendingCount(keys: seq<string>, less: (string, string) -> bool)
    requires Ascending(keys, less) && forall k :: k in keys ==> !less(k, k)
    ensures |set k | k in keys| == |keys|
  {
    if keys == [] {
      assert (set k | k in keys) == {};
    } else {
      var init, last := keys[..|keys| - 1], keys[|keys| - 1];
      AscendingCount(init, less);
      assert last in keys && last !in init;
      assert keys == init + [last];
      assert (set k | k in keys) == (set k | k in init) + {last};
    }
  }

  /** `first` are the first elements of `m` in the given order, at most `cap` of them, and
      `truncated` says whether some of `m` are missing. */
  ghost predicate FirstOf(first: seq<string>, truncated: bool, m: set<string>, cap: nat,
                          less: (string, string) -> bool) {
    && |first| == (if |m| < cap then |m| else cap)
    && (truncated <==> |m| > cap)
    && (forall i :: 0 <= i < |first| ==> first[i] in m)
    && Ascending(first, less)
    && (forall k :: k in m ==> k in first || forall i :: 0 <= i < |first| ==> less(first[i], k))
  }

  lemma PrefixIsFirst(f: seq<string>, n: nat, m: set<string>, cap: nat, less: (string, string) -> bool)
    requires Ascending(f, less) && |f| == |m| && forall k :: k in f <==> k in m
    requires n == if |f| < cap then |f| else cap
    ensures FirstOf(f[..n], |f| > cap, m, cap, less)
  {
    forall k | k in m ensures k in f[..n] || forall i :: 0 <= i < n ==> less(f[..n][i], k) {
      var j :| 0 <= j < |f| && f[j] == k;
      if j < n {
        assert f[..n][j] == k;
      }
    }
  }

  // ----- the scan -----

  function ScanPrefix(listPath: string): string {
    DbKey(Secrets, listPath + ['/'])
  }

  /** What the store's iterator yields: the keys with the prefix, in ascending order. */
  ghost predicate IsScan(keys: seq<string>, data: Data, prefix: string) {
    && Ascending(keys, Less)
    && (forall k :: k in keys <==> k in data && prefix <= k)
  }

  /** The relative key of a key under the secrets prefix. */
  function RelOf(key: string): string {
    if Prefix(Secrets) <= key then key[|Prefix(Secrets)|..] else key
  }

  /** The keys a listing is about. */
  predicate Matches(key: string, listPath: string, envFilter: string) {
    && ScanPrefix(listPath) <= key
    && ParseRel(RelOf(key)).Some?
    && (envFilter == "" || ParseRel(RelOf(key)).value.env == envFilter)
  }

  function Matcher(listPath: string, envFilter: string): string -> bool {
    k => Matches(k, listPath, envFilter)
  }

  function Matching(data: Data, listPath: string, envFilter: string): set<string> {
    set k | k in data && Matches(k, listPath, envFilter)
  }

  /** The keys a listing is about, said outright: those of the coordinates with three non-empty
      parts, environment and name without a slash, that lie under the listed path and a
      slash, in the filtered environment if there is a filter. */
  lemma MatchesExactly(key: string, listPath: string, envFilter: string)
    ensures Matches(key, listPath, envFilter) <==>
      exists path, env, name ::
        && key == "kms/secrets/" + path + "/" + env + "/" + name
        && path != "" && env != "" && name != "" && '/' !in env && '/' !in name
        && "kms/secrets/" + listPath + "/" <= key
        && (envFilter != "" ==> env == envFilter)
  {
    PrefixSpelled(listPath);
    if Matches(key, listPath, envFilter) {
      var t := ParseRel(RelOf(key)).value;
      KeyOfRel(key, listPath);
      StorageKeys(t);
    }
    forall path, env, name |
      && key == "kms/secrets/" + path + "/" + env + "/" + name
      && path != "" && env != "" && name != "" && '/' !in env && '/' !in name
      && "kms/secrets/" + listPath + "/" <= key
      && (envFilter != "" ==> env == envFilter)
      ensures Matches(key, listPath, envFilter)
    {
      var t := Triple(path, env, name);
      StorageKeys(t);
      ParseOfRel(t);
    }
  }

  lemma PrefixSpelled(listPath: string)
    ensures ScanPrefix(listPath) == "kms/secrets/" + listPath + "/"
  {
    assert Prefix(Secrets) + (listPath + ['/']) == "kms/secrets/" + listPath + "/";
  }

  lemma FilterIsMatching(keys: seq<string>, data: Data, listPath: string, envFilter: string)
    requires IsScan(keys, data, ScanPrefix(listPath))
    ensures var f := Filter(keys, Matcher(listPath, envFilter));
      && Ascending(f, Less) && |f| == |Matching(data, listPath, envFilter)|
      && forall k :: k in f <==> k in Matching(data, listPath, envFilter)
  {
    var f := Filter(keys, Matcher(listPath, envFilter));
    FilterExactly(keys, Matcher(listPath, envFilter), Less);
    forall k | k in f ensures !Less(k, k) {
      LessIrreflexive(k);
    }
    AscendingCount(f, Less);
    assert (set k | k in f) == Matching(data, listPath, envFilter);
  }

  /** The storage key a row describes. */
  function RowKey(row: Row): string {
    DbKey(Secrets, Rel(row.triple))
  }

  /** The store as the scan sees it, and as each row's later reads of version and update time
      see it; a read that fails sees what an empty store would show. */
  datatype Reads = Reads(version: Data, mtime: Data)

  /** The row of a secret. */
  function RowFor(at: Reads, t: Triple): Row {
    var ns := NumberOrZero(FamilyOf(at.mtime, Mtimes), Rel(t));
    Row(t, NumberOrZero(FamilyOf(at.version, Versions), Rel(t)), if ns > 0 then Some(ns) else None)
  }

  /** The storage keys the rows describe, in order. */
  function RowKeys(rows: seq<Row>): (keys: seq<string>)
    ensures |keys| == |rows|
  {
    if rows == [] then [] else RowKeys(rows[..|rows| - 1]) + [RowKey(rows[|rows| - 1])]
  }

  /** The number that the store holds under a full key, zero when there is no well-formed
      record. */
  predicate Says(data: Data, key: string, v: Int64) {
    if key in data && |data[key]| == 8 then data[key] == EncodeInt64(v) else v == 0
  }

  /** The version and the update time of the row's own key, the time only if it is positive. */
  ghost predicate OwnNumber(row: Row, at: Reads) {
    var rel := row.triple.path + "/" + row.triple.env + "/" + row.triple.name;
    && Says(at.version, "kms/versions/" + rel, row.version)
    && exists ns :: Says(at.mtime, "kms/mtimes/" + rel, ns) && row.updated == if ns > 0 then Some(ns) else None
  }

  /** Every row carries the version and the update time of its own key, as they were when
      that row's counters were read. */
  ghost predicate OwnNumbers(rows: seq<Row>, later: nat -> Reads) {
    forall i :: 0 <= i < |rows| ==> OwnNumber(rows[i], later(i))
  }

  lemma NumberIsSaid(data: Data, f: Family, rel: string)
    ensures Says(data, DbKey(f, rel), NumberOrZero(FamilyOf(data, f), rel))
  {
    FamilyLookup(data, f, rel);
    if DbKey(f, rel) in data && |data[DbKey(f, rel)]| == 8 {
      RecordRoundTrip(data[DbKey(f, rel)]);
    }
  }

  lemma RowForIsOwn(at: Reads, t: Triple)
    ensures OwnNumber(RowFor(at, t), at)
  {
    StorageKeys(t);
    NumberIsSaid(at.version, Versions, Rel(t));
    NumberIsSaid(at.mtime, Mtimes, Rel(t));
    var ns := NumberOrZero(FamilyOf(at.mtime, Mtimes), Rel(t));
    assert Says(at.mtime, "kms/mtimes/" + (t.path + "/" + t.env + "/" + t.name), ns);
  }

  lemma RowsAreOwn(later: nat -> Reads, refs: seq<Triple>)
    ensures OwnNumbers(RowsFor(later, refs), later)
  {
    forall i | 0 <= i < |refs| ensures OwnNumber(RowsFor(later, refs)[i], later(i)) {
      RowsAt(later, refs, i);
      RowForIsOwn(later(i), refs[i]);
    }
  }

  /** `listSecretMetadata`: collect the coordinates in key order, stop at the cap, then
      look up version and update time of each, every time in the store of that moment. */
  method List(data: Data, keys: seq<string>, listPath: string, envFilter: string, later: nat -> Reads)
    returns (rows: seq<Row>, truncated: bool)
    requires IsScan(keys, data, ScanPrefix(listPath))
    ensures FirstOf(RowKeys(rows), truncated, Matching(data, listPath, envFilter), 10000, Less)
    ensures OwnNumbers(rows, later)
  {
    var refs;
    refs, truncated := Collect(keys, listPath, envFilter);
    rows := Enrich(refs, later);
    ListCorrect(refs, truncated, data, keys, listPath, envFilter, later);
  }

  lemma ListCorrect(refs: seq<Triple>, truncated: bool, data: Data, keys: seq<string>,
                    listPath: string, envFilter: string, later: nat -> Reads)
    requires IsScan(keys, data, ScanPrefix(listPath))
    requires Collected(refs, truncated, Filter(keys, Matcher(listPath, envFilter)))
    ensures FirstOf(RowKeys(RowsFor(later, refs)), truncated, Matching(data, listPath, envFilter), MAX_ROWS, Less)
    ensures OwnNumbers(RowsFor(later, refs), later)
  {
    FilterIsMatching(keys, data, listPath, envFilter);
    PrefixIsFirst(Filter(keys, Matcher(listPath, envFilter)), |refs|, Matching(data, listPath, envFilter),
      MAX_ROWS, Less);
    RowKeysOfRowsFor(later, refs);
    RowsAreOwn(later, refs);
  }

  /** The secret keys of the given coordinates. */
  function KeysOf(refs: seq<Triple>): (keys: seq<string>)
    ensures |keys| == |refs|
  {
    if refs == [] then [] else KeysOf(refs[..|refs| - 1]) + [DbKey(Secrets, Rel(refs[|refs| - 1]))]
  }

  lemma {:induction false} RowKeysOfRowsFor(later: nat -> Reads, refs: seq<Triple>)
    ensures RowKeys(RowsFor(later, refs)) == KeysOf(refs)
  {
    if refs != [] {
      var init := refs[..|refs| - 1];
      RowKeysOfRowsFor(later, init);
      assert RowsFor(later, refs)[..|init|] == RowsFor(later, init);
    }
  }

  /** The number in a record of the store, zero when it is absent or malformed. */
  method ReadNumber(data: Data, f: Family, rel: string) returns (v: Int64)
    ensures v == NumberOrZero(FamilyOf(data, f), rel)
  {
    FamilyLookup(data, f, rel);
    var key := DbKey(f, rel);
    v := 0;
    if key in data && |data[key]| == 8 {
      v := DecodeInt64(data[key]);
    }
  }

  function RowsFor(later: nat -> Reads, refs: seq<Triple>): (rows: seq<Row>)
    ensures |rows| == |refs|
  {
    if refs == [] then []
    else RowsFor(later, refs[..|refs| - 1]) + [RowFor(later(|refs| - 1), refs[|refs| - 1])]
  }

  lemma {:induction false} RowsAt(later: nat -> Reads, refs: seq<Triple>, i: nat)
    requires i < |refs|
    ensures RowsFor(later, refs)[i] == RowFor(later(i), refs[i])
  {
    if i < |refs| - 1 {
      RowsAt(later, refs[..|refs| - 1], i);
    }
  }

  lemma RowsNext(later: nat -> Reads, refs: seq<Triple>, n: nat)
    requires n < |refs|
    ensures RowsFor(later, refs[..n + 1]) == RowsFor(later, refs[..n]) + [RowFor(later(n), refs[n])]
  {
    assert refs[..n + 1][..n] == refs[..n];
  }

  method ReadRow(at: Reads, t: Triple) returns (row: Row)
    ensures row == RowFor(at, t)
  {
    var ver := ReadNumber(at.version, Versions, Rel(t));
    var ns := ReadNumber(at.mtime, Mtimes, Rel(t));
    row := Row(t, ver, if ns > 0 then Some(ns) else None);
  }

  /** The second phase: version and update time of each collected secret. */
  method Enrich(refs: seq<Triple>, later: nat -> Reads) returns (rows: seq<Row>)
    ensures rows == RowsFor(later, refs)
    ensures OwnNumbers(rows, later)
  {
    RowsAreOwn(later, refs);
    rows := [];
    for n := 0 to |refs|
      invariant rows == RowsFor(later, refs[..n])
    {
      var row := ReadRow(later(n), refs[n]);
      RowsNext(later, refs, n);
      rows := rows + [row];
    }
    assert refs[..|refs|] == refs;
  }

  lemma KeyOfRel(key: string, listPath: string)
    requires ScanPrefix(listPath) <= key
    ensures DbKey(Secrets, RelOf(key)) == key
  {
    assert Prefix(Secrets) <= ScanPrefix(listPath);
    assert Prefix(Secrets) <= key;
  }

  /** The coordinates of a scanned key that parses and passes the environment filter. */
  function Candidate(key: string, envFilter: string): Option<Triple> {
    var t := ParseRel(RelOf(key));
    if t.None? || (envFilter != "" && t.value.env != envFilter) then None else t
  }

  /** The collected coordinates are those of the first matching keys, up to the cap. */
  predicate Collected(refs: seq<Triple>, truncated: bool, f: seq<string>) {
    && |refs| == (if |f| < MAX_ROWS then |f| else MAX_ROWS)
    && (truncated <==> |f| > MAX_ROWS)
    && KeysOf(refs) == f[..|refs|]
  }

  /** After `n` scanned keys everything that matched has been collected. */
  predicate SoFar(refs: seq<Triple>, keys: seq<string>, n: nat, listPath: string, envFilter: string) {
    n <= |keys| && |refs| <= MAX_ROWS && KeysOf(refs) == Filter(keys[..n], Matcher(listPath, envFilter))
  }

  /** The first phase: the scan. */
  method Collect(keys: seq<string>, listPath: string, envFilter: string)
    returns (refs: seq<Triple>, truncated: bool)
    requires forall k :: k in keys ==> ScanPrefix(listPath) <= k
    ensures Collected(refs, truncated, Filter(keys, Matcher(listPath, envFilter)))
  {
    refs := [];
    for n := 0 to |keys|
      invariant SoFar(refs, keys, n, listPath, envFilter)
    {
      var t := Candidate(keys[n], envFilter);
      assert keys[n] in keys;
      ScanNext(refs, keys, n, listPath, envFilter);
      if t.Some? {
        if |refs| >= MAX_ROWS {
          return refs, true;
        }
        refs := refs + [t.value];
      }
    }
    truncated := false;
    assert keys[..|keys|] == keys;
  }

  lemma ScanNext(refs: seq<Triple>, keys: seq<string>, n: nat, listPath: string, envFilter: string)
    requires n < |keys| && ScanPrefix(listPath) <= keys[n] && SoFar(refs, keys, n, listPath, envFilter)
    ensures var t := Candidate(keys[n], envFilter);
      && (t.None? ==> SoFar(refs, keys, n + 1, listPath, envFilter))
      && (t.Some? && |refs| < MAX_ROWS ==> SoFar(refs + [t.value], keys, n + 1, listPath, envFilter))
      && (t.Some? && |refs| >= MAX_ROWS ==> Collected(refs, true, Filter(keys, Matcher(listPath, envFilter))))
  {
    var t := Candidate(keys[n], envFilter);
    FilterNext(keys, n, listPath, envFilter);
    if t.Some? {
      KeysNext(refs, t.value);
      if |refs| >= MAX_ROWS {
        FilterGrows(keys, n + 1, Matcher(listPath, envFilter));
        CutOff(refs, DbKey(Secrets, Rel(t.value)), Filter(keys, Matcher(listPath, envFilter)));
      }
    }
  }

  lemma CutOff(refs: seq<Triple>, key: string, f: seq<string>)
    requires |refs| == MAX_ROWS && KeysOf(refs) + [key] <= f
    ensures Collected(refs, true, f)
  {
    assert f[..|refs|] == (KeysOf(refs) + [key])[..|refs|];
  }

  lemma KeysNext(refs: seq<Triple>, t: Triple)
    ensures KeysOf(refs + [t]) == KeysOf(refs) + [DbKey(Secrets, Rel(t))]
  {
    assert (refs + [t])[..|refs|] == refs;
  }

  /** One more scanned key adds itself iff it is a candidate. */
  lemma FilterNext(keys: seq<string>, n: nat, listPath: string, envFilter: string)
    requires n < |keys| && ScanPrefix(listPath) <= keys[n]
    ensures var before, t := Filter(keys[..n], Matcher(listPath, envFilter)), Candidate(keys[n], envFilter);
      Filter(keys[..n + 1], Matcher(listPath, envFilter)) ==
        if t.None? then before else before + [DbKey(Secrets, Rel(t.value))]
  {
    assert keys[..n + 1][..n] == keys[..n];
    KeyOfRel(keys[n], listPath);
  }

  // ----- confinement to the organisation -----

  datatype Scope = Refused(status: nat) | Scan(listPath: string)

  function OrgRoot(org: string): string {
    "brand/" + org
  }

  /** The path that organisation and prefix lead to. */
  function PrefixScope(org: string, prefix: string): Scope {
    if !SafePath(org) then Refused(400)
    else if prefix == "" then Scan(OrgRoot(org))
    else
      var qp := if prefix[|prefix| - 1] == '/' then prefix[..|prefix| - 1] else prefix;
      if qp == "" || !SafePath(qp) then Refused(400)
      else if qp != OrgRoot(org) && !(OrgRoot(org) + ['/'] <= qp) then Refused(403)
      else Scan(qp)
  }

  predicate FilterOk(envFilter: string) {
    envFilter == "" || (SafePath(envFilter) && '/' !in envFilter)
  }

  /** What the list handler scans, or the status it refuses with. */
  function Resolve(org: string, prefix: string, envFilter: string): Scope {
    var scope := PrefixScope(org, prefix);
    if scope.Scan? && !FilterOk(envFilter) then Refused(400) else scope
  }

  lemma PrefixScopeExactly(org: string, prefix: string, lp: string)
    ensures PrefixScope(org, prefix) == Scan(lp) <==>
      && SafePath(org)
      && (if prefix == "" then lp == OrgRoot(org)
          else lp != "" && SafePath(lp) && Under(lp, OrgRoot(org)) && (prefix == lp || prefix == lp + ['/']))
  {
    if lp != "" && SafePath(lp) {
      NoTrailingSlash(lp);
    }
    assert (lp + ['/'])[..|lp|] == lp;
  }

  /** A listing scans the organisation's root or, when a prefix is given, that prefix with at
      most one trailing slash dropped, if it is safe and under the root; nothing else. */
  lemma ResolveExactly(org: string, prefix: string, envFilter: string, lp: string)
    ensures Resolve(org, prefix, envFilter) == Scan(lp) <==>
      && SafePath(org) && (envFilter != "" ==> SafePath(envFilter) && '/' !in envFilter)
      && (if prefix == "" then lp == OrgRoot(org)
          else lp != "" && SafePath(lp) && Under(lp, OrgRoot(org)) && (prefix == lp || prefix == lp + ['/']))
  {
    PrefixScopeExactly(org, prefix, lp);
  }

  /** With which status everything else is refused: 403 iff organisation and prefix are safe and
      the prefix lies outside the organisation's root, 400 otherwise. */
  lemma RefusedScopeExactly(org: string, prefix: string, envFilter: string)
    ensures var qp := if prefix != "" && prefix[|prefix| - 1] == '/' then prefix[..|prefix| - 1] else prefix;
      && (Resolve(org, prefix, envFilter) == Refused(403) <==>
            SafePath(org) && prefix != "" && qp != "" && SafePath(qp) && !Under(qp, "brand/" + org))
      && (Resolve(org, prefix, envFilter).Refused? ==> Resolve(org, prefix, envFilter).status in {400, 403})
  {
  }

  lemma NoTrailingSlash(lp: string)
    requires lp != "" && SafePath(lp)
    ensures lp[|lp| - 1] != '/'
  {
    if lp[|lp| - 1] == '/' {
      assert lp == lp[..|lp| - 1] + ['/'] + "";
      SafePathSplits(lp[..|lp| - 1], "");
    }
  }

  /** What every key of an organisation's listing begins with. */
  function RootKey(org: string): string {
    DbKey(Secrets, OrgRoot(org) + ['/'])
  }

  predicate Visible(org: string, key: string) {
    RootKey(org) <= key
  }

  lemma ScopeUnderRoot(org: string, prefix: string)
    requires PrefixScope(org, prefix).Scan?
    ensures OrgRoot(org) + ['/'] <= PrefixScope(org, prefix).listPath + ['/']
  {
  }

  /** Every key of every listing granted to an organisation lies under that organisation's
      root. */
  lemma ListingConfined(org: string, prefix: string, envFilter: string, listPath: string, key: string)
    ensures Resolve(org, prefix, envFilter) == Scan(listPath) && Matches(key, listPath, envFilter) ==>
      Visible(org, key) && "kms/secrets/brand/" + org + "/" <= key
  {
    if Resolve(org, prefix, envFilter) == Scan(listPath) && Matches(key, listPath, envFilter) {
      ScopeUnderRoot(org, prefix);
      PrefixesChain(OrgRoot(org) + ['/'], listPath + ['/'], key);
      RootSpelled(org);
    }
  }

  lemma RootSpelled(org: string)
    ensures RootKey(org) == "kms/secrets/brand/" + org + "/"
  {
  }

  lemma PrefixesChain(a: string, b: string, key: string)
    requires a <= b && DbKey(Secrets, b) <= key
    ensures DbKey(Secrets, a) <= key
  {
    assert DbKey(Secrets, a) <= DbKey(Secrets, b);
  }

  /** The listings of two organisations can meet in a key exactly when the names are equal or
      one continues the other after a slash, which the path check on the organisation lets
      through when the slash arrives percent-encoded. */
  lemma ListingsDisjoint(org: string, other: string)
    ensures (forall key :: !(Visible(org, key) && Visible(other, key))) <==>
      org != other && !(org + ['/'] <= other) && !(other + ['/'] <= org)
  {
    if org == other || org + ['/'] <= other {
      Extends(org, other);
      assert Visible(org, RootKey(other)) && Visible(other, RootKey(other));
    } else if other + ['/'] <= org {
      Extends(other, org);
      assert Visible(org, RootKey(org)) && Visible(other, RootKey(org));
    }
    forall key | Visible(org, key) && Visible(other, key)
      ensures org == other || org + ['/'] <= other || other + ['/'] <= org
    {
      if |org| <= |other| {
        Meet(org, other, key);
      } else {
        Meet(other, org, key);
      }
    }
  }

  lemma Extends(org: string, other: string)
    requires org == other || org + ['/'] <= other
    ensures RootKey(org) <= RootKey(other)
  {
    assert org + ['/'] <= other + ['/'];
    PrefixesChain(OrgRoot(org) + ['/'], OrgRoot(other) + ['/'], RootKey(other));
  }

  lemma Meet(org: string, other: string, key: string)
    requires Visible(org, key) && Visible(other, key) && |org| <= |other|
    ensures org == other || org + ['/'] <= other
  {
    var n := |Prefix(Secrets)| + 6;
    assert key[n..n + |org| + 1] == org + ['/'];
    assert key[n..n + |other| + 1] == other + ['/'];
    assert org + ['/'] <= other + ['/'];
    if |org| == |other| {
      assert (org + ['/'])[..|org|] == (other + ['/'])[..|org|];
    } else {
      assert (other + ['/'])[..|org| + 1] == other[..|org| + 1];
    }
  }

  predicate Under(path: string, listPath: string) {
    path == listPath || listPath + ['/'] <= path
  }

  /** The scan confines keys, not the `path` column of its rows: a row's path lies under the
      listed path iff at least two segments follow it in the key. With a single one, the
      last segment of the listed path is read as the row's environment. */
  lemma RowPathUnderExactly(t: Triple, listPath: string, suffix: string)
    requires Parsable(t) && Rel(t) == listPath + ['/'] + suffix
    ensures Under(t.path, listPath) <==> '/' in suffix
  {
    var k := LastIndex(suffix, '/');
    if k < 0 {
      OneSegment(t, listPath, suffix);
    } else {
      assert suffix == suffix[..k] + ['/'] + suffix[k + 1..];
      MoreSegments(t, listPath, suffix[..k], suffix[k + 1..]);
    }
  }

  lemma OneSegment(t: Triple, listPath: string, name: string)
    requires '/' !in t.name && Rel(t) == listPath + ['/'] + name && '/' !in name
    ensures !Under(t.path, listPath)
  {
    LastSplitUnique(t.path + ['/'] + t.env, t.name, listPath, name, '/');
    assert |t.path| < |listPath|;
  }

  lemma MoreSegments(t: Triple, listPath: string, m: string, name: string)
    requires '/' !in t.env && '/' !in t.name && '/' !in name
    requires Rel(t) == listPath + ['/'] + (m + ['/'] + name)
    ensures Under(t.path, listPath)
  {
    assert listPath + ['/'] + (m + ['/'] + name) == (listPath + ['/'] + m) + ['/'] + name;
    LastSplitUnique(t.path + ['/'] + t.env, t.name, listPath + ['/'] + m, name, '/');
    HeadUnder(t.path, t.env, listPath, m);
  }

  lemma HeadUnder(path: string, env: string, listPath: string, m: string)
    requires '/' !in env && path + ['/'] + env == listPath + ['/'] + m
    ensures Under(path, listPath)
  {
    var j := LastIndex(m, '/');
    if j < 0 {
      LastSplitUnique(path, env, listPath, m, '/');
    } else {
      assert m == m[..j] + ['/'] + m[j + 1..];
      assert listPath + ['/'] + m == (listPath + ['/'] + m[..j]) + ['/'] + m[j + 1..];
      LastSplitUnique(path, env, listPath + ['/'] + m[..j], m[j + 1..], '/');
    }
  }
}
