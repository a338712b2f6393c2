/** How a secret's coordinates become storage keys. Every secret owns one key in each of
    three families that share a single key-value store. */
module KeyLayout {
  import opened Text
  import opened BigEndian

  datatype Triple = Triple(path: string, env: string, name: string)

  /** The part of the key after the family prefix: `{path}/{env}/{name}`. */
  function Rel(t: Triple): string {
    t.path + ['/'] + t.env + ['/'] + t.name
  }

  /** `parseSecretRelKey`: the last segment is the name, the one before it the env. */
  function ParseRel(rel: string): (r: Option<Triple>)
    ensures r.Some? ==> Rel(r.value) == rel && Parsable(r.value)
  {
    var ls := LastIndex(rel, '/');
    if ls < 0 then None
    else
      var name, head := rel[ls + 1..], rel[..ls];
      var es := LastIndex(head, '/');
      if es < 0 then None
      else
        var env, path := head[es + 1..], head[..es];
        assert rel == head + ['/'] + name && head == path + ['/'] + env;
        if path == "" || env == "" || name == "" then None
        else Some(Triple(path, env, name))
  }

  /** The coordinates that survive printing. */
  predicate Parsable(t: Triple) {
    t.path != "" && t.env != "" && t.name != "" && '/' !in t.env && '/' !in t.name
  }

  /** Parsing undoes printing for exactly the parsable coordinates. */
  lemma ParseOfRel(t: Triple)
    ensures ParseRel(Rel(t)) == Some(t) <==> Parsable(t)
  {
    if Parsable(t) {
      LastIndexOfJoined(t.path + ['/'] + t.env, '/', t.name);
      LastIndexOfJoined(t.path, '/', t.env);
    }
  }

  /** Printing is injective on slash-free env and name, whatever the path. */
  lemma RelInjective(t: Triple, u: Triple)
    requires '/' !in t.env && '/' !in t.name && '/' !in u.env && '/' !in u.name
    ensures Rel(t) == Rel(u) <==> t == u
  {
    LastIndexOfJoined(t.path + ['/'] + t.env, '/', t.name);
    LastIndexOfJoined(t.path, '/', t.env);
    LastIndexOfJoined(u.path + ['/'] + u.env, '/', u.name);
    LastIndexOfJoined(u.path, '/', u.env);
  }

  datatype Family = Secrets | Versions | Mtimes

  function Prefix(f: Family): string {
    match f
    case Secrets => "kms/secrets/"
    case Versions => "kms/versions/"
    case Mtimes => "kms/mtimes/"
  }

  /** `store.secretKey`, `versionKey` and `mtimeKey`. */
  function DbKey(f: Family, rel: string): string {
    Prefix(f) + rel
  }

  /** The full keys of a secret, its version and its update time. */
  lemma StorageKeys(t: Triple)
    ensures DbKey(Secrets, Rel(t)) == "kms/secrets/" + t.path + "/" + t.env + "/" + t.name
    ensures DbKey(Versions, Rel(t)) == "kms/versions/" + t.path + "/" + t.env + "/" + t.name
    ensures DbKey(Mtimes, Rel(t)) == "kms/mtimes/" + t.path + "/" + t.env + "/" + t.name
  {
  }

  /** The families never meet and no key is shared inside one of them. */
  lemma DbKeyInjective(f: Family, k: string, g: Family, l: string)
    ensures DbKey(f, k) == DbKey(g, l) <==> f == g && k == l
  {
    assert DbKey(f, k)[4] == Prefix(f)[4] && DbKey(g, l)[4] == Prefix(g)[4];
    assert DbKey(f, k)[|Prefix(f)|..] == k && DbKey(g, l)[|Prefix(g)|..] == l;
  }

  /** Distinct parsable coordinates never share a secret, version or mtime key. */
  lemma DistinctCoordinatesDistinctKeys(f: Family, t: Triple, g: Family, u: Triple)
    requires Parsable(t) && Parsable(u)
    ensures DbKey(f, Rel(t)) == DbKey(g, Rel(u)) <==> f == g && t == u
  {
    DbKeyInjective(f, Rel(t), g, Rel(u));
    RelInjective(t, u);
  }

  /** Coordinates without any slash. */
  predicate SlashFree(t: Triple) {
    '/' !in t.path && '/' !in t.env && '/' !in t.name
  }

  /** Coordinates have their keys to themselves iff none of the three holds a slash; a slash
      in the path alone is already enough for another writer to meet them. */
  lemma KeysUnsharedExactly(t: Triple)
    ensures (forall u :: Rel(u) == Rel(t) ==> u == t) <==> SlashFree(t)
  {
    if SlashFree(t) {
      forall u | Rel(u) == Rel(t) ensures u == t {
        ThreeParts(t, u);
      }
    } else {
      var u := Collide(t);
      assert u != t;
    }
  }

  lemma PartsOfRel(t: Triple)
    ensures Split(Rel(t), '/') == Split(t.path, '/') + Split(t.env, '/') + Split(t.name, '/')
  {
    SplitOfConcat(t.path + ['/'] + t.env, '/', t.name);
    SplitOfConcat(t.path, '/', t.env);
  }

  lemma ThreeParts(t: Triple, u: Triple)
    requires SlashFree(t) && Rel(u) == Rel(t)
    ensures u == t
  {
    PartsOfRel(t);
    PartsOfRel(u);
    Singles([t.path], [t.env], [t.name], Split(u.path, '/'), Split(u.env, '/'), Split(u.name, '/'));
  }

  lemma Singles<T>(a: seq<T>, b: seq<T>, c: seq<T>, p: seq<T>, q: seq<T>, r: seq<T>)
    requires |a| == |b| == |c| == 1 && p != [] && q != [] && r != []
    requires p + q + r == a + b + c
    ensures p == a && q == b && r == c
  {
    assert |p + q + r| == 3;
    assert (p + q + r)[0] == p[0] && (p + q + r)[1] == q[0] && (p + q + r)[2] == r[0];
  }

  /** The same key under other coordinates. */
  lemma Collide(t: Triple) returns (u: Triple)
    requires !SlashFree(t)
    ensures Rel(u) == Rel(t) && |u.path| != |t.path|
  {
    if '/' in t.name {
      var x, y := FirstCut(t.name, '/');
      u := Triple(t.path + ['/'] + t.env, x, y);
      Shift(t.path, t.env, x, y);
    } else if '/' in t.env {
      var x, y := FirstCut(t.env, '/');
      u := Triple(t.path + ['/'] + x, y, t.name);
      assert t.path + ['/'] + (x + ['/'] + y) == t.path + ['/'] + x + ['/'] + y;
    } else {
      var x, y := FirstCut(t.path, '/');
      u := Triple(x, y, t.env + ['/'] + t.name);
      Shift(x, y, t.env, t.name);
    }
  }

  lemma Shift(a: string, b: string, c: string, d: string)
    ensures Rel(Triple(a, b, c + ['/'] + d)) == Rel(Triple(a + ['/'] + b, c, d))
  {
  }

  /** The store split by family, each family keyed by the relative key. */
  datatype Db = Db(secrets: map<string, Bytes>, versions: map<string, Bytes>, mtimes: map<string, Bytes>)

  type Data = map<string, Bytes>

  function FamilyOf(data: Data, f: Family): map<string, Bytes> {
    map key | key in data && Prefix(f) <= key && key == DbKey(f, key[|Prefix(f)|..]) :: key[|Prefix(f)|..] := data[key]
  }

  function Families(data: Data): Db {
    Db(FamilyOf(data, Secrets), FamilyOf(data, Versions), FamilyOf(data, Mtimes))
  }

  lemma FamilyLookup(data: Data, f: Family, rel: string)
    ensures rel in FamilyOf(data, f) <==> DbKey(f, rel) in data
    ensures rel in FamilyOf(data, f) ==> FamilyOf(data, f)[rel] == data[DbKey(f, rel)]
  {
    var key := DbKey(f, rel);
    assert Prefix(f) <= key && key[|Prefix(f)|..] == rel;
  }

  /** Setting one storage key touches one family at one relative key. */
  lemma FamilyPut(data: Data, f: Family, rel: string, b: Bytes, g: Family)
    ensures FamilyOf(data[DbKey(f, rel) := b], g)
         == if f == g then FamilyOf(data, g)[rel := b] else FamilyOf(data, g)
  {
    var after := data[DbKey(f, rel) := b];
    var want := if f == g then FamilyOf(data, g)[rel := b] else FamilyOf(data, g);
    forall l ensures (l in FamilyOf(after, g) <==> l in want) && (l in want ==> FamilyOf(after, g)[l] == want[l]) {
      FamilyLookup(after, g, l);
      FamilyLookup(data, g, l);
      DbKeyInjective(f, rel, g, l);
    }
  }

  /** Deleting one storage key removes one relative key from one family. */
  lemma FamilyDelete(data: Data, f: Family, rel: string, g: Family)
    ensures FamilyOf(data - {DbKey(f, rel)}, g)
         == if f == g then FamilyOf(data, g) - {rel} else FamilyOf(data, g)
  {
    var after := data - {DbKey(f, rel)};
    var want := if f == g then FamilyOf(data, g) - {rel} else FamilyOf(data, g);
    forall l ensures (l in FamilyOf(after, g) <==> l in want) && (l in want ==> FamilyOf(after, g)[l] == want[l]) {
      FamilyLookup(after, g, l);
      FamilyLookup(data, g, l);
      DbKeyInjective(f, rel, g, l);
    }
  }
}
