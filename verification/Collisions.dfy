/** Which coordinates of an admitted POST other admitted POSTs share their key with. */
module Collisions {
  import opened Text
  import opened BigEndian
  import opened KeyLayout
  import opened Requests

  /** Two admitted POSTs with different coordinates write one key as soon as a name holds a
      slash: whatever safe, non-empty texts `path`, `env`, `x` and `y` are. The second one
      keeps environment and name free of slashes when `x` and `y` are. */
  lemma SlashInNameCollides(auth: Claims, org: string, path: string, env: string, x: string, y: string,
                            value: Bytes, other: Bytes)
    requires CanActOnOrg(auth, org)
    requires SafePath(path) && SafePath(env) && SafePath(x) && SafePath(y)
    requires path != "" && env != "" && x != "" && y != ""
    ensures var first := PostBody(path, x + ['/'] + y, env, value);
            var second := PostBody(path + ['/'] + env, y, x, other);
            var k := Rel(Triple(path, env, x + ['/'] + y));
            && (first.path, first.env, first.name) != (second.path, second.env, second.name)
            && Admit(PostRequest(Some(auth), org, Some(first))) == Accept(Post(k, value))
            && Admit(PostRequest(Some(auth), org, Some(second))) == Accept(Post(k, other))
  {
    SafePathSplits(x, y);
    SafePathSplits(path, env);
    SafeIsNotBlank(env);
    SafeIsNotBlank(x);
    Shift(path, env, x, y);
  }

  /** Coordinates that a POST can carry. */
  predicate Writable(t: Triple) {
    t.name != "" && SafePath(t.path) && SafePath(t.name) && !Blank(t.env)
  }

  lemma WritableIsAdmitted(auth: Claims, org: string, t: Triple, value: Bytes)
    requires CanActOnOrg(auth, org)
    ensures Writable(t) <==>
      Admit(PostRequest(Some(auth), org, Some(PostBody(t.path, t.name, t.env, value)))) == Accept(Post(Rel(t), value))
  {
  }

  predicate HeadAndRest(env: string, a: string, b: string) {
    env == a + ['/'] + b && SafeSegment(a) && !Blank(b)
  }

  predicate RestAndTail(env: string, a: string, b: string) {
    env == a + ['/'] + b && !Blank(a) && SafeSegment(b)
  }

  /** The environment has a first segment that another writer can take for the end of a path. */
  ghost predicate LosesHead(t: Triple) {
    t.path != "" && exists a, b :: HeadAndRest(t.env, a, b)
  }

  /** The environment has a last segment that another writer can take for the start of a name. */
  ghost predicate LosesTail(t: Triple) {
    exists a, b :: RestAndTail(t.env, a, b)
  }

  /** No other POST that the server admits writes the same key, iff neither path nor name holds
      a slash and the environment cannot give away a segment on either side. */
  lemma WriterAloneExactly(t: Triple)
    requires Writable(t)
    ensures (forall u :: Writable(u) && Rel(u) == Rel(t) ==> u == t) <==>
      '/' !in t.path && '/' !in t.name && !LosesHead(t) && !LosesTail(t)
  {
    if '/' in t.path || '/' in t.name || LosesHead(t) || LosesTail(t) {
      var u := Rival(t);
      assert u != t;
    } else {
      forall u | Writable(u) && Rel(u) == Rel(t) ensures u == t {
        NoRival(t, u);
      }
    }
  }

  // ----- a rival, where there is one -----

  lemma Rival(t: Triple) returns (u: Triple)
    requires Writable(t) && ('/' in t.path || '/' in t.name || LosesHead(t) || LosesTail(t))
    ensures Writable(u) && Rel(u) == Rel(t) && u != t
  {
    if '/' in t.path {
      u := ShorterPath(t);
    } else if '/' in t.name {
      u := ShorterName(t);
    } else if LosesHead(t) {
      u := LongerPath(t);
    } else {
      u := LongerName(t);
    }
  }

  /** The text before and after the last separator. */
  lemma LastCut(s: string, c: char) returns (a: string, b: string)
    requires c in s
    ensures c !in b && s == a + [c] + b
  {
    var i := LastIndex(s, c);
    a, b := s[..i], s[i + 1..];
  }

  lemma WiderIsNotBlank(a: string, b: string, c: string)
    requires !Blank(b)
    ensures !Blank(a + b + c)
  {
    var i: nat :| i < |b| && !IsSpace(b[i]);
    assert (a + b + c)[|a| + i] == b[i];
  }

  lemma JoinIsNotBlank(a: string, b: string)
    ensures !Blank(b) ==> !Blank(a + ['/'] + b)
    ensures !Blank(a) ==> !Blank(a + ['/'] + b)
  {
    if !Blank(b) {
      WiderIsNotBlank(a + ['/'], b, []);
      assert a + ['/'] + b + [] == a + ['/'] + b;
    }
    if !Blank(a) {
      WiderIsNotBlank([], a, ['/'] + b);
      assert [] + a + (['/'] + b) == a + ['/'] + b;
    }
  }

  lemma ShorterPath(t: Triple) returns (u: Triple)
    requires Writable(t) && '/' in t.path
    ensures Writable(u) && Rel(u) == Rel(t) && u.path != t.path
  {
    var a, b := LastCut(t.path, '/');
    u := Triple(a, b + ['/'] + t.env, t.name);
    SafePathSplits(a, b);
    JoinIsNotBlank(b, t.env);
    Regroup(a, b, t.env);
  }

  lemma ShorterName(t: Triple) returns (u: Triple)
    requires Writable(t) && '/' in t.name
    ensures Writable(u) && Rel(u) == Rel(t) && u.env != t.env
  {
    var a, b := FirstCut(t.name, '/');
    u := Triple(t.path, t.env + ['/'] + a, b);
    SafePathSplits(a, b);
    JoinIsNotBlank(t.env, a);
    Regroup(t.path, t.env, a);
    Regroup(t.path + ['/'] + t.env, a, b);
  }

  lemma Regroup(a: string, b: string, c: string)
    ensures a + ['/'] + (b + ['/'] + c) == (a + ['/'] + b) + ['/'] + c
  {
  }

  lemma LongerPath(t: Triple) returns (u: Triple)
    requires Writable(t) && LosesHead(t)
    ensures Writable(u) && Rel(u) == Rel(t) && u.env != t.env
  {
    var a, b :| HeadAndRest(t.env, a, b);
    u := Triple(t.path + ['/'] + a, b, t.name);
    SafePathSplits(t.path, a);
    Regroup(t.path, a, b);
  }

  lemma LongerName(t: Triple) returns (u: Triple)
    requires Writable(t) && LosesTail(t)
    ensures Writable(u) && Rel(u) == Rel(t) && u.env != t.env
  {
    var a, b :| RestAndTail(t.env, a, b);
    u := Triple(t.path, a, b + ['/'] + t.name);
    SafePathSplits(b, t.name);
    Regroup(t.path, a, b);
    Regroup(t.path + ['/'] + a, b, t.name);
  }

  // ----- no rival, where there is none -----

  lemma NoRival(t: Triple, u: Triple)
    requires Writable(t) && '/' !in t.path && '/' !in t.name && !LosesHead(t) && !LosesTail(t)
    requires Writable(u) && Rel(u) == Rel(t)
    ensures u == t
  {
    if '/' in u.path {
      PathTooLong(t, u);
    }
    if '/' in u.name {
      NameTooLong(t, u);
    }
    LastSplitUnique(t.path + ['/'] + t.env, t.name, u.path + ['/'] + u.env, u.name, '/');
    FirstSplitUnique(t.path, t.env, u.path, u.env);
  }

  /** There is only one way to split a string at its first separator. */
  lemma FirstSplitUnique(a: string, b: string, a': string, b': string)
    requires '/' !in a && '/' !in a' && a + ['/'] + b == a' + ['/'] + b'
    ensures a == a' && b == b'
  {
    IndexOfJoined(a, '/', b);
    IndexOfJoined(a', '/', b');
  }

  /** A rival with a slash in its path has taken the first segment of the environment. */
  lemma PathTooLong(t: Triple, u: Triple)
    requires '/' !in t.path && '/' !in t.name && Writable(u) && Rel(u) == Rel(t) && '/' in u.path
    ensures LosesHead(t)
  {
    var x, y := FirstCut(u.path, '/');
    SafePathSplits(x, y);
    Regroup(t.path, t.env, t.name);
    Regroup(x + ['/'] + y, u.env, u.name);
    Regroup(x, y, u.env + ['/'] + u.name);
    FirstSplitUnique(t.path, t.env + ['/'] + t.name, x, y + ['/'] + (u.env + ['/'] + u.name));
    Regroup(y, u.env, u.name);
    var tail := EnvIs(t.env, t.name, y + ['/'] + u.env, u.name);
    HeadOf(t.env, y, u.env, tail);
  }

  /** Two ways to split a string at a slash, the first at its last one. */
  lemma EnvIs(env: string, name: string, a: string, b: string) returns (tail: string)
    requires '/' !in name && env + ['/'] + name == a + ['/'] + b
    ensures env == a + tail
  {
    if '/' in b {
      var p, q := LastCut(b, '/');
      Regroup(a, p, q);
      LastSplitUnique(env, name, a + ['/'] + p, q, '/');
      tail := ['/'] + p;
      assert a + ['/'] + p == a + tail;
    } else {
      LastSplitUnique(env, name, a, b, '/');
      tail := [];
      assert a + tail == a;
    }
  }

  /** The first segment of `env` when it begins with a safe, non-empty path and a slash. */
  lemma HeadOf(env: string, y: string, rest: string, tail: string)
    requires env == y + ['/'] + rest + tail && SafePath(y) && y != "" && !Blank(rest)
    ensures exists a, b :: HeadAndRest(env, a, b)
  {
    if '/' in y {
      var a, b := FirstCut(y, '/');
      SafePathSplits(a, b);
      assert env == a + ['/'] + (b + ['/'] + rest + tail);
      WiderIsNotBlank(b + ['/'], rest, tail);
      assert HeadAndRest(env, a, b + ['/'] + rest + tail);
    } else {
      assert env == y + ['/'] + (rest + tail);
      WiderIsNotBlank([], rest, tail);
      assert [] + rest + tail == rest + tail;
      assert HeadAndRest(env, y, rest + tail);
    }
  }

  /** A rival with a slash in its name has taken the last segment of the environment. */
  lemma NameTooLong(t: Triple, u: Triple)
    requires '/' !in t.path && '/' !in t.name && Writable(u) && Rel(u) == Rel(t)
    requires '/' !in u.path && '/' in u.name
    ensures LosesTail(t)
  {
    var x, y := LastCut(u.name, '/');
    SafePathSplits(x, y);
    Regroup(u.path + ['/'] + u.env, x, y);
    LastSplitUnique(t.path + ['/'] + t.env, t.name, u.path + ['/'] + u.env + ['/'] + x, y, '/');
    Regroup(u.path, u.env, x);
    FirstSplitUnique(t.path, t.env, u.path, u.env + ['/'] + x);
    TailOf(t.env, u.env, x);
  }

  /** The last segment of `env` when it ends with a slash and a safe, non-empty path. */
  lemma TailOf(env: string, rest: string, x: string)
    requires env == rest + ['/'] + x && SafePath(x) && x != "" && !Blank(rest)
    ensures exists a, b :: RestAndTail(env, a, b)
  {
    if '/' in x {
      var a, b := LastCut(x, '/');
      SafePathSplits(a, b);
      Regroup(rest, a, b);
      JoinIsNotBlank(rest, a);
      assert RestAndTail(env, rest + ['/'] + a, b);
    } else {
      assert RestAndTail(env, rest, x);
    }
  }
}
