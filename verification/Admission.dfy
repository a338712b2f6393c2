/** Admission said outright: which request becomes which operation on which key, in terms of
    nothing but its own fields, for every request. */
module Admission {
  import opened Text
  import opened BigEndian
  import opened KeyLayout
  import opened Requests

  // ----- who may act -----

  /** `c` is the role letter `l`, or one of the characters that fold into it. */
  predicate FoldsTo(c: char, l: char) {
    || c == l
    || (97 <= l as int <= 122 && c as int == l as int - 32)
    || (l == 'i' && c as int == 0x130)
    || (l == 'k' && c as int == 0x212A)
  }

  predicate ReadsAs(text: string, name: string) {
    |text| == |name| && forall i :: 0 <= i < |text| ==> FoldsTo(text[i], name[i])
  }

  predicate LowerCase(name: string) {
    forall i :: 0 <= i < |name| ==> 97 <= name[i] as int <= 122 || name[i] == '-'
  }

  lemma ReadsIsSpells(text: string, name: string)
    requires LowerCase(name)
    ensures ReadsAs(text, name) <==> Spells(text, name)
  {
    if |text| == |name| {
      forall i | 0 <= i < |text| ensures FoldsTo(text[i], name[i]) <==> ToLower(text[i]) == name[i] {
        FoldExactly(text[i], name[i]);
      }
    }
  }

  lemma FoldExactly(c: char, l: char)
    requires 97 <= l as int <= 122 || l == '-'
    ensures FoldsTo(c, l) <==> ToLower(c) == l
  {
  }

  /** Some role is one of the three names, in any case and with any white space around it. */
  ghost predicate NamedAdmin(roles: seq<string>) {
    exists a, text, b, name ::
      && a + text + b in roles && Blank(a) && Blank(b)
      && name in ["superadmin", "kms-admin", "admin"] && ReadsAs(text, name)
  }

  lemma RolesAreLowerCase(name: string)
    requires name in ["superadmin", "kms-admin", "admin"]
    ensures LowerCase(name) && name in ADMIN_ROLES
  {
  }

  lemma NamedAdminExactly(c: Claims)
    ensures IsAdmin(c) <==> NamedAdmin(c.roles)
  {
    forall role | role in c.roles && AdminRole(role) ensures NamedAdmin(c.roles) {
      AdminRoleExactly(role);
      var a, text, b, name :|
        role == a + text + b && Blank(a) && Blank(b) && name in ADMIN_ROLES && Spells(text, name);
      RolesAreLowerCase(name);
      ReadsIsSpells(text, name);
    }
    forall a, text, b, name |
      && a + text + b in c.roles && Blank(a) && Blank(b)
      && name in ["superadmin", "kms-admin", "admin"] && ReadsAs(text, name)
      ensures IsAdmin(c)
    {
      RolesAreLowerCase(name);
      ReadsIsSpells(text, name);
      AdminRoleExactly(a + text + b);
    }
  }

  /** A token acts on an organisation iff one of its roles names an administrator or the
      organisation is its own and has a name. */
  lemma CanActExactly(c: Claims, org: string)
    ensures CanActOnOrg(c, org) <==> NamedAdmin(c.roles) || (c.owner == org && org != "")
  {
    NamedAdminExactly(c);
  }

  ghost predicate Allowed(auth: Option<Claims>, org: string) {
    auth.Some? && (NamedAdmin(auth.value.roles) || (auth.value.owner == org && org != ""))
  }

  // ----- which path is safe -----

  /** `s` stands in `p` between two slashes, or the ends. */
  predicate Segment(p: string, a: string, s: string, b: string) {
    && p == a + s + b && '/' !in s
    && (a != "" ==> a[|a| - 1] == '/') && (b != "" ==> b[0] == '/')
  }

  predicate LegalChar(c: char) {
    var u := c as int;
    48 <= u <= 57 || 65 <= u <= 90 || 97 <= u <= 122 || u == 45 || u == 46 || u == 95
  }

  predicate LegalSegment(s: string) {
    s != [] && s != ['.'] && s != ['.', '.'] && forall i :: 0 <= i < |s| ==> LegalChar(s[i])
  }

  lemma LegalIsSafe(s: string)
    ensures LegalSegment(s) <==> SafeSegment(s)
  {
    assert forall i :: 0 <= i < |s| ==> s[i] in s;
  }

  /** A path is safe iff it is empty or every segment of it is legal: letters, digits,
      underscore, hyphen and full stop, and neither nothing nor one or two full stops. */
  lemma SafePathExactly(p: string)
    ensures SafePath(p) <==> p == "" || forall a, s, b :: Segment(p, a, s, b) ==> LegalSegment(s)
  {
    if SafePath(p) && p != "" {
      forall a, s, b | Segment(p, a, s, b) ensures LegalSegment(s) {
        SegmentOfSafe(p, a, s, b);
      }
    }
    if p != "" && forall a, s, b :: Segment(p, a, s, b) ==> LegalSegment(s) {
      forall s | s in Split(p, '/') ensures SafeSegment(s) {
        var a, b := PartIsSegment(p, s);
        LegalIsSafe(s);
      }
    }
  }

  lemma SegmentOfSafe(p: string, a: string, s: string, b: string)
    requires SafePath(p) && p != "" && Segment(p, a, s, b)
    ensures LegalSegment(s)
  {
    if a != "" {
      var x := a[..|a| - 1];
      assert a == x + ['/'];
      assert p == x + ['/'] + (s + b);
      SafePathSplits(x, s + b);
    } else {
      assert p == s + b;
    }
    HeadOfSafe(s, b);
  }

  lemma HeadOfSafe(s: string, b: string)
    requires SafePath(s + b) && s + b != "" && '/' !in s && (b != "" ==> b[0] == '/')
    ensures LegalSegment(s)
  {
    if b != "" {
      var y := b[1..];
      assert b == ['/'] + y;
      assert s + b == s + ['/'] + y;
      SafePathSplits(s, y);
    } else {
      assert s + b == s;
    }
    assert Split(s, '/') == [s] && s in Split(s, '/');
    LegalIsSafe(s);
  }

  lemma SegmentDeeper(x: string, y: string, a: string, s: string, b: string)
    requires Segment(y, a, s, b)
    ensures Segment(x + ['/'] + y, x + ['/'] + a, s, b)
  {
    assert x + ['/'] + (a + s + b) == (x + ['/'] + a) + s + b;
    assert (x + ['/'] + a)[|x| + |a|] == if a == "" then '/' else a[|a| - 1];
  }

  lemma SegmentFirst(x: string, y: string)
    requires '/' !in x
    ensures Segment(x + ['/'] + y, "", x, ['/'] + y)
  {
    assert x + ['/'] + y == "" + x + (['/'] + y);
  }

  lemma {:induction false} PartIsSegment(p: string, s: string) returns (a: string, b: string)
    requires s in Split(p, '/')
    ensures Segment(p, a, s, b)
    decreases |p|
  {
    if '/' in p {
      var x, y := FirstCut(p, '/');
      PartsOf(x, y, s);
      if s == x {
        a, b := "", ['/'] + y;
        SegmentFirst(x, y);
      } else {
        a, b := PartIsSegment(y, s);
        SegmentDeeper(x, y, a, s, b);
        a := x + ['/'] + a;
      }
    } else {
      a, b := "", "";
    }
  }

  lemma PartsOf(x: string, y: string, s: string)
    requires '/' !in x && s in Split(x + ['/'] + y, '/')
    ensures s == x || s in Split(y, '/')
  {
    SplitOfPrefixed(x, '/', y);
  }

  // ----- which request becomes which operation -----

  /** `rest` addresses this path and this name. */
  predicate Addresses(rest: string, path: string, name: string) {
    rest == path + "/" + name && path != "" && name != "" && SafePath(path) && SafePath(name) && '/' !in name
  }

  lemma AddressesExactly(rest: string, path: string, name: string)
    ensures SplitSecretPath(rest) == Some((path, name)) <==> Addresses(rest, path, name)
  {
    SplitOfJoined(path, name);
    if SplitSecretPath(rest) == Some((path, name)) {
      assert rest == path + ['/'] + name;
    }
  }

  function Key(path: string, env: string, name: string): string {
    path + "/" + env + "/" + name
  }

  /** A POST is accepted iff its caller is allowed, its body decoded, path and name are safe,
      the name is not empty and the environment not blank; it writes the value it carries
      to the key of its own coordinates. */
  lemma PostAcceptedExactly(auth: Option<Claims>, org: string, body: Option<PostBody>, op: Op)
    ensures Admit(PostRequest(auth, org, body)) == Accept(op) <==>
      && Allowed(auth, org) && body.Some?
      && var b := body.value;
         b.name != "" && SafePath(b.path) && SafePath(b.name) && !Blank(b.env)
         && op == Post(Key(b.path, b.env, b.name), b.value)
  {
    if auth.Some? {
      CanActExactly(auth.value, org);
    }
  }

  /** A GET reads the key of the address and the environment in its query, `default` when there
      is none. */
  lemma GetAcceptedExactly(auth: Option<Claims>, org: string, rest: string, env: string, op: Op)
    ensures Admit(GetRequest(auth, org, rest, env)) == Accept(op) <==>
      && Allowed(auth, org)
      && exists path, name ::
           Addresses(rest, path, name) && op == Get(Key(path, if env == "" then "default" else env, name))
  {
    if auth.Some? {
      CanActExactly(auth.value, org);
    }
    AddressesOnce(rest);
  }

  /** A DELETE removes that key. */
  lemma DeleteAcceptedExactly(auth: Option<Claims>, org: string, rest: string, env: string, op: Op)
    ensures Admit(DeleteRequest(auth, org, rest, env)) == Accept(op) <==>
      && Allowed(auth, org)
      && exists path, name ::
           Addresses(rest, path, name) && op == Delete(Key(path, if env == "" then "default" else env, name))
  {
    if auth.Some? {
      CanActExactly(auth.value, org);
    }
    AddressesOnce(rest);
  }

  lemma AddressesOnce(rest: string)
    ensures forall path, name :: Addresses(rest, path, name) <==> SplitSecretPath(rest) == Some((path, name))
  {
    forall path, name ensures Addresses(rest, path, name) <==> SplitSecretPath(rest) == Some((path, name)) {
      AddressesExactly(rest, path, name);
    }
  }

  /** The header and the body's version name `e` and nothing else. */
  predicate Names(header: IfMatch, version: Option<Int64>, e: Int64) {
    && e >= 0 && !header.Malformed?
    && (version == Some(e) || (version == None && header == Version(e)))
    && (header.Version? && header.v >= 0 ==> header.v == e)
  }

  /** A PATCH is accepted iff its caller is allowed, its address and body are usable, an
      environment that is not blank stands in the body or, when the body has none at all,
      in the query, and header and body name one version; it updates the key of the address
      in that environment with the value it carries, expecting that version. */
  lemma PatchAcceptedExactly(auth: Option<Claims>, org: string, rest: string, body: Option<PatchBody>,
                             query: string, header: IfMatch, op: Op)
    ensures Admit(PatchRequest(auth, org, rest, body, query, header)) == Accept(op) <==>
      && Allowed(auth, org) && body.Some?
      && var env := if body.value.env != "" then body.value.env else query;
         !Blank(env)
         && exists path, name, e ::
              Addresses(rest, path, name) && Names(header, body.value.version, e)
              && op == Patch(Key(path, env, name), body.value.value, e)
  {
    if auth.Some? {
      CanActExactly(auth.value, org);
    }
    AddressesOnce(rest);
    if body.Some? {
      forall e
        ensures ResolveExpected(header, body.value.version) == Expect(e) <==> Names(header, body.value.version, e)
      {
        ResolveExpectedExactly(header, body.value.version, e);
      }
      PatchDecided(rest, body.value, query, header, op);
    }
  }

  lemma PatchDecided(rest: string, b: PatchBody, query: string, header: IfMatch, op: Op)
    ensures (match SplitSecretPath(rest)
             case None => false
             case Some((path, name)) => DecidePatch(path, name, b, query, header) == Accept(op)) <==>
      var env := if b.env != "" then b.env else query;
      !Blank(env)
      && exists path, name, e ::
           SplitSecretPath(rest) == Some((path, name)) && ResolveExpected(header, b.version) == Expect(e)
           && op == Patch(Key(path, env, name), b.value, e)
  {
  }

  /** Reading or deleting without an environment reaches what a POST wrote to `default`. */
  lemma DefaultEnvironment(auth: Claims, org: string, path: string, name: string, value: Bytes)
    requires CanActOnOrg(auth, org) && SafePath(path) && SafePath(name) && path != "" && name != "" && '/' !in name
    ensures var k, rest := path + "/default/" + name, path + "/" + name;
      && Admit(PostRequest(Some(auth), org, Some(PostBody(path, name, "default", value)))) == Accept(Post(k, value))
      && Admit(GetRequest(Some(auth), org, rest, "")) == Accept(Get(k))
      && Admit(DeleteRequest(Some(auth), org, rest, "")) == Accept(Delete(k))
  {
    var k, rest := path + "/default/" + name, path + "/" + name;
    assert Key(path, "default", name) == k;
    assert "default"[0] == 'd' && !Blank("default");
    CanActExactly(auth, org);
    assert Addresses(rest, path, name);
    PostAcceptedExactly(Some(auth), org, Some(PostBody(path, name, "default", value)), Post(k, value));
    GetAcceptedExactly(Some(auth), org, rest, "", Get(k));
    DeleteAcceptedExactly(Some(auth), org, rest, "", Delete(k));
  }
}
