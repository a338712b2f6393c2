/** Everything a secret handler decides before it touches the store: who may act, which
    key is meant and, for PATCH, which version the caller expects. */
module Requests {
  import opened Text
  import opened BigEndian
  import opened KeyLayout

  /** Verified token claims. */
  datatype Claims = Claims(owner: string, roles: seq<string>)

  const ADMIN_ROLES := ["superadmin", "kms-admin", "admin"]

  /** `unicode.ToLower` as far as its results can occur in the name of an administrator
      role: two characters outside ASCII also become letters of ASCII. */
  function ToLower(c: char): char {
    if 'A' <= c <= 'Z' then (c as int + 32) as char
    else if c as int == 0x130 then 'i'
    else if c as int == 0x212A then 'k'
    else c
  }

  function Lower(s: string): (r: string)
    ensures |r| == |s| && forall i :: 0 <= i < |s| ==> r[i] == ToLower(s[i])
  {
    seq(|s|, i requires 0 <= i < |s| => ToLower(s[i]))
  }

  /** Does the role, trimmed and folded, name an administrator? */
  predicate AdminRole(role: string) {
    Lower(TrimSpace(role)) in ADMIN_ROLES
  }

  /** `isAdmin`. */
  predicate IsAdmin(c: Claims) {
    exists r :: r in c.roles && AdminRole(r)
  }

  /** `canActOnOrg`. */
  predicate CanActOnOrg(c: Claims, org: string) {
    IsAdmin(c) || (c.owner != "" && org != "" && c.owner == org)
  }

  /** Without an administrator role a token reaches one organisation, its own. */
  lemma OneOrgPerToken(c: Claims, org: string, other: string)
    requires !IsAdmin(c)
    ensures CanActOnOrg(c, org) <==> org == c.owner && org != ""
    ensures CanActOnOrg(c, org) && CanActOnOrg(c, other) ==> org == other
  {
  }

  /** A text that reads as a role name letter for letter, in any case. */
  predicate Spells(text: string, role: string) {
    |text| == |role| && forall i :: 0 <= i < |text| ==> ToLower(text[i]) == role[i]
  }

  /** A role makes an administrator iff it is one of the three names in any case, with any
      white space around it: nothing inside, and nothing else, is forgiven. */
  lemma AdminRoleExactly(role: string)
    ensures AdminRole(role) <==>
      exists a, text, b, name ::
        role == a + text + b && Blank(a) && Blank(b) && name in ADMIN_ROLES && Spells(text, name)
  {
    if AdminRole(role) {
      var a, b := TrimSpaceParts(role);
      assert Spells(TrimSpace(role), Lower(TrimSpace(role)));
    }
    forall a, text, b, name |
      role == a + text + b && Blank(a) && Blank(b) && name in ADMIN_ROLES && Spells(text, name)
      ensures AdminRole(role)
    {
      TrimSpaceOfPadded(a, text, b);
      assert Lower(text) == name;
    }
  }

  predicate SafeChar(c: char) {
    'a' <= c <= 'z' || 'A' <= c <= 'Z' || '0' <= c <= '9' || c == '_' || c == '-' || c == '.'
  }

  predicate SafeSegment(s: string) {
    s != "" && s != "." && s != ".." && forall c :: c in s ==> SafeChar(c)
  }

  /** `safePath`. An empty segment covers the double-slash test and `SafeChar` the NUL test. */
  predicate SafePath(p: string) {
    p == "" || forall s :: s in Split(p, '/') ==> SafeSegment(s)
  }

  /** A non-empty safe path is safe on both sides of any slash in it. */
  lemma SafePathSplits(a: string, b: string)
    ensures SafePath(a + ['/'] + b) <==> a != "" && b != "" && SafePath(a) && SafePath(b)
  {
    var parts := Split(a + ['/'] + b, '/');
    SplitOfConcat(a, '/', b);
    if a == "" {
      assert Split(a, '/') == [""] && parts[0] == "" && "" in parts;
    } else if b == "" {
      assert Split(b, '/') == [""] && parts[|parts| - 1] == "" && "" in parts;
    } else {
      assert forall s :: s in parts <==> s in Split(a, '/') || s in Split(b, '/');
    }
  }

  /** A safe path holds nothing but safe characters and slashes. */
  lemma SafePathChars(p: string)
    requires SafePath(p)
    ensures forall c :: c in p ==> SafeChar(c) || c == '/'
    decreases |p|
  {
    var i := Index(p, '/');
    if p != "" {
      if i < 0 {
        assert Split(p, '/') == [p] && p in Split(p, '/');
      } else {
        assert p == p[..i] + ['/'] + p[i + 1..];
        SafePathSplits(p[..i], p[i + 1..]);
        SafePathChars(p[..i]);
        SafePathChars(p[i + 1..]);
      }
    }
  }

  /** `splitSecretPath`; `None` stands for the 400 it writes. */
  function SplitSecretPath(rest: string): (r: Option<(string, string)>)
    ensures r.Some? ==> rest == r.value.0 + ['/'] + r.value.1 && '/' !in r.value.1
  {
    if !SafePath(rest) then None
    else
      var i := LastIndex(rest, '/');
      if i < 0 then None else Some((rest[..i], rest[i + 1..]))
  }

  /** The server recovers exactly the safe, non-empty path and safe, non-empty, slash-free
      name that were joined, and nothing else. */
  lemma SplitOfJoined(path: string, name: string)
    ensures SplitSecretPath(path + ['/'] + name) == Some((path, name))
      <==> SafePath(path) && SafePath(name) && path != "" && name != "" && '/' !in name
  {
    SafePathSplits(path, name);
    if '/' !in name {
      LastIndexOfJoined(path, '/', name);
    }
  }

  datatype IfMatch = Absent | Malformed | Version(v: Int64)

  datatype PostBody = PostBody(path: string, name: string, env: string, value: Bytes)
  datatype PatchBody = PatchBody(value: Bytes, version: Option<Int64>, env: string)

  /** A decoded request. `auth` is `None` when token verification failed and `body` is
      `None` when the JSON did not decode. */
  datatype Request =
    | GetRequest(auth: Option<Claims>, org: string, rest: string, env: string)
    | PostRequest(auth: Option<Claims>, org: string, post: Option<PostBody>)
    | PatchRequest(auth: Option<Claims>, org: string, rest: string, patch: Option<PatchBody>,
                   env: string, ifMatch: IfMatch)
    | DeleteRequest(auth: Option<Claims>, org: string, rest: string, env: string)

  datatype Op =
    | Get(k: string)
    | Post(k: string, value: Bytes)
    | Patch(k: string, value: Bytes, expected: Int64)
    | Delete(k: string)

  datatype Decision = Refuse(status: nat) | Accept(op: Op)

  datatype Expected = BadRequest | PreconditionRequired | Expect(v: Int64)

  /** How PATCH combines the `If-Match` header with the version in the body. */
  function ResolveExpected(header: IfMatch, body: Option<Int64>): Expected {
    if header.Malformed? then BadRequest
    else
      var fromHeader: Int64 := if header.Version? then header.v else -1;
      if body.Some? && fromHeader >= 0 && fromHeader != body.value then BadRequest
      else
        var expected := if body.Some? then body.value else fromHeader;
        if expected < 0 then PreconditionRequired else Expect(expected)
  }

  /** A version is accepted iff it is non-negative, the body or (without a body version)
      the header names it, and the other source, if it names a non-negative version at
      all, names the same one. */
  lemma ResolveExpectedExactly(header: IfMatch, body: Option<Int64>, e: Int64)
    ensures ResolveExpected(header, body) == Expect(e) <==>
      && e >= 0
      && !header.Malformed?
      && (body == Some(e) || (body == None && header == Version(e)))
      && (header.Version? && header.v >= 0 ==> header.v == e)
    ensures ResolveExpected(header, body) == PreconditionRequired <==>
      && !header.Malformed?
      && (header.Version? ==> header.v < 0)
      && (body.Some? ==> body.value < 0)
  {
  }

  /** The environment a read falls back to. */
  function EnvOrDefault(env: string): string {
    if env == "" then "default" else env
  }

  function DecidePost(b: PostBody): Decision {
    if b.name == "" || !SafePath(b.path) || !SafePath(b.name) || Blank(b.env) then Refuse(400)
    else Accept(Post(Rel(Triple(b.path, b.env, b.name)), b.value))
  }

  function DecidePatch(path: string, name: string, b: PatchBody, queryEnv: string, ifMatch: IfMatch): Decision {
    var env := if b.env == "" then queryEnv else b.env;
    if Blank(env) then Refuse(400)
    else
      match ResolveExpected(ifMatch, b.version)
      case BadRequest => Refuse(400)
      case PreconditionRequired => Refuse(428)
      case Expect(e) => Accept(Patch(Rel(Triple(path, env, name)), b.value, e))
  }

  /** What a handler decides about a request whose caller may act on the organisation. */
  function Decide(r: Request): Decision {
    match r
    case PostRequest(_, _, body) => if body.None? then Refuse(400) else DecidePost(body.value)
    case GetRequest(_, _, rest, env) =>
      (match SplitSecretPath(rest)
       case None => Refuse(400)
       case Some((path, name)) => Accept(Get(Rel(Triple(path, EnvOrDefault(env), name)))))
    case DeleteRequest(_, _, rest, env) =>
      (match SplitSecretPath(rest)
       case None => Refuse(400)
       case Some((path, name)) => Accept(Delete(Rel(Triple(path, EnvOrDefault(env), name)))))
    case PatchRequest(_, _, rest, body, env, ifMatch) =>
      (match SplitSecretPath(rest)
       case None => Refuse(400)
       case Some((path, name)) =>
         if body.None? then Refuse(400) else DecidePatch(path, name, body.value, env, ifMatch))
  }

  function Admit(r: Request): Decision {
    if r.auth.None? then Refuse(401)
    else if !CanActOnOrg(r.auth.value, r.org) then Refuse(403)
    else Decide(r)
  }

  /** The coordinates a request names are usable, and for a write its body and environment. */
  predicate Legible(r: Request) {
    match r
    case PostRequest(_, _, None) => false
    case PostRequest(_, _, Some(b)) => b.name != "" && SafePath(b.path) && SafePath(b.name) && !Blank(b.env)
    case PatchRequest(_, _, rest, None, _, _) => false
    case PatchRequest(_, _, rest, Some(b), env, _) =>
      SplitSecretPath(rest).Some? && !Blank(if b.env == "" then env else b.env)
    case GetRequest(_, _, rest, _) => SplitSecretPath(rest).Some?
    case DeleteRequest(_, _, rest, _) => SplitSecretPath(rest).Some?
  }

  /** The version a legible PATCH expects; other requests expect none. */
  function ExpectedOf(r: Request): Expected {
    if r.PatchRequest? && r.patch.Some? then ResolveExpected(r.ifMatch, r.patch.value.version) else Expect(0)
  }

  /** Exactly which status refuses a request, and when it is accepted. */
  lemma RefusedExactly(r: Request)
    ensures var allowed := r.auth.Some? && CanActOnOrg(r.auth.value, r.org);
      var expected := ExpectedOf(r);
      && (Admit(r) == Refuse(401) <==> r.auth.None?)
      && (Admit(r) == Refuse(403) <==> r.auth.Some? && !allowed)
      && (Admit(r) == Refuse(400) <==> allowed && (!Legible(r) || expected == BadRequest))
      && (Admit(r) == Refuse(428) <==> allowed && Legible(r) && expected == PreconditionRequired)
      && (Admit(r).Accept? <==> allowed && Legible(r) && expected.Expect?)
  {
  }

  /** An accepted PATCH always carries a version to compare, and an accepted write always
      names an environment. */
  lemma AdmitSound(r: Request)
    requires Admit(r).Accept?
    ensures r.PatchRequest? <==> Admit(r).op.Patch?
    ensures r.DeleteRequest? <==> Admit(r).op.Delete?
    ensures Admit(r).op.Patch? ==>
      && Admit(r).op.expected >= 0
      && ResolveExpected(r.ifMatch, r.patch.value.version) == Expect(Admit(r).op.expected)
    ensures Admit(r).op.Post? ==> !Blank(r.post.value.env) && r.post.value.name != ""
  {
    if r.PatchRequest? {
      PatchSound(r);
    } else if r.PostRequest? {
      PostSound(r);
    }
  }

  lemma PatchSound(r: Request)
    requires r.PatchRequest? && Admit(r).Accept?
    ensures var op := Admit(r).op;
      && op.Patch? && op.expected >= 0
      && ResolveExpected(r.ifMatch, r.patch.value.version) == Expect(op.expected)
  {
  }

  lemma PostSound(r: Request)
    requires r.PostRequest? && Admit(r).Accept?
    ensures Admit(r).op.Post? && !Blank(r.post.value.env) && r.post.value.name != ""
  {
  }

  /** Coordinates that both a write and an address in the URL can carry. */
  predicate Addressable(path: string, env: string, name: string) {
    SafePath(path) && SafePath(name) && path != "" && name != "" && '/' !in name && !Blank(env)
  }

  /** The key of a read, update or delete is the key of the write that used the same
      coordinates, provided that write could be addressed at all. */
  lemma SameKeyAcrossVerbs(auth: Claims, org: string, path: string, env: string, name: string,
                           value: Bytes, update: Bytes, e: Int64)
    requires CanActOnOrg(auth, org) && Addressable(path, env, name) && e >= 0
    ensures var rest := path + ['/'] + name;
            var k := Rel(Triple(path, env, name));
            && Admit(PostRequest(Some(auth), org, Some(PostBody(path, name, env, value)))) == Accept(Post(k, value))
            && Admit(GetRequest(Some(auth), org, rest, env)) == Accept(Get(k))
            && Admit(DeleteRequest(Some(auth), org, rest, env)) == Accept(Delete(k))
            && Admit(PatchRequest(Some(auth), org, rest, Some(PatchBody(update, Some(e), env)), "", Absent))
               == Accept(Patch(k, update, e))
  {
    SplitOfJoined(path, name);
    var split := SplitSecretPath(path + ['/'] + name);
    assert split == Some((path, name));
  }

  lemma SafeIsNotBlank(s: string)
    requires SafePath(s) && s != ""
    ensures !Blank(s)
  {
    SafePathChars(s);
    assert s[0] in s;
  }

}
