/** Actor ids of the audit trail: issuer and subject in one string. */
module ActorId {
  import opened Text

  const KINDS := ["usr_", "svc_", "api_", "admin_", "sys_", "u_", "sa_", "ap_"]

  predicate SubjectChar(c: char) {
    'a' <= c <= 'z' || '0' <= c <= '9' || c == '_' || c == '-'
  }

  /** `subPattern`: a known kind followed by at least one subject character. */
  predicate KnownSubject(sub: string) {
    exists i :: 0 <= i < |KINDS| && KINDS[i] < sub && forall j :: |KINDS[i]| <= j < |sub| ==> SubjectChar(sub[j])
  }

  const FLAG := "unverified"

  function Issuer(iss: string): string {
    var t := TrimSpace(iss);
    if t == "" then "unknown-issuer" else t
  }

  function Subject(sub: string): string {
    var t := TrimSpace(sub);
    if t == "" then "anonymous" else t
  }

  /** The id of a normalised issuer and subject. */
  function Id(i: string, s: string): string {
    if KnownSubject(s) then i + [':'] + s else FLAG + [':'] + i + [':'] + s
  }

  /** `composeActorID`. */
  function Compose(iss: string, sub: string): string {
    Id(Issuer(iss), Subject(sub))
  }

  /** What trimming and defaulting leave behind: exactly the non-empty trimmed strings. */
  predicate Normal(t: string) {
    t != "" && Trimmed(t)
  }

  lemma Normalised(iss: string, sub: string)
    ensures Normal(Issuer(iss)) && Normal(Subject(sub))
    ensures Normal(iss) ==> Issuer(iss) == iss
    ensures Normal(sub) ==> Subject(sub) == sub
  {
    assert !IsSpace('u') && !IsSpace('r') && !IsSpace('a') && !IsSpace('s');
  }

  lemma KnownSubjectChars(sub: string)
    requires KnownSubject(sub)
    ensures sub != "" && Trimmed(sub) && ':' !in sub
  {
    var i :| 0 <= i < |KINDS| && KINDS[i] < sub && forall j :: |KINDS[i]| <= j < |sub| ==> SubjectChar(sub[j]);
    var kind := KINDS[i];
    assert kind in ["usr_", "svc_", "api_", "admin_", "sys_", "u_", "sa_", "ap_"];
    assert forall j :: 0 <= j < |kind| ==> SubjectChar(kind[j]);
    assert forall j :: 0 <= j < |kind| ==> sub[j] == kind[j];
    assert forall j :: 0 <= j < |sub| ==> SubjectChar(sub[j]);
  }

  /** The pattern, said outright: one of the eight kinds, an underscore, and one or more lower-case
      letters, digits, underscores and hyphens. */
  lemma KnownSubjectExactly(sub: string)
    ensures KnownSubject(sub) <==>
      exists kind, rest ::
        && sub == kind + "_" + rest && rest != ""
        && kind in ["usr", "svc", "api", "admin", "sys", "u", "sa", "ap"]
        && forall i :: 0 <= i < |rest| ==>
             var u := rest[i] as int; 97 <= u <= 122 || 48 <= u <= 57 || u == 95 || u == 45
  {
    forall i | 0 <= i < |KINDS| && KINDS[i] < sub && forall j :: |KINDS[i]| <= j < |sub| ==> SubjectChar(sub[j])
      ensures exists kind, rest :: Matches(sub, kind, rest)
    {
      var rest := RestAfter(sub, i);
    }
    forall kind, rest | Matches(sub, kind, rest) ensures KnownSubject(sub) {
      KindThenRest(sub, kind, rest);
    }
    MatchesSpelled(sub);
  }

  /** `sub` is one of the kinds, an underscore and `rest`. */
  predicate Matches(sub: string, kind: string, rest: string) {
    sub == kind + "_" + rest && rest != "" && kind in NAMES && forall i :: 0 <= i < |rest| ==> SubjectChar(rest[i])
  }

  const NAMES := ["usr", "svc", "api", "admin", "sys", "u", "sa", "ap"]

  lemma MatchesSpelled(sub: string)
    ensures (exists kind, rest :: Matches(sub, kind, rest)) <==>
      exists kind, rest ::
        && sub == kind + "_" + rest && rest != ""
        && kind in ["usr", "svc", "api", "admin", "sys", "u", "sa", "ap"]
        && forall i :: 0 <= i < |rest| ==>
             var u := rest[i] as int; 97 <= u <= 122 || 48 <= u <= 57 || u == 95 || u == 45
  {
    if kind, rest :|
      && sub == kind + "_" + rest && rest != ""
      && kind in ["usr", "svc", "api", "admin", "sys", "u", "sa", "ap"]
      && forall i :: 0 <= i < |rest| ==>
           var u := rest[i] as int; 97 <= u <= 122 || 48 <= u <= 57 || u == 95 || u == 45
    {
      assert Matches(sub, kind, rest);
    }
  }

  lemma RestAfter(sub: string, i: nat) returns (rest: string)
    requires i < |KINDS| && KINDS[i] < sub && forall j :: |KINDS[i]| <= j < |sub| ==> SubjectChar(sub[j])
    ensures Matches(sub, NAMES[i], rest)
  {
    var kind := KINDS[i];
    rest := sub[|kind|..];
    assert sub == kind + rest;
  }

  lemma KindThenRest(sub: string, kind: string, rest: string)
    requires Matches(sub, kind, rest)
    ensures KnownSubject(sub)
  {
    var i :| 0 <= i < |NAMES| && NAMES[i] == kind;
    assert KINDS[i] < sub;
    assert forall j :: |KINDS[i]| <= j < |sub| ==> sub[j] == rest[j - |KINDS[i]|];
  }

  /** The id, said outright: issuer and subject without the white space around them, `unknown-issuer`
      and `anonymous` standing in for nothing, issuer first, and a flag before both unless the
      subject is known. */
  lemma ComposeExactly(a: string, iss: string, b: string, c: string, sub: string, d: string)
    requires Blank(a) && Blank(b) && Blank(c) && Blank(d) && Trimmed(iss) && Trimmed(sub)
    ensures var i := if iss == "" then "unknown-issuer" else iss;
      var s := if sub == "" then "anonymous" else sub;
      Compose(a + iss + b, c + sub + d) == (if KnownSubject(s) then "" else "unverified:") + i + ":" + s
  {
    var i := if iss == "" then "unknown-issuer" else iss;
    var s := if sub == "" then "anonymous" else sub;
    PaddedTrims(a, iss, b);
    PaddedTrims(c, sub, d);
    IdSpelled(i, s);
  }

  lemma IdSpelled(i: string, s: string)
    ensures Id(i, s) == (if KnownSubject(s) then "" else "unverified:") + i + ":" + s
  {
    assert "" + i + ":" + s == i + [':'] + s;
    assert "unverified:" + i + ":" + s == FLAG + [':'] + i + [':'] + s;
  }

  lemma PaddedTrims(a: string, text: string, b: string)
    requires Blank(a) && Blank(b) && Trimmed(text)
    ensures TrimSpace(a + text + b) == text
  {
    if text == "" {
      TrimSpaceOfBlank(a + text + b);
    } else {
      TrimSpaceOfPadded(a, text, b);
    }
  }

  /** Two actors with known subjects share an id iff issuer and subject both agree. */
  lemma KnownActorsUnambiguous(iss: string, sub: string, iss': string, sub': string)
    requires KnownSubject(Subject(sub)) && KnownSubject(Subject(sub'))
    ensures Compose(iss, sub) == Compose(iss', sub') <==> Issuer(iss) == Issuer(iss') && Subject(sub) == Subject(sub')
  {
    KnownSubjectChars(Subject(sub));
    KnownSubjectChars(Subject(sub'));
    LastIndexOfJoined(Issuer(iss), ':', Subject(sub));
    LastIndexOfJoined(Issuer(iss'), ':', Subject(sub'));
  }

  /** The id of a known subject from this issuer can be forged by an unknown subject: the
      issuer reads `unverified:A:B`, with `A` a usable issuer and no space after its colon. */
  predicate ForgeableAt(iss: string, c: nat) {
    var n := |FLAG| + 1;
    && FLAG + [':'] <= iss && n < c < |iss| && iss[c] == ':'
    && Trimmed(iss[n..c])
    && (c + 1 < |iss| ==> !IsSpace(iss[c + 1]))
  }

  /** An id of a known subject equals the id of some actor whose subject is unknown iff its
      issuer is forgeable. */
  lemma ForgeableExactly(iss: string, sub: string)
    requires KnownSubject(Subject(sub))
    ensures (exists i, s :: !KnownSubject(Subject(s)) && Compose(i, s) == Compose(iss, sub))
      <==> exists c: nat :: ForgeableAt(Issuer(iss), c)
  {
    if c: nat :| ForgeableAt(Issuer(iss), c) {
      var i, s := Forge(Issuer(iss), Subject(sub), c);
      Normalised(i, s);
      assert Compose(i, s) == Compose(iss, sub);
    }
    forall i, s | !KnownSubject(Subject(s)) && Compose(i, s) == Compose(iss, sub)
      ensures exists c: nat :: ForgeableAt(Issuer(iss), c)
    {
      Normalised(i, s);
      Forged(Issuer(iss), Subject(sub), Issuer(i), Subject(s));
    }
  }

  lemma ForgeableParts(iss: string, c: nat) returns (i: string, b: string)
    requires ForgeableAt(iss, c)
    ensures Normal(i) && (b != "" ==> !IsSpace(b[0])) && iss == FLAG + [':'] + i + [':'] + b
  {
    i, b := iss[|FLAG| + 1..c], iss[c + 1..];
  }

  lemma UnknownWithColon(b: string, sub: string)
    requires Normal(sub) && (b != "" ==> !IsSpace(b[0]))
    ensures Normal(b + [':'] + sub) && !KnownSubject(b + [':'] + sub)
  {
    var s := b + [':'] + sub;
    assert s[|b|] == ':' && s[|s| - 1] == sub[|sub| - 1];
    assert s[0] == if b == "" then ':' else b[0];
    if KnownSubject(s) {
      KnownSubjectChars(s);
    }
  }

  lemma Forge(iss: string, sub: string, c: nat) returns (i: string, s: string)
    requires KnownSubject(sub) && ForgeableAt(iss, c)
    ensures Normal(i) && Normal(s) && !KnownSubject(s) && Id(i, s) == Id(iss, sub)
  {
    var b;
    i, b := ForgeableParts(iss, c);
    s := b + [':'] + sub;
    KnownSubjectChars(sub);
    UnknownWithColon(b, sub);
    Regroup(FLAG + [':'] + i, b, sub);
  }

  lemma Regroup(head: string, b: string, sub: string)
    ensures head + [':'] + (b + [':'] + sub) == (head + [':'] + b) + [':'] + sub
  {
  }

  /** Two ways to split a string at a colon, the second at its last one. */
  lemma SplitTwice(head: string, s: string, iss: string, sub: string) returns (b: string)
    requires head + [':'] + s == iss + [':'] + sub && ':' !in sub && s != sub
    ensures s == b + [':'] + sub && iss == head + [':'] + b
  {
    var k := LastIndex(s, ':');
    if k < 0 {
      LastSplitUnique(head, s, iss, sub, ':');
      b := "";
    } else {
      b := s[..k];
      assert s == b + [':'] + s[k + 1..];
      assert head + [':'] + s == (head + [':'] + b) + [':'] + s[k + 1..];
      LastSplitUnique(head + [':'] + b, s[k + 1..], iss, sub, ':');
    }
  }

  lemma Forged(iss: string, sub: string, i: string, s: string)
    requires KnownSubject(sub) && !KnownSubject(s) && Normal(i) && Normal(s) && Id(i, s) == Id(iss, sub)
    ensures ForgeableAt(iss, |FLAG| + 1 + |i|)
  {
    KnownSubjectChars(sub);
    var b := SplitTwice(FLAG + [':'] + i, s, iss, sub);
  }

  /** In particular no id of a known subject is ever mistaken for an unverified one when its
      issuer does not begin with the flag. */
  lemma OrdinaryIssuersSafe(iss: string, sub: string, i: string, s: string)
    requires KnownSubject(Subject(sub)) && !KnownSubject(Subject(s))
    requires !(FLAG + [':'] <= Issuer(iss))
    ensures Compose(iss, sub) != Compose(i, s)
  {
    if Compose(i, s) == Compose(iss, sub) {
      Normalised(i, s);
      Forged(Issuer(iss), Subject(sub), Issuer(i), Subject(s));
    }
  }
}
