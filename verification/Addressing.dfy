/** How the HTTP client spells a secret's address and how the server reads it back. */
module Addressing {
  import opened Text
  import opened BigEndian
  import opened KeyLayout
  import opened Requests

  // ----- percent encoding -----

  /** Upper-case hexadecimal digits. */
  function HexDigit(n: nat): char
    requires n < 16
  {
    (if n < 10 then '0' as int + n else 'A' as int + n - 10) as char
  }

  function HexValue(c: char): Option<nat> {
    if '0' <= c <= '9' then Some(c as int - '0' as int)
    else if 'A' <= c <= 'F' then Some(c as int - 'A' as int + 10)
    else if 'a' <= c <= 'f' then Some(c as int - 'a' as int + 10)
    else None
  }

  predicate Unreserved(c: char) {
    'a' <= c <= 'z' || 'A' <= c <= 'Z' || '0' <= c <= '9' || c == '-' || c == '_' || c == '.' || c == '~'
  }

  /** What `url.PathEscape` leaves alone inside a segment. */
  predicate KeptInSegment(c: char) {
    Unreserved(c) || c == '$' || c == '&' || c == '+' || c == ':' || c == '=' || c == '@'
  }

  /** Strings of bytes. */
  predicate IsBytes(s: string) {
    forall i :: 0 <= i < |s| ==> s[i] as int < 256
  }

  function EscapeChar(c: char, keep: char -> bool, plus: bool): string
    requires c as int < 256
  {
    if keep(c) then [c]
    else if plus && c == ' ' then ['+']
    else ['%', HexDigit(c as int / 16), HexDigit(c as int % 16)]
  }

  /** The escapes, said outright: a kept character stands for itself, a space is a plus sign in a
      query, and anything else is a percent sign and two upper-case hexadecimal digits. */
  lemma EscapeCharExactly(c: char, keep: char -> bool, plus: bool)
    requires c as int < 256
    ensures EscapeChar(c, keep, plus) ==
      if keep(c) then [c]
      else if plus && c == ' ' then "+"
      else "%" + ["0123456789ABCDEF"[c as int / 16]] + ["0123456789ABCDEF"[c as int % 16]]
  {
  }

  /** What stays: letters, digits, hyphen, full stop, underscore and tilde, and inside a path
      segment also dollar, ampersand, plus, colon, equals and at sign. */
  lemma KeptExactly(c: char)
    ensures var u := c as int;
      && (Unreserved(c) <==> 48 <= u <= 57 || 65 <= u <= 90 || 97 <= u <= 122 || u in {45, 46, 95, 126})
      && (KeptInSegment(c) <==> Unreserved(c) || u in {36, 38, 43, 58, 61, 64})
  {
  }

  /** `url.PathEscape` (`plus` off) and `url.QueryEscape` (`plus` on). */
  function Escape(s: string, keep: char -> bool, plus: bool): string
    requires IsBytes(s)
  {
    if s == [] then [] else EscapeChar(s[0], keep, plus) + Escape(s[1..], keep, plus)
  }

  /** The decoder of `net/url`; `None` for a malformed escape. */
  function Unescape(s: string, plus: bool): Option<string> {
    if s == [] then Some([])
    else if s[0] == '%' then
      if |s| < 3 || HexValue(s[1]).None? || HexValue(s[2]).None? then None
      else
        var rest := Unescape(s[3..], plus);
        if rest.None? then None
        else Some([(16 * HexValue(s[1]).value + HexValue(s[2]).value) as char] + rest.value)
    else
      var rest := Unescape(s[1..], plus);
      if rest.None? then None
      else Some([if plus && s[0] == '+' then ' ' else s[0]] + rest.value)
  }

  /** What a keep set must leave to the escaping for decoding to be its inverse. */
  predicate Decodable(keep: char -> bool, plus: bool) {
    !keep('%') && (plus ==> !keep('+'))
  }

  /** Decoding undoes encoding, for every byte string. */
  lemma {:induction false} UnescapeOfEscape(s: string, keep: char -> bool, plus: bool)
    requires IsBytes(s) && Decodable(keep, plus)
    ensures Unescape(Escape(s, keep, plus), plus) == Some(s)
  {
    if s != [] {
      var rest := Escape(s[1..], keep, plus);
      UnescapeOfEscape(s[1..], keep, plus);
      assert s == [s[0]] + s[1..];
    }
  }

  /** Escaping commutes with concatenation. */
  lemma {:induction false} EscapeConcat(a: string, b: string, keep: char -> bool, plus: bool)
    requires IsBytes(a) && IsBytes(b) && IsBytes(a + b)
    ensures Escape(a + b, keep, plus) == Escape(a, keep, plus) + Escape(b, keep, plus)
  {
    if a == [] {
      assert a + b == b;
    } else {
      assert (a + b)[1..] == a[1..] + b && (a + b)[0] == a[0];
      EscapeConcat(a[1..], b, keep, plus);
      var x, y, z := EscapeChar(a[0], keep, plus), Escape(a[1..], keep, plus), Escape(b, keep, plus);
      assert x + (y + z) == (x + y) + z;
    }
  }

  // ----- the client's URL -----

  predicate KeptInPath(c: char) {
    KeptInSegment(c) || c == '/'
  }

  /** `secretPath` after the common prefix: trim, join, and escape segment by segment. */
  method SecretPath(path: string, name: string) returns (rest: string)
    requires IsBytes(path) && IsBytes(name)
    ensures IsBytes(RestOf(path, name)) && rest == Escape(RestOf(path, name), KeptInPath, false)
  {
    RestIsBytes(path, name);
    var plain := Split(RestOf(path, name), '/');
    SplitIsBytes(RestOf(path, name));
    var segs := EscapeSegments(plain);
    rest := Join(segs, '/');
    EscapeOfJoin(plain, segs);
  }

  /** The loop that rewrites the segments in place. */
  method EscapeSegments(plain: seq<string>) returns (segs: seq<string>)
    requires forall p :: p in plain ==> IsBytes(p)
    ensures |segs| == |plain|
    ensures forall j :: 0 <= j < |plain| ==> plain[j] in plain && segs[j] == Escape(plain[j], KeptInSegment, false)
  {
    segs := plain;
    for i := 0 to |segs|
      invariant |segs| == |plain|
      invariant forall j :: i <= j < |segs| ==> segs[j] == plain[j]
      invariant forall j :: 0 <= j < i ==> plain[j] in plain && segs[j] == Escape(plain[j], KeptInSegment, false)
    {
      assert segs[i] in plain;
      segs := segs[i := Escape(segs[i], KeptInSegment, false)];
    }
  }

  predicate IsSlash(c: char) {
    c == '/'
  }

  /** The unescaped tail of the URL. */
  function RestOf(path: string, name: string): string {
    Tail(Trim(path, IsSlash), Trim(name, IsSlash))
  }

  function Tail(p: string, n: string): string {
    if p == "" then n else p + ['/'] + n
  }

  predicate IsSlashes(s: string) {
    forall i :: 0 <= i < |s| ==> s[i] == '/'
  }

  /** Slashes around path and name do not count: the tail of the URL is the path without them,
      a slash and the name without them, or the name alone when no path is left. */
  lemma RestOfExactly(a: string, path: string, b: string, c: string, name: string, d: string)
    requires IsSlashes(a) && IsSlashes(b) && IsSlashes(c) && IsSlashes(d)
    requires path != "" ==> path[0] != '/' && path[|path| - 1] != '/'
    requires name != "" ==> name[0] != '/' && name[|name| - 1] != '/'
    ensures RestOf(a + path + b, c + name + d) == if path == "" then name else path + "/" + name
  {
    SlashesTrimmed(a, path, b);
    SlashesTrimmed(c, name, d);
  }

  lemma SlashesTrimmed(a: string, text: string, b: string)
    requires IsSlashes(a) && IsSlashes(b) && (text != "" ==> text[0] != '/' && text[|text| - 1] != '/')
    ensures Trim(a + text + b, IsSlash) == text
  {
    if text == "" {
      assert IsSlashes(a + text + b);
      LeftOfDropped(a + text + b, IsSlash);
    } else {
      TrimOfPadded(a, text, b, IsSlash);
    }
  }

  lemma TrimIsBytes(s: string, drop: char -> bool)
    requires IsBytes(s)
    ensures IsBytes(Trim(s, drop))
  {
    var a := LeftCut(s, drop);
    PartIsBytes(a, TrimLeft(s, drop));
    var b := RightCut(TrimLeft(s, drop), drop);
    PartIsBytes(Trim(s, drop), b);
  }

  lemma PartIsBytes(a: string, b: string)
    requires IsBytes(a + b)
    ensures IsBytes(a) && IsBytes(b)
  {
    assert forall i :: 0 <= i < |a| ==> a[i] == (a + b)[i];
    assert forall i :: 0 <= i < |b| ==> b[i] == (a + b)[|a| + i];
  }

  lemma TailIsBytes(p: string, n: string)
    requires IsBytes(p) && IsBytes(n)
    ensures IsBytes(Tail(p, n))
  {
  }

  lemma RestIsBytes(path: string, name: string)
    requires IsBytes(path) && IsBytes(name)
    ensures IsBytes(RestOf(path, name))
  {
    TrimIsBytes(path, IsSlash);
    TrimIsBytes(name, IsSlash);
    TailIsBytes(Trim(path, IsSlash), Trim(name, IsSlash));
  }

  lemma SplitIsBytes(s: string)
    requires IsBytes(s)
    ensures forall p :: p in Split(s, '/') ==> IsBytes(p)
    decreases |s|
  {
    var i := Index(s, '/');
    if i >= 0 {
      SplitIsBytes(s[i + 1..]);
    }
  }

  lemma {:induction false} SameSegment(s: string)
    requires IsBytes(s) && '/' !in s
    ensures Escape(s, KeptInSegment, false) == Escape(s, KeptInPath, false)
  {
    if s != [] {
      SameSegment(s[1..]);
    }
  }

  /** Escaping the segments and joining them escapes the joined text and spares the slashes. */
  lemma {:induction false} EscapeOfJoin(plain: seq<string>, escaped: seq<string>)
    requires |plain| == |escaped| > 0
    requires forall p :: p in plain ==> IsBytes(p) && '/' !in p
    requires forall j :: 0 <= j < |plain| ==> plain[j] in plain && escaped[j] == Escape(plain[j], KeptInSegment, false)
    ensures IsBytes(Join(plain, '/')) && Join(escaped, '/') == Escape(Join(plain, '/'), KeptInPath, false)
  {
    SameSegment(plain[0]);
    if |plain| > 1 {
      EscapeOfJoin(plain[1..], escaped[1..]);
      EscapeConcat(plain[0] + ['/'], Join(plain[1..], '/'), KeptInPath, false);
      EscapeConcat(plain[0], ['/'], KeptInPath, false);
      assert ['/'][1..] == [];
      assert Escape(['/'], KeptInPath, false) == ['/'];
    }
  }

  // ----- client and server together -----

  /** A byte string that neither begins nor ends with a slash. */
  predicate Neat(p: string) {
    IsBytes(p) && (p != "" ==> p[0] != '/' && p[|p| - 1] != '/')
  }

  lemma SafeIsNeat(p: string)
    requires SafePath(p)
    ensures Neat(p)
  {
    SafePathChars(p);
    if p != "" {
      if p[0] == '/' {
        assert p == "" + ['/'] + p[1..];
        SafePathSplits("", p[1..]);
      }
      if p[|p| - 1] == '/' {
        assert p == p[..|p| - 1] + ['/'] + "";
        SafePathSplits(p[..|p| - 1], "");
      }
    }
    assert forall i :: 0 <= i < |p| ==> p[i] in p;
  }

  lemma RestOfNeat(path: string, name: string)
    requires Neat(path) && Neat(name)
    ensures RestOf(path, name) == Tail(path, name) && IsBytes(RestOf(path, name))
  {
    TailIsBytes(path, name);
    NeatIsTrimmed(path);
    NeatIsTrimmed(name);
  }

  lemma NeatIsTrimmed(p: string)
    requires Neat(p)
    ensures Trim(p, IsSlash) == p
  {
  }

  /** What the server sees of the client's escaped tail. */
  function Received(path: string, name: string): Option<string>
    requires IsBytes(RestOf(path, name))
  {
    Unescape(Escape(RestOf(path, name), KeptInPath, false), false)
  }

  lemma ReceivedNeat(path: string, name: string)
    requires Neat(path) && Neat(name)
    ensures IsBytes(RestOf(path, name)) && RestOf(path, name) == Tail(path, name)
    ensures Received(path, name) == Some(RestOf(path, name))
  {
    RestOfNeat(path, name);
    UnescapeOfEscape(RestOf(path, name), KeptInPath, false);
  }

  /** For every path and name that a write accepts, the server reads the client's URL back
      as the same path and name iff the path is not empty and the name holds no slash. */
  lemma ServerRecovers(path: string, name: string)
    requires SafePath(path) && SafePath(name) && name != ""
    ensures IsBytes(RestOf(path, name)) && Received(path, name) == Some(RestOf(path, name))
    ensures SplitSecretPath(RestOf(path, name)) == Some((path, name)) <==> path != "" && '/' !in name
  {
    SafeIsNeat(path);
    SafeIsNeat(name);
    ReceivedNeat(path, name);
    if path == "" {
      EmptyPathNeverSplits(name);
    } else {
      SplitOfJoined(path, name);
    }
  }

  lemma EmptyPathNeverSplits(name: string)
    ensures SplitSecretPath(name) != Some(("", name))
  {
    assert |"" + ['/'] + name| == |name| + 1;
  }

  predicate KeptInQuery(c: char) {
    Unreserved(c)
  }

  /** The environment as the server decodes it from the query. */
  function ReceivedEnv(env: string): Option<string>
    requires IsBytes(env)
  {
    Unescape(Escape(env, KeptInQuery, true), true)
  }

  /** A GET or DELETE built by the client reaches exactly the key that its PUT wrote in the
      configured environment. */
  lemma ReadReachesWrite(auth: Claims, org: string, path: string, name: string, env: string, value: Bytes)
    returns (rest: string, query: string, k: string)
    requires CanActOnOrg(auth, org)
    requires SafePath(path) && path != "" && SafePath(name) && name != "" && '/' !in name
    requires IsBytes(env) && !Blank(env)
    ensures IsBytes(RestOf(path, name)) && Received(path, name) == Some(rest) && ReceivedEnv(env) == Some(query)
    ensures Admit(PostRequest(Some(auth), org, Some(PostBody(path, name, env, value)))) == Accept(Post(k, value))
    ensures Admit(GetRequest(Some(auth), org, rest, query)) == Accept(Get(k))
    ensures Admit(DeleteRequest(Some(auth), org, rest, query)) == Accept(Delete(k))
  {
    SafeIsNeat(path);
    SafeIsNeat(name);
    ReceivedNeat(path, name);
    UnescapeOfEscape(env, KeptInQuery, true);
    rest, query, k := path + ['/'] + name, env, Rel(Triple(path, env, name));
    SameKeyAcrossVerbs(auth, org, path, env, name, value, value, 0);
  }

  /** The escaped environment holds no character that would end or split the query. */
  lemma {:induction false} QueryIsOneValue(env: string, i: nat)
    requires IsBytes(env) && i < |Escape(env, KeptInQuery, true)|
    ensures var c := Escape(env, KeptInQuery, true)[i]; Unreserved(c) || c == '%' || c == '+'
  {
    var first := EscapeChar(env[0], KeptInQuery, true);
    if i >= |first| {
      QueryIsOneValue(env[1..], i - |first|);
    }
  }
}
