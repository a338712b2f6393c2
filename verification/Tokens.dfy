/** The two list readers: the consensus snapshot and the secret specifications. */
module Tokens {
  import opened Text

  // ----- the consensus list -----

  predicate IsDelimiter(c: char) {
    c == '\n' || c == ',' || c == ' ' || c == '\t' || c == '\r'
  }

  function Flush(out: seq<string>, field: string): seq<string> {
    if field != "" then out + [field] else out
  }

  /** The finished tokens and the current field after reading `raw`. */
  function Scan(raw: string): (seq<string>, string) {
    if raw == [] then ([], "")
    else
      var (out, field) := Scan(raw[..|raw| - 1]);
      var c := raw[|raw| - 1];
      if IsDelimiter(c) then (Flush(out, field), "") else (out, field + [c])
  }

  function Tokens(raw: string): seq<string> {
    Flush(Scan(raw).0, Scan(raw).1)
  }

  /** `splitConsensusList`. */
  method SplitConsensusList(raw: string) returns (out: seq<string>)
    ensures out == Tokens(raw)
  {
    out := [];
    var field := "";
    for i := 0 to |raw|
      invariant (out, field) == Scan(raw[..i])
    {
      assert raw[..i + 1][..i] == raw[..i];
      if IsDelimiter(raw[i]) {
        if |field| > 0 {
          out := out + [field];
          field := "";
        }
        continue;
      }
      field := field + [raw[i]];
    }
    assert raw[..|raw|] == raw;
    if |field| > 0 {
      out := out + [field];
    }
  }

  /** Newline, comma, space, tab and carriage return. */
  lemma DelimitersListed(c: char)
    ensures IsDelimiter(c) <==> c as int in {10, 44, 32, 9, 13}
  {
  }

  lemma {:induction false} ScanConcat(a: string, d: char, b: string)
    requires IsDelimiter(d)
    ensures Scan(a + [d] + b) == (Tokens(a) + Scan(b).0, Scan(b).1)
  {
    var s := a + [d] + b;
    if b == [] {
      assert s[..|s| - 1] == a && s[|s| - 1] == d;
      assert Tokens(a) + [] == Tokens(a);
    } else {
      var b' := b[..|b| - 1];
      ScanConcat(a, d, b');
      assert s[..|s| - 1] == a + [d] + b' && s[|s| - 1] == b[|b| - 1];
      var out, field := Scan(b').0, Scan(b').1;
      assert Flush(Tokens(a) + out, field) == Tokens(a) + Flush(out, field);
    }
  }

  /** Splitting at a delimiter splits both sides on their own. */
  lemma TokensConcat(a: string, d: char, b: string)
    requires IsDelimiter(d)
    ensures Tokens(a + [d] + b) == Tokens(a) + Tokens(b)
  {
    ScanConcat(a, d, b);
  }

  predicate IsToken(t: string) {
    t != "" && forall i :: 0 <= i < |t| ==> !IsDelimiter(t[i])
  }

  predicate IsRun(r: string) {
    forall i :: 0 <= i < |r| ==> IsDelimiter(r[i])
  }

  lemma {:induction false} ScanToken(t: string)
    requires forall i :: 0 <= i < |t| ==> !IsDelimiter(t[i])
    ensures Scan(t) == ([], t)
  {
    if t != [] {
      ScanToken(t[..|t| - 1]);
      assert t == t[..|t| - 1] + [t[|t| - 1]];
    }
  }

  lemma {:induction false} LeadingRunVanishes(r: string, b: string)
    requires IsRun(r)
    ensures Tokens(r + b) == Tokens(b)
  {
    if r == [] {
      assert r + b == b;
    } else {
      assert r + b == [] + [r[0]] + (r[1..] + b);
      TokensConcat([], r[0], r[1..] + b);
      LeadingRunVanishes(r[1..], b);
    }
  }

  /** Each token followed by its run of delimiters. */
  function Render(tokens: seq<string>, runs: seq<string>): string
    requires |tokens| == |runs|
  {
    if tokens == [] then [] else tokens[0] + runs[0] + Render(tokens[1..], runs[1..])
  }

  lemma TokenThenRun(t: string, r: string, rest: string)
    requires IsToken(t) && IsRun(r) && r != ""
    ensures Tokens(t + r + rest) == [t] + Tokens(rest)
  {
    ScanToken(t);
    LeadingRunVanishes(r[1..], rest);
    assert t + r + rest == t + [r[0]] + (r[1..] + rest);
    TokensConcat(t, r[0], r[1..] + rest);
  }

  lemma LastToken(t: string, r: string)
    requires IsToken(t) && IsRun(r)
    ensures Tokens(t + r + []) == [t]
  {
    if r == "" {
      ScanToken(t);
      assert t + r + [] == t;
    } else {
      TokenThenRun(t, r, []);
    }
  }

  lemma {:induction false} RenderedTokens(tokens: seq<string>, runs: seq<string>)
    requires |tokens| == |runs|
    requires forall i :: 0 <= i < |tokens| ==> IsToken(tokens[i]) && IsRun(runs[i])
    requires forall i :: 0 <= i < |runs| - 1 ==> runs[i] != ""
    ensures Tokens(Render(tokens, runs)) == tokens
  {
    if |tokens| == 1 {
      LastToken(tokens[0], runs[0]);
    } else if tokens != [] {
      RenderedTokens(tokens[1..], runs[1..]);
      TokenThenRun(tokens[0], runs[0], Render(tokens[1..], runs[1..]));
    }
  }

  /** Any text made of tokens with non-empty delimiter runs between them, and any runs before
      and after, splits into exactly those tokens. */
  lemma TokensOfRender(lead: string, tokens: seq<string>, runs: seq<string>)
    requires |tokens| == |runs| && IsRun(lead)
    requires forall i :: 0 <= i < |tokens| ==> IsToken(tokens[i]) && IsRun(runs[i])
    requires forall i :: 0 <= i < |runs| - 1 ==> runs[i] != ""
    ensures Tokens(lead + Render(tokens, runs)) == tokens
  {
    LeadingRunVanishes(lead, Render(tokens, runs));
    RenderedTokens(tokens, runs);
  }

  /** Whatever the input, every returned element is a token. */
  lemma {:induction false} OnlyTokens(raw: string)
    ensures forall t :: t in Tokens(raw) ==> IsToken(t)
    ensures forall t :: t in Scan(raw).0 ==> IsToken(t)
    ensures forall i :: 0 <= i < |Scan(raw).1| ==> !IsDelimiter(Scan(raw).1[i])
  {
    if raw != [] {
      OnlyTokens(raw[..|raw| - 1]);
    }
  }

  // ----- the secret specifications -----

  datatype Spec = Spec(envName: string, path: string, name: string)

  datatype Item = Blank | Malformed | Entry(spec: Spec)

  /** One comma-separated element of `NAME=path/key` form. */
  function ParseItem(raw: string): Item {
    ParseTrimmed(TrimSpace(raw), TrimSpace)
  }

  function ParseTrimmed(item: string, trim: string -> string): Item {
    if item == "" then Blank else ParseSides(item, Index(item, '='), trim)
  }

  /** The two sides of the equals sign at `eq`, trimmed. */
  function ParseSides(item: string, eq: int, trim: string -> string): Item
    requires eq < |item|
  {
    if eq <= 0 then Malformed
    else
      var envName, full := trim(item[..eq]), trim(item[eq + 1..]);
      if envName == "" || full == "" then Malformed
      else ParseFull(envName, full)
  }

  function ParseFull(envName: string, full: string): Item {
    var slash := LastIndex(full, '/');
    if slash <= 0 || slash == |full| - 1 then Malformed
    else Entry(Spec(envName, full[..slash], full[slash + 1..]))
  }

  /** Skips blank elements and stops at the first malformed one. */
  function Gather(items: seq<string>, parse: string -> Item): Option<seq<Spec>> {
    if items == [] then Some([])
    else
      var before := Gather(items[..|items| - 1], parse);
      if before.None? then None
      else
        match parse(items[|items| - 1])
        case Blank => before
        case Malformed => None
        case Entry(s) => Some(before.value + [s])
  }

  /** A malformed element is fatal, and so is an empty result. */
  function SpecsOf(raw: string): Option<seq<Spec>> {
    var r := Gather(Split(raw, ','), ParseItem);
    if r == Some([]) then None else r
  }

  /** `parseSpecs`; `None` stands for its errors. */
  method ParseSpecs(raw: string) returns (r: Option<seq<Spec>>)
    ensures r == SpecsOf(raw)
  {
    r := GatherLoop(Split(raw, ','), ParseItem);
    if r == Some([]) {
      r := None;
    }
  }

  /** Its loop. */
  method GatherLoop(items: seq<string>, parse: string -> Item) returns (r: Option<seq<Spec>>)
    ensures r == Gather(items, parse)
  {
    var out: seq<Spec> := [];
    for i := 0 to |items|
      invariant Gather(items[..i], parse) == Some(out)
    {
      assert items[..i + 1][..i] == items[..i];
      match parse(items[i]) {
        case Blank =>
        case Malformed =>
          FatalPrefix(items, i + 1, parse);
          return None;
        case Entry(s) => out := out + [s];
      }
    }
    assert items[..|items|] == items;
    return Some(out);
  }

  lemma {:induction false} FatalPrefix(items: seq<string>, n: nat, parse: string -> Item)
    requires n <= |items| && Gather(items[..n], parse).None?
    ensures Gather(items, parse).None?
  {
    if n == |items| {
      assert items[..n] == items;
    } else {
      assert items[..|items| - 1][..n] == items[..n];
      FatalPrefix(items[..|items| - 1], n, parse);
    }
  }

  function Print(s: Spec): string {
    s.envName + ['='] + (s.path + ['/'] + s.name)
  }

  /** The specifications that survive printing. */
  predicate WellFormed(s: Spec) {
    && s.envName != "" && Trimmed(s.envName) && '=' !in s.envName
    && s.path != "" && s.name != "" && '/' !in s.name
    && !IsSpace(s.path[0]) && !IsSpace(s.name[|s.name| - 1])
  }

  lemma FullRoundTrip(s: Spec)
    requires s.path != "" && s.name != "" && '/' !in s.name
    ensures ParseFull(s.envName, s.path + ['/'] + s.name) == Entry(s)
  {
    LastIndexOfJoined(s.path, '/', s.name);
  }

  lemma SidesOfJoined(envName: string, full: string, trim: string -> string)
    requires envName != "" && full != "" && trim(envName) == envName && trim(full) == full
    ensures ParseSides(envName + ['='] + full, |envName|, trim) == ParseFull(envName, full)
  {
    var item := envName + ['='] + full;
    assert item[..|envName|] == envName && item[|envName| + 1..] == full;
  }

  lemma PrintedParses(s: Spec)
    requires WellFormed(s)
    ensures ParseItem(Print(s)) == Entry(s)
  {
    TrimmedPrintParses(s, TrimSpace);
  }

  lemma TrimmedPrintParses(s: Spec, trim: string -> string)
    requires WellFormed(s)
    requires trim(s.envName) == s.envName && trim(s.path + ['/'] + s.name) == s.path + ['/'] + s.name
    ensures ParseTrimmed(Print(s), trim) == Entry(s)
  {
    var full := s.path + ['/'] + s.name;
    IndexOfJoined(s.envName, '=', full);
    SidesOfJoined(s.envName, full, trim);
    FullRoundTrip(s);
  }

  /** Parsing one printed specification gives it back iff it is well-formed. */
  lemma ItemRoundTrip(s: Spec)
    ensures ParseItem(Print(s)) == Entry(s) <==> WellFormed(s)
  {
    if WellFormed(s) {
      PrintedParses(s);
    }
    if ParseItem(Print(s)).Entry? {
      ParsedIsWellFormed(Print(s));
    }
  }

  lemma TrimmedSides(item: string, eq: int)
    requires 0 <= eq == Index(item, '=')
    ensures '=' !in TrimSpace(item[..eq])
    ensures ',' !in item ==> ',' !in TrimSpace(item[..eq]) && ',' !in TrimSpace(item[eq + 1..])
  {
    Inside(item[..eq], '=');
    Inside(item[..eq], ',');
    Inside(item[eq + 1..], ',');
  }

  lemma TrimmedParts(item: string) returns (envName: string, full: string)
    requires ParseTrimmed(item, TrimSpace).Entry?
    ensures envName != "" && Trimmed(envName) && '=' !in envName && full != "" && Trimmed(full)
    ensures ParseTrimmed(item, TrimSpace) == ParseFull(envName, full)
    ensures ',' !in item ==> ',' !in envName && ',' !in full
  {
    var eq := Index(item, '=');
    TrimmedSides(item, eq);
    envName, full := TrimSpace(item[..eq]), TrimSpace(item[eq + 1..]);
  }

  lemma ParsedIsWellFormed(raw: string)
    requires ParseItem(raw).Entry?
    ensures WellFormed(ParseItem(raw).spec)
    ensures ',' !in raw ==> ',' !in Print(ParseItem(raw).spec)
  {
    Inside(raw, ',');
    var envName, full := TrimmedParts(TrimSpace(raw));
    FullParts(envName, full);
    assert Print(ParseFull(envName, full).spec) == envName + ['='] + full;
  }

  lemma FullParts(envName: string, full: string)
    requires ParseFull(envName, full).Entry?
    ensures var s := ParseFull(envName, full).spec;
      && s.envName == envName && s.path + ['/'] + s.name == full
      && s.path != "" && s.name != "" && '/' !in s.name
      && s.path[0] == full[0] && s.name[|s.name| - 1] == full[|full| - 1]
  {
  }

  /** Trimming only removes characters. */
  lemma Inside(raw: string, c: char)
    ensures c !in raw ==> c !in TrimSpace(raw)
  {
    var a, b := TrimSpaceParts(raw);
  }

  /** An element is read as a specification iff it is that specification's name, an equals sign
      and its path and key, well-formed, with any white space around the two sides. */
  lemma ItemExactly(raw: string, s: Spec)
    ensures ParseItem(raw) == Entry(s) <==>
      && WellFormed(s)
      && exists a, b, c, d ::
           raw == a + s.envName + b + "=" + c + (s.path + "/" + s.name) + d
           && Text.Blank(a) && Text.Blank(b) && Text.Blank(c) && Text.Blank(d)
  {
    if ParseItem(raw) == Entry(s) {
      ParsedIsWellFormed(raw);
      var a, b, c, d := PaddingOf(raw, s);
    }
    forall a, b, c, d |
      && WellFormed(s) && raw == a + s.envName + b + "=" + c + (s.path + "/" + s.name) + d
      && Text.Blank(a) && Text.Blank(b) && Text.Blank(c) && Text.Blank(d)
      ensures ParseItem(raw) == Entry(s)
    {
      PaddedParses(raw, s, a, b, c, d);
    }
  }

  lemma SidesOf(item: string) returns (l: string, r: string)
    requires ParseTrimmed(item, TrimSpace).Entry?
    ensures item == l + ['='] + r
    ensures ParseTrimmed(item, TrimSpace) == ParseFull(TrimSpace(l), TrimSpace(r))
  {
    var eq := Index(item, '=');
    l, r := item[..eq], item[eq + 1..];
  }

  lemma PaddingOf(raw: string, s: Spec) returns (a: string, b: string, c: string, d: string)
    ensures ParseItem(raw) == Entry(s) ==>
      && raw == a + s.envName + b + "=" + c + (s.path + "/" + s.name) + d
      && Text.Blank(a) && Text.Blank(b) && Text.Blank(c) && Text.Blank(d)
  {
    if ParseItem(raw) == Entry(s) {
      var x, y := TrimSpaceParts(raw);
      var l, r := SidesOf(TrimSpace(raw));
      var l1, l2 := TrimSpaceParts(l);
      var r1, r2 := TrimSpaceParts(r);
      FullParts(TrimSpace(l), TrimSpace(r));
      BlankConcat(x, l1);
      BlankConcat(r2, y);
      a, b, c, d := x + l1, l2, r1, r2 + y;
      Padding(x, l1, s.envName, l2, r1, s.path + ['/'] + s.name, r2, y);
    } else {
      a, b, c, d := "", "", "", "";
    }
  }

  lemma Padding(x: string, l1: string, l: string, l2: string, r1: string, r: string, r2: string, y: string)
    ensures x + ((l1 + l + l2) + ['='] + (r1 + r + r2)) + y == (x + l1) + l + l2 + "=" + r1 + r + (r2 + y)
  {
  }

  lemma BlankConcat(a: string, b: string)
    requires Text.Blank(a) && Text.Blank(b)
    ensures Text.Blank(a + b)
  {
  }

  lemma PaddedParses(raw: string, s: Spec, a: string, b: string, c: string, d: string)
    requires WellFormed(s) && raw == a + s.envName + b + "=" + c + (s.path + "/" + s.name) + d
    requires Text.Blank(a) && Text.Blank(b) && Text.Blank(c) && Text.Blank(d)
    ensures ParseItem(raw) == Entry(s)
  {
    OuterTrims(raw, s, a, b, c, d);
    InnerTrims(s, b, c);
    SidesParse(s.envName + b, c + (s.path + ['/'] + s.name), s, TrimSpace);
  }

  lemma OuterTrims(raw: string, s: Spec, a: string, b: string, c: string, d: string)
    requires WellFormed(s) && raw == a + s.envName + b + "=" + c + (s.path + "/" + s.name) + d
    requires Text.Blank(a) && Text.Blank(d)
    ensures TrimSpace(raw) == (s.envName + b) + ['='] + (c + (s.path + ['/'] + s.name))
  {
    var item := (s.envName + b) + ['='] + (c + (s.path + ['/'] + s.name));
    Outer(a, s.envName, b, c, s.path, s.name, d);
    TrimSpaceOfPadded(a, item, d);
  }

  lemma Outer(a: string, e: string, b: string, c: string, p: string, n: string, d: string)
    ensures a + e + b + "=" + c + (p + "/" + n) + d == a + ((e + b) + ['='] + (c + (p + ['/'] + n))) + d
  {
  }

  lemma InnerTrims(s: Spec, b: string, c: string)
    requires WellFormed(s) && Text.Blank(b) && Text.Blank(c)
    ensures TrimSpace(s.envName + b) == s.envName
    ensures TrimSpace(c + (s.path + ['/'] + s.name)) == s.path + ['/'] + s.name
  {
    var full := s.path + ['/'] + s.name;
    assert full[0] == s.path[0] && full[|full| - 1] == s.name[|s.name| - 1];
    TrimSpaceOfPadded("", s.envName, b);
    TrimSpaceOfPadded(c, full, "");
    assert "" + s.envName + b == s.envName + b && c + full + "" == c + full;
  }

  lemma SidesParse(left: string, right: string, s: Spec, trim: string -> string)
    requires '=' !in left && left != "" && WellFormed(s)
    requires trim(left) == s.envName && trim(right) == s.path + ['/'] + s.name
    ensures ParseTrimmed(left + ['='] + right, trim) == Entry(s)
  {
    IndexOfJoined(left, '=', right);
    SidesAt(left, right, trim);
    FullRoundTrip(s);
  }

  lemma SidesAt(left: string, right: string, trim: string -> string)
    requires left != "" && trim(left) != "" && trim(right) != ""
    ensures ParseSides(left + ['='] + right, |left|, trim) == ParseFull(trim(left), trim(right))
  {
    var item := left + ['='] + right;
    assert item[..|left|] == left && item[|left| + 1..] == right;
  }

  function PrintAll(specs: seq<Spec>): (lines: seq<string>)
    ensures |lines| == |specs|
  {
    if specs == [] then [] else PrintAll(specs[..|specs| - 1]) + [Print(specs[|specs| - 1])]
  }

  lemma {:induction false} GatherPrinted(specs: seq<Spec>, parse: string -> Item)
    requires forall s :: s in specs ==> parse(Print(s)) == Entry(s)
    ensures Gather(PrintAll(specs), parse) == Some(specs)
  {
    if specs != [] {
      var init, last := specs[..|specs| - 1], specs[|specs| - 1];
      GatherPrinted(init, parse);
      assert last in specs;
      assert PrintAll(specs)[..|init|] == PrintAll(init);
      assert specs == init + [last];
    }
  }

  lemma {:induction false} PrintedCommaFree(specs: seq<Spec>)
    requires forall s :: s in specs ==> ',' !in Print(s)
    ensures forall l :: l in PrintAll(specs) ==> ',' !in l
  {
    if specs != [] {
      PrintedCommaFree(specs[..|specs| - 1]);
      assert specs[|specs| - 1] in specs;
    }
  }

  /** A specification that a comma-separated list can carry. */
  predicate Listable(s: Spec) {
    WellFormed(s) && ',' !in Print(s)
  }

  /** Parsing a comma-joined print of any non-empty list of well-formed, comma-free
      specifications returns the same list. */
  lemma SpecsRoundTrip(specs: seq<Spec>)
    requires specs != [] && forall s :: s in specs ==> Listable(s)
    ensures SpecsOf(Join(PrintAll(specs), ',')) == Some(specs)
  {
    PrintedCommaFree(specs);
    SplitOfJoin(PrintAll(specs), ',');
    forall s | s in specs ensures ParseItem(Print(s)) == Entry(s) {
      ItemRoundTrip(s);
    }
    GatherPrinted(specs, ParseItem);
  }

  /** Elements are taken one after the other: what one element adds, and what a whole list is
      made of. */
  lemma {:induction false} GatherConcat(a: seq<string>, b: seq<string>, parse: string -> Item)
    ensures Gather(a + b, parse) ==
      if Gather(a, parse).None? || Gather(b, parse).None? then None
      else Some(Gather(a, parse).value + Gather(b, parse).value)
  {
    if b == [] {
      assert a + b == a;
      assert Gather(a, parse).Some? ==> Gather(a, parse).value + [] == Gather(a, parse).value;
    } else {
      var init, last := b[..|b| - 1], b[|b| - 1];
      assert (a + b)[..|a + b| - 1] == a + init && (a + b)[|a + b| - 1] == last;
      GatherConcat(a, init, parse);
      if Gather(a, parse).Some? && Gather(b, parse).Some? && parse(last).Entry? {
        var x, y := Gather(a, parse).value, Gather(init, parse).value;
        assert (x + y) + [parse(last).spec] == x + (y + [parse(last).spec]);
      }
    }
  }

  lemma GatherOne(item: string, parse: string -> Item)
    ensures Gather([item], parse) == match parse(item)
      case Blank => Some([])
      case Malformed => None
      case Entry(s) => Some([s])
  {
    assert [item][..0] == [];
    assert forall s: Spec :: [] + [s] == [s];
  }

  lemma {:induction false} GatherExactly(items: seq<string>, parse: string -> Item)
    ensures Gather(items, parse).Some? <==> forall i :: i in items ==> !parse(i).Malformed?
    ensures Gather(items, parse).Some? ==>
      (Gather(items, parse).value == [] <==> forall i :: i in items ==> parse(i).Blank?)
  {
    if items != [] {
      var init, last := items[..|items| - 1], items[|items| - 1];
      GatherExactly(init, parse);
      assert items == init + [last];
      assert forall i :: i in items <==> i in init || i == last;
    }
  }

  lemma GathersSomething(items: seq<string>, parse: string -> Item, blank: string -> bool)
    requires forall i :: i in items ==> (parse(i).Blank? <==> blank(i))
    ensures Gather(items, parse).Some? && Gather(items, parse) != Some([]) <==>
      (forall i :: i in items ==> !parse(i).Malformed?) && (exists i :: i in items && !blank(i))
  {
    GatherExactly(items, parse);
  }

  /** A list is accepted iff none of its elements is malformed and not all of them are
      nothing but white space. */
  lemma AcceptedExactly(raw: string)
    ensures SpecsOf(raw).Some? <==>
      && (forall i :: i in Split(raw, ',') ==> !ParseItem(i).Malformed?)
      && (exists i :: i in Split(raw, ',') && !Text.Blank(i))
  {
    BlankItems(Split(raw, ','));
    GathersSomething(Split(raw, ','), ParseItem, Text.Blank);
  }

  lemma BlankItems(items: seq<string>)
    ensures forall i :: i in items ==> (ParseItem(i).Blank? <==> Text.Blank(i))
  {
    forall i | i in items ensures ParseItem(i).Blank? <==> Text.Blank(i) {
      BlankItem(i);
    }
  }

  lemma BlankItem(raw: string)
    ensures ParseItem(raw).Blank? <==> Text.Blank(raw)
  {
    TrimSpaceOfBlank(raw);
  }

  lemma {:induction false} GatheredAreGood(items: seq<string>, parse: string -> Item, good: Spec -> bool)
    requires Gather(items, parse).Some?
    requires forall i :: i in items ==> parse(i).Entry? ==> good(parse(i).spec)
    ensures forall s :: s in Gather(items, parse).value ==> good(s)
  {
    if items != [] {
      var init, last := items[..|items| - 1], items[|items| - 1];
      assert forall i :: i in init ==> i in items;
      GatheredAreGood(init, parse, good);
      assert last in items;
    }
  }

  /** Everything the parser accepts is a non-empty list of well-formed specifications, and
      printing it and parsing again changes nothing. */
  lemma AcceptedIsNormal(raw: string)
    requires SpecsOf(raw).Some?
    ensures var specs := SpecsOf(raw).value;
      specs != [] && (forall s :: s in specs ==> Listable(s)) && SpecsOf(Join(PrintAll(specs), ',')) == Some(specs)
  {
    var items := Split(raw, ',');
    forall i | i in items && ParseItem(i).Entry? ensures Listable(ParseItem(i).spec) {
      ParsedIsWellFormed(i);
    }
    GatheredAreGood(items, ParseItem, Listable);
    SpecsRoundTrip(SpecsOf(raw).value);
  }
}
