/** The env file that the fetch tool writes for a shell to read. */
module EnvFile {
  import opened Text

  // ----- one value -----

  /** The characters that the writer puts a backslash before. */
  predicate Special(c: char) {
    c == '\\' || c == '"' || c == '`' || c == '$'
  }

  function EscapeOne(c: char): string {
    if Special(c) then ['\\', c] else [c]
  }

  function EscapeValue(v: string): string {
    if v == [] then [] else EscapeOne(v[0]) + EscapeValue(v[1..])
  }

  /** `shellQuote`. */
  function ShellQuote(v: string): string {
    ['"'] + EscapeValue(v) + ['"']
  }

  datatype Read = Bad | Got(value: string, rest: string)

  function Prepend(s: string, r: Read): Read {
    if r.Bad? then Bad else Got(s + r.value, r.rest)
  }

  /** A shell reading on after an opening double quote, by section 2.2.3 of the POSIX Shell
      Command Language: a backslash quotes one of the special characters, joins lines, or
      stands for itself. An expansion or a missing closing quote is `Bad` here. */
  function ReadQuoted(text: string): Read {
    if text == [] then Bad
    else if text[0] == '"' then Got([], text[1..])
    else if text[0] == '$' || text[0] == '`' then Bad
    else if text[0] != '\\' then Prepend([text[0]], ReadQuoted(text[1..]))
    else if |text| < 2 then Bad
    else if text[1] in ['$', '`', '"', '\\'] then Prepend([text[1]], ReadQuoted(text[2..]))
    else if text[1] == '\n' then ReadQuoted(text[2..])
    else Prepend(['\\'], ReadQuoted(text[1..]))
  }

  lemma ReadOne(c: char, next: string)
    ensures ReadQuoted(EscapeOne(c) + next) == Prepend([c], ReadQuoted(next))
  {
    var text := EscapeOne(c) + next;
    if Special(c) {
      assert text[0] == '\\' && text[1] == c && text[2..] == next;
    } else {
      assert text[0] == c && text[1..] == next;
    }
  }

  /** The writer marks exactly the characters that a shell reads specially between double
      quotes, and nothing else: a marked character is one that does not stand for itself
      there. */
  lemma MarksExactly(c: char, next: string)
    requires ReadQuoted(next).Got?
    ensures Special(c) <==> c == '\\' || ReadQuoted([c] + next) != Prepend([c], ReadQuoted(next))
    ensures EscapeOne(c) == if c in ['$', '`', '"', '\\'] then ['\\', c] else [c]
  {
    assert ([c] + next)[1..] == next;
    QuoteShrinks(next);
  }

  /** Reading a quoted value followed by any text gives back exactly the value and stops
      at its closing quote. */
  lemma {:induction false} ReadOfQuote(v: string, rest: string)
    ensures ReadQuoted(EscapeValue(v) + ['"'] + rest) == Got(v, rest)
  {
    if v == [] {
      var tail := ['"'] + rest;
      assert EscapeValue(v) + ['"'] + rest == tail && tail[0] == '"' && tail[1..] == rest;
    } else {
      var next := EscapeValue(v[1..]) + ['"'] + rest;
      ReadOfQuote(v[1..], rest);
      ReadOne(v[0], next);
      assert EscapeValue(v) + ['"'] + rest == EscapeOne(v[0]) + next;
      assert v == [v[0]] + v[1..];
    }
  }

  // ----- the whole file -----

  predicate NameChar(c: char) {
    'a' <= c <= 'z' || 'A' <= c <= 'Z' || c == '_'
  }

  /** A name that a shell takes as a variable. */
  predicate Identifier(n: string) {
    n != "" && NameChar(n[0]) && forall i :: 1 <= i < |n| ==> NameChar(n[i]) || '0' <= n[i] <= '9'
  }

  /** Identifiers, by section 3.235 of the POSIX Base Definitions: letters, digits and underscores
      of the portable character set, not beginning with a digit. */
  lemma IdentifierExactly(n: string)
    ensures Identifier(n) <==>
      && |n| > 0 && !(48 <= n[0] as int <= 57)
      && forall i :: 0 <= i < |n| ==>
           var u := n[i] as int; 48 <= u <= 57 || 65 <= u <= 90 || u == 95 || 97 <= u <= 122
  {
  }

  function Line(name: string, value: string): string {
    name + ['='] + ShellQuote(value) + ['\n']
  }

  function Render(keys: seq<string>, values: map<string, string>): string
    requires forall k :: k in keys ==> k in values
  {
    if keys == [] then [] else Line(keys[0], values[keys[0]]) + Render(keys[1..], values)
  }

  datatype Assignment = NoAssignment | Assignment(name: string, value: string, rest: string)

  /** What follows the equals sign: a double-quoted value and the end of the line. */
  function ReadValue(name: string, text: string): (r: Assignment)
    ensures r.Assignment? ==> r.name == name && |r.rest| < |text|
  {
    if text == [] || text[0] != '"' then NoAssignment
    else
      QuoteShrinks(text[1..]);
      match ReadQuoted(text[1..])
      case Bad => NoAssignment
      case Got(value, rest) =>
        if rest == [] || rest[0] != '\n' then NoAssignment else Assignment(name, value, rest[1..])
  }

  /** One assignment with a double-quoted value, up to the end of its line. */
  function ReadAssignment(text: string): (r: Assignment)
    ensures r.Assignment? ==> Identifier(r.name) && |r.rest| < |text|
  {
    var i := Index(text, '=');
    if i < 0 || !Identifier(text[..i]) then NoAssignment else ReadValue(text[..i], text[i + 1..])
  }

  /** The assignments a shell makes when it reads the file; a later one wins. */
  function ReadFile(text: string): (r: Option<map<string, string>>)
    ensures r.Some? ==> forall k :: k in r.value ==> Identifier(k)
    decreases |text|
  {
    if text == [] then Some(map[])
    else
      var a := ReadAssignment(text);
      if a.NoAssignment? then None
      else
        var later := ReadFile(a.rest);
        if later.None? then None else Some(map[a.name := a.value] + later.value)
  }

  lemma {:induction false} QuoteShrinks(text: string)
    ensures ReadQuoted(text).Got? ==> |ReadQuoted(text).rest| < |text|
    decreases |text|
  {
    if text != [] {
      QuoteShrinks(text[1..]);
      if |text| >= 2 {
        QuoteShrinks(text[2..]);
      }
    }
  }

  /** The file writer. `keys` is any enumeration of the names; the tool sorts them. */
  method WriteEnvFile(keys: seq<string>, values: map<string, string>) returns (text: string)
    requires forall k :: k in keys <==> k in values
    ensures ReadFile(text) == Some(values) <==> forall k :: k in values ==> Identifier(k)
  {
    text := "";
    for i := 0 to |keys|
      invariant text + Render(keys[i..], values) == Render(keys, values)
    {
      var k := keys[i];
      assert k in keys;
      assert keys[i..][1..] == keys[i + 1..];
      assert text + (Line(k, values[k]) + Render(keys[i + 1..], values))
          == (text + Line(k, values[k])) + Render(keys[i + 1..], values);
      text := text + (k + "=" + ShellQuote(values[k]) + "\n");
    }
    assert text == Render(keys, values);
    FileRoundTrip(keys, values);
  }

  /** Reading the generated file restores exactly the name-to-value map iff every name is an
      identifier. */
  lemma FileRoundTrip(keys: seq<string>, values: map<string, string>)
    requires forall k :: k in keys <==> k in values
    ensures ReadFile(Render(keys, values)) == Some(values) <==> forall k :: k in values ==> Identifier(k)
  {
    if forall k :: k in values ==> Identifier(k) {
      ReadOfRender(keys, values);
      assert Restrict(keys, values) == values;
    }
  }

  function Restrict(keys: seq<string>, values: map<string, string>): map<string, string> {
    map k | k in keys && k in values :: values[k]
  }

  lemma RestrictStep(keys: seq<string>, values: map<string, string>)
    requires keys != [] && keys[0] in values
    ensures Restrict(keys, values) == map[keys[0] := values[keys[0]]] + Restrict(keys[1..], values)
  {
    assert keys == [keys[0]] + keys[1..];
  }

  lemma {:induction false} ReadOfRender(keys: seq<string>, values: map<string, string>)
    requires forall k :: k in keys ==> k in values && Identifier(k)
    ensures ReadFile(Render(keys, values)) == Some(Restrict(keys, values))
  {
    if keys != [] {
      var name, rest := keys[0], Render(keys[1..], values);
      assert name in keys;
      ReadOfRender(keys[1..], values);
      ReadOfLine(name, values[name], rest);
      RestrictStep(keys, values);
    }
  }

  lemma ReadOfLine(name: string, value: string, rest: string)
    requires Identifier(name)
    ensures ReadAssignment(Line(name, value) + rest) == Assignment(name, value, rest)
  {
    var quoted := EscapeValue(value) + ['"'] + (['\n'] + rest);
    LineParts(name, value, rest);
    IndexOfJoined(name, '=', ['"'] + quoted);
    ValueReads(name, value, rest);
  }

  lemma ValueReads(name: string, value: string, rest: string)
    ensures ReadValue(name, ['"'] + (EscapeValue(value) + ['"'] + (['\n'] + rest))) == Assignment(name, value, rest)
  {
    var quoted := EscapeValue(value) + ['"'] + (['\n'] + rest);
    ReadOfQuote(value, ['\n'] + rest);
    assert (['"'] + quoted)[1..] == quoted;
    assert (['\n'] + rest)[1..] == rest;
  }

  lemma LineParts(name: string, value: string, rest: string)
    ensures Line(name, value) + rest == name + ['='] + (['"'] + (EscapeValue(value) + ['"'] + (['\n'] + rest)))
  {
    var e := EscapeValue(value);
    calc {
      name + ['='] + (['"'] + e + ['"']) + ['\n'] + rest;
      name + ['='] + ((['"'] + e + ['"']) + (['\n'] + rest));
      { assert (['"'] + e + ['"']) + (['\n'] + rest) == ['"'] + (e + ['"'] + (['\n'] + rest)); }
      name + ['='] + (['"'] + (e + ['"'] + (['\n'] + rest)));
    }
  }
}
