/** The string operations of the Go standard library that the modelled code leans on,
    each with the contract its callers rely on. */
module Text {

  datatype Option<+T> = None | Some(value: T)

  /** The characters `strings.TrimSpace` removes (`unicode.IsSpace`). */
  predicate IsSpace(c: char) {
    var u := c as int;
    || 0x09 <= u <= 0x0D || u == 0x20 || u == 0x85 || u == 0xA0 || u == 0x1680
    || 0x2000 <= u <= 0x200A || u == 0x2028 || u == 0x2029 || u == 0x202F || u == 0x205F || u == 0x3000
  }

  /** They are the twenty-five characters with the Unicode property White_Space. */
  lemma SpacesListed(c: char)
    ensures IsSpace(c) <==> c as int in {
      9, 10, 11, 12, 13, 32, 133, 160, 5760, 8192, 8193, 8194, 8195, 8196, 8197, 8198, 8199, 8200, 8201, 8202,
      8232, 8233, 8239, 8287, 12288}
  {
  }

  /** No white space at either end. */
  predicate Trimmed(s: string) {
    s != [] ==> !IsSpace(s[0]) && !IsSpace(s[|s| - 1])
  }

  function TrimLeft(s: string, drop: char -> bool): (r: string)
    ensures r != [] ==> !drop(r[0])
  {
    if s != [] && drop(s[0]) then TrimLeft(s[1..], drop) else s
  }

  function TrimRight(s: string, drop: char -> bool): (r: string)
    ensures r != [] ==> !drop(r[|r| - 1])
    ensures r <= s
  {
    if s != [] && drop(s[|s| - 1]) then TrimRight(s[..|s| - 1], drop) else s
  }

  /** What was dropped on the left. */
  lemma {:induction false} LeftCut(s: string, drop: char -> bool) returns (a: string)
    ensures s == a + TrimLeft(s, drop)
    ensures forall i :: 0 <= i < |a| ==> drop(a[i])
  {
    if s != [] && drop(s[0]) {
      var rest := LeftCut(s[1..], drop);
      a := [s[0]] + rest;
    } else {
      a := [];
    }
  }

  /** What was dropped on the right. */
  lemma {:induction false} RightCut(s: string, drop: char -> bool) returns (b: string)
    ensures s == TrimRight(s, drop) + b
    ensures forall i :: 0 <= i < |b| ==> drop(b[i])
  {
    if s != [] && drop(s[|s| - 1]) {
      var rest := RightCut(s[..|s| - 1], drop);
      b := rest + [s[|s| - 1]];
    } else {
      b := [];
    }
  }

  /** `strings.Trim` with a cut set, and `strings.TrimSpace` when the set is `IsSpace`. */
  function Trim(s: string, drop: char -> bool): (r: string)
    ensures r != [] ==> !drop(r[0]) && !drop(r[|r| - 1])
    ensures s == [] || (!drop(s[0]) && !drop(s[|s| - 1])) ==> r == s
  {
    TrimRight(TrimLeft(s, drop), drop)
  }

  function TrimSpace(s: string): (r: string)
    ensures Trimmed(r)
    ensures Trimmed(s) ==> r == s
  {
    Trim(s, IsSpace)
  }

  /** Nothing but white space. */
  predicate Blank(s: string) {
    forall i :: 0 <= i < |s| ==> IsSpace(s[i])
  }

  /** What trimming takes away is white space on either side. */
  lemma TrimSpaceParts(s: string) returns (a: string, b: string)
    ensures s == a + TrimSpace(s) + b && Blank(a) && Blank(b)
  {
    a := LeftCut(s, IsSpace);
    b := RightCut(TrimLeft(s, IsSpace), IsSpace);
  }

  /** Trimming leaves nothing exactly when there is nothing but white space. */
  lemma TrimSpaceOfBlank(s: string)
    ensures TrimSpace(s) == "" <==> Blank(s)
  {
    var a, b := TrimSpaceParts(s);
    var t := TrimSpace(s);
    assert t != "" ==> s[|a|] == t[0];
  }

  /** Characters to drop on either side of a text are all that trimming takes away. */
  lemma TrimOfPadded(a: string, text: string, b: string, drop: char -> bool)
    requires forall i :: 0 <= i < |a| ==> drop(a[i])
    requires forall i :: 0 <= i < |b| ==> drop(b[i])
    requires text != "" && !drop(text[0]) && !drop(text[|text| - 1])
    ensures Trim(a + text + b, drop) == text
  {
    LeftOfPadded(a, text + b, drop);
    assert a + text + b == a + (text + b);
    RightOfPadded(text, b, drop);
  }

  lemma TrimSpaceOfPadded(a: string, text: string, b: string)
    requires Blank(a) && Blank(b) && text != "" && Trimmed(text)
    ensures TrimSpace(a + text + b) == text
  {
    TrimOfPadded(a, text, b, IsSpace);
  }

  lemma {:induction false} LeftOfPadded(a: string, rest: string, drop: char -> bool)
    requires (forall i :: 0 <= i < |a| ==> drop(a[i])) && rest != "" && !drop(rest[0])
    ensures TrimLeft(a + rest, drop) == rest
  {
    if a == "" {
      assert a + rest == rest;
    } else {
      LeftOfPadded(a[1..], rest, drop);
      assert (a + rest)[0] == a[0] && (a + rest)[1..] == a[1..] + rest;
    }
  }

  lemma {:induction false} RightOfPadded(text: string, b: string, drop: char -> bool)
    requires (forall i :: 0 <= i < |b| ==> drop(b[i])) && text != "" && !drop(text[|text| - 1])
    ensures TrimRight(text + b, drop) == text
  {
    if b == "" {
      assert text + b == text;
    } else {
      var s := text + b;
      RightOfPadded(text, b[..|b| - 1], drop);
      assert s[|s| - 1] == b[|b| - 1] && s[..|s| - 1] == text + b[..|b| - 1];
    }
  }

  lemma {:induction false} LeftOfDropped(a: string, drop: char -> bool)
    requires forall i :: 0 <= i < |a| ==> drop(a[i])
    ensures TrimLeft(a, drop) == ""
  {
    if a != "" {
      LeftOfDropped(a[1..], drop);
    }
  }

  /** `strings.LastIndex` for a one-character needle; -1 when absent. */
  function LastIndex(s: string, c: char): (r: int)
    ensures -1 <= r < |s|
    ensures r < 0 <==> c !in s
    ensures r >= 0 ==> s[r] == c && c !in s[r + 1..]
  {
    if s == [] then -1
    else if s[|s| - 1] == c then |s| - 1
    else
      var r := LastIndex(s[..|s| - 1], c);
      assert r >= 0 ==> s[r + 1..] == s[..|s| - 1][r + 1..] + [s[|s| - 1]];
      assert s == s[..|s| - 1] + [s[|s| - 1]];
      r
  }

  /** `strings.IndexByte`; -1 when absent. */
  function Index(s: string, c: char): (r: int)
    ensures -1 <= r < |s|
    ensures r < 0 <==> c !in s
    ensures r >= 0 ==> s[r] == c && c !in s[..r]
  {
    if s == [] then -1
    else if s[0] == c then 0
    else
      var r := Index(s[1..], c);
      assert r >= 0 ==> s[..r + 1] == [s[0]] + s[1..][..r];
      assert s == [s[0]] + s[1..];
      if r < 0 then -1 else r + 1
  }

  /** The last separator of `a + [c] + b` is the one in the middle when `b` has none. */
  lemma {:induction false} LastIndexOfJoined(a: string, c: char, b: string)
    requires c !in b
    ensures LastIndex(a + [c] + b, c) == |a|
    ensures (a + [c] + b)[..|a|] == a && (a + [c] + b)[|a| + 1..] == b
  {
    var s := a + [c] + b;
    if b != [] {
      LastIndexOfJoined(a, c, b[..|b| - 1]);
      assert s[..|s| - 1] == a + [c] + b[..|b| - 1];
      assert s[|s| - 1] == b[|b| - 1];
    }
  }

  /** There is only one way to split a string at its last separator. */
  lemma LastSplitUnique(a: string, b: string, a': string, b': string, c: char)
    requires c !in b && c !in b' && a + [c] + b == a' + [c] + b'
    ensures a == a' && b == b'
  {
    LastIndexOfJoined(a, c, b);
    LastIndexOfJoined(a', c, b');
  }

  /** The first separator of `a + [c] + b` is the one in the middle when `a` has none. */
  lemma {:induction false} IndexOfJoined(a: string, c: char, b: string)
    requires c !in a
    ensures Index(a + [c] + b, c) == |a|
    ensures (a + [c] + b)[..|a|] == a && (a + [c] + b)[|a| + 1..] == b
  {
    var s := a + [c] + b;
    if a != [] {
      IndexOfJoined(a[1..], c, b);
      assert s[1..] == a[1..] + [c] + b;
      assert s[0] == a[0];
    }
  }

  /** `strings.Split` on a one-character separator: never empty, no part holds the separator. */
  function Split(s: string, c: char): (parts: seq<string>)
    ensures parts != []
    ensures forall p :: p in parts ==> c !in p
    ensures Join(parts, c) == s
    decreases |s|
  {
    var i := Index(s, c);
    if i < 0 then [s]
    else
      var rest := Split(s[i + 1..], c);
      assert s == s[..i] + [c] + s[i + 1..];
      assert ([s[..i]] + rest)[1..] == rest;
      [s[..i]] + rest
  }

  /** `strings.Join` with a one-character separator. */
  function Join(parts: seq<string>, c: char): string
    requires parts != []
  {
    if |parts| == 1 then parts[0] else parts[0] + [c] + Join(parts[1..], c)
  }

  /** Splitting undoes joining when no part holds the separator. */
  lemma {:induction false} SplitOfJoin(parts: seq<string>, c: char)
    requires parts != []
    requires forall p :: p in parts ==> c !in p
    ensures Split(Join(parts, c), c) == parts
  {
    if |parts| > 1 {
      SplitOfJoin(parts[1..], c);
      SplitOfPrefixed(parts[0], c, Join(parts[1..], c));
      assert parts == [parts[0]] + parts[1..];
    }
  }

  /** What stands before the first separator is the first part. */
  lemma SplitOfPrefixed(a: string, c: char, b: string)
    requires c !in a
    ensures Split(a + [c] + b, c) == [a] + Split(b, c)
  {
    IndexOfJoined(a, c, b);
  }

  /** Splitting a concatenation around one separator splits each side. */
  lemma SplitOfConcat(a: string, c: char, b: string)
    ensures Split(a + [c] + b, c) == Split(a, c) + Split(b, c)
  {
    forall x: string, y: string | c !in x ensures Split(x + [c] + y, c) == [x] + Split(y, c) {
      SplitOfPrefixed(x, c, y);
    }
    ConcatSplits(s => Split(s, c), a, c, b);
  }

  /** So does any function that takes the text before the first separator as the first part. */
  lemma {:induction false} ConcatSplits(split: string -> seq<string>, a: string, c: char, b: string)
    requires forall x: string :: c !in x ==> split(x) == [x]
    requires forall x: string, y: string :: c !in x ==> split(x + [c] + y) == [x] + split(y)
    ensures split(a + [c] + b) == split(a) + split(b)
    decreases |a|
  {
    if c in a {
      var x, y := FirstCut(a, c);
      ConcatSplits(split, y, c, b);
      assert a + [c] + b == x + [c] + (y + [c] + b);
      assert [x] + (split(y) + split(b)) == ([x] + split(y)) + split(b);
    }
  }

  /** The text before and after the first separator. */
  lemma FirstCut(a: string, c: char) returns (x: string, y: string)
    requires c in a
    ensures c !in x && a == x + [c] + y && |y| < |a|
  {
    var i := Index(a, c);
    x, y := a[..i], a[i + 1..];
  }
}
