/** The pieces of Python's `str` and text-file behaviour that the tools rely on. */
module PyStr {
  import opened Wrappers

  /** Python's `str.isspace()` on one character: the ASCII whitespace and
      separator controls, NEXT LINE, NO-BREAK SPACE and the Unicode space,
      line and paragraph separators. */
  predicate IsSpace(c: char)
  {
    c == ' ' || '\t' <= c <= '\r' || '\U{1c}' <= c <= '\U{1f}' || c == '\U{85}' || c == '\U{a0}'
    || c == '\U{1680}' || '\U{2000}' <= c <= '\U{200a}' || c == '\U{2028}' || c == '\U{2029}'
    || c == '\U{202f}' || c == '\U{205f}' || c == '\U{3000}'
  }

  predicate AllSpace(s: string)
  {
    forall i :: 0 <= i < |s| ==> IsSpace(s[i])
  }

  /** `s.lstrip()` (see `LStripSpec`). */
  function LStrip(s: string): string
  {
    if |s| > 0 && IsSpace(s[0]) then LStrip(s[1..]) else s
  }

  /** `s.lstrip()` is the longest suffix of `s` that does not start with
      whitespace: everything it drops is whitespace. */
  lemma {:induction false} LStripSpec(s: string)
    ensures var r := LStrip(s);
      && |r| <= |s| && r == s[|s| - |r|..]
      && (forall i :: 0 <= i < |s| - |r| ==> IsSpace(s[i]))
      && (r == [] || !IsSpace(r[0]))
  {
    if |s| > 0 && IsSpace(s[0]) {
      LStripSpec(s[1..]);
    }
  }

  /** `s.rstrip()` (see `RStripSpec`). */
  function RStrip(s: string): string
  {
    if |s| > 0 && IsSpace(s[|s| - 1]) then RStrip(s[..|s| - 1]) else s
  }

  /** `s.rstrip()` is the longest prefix of `s` that does not end with
      whitespace: everything it drops is whitespace. */
  lemma {:induction false} RStripSpec(s: string)
    ensures var r := RStrip(s);
      && |r| <= |s| && r == s[..|r|]
      && (forall i :: |r| <= i < |s| ==> IsSpace(s[i]))
      && (r == [] || !IsSpace(r[|r| - 1]))
  {
    if |s| > 0 && IsSpace(s[|s| - 1]) {
      RStripSpec(s[..|s| - 1]);
    }
  }

  /** `s.strip()` with no argument (see `StripSpec`). */
  function Strip(s: string): string
  {
    RStrip(LStrip(s))
  }

  /** `s.strip()` is empty exactly for all-whitespace text, and otherwise
      neither starts nor ends with whitespace. */
  lemma StripSpec(s: string)
    ensures |Strip(s)| <= |s|
    ensures Strip(s) == [] <==> AllSpace(s)
    ensures Strip(s) != [] ==> !IsSpace(Strip(s)[0]) && !IsSpace(Strip(s)[|Strip(s)| - 1])
  {
    var l := LStrip(s);
    LStripSpec(s);
    RStripSpec(l);
    var r := RStrip(l);
    if r == [] {
      assert l == [];
      forall i | 0 <= i < |s| ensures IsSpace(s[i]) {
      }
    } else {
      assert r == l[..|r|];
      assert r[0] == l[0];
    }
  }

  /** A string without whitespace at either end is its own `strip()`. */
  lemma StripUnpadded(s: string)
    requires s == [] || (!IsSpace(s[0]) && !IsSpace(s[|s| - 1]))
    ensures Strip(s) == s
  {
  }

  /** `sep` occurs in `s` starting at index `k`. */
  predicate OccursAt(s: string, sep: string, k: int)
  {
    0 <= k && k + |sep| <= |s| && s[k..k + |sep|] == sep
  }

  /** `s.find(sep, i)`, as an optional index. */
  function FindFrom(s: string, sep: string, i: nat): (r: Option<nat>)
    ensures r.Some? ==> i <= r.value && OccursAt(s, sep, r.value)
    ensures r.Some? ==> forall k :: i <= k < r.value ==> !OccursAt(s, sep, k)
    ensures r.None? ==> forall k :: i <= k ==> !OccursAt(s, sep, k)
    decreases |s| - i
  {
    if i + |sep| > |s| then None
    else if s[i..i + |sep|] == sep then Some(i)
    else FindFrom(s, sep, i + 1)
  }

  /** `s.split(sep, 1)` when it yields two parts: the text before the FIRST
      occurrence of `sep` and the text after it. Python rejects an empty separator. */
  function SplitOnce(s: string, sep: string): (r: Option<(string, string)>)
    requires sep != []
    ensures r.Some? ==> s == r.value.0 + sep + r.value.1
    ensures r.Some? ==> forall k :: 0 <= k < |r.value.0| ==> !OccursAt(s, sep, k)
    ensures r.None? <==> forall k :: 0 <= k ==> !OccursAt(s, sep, k)
  {
    match FindFrom(s, sep, 0)
    case None => None
    case Some(i) =>
      assert s == s[..i] + s[i..i + |sep|] + s[i + |sep|..];
      Some((s[..i], s[i + |sep|..]))
  }

  /** What a text-mode read with universal newlines yields: "\r\n" and a
      lone "\r" both read as "\n". */
  function UniversalNewlines(s: string): (r: string)
    ensures '\r' !in r
    ensures '\r' !in s ==> r == s
    decreases |s|
  {
    if s == [] then []
    else if s[0] == '\r' then
      "\n" + UniversalNewlines(if |s| > 1 && s[1] == '\n' then s[2..] else s[1..])
    else
      assert '\r' !in s ==> '\r' !in s[1..];
      [s[0]] + UniversalNewlines(s[1..])
  }

  function Concat(ls: seq<string>): string
  {
    if ls == [] then [] else ls[0] + Concat(ls[1..])
  }

  /** The index of the first "\n" in `s`, or `|s|` when there is none. */
  function NewlineIndex(s: string): (i: nat)
    ensures i <= |s|
    ensures i < |s| ==> s[i] == '\n'
    ensures forall k :: 0 <= k < i ==> s[k] != '\n'
  {
    if s == [] then 0
    else if s[0] == '\n' then 0
    else 1 + NewlineIndex(s[1..])
  }

  /** The lines `for line in f` yields (see `LinesConcat` and `LinesSpec`). */
  function Lines(s: string): seq<string>
    decreases |s|
  {
    if s == [] then []
    else
      var i := NewlineIndex(s);
      if i == |s| then [s]
      else [s[..i + 1]] + Lines(s[i + 1..])
  }

  /** Together the lines spell the text. */
  lemma {:induction false} LinesConcat(s: string)
    ensures Concat(Lines(s)) == s
    decreases |s|
  {
    if s != [] {
      var i := NewlineIndex(s);
      if i == |s| {
        assert Concat([s]) == s + Concat([]);
      } else {
        var first, rest := s[..i + 1], s[i + 1..];
        LinesConcat(rest);
        var ls := [first] + Lines(rest);
        assert ls[1..] == Lines(rest);
        assert s == first + rest;
      }
    }
  }

  /** Each line is non-empty and has no inner "\n", and each ends with its
      "\n" except possibly the last. */
  lemma {:induction false} LinesSpec(s: string)
    ensures forall k :: 0 <= k < |Lines(s)| ==> Lines(s)[k] != []
    ensures forall k :: 0 <= k < |Lines(s)| ==> '\n' !in Lines(s)[k][..|Lines(s)[k]| - 1]
    ensures forall k :: 0 <= k < |Lines(s)| - 1 ==> Lines(s)[k][|Lines(s)[k]| - 1] == '\n'
    decreases |s|
  {
    if s != [] {
      var i := NewlineIndex(s);
      if i < |s| {
        var first, rest := s[..i + 1], s[i + 1..];
        var tail := Lines(rest);
        LinesSpec(rest);
        var ls := [first] + tail;
        assert first[..|first| - 1] == s[..i];
        assert first[|first| - 1] == '\n';
        forall k | 1 <= k < |ls| ensures ls[k] == tail[k - 1] {
        }
      }
    }
  }

  /** A line with no inner newline is read back as exactly one line. */
  lemma {:induction false} LinesCons(body: string, rest: string)
    requires '\n' !in body
    ensures Lines(body + "\n" + rest) == [body + "\n"] + Lines(rest)
  {
    var s := body + "\n" + rest;
    assert s[|body|] == '\n';
    assert forall k :: 0 <= k < |body| ==> s[k] == body[k];
    var i := NewlineIndex(s);
    assert i == |body|;
    assert s[..i + 1] == body + "\n";
    assert s[i + 1..] == rest;
  }

  /** Python's `<` on strings: lexicographic order of code points. */
  predicate Less(a: string, b: string)
    decreases |a|
  {
    if a == [] then b != []
    else if b == [] then false
    else if a[0] != b[0] then a[0] < b[0]
    else Less(a[1..], b[1..])
  }

  lemma {:induction false} LessIrreflexive(a: string)
    ensures !Less(a, a)
    decreases |a|
  {
    if a != [] {
      LessIrreflexive(a[1..]);
    }
  }

  lemma {:induction false} LessTransitive(a: string, b: string, c: string)
    requires Less(a, b) && Less(b, c)
    ensures Less(a, c)
    decreases |a|
  {
    if a != [] && b != [] && c != [] && a[0] == b[0] && b[0] == c[0] {
      LessTransitive(a[1..], b[1..], c[1..]);
    }
  }

  lemma {:induction false} LessTotal(a: string, b: string)
    ensures a == b || Less(a, b) || Less(b, a)
    decreases |a|
  {
    if a != [] && b != [] && a[0] == b[0] {
      LessTotal(a[1..], b[1..]);
      if a[1..] == b[1..] {
        assert a == [a[0]] + a[1..] && b == [b[0]] + b[1..];
      }
    }
  }

  lemma LessAsymmetric(a: string, b: string)
    requires Less(a, b)
    ensures !Less(b, a) && a != b
  {
    if Less(b, a) {
      LessTransitive(a, b, a);
      LessIrreflexive(a);
    }
    LessIrreflexive(a);
  }
}
