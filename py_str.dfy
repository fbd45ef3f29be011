/** The Python string methods the service relies on, with their Python
    semantics: `strip(chars)` removes a SET of characters from both ends,
    `split(sep)` keeps empty pieces, `split()` splits on runs of whitespace
    and drops empty pieces, and `sep.join(parts)`. */
module PyStr {

  /** The characters for which Python's `str.isspace()` holds. */
  const Whitespace: set<char> := {
    ' ', '\t', '\n', '\r', '\U{0B}', '\U{0C}', '\U{1C}', '\U{1D}', '\U{1E}', '\U{1F}',
    '\U{85}', '\U{A0}', '\U{1680}', '\U{2000}', '\U{2001}', '\U{2002}', '\U{2003}',
    '\U{2004}', '\U{2005}', '\U{2006}', '\U{2007}', '\U{2008}', '\U{2009}', '\U{200A}',
    '\U{2028}', '\U{2029}', '\U{202F}', '\U{205F}', '\U{3000}'
  }

  predicate IsSpace(c: char) {
    c in Whitespace
  }

  predicate IsComma(c: char) {
    c == ','
  }

  predicate IsSlash(c: char) {
    c == '/'
  }

  /** Python's `s.lstrip(chars)`: drops the longest prefix made of characters in `chars`. */
  function StripLeft(s: string, chars: set<char>): (r: string)
    ensures |r| <= |s| && r == s[|s| - |r|..]
    ensures forall i :: 0 <= i < |s| - |r| ==> s[i] in chars
    ensures r == [] || r[0] !in chars
    decreases |s|
  {
    if |s| > 0 && s[0] in chars then StripLeft(s[1..], chars) else s
  }

  /** Python's `s.rstrip(chars)`: drops the longest suffix made of characters in `chars`. */
  function StripRight(s: string, chars: set<char>): (r: string)
    ensures |r| <= |s| && r == s[..|r|]
    ensures forall i :: |r| <= i < |s| ==> s[i] in chars
    ensures r == [] || r[|r| - 1] !in chars
    decreases |s|
  {
    if |s| > 0 && s[|s| - 1] in chars then StripRight(s[..|s| - 1], chars) else s
  }

  /** Python's `s.strip(chars)`: the set is applied at both ends, not a prefix or suffix string. */
  function Strip(s: string, chars: set<char>): (r: string)
    ensures |r| <= |s|
    ensures r == [] || (r[0] !in chars && r[|r| - 1] !in chars)
  {
    StripRight(StripLeft(s, chars), chars)
  }

  /** How many characters of `s` satisfy `isSep`. */
  function CountWhere(s: string, isSep: char -> bool): nat {
    if |s| == 0 then 0 else (if isSep(s[0]) then 1 else 0) + CountWhere(s[1..], isSep)
  }

  /** Python's `s.split(sep)` generalised to a set of separator characters given by
      `isSep`: every separator ends a piece, so empty pieces are kept. */
  function Split(s: string, isSep: char -> bool): (r: seq<string>)
    ensures |r| == CountWhere(s, isSep) + 1
    ensures forall k :: 0 <= k < |r| ==> forall c :: c in r[k] ==> !isSep(c)
    decreases |s|
  {
    if |s| == 0 then [""]
    else
      var rest := Split(s[1..], isSep);
      if isSep(s[0]) then [""] + rest else [[s[0]] + rest[0]] + rest[1..]
  }

  /** Python's `sep.join(parts)`. */
  function Join(parts: seq<string>, sep: string): string {
    if |parts| == 0 then ""
    else if |parts| == 1 then parts[0]
    else parts[0] + sep + Join(parts[1..], sep)
  }

  /** The pieces that are not empty, in order. */
  function NonEmpty(parts: seq<string>): (r: seq<string>)
    ensures forall k :: 0 <= k < |r| ==> r[k] != ""
    ensures |r| <= |parts|
  {
    if |parts| == 0 then []
    else if parts[0] == "" then NonEmpty(parts[1..])
    else [parts[0]] + NonEmpty(parts[1..])
  }

  /** Python's `s.split()`: the maximal runs of non-whitespace characters. */
  function Words(s: string): seq<string> {
    NonEmpty(Split(s, IsSpace))
  }

  predicate NoSeparator(w: string, isSep: char -> bool) {
    forall c :: c in w ==> !isSep(c)
  }

  /** A separator-free prefix glues onto the first piece of what follows it. */
  lemma {:induction false} SplitPrefix(w: string, tail: string, isSep: char -> bool)
    requires NoSeparator(w, isSep)
    ensures Split(w + tail, isSep) == [w + Split(tail, isSep)[0]] + Split(tail, isSep)[1..]
    decreases |w|
  {
    if |w| > 0 {
      assert (w + tail)[1..] == w[1..] + tail;
      assert w[0] in w;
      SplitPrefix(w[1..], tail, isSep);
      assert [w[0]] + (w[1..] + Split(tail, isSep)[0]) == w + Split(tail, isSep)[0];
    } else {
      var t := Split(tail, isSep);
      assert w + tail == tail;
      assert w + t[0] == t[0];
      assert [t[0]] + t[1..] == t;
    }
  }

  /** Splitting a join on its separator gives back the parts (Python:
      `sep.join(parts).split(sep) == parts` when no part holds `sep`). */
  lemma {:induction false} SplitJoin(parts: seq<string>, sep: char, isSep: char -> bool)
    requires |parts| >= 1
    requires isSep(sep)
    requires forall k :: 0 <= k < |parts| ==> NoSeparator(parts[k], isSep)
    ensures Split(Join(parts, [sep]), isSep) == parts
    decreases |parts|
  {
    if |parts| == 1 {
      SplitPrefix(parts[0], "", isSep);
      assert parts[0] + "" == parts[0];
    } else {
      var rest := Join(parts[1..], [sep]);
      assert Join(parts, [sep]) == parts[0] + ([sep] + rest);
      SplitPrefix(parts[0], [sep] + rest, isSep);
      assert ([sep] + rest)[1..] == rest;
      SplitJoin(parts[1..], sep, isSep);
      assert Split([sep] + rest, isSep) == [""] + parts[1..];
      assert parts[0] + "" == parts[0];
      assert parts == [parts[0]] + parts[1..];
    }
  }

  lemma {:induction false} NonEmptyKeeps(parts: seq<string>)
    requires forall k :: 0 <= k < |parts| ==> parts[k] != ""
    ensures NonEmpty(parts) == parts
  {
    if |parts| > 0 {
      NonEmptyKeeps(parts[1..]);
      assert parts == [parts[0]] + parts[1..];
    }
  }

  /** `(a + " " + b).split() == [a, b]` for two whitespace-free, non-empty words. */
  lemma WordsOfPair(a: string, b: string)
    requires a != "" && b != ""
    requires NoSeparator(a, IsSpace) && NoSeparator(b, IsSpace)
    ensures Words(a + " " + b) == [a, b]
  {
    assert Join([a, b], [' ']) == a + " " + b by {
      assert [a, b][1..] == [b];
    }
    SplitJoin([a, b], ' ', IsSpace);
    NonEmptyKeeps([a, b]);
  }

  /** A prefix of stripped characters makes no difference to `lstrip`. */
  lemma {:induction false} StripLeftSkips(prefix: string, rest: string, chars: set<char>)
    requires forall c :: c in prefix ==> c in chars
    ensures StripLeft(prefix + rest, chars) == StripLeft(rest, chars)
    decreases |prefix|
  {
    if |prefix| > 0 {
      assert prefix[0] in prefix;
      assert (prefix + rest)[1..] == prefix[1..] + rest;
      StripLeftSkips(prefix[1..], rest, chars);
    } else {
      assert prefix + rest == rest;
    }
  }

  /** A suffix of stripped characters makes no difference to `rstrip`. */
  lemma {:induction false} StripRightSkips(rest: string, suffix: string, chars: set<char>)
    requires forall c :: c in suffix ==> c in chars
    ensures StripRight(rest + suffix, chars) == StripRight(rest, chars)
    decreases |suffix|
  {
    if |suffix| > 0 {
      var n := |suffix| - 1;
      assert suffix[n] in suffix;
      assert (rest + suffix)[..|rest + suffix| - 1] == rest + suffix[..n];
      StripRightSkips(rest, suffix[..n], chars);
    } else {
      assert rest + suffix == rest;
    }
  }

  /** Stripping a characters-only prefix and suffix leaves a body whose two ends are
      outside the set. */
  lemma StripFrame(prefix: string, body: string, suffix: string, chars: set<char>)
    requires forall c :: c in prefix ==> c in chars
    requires forall c :: c in suffix ==> c in chars
    requires body == [] || (body[0] !in chars && body[|body| - 1] !in chars)
    ensures Strip(prefix + body + suffix, chars) == body
  {
    assert prefix + body + suffix == prefix + (body + suffix);
    StripLeftSkips(prefix, body + suffix, chars);
    if body == [] {
      assert body + suffix == suffix + "";
      StripLeftSkips(suffix, "", chars);
      assert StripLeft(prefix + body + suffix, chars) == "";
    } else {
      assert (body + suffix)[0] == body[0];
      assert StripLeft(prefix + body + suffix, chars) == body + suffix;
      StripRightSkips(body, suffix, chars);
    }
  }

  /** A string whose two ends are outside the set is its own `strip`. */
  lemma StripUnchanged(s: string, chars: set<char>)
    requires s == [] || (s[0] !in chars && s[|s| - 1] !in chars)
    ensures Strip(s, chars) == s
  {
    assert "" + s + "" == s;
    StripFrame("", s, "", chars);
  }
}
