/**
 * The Python string operations the GGA decoder relies on, on `seq<char>`:
 * `str.strip()`, `str.startswith(p)` and `str.split(',')`.
 */
module Text {

  /** Python's `str.isspace()`: the characters `str.strip()` removes. */
  predicate IsSpace(c: char) {
    || c == ' '
    || ('\t' <= c <= '\r')
    || ('\U{1C}' <= c <= '\U{1F}')
    || c == '\U{85}' || c == '\U{A0}' || c == '\U{1680}'
    || ('\U{2000}' <= c <= '\U{200A}')
    || c == '\U{2028}' || c == '\U{2029}' || c == '\U{202F}' || c == '\U{205F}' || c == '\U{3000}'
  }

  /** Length of the longest run of white space at the front of `s`. */
  function LeadingSpaces(s: string): (n: nat)
    ensures n <= |s|
    ensures forall k :: 0 <= k < n ==> IsSpace(s[k])
    ensures n < |s| ==> !IsSpace(s[n])
  {
    if |s| > 0 && IsSpace(s[0]) then 1 + LeadingSpaces(s[1..]) else 0
  }

  /** Length of the longest run of white space at the end of `s`. */
  function TrailingSpaces(s: string): (n: nat)
    ensures n <= |s|
    ensures forall k :: |s| - n <= k < |s| ==> IsSpace(s[k])
    ensures n < |s| ==> !IsSpace(s[|s| - 1 - n])
  {
    if |s| > 0 && IsSpace(s[|s| - 1]) then 1 + TrailingSpaces(s[..|s| - 1]) else 0
  }

  /** `s.strip()`: `s` with the white space at both ends cut off. */
  function Strip(s: string): string {
    var rest := s[LeadingSpaces(s)..];
    rest[..|rest| - TrailingSpaces(rest)]
  }

  /**
   * What `Strip` keeps: the contiguous middle of `s` that neither starts nor
   * ends with white space, everything cut off at either end being white space.
   */
  lemma StripSpec(s: string)
    ensures var r := Strip(s); var lo := LeadingSpaces(s);
      && lo + |r| <= |s|
      && r == s[lo..lo + |r|]
      && (forall k :: 0 <= k < lo ==> IsSpace(s[k]))
      && (forall k :: lo + |r| <= k < |s| ==> IsSpace(s[k]))
      && (r == [] || (!IsSpace(r[0]) && !IsSpace(r[|r| - 1])))
  {
    var lo := LeadingSpaces(s);
    var rest := s[lo..];
    var hi := TrailingSpaces(rest);
    var r := Strip(s);
    assert r == rest[..|rest| - hi];
    assert r == s[lo..lo + |r|];
    forall k | lo + |r| <= k < |s|
      ensures IsSpace(s[k])
    {
      assert s[k] == rest[k - lo];
    }
    if r != [] {
      assert r[0] == s[lo];
      assert r[|r| - 1] == rest[|rest| - 1 - hi];
    }
  }

  /**
   * Stripping a line padded with white space on both sides gives back the
   * line, provided it neither starts nor ends with white space itself.
   */
  lemma StripPadded(lead: string, line: string, trail: string)
    requires forall k :: 0 <= k < |lead| ==> IsSpace(lead[k])
    requires forall k :: 0 <= k < |trail| ==> IsSpace(trail[k])
    requires line != [] && !IsSpace(line[0]) && !IsSpace(line[|line| - 1])
    ensures Strip(lead + line + trail) == line
  {
    var s := lead + line + trail;
    var lo := LeadingSpaces(s);
    var r := Strip(s);
    StripSpec(s);
    assert s[|lead|] == line[0];
    assert lo == |lead|;
    var hi := |lead| + |line|;
    assert s[hi - 1] == line[|line| - 1];
    assert lo + |r| == hi;
    assert r == s[|lead|..hi];
    assert s[|lead|..hi] == line;
  }

  /** `s.startswith(prefix)`. */
  predicate StartsWith(s: string, prefix: string) {
    |prefix| <= |s| && s[..|prefix|] == prefix
  }

  /** `s` starts with `prefix` exactly when its first `|prefix|` characters are those of `prefix`. */
  lemma StartsWithSpec(s: string, prefix: string)
    ensures StartsWith(s, prefix)
        <==> |prefix| <= |s| && forall k :: 0 <= k < |prefix| ==> s[k] == prefix[k]
  {
    if |prefix| <= |s| && forall k :: 0 <= k < |prefix| ==> s[k] == prefix[k] {
      assert s[..|prefix|] == prefix;
    }
  }

  /** Every string extending `prefix` starts with it. */
  lemma StartsWithExtension(prefix: string, rest: string)
    ensures StartsWith(prefix + rest, prefix)
  {
    assert (prefix + rest)[..|prefix|] == prefix;
  }

  /** Number of occurrences of `c` in `s`. */
  function Occurrences(s: string, c: char): nat {
    if |s| == 0 then 0 else (if s[0] == c then 1 else 0) + Occurrences(s[1..], c)
  }

  /** `sep.join(parts)`. */
  function Join(parts: seq<string>, sep: char): string
    requires |parts| >= 1
  {
    if |parts| == 1 then parts[0] else parts[0] + [sep] + Join(parts[1..], sep)
  }

  lemma JoinExtendFirst(w: string, parts: seq<string>, sep: char)
    requires |parts| >= 1
    ensures Join([w + parts[0]] + parts[1..], sep) == w + Join(parts, sep)
  {
    var ps := [w + parts[0]] + parts[1..];
    assert ps[1..] == parts[1..];
  }

  /** Joining at least two parts puts the separator between the first and the join of the rest. */
  lemma JoinFirstAndRest(parts: seq<string>, sep: char)
    requires |parts| >= 2
    ensures Join(parts, sep) == parts[0] + [sep] + Join(parts[1..], sep)
  {
  }

  /** A join ends with the last character of its last part, when that part is non-empty. */
  lemma {:induction false} JoinEndsWithLastField(parts: seq<string>, sep: char)
    requires |parts| >= 1
    requires parts[|parts| - 1] != []
    ensures var j := Join(parts, sep); |j| > 0 && j[|j| - 1] == parts[|parts| - 1][|parts[|parts| - 1]| - 1]
  {
    if |parts| > 1 {
      JoinEndsWithLastField(parts[1..], sep);
    }
  }

  /** `s.split(sep)`. */
  function Split(s: string, sep: char): (parts: seq<string>)
    ensures |parts| >= 1
    decreases |s|
  {
    if |s| == 0 then [""]
    else
      var rest := Split(s[1..], sep);
      if s[0] == sep then [""] + rest
      else [[s[0]] + rest[0]] + rest[1..]
  }

  /**
   * The fields of `s.split(sep)`: one more than there are separators, none
   * holding the separator, and joined back they give `s`.
   */
  lemma {:induction false} SplitSpec(s: string, sep: char)
    ensures var parts := Split(s, sep);
      && |parts| == Occurrences(s, sep) + 1
      && (forall k :: 0 <= k < |parts| ==> sep !in parts[k])
      && Join(parts, sep) == s
    decreases |s|
  {
    if |s| > 0 {
      var rest := Split(s[1..], sep);
      SplitSpec(s[1..], sep);
      assert [s[0]] + s[1..] == s;
      if s[0] != sep {
        JoinExtendFirst([s[0]], rest, sep);
      }
    }
  }

  lemma {:induction false} SplitExtendFirst(w: string, s: string, sep: char)
    requires sep !in w
    ensures Split(w + s, sep) == [w + Split(s, sep)[0]] + Split(s, sep)[1..]
    decreases |w|
  {
    if |w| > 0 {
      assert (w + s)[1..] == w[1..] + s;
      SplitExtendFirst(w[1..], s, sep);
      assert [w[0]] + (w[1..] + Split(s, sep)[0]) == w + Split(s, sep)[0];
    } else {
      var parts := Split(s, sep);
      assert w + s == s && w + parts[0] == parts[0];
      assert [parts[0]] + parts[1..] == parts;
    }
  }

  /** Splitting the join of separator-free fields gives those fields back. */
  lemma {:induction false} SplitJoin(parts: seq<string>, sep: char)
    requires |parts| >= 1
    requires forall k :: 0 <= k < |parts| ==> sep !in parts[k]
    ensures Split(Join(parts, sep), sep) == parts
  {
    if |parts| == 1 {
      SplitExtendFirst(parts[0], "", sep);
      assert parts[0] + "" == parts[0];
    } else {
      var tail := Join(parts[1..], sep);
      SplitJoin(parts[1..], sep);
      assert ([sep] + tail)[1..] == tail;
      assert Split([sep] + tail, sep) == [""] + parts[1..];
      assert parts[0] + [sep] + tail == parts[0] + ([sep] + tail);
      SplitExtendFirst(parts[0], [sep] + tail, sep);
      assert parts[0] + "" == parts[0];
    }
  }
}
