/**
 * The Python `str` operations the core relies on: `strip`, `split()`,
 * `isdigit`, `lower`, `startswith`, `in` (substring) and `join`.
 * Whitespace is Python's `str.isspace` set; digits and case mapping are ASCII.
 */
module Strings {

  /** The characters for which Python's `str.isspace` holds. */
  const SpaceChars: set<char> :=
    {' ', '\t', '\n', '\r', '\U{0B}', '\U{0C}', '\U{1C}', '\U{1D}', '\U{1E}', '\U{1F}',
     '\U{85}', '\U{A0}', '\U{1680}', '\U{2000}', '\U{2001}', '\U{2002}', '\U{2003}',
     '\U{2004}', '\U{2005}', '\U{2006}', '\U{2007}', '\U{2008}', '\U{2009}', '\U{200A}',
     '\U{2028}', '\U{2029}', '\U{202F}', '\U{205F}', '\U{3000}'}

  predicate IsSpace(c: char)
  {
    c in SpaceChars
  }

  predicate AllSpace(s: string)
  {
    forall i :: 0 <= i < |s| ==> IsSpace(s[i])
  }

  predicate NoSpace(s: string)
  {
    forall i :: 0 <= i < |s| ==> !IsSpace(s[i])
  }

  /** Neither end of `s` is whitespace (the shape of every stripped string). */
  predicate Trimmed(s: string)
  {
    s == [] || (!IsSpace(s[0]) && !IsSpace(s[|s| - 1]))
  }

  predicate IsDigit(c: char)
  {
    '0' <= c <= '9'
  }

  /** Python's `str.isdigit`: non-empty and every character a digit. */
  predicate IsDigits(s: string)
  {
    |s| > 0 && forall i :: 0 <= i < |s| ==> IsDigit(s[i])
  }

  function LowerChar(c: char): char
  {
    if 'A' <= c <= 'Z' then (c as int + 32) as char else c
  }

  /** Python's `str.lower`, on ASCII letters. */
  function Lower(s: string): (r: string)
    ensures |r| == |s|
    ensures forall i :: 0 <= i < |s| ==> r[i] == LowerChar(s[i])
  {
    seq(|s|, i requires 0 <= i < |s| => LowerChar(s[i]))
  }

  /** Python's `s.startswith(p)`. */
  predicate IsPrefix(p: string, s: string)
  {
    |p| <= |s| && s[..|p|] == p
  }

  /** Python's `sub in s`. */
  predicate Contains(sub: string, s: string)
  {
    exists i | 0 <= i <= |s| :: IsPrefix(sub, s[i..])
  }

  lemma EmptyIsPrefix(s: string)
    ensures IsPrefix("", s)
  {
    assert s[..0] == "";
  }

  /** No `a` in `s` is directly followed by `b`. */
  predicate NoPair(s: string, a: char, b: char)
  {
    forall i :: 0 <= i < |s| - 1 ==> s[i] != a || s[i + 1] != b
  }

  /** A text in which the first two characters of `sub` never occur together does not contain `sub`. */
  lemma NoPairNoContains(sub: string, s: string)
    requires |sub| >= 2 && NoPair(s, sub[0], sub[1])
    ensures !Contains(sub, s)
  {
    forall i | 0 <= i <= |s|
      ensures !IsPrefix(sub, s[i..])
    {
      if i + 1 < |s| {
        assert s[i..][0] == s[i] && s[i..][1] == s[i + 1];
      }
    }
  }

  /** `NoPair` holds across a concatenation when it holds on both sides and at the seam. */
  lemma NoPairAppend(s: string, t: string, a: char, b: char)
    requires NoPair(s, a, b) && NoPair(t, a, b)
    requires s != [] && t != [] ==> s[|s| - 1] != a || t[0] != b
    ensures NoPair(s + t, a, b)
  {
    var u := s + t;
    forall i | 0 <= i < |u| - 1
      ensures u[i] != a || u[i + 1] != b
    {
      if i + 1 < |s| {
        assert u[i] == s[i] && u[i + 1] == s[i + 1];
      } else if i >= |s| {
        assert u[i] == t[i - |s|] && u[i + 1] == t[i + 1 - |s|];
      }
    }
  }

  /**
   * A prefix in which `sub` cannot start adds no occurrence of `sub`: the
   * prefix never holds `sub`'s first two characters together and does not
   * end in its first character.
   */
  lemma ContainsAfterPrefix(sub: string, p: string, s: string)
    requires |sub| >= 2 && NoPair(p, sub[0], sub[1])
    requires p != [] ==> p[|p| - 1] != sub[0]
    ensures Contains(sub, p + s) <==> Contains(sub, s)
  {
    var u := p + s;
    if Contains(sub, s) {
      var j :| 0 <= j <= |s| && IsPrefix(sub, s[j..]);
      assert u[|p| + j..] == s[j..];
    }
    forall i | 0 <= i < |p|
      ensures !IsPrefix(sub, u[i..])
    {
      assert u[i..][0] == p[i];
      if i + 1 < |p| {
        assert u[i..][1] == p[i + 1];
      }
    }
    forall i | |p| <= i <= |u|
      ensures u[i..] == s[i - |p|..]
    {
    }
  }

  /** The number of whitespace characters that start `s`. */
  function LeadingSpace(s: string): (n: nat)
    ensures n <= |s|
    ensures forall i :: 0 <= i < n ==> IsSpace(s[i])
    ensures n < |s| ==> !IsSpace(s[n])
  {
    if |s| > 0 && IsSpace(s[0]) then 1 + LeadingSpace(s[1..]) else 0
  }

  /** The number of whitespace characters that end `s`. */
  function TrailingSpace(s: string): (n: nat)
    ensures n <= |s|
    ensures forall i :: |s| - n <= i < |s| ==> IsSpace(s[i])
    ensures n < |s| ==> !IsSpace(s[|s| - 1 - n])
  {
    if |s| > 0 && IsSpace(s[|s| - 1]) then 1 + TrailingSpace(s[..|s| - 1]) else 0
  }

  /**
   * Python's `s.strip()`: the part of `s` left once whitespace is removed
   * from both ends.
   */
  function Strip(s: string): (r: string)
    ensures Trimmed(r)
    ensures r == [] <==> AllSpace(s)
    ensures |r| <= |s|
  {
    var a := LeadingSpace(s);
    if a == |s| then []
    else
      assert !IsSpace(s[a]);
      var b := TrailingSpace(s);
      s[a..|s| - b]
  }

  /** Stripping removes whitespace at the two ends and nothing else. */
  lemma StripRemovesOnlyEdgeSpace(s: string)
    ensures exists a :: 0 <= a <= |s| - |Strip(s)| && s[a..a + |Strip(s)|] == Strip(s)
                        && AllSpace(s[..a]) && AllSpace(s[a + |Strip(s)|..])
  {
    var a := LeadingSpace(s);
    var r := Strip(s);
    if a == |s| {
      assert s[..a] == s;
      assert AllSpace(s[a..]);
    } else {
      var b := TrailingSpace(s);
      assert s[a..a + |r|] == r;
      assert AllSpace(s[..a]);
      assert AllSpace(s[a + |r|..]);
    }
  }

  /** One blank on each side of a trimmed text is stripped off again. */
  lemma StripBlankPadded(s: string)
    requires s != [] && Trimmed(s)
    ensures Strip(" " + s + " ") == s
  {
    var p := " " + s + " ";
    assert p[1..] == s + " ";
    assert LeadingSpace(p[1..]) == 0;
    assert p[..|p| - 1] == " " + s;
    assert TrailingSpace(p[..|p| - 1]) == 0;
    assert p[1..|p| - 1] == s;
  }

  /** Stripping is idempotent: a stripped string strips to itself. */
  lemma StripTrimmed(s: string)
    requires Trimmed(s)
    ensures Strip(s) == s
  {
  }

  lemma StripIdempotent(s: string)
    ensures Strip(Strip(s)) == Strip(s)
  {
    StripTrimmed(Strip(s));
  }

  /** `sep.join(parts)`. */
  function Join(parts: seq<string>, sep: string): string
    decreases |parts|
  {
    if |parts| == 0 then ""
    else if |parts| == 1 then parts[0]
    else parts[0] + sep + Join(parts[1..], sep)
  }

  /** A join is at least as long as its first part. */
  lemma JoinNotShorter(ps: seq<string>, sep: string)
    requires |ps| >= 1
    ensures |Join(ps, sep)| >= |ps[0]|
  {
    if |ps| > 1 {
      assert Join(ps, sep) == ps[0] + sep + Join(ps[1..], sep);
    }
  }

  /** Joining one more part at the end. */
  lemma {:induction false} JoinSnoc(parts: seq<string>, x: string, sep: string)
    requires |parts| >= 1
    ensures Join(parts + [x], sep) == Join(parts, sep) + sep + x
    decreases |parts|
  {
    if |parts| == 1 {
      assert (parts + [x])[1..] == [x];
    } else {
      assert (parts + [x])[1..] == parts[1..] + [x];
      JoinSnoc(parts[1..], x, sep);
    }
  }

  /** Joining two non-empty runs of parts is joining each and putting the separator between. */
  lemma {:induction false} JoinAppend(a: seq<string>, b: seq<string>, sep: string)
    requires |a| >= 1 && |b| >= 1
    ensures Join(a + b, sep) == Join(a, sep) + sep + Join(b, sep)
    decreases |a|
  {
    if |a| == 1 {
      assert (a + b)[1..] == b;
    } else {
      assert (a + b)[1..] == a[1..] + b;
      JoinAppend(a[1..], b, sep);
    }
  }

  /** A join of parts and a separator without `c` has no `c`. */
  lemma {:induction false} JoinExcludes(parts: seq<string>, sep: string, c: char)
    requires forall k :: 0 <= k < |parts| ==> Excludes(parts[k], c)
    requires Excludes(sep, c)
    ensures Excludes(Join(parts, sep), c)
    decreases |parts|
  {
    if |parts| > 1 {
      JoinExcludes(parts[1..], sep, c);
      var rest := Join(parts[1..], sep);
      ExcludesAppend(parts[0], sep, c);
      ExcludesAppend(parts[0] + sep, rest, c);
    }
  }

  /** Two strings without `c` concatenate to one without it. */
  lemma ExcludesAppend(a: string, b: string, c: char)
    requires Excludes(a, c) && Excludes(b, c)
    ensures Excludes(a + b, c)
  {
    var h := a + b;
    forall j | 0 <= j < |h|
      ensures h[j] != c
    {
      if j < |a| {
        assert h[j] == a[j];
      } else {
        assert h[j] == b[j - |a|];
      }
    }
  }

  /** The index of the first `c` in `s`, or `|s|` when there is none. */
  function IndexOf(s: string, c: char): (i: nat)
    ensures i <= |s|
    ensures i < |s| ==> s[i] == c
    ensures forall j :: 0 <= j < i ==> s[j] != c
  {
    if |s| == 0 then 0
    else if s[0] == c then 0
    else 1 + IndexOf(s[1..], c)
  }

  /** Python's `s.split(c)` for a one-character separator. */
  function SplitOn(s: string, c: char): (pieces: seq<string>)
    ensures |pieces| >= 1
    decreases |s|
  {
    var i := IndexOf(s, c);
    if i == |s| then [s] else [s[..i]] + SplitOn(s[i + 1..], c)
  }

  predicate Excludes(s: string, c: char)
  {
    forall i :: 0 <= i < |s| ==> s[i] != c
  }

  lemma IndexOfAfterPrefix(p: string, c: char, rest: string)
    requires Excludes(p, c)
    ensures IndexOf(p + [c] + rest, c) == |p|
  {
    var s := p + [c] + rest;
    assert s[|p|] == c;
    assert forall j :: 0 <= j < |p| ==> s[j] == p[j];
  }

  /** A first piece without the separator is split off whole. */
  lemma SplitAfterFirst(h: string, c: char, rest: string)
    requires Excludes(h, c)
    ensures SplitOn(h + [c] + rest, c) == [h] + SplitOn(rest, c)
  {
    var s := h + [c] + rest;
    IndexOfAfterPrefix(h, c, rest);
    assert s[..|h|] == h;
    assert s[|h| + 1..] == rest;
  }

  /** Splitting a join on a separator that no part contains gives the parts back. */
  lemma {:induction false} SplitJoin(parts: seq<string>, c: char)
    requires |parts| >= 1
    requires forall k :: 0 <= k < |parts| ==> Excludes(parts[k], c)
    ensures SplitOn(Join(parts, [c]), c) == parts
    decreases |parts|
  {
    if |parts| == 1 {
      var i := IndexOf(parts[0], c);
      assert i == |parts[0]|;
    } else {
      var rest := Join(parts[1..], [c]);
      assert Join(parts, [c]) == parts[0] + [c] + rest;
      SplitAfterFirst(parts[0], c, rest);
      SplitJoin(parts[1..], c);
      assert parts == [parts[0]] + parts[1..];
    }
  }

  /** The length of the run of non-whitespace characters that starts `s`. */
  function WordLength(s: string): (n: nat)
    ensures n <= |s|
    ensures NoSpace(s[..n])
    ensures n < |s| ==> IsSpace(s[n])
  {
    if |s| == 0 || IsSpace(s[0]) then 0
    else
      var n := 1 + WordLength(s[1..]);
      assert s[..n] == [s[0]] + s[1..][..n - 1];
      n
  }

  /**
   * Python's `s.split()`: the maximal runs of non-whitespace characters,
   * left to right.
   */
  function Words(s: string): seq<string>
    decreases |s|
  {
    var a := LeadingSpace(s);
    if a == |s| then []
    else
      var t := s[a..];
      var n := WordLength(t);
      [t[..n]] + Words(t[n..])
  }

  /** Every word is non-empty and free of whitespace, and there are none exactly when `s` is all whitespace. */
  lemma WordsAreWords(s: string)
    ensures forall k :: 0 <= k < |Words(s)| ==> Words(s)[k] != [] && NoSpace(Words(s)[k])
    ensures Words(s) == [] <==> AllSpace(s)
  {
    WordsShape(s);
    var a := LeadingSpace(s);
    if a < |s| {
      assert !IsSpace(s[a]);
    }
  }

  lemma {:induction false} WordsShape(s: string)
    ensures forall k :: 0 <= k < |Words(s)| ==> Words(s)[k] != [] && NoSpace(Words(s)[k])
    decreases |s|
  {
    var a := LeadingSpace(s);
    if a < |s| {
      var t := s[a..];
      var n := WordLength(t);
      assert t[0] == s[a];
      var ws, rest := Words(s), Words(t[n..]);
      WordsShape(t[n..]);
      assert ws == [t[..n]] + rest;
      forall k | 0 <= k < |ws|
        ensures ws[k] != [] && NoSpace(ws[k])
      {
        if k > 0 {
          assert ws[k] == rest[k - 1];
        }
      }
    }
  }

  /**
   * `seps` can stand between and around `n` words: `n + 1` whitespace
   * runs, of which every one between two words is non-empty.
   */
  predicate Separators(seps: seq<string>, n: nat)
  {
    && |seps| == n + 1
    && (forall k :: 0 <= k < |seps| ==> AllSpace(seps[k]))
    && (forall k :: 0 < k < n ==> seps[k] != [])
  }

  /** The text `seps[0] + words[0] + seps[1] + ... + words[n - 1] + seps[n]`. */
  function Weave(seps: seq<string>, words: seq<string>): string
    requires |seps| == |words| + 1
    decreases |words|
  {
    if words == [] then seps[0] else seps[0] + words[0] + Weave(seps[1..], words[1..])
  }

  /**
   * `split()` takes the words as maximal runs: the text is its words with
   * whitespace runs around them, and two consecutive words are always
   * apart by at least one whitespace character.
   */
  lemma WordsAreMaximalRuns(s: string)
    ensures exists seps :: Separators(seps, |Words(s)|) && Weave(seps, Words(s)) == s
  {
    var seps := WordsLayout(s);
  }

  lemma {:induction false} WordsLayout(s: string) returns (seps: seq<string>)
    ensures Separators(seps, |Words(s)|) && Weave(seps, Words(s)) == s
    ensures seps[0] == s[..LeadingSpace(s)]
    decreases |s|
  {
    var a := LeadingSpace(s);
    if a == |s| {
      seps := [s];
      assert s[..a] == s;
    } else {
      var word, rest := WordsStep(s);
      var inner := WordsLayout(rest);
      seps := [s[..a]] + inner;
      assert seps[1..] == inner;
      SeparatorsCons(s[..a], inner, |Words(rest)|);
    }
  }

  /** One step of `Words`: leading whitespace, the first word, and the text after it. */
  lemma WordsStep(s: string) returns (word: string, rest: string)
    requires LeadingSpace(s) < |s|
    ensures Words(s) == [word] + Words(rest)
    ensures s == s[..LeadingSpace(s)] + word + rest
    ensures rest != [] ==> IsSpace(rest[0])
  {
    var a := LeadingSpace(s);
    var t := s[a..];
    var n := WordLength(t);
    assert t[0] == s[a];
    word, rest := t[..n], t[n..];
    assert s == s[..a] + t;
  }

  /** A whitespace run put in front of the separators of a text that starts with whitespace. */
  lemma SeparatorsCons(sep: string, inner: seq<string>, n: nat)
    requires AllSpace(sep) && Separators(inner, n)
    requires n > 0 ==> inner[0] != []
    ensures Separators([sep] + inner, n + 1)
  {
    var seps := [sep] + inner;
    forall k | 0 < k < |seps|
      ensures seps[k] == inner[k - 1]
    {
    }
  }

  /** The characters of `s` that are not whitespace, in order. */
  function NonSpace(s: string): string
    decreases |s|
  {
    if s == [] then []
    else (if IsSpace(s[0]) then [] else [s[0]]) + NonSpace(s[1..])
  }

  lemma {:induction false} NonSpaceAppend(a: string, b: string)
    ensures NonSpace(a + b) == NonSpace(a) + NonSpace(b)
    decreases |a|
  {
    if a == [] {
      assert a + b == b;
    } else {
      var head := if IsSpace(a[0]) then [] else [a[0]];
      calc {
        NonSpace(a + b);
        { assert (a + b)[0] == a[0]; }
        head + NonSpace((a + b)[1..]);
        { assert (a + b)[1..] == a[1..] + b; }
        head + NonSpace(a[1..] + b);
        { NonSpaceAppend(a[1..], b); }
        head + (NonSpace(a[1..]) + NonSpace(b));
        (head + NonSpace(a[1..])) + NonSpace(b);
        NonSpace(a) + NonSpace(b);
      }
    }
  }

  lemma {:induction false} NonSpaceOfAllSpace(s: string)
    requires AllSpace(s)
    ensures NonSpace(s) == []
    decreases |s|
  {
    if s != [] {
      NonSpaceOfAllSpace(s[1..]);
    }
  }

  lemma {:induction false} NonSpaceOfNoSpace(s: string)
    requires NoSpace(s)
    ensures NonSpace(s) == s
    decreases |s|
  {
    if s != [] {
      NonSpaceOfNoSpace(s[1..]);
    }
  }

  /**
   * `split()` loses only whitespace: the words, concatenated, are the
   * non-whitespace characters of `s` in order.
   */
  lemma {:induction false} WordsKeepCharacters(s: string)
    ensures Join(Words(s), "") == NonSpace(s)
    decreases |s|
  {
    var a := LeadingSpace(s);
    var t := s[a..];
    NonSpaceDropsLeading(s);
    if a < |s| {
      var n := WordLength(t);
      assert Words(s) == [t[..n]] + Words(t[n..]);
      WordsKeepCharacters(t[n..]);
      NonSpaceSplitWord(t, n);
      JoinEmptyCons(t[..n], Words(t[n..]));
    }
  }

  lemma NonSpaceDropsLeading(s: string)
    ensures NonSpace(s) == NonSpace(s[LeadingSpace(s)..])
  {
    var a := LeadingSpace(s);
    assert s == s[..a] + s[a..];
    NonSpaceAppend(s[..a], s[a..]);
    NonSpaceOfAllSpace(s[..a]);
  }

  lemma NonSpaceSplitWord(t: string, n: nat)
    requires n <= |t| && NoSpace(t[..n])
    ensures NonSpace(t) == t[..n] + NonSpace(t[n..])
  {
    assert t == t[..n] + t[n..];
    NonSpaceAppend(t[..n], t[n..]);
    NonSpaceOfNoSpace(t[..n]);
  }

  lemma JoinEmptyCons(w: string, ws: seq<string>)
    ensures Join([w] + ws, "") == w + Join(ws, "")
  {
    if ws == [] {
      assert [w] + ws == [w];
    } else {
      assert ([w] + ws)[1..] == ws;
    }
  }
}
