/**
 * `wrap_text` of `src/pretty_table2.py`: greedy word wrapping. The text is
 * split into words at whitespace, the words are packed left to right into
 * lines joined by single spaces, a line is closed as soon as the next word
 * would take it past the width, and the lines are joined by newlines.
 */
module Wrapping {
  import opened Strings

  /** The first word of a line: its leading run of non-whitespace characters. */
  function FirstWord(line: string): (w: string)
    ensures |w| <= |line| && NoSpace(w)
  {
    line[..WordLength(line)]
  }

  /** The words of consecutive groups, in order. */
  function Flatten(groups: seq<seq<string>>): seq<string>
    decreases |groups|
  {
    if groups == [] then [] else Flatten(groups[..|groups| - 1]) + groups[|groups| - 1]
  }

  /** What `text.split()` gives: non-empty words without whitespace. */
  predicate AreWords(words: seq<string>)
  {
    forall k :: 0 <= k < |words| ==> words[k] != [] && NoSpace(words[k])
  }

  /**
   * The greedy packing of `words` into `lines`: line `k` is the words of
   * group `k` joined by single spaces, the groups hold every word once in
   * order, a line of two or more words fits the width, and each line is
   * closed only when the first word of the next would not fit after it.
   */
  predicate Packed(words: seq<string>, maxWidth: int, lines: seq<string>, groups: seq<seq<string>>)
  {
    && |lines| == |groups|
    && Flatten(groups) == words
    && (forall k :: 0 <= k < |groups| ==> groups[k] != [] && lines[k] == Join(groups[k], " "))
    && (forall k :: 0 <= k < |groups| && |groups[k]| > 1 ==> |lines[k]| <= maxWidth)
    && (forall j :: 0 < j < |groups| ==> |lines[j - 1]| + 1 + |groups[j][0]| > maxWidth)
  }

  /**
   * `Packed` without the words, line by line from the last: every closed
   * line is its group joined by blanks, fits the width when it holds two
   * words, and was closed because the next group's first word did not fit.
   */
  predicate Closed(maxWidth: int, lines: seq<string>, groups: seq<seq<string>>)
    decreases |lines|
  {
    && |lines| == |groups|
    && (lines != [] ==>
          var n := |lines| - 1;
          && Closed(maxWidth, lines[..n], groups[..n])
          && groups[n] != [] && lines[n] == Join(groups[n], " ")
          && (|groups[n]| > 1 ==> |lines[n]| <= maxWidth)
          && (n > 0 ==> |lines[n - 1]| + 1 + |groups[n][0]| > maxWidth))
  }

  /** Closed lines are packed words. */
  lemma ClosedIsPacked(maxWidth: int, lines: seq<string>, groups: seq<seq<string>>)
    requires Closed(maxWidth, lines, groups)
    ensures Packed(Flatten(groups), maxWidth, lines, groups)
  {
    ClosedLines(maxWidth, lines, groups);
    ClosedGreedy(maxWidth, lines, groups);
  }

  lemma {:induction false} ClosedLines(maxWidth: int, lines: seq<string>, groups: seq<seq<string>>)
    requires Closed(maxWidth, lines, groups)
    ensures forall k :: 0 <= k < |groups| ==> groups[k] != [] && lines[k] == Join(groups[k], " ")
    ensures forall k :: 0 <= k < |groups| && |groups[k]| > 1 ==> |lines[k]| <= maxWidth
    decreases |lines|
  {
    if lines != [] {
      var n := |lines| - 1;
      var ls, gs := lines[..n], groups[..n];
      ClosedLines(maxWidth, ls, gs);
      forall k | 0 <= k < n
        ensures groups[k] == gs[k] && lines[k] == ls[k]
      {
      }
    }
  }

  lemma {:induction false} ClosedGreedy(maxWidth: int, lines: seq<string>, groups: seq<seq<string>>)
    requires Closed(maxWidth, lines, groups)
    ensures forall j :: 0 < j < |groups| ==> groups[j] != [] && |lines[j - 1]| + 1 + |groups[j][0]| > maxWidth
    decreases |lines|
  {
    if lines != [] {
      var n := |lines| - 1;
      var ls, gs := lines[..n], groups[..n];
      ClosedGreedy(maxWidth, ls, gs);
      forall j | 0 < j < n
        ensures groups[j] == gs[j] && lines[j - 1] == ls[j - 1]
      {
      }
    }
  }

  /**
   * The state of the loop of `wrap_text` after the words `done`: the closed
   * lines hold the words before the open group, `current` is the open line
   * made of the words of `group` (empty only before the first word), it
   * fits the width once it holds two words, and the last closed line was
   * closed because the open line's first word did not fit after it.
   */
  predicate Open(done: seq<string>, maxWidth: int, lines: seq<string>, groups: seq<seq<string>>,
                 current: string, group: seq<string>)
  {
    && Closed(maxWidth, lines, groups)
    && Flatten(groups) + group == done
    && AreWords(group)
    && (group == [] ==> groups == [] && current == "")
    && (group != [] ==> current == Join(group, " ") && current != "")
    && (|group| > 1 ==> |current| <= maxWidth)
    && (|groups| > 0 ==> group != [] && |lines[|lines| - 1]| + 1 + |group[0]| > maxWidth)
  }

  /** Closing the open line because the next word does not fit after it. */
  lemma OpenClose(done: seq<string>, maxWidth: int, lines: seq<string>, groups: seq<seq<string>>,
                  current: string, group: seq<string>, word: string)
    requires Open(done, maxWidth, lines, groups, current, group)
    requires group != [] && word != [] && NoSpace(word) && |current| + 1 + |word| > maxWidth
    ensures Open(done + [word], maxWidth, lines + [current], groups + [group], word, [word])
  {
    var gs, ls := groups + [group], lines + [current];
    assert gs[..|groups|] == groups && ls[..|lines|] == lines;
    assert Flatten(gs) == Flatten(groups) + group;
    assert Join([word], " ") == word;
  }

  /** Adding the next word to the open line because it fits, or because the line is empty. */
  lemma OpenExtend(done: seq<string>, maxWidth: int, lines: seq<string>, groups: seq<seq<string>>,
                   current: string, group: seq<string>, word: string)
    requires Open(done, maxWidth, lines, groups, current, group)
    requires word != [] && NoSpace(word)
    requires group != [] ==> |current| + 1 + |word| <= maxWidth
    ensures group == [] ==> Open(done + [word], maxWidth, lines, groups, word, [word])
    ensures group != [] ==> Open(done + [word], maxWidth, lines, groups, current + " " + word, group + [word])
  {
    if group == [] {
      assert Join([word], " ") == word;
      assert Flatten(groups) == [];
    } else {
      JoinSnoc(group, word, " ");
      assert Flatten(groups) + (group + [word]) == (Flatten(groups) + group) + [word];
    }
  }

  /** Before the first word nothing is open and nothing is closed. */
  lemma OpenStart(maxWidth: int)
    ensures Open([], maxWidth, [], [], "", [])
  {
  }

  /**
   * After the last word the open line is closed too, if there is one: the
   * lines are packed, and there is a line as soon as there is a word.
   */
  lemma OpenFinish(words: seq<string>, maxWidth: int, lines: seq<string>, groups: seq<seq<string>>,
                   current: string, group: seq<string>)
    requires Open(words, maxWidth, lines, groups, current, group)
    ensures current == "" ==> Packed(words, maxWidth, lines, groups) && (|lines| >= 1 <==> words != [])
    ensures current != "" ==> Packed(words, maxWidth, lines + [current], groups + [group]) && words != []
  {
    if current == "" {
      assert group == [] && groups == [] && lines == [];
      ClosedIsPacked(maxWidth, lines, groups);
    } else {
      var gs, ls := groups + [group], lines + [current];
      assert gs[..|groups|] == groups && ls[..|lines|] == lines;
      assert Flatten(gs) == Flatten(groups) + group;
      assert Closed(maxWidth, ls, gs);
      ClosedIsPacked(maxWidth, ls, gs);
    }
  }

  /**
   * One turn of the loop of `wrap_text`: the open line is closed when it
   * holds words and the next word would take it past the width; otherwise
   * the word joins it after a blank, or starts it.
   */
  method Advance(ghost done: seq<string>, maxWidth: int, lines: seq<string>, ghost groups: seq<seq<string>>,
                 current: string, ghost group: seq<string>, word: string)
    returns (lines': seq<string>, ghost groups': seq<seq<string>>, current': string, ghost group': seq<string>)
    requires Open(done, maxWidth, lines, groups, current, group)
    requires word != [] && NoSpace(word)
    ensures Open(done + [word], maxWidth, lines', groups', current', group')
    ensures lines' == lines || lines' == lines + [current]
  {
    if current != "" && |current| + 1 + |word| > maxWidth {
      OpenClose(done, maxWidth, lines, groups, current, group, word);
      lines', groups' := lines + [current], groups + [group];
      current', group' := word, [word];
    } else if current != "" {
      OpenExtend(done, maxWidth, lines, groups, current, group, word);
      lines', groups' := lines, groups;
      current', group' := current + " " + word, group + [word];
    } else {
      OpenExtend(done, maxWidth, lines, groups, current, group, word);
      lines', groups' := lines, groups;
      current', group' := word, [word];
    }
  }

  /** The loop of `wrap_text`, with the groups of words behind each line kept as a ghost. */
  method WrapLines(words: seq<string>, maxWidth: int) returns (lines: seq<string>, ghost groups: seq<seq<string>>)
    requires AreWords(words)
    ensures Packed(words, maxWidth, lines, groups)
    ensures |lines| >= 1 <==> words != []
  {
    lines, groups := [], [];
    var current := "";
    ghost var group: seq<string> := [];
    ghost var done: seq<string> := [];
    OpenStart(maxWidth);
    for i := 0 to |words|
      invariant done == words[..i]
      invariant Open(done, maxWidth, lines, groups, current, group)
    {
      var word := words[i];
      lines, groups, current, group := Advance(done, maxWidth, lines, groups, current, group, word);
      done := done + [word];
      assert done == words[..i + 1];
    }
    assert done == words;
    OpenFinish(words, maxWidth, lines, groups, current, group);
    if current != "" {
      lines, groups := lines + [current], groups + [group];
    }
  }

  /** Wrapped lines joined by spaces again give the words joined by spaces. */
  lemma {:induction false} JoinGroups(words: seq<string>, maxWidth: int, lines: seq<string>, groups: seq<seq<string>>)
    requires Packed(words, maxWidth, lines, groups) && |lines| >= 1
    ensures Join(lines, " ") == Join(words, " ")
    decreases |lines|
  {
    var n := |lines| - 1;
    var gInit, lInit := groups[..n], lines[..n];
    assert Flatten(groups) == Flatten(gInit) + groups[n];
    if n == 0 {
      assert Flatten(gInit) == [];
      assert words == groups[0];
    } else {
      assert Packed(Flatten(gInit), maxWidth, lInit, gInit) by {
        forall k | 0 <= k < n
          ensures gInit[k] == groups[k] && lInit[k] == lines[k]
        {
        }
      }
      JoinGroups(Flatten(gInit), maxWidth, lInit, gInit);
      assert lines == lInit + [lines[n]];
      JoinSnoc(lInit, lines[n], " ");
      JoinNotShorter(lInit, " ");
      FlattenNotEmpty(gInit);
      JoinAppend(Flatten(gInit), groups[n], " ");
    }
  }

  /** Groups that are not empty flatten to at least one word. */
  lemma FlattenNotEmpty(groups: seq<seq<string>>)
    requires |groups| >= 1 && groups[|groups| - 1] != []
    ensures |Flatten(groups)| >= 1
  {
  }

  /** The first word of a line built from a group is the group's first word. */
  lemma FirstWordOfLine(group: seq<string>)
    requires group != [] && AreWords(group)
    ensures FirstWord(Join(group, " ")) == group[0]
  {
    var w := group[0];
    if |group| == 1 {
      assert w + [] == w;
      WordLengthOfWord(w, []);
    } else {
      var rest := " " + Join(group[1..], " ");
      assert Join(group, " ") == w + rest;
      WordLengthOfWord(w, rest);
      assert (w + rest)[..|w|] == w;
    }
  }

  /** A word followed by nothing or by whitespace has its own length as the leading run. */
  lemma {:induction false} WordLengthOfWord(w: string, rest: string)
    requires NoSpace(w)
    requires rest == [] || IsSpace(rest[0])
    ensures WordLength(w + rest) == |w|
    decreases |w|
  {
    if w == [] {
      assert w + rest == rest;
    } else {
      assert (w + rest)[1..] == w[1..] + rest;
      assert (w + rest)[0] == w[0];
      WordLengthOfWord(w[1..], rest);
    }
  }

  /** A line of one word has no blank in it. */
  lemma OneWordNoBlank(group: seq<string>)
    requires |group| == 1 && AreWords(group)
    ensures ' ' !in Join(group, " ")
  {
    var w := group[0];
    forall i | 0 <= i < |w|
      ensures w[i] != ' '
    {
      assert !IsSpace(w[i]);
    }
  }

  /** A line has no newline: its words have none and neither has the blank between them. */
  lemma LineHasNoNewline(group: seq<string>)
    requires AreWords(group)
    ensures Excludes(Join(group, " "), '\n')
  {
    forall k | 0 <= k < |group|
      ensures Excludes(group[k], '\n')
    {
      forall i | 0 <= i < |group[k]|
        ensures group[k][i] != '\n'
      {
        assert !IsSpace(group[k][i]);
      }
    }
    JoinExcludes(group, " ", '\n');
  }

  /**
   * The output lines of `wrap_text` as its callers see them: non-empty,
   * the words in order once the lines are joined by spaces, within the
   * width unless a line is a single word, and broken greedily.
   */
  predicate WellWrapped(lines: seq<string>, words: seq<string>, maxWidth: int)
  {
    && |lines| >= 1
    && Join(lines, " ") == Join(words, " ")
    && (forall k :: 0 <= k < |lines| ==> lines[k] != [] && (' ' in lines[k] ==> |lines[k]| <= maxWidth))
    && (forall j :: 0 < j < |lines| ==> |lines[j - 1]| + 1 + |FirstWord(lines[j])| > maxWidth)
  }

  /** Packed lines are well wrapped. */
  lemma PackedIsWellWrapped(words: seq<string>, maxWidth: int, lines: seq<string>, groups: seq<seq<string>>)
    requires AreWords(words) && Packed(words, maxWidth, lines, groups) && |lines| >= 1
    ensures WellWrapped(lines, words, maxWidth)
    ensures forall k :: 0 <= k < |lines| ==> Excludes(lines[k], '\n')
  {
    JoinGroups(words, maxWidth, lines, groups);
    forall k | 0 <= k < |lines|
      ensures AreWords(groups[k])
    {
      GroupsAreWords(words, groups, k);
    }
    forall k | 0 <= k < |lines|
      ensures lines[k] != [] && (' ' in lines[k] ==> |lines[k]| <= maxWidth)
      ensures Excludes(lines[k], '\n')
    {
      JoinNotShorter(groups[k], " ");
      if |groups[k]| == 1 {
        OneWordNoBlank(groups[k]);
      }
      LineHasNoNewline(groups[k]);
    }
    forall j | 1 <= j < |lines|
      ensures FirstWord(lines[j]) == groups[j][0]
    {
      FirstWordOfLine(groups[j]);
    }
  }

  /** Every group holds words of the input. */
  lemma GroupsAreWords(words: seq<string>, groups: seq<seq<string>>, k: int)
    requires AreWords(words) && Flatten(groups) == words && 0 <= k < |groups|
    ensures AreWords(groups[k])
  {
    FlattenHolds(groups, k);
    forall j | 0 <= j < |groups[k]|
      ensures groups[k][j] != [] && NoSpace(groups[k][j])
    {
      assert groups[k][j] in words;
    }
  }

  /** The words of each group are among the flattened words. */
  lemma {:induction false} FlattenHolds(groups: seq<seq<string>>, k: int)
    requires 0 <= k < |groups|
    ensures forall w :: w in groups[k] ==> w in Flatten(groups)
    decreases |groups|
  {
    var n := |groups| - 1;
    var init := groups[..n];
    assert Flatten(groups) == Flatten(init) + groups[n];
    if k < n {
      FlattenHolds(init, k);
      assert init[k] == groups[k];
    }
  }

  /** The early returns of `wrap_text`: empty text, a width that is not positive, text that fits, or no words. */
  predicate Untouched(text: string, maxWidth: int)
  {
    text == [] || maxWidth <= 0 || |text| <= maxWidth || AllSpace(text)
  }

  /**
   * `wrap_text(text, max_width)`: the text itself when it is empty, the
   * width is not positive, it already fits or it has no words; otherwise
   * its words wrapped greedily into lines joined by newlines, which split
   * back into exactly those lines.
   */
  method WrapText(text: string, maxWidth: int) returns (r: string)
    ensures Untouched(text, maxWidth) ==> r == text
    ensures !Untouched(text, maxWidth) ==> WellWrapped(SplitOn(r, '\n'), Words(text), maxWidth)
  {
    if text == [] || maxWidth <= 0 {
      return text;
    }
    if |text| <= maxWidth {
      return text;
    }
    var words := Words(text);
    WordsAreWords(text);
    if words == [] {
      return text;
    }
    var lines;
    ghost var groups;
    lines, groups := WrapLines(words, maxWidth);
    PackedIsWellWrapped(words, maxWidth, lines, groups);
    SplitJoin(lines, '\n');
    r := Join(lines, "\n");
  }
}
