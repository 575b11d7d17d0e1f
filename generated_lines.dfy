/** What the title and hook generators do with the generated text: keep its
    non-blank lines, and show and copy each without a leading list marker
    such as `1.`, `-` or `*`. */
module GeneratedLines {
  import opened Text

  /** `text.split('\n').filter(t => t.trim().length > 0)`. */
  function Lines(text: string): (r: seq<string>)
    ensures forall k :: 0 <= k < |r| ==>
      r[k] in Split(text, '\n') && NonBlank(r[k]) && '\n' !in r[k]
  {
    var pieces := Split(text, '\n');
    var r := NonBlanks(pieces);
    forall k | 0 <= k < |r| ensures r[k] in pieces && '\n' !in r[k] {
      assert r[k] in pieces;
      var j :| 0 <= j < |pieces| && pieces[j] == r[k];
    }
    r
  }

  /** There are at most one more lines than there are line breaks. */
  lemma LineCount(text: string)
    ensures |Lines(text)| <= multiset(text)['\n'] + 1
  {
    SplitCount(text, '\n');
  }

  /** Lines keep the order of the text. */
  lemma LinesAppend(a: string, b: string)
    ensures Lines(a + ['\n'] + b) == Lines(a) + Lines(b)
  {
    SplitAppend(a, b, '\n');
    NonBlanksAppend(Split(a, '\n'), Split(b, '\n'));
  }

  /** There is no line to show exactly when the text is all whitespace. */
  lemma {:induction false} NoLines(text: string)
    ensures Lines(text) == [] <==> AllSpace(text)
    decreases |text|
  {
    if '\n' !in text {
      assert Split(text, '\n') == [text];
      TrimEmpty(text);
    } else {
      var i := IndexOf(text, '\n');
      var head, rest := text[..i], text[i + 1..];
      NoLines(rest);
      TrimEmpty(head);
      LinesUnfold(text);
      SpaceAround(text, i);
    }
  }

  /** The lines of a text with a line break: its first line when it is not
      blank, then the lines after the break. */
  lemma LinesUnfold(text: string)
    requires '\n' in text
    ensures var i := IndexOf(text, '\n');
      Lines(text) == (if NonBlank(text[..i]) then [text[..i]] else []) + Lines(text[i + 1..])
  {
    var i := IndexOf(text, '\n');
    var pieces := Split(text, '\n');
    assert pieces == [text[..i]] + Split(text[i + 1..], '\n');
    assert pieces[1..] == Split(text[i + 1..], '\n');
  }

  /** A text is all whitespace when the two sides of a whitespace
      character are. */
  lemma SpaceAround(s: string, i: nat)
    requires i < |s| && IsSpace(s[i])
    ensures AllSpace(s) <==> AllSpace(s[..i]) && AllSpace(s[i + 1..])
  {
    if AllSpace(s[..i]) && AllSpace(s[i + 1..]) {
      forall j | 0 <= j < |s| ensures IsSpace(s[j]) {
        if j < i {
          assert s[j] == s[..i][j];
        } else if j > i {
          assert s[j] == s[i + 1..][j - i - 1];
        }
      }
    }
  }

  /** The characters `/^[\d.\-*]+/` matches. */
  predicate IsListMark(c: char) {
    IsDigit(c) || c == '.' || c == '-' || c == '*'
  }

  /** `s[..m]` is a maximal run of list-marker characters and the text
      between it and the suffix `rest` a maximal run of whitespace. */
  predicate MarkerThenSpace(s: string, m: nat, rest: string) {
    var e := |s| - |rest|;
    && 1 <= m <= e
    && (forall k :: 0 <= k < m ==> IsListMark(s[k]))
    && (m < |s| ==> !IsListMark(s[m]))
    && (forall k :: m <= k < e ==> IsSpace(s[k]))
    && (e < |s| ==> !IsSpace(s[e]))
  }

  /** Removing the regular expression `^[\d.\-*]+\s*` from a line: a line
      that starts with a list marker loses the whole run of marker
      characters at its start and the whitespace after it; any other line
      is kept. What is left is the end of the line, so it holds no line
      break when the line held none. */
  function Clean(s: string): (r: string)
    ensures |r| <= |s| && r == s[|s| - |r|..]
    ensures s == [] || !IsListMark(s[0]) ==> r == s
    ensures s != [] && IsListMark(s[0]) ==>
      exists m :: MarkerThenSpace(s, m, r)
  {
    var m := RunEnd(s, 0, IsListMark);
    if m == 0 then s
    else
      var e := RunEnd(s, m, IsSpace);
      assert |s| - |s[e..]| == e;
      assert MarkerThenSpace(s, m, s[e..]);
      s[e..]
  }

  /** Cleaning is not idempotent: a second marker after the first one's
      whitespace stays until the line is cleaned again. */
  lemma CleanTwice()
    ensures Clean("1. 2. x") == "2. x"
    ensures Clean("2. x") == "x"
  {
    var s := "1. 2. x";
    assert RunEnd(s, 0, IsListMark) == 2 by {
      assert RunEnd(s, 2, IsListMark) == 2;
    }
    assert RunEnd(s, 2, IsSpace) == 3 by {
      assert RunEnd(s, 3, IsSpace) == 3;
    }
    assert s[3..] == "2. x";
    var t := "2. x";
    assert RunEnd(t, 0, IsListMark) == 2 by {
      assert RunEnd(t, 2, IsListMark) == 2;
    }
    assert RunEnd(t, 2, IsSpace) == 3 by {
      assert RunEnd(t, 3, IsSpace) == 3;
    }
    assert t[3..] == "x";
  }
}
