/** The word counter: words, characters with and without whitespace,
    paragraphs, sentences and an estimated reading time for a text. */
module WordCounter {
  import opened Text

  predicate IsNewline(c: char) {
    c == '\n'
  }

  predicate IsSentenceEnd(c: char) {
    c == '.' || c == '!' || c == '?'
  }

  predicate NotSpace(c: char) {
    !IsSpace(c)
  }

  datatype Stats = Stats(words: nat, chars: nat, charsNoSpaces: nat, paragraphs: nat, sentences: nat, readingTime: nat)

  /** `text.trim() ? text.trim().split(/\s+/).length : 0`. */
  function WordCount(text: string): (n: nat)
    ensures n == 0 <==> AllSpace(text)
  {
    TrimEmpty(text);
    var t := Trim(text);
    if t != [] then |SplitRuns(t, IsSpace)| else 0
  }

  /** `Math.ceil(words / 200)`: whole minutes at 200 words a minute. */
  function ReadingTime(words: nat): (minutes: nat)
    ensures words == 0 ==> minutes == 0
    ensures words > 0 ==> 200 * (minutes - 1) < words <= 200 * minutes
  {
    (words + 199) / 200
  }

  /** The `stats` memo. */
  function TextStats(text: string): (s: Stats)
    ensures s.chars == |text|
    ensures s.words == 0 <==> AllSpace(text)
    ensures s.readingTime == 0 <==> s.words == 0
    ensures s.words <= 200 * s.readingTime
  {
    var words := WordCount(text);
    Stats(words, |text|, |Keep(text, NotSpace)|,
          |NonBlanks(SplitRuns(text, IsNewline))|,
          |NonBlanks(SplitRuns(text, IsSentenceEnd))|,
          ReadingTime(words))
  }

  // ---------------------------------------------------------------- reference count

  /** Counting words by scanning: a word starts at every non-whitespace
      character that does not follow another one. `inWord` says whether
      the character before `s` was part of a word. */
  function Scan(s: string, inWord: bool): nat {
    if s == [] then 0
    else if IsSpace(s[0]) then Scan(s[1..], false)
    else (if inWord then 0 else 1) + Scan(s[1..], true)
  }

  /** The number of whitespace-separated words of `s`. */
  function TokenCount(s: string): nat {
    Scan(s, false)
  }

  /** Whether the scan ends inside a word after reading `x`. */
  function After(x: string, inWord: bool): bool {
    if x == [] then inWord else !IsSpace(x[|x| - 1])
  }

  lemma {:induction false} ScanConcat(x: string, y: string, inWord: bool)
    ensures Scan(x + y, inWord) == Scan(x, inWord) + Scan(y, After(x, inWord))
  {
    if x == [] {
      assert x + y == y;
    } else {
      assert (x + y)[0] == x[0];
      assert (x + y)[1..] == x[1..] + y;
      var b := !IsSpace(x[0]);
      ScanConcat(x[1..], y, b);
      if x[1..] != [] {
        assert x[1..][|x[1..]| - 1] == x[|x| - 1];
      }
    }
  }

  lemma {:induction false} ScanSpaces(sp: string, inWord: bool)
    requires AllSpace(sp)
    ensures Scan(sp, inWord) == 0
    ensures sp != [] ==> !After(sp, inWord)
  {
    if sp != [] {
      ScanSpaces(sp[1..], false);
    }
  }

  lemma {:induction false} ScanWord(w: string, inWord: bool)
    requires NoSpace(w) && w != []
    ensures Scan(w, inWord) == if inWord then 0 else 1
    ensures After(w, inWord)
  {
    if |w| > 1 {
      ScanWord(w[1..], true);
    }
  }

  lemma {:induction false} ScanPositive(s: string)
    requires !AllSpace(s)
    ensures Scan(s, false) >= 1
  {
    if IsSpace(s[0]) {
      assert !AllSpace(s[1..]) by {
        var i :| 0 <= i < |s| && !IsSpace(s[i]);
        assert s[1..][i - 1] == s[i];
      }
      ScanPositive(s[1..]);
    }
  }

  /** A trimmed, non-empty text has as many `/\s+/` pieces as words. */
  lemma {:induction false} PiecesAreTokens(t: string)
    requires IsTrimmed(t) && t != []
    ensures |SplitRuns(t, IsSpace)| == TokenCount(t)
    decreases |t|
  {
    var i := NextSep(t, 0, IsSpace);
    if i == |t| {
      ScanWord(t, false);
    } else {
      var j := RunEnd(t, i, IsSpace);
      var head, rest := t[..i], t[j..];
      assert j < |t|;
      assert IsTrimmed(rest) by {
        assert rest[0] == t[j];
        assert rest[|rest| - 1] == t[|t| - 1];
      }
      PiecesAreTokens(rest);
      assert SplitRuns(t, IsSpace) == [head] + SplitRuns(rest, IsSpace);
      ScanCut(t, i, j);
      ScanWord(head, false);
    }
  }

  /** The prefix and suffix that `trim` removes are whitespace. */
  lemma TrimPieces(s: string) returns (a: nat, b: nat)
    ensures a <= b <= |s| && Trim(s) == s[a..b]
    ensures AllSpace(s[..a]) && AllSpace(s[b..])
  {
    a := LeadingSpace(s);
    var t := s[a..];
    var n := TrailingSpace(t);
    b := |s| - n;
    assert Trim(s) == s[a..b] by {
      assert TrimStart(s) == t;
      SliceOfSuffix(s, a, 0, |t| - n);
    }
    assert AllSpace(s[b..]) by {
      SliceOfSuffix(s, a, |t| - n, |t|);
    }
  }

  /** Leading and trailing whitespace start no word. */
  lemma TokensOfTrim(s: string)
    ensures TokenCount(Trim(s)) == TokenCount(s)
  {
    var a, b := TrimPieces(s);
    var pre, t, suf := s[..a], s[a..b], s[b..];
    assert s == pre + (t + suf) by {
      Pieces3(s, a, b);
    }
    assert Scan(s, false) == Scan(t + suf, false) by {
      ScanConcat(pre, t + suf, false);
      ScanSpaces(pre, false);
    }
    assert Scan(t + suf, false) == Scan(t, false) by {
      ScanConcat(t, suf, false);
      ScanSpaces(suf, After(t, false));
    }
  }

  /** Cutting a run of whitespace out of a text leaves its word count as
      the sum of the two sides. */
  lemma ScanCut(s: string, i: nat, j: nat)
    requires i < j <= |s| && AllSpace(s[i..j])
    ensures Scan(s, false) == Scan(s[..i], false) + Scan(s[j..], false)
  {
    var head, run, rest := s[..i], s[i..j], s[j..];
    assert s == head + (run + rest) by {
      Pieces3(s, i, j);
    }
    var w := After(head, false);
    assert Scan(s, false) == Scan(head, false) + Scan(run + rest, w) by {
      ScanConcat(head, run + rest, false);
    }
    assert Scan(run + rest, w) == Scan(rest, false) by {
      ScanConcat(run, rest, w);
      ScanSpaces(run, w);
    }
  }

  /** The word count is the number of whitespace-separated words, and 0
      exactly for a text that is all whitespace. */
  lemma WordsAreTokens(text: string)
    ensures WordCount(text) == TokenCount(text)
    ensures WordCount(text) == 0 <==> AllSpace(text)
  {
    TrimEmpty(text);
    TokensOfTrim(text);
    if Trim(text) == [] {
      ScanSpaces(text, false);
    } else {
      PiecesAreTokens(Trim(text));
    }
  }

  /** Each word starts at a character that is not whitespace. */
  lemma {:induction false} TokensBelowChars(s: string, inWord: bool)
    ensures Scan(s, inWord) <= |Keep(s, NotSpace)|
  {
    if s != [] {
      TokensBelowChars(s[1..], !IsSpace(s[0]));
    }
  }

  lemma {:induction false} KeepLength(s: string, keep: char -> bool)
    ensures |Keep(s, keep)| == |s| <==> forall i :: 0 <= i < |s| ==> keep(s[i])
  {
    KeepAll(s, keep);
    if s != [] {
      KeepLength(s[1..], keep);
      if |Keep(s, keep)| == |s| {
        assert keep(s[0]);
        forall i | 0 <= i < |s| ensures keep(s[i]) {
          if i > 0 { assert s[i] == s[1..][i - 1]; }
        }
      }
    }
  }

  /** The character counts: the whitespace-free count never exceeds the
      full length, and equals it exactly for a text without whitespace;
      there are never more words than non-whitespace characters. */
  lemma CharCounts(text: string)
    ensures TextStats(text).chars == |text|
    ensures TextStats(text).charsNoSpaces <= TextStats(text).chars
    ensures TextStats(text).charsNoSpaces == TextStats(text).chars <==> NoSpace(text)
    ensures TextStats(text).words <= TextStats(text).charsNoSpaces
  {
    KeepLength(text, NotSpace);
    WordsAreTokens(text);
    TokensBelowChars(text, false);
  }

  /** Paragraphs: none exactly for a blank text, and never more than the
      words, since every non-blank paragraph starts at least one word. */
  lemma Paragraphs(text: string)
    ensures TextStats(text).paragraphs == 0 <==> AllSpace(text)
    ensures TextStats(text).paragraphs <= TextStats(text).words
  {
    NoNonBlankPiece(text, IsNewline);
    assert SpaceOrSep(text, IsNewline) <==> AllSpace(text);
    ParagraphsBelowTokens(text);
    WordsAreTokens(text);
  }

  lemma {:induction false} ParagraphsBelowTokens(s: string)
    ensures |NonBlanks(SplitRuns(s, IsNewline))| <= TokenCount(s)
    decreases |s|
  {
    var i := NextSep(s, 0, IsNewline);
    var head := s[..i];
    TrimEmpty(head);
    if !AllSpace(head) {
      ScanPositive(head);
    }
    if i == |s| {
      assert head == s;
    } else {
      var j := RunEnd(s, i, IsNewline);
      var rest := s[j..];
      ParagraphsBelowTokens(rest);
      HeadAndRest(s, i, j);
      ScanCut(s, i, j);
    }
  }

  /** The non-blank paragraphs of `s`: its first piece if non-blank, then
      those after the first run of newlines. */
  lemma HeadAndRest(s: string, i: nat, j: nat)
    requires i < |s| && i == NextSep(s, 0, IsNewline) && j == RunEnd(s, i, IsNewline)
    ensures AllSpace(s[i..j]) && i < j
    ensures |NonBlanks(SplitRuns(s, IsNewline))|
         == (if NonBlank(s[..i]) then 1 else 0) + |NonBlanks(SplitRuns(s[j..], IsNewline))|
  {
    var pieces := SplitRuns(s, IsNewline);
    assert pieces == [s[..i]] + SplitRuns(s[j..], IsNewline);
    assert pieces[1..] == SplitRuns(s[j..], IsNewline);
    forall k | 0 <= k < j - i ensures IsSpace(s[i..j][k]) {
      assert s[i..j][k] == s[i + k];
    }
  }

  /** Sentences: none exactly when the text holds only whitespace and
      `.`, `!`, `?`. */
  lemma Sentences(text: string)
    ensures TextStats(text).sentences == 0 <==> SpaceOrSep(text, IsSentenceEnd)
  {
    NoNonBlankPiece(text, IsSentenceEnd);
  }
}
