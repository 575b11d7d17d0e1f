/** ASCII views of the JavaScript string operations the tools use: the `\s`
    and `\w` regular-expression classes, `trim`, `toLowerCase`,
    `toUpperCase`, `split` on a one-character string, `split` on a run
    pattern such as `/\s+/`, and `join`. */
module Text {

  /** JavaScript `\s` restricted to ASCII: tab, line feed, vertical tab,
      form feed, carriage return and space. */
  predicate IsSpace(c: char) {
    c == ' ' || (9 <= c as int <= 13)
  }

  predicate IsDigit(c: char) {
    '0' <= c <= '9'
  }

  predicate IsUpper(c: char) {
    'A' <= c <= 'Z'
  }

  predicate IsLower(c: char) {
    'a' <= c <= 'z'
  }

  /** JavaScript `\w`: ASCII letters, digits and underscore. */
  predicate IsWordChar(c: char) {
    IsUpper(c) || IsLower(c) || IsDigit(c) || c == '_'
  }

  function ToLowerChar(c: char): (r: char)
    ensures !IsUpper(r)
    ensures IsUpper(c) ==> IsLower(r) && r as int == c as int + 32
    ensures !IsUpper(c) ==> r == c
  {
    if IsUpper(c) then (c as int + 32) as char else c
  }

  function ToUpperChar(c: char): (r: char)
    ensures !IsLower(r)
    ensures IsLower(c) ==> IsUpper(r) && r as int == c as int - 32
    ensures !IsLower(c) ==> r == c
  {
    if IsLower(c) then (c as int - 32) as char else c
  }

  /** `String.prototype.toLowerCase` on ASCII text. */
  function ToLower(s: string): (r: string)
    ensures |r| == |s|
    ensures forall i :: 0 <= i < |s| ==> r[i] == ToLowerChar(s[i])
  {
    seq(|s|, i requires 0 <= i < |s| => ToLowerChar(s[i]))
  }

  predicate AllSpace(s: string) {
    forall i :: 0 <= i < |s| ==> IsSpace(s[i])
  }

  predicate NoSpace(s: string) {
    forall i :: 0 <= i < |s| ==> !IsSpace(s[i])
  }

  /** The characters of `s` that satisfy `keep`, in order
      (`s.replace(/[^…]/g, '')`). */
  function Keep(s: string, keep: char -> bool): (r: string)
    ensures |r| <= |s|
    ensures forall i :: 0 <= i < |r| ==> keep(r[i])
    ensures forall c :: c in r ==> c in s
  {
    if s == [] then []
    else (if keep(s[0]) then [s[0]] else []) + Keep(s[1..], keep)
  }

  lemma {:induction false} KeepAll(s: string, keep: char -> bool)
    ensures Keep(s, keep) == s <==> forall i :: 0 <= i < |s| ==> keep(s[i])
  {
    if s != [] {
      KeepAll(s[1..], keep);
      if !keep(s[0]) {
        assert |Keep(s, keep)| < |s|;
      } else if Keep(s, keep) == s {
        assert Keep(s[1..], keep) == s[1..];
        forall i | 0 <= i < |s| ensures keep(s[i]) {
          if i > 0 { assert s[i] == s[1..][i - 1]; }
        }
      } else {
        assert !(forall i :: 0 <= i < |s[1..]| ==> keep(s[1..][i]));
      }
    }
  }

  // ---------------------------------------------------------------- trim

  /** Number of leading whitespace characters. */
  function LeadingSpace(s: string): (n: nat)
    ensures n <= |s|
    ensures AllSpace(s[..n])
    ensures n < |s| ==> !IsSpace(s[n])
  {
    if s == [] || !IsSpace(s[0]) then 0 else 1 + LeadingSpace(s[1..])
  }

  /** Number of trailing whitespace characters. */
  function TrailingSpace(s: string): (n: nat)
    ensures n <= |s|
    ensures AllSpace(s[|s| - n..])
    ensures n < |s| ==> !IsSpace(s[|s| - n - 1])
  {
    if s == [] || !IsSpace(s[|s| - 1]) then 0 else 1 + TrailingSpace(s[..|s| - 1])
  }

  function TrimStart(s: string): (r: string)
    ensures r == s[LeadingSpace(s)..]
  {
    s[LeadingSpace(s)..]
  }

  /** `String.prototype.trim`: `s` without its leading and trailing
      whitespace. */
  function Trim(s: string): (r: string)
    ensures |r| <= |s|
    ensures r == [] || (!IsSpace(r[0]) && !IsSpace(r[|r| - 1]))
  {
    var t := TrimStart(s);
    t[..|t| - TrailingSpace(t)]
  }

  /** The trimmed string is the contiguous slice of `s` that starts after
      its leading whitespace. */
  lemma TrimSlice(s: string)
    ensures var a := LeadingSpace(s);
      a + |Trim(s)| <= |s| && Trim(s) == s[a..a + |Trim(s)|]
  {
  }

  /** Trimming keeps only characters of its input. */
  lemma TrimChars(s: string)
    ensures forall c :: c in Trim(s) ==> c in s
  {
    var a := LeadingSpace(s);
    var t := Trim(s);
    TrimSlice(s);
    forall c | c in t ensures c in s {
      var k :| 0 <= k < |t| && t[k] == c;
      assert s[a + k] == c;
    }
  }

  /** Trimmed: no whitespace at either end. */
  predicate IsTrimmed(s: string) {
    s == [] || (!IsSpace(s[0]) && !IsSpace(s[|s| - 1]))
  }

  lemma AllSpaceSplit(s: string, n: nat)
    requires n <= |s|
    ensures AllSpace(s) <==> AllSpace(s[..n]) && AllSpace(s[n..])
  {
    if !AllSpace(s) {
      var i :| 0 <= i < |s| && !IsSpace(s[i]);
      if i < n { assert s[..n][i] == s[i]; } else { assert s[n..][i - n] == s[i]; }
    }
  }

  /** A string trims to nothing exactly when it is all whitespace. */
  lemma TrimEmpty(s: string)
    ensures Trim(s) == [] <==> AllSpace(s)
  {
    var t := TrimStart(s);
    var n := LeadingSpace(s);
    AllSpaceSplit(s, n);
    if t != [] {
      assert !IsSpace(t[0]);
      assert !AllSpace(s[n..]);
      assert Trim(s)[0] == t[0];
    }
  }

  lemma TrimIdentity(s: string)
    requires IsTrimmed(s)
    ensures Trim(s) == s
  {
    assert LeadingSpace(s) == 0;
    assert TrailingSpace(s) == 0;
  }

  /** Trim only removes whitespace: it is the identity on trimmed text and
      drops exactly one leading space in front of one. */
  lemma TrimAfterSpace(t: string)
    requires IsTrimmed(t)
    ensures Trim([' '] + t) == t
  {
    var s := [' '] + t;
    assert s[1..] == t;
    assert LeadingSpace(s) == 1 + LeadingSpace(t);
    TrimIdentity(t);
  }

  // ---------------------------------------------------------------- split on one character

  /** Index of the first `c` in `s`, which must contain one. */
  function IndexOf(s: string, c: char): (i: nat)
    requires c in s
    ensures i < |s| && s[i] == c && c !in s[..i]
  {
    if s[0] == c then 0 else 1 + IndexOf(s[1..], c)
  }

  /** `s.split(c)` for a one-character separator: the pieces between the
      occurrences of `c` (one more than there are occurrences, as
      `SplitCount` shows). */
  function Split(s: string, c: char): (r: seq<string>)
    ensures |r| >= 1
    ensures forall k :: 0 <= k < |r| ==> c !in r[k]
    decreases |s|
  {
    if c !in s then [s]
    else
      var i := IndexOf(s, c);
      [s[..i]] + Split(s[i + 1..], c)
  }

  /** There is one piece more than there are separators. */
  lemma {:induction false} SplitCount(s: string, c: char)
    ensures |Split(s, c)| == multiset(s)[c] + 1
    decreases |s|
  {
    if c in s {
      var i := IndexOf(s, c);
      SplitCount(s[i + 1..], c);
      assert s == s[..i] + [c] + s[i + 1..];
      assert multiset(s)[c] == multiset(s[..i])[c] + 1 + multiset(s[i + 1..])[c];
    }
  }

  /** `parts.join(sep)`. */
  function Join(parts: seq<string>, sep: string): (r: string)
  {
    if |parts| == 0 then []
    else if |parts| == 1 then parts[0]
    else parts[0] + sep + Join(parts[1..], sep)
  }

  /** Splitting and joining back with the same character is the identity. */
  lemma {:induction false} JoinSplit(s: string, c: char)
    ensures Join(Split(s, c), [c]) == s
    decreases |s|
  {
    if c in s {
      var i := IndexOf(s, c);
      var head, tail := s[..i], s[i + 1..];
      JoinSplit(tail, c);
      assert Split(s, c) == [head] + Split(tail, c);
      JoinFront(head, Split(tail, c), [c]);
      SplitPoint(s, i);
    }
  }

  /** Joining a head in front of at least one more part. */
  lemma JoinFront(head: string, rest: seq<string>, sep: string)
    requires |rest| >= 1
    ensures Join([head] + rest, sep) == head + sep + Join(rest, sep)
  {
    assert ([head] + rest)[1..] == rest;
  }

  lemma SplitPoint(s: string, i: nat)
    requires i < |s|
    ensures s[..i] + [s[i]] + s[i + 1..] == s
  {
  }

  /** Joining pieces free of `c` with `c` and splitting again gives back the
      pieces. */
  lemma {:induction false} SplitJoin(parts: seq<string>, c: char)
    requires |parts| >= 1
    requires forall k :: 0 <= k < |parts| ==> c !in parts[k]
    ensures Split(Join(parts, [c]), c) == parts
  {
    if |parts| == 1 {
    } else {
      var s := Join(parts, [c]);
      var rest := Join(parts[1..], [c]);
      assert s == parts[0] + [c] + rest;
      assert s[|parts[0]|] == c;
      assert s[..|parts[0]|] == parts[0];
      var i := IndexOf(s, c);
      assert i == |parts[0]|;
      assert s[..i] == parts[0];
      assert s[i + 1..] == rest;
      SplitJoin(parts[1..], c);
    }
  }

  /** Splitting text glued together at a separator gives the pieces of
      each side, in order. */
  lemma {:induction false} SplitAppend(a: string, b: string, c: char)
    ensures Split(a + [c] + b, c) == Split(a, c) + Split(b, c)
    decreases |a|
  {
    if c !in a {
      FirstAtJoint(a, b, c);
    } else {
      var i := IndexOf(a, c);
      SplitAppend(a[i + 1..], b, c);
      SplitAppendStep(a, b, c);
    }
  }

  /** One step of `SplitAppend`: the piece of `a` before its first `c`,
      then the rest. */
  lemma SplitAppendStep(a: string, b: string, c: char)
    requires c in a
    requires var i := IndexOf(a, c);
      Split(a[i + 1..] + [c] + b, c) == Split(a[i + 1..], c) + Split(b, c)
    ensures Split(a + [c] + b, c) == Split(a, c) + Split(b, c)
  {
    var s := a + [c] + b;
    var i := IndexOf(a, c);
    var head, rest := a[..i], a[i + 1..];
    var x, y := Split(rest, c), Split(b, c);
    assert Split(s, c) == [head] + (x + y) by {
      FirstInHead(a, b, c);
      SplitUnfold(s, c);
    }
    assert Split(a, c) == [head] + x by {
      SplitUnfold(a, c);
    }
    Associate([head], x, y);
  }

  lemma Uncons<T>(s: seq<T>)
    requires s != []
    ensures s == [s[0]] + s[1..]
  {
  }

  lemma SliceOfSuffix<T>(s: seq<T>, a: nat, x: nat, y: nat)
    requires a <= |s| && x <= y <= |s| - a
    ensures s[a..][x..y] == s[a + x..a + y]
  {
  }

  lemma SliceOfSlice<T>(s: seq<T>, a: nat, b: nat, m: nat)
    requires a <= b <= |s| && m <= b - a
    ensures s[a..b][..m] == s[a..a + m]
  {
  }

  lemma Pieces3<T>(s: seq<T>, a: nat, b: nat)
    requires a <= b <= |s|
    ensures s == s[..a] + (s[a..b] + s[b..])
  {
  }

  lemma Associate<T>(p: seq<T>, x: seq<T>, y: seq<T>)
    ensures p + (x + y) == (p + x) + y
  {
  }

  /** `Split` on a string with a `c`: the piece before it, then the rest. */
  lemma SplitUnfold(s: string, c: char)
    requires c in s
    ensures var i := IndexOf(s, c);
      Split(s, c) == [s[..i]] + Split(s[i + 1..], c)
  {
  }

  /** With no `c` in `a`, the first `c` of `a + [c] + b` is the one between. */
  lemma FirstAtJoint(a: string, b: string, c: char)
    requires c !in a
    ensures var s := a + [c] + b;
      c in s && IndexOf(s, c) == |a| && s[..|a|] == a && s[|a| + 1..] == b
    ensures Split(a + [c] + b, c) == [a] + Split(b, c)
  {
    var s := a + [c] + b;
    assert s[|a|] == c;
    assert s[..|a|] == a;
    assert s[|a| + 1..] == b;
    IndexOfFirst(s, c, |a|);
  }

  /** With a `c` in `a`, the first `c` of `a + [c] + b` is the first of `a`. */
  lemma FirstInHead(a: string, b: string, c: char)
    requires c in a
    ensures var s := a + [c] + b; var i := IndexOf(a, c);
      c in s && IndexOf(s, c) == i && s[..i] == a[..i] && s[i + 1..] == a[i + 1..] + [c] + b
  {
    var s := a + [c] + b;
    var i := IndexOf(a, c);
    assert s[..i] == a[..i];
    assert s[i] == c;
    assert s[i + 1..] == a[i + 1..] + [c] + b;
    IndexOfFirst(s, c, i);
  }

  /** A `c` at `i` with none before it is the first one. */
  lemma {:induction false} IndexOfFirst(s: string, c: char, i: nat)
    requires i < |s| && s[i] == c && c !in s[..i]
    ensures c in s && IndexOf(s, c) == i
  {
    assert s[i] in s;
    if i > 0 {
      assert s[0] in s[..i];
      assert s[1..][..i - 1] == s[1..i];
      assert s[1..i] == s[..i][1..];
      IndexOfFirst(s[1..], c, i - 1);
    }
  }

  // ---------------------------------------------------------------- split on runs

  /** First index at or after `i` whose character is not a separator. */
  function RunEnd(s: string, i: nat, sep: char -> bool): (j: nat)
    requires i <= |s|
    ensures i <= j <= |s|
    ensures forall k :: i <= k < j ==> sep(s[k])
    ensures j < |s| ==> !sep(s[j])
    decreases |s| - i
  {
    if i == |s| || !sep(s[i]) then i else RunEnd(s, i + 1, sep)
  }

  /** First index at or after `i` whose character is a separator. */
  function NextSep(s: string, i: nat, sep: char -> bool): (j: nat)
    requires i <= |s|
    ensures i <= j <= |s|
    ensures forall k :: i <= k < j ==> !sep(s[k])
    ensures j < |s| ==> sep(s[j])
    decreases |s| - i
  {
    if i == |s| || sep(s[i]) then i else NextSep(s, i + 1, sep)
  }

  /** `s.split(/X+/)` where `X` is the character class `sep`: the pieces
      between maximal runs of separators. A leading run gives an empty
      first piece and a trailing run an empty last piece. */
  function SplitRuns(s: string, sep: char -> bool): (r: seq<string>)
    ensures |r| >= 1
    ensures forall k, m :: 0 <= k < |r| && 0 <= m < |r[k]| ==> !sep(r[k][m])
    decreases |s|
  {
    var i := NextSep(s, 0, sep);
    if i == |s| then [s]
    else
      var j := RunEnd(s, i, sep);
      [s[..i]] + SplitRuns(s[j..], sep)
  }

  /** Every character of a piece of `SplitRuns(s, sep)` is a character of
      `s`. */
  lemma {:induction false} SplitRunsChars(s: string, sep: char -> bool, k: nat, m: nat)
    requires k < |SplitRuns(s, sep)| && m < |SplitRuns(s, sep)[k]|
    ensures SplitRuns(s, sep)[k][m] in s
    decreases |s|
  {
    var i := NextSep(s, 0, sep);
    if i < |s| && k > 0 {
      var j := RunEnd(s, i, sep);
      SplitRunsChars(s[j..], sep, k - 1, m);
    }
  }

  /** `s.replace(/X+/g, with)`: every maximal run of separators replaced by
      `with`. */
  function ReplaceRuns(s: string, sep: char -> bool, with: string): (r: string)
  {
    Join(SplitRuns(s, sep), with)
  }

  predicate NonBlank(s: string) {
    Trim(s) != []
  }

  /** The non-blank elements of `xs`, in order (`.filter(x => x.trim())`). */
  function NonBlanks(xs: seq<string>): (r: seq<string>)
    ensures |r| <= |xs|
    ensures forall k :: 0 <= k < |r| ==> NonBlank(r[k])
    ensures forall x :: x in r ==> x in xs
  {
    if xs == [] then []
    else
      var head := if NonBlank(xs[0]) then [xs[0]] else [];
      var rest := NonBlanks(xs[1..]);
      forall k | 0 <= k < |head + rest| ensures NonBlank((head + rest)[k]) && (head + rest)[k] in xs {
        if k < |head| {
          assert (head + rest)[k] == xs[0];
        } else {
          assert (head + rest)[k] == rest[k - |head|];
          assert rest[k - |head|] in xs[1..];
        }
      }
      head + rest
  }

  /** The filter keeps the order: it distributes over concatenation. */
  lemma {:induction false} NonBlanksAppend(a: seq<string>, b: seq<string>)
    ensures NonBlanks(a + b) == NonBlanks(a) + NonBlanks(b)
  {
    if a == [] {
      assert a + b == b;
    } else {
      var head := if NonBlank(a[0]) then [a[0]] else [];
      assert (a + b)[0] == a[0];
      assert (a + b)[1..] == a[1..] + b;
      NonBlanksAppend(a[1..], b);
      calc {
        NonBlanks(a + b);
        head + NonBlanks(a[1..] + b);
        head + (NonBlanks(a[1..]) + NonBlanks(b));
        { Associate(head, NonBlanks(a[1..]), NonBlanks(b)); }
        (head + NonBlanks(a[1..])) + NonBlanks(b);
        NonBlanks(a) + NonBlanks(b);
      }
    }
  }

  predicate SpaceOrSep(s: string, sep: char -> bool) {
    forall k :: 0 <= k < |s| ==> IsSpace(s[k]) || sep(s[k])
  }

  /** Cutting `s` around a run of separators `s[i..j]`, where `s[..i]`
      holds none. */
  lemma SpaceOrSepCut(s: string, sep: char -> bool, i: nat, j: nat)
    requires i <= j <= |s|
    requires forall k :: 0 <= k < i ==> !sep(s[k])
    requires forall k :: i <= k < j ==> sep(s[k])
    ensures SpaceOrSep(s, sep) <==> AllSpace(s[..i]) && SpaceOrSep(s[j..], sep)
  {
    if SpaceOrSep(s, sep) {
      forall k | 0 <= k < i ensures IsSpace(s[..i][k]) {
        assert s[..i][k] == s[k];
      }
      forall k | 0 <= k < |s| - j ensures IsSpace(s[j..][k]) || sep(s[j..][k]) {
        assert s[j..][k] == s[j + k];
      }
    }
    if AllSpace(s[..i]) && SpaceOrSep(s[j..], sep) {
      forall k | 0 <= k < |s| ensures IsSpace(s[k]) || sep(s[k]) {
        if k < i { assert s[..i][k] == s[k]; }
        else if k >= j { assert s[j..][k - j] == s[k]; }
      }
    }
  }

  /** `SplitRuns(s, sep)` has no non-blank piece exactly when every
      character of `s` is whitespace or a separator. */
  lemma {:induction false} NoNonBlankPiece(s: string, sep: char -> bool)
    ensures NonBlanks(SplitRuns(s, sep)) == [] <==> SpaceOrSep(s, sep)
    decreases |s|
  {
    var i := NextSep(s, 0, sep);
    if i == |s| {
      NoSepPiece(s, sep);
    } else {
      var j := RunEnd(s, i, sep);
      NoNonBlankPiece(s[j..], sep);
      SepPieces(s, sep, i, j);
    }
  }

  /** A string with no separator is its own single piece. */
  lemma NoSepPiece(s: string, sep: char -> bool)
    requires NextSep(s, 0, sep) == |s|
    ensures NonBlanks(SplitRuns(s, sep)) == [] <==> SpaceOrSep(s, sep)
  {
    SinglePiece(s, sep);
    TrimEmpty(s);
    NoSepSpace(s, sep);
  }

  lemma SinglePiece(s: string, sep: char -> bool)
    requires NextSep(s, 0, sep) == |s|
    ensures NonBlanks(SplitRuns(s, sep)) == [] <==> !NonBlank(s)
  {
    assert SplitRuns(s, sep) == [s] + [];
    NonBlanksCons(s, []);
  }

  lemma NoSepSpace(s: string, sep: char -> bool)
    requires NextSep(s, 0, sep) == |s|
    ensures SpaceOrSep(s, sep) <==> AllSpace(s)
  {
  }

  /** The first piece and the run after it, given the pieces of the rest. */
  lemma SepPieces(s: string, sep: char -> bool, i: nat, j: nat)
    requires i == NextSep(s, 0, sep) < |s| && j == RunEnd(s, i, sep)
    requires NonBlanks(SplitRuns(s[j..], sep)) == [] <==> SpaceOrSep(s[j..], sep)
    ensures NonBlanks(SplitRuns(s, sep)) == [] <==> SpaceOrSep(s, sep)
  {
    var head, rest := s[..i], SplitRuns(s[j..], sep);
    TrimEmpty(head);
    SpaceOrSepCut(s, sep, i, j);
    assert SplitRuns(s, sep) == [head] + rest;
    NonBlanksCons(head, rest);
  }

  lemma NonBlanksCons(x: string, xs: seq<string>)
    ensures NonBlanks([x] + xs) == [] <==> !NonBlank(x) && NonBlanks(xs) == []
  {
    assert ([x] + xs)[1..] == xs;
  }
}
