/** The keyword density checker: the twenty most frequent words of more
    than two characters, with their counts and their share of all such
    words. */
module KeywordDensity {
  import opened Text
  import opened Wrappers

  /** One row of the table, before `toFixed(2)` on the density. */
  datatype Entry = Entry(word: string, count: nat, density: real)

  /** What `replace(/[^\w\s]/g, '')` keeps. */
  predicate WordOrSpace(c: char) {
    IsWordChar(c) || IsSpace(c)
  }

  /** `.filter(w => w.length > 2)`. */
  function LongWords(xs: seq<string>): (r: seq<string>)
    ensures |r| <= |xs|
    ensures forall w :: w in r ==> w in xs && |w| > 2
    ensures forall w :: w in xs && |w| > 2 ==> w in r
    ensures (forall w :: w in xs ==> |w| <= 2) ==> r == []
  {
    if xs == [] then []
    else
      var rest := LongWords(xs[1..]);
      assert forall w :: w in xs ==> w == xs[0] || w in xs[1..];
      (if |xs[0]| > 2 then [xs[0]] else []) + rest
  }

  /** The length filter keeps every long token as many times as it
      occurs, and no short one. */
  lemma {:induction false} LongWordsCount(xs: seq<string>, w: string)
    ensures multiset(LongWords(xs))[w] == if |w| > 2 then multiset(xs)[w] else 0
  {
    if xs != [] {
      LongWordsCount(xs[1..], w);
      assert xs == [xs[0]] + xs[1..];
      assert multiset(xs) == multiset{xs[0]} + multiset(xs[1..]);
      assert LongWords(xs) == (if |xs[0]| > 2 then [xs[0]] else []) + LongWords(xs[1..]);
    }
  }

  /** The words counted: lower-cased, stripped of everything but word
      characters and whitespace, split on whitespace runs, and only those
      longer than two characters. */
  function Words(text: string): (r: seq<string>)
    ensures forall w :: w in r <==> w in SplitRuns(Keep(ToLower(text), WordOrSpace), IsSpace) && |w| > 2
  {
    LongWords(SplitRuns(Keep(ToLower(text), WordOrSpace), IsSpace))
  }

  /** Each counted word occurs in `Words(text)` as often as it occurs
      among the pieces of the cleaned text; shorter pieces never. */
  lemma WordOccurrences(text: string, w: string)
    ensures multiset(Words(text))[w] ==
      if |w| > 2 then multiset(SplitRuns(Keep(ToLower(text), WordOrSpace), IsSpace))[w] else 0
  {
    LongWordsCount(SplitRuns(Keep(ToLower(text), WordOrSpace), IsSpace), w);
  }

  /** Every counted word is longer than two characters and made of
      lower-case letters, digits and underscores. */
  lemma WordShape(text: string)
    ensures forall w :: w in Words(text) ==>
      |w| > 2 && forall c :: c in w ==> IsWordChar(c) && !IsUpper(c)
  {
    var lower := ToLower(text);
    var cleaned := Keep(lower, WordOrSpace);
    var pieces := SplitRuns(cleaned, IsSpace);
    forall w, c | w in Words(text) && c in w
      ensures IsWordChar(c) && !IsUpper(c)
    {
      var k :| 0 <= k < |pieces| && pieces[k] == w;
      var m :| 0 <= m < |w| && w[m] == c;
      SplitRunsChars(cleaned, IsSpace, k, m);
      assert c in lower;
      var i :| 0 <= i < |lower| && lower[i] == c;
    }
  }

  /** Text that is all whitespace has no words. */
  lemma BlankHasNoWords(text: string)
    requires AllSpace(text)
    ensures Words(text) == []
  {
    var lower := ToLower(text);
    var cleaned := Keep(lower, WordOrSpace);
    var pieces := SplitRuns(cleaned, IsSpace);
    forall k | 0 <= k < |pieces| ensures |pieces[k]| <= 2 {
      if |pieces[k]| > 0 {
        SplitRunsChars(cleaned, IsSpace, k, 0);
      }
    }
    assert forall w :: w in pieces ==> |w| <= 2;
  }

  /** The `forEach` loop filling the `counts` dictionary, on a counter with
      no inherited keys (a `Map`, or `Object.create(null)`). The plain
      object the page uses differs on two words; see `CountsAsWritten`. */
  method CountWords(words: seq<string>) returns (counts: map<string, nat>)
    ensures counts.Keys == set w | w in words
    ensures forall w :: w in counts ==> counts[w] == multiset(words)[w]
  {
    counts := map[];
    var i := 0;
    while i < |words|
      invariant 0 <= i <= |words|
      invariant counts.Keys == set w | w in words[..i]
      invariant forall w :: w in counts ==> counts[w] == multiset(words[..i])[w]
    {
      var w := words[i];
      assert words[..i + 1] == words[..i] + [w];
      counts := counts[w := (if w in counts then counts[w] else 0) + 1];
      i := i + 1;
    }
    assert words[..i] == words;
  }

  function MakeEntry(word: string, count: nat, total: nat): Entry
    requires total > 0
  {
    Entry(word, count, (count as real / total as real) * 100.0)
  }

  predicate DistinctWords(es: seq<Entry>) {
    forall p, q :: 0 <= p < q < |es| ==> es[p].word != es[q].word
  }

  /** `Object.entries(counts).map(…)`: one entry per key, in an order the
      model leaves open. */
  method Entries(counts: map<string, nat>, total: nat) returns (es: seq<Entry>)
    requires total > 0
    ensures forall k :: 0 <= k < |es| ==>
      es[k].word in counts && es[k] == MakeEntry(es[k].word, counts[es[k].word], total)
    ensures forall w :: w in counts ==> exists k :: 0 <= k < |es| && es[k].word == w
    ensures DistinctWords(es)
  {
    es := [];
    var left := counts.Keys;
    while left != {}
      invariant left <= counts.Keys
      invariant forall k :: 0 <= k < |es| ==>
        es[k].word in counts.Keys - left && es[k] == MakeEntry(es[k].word, counts[es[k].word], total)
      invariant forall w :: w in counts.Keys - left ==> exists k :: 0 <= k < |es| && es[k].word == w
      invariant DistinctWords(es)
      decreases left
    {
      var w :| w in left;
      var es' := es + [MakeEntry(w, counts[w], total)];
      forall x | x in counts.Keys - (left - {w})
        ensures exists k :: 0 <= k < |es'| && es'[k].word == x
      {
        if x == w {
          assert es'[|es|].word == x;
        } else {
          assert x in counts.Keys - left;
          var k :| 0 <= k < |es| && es[k].word == x;
          assert es'[k].word == x;
        }
      }
      es, left := es', left - {w};
    }
    assert counts.Keys - left == counts.Keys;
  }

  predicate SortedByCount(es: seq<Entry>) {
    forall p, q :: 0 <= p < q < |es| ==> es[p].count >= es[q].count
  }

  /** Insert `e` before the first entry whose count is not larger. */
  function InsertByCount(e: Entry, s: seq<Entry>): (r: seq<Entry>)
    requires SortedByCount(s)
    ensures SortedByCount(r)
    ensures multiset(r) == multiset(s) + multiset{e}
    ensures r[0] == e || r[0] == s[0]
  {
    if s == [] || s[0].count <= e.count then [e] + s
    else
      var rest := InsertByCount(e, s[1..]);
      InsertBehind(e, s, rest);
      [s[0]] + rest
  }

  /** Inserting behind a head with a larger count. */
  lemma InsertBehind(e: Entry, s: seq<Entry>, rest: seq<Entry>)
    requires s != [] && s[0].count > e.count && SortedByCount(s)
    requires SortedByCount(rest) && multiset(rest) == multiset(s[1..]) + multiset{e}
    requires rest != [] && (rest[0] == e || (|s| > 1 && rest[0] == s[1]))
    ensures SortedByCount([s[0]] + rest)
    ensures multiset([s[0]] + rest) == multiset(s) + multiset{e}
  {
    assert s == [s[0]] + s[1..];
    ConsSorted(s[0], rest);
  }

  lemma ConsSorted(x: Entry, s: seq<Entry>)
    requires SortedByCount(s)
    requires s == [] || x.count >= s[0].count
    ensures SortedByCount([x] + s)
  {
  }

  /** `.sort((a, b) => b.count - a.count)`: most frequent first. */
  function SortByCount(s: seq<Entry>): (r: seq<Entry>)
    ensures SortedByCount(r)
    ensures multiset(r) == multiset(s)
  {
    if s == [] then []
    else
      assert s == [s[0]] + s[1..];
      InsertByCount(s[0], SortByCount(s[1..]))
  }

  function SumCount(es: seq<Entry>): nat {
    if es == [] then 0 else es[0].count + SumCount(es[1..])
  }

  function SumDensity(es: seq<Entry>): real {
    if es == [] then 0.0 else es[0].density + SumDensity(es[1..])
  }

  /** What the table promises about the counted `words`: at most twenty
      rows, none only when there is no word, most frequent first, one row
      per word with its number of occurrences and its share of all words,
      every word left out no more frequent than the last row, and shares
      that add up to at most 100%. */
  predicate IsTopList(top: seq<Entry>, words: seq<string>) {
    && |top| <= 20
    && (top == [] <==> words == [])
    && SortedByCount(top)
    && DistinctWords(top)
    && (forall k :: 0 <= k < |top| ==>
          top[k].word in words && top[k].count == multiset(words)[top[k].word] >= 1
          && top[k] == MakeEntry(top[k].word, top[k].count, |words|))
    && (forall w :: w in words && (forall k :: 0 <= k < |top| ==> top[k].word != w) ==>
          |top| == 20 && multiset(words)[w] <= top[19].count)
    && SumDensity(top) <= 100.0
  }

  /** `density`: the whole pipeline. */
  method KeywordDensity(text: string) returns (top: seq<Entry>)
    ensures IsTopList(top, Words(text))
  {
    var words := Words(text);
    if Trim(text) == [] {
      TrimEmpty(text);
      BlankHasNoWords(text);
      NothingToReport(words);
      return [];
    }
    var totalWords := |words|;
    if totalWords == 0 {
      NothingToReport(words);
      return [];
    }
    var counts := CountWords(words);
    var entries := Entries(counts, totalWords);
    var sorted := SortByCount(entries);
    top := sorted[..if |sorted| < 20 then |sorted| else 20];
    SortedFacts(words, counts, entries, sorted);
    TopFacts(words, sorted, top);
  }

  lemma NothingToReport(words: seq<string>)
    requires words == []
    ensures IsTopList([], words)
  {
  }

  /** What the sorted list inherits from the entries. */
  lemma SortedFacts(words: seq<string>, counts: map<string, nat>, entries: seq<Entry>, sorted: seq<Entry>)
    requires |words| > 0
    requires counts.Keys == set w | w in words
    requires forall w :: w in counts ==> counts[w] == multiset(words)[w]
    requires forall k :: 0 <= k < |entries| ==>
      entries[k].word in counts && entries[k] == MakeEntry(entries[k].word, counts[entries[k].word], |words|)
    requires forall w :: w in counts ==> exists k :: 0 <= k < |entries| && entries[k].word == w
    requires DistinctWords(entries)
    requires multiset(sorted) == multiset(entries)
    ensures forall k :: 0 <= k < |sorted| ==>
      sorted[k].word in words && sorted[k].count == multiset(words)[sorted[k].word]
      && sorted[k] == MakeEntry(sorted[k].word, sorted[k].count, |words|)
    ensures forall w :: w in words ==> exists k :: 0 <= k < |sorted| && sorted[k].word == w
    ensures DistinctWords(sorted)
  {
    forall k | 0 <= k < |sorted|
      ensures sorted[k].word in words && sorted[k].count == multiset(words)[sorted[k].word]
      ensures sorted[k] == MakeEntry(sorted[k].word, sorted[k].count, |words|)
    {
      assert sorted[k] in multiset(entries);
    }
    forall w | w in words ensures exists k :: 0 <= k < |sorted| && sorted[k].word == w {
      assert w in counts;
      var k :| 0 <= k < |entries| && entries[k].word == w;
      assert entries[k] in multiset(sorted);
      var j :| 0 <= j < |sorted| && sorted[j] == entries[k];
    }
    NoDuplicates(entries);
    forall p, q | 0 <= p < q < |sorted| ensures sorted[p].word != sorted[q].word {
      if sorted[p].word == sorted[q].word {
        assert sorted[p] == sorted[q];
        TwoCopies(sorted, p, q);
      }
    }
  }

  /** Entries with distinct words occur once each. */
  lemma {:induction false} NoDuplicates(es: seq<Entry>)
    requires DistinctWords(es)
    ensures forall e :: multiset(es)[e] <= 1
  {
    if es != [] {
      NoDuplicates(es[1..]);
      assert es == [es[0]] + es[1..];
      assert es[0] !in es[1..];
    }
  }

  lemma TwoCopies(s: seq<Entry>, p: nat, q: nat)
    requires p < q < |s| && s[p] == s[q]
    ensures multiset(s)[s[p]] >= 2
  {
    assert s == s[..q] + [s[q]] + s[q + 1..];
    assert s[p] in s[..q];
    assert multiset(s) == multiset(s[..q]) + multiset{s[q]} + multiset(s[q + 1..]);
  }

  /** What the first twenty entries of the sorted list keep. */
  lemma TopFacts(words: seq<string>, sorted: seq<Entry>, top: seq<Entry>)
    requires |words| > 0
    requires SortedByCount(sorted) && DistinctWords(sorted)
    requires forall k :: 0 <= k < |sorted| ==>
      sorted[k].word in words && sorted[k].count == multiset(words)[sorted[k].word]
      && sorted[k] == MakeEntry(sorted[k].word, sorted[k].count, |words|)
    requires forall w :: w in words ==> exists k :: 0 <= k < |sorted| && sorted[k].word == w
    requires top == sorted[..if |sorted| < 20 then |sorted| else 20]
    ensures IsTopList(top, words)
  {
    assert words[0] in words;
    Prefix(words, sorted, top);
    LeftOut(words, sorted, top);
    DensityBound(words, top);
  }

  /** The cut list keeps the order, the distinct words and the rows. */
  lemma Prefix(words: seq<string>, sorted: seq<Entry>, top: seq<Entry>)
    requires SortedByCount(sorted) && DistinctWords(sorted)
    requires forall k :: 0 <= k < |sorted| ==>
      sorted[k].word in words && sorted[k].count == multiset(words)[sorted[k].word]
      && sorted[k] == MakeEntry(sorted[k].word, sorted[k].count, |words|)
    requires top == sorted[..if |sorted| < 20 then |sorted| else 20]
    ensures SortedByCount(top) && DistinctWords(top) && |top| <= 20
    ensures forall k :: 0 <= k < |top| ==>
      top[k].word in words && top[k].count == multiset(words)[top[k].word] >= 1
      && top[k] == MakeEntry(top[k].word, top[k].count, |words|)
  {
    forall k | 0 <= k < |top| ensures multiset(words)[top[k].word] >= 1 {
      assert top[k] == sorted[k];
      assert top[k].word in multiset(words);
    }
  }

  /** A word missing from the cut list was cut: the list is full and the
      word is no more frequent than its last entry. */
  lemma LeftOut(words: seq<string>, sorted: seq<Entry>, top: seq<Entry>)
    requires SortedByCount(sorted)
    requires forall k :: 0 <= k < |sorted| ==> sorted[k].count == multiset(words)[sorted[k].word]
    requires forall w :: w in words ==> exists k :: 0 <= k < |sorted| && sorted[k].word == w
    requires top == sorted[..if |sorted| < 20 then |sorted| else 20]
    ensures forall w :: w in words && (forall k :: 0 <= k < |top| ==> top[k].word != w) ==>
      |top| == 20 && multiset(words)[w] <= top[19].count
  {
    forall w | w in words && (forall k :: 0 <= k < |top| ==> top[k].word != w)
      ensures |top| == 20 && multiset(words)[w] <= top[19].count
    {
      var j :| 0 <= j < |sorted| && sorted[j].word == w;
      assert j >= |top|;
    }
  }

  /** Entries for distinct words, counted in `words`, have densities that
      add up to at most 100%. */
  lemma DensityBound(words: seq<string>, es: seq<Entry>)
    requires |words| > 0
    requires DistinctWords(es)
    requires forall k :: 0 <= k < |es| ==>
      es[k].count == multiset(words)[es[k].word] && es[k] == MakeEntry(es[k].word, es[k].count, |words|)
    ensures SumDensity(es) <= 100.0
  {
    var ws := seq(|es|, k requires 0 <= k < |es| => es[k].word);
    SumCountIsOccurrences(words, es, ws);
    OccurrencesBelowTotal(words, ws);
    DensityIsShare(es, |words|);
    ShareAtMostAll(SumCount(es) as real, |words| as real);
  }

  lemma ShareAtMostAll(c: real, t: real)
    requires 0.0 <= c <= t && t > 0.0
    ensures (c / t) * 100.0 <= 100.0
  {
  }

  /** `Σ multiset(words)[w]` over the list `ws`. */
  function Occurrences(words: seq<string>, ws: seq<string>): nat {
    if ws == [] then 0 else multiset(words)[ws[0]] + Occurrences(words, ws[1..])
  }

  lemma {:induction false} SumCountIsOccurrences(words: seq<string>, es: seq<Entry>, ws: seq<string>)
    requires |ws| == |es|
    requires forall k :: 0 <= k < |es| ==> ws[k] == es[k].word && es[k].count == multiset(words)[es[k].word]
    ensures SumCount(es) == Occurrences(words, ws)
  {
    if es != [] {
      SumCountIsOccurrences(words, es[1..], ws[1..]);
    }
  }

  lemma {:induction false} OccurrencesCons(x: string, rest: seq<string>, ws: seq<string>)
    ensures Occurrences([x] + rest, ws) == Occurrences(rest, ws) + multiset(ws)[x]
  {
    if ws != [] {
      OccurrencesCons(x, rest, ws[1..]);
      assert ws == [ws[0]] + ws[1..];
    }
  }

  lemma {:induction false} DistinctOnce(ws: seq<string>, x: string)
    requires forall p, q :: 0 <= p < q < |ws| ==> ws[p] != ws[q]
    ensures multiset(ws)[x] <= 1
    ensures x in ws ==> multiset(ws)[x] == 1
  {
    if ws != [] {
      DistinctOnce(ws[1..], x);
      assert ws == [ws[0]] + ws[1..];
      if ws[0] == x {
        assert x !in ws[1..];
      }
    }
  }

  /** Distinct words never account for more occurrences than there are
      words. */
  lemma {:induction false} OccurrencesBelowTotal(words: seq<string>, ws: seq<string>)
    requires forall p, q :: 0 <= p < q < |ws| ==> ws[p] != ws[q]
    ensures Occurrences(words, ws) <= |words|
    decreases |words|
  {
    if words == [] {
      OccurrencesOfNothing(ws);
    } else {
      assert words == [words[0]] + words[1..];
      OccurrencesCons(words[0], words[1..], ws);
      OccurrencesBelowTotal(words[1..], ws);
      DistinctOnce(ws, words[0]);
    }
  }

  /** Distinct words that cover every word account for all of them: before
      the cut to twenty, the counts add up to the number of words. */
  lemma {:induction false} CountsAddUp(words: seq<string>, ws: seq<string>)
    requires forall p, q :: 0 <= p < q < |ws| ==> ws[p] != ws[q]
    requires forall w :: w in words ==> w in ws
    ensures Occurrences(words, ws) == |words|
    decreases |words|
  {
    if words == [] {
      OccurrencesOfNothing(ws);
    } else {
      assert words == [words[0]] + words[1..];
      OccurrencesCons(words[0], words[1..], ws);
      CountsAddUp(words[1..], ws);
      DistinctOnce(ws, words[0]);
    }
  }

  lemma {:induction false} OccurrencesOfNothing(ws: seq<string>)
    ensures Occurrences([], ws) == 0
  {
    if ws != [] {
      OccurrencesOfNothing(ws[1..]);
    }
  }

  lemma AddShares(c: real, s: real, t: real)
    requires t > 0.0
    ensures (c / t) * 100.0 + (s / t) * 100.0 == ((c + s) / t) * 100.0
  {
    assert c / t + s / t == (c + s) / t;
  }

  lemma {:induction false} DensityIsShare(es: seq<Entry>, total: nat)
    requires total > 0
    requires forall k :: 0 <= k < |es| ==> es[k] == MakeEntry(es[k].word, es[k].count, total)
    ensures SumDensity(es) == (SumCount(es) as real / total as real) * 100.0
  {
    if es != [] {
      DensityIsShare(es[1..], total);
      AddShares(es[0].count as real, SumCount(es[1..]) as real, total as real);
    }
  }

  // ---------------------------------------------------------------- the counter as written

  /** A value stored in, or read from, the plain object `counts = {}`.
      Besides the numbers the loop stores, reading a key the object does not
      own falls through to `Object.prototype`. Of its properties, only
      `constructor` (the `Object` function) and `__proto__` (the prototype
      object) are lower-case words of `\w` characters, and `+ 1` turns both
      into strings. */
  datatype JsValue = Undefined | Number(n: nat) | Str(s: string) | ObjectFunction | ObjectPrototype

  /** `String(Object)`. */
  const ObjectSource: string := "function Object() { [native code] }"

  /** `counts[w]`, where `own` holds the object's own properties. */
  function Get(own: map<string, JsValue>, w: string): JsValue {
    if w == "__proto__" then ObjectPrototype
    else if w in own then own[w]
    else if w == "constructor" then ObjectFunction
    else Undefined
  }

  /** `(v || 0) + 1`: a falsy value counts as 0 and a number gains 1; the
      other values are turned into strings, and `"1"` is appended. */
  function OrZeroPlusOne(v: JsValue): JsValue {
    match v
    case Undefined => Number(1)
    case Number(n) => Number(n + 1)
    case Str(s) => if s == [] then Number(1) else Str(s + "1")
    case ObjectFunction => Str(ObjectSource + "1")
    case ObjectPrototype => Str("[object Object]1")
  }

  /** `counts[w] = v`. The `__proto__` setter ignores a value that is not
      an object or null, and the loop only stores numbers and strings. */
  function Store(own: map<string, JsValue>, w: string, v: JsValue): map<string, JsValue> {
    if w == "__proto__" then own else own[w := v]
  }

  /** The own properties of `counts` after the `forEach` loop as the page
      writes it. */
  function CountsAsWritten(words: seq<string>): map<string, JsValue> {
    if words == [] then map[]
    else
      var own := CountsAsWritten(words[..|words| - 1]);
      var w := words[|words| - 1];
      Store(own, w, OrZeroPlusOne(Get(own, w)))
  }

  /** `"1"` written `n` times. */
  function Ones(n: nat): string {
    seq(n, _ => '1')
  }

  /** What the plain object holds for one word `w`: no key for
      `__proto__`; for any other word a key exactly when it occurs, holding
      its number of occurrences, except that `constructor` holds the source
      text of `Object` followed by one `"1"` per occurrence. */
  lemma {:induction false} CountOf(words: seq<string>, w: string)
    ensures w == "__proto__" ==> w !in CountsAsWritten(words)
    ensures w != "__proto__" ==> (w in CountsAsWritten(words) <==> w in words)
    ensures w in CountsAsWritten(words) && w != "constructor" ==>
      CountsAsWritten(words)[w] == Number(multiset(words)[w])
    ensures w == "constructor" && w in words ==>
      CountsAsWritten(words)[w] == Str(ObjectSource + Ones(multiset(words)[w]))
  {
    if words != [] {
      var init, x := words[..|words| - 1], words[|words| - 1];
      CountOf(init, w);
      assert words == init + [x];
      assert multiset(words)[w] == multiset(init)[w] + (if x == w then 1 else 0);
      assert w in words <==> w in init || w == x;
      if x == w && w == "constructor" {
        var n := multiset(init)[w];
        if w in init {
          assert ObjectSource + Ones(n) + "1" == ObjectSource + Ones(n + 1);
        } else {
          assert ObjectSource + "1" == ObjectSource + Ones(1);
        }
      }
    }
  }

  /** What the plain object holds: a key for every word except `__proto__`,
      whose count is dropped; the number of occurrences for every word
      except `constructor`; and for `constructor` the source text of
      `Object` followed by one `"1"` per occurrence. */
  lemma CountsAsWrittenHold(words: seq<string>)
    ensures CountsAsWritten(words).Keys == (set w | w in words) - {"__proto__"}
    ensures forall w :: w in CountsAsWritten(words) && w != "constructor" ==>
      CountsAsWritten(words)[w] == Number(multiset(words)[w])
    ensures "constructor" in words ==>
      CountsAsWritten(words)["constructor"] == Str(ObjectSource + Ones(multiset(words)["constructor"]))
  {
    var counts := CountsAsWritten(words);
    forall w | w in counts || w in words
      ensures w in counts <==> w in words && w != "__proto__"
      ensures w in counts && w != "constructor" ==> counts[w] == Number(multiset(words)[w])
    {
      CountOf(words, w);
    }
    CountOf(words, "constructor");
  }

  /** `(count / totalWords) * 100`: a number divides; `undefined`, the two
      inherited values and every string the loop stores (they start with
      `function` or `[object`) are NaN, here `None`. */
  function DensityAsWritten(v: JsValue, total: nat): (d: Option<real>)
    requires total > 0
    ensures d.Some? <==> v.Number?
    ensures v.Number? ==> d.value * total as real == v.n as real * 100.0
  {
    match v
    case Number(n) => Some((n as real / total as real) * 100.0)
    case _ => None
  }

  /** Any text whose words include `constructor` gets a row for it whose
      count is a string and whose density is NaN. */
  lemma ConstructorIsNaN(words: seq<string>)
    requires |words| > 0 && "constructor" in words
    ensures "constructor" in CountsAsWritten(words)
    ensures CountsAsWritten(words)["constructor"].Str?
    ensures DensityAsWritten(CountsAsWritten(words)["constructor"], |words|) == None
  {
    CountsAsWrittenHold(words);
  }

  /** Any text whose words include `__proto__` counts it in `totalWords`
      but gives it no row, whatever its number of occurrences. */
  lemma ProtoIsDropped(words: seq<string>)
    requires "__proto__" in words
    ensures "__proto__" !in CountsAsWritten(words)
    ensures |CountsAsWritten(words)| < |set w | w in words|
  {
    CountsAsWrittenHold(words);
    var all := set w | w in words;
    assert CountsAsWritten(words).Keys == all - {"__proto__"};
    assert |all - {"__proto__"}| == |all| - 1;
  }

  /** "The constructor builds the house", whose counted words are `the`,
      `constructor`, `builds`, `the` and `house`: the `constructor` row
      reads `function Object() { [native code] }1`, with density NaN. */
  lemma ConstructorExample()
    ensures "constructor" in CountsAsWritten(["the", "constructor", "builds", "the", "house"])
    ensures CountsAsWritten(["the", "constructor", "builds", "the", "house"])["constructor"]
      == Str("function Object() { [native code] }1")
    ensures CountsAsWritten(["the", "constructor", "builds", "the", "house"])["the"] == Number(2)
  {
    var words := ["the", "constructor", "builds", "the", "house"];
    CountOf(words, "constructor");
    CountOf(words, "the");
    assert multiset(words)["constructor"] == 1;
    assert multiset(words)["the"] == 2;
    assert "the" in words && "the" != "constructor" && "constructor" in words;
  }

  /** "__proto__ abc def", whose counted words are `__proto__`, `abc` and
      `def`: three counted words but two rows, and the table is far from
      full, against `IsTopList`'s promise that a word is left out only from
      a full table of twenty. */
  lemma ProtoExample()
    ensures var counts := CountsAsWritten(["__proto__", "abc", "def"]);
      "__proto__" !in counts && "abc" in counts && "def" in counts && |counts| == 2
  {
    var words := ["__proto__", "abc", "def"];
    assert words[..2] == ["__proto__", "abc"] && words[..2][..1] == ["__proto__"];
    assert CountsAsWritten(["__proto__"]) == map[];
    assert CountsAsWritten(["__proto__", "abc"]) == map["abc" := Number(1)];
    assert CountsAsWritten(words) == map["abc" := Number(1), "def" := Number(1)];
  }
}
