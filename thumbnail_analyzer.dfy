/** The thumbnail CTR analyzer: the JSON is taken out of a Markdown code
    fence when the generated text has one, the parsed result replaces the
    stored one only when parsing succeeds, and the score is coloured and
    described by the same two thresholds. Whatever parses is stored as
    the result, whether or not it has the expected shape. */
module ThumbnailAnalyzer {
  import opened Wrappers
  import opened Text

  /** `pat` occurs in `s` at index `i`. */
  predicate At(s: string, pat: string, i: nat) {
    i + |pat| <= |s| && forall j :: 0 <= j < |pat| ==> s[i + j] == pat[j]
  }

  /** The first index at or after `i` where `pat` occurs, or `|s|`. */
  function First(s: string, pat: string, i: nat): (r: nat)
    requires pat != [] && i <= |s|
    ensures i <= r <= |s|
    ensures r < |s| ==> At(s, pat, r)
    ensures forall k :: i <= k < r ==> !At(s, pat, k)
    decreases |s| - i
  {
    if i + |pat| > |s| then |s|
    else if At(s, pat, i) then i
    else First(s, pat, i + 1)
  }

  /** `s.includes(pat)`. */
  predicate Contains(s: string, pat: string)
    requires pat != []
  {
    First(s, pat, 0) < |s|
  }

  /** `s.split(pat)[0]`: the text before the first occurrence. */
  function SplitBefore(s: string, pat: string): string
    requires pat != []
  {
    s[..First(s, pat, 0)]
  }

  /** The text before the first occurrence holds none. */
  lemma BeforeHasNone(s: string, pat: string)
    requires pat != []
    ensures !Contains(SplitBefore(s, pat), pat)
  {
    var f := First(s, pat, 0);
    var r := s[..f];
    forall k | 0 <= k <= |r| ensures !At(r, pat, k) {
      AtSlice(s, pat, 0, f, k);
      assert s[0..f] == r;
    }
  }

  /** `s.split(pat)[1]`: the text between the first and the second
      occurrence, or to the end. */
  function SplitAfter(s: string, pat: string): (r: string)
    requires pat != [] && Contains(s, pat)
  {
    SplitBefore(s[First(s, pat, 0) + |pat|..], pat)
  }

  const JsonFence := "```json"
  const Fence := "```"

  /** `pat` at `k` of a piece of `s` is `pat` at the same place of `s`. */
  lemma AtSlice(s: string, pat: string, a: nat, b: nat, k: nat)
    requires a <= b <= |s|
    ensures At(s[a..b], pat, k) <==> At(s, pat, a + k) && a + k + |pat| <= b
  {
    if k + |pat| <= b - a {
      var n := |pat|;
      var t, u := s[a..b][k..k + n], s[a + k..a + k + n];
      assert forall j :: 0 <= j < n ==> t[j] == u[j];
    }
  }

  /** Searching a suffix is searching the whole from where it starts. */
  lemma {:induction false} FirstSuffix(s: string, pat: string, a: nat, k: nat)
    requires pat != [] && a + k <= |s|
    ensures a + First(s[a..], pat, k) == First(s, pat, a + k)
    decreases |s| - a - k
  {
    AtSlice(s, pat, a, |s|, k);
    if k + |pat| <= |s| - a && !At(s, pat, a + k) {
      FirstSuffix(s, pat, a, k + 1);
    }
  }

  /** A piece of a text without `pat` has no `pat` either. */
  lemma NoneInSlice(s: string, pat: string, a: nat, b: nat)
    requires pat != [] && a <= b <= |s| && !Contains(s, pat)
    ensures !Contains(s[a..b], pat)
  {
    var t := s[a..b];
    forall k | 0 <= k <= |t| ensures !At(t, pat, k) {
      AtSlice(s, pat, a, b, k);
    }
  }

  /** Trimming text without `pat` gives trimmed text without `pat`. */
  lemma TrimNoMatch(s: string, pat: string)
    requires pat != [] && !Contains(s, pat)
    ensures !Contains(Trim(s), pat) && IsTrimmed(Trim(s))
  {
    var a := LeadingSpace(s);
    TrimSlice(s);
    NoneInSlice(s, pat, a, a + |Trim(s)|);
  }

  /** Where `p` occurs, so does each of its prefixes. */
  lemma PrefixAt(s: string, p: string, q: string, i: nat)
    requires q <= p && At(s, p, i)
    ensures At(s, q, i)
  {
    assert s[i..i + |q|] == s[i..i + |p|][..|q|];
  }

  /** Text that contains `p` contains each non-empty prefix of `p`. */
  lemma PrefixContains(s: string, p: string, q: string)
    requires q != [] && q <= p && Contains(s, p)
    ensures Contains(s, q)
  {
    PrefixAt(s, p, q, First(s, p, 0));
  }

  /** Every `` ```json `` starts with a fence. */
  lemma FenceIsPrefix()
    ensures Fence != [] && Fence <= JsonFence
  {
  }

  /** The text handed to `JSON.parse`: the reply itself when it has no
      fence, and a trimmed piece of it otherwise. */
  function Payload(text: string): (r: string)
    ensures !Contains(text, Fence) ==> r == text
    ensures Contains(text, Fence) ==> IsTrimmed(r)
  {
    if Contains(text, JsonFence) then
      FenceIsPrefix();
      PrefixContains(text, JsonFence, Fence);
      Trim(SplitBefore(SplitAfter(text, JsonFence), Fence))
    else if Contains(text, Fence) then Trim(SplitBefore(SplitAfter(text, Fence), Fence))
    else text
  }

  /** Taking the JSON out of a fenced block, as the analyzer does before
      parsing: the text after the first `` ```json `` (or, without one, the
      first `` ``` ``) up to the next fence, trimmed. Text without a fence
      is passed on as it is. */
  method ExtractJson(text: string) returns (jsonStr: string)
    ensures jsonStr == Payload(text)
    ensures !Contains(text, Fence) ==> jsonStr == text
    ensures Contains(text, Fence) ==> !Contains(jsonStr, Fence) && IsTrimmed(jsonStr)
    ensures Contains(text, JsonFence) ==>
      var a := First(text, JsonFence, 0) + |JsonFence|;
      exists b :: a <= b <= |text| && jsonStr == Trim(text[a..b])
        && !Contains(text[a..b], Fence) && (b == |text| || At(text, Fence, b))
    ensures Contains(text, Fence) && !Contains(text, JsonFence) ==>
      var a := First(text, Fence, 0) + |Fence|;
      jsonStr == Trim(text[a..First(text, Fence, a)])
  {
    jsonStr := text;
    if Contains(jsonStr, JsonFence) {
      jsonStr := Trim(SplitBefore(SplitAfter(jsonStr, JsonFence), Fence));
      FenceIsPrefix();
      PrefixContains(text, JsonFence, Fence);
      JsonPayload(text);
    } else if Contains(jsonStr, Fence) {
      jsonStr := Trim(SplitBefore(SplitAfter(jsonStr, Fence), Fence));
      PlainPayload(text);
    }
  }

  lemma JsonPayload(text: string)
    requires Contains(text, JsonFence)
    ensures var a := First(text, JsonFence, 0) + |JsonFence|;
      var piece := SplitBefore(SplitAfter(text, JsonFence), Fence);
      exists b :: a <= b <= |text| && piece == text[a..b]
        && !Contains(text[a..b], Fence) && (b == |text| || At(text, Fence, b))
    ensures !Contains(Trim(SplitBefore(SplitAfter(text, JsonFence), Fence)), Fence)
    ensures IsTrimmed(Trim(SplitBefore(SplitAfter(text, JsonFence), Fence)))
  {
    FenceIsPrefix();
    var b := PieceUntil(text, JsonFence, Fence);
    var piece := SplitBefore(SplitAfter(text, JsonFence), Fence);
    BeforeHasNone(SplitAfter(text, JsonFence), Fence);
    TrimNoMatch(piece, Fence);
  }

  /** The piece after the first `open` up to the next `close`, where
      `close` is a prefix of `open`: a slice of the text that ends where a
      `close` starts, or at the end of the text. */
  lemma PieceUntil(text: string, open: string, close: string) returns (b: nat)
    requires close != [] && close <= open && Contains(text, open)
    ensures var a := First(text, open, 0) + |open|;
      a <= b <= |text| && SplitBefore(SplitAfter(text, open), close) == text[a..b]
      && (b == |text| || At(text, close, b))
  {
    var a := First(text, open, 0) + |open|;
    var after := text[a..];
    var n := First(after, open, 0);
    var part := text[a..a + n];
    assert SplitAfter(text, open) == part by {
      assert SplitAfter(text, open) == after[..n];
      SliceOfSuffix(text, a, 0, n);
    }
    var m := First(part, close, 0);
    b := a + m;
    assert SplitBefore(part, close) == text[a..b] by {
      assert SplitBefore(part, close) == part[..m];
      SliceOfSlice(text, a, a + n, m);
    }
    PieceEnd(text, open, close, a, n, m, b);
  }

  /** Where the piece ends, a `close` begins (or the text ends). */
  lemma PieceEnd(text: string, open: string, close: string, a: nat, n: nat, m: nat, b: nat)
    requires close != [] && close <= open
    requires a <= |text| && n == First(text[a..], open, 0)
    requires m == First(text[a..a + n], close, 0) && b == a + m
    ensures b == |text| || At(text, close, b)
  {
    var part := text[a..a + n];
    if m < |part| {
      AtSlice(text, close, a, a + n, m);
    } else if a + n < |text| {
      AtSlice(text, open, a, |text|, n);
      PrefixAt(text, open, close, a + n);
    }
  }

  lemma PlainPayload(text: string)
    requires Contains(text, Fence)
    ensures var a := First(text, Fence, 0) + |Fence|;
      SplitBefore(SplitAfter(text, Fence), Fence) == text[a..First(text, Fence, a)]
    ensures !Contains(Trim(SplitBefore(SplitAfter(text, Fence), Fence)), Fence)
    ensures IsTrimmed(Trim(SplitBefore(SplitAfter(text, Fence), Fence)))
  {
    FenceIsPrefix();
    PlainPiece(text, Fence);
    TrimNoMatch(SplitAfter(text, Fence), Fence);
  }

  /** With the same pattern on both sides, the piece is the text between
      the first two occurrences. */
  lemma PlainPiece(text: string, pat: string)
    requires pat != [] && Contains(text, pat)
    ensures var a := First(text, pat, 0) + |pat|;
      SplitBefore(SplitAfter(text, pat), pat) == SplitAfter(text, pat) == text[a..First(text, pat, a)]
  {
    AfterIsSlice(text, pat);
    AfterHasNone(text, pat);
    BeforeNone(SplitAfter(text, pat), pat);
  }

  /** The second piece, as a slice of the text. */
  lemma AfterIsSlice(text: string, pat: string)
    requires pat != [] && Contains(text, pat)
    ensures var a := First(text, pat, 0) + |pat|;
      SplitAfter(text, pat) == text[a..First(text, pat, a)]
  {
    var a := First(text, pat, 0) + |pat|;
    var f := First(text[a..], pat, 0);
    AfterUnfold(text, pat);
    FirstSuffix(text, pat, a, 0);
    SliceOfSuffix(text, a, 0, f);
  }

  /** `SplitAfter` is the first piece of what follows the first `pat`. */
  lemma AfterUnfold(text: string, pat: string)
    requires pat != [] && Contains(text, pat)
    ensures var a := First(text, pat, 0) + |pat|;
      SplitAfter(text, pat) == text[a..][..First(text[a..], pat, 0)]
  {
  }

  /** The second piece holds no `pat`. */
  lemma AfterHasNone(text: string, pat: string)
    requires pat != [] && Contains(text, pat)
    ensures !Contains(SplitAfter(text, pat), pat)
  {
    BeforeHasNone(text[First(text, pat, 0) + |pat|..], pat);
  }

  /** Text without `pat` is its own first piece. */
  lemma BeforeNone(s: string, pat: string)
    requires pat != [] && !Contains(s, pat)
    ensures SplitBefore(s, pat) == s
  {
  }

  datatype Color = Emerald | Amber | Red

  /** `getScoreColor`. */
  function ScoreColor(score: real): (c: Color)
    ensures c == Emerald <==> score >= 80.0
    ensures c == Amber <==> 60.0 <= score < 80.0
    ensures c == Red <==> score < 60.0
  {
    if score >= 80.0 then Emerald
    else if score >= 60.0 then Amber
    else Red
  }

  /** The sentence under the score. */
  function Verdict(score: real): (v: string)
    ensures v == "Excellent! Highly clickable." <==> score >= 80.0
    ensures v == "Good, but could be punchier." <==> 60.0 <= score < 80.0
    ensures v == "Needs improvement." <==> score < 60.0
  {
    if score >= 80.0 then "Excellent! Highly clickable."
    else if score >= 60.0 then "Good, but could be punchier."
    else "Needs improvement."
  }

  /** The colour and the sentence always tell the same story. */
  lemma VerdictMatchesColor(score: real)
    ensures Verdict(score) == "Excellent! Highly clickable." <==> ScoreColor(score) == Emerald
    ensures Verdict(score) == "Good, but could be punchier." <==> ScoreColor(score) == Amber
    ensures Verdict(score) == "Needs improvement." <==> ScoreColor(score) == Red
  {
  }

  /** What the analysis the page is written for holds: a score and tips. */
  datatype Analysis = Analysis(score: real, tips: seq<string>)

  /** A value `JSON.parse` can return, as the page treats it: a falsy one
      that React renders as nothing (`null`, `false`, `""`), the number `0`
      (falsy too, but React renders it as the text "0"), an object with a
      numeric `score` and an array of string `tips`, or any other truthy
      value without a `tips` array (`{}`, a non-zero number, a non-empty
      string, an array). */
  datatype Parsed = FalsyValue | ZeroValue | AnalysisValue(analysis: Analysis) | OtherValue

  /** What the result area shows: nothing, the bare text "0", the score
      card, or a rendering error. */
  datatype View = NoCard | ZeroText | Card(score: real, color: Color, verdict: string, tips: seq<string>) | RenderError

  /** `{result && (…)}`: for a falsy result the expression is the result
      itself, so `null`, `false` and `""` show nothing while `0` shows the
      text "0"; an analysis shows the score card and the tips; for any other
      value `result.tips.map` throws while rendering. */
  function Shown(result: Parsed): (v: View)
    ensures v == NoCard <==> result == FalsyValue
    ensures v == ZeroText <==> result == ZeroValue
    ensures v == RenderError <==> result == OtherValue
    ensures v.Card? ==> result.AnalysisValue?
    ensures v.Card? ==> v.score == result.analysis.score && v.tips == result.analysis.tips
    ensures v.Card? ==> v.color == ScoreColor(v.score)
    ensures v.Card? ==> (v.color == Emerald <==> v.verdict == "Excellent! Highly clickable.")
    ensures v.Card? ==> (v.color == Red <==> v.verdict == "Needs improvement.")
  {
    match result
    case FalsyValue => NoCard
    case ZeroValue => ZeroText
    case AnalysisValue(a) =>
      VerdictMatchesColor(a.score);
      Card(a.score, ScoreColor(a.score), Verdict(a.score), a.tips)
    case OtherValue => RenderError
  }

  /** The analyzer's state: the stored result, `null` at first. */
  class Analyzer {
    var result: Parsed

    constructor ()
      ensures result == FalsyValue && Shown(result) == NoCard
    {
      result := FalsyValue;
    }

    /** `analyzeHeadline` once the text has come back. `parse` stands for
        `JSON.parse` of the extracted text, `None` when it throws; a blank
        headline sends nothing and an empty reply changes nothing. Whatever
        parses is stored, so a reply of `null` hides the card and a reply of
        another shape breaks the rendering. */
    method Analyze(headline: string, response: string, parse: string -> Option<Parsed>)
      modifies this
      ensures AllSpace(headline) || response == [] ==> result == old(result)
      ensures !AllSpace(headline) && response != [] ==>
        result == (if parse(Payload(response)).Some? then parse(Payload(response)).value else old(result))
    {
      TrimEmpty(headline);
      if Trim(headline) == [] {
        return;
      }
      if response != [] {
        var jsonStr := ExtractJson(response);
        var parsed := parse(jsonStr);
        if parsed.Some? {
          result := parsed.value;
        }
      }
    }
  }

}
