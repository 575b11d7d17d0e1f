/** The YouTube tag generator: the generated comma-separated text is cut
    into tags, and the tags are copied and shown joined by `", "`. */
module TagGenerator {
  import opened Text

  function TrimAll(pieces: seq<string>): (r: seq<string>)
    ensures |r| == |pieces|
    ensures forall k :: 0 <= k < |r| ==> r[k] == Trim(pieces[k])
  {
    seq(|pieces|, k requires 0 <= k < |pieces| => Trim(pieces[k]))
  }

  /** `.filter(Boolean)` on strings: the non-empty ones, in order. */
  function NonEmpty(xs: seq<string>): (r: seq<string>)
    ensures |r| <= |xs|
    ensures forall k :: 0 <= k < |r| ==> r[k] != [] && r[k] in xs
  {
    if xs == [] then []
    else (if xs[0] != [] then [xs[0]] else []) + NonEmpty(xs[1..])
  }

  /** A tag as the parser produces it. */
  predicate IsTag(t: string) {
    t != [] && IsTrimmed(t) && ',' !in t
  }

  /** `text.split(',').map(t => t.trim()).filter(Boolean)`: non-empty,
      trimmed, comma-free tags. */
  function Tags(text: string): (r: seq<string>)
    ensures forall k :: 0 <= k < |r| ==> IsTag(r[k])
  {
    TagsOf(Split(text, ','))
  }

  /** There are at most one more tags than there are commas. */
  lemma TagCount(text: string)
    ensures |Tags(text)| <= multiset(text)[','] + 1
  {
    SplitCount(text, ',');
  }

  /** The tags of the comma-free pieces of a text. */
  function TagsOf(pieces: seq<string>): (r: seq<string>)
    requires forall k :: 0 <= k < |pieces| ==> ',' !in pieces[k]
    ensures |r| <= |pieces|
    ensures forall k :: 0 <= k < |r| ==> IsTag(r[k])
  {
    var r := NonEmpty(TrimAll(pieces));
    forall k | 0 <= k < |r| ensures ',' !in r[k] {
      var m :| 0 <= m < |pieces| && r[k] == Trim(pieces[m]);
      TrimChars(pieces[m]);
    }
    r
  }

  lemma TagsOfAppend(a: seq<string>, b: seq<string>)
    requires forall k :: 0 <= k < |a| ==> ',' !in a[k]
    requires forall k :: 0 <= k < |b| ==> ',' !in b[k]
    ensures TagsOf(a + b) == TagsOf(a) + TagsOf(b)
  {
    CommaFreeAppend(a, b);
    TrimAllAppend(a, b);
    NonEmptyAppend(TrimAll(a), TrimAll(b));
  }

  lemma CommaFreeAppend(a: seq<string>, b: seq<string>)
    requires forall k :: 0 <= k < |a| ==> ',' !in a[k]
    requires forall k :: 0 <= k < |b| ==> ',' !in b[k]
    ensures forall k :: 0 <= k < |a + b| ==> ',' !in (a + b)[k]
  {
    forall k | 0 <= k < |a + b| ensures ',' !in (a + b)[k] {
      if k < |a| {
        assert (a + b)[k] == a[k];
      } else {
        assert (a + b)[k] == b[k - |a|];
      }
    }
  }

  lemma TrimAllAppend(a: seq<string>, b: seq<string>)
    ensures TrimAll(a + b) == TrimAll(a) + TrimAll(b)
  {
  }

  /** The text copied to the clipboard and shown under the tags. */
  function CopyText(tags: seq<string>): (r: string)
    ensures tags == [] ==> r == []
    ensures |tags| == 1 ==> r == tags[0]
    ensures |tags| > 1 ==> tags[0] + ", " <= r
  {
    Join(tags, ", ")
  }

  lemma {:induction false} NonEmptyAppend(a: seq<string>, b: seq<string>)
    ensures NonEmpty(a + b) == NonEmpty(a) + NonEmpty(b)
  {
    if a == [] {
      assert a + b == b;
    } else {
      var head := if a[0] != [] then [a[0]] else [];
      assert (a + b)[0] == a[0];
      assert (a + b)[1..] == a[1..] + b;
      NonEmptyAppend(a[1..], b);
      calc {
        NonEmpty(a + b);
        head + NonEmpty(a[1..] + b);
        head + (NonEmpty(a[1..]) + NonEmpty(b));
        (head + NonEmpty(a[1..])) + NonEmpty(b);
        NonEmpty(a) + NonEmpty(b);
      }
    }
  }

  /** Tags keep the order of the text: the tags of two texts joined by a
      comma are the tags of the first followed by those of the second. */
  lemma TagsAppend(a: string, b: string)
    ensures Tags(a + [','] + b) == Tags(a) + Tags(b)
  {
    SplitAppend(a, b, ',');
    TagsOfAppend(Split(a, ','), Split(b, ','));
  }

  /** A single piece without a comma, after optional whitespace. */
  lemma OneTag(lead: string, t: string)
    requires lead == [] || lead == " "
    requires IsTag(t)
    ensures Tags(lead + t) == [t]
  {
    var s := lead + t;
    assert Split(s, ',') == [s] by {
      assert ',' !in s;
    }
    assert TrimAll([s]) == [t] by {
      assert Trim(s) == t by {
        if lead == [] {
          assert s == t;
          TrimIdentity(t);
        } else {
          TrimAfterSpace(t);
        }
      }
    }
    assert NonEmpty([t]) == [t] by {
      assert [t][1..] == [];
    }
  }

  /** Parsing text made of whitespace alone gives no tag. */
  lemma NoTags(lead: string)
    requires lead == [] || lead == " "
    ensures Tags(lead) == []
  {
    assert ',' !in lead;
    assert Split(lead, ',') == [lead];
    TrimEmpty(lead);
    var trimmed := TrimAll([lead]);
    assert trimmed == [[]] by {
      assert trimmed[0] == Trim(lead) == [];
    }
    assert NonEmpty(trimmed) == [];
  }

  lemma {:induction false} RoundTripFrom(lead: string, tags: seq<string>)
    requires lead == [] || lead == " "
    requires forall k :: 0 <= k < |tags| ==> IsTag(tags[k])
    ensures Tags(lead + CopyText(tags)) == tags
    decreases |tags|
  {
    if |tags| == 0 {
      assert lead + CopyText(tags) == lead;
      NoTags(lead);
    } else if |tags| == 1 {
      OneTag(lead, tags[0]);
    } else {
      var rest := tags[1..];
      assert forall k :: 0 <= k < |rest| ==> rest[k] == tags[k + 1];
      RoundTripFrom(" ", rest);
      RoundTripStep(lead, tags);
    }
  }

  /** The first tag, a comma, and the rest after one space. */
  lemma RoundTripStep(lead: string, tags: seq<string>)
    requires lead == [] || lead == " "
    requires |tags| > 1 && IsTag(tags[0])
    requires Tags(" " + CopyText(tags[1..])) == tags[1..]
    ensures Tags(lead + CopyText(tags)) == tags
  {
    var first := lead + tags[0];
    var rest := " " + CopyText(tags[1..]);
    var whole := lead + CopyText(tags);
    JoinCons(lead, tags);
    assert whole == first + [','] + rest;
    TagsAppend(first, rest);
    OneTag(lead, tags[0]);
    calc {
      Tags(whole);
      Tags(first + [','] + rest);
      Tags(first) + Tags(rest);
      [tags[0]] + tags[1..];
      { HeadTail(tags); }
      tags;
    }
  }

  lemma HeadTail(s: seq<string>)
    requires s != []
    ensures [s[0]] + s[1..] == s
  {
  }

  lemma JoinCons(lead: string, tags: seq<string>)
    requires |tags| > 1
    ensures lead + CopyText(tags) == (lead + tags[0]) + [','] + (" " + CopyText(tags[1..]))
  {
    assert CopyText(tags) == tags[0] + ", " + CopyText(tags[1..]);
  }

  /** Parsing the copied text gives back the tags. */
  lemma TagsRoundTrip(tags: seq<string>)
    requires forall k :: 0 <= k < |tags| ==> IsTag(tags[k])
    ensures Tags(CopyText(tags)) == tags
  {
    RoundTripFrom([], tags);
    assert [] + CopyText(tags) == CopyText(tags);
  }

  /** Parsing is idempotent through the copy: the copied text of the tags
      parses to the same tags. */
  lemma ParseCopyParse(text: string)
    ensures Tags(CopyText(Tags(text))) == Tags(text)
  {
    TagsRoundTrip(Tags(text));
  }
}
