/** The meta description generator: the generated description is stored
    trimmed, its length badge turns red past 160 characters, and the search
    preview shows a slug made from the topic. */
module MetaDescription {
  import opened Text

  /** The longest description a search result shows in full. */
  const Limit := 160

  /** The description after `generateMeta`: a blank topic sends no request
      and an empty reply changes nothing; otherwise the reply, trimmed. */
  function Generated(topic: string, reply: string, current: string): (d: string)
    ensures AllSpace(topic) || reply == [] ==> d == current
    ensures !AllSpace(topic) && reply != [] ==> d == Trim(reply)
    ensures !AllSpace(topic) && reply != [] ==>
      IsTrimmed(d) && |d| <= |reply| && (d == [] <==> AllSpace(reply))
  {
    TrimEmpty(topic);
    TrimEmpty(reply);
    if Trim(topic) == [] then current
    else if reply == [] then current
    else Trim(reply)
  }

  datatype Badge = RedBadge | GreenBadge

  /** The colour of the `chars` badge. */
  function LengthBadge(description: string): (b: Badge)
    ensures b == RedBadge <==> |description| > Limit
  {
    if |description| > Limit then RedBadge else GreenBadge
  }

  /** `topic.toLowerCase().replace(/\s+/g, '-')`. */
  function Slug(topic: string): (r: string)
    ensures |r| <= |topic|
    ensures forall k :: 0 <= k < |r| ==> !IsSpace(r[k]) && !IsUpper(r[k])
  {
    var lower := ToLower(topic);
    var r := ReplaceRuns(lower, IsSpace, "-");
    ReplaceRunsShorter(lower);
    forall k | 0 <= k < |r| ensures !IsSpace(r[k]) && !IsUpper(r[k]) {
      JoinChars(SplitRuns(lower, IsSpace), "-", k);
      if r[k] != '-' {
        var p, m := JoinSource(SplitRuns(lower, IsSpace), "-", k);
        SplitRunsChars(lower, IsSpace, p, m);
        var i :| 0 <= i < |lower| && lower[i] == r[k];
      }
    }
    r
  }

  /** A character of a join comes from the separator or from a part. */
  lemma {:induction false} JoinChars(parts: seq<string>, sep: string, k: nat)
    requires k < |Join(parts, sep)|
    ensures Join(parts, sep)[k] in sep || exists p :: 0 <= p < |parts| && Join(parts, sep)[k] in parts[p]
  {
    var p, m := JoinSource(parts, sep, k);
  }

  /** Where the `k`-th character of a join comes from: the separator, or
      character `m` of part `p`. */
  lemma {:induction false} JoinSource(parts: seq<string>, sep: string, k: nat) returns (p: nat, m: nat)
    requires k < |Join(parts, sep)|
    ensures Join(parts, sep)[k] in sep || (p < |parts| && m < |parts[p]| && Join(parts, sep)[k] == parts[p][m])
  {
    var r := Join(parts, sep);
    if |parts| == 1 {
      p, m := 0, k;
    } else if k < |parts[0]| {
      p, m := 0, k;
    } else if k < |parts[0]| + |sep| {
      assert r[k] == sep[k - |parts[0]|];
      p, m := 0, 0;
    } else {
      var rest := Join(parts[1..], sep);
      assert r == parts[0] + sep + rest;
      assert r[k] == rest[k - |parts[0]| - |sep|];
      var p', m' := JoinSource(parts[1..], sep, k - |parts[0]| - |sep|);
      p, m := p' + 1, m';
    }
  }

  /** Each run of whitespace, one character or more, becomes one dash. */
  lemma {:induction false} ReplaceRunsShorter(s: string)
    ensures |ReplaceRuns(s, IsSpace, "-")| <= |s|
    decreases |s|
  {
    var i := NextSep(s, 0, IsSpace);
    if i < |s| {
      var j := RunEnd(s, i, IsSpace);
      ReplaceRunsShorter(s[j..]);
      var rest := SplitRuns(s[j..], IsSpace);
      assert SplitRuns(s, IsSpace) == [s[..i]] + rest;
      assert ([s[..i]] + rest)[1..] == rest;
      assert Join([s[..i]] + rest, "-") == s[..i] + "-" + Join(rest, "-");
    }
  }

  /** For a topic without dashes, cutting the slug at its dashes gives back
      the topic's lower-cased words, empty ones for leading and trailing
      whitespace included: each whitespace run became exactly one dash. */
  lemma SlugWords(topic: string)
    requires '-' !in topic
    ensures Split(Slug(topic), '-') == SplitRuns(ToLower(topic), IsSpace)
  {
    var lower := ToLower(topic);
    var pieces := SplitRuns(lower, IsSpace);
    forall p | 0 <= p < |pieces| ensures '-' !in pieces[p] {
      forall m | 0 <= m < |pieces[p]| ensures pieces[p][m] != '-' {
        SplitRunsChars(lower, IsSpace, p, m);
        var i :| 0 <= i < |lower| && lower[i] == pieces[p][m];
        assert topic[i] != '-' by { assert topic[i] in topic; }
      }
    }
    SplitJoin(pieces, '-');
  }
}
