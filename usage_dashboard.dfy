/** The usage dashboard page: it fetches the ledger's rows, sorts them by
    `usage_count` from most to least used, and charts them under a
    humanised tool name. */
module UsageDashboard {
  import opened Text
  import opened UsageLedger

  /** Rows in non-increasing `usage_count` order. */
  predicate SortedByUsage(s: seq<Row>) {
    forall p, q :: 0 <= p < q < |s| ==> s[p].usageCount >= s[q].usageCount
  }

  /** `result.sort((a, b) => b.usage_count - a.usage_count)`: an insertion
      sort in place that moves a row forward only past rows with a strictly
      smaller count. */
  method SortByUsage(a: array<Row>)
    modifies a
    ensures SortedByUsage(a[..])
    ensures multiset(a[..]) == old(multiset(a[..]))
  {
    var i := 0;
    while i < a.Length
      invariant 0 <= i <= a.Length
      invariant SortedByUsage(a[..i])
      invariant multiset(a[..]) == old(multiset(a[..]))
    {
      InsertLast(a, i);
      i := i + 1;
    }
  }

  /** One step of the insertion sort: with `a[..i]` sorted, move `a[i]`
      forward past the rows with a strictly smaller count. */
  method InsertLast(a: array<Row>, i: nat)
    requires i < a.Length
    requires SortedByUsage(a[..i])
    modifies a
    ensures SortedByUsage(a[..i + 1])
    ensures multiset(a[..]) == old(multiset(a[..]))
  {
    var j := i;
    while j > 0 && a[j - 1].usageCount < a[j].usageCount
      invariant 0 <= j <= i
      invariant forall p, q :: 0 <= p < q <= i && p != j && q != j ==> a[p].usageCount >= a[q].usageCount
      invariant forall q :: j < q <= i ==> a[j].usageCount > a[q].usageCount
      invariant 0 < j < i ==> a[j - 1].usageCount >= a[j + 1].usageCount
      invariant multiset(a[..]) == old(multiset(a[..]))
    {
      Swap(a, j - 1, j);
      j := j - 1;
    }
  }

  method Swap(a: array<Row>, i: nat, j: nat)
    requires i < j < a.Length
    modifies a
    ensures a[i] == old(a[j]) && a[j] == old(a[i])
    ensures forall k :: 0 <= k < a.Length && k != i && k != j ==> a[k] == old(a[k])
    ensures multiset(a[..]) == old(multiset(a[..]))
  {
    a[i], a[j] := a[j], a[i];
  }

  /** What `fetch('/api/usage')` produced. */
  datatype FetchOutcome = NetworkError | NotOk | Fetched(rows: seq<Row>)

  /** One bar of the chart. */
  datatype ChartPoint = ChartPoint(name: string, usage: nat)

  /** What the statistics card shows. */
  datatype View = Spinner | NoUsageData | Chart(points: seq<ChartPoint>)

  /** `word.charAt(0).toUpperCase() + word.slice(1)`. */
  function Capitalize(w: string): (r: string)
    ensures |r| == |w|
  {
    if w == [] then [] else [ToUpperChar(w[0])] + w[1..]
  }

  function CapitalizeAll(ws: seq<string>): (r: seq<string>)
    ensures |r| == |ws|
    ensures forall k :: 0 <= k < |ws| ==> r[k] == Capitalize(ws[k])
  {
    seq(|ws|, k requires 0 <= k < |ws| => Capitalize(ws[k]))
  }

  /** `formatToolName`: `id.split('-').map(capitalize).join(' ')`. */
  function FormatToolName(id: string): (name: string)
    ensures '-' !in id ==> name == Capitalize(id)
  {
    Join(CapitalizeAll(Split(id, '-')), " ")
  }

  /** The character `formatToolName` puts at position `k`: a dash becomes a
      space, the first character of each dash-separated segment is
      upper-cased, and every other character is kept. */
  function TitleCaseAt(id: string, k: nat): char
    requires k < |id|
  {
    if id[k] == '-' then ' '
    else if k == 0 || id[k - 1] == '-' then ToUpperChar(id[k])
    else id[k]
  }

  /** A dash-free head and the rest of the id are formatted apart. */
  lemma NameOfConcat(id: string)
    requires '-' in id
    ensures var i := IndexOf(id, '-');
      FormatToolName(id) == Capitalize(id[..i]) + " " + FormatToolName(id[i + 1..])
  {
    var i := IndexOf(id, '-');
    var head, rest := id[..i], id[i + 1..];
    var segs := Split(id, '-');
    assert segs == [head] + Split(rest, '-');
    var caps := CapitalizeAll(segs);
    var tail := CapitalizeAll(Split(rest, '-'));
    assert |caps| >= 2;
    assert caps[0] == Capitalize(head);
    assert caps[1..] == tail by {
      forall k | 0 <= k < |tail| ensures caps[1..][k] == tail[k] {
        assert segs[k + 1] == Split(rest, '-')[k];
      }
    }
  }

  /** `formatToolName` keeps the length of the id and changes it character
      by character as `TitleCaseAt` says. */
  lemma {:induction false} FormatToolNameAt(id: string)
    ensures |FormatToolName(id)| == |id|
    ensures forall k :: 0 <= k < |id| ==> FormatToolName(id)[k] == TitleCaseAt(id, k)
    decreases |id|
  {
    if '-' !in id {
      assert FormatToolName(id) == Capitalize(id) by {
        assert Split(id, '-') == [id];
      }
      forall k | 0 <= k < |id| ensures Capitalize(id)[k] == TitleCaseAt(id, k) {
        if k > 0 { assert id[k - 1] in id; }
      }
    } else {
      var i := IndexOf(id, '-');
      FormatToolNameAt(id[i + 1..]);
      ConcatAt(id, i);
    }
  }

  /** The characters of the display name for the first dash `i`, given
      those of the part after it. */
  lemma ConcatAt(id: string, i: nat)
    requires '-' in id && i == IndexOf(id, '-')
    requires var rr := FormatToolName(id[i + 1..]);
      |rr| == |id| - i - 1 && forall k :: 0 <= k < |rr| ==> rr[k] == TitleCaseAt(id[i + 1..], k)
    ensures |FormatToolName(id)| == |id|
    ensures forall k :: 0 <= k < |id| ==> FormatToolName(id)[k] == TitleCaseAt(id, k)
  {
    var r := Capitalize(id[..i]) + " " + FormatToolName(id[i + 1..]);
    assert FormatToolName(id) == r by { NameOfConcat(id); }
    HeadAt(id, i, r);
    TailAt(id, i, Capitalize(id[..i]), FormatToolName(id[i + 1..]), r);
    assert r[i] == ' ';
  }

  /** Before the first dash the display name is the capitalised head. */
  lemma HeadAt(id: string, i: nat, r: string)
    requires i < |id| && '-' !in id[..i]
    requires r == Capitalize(id[..i]) + " " + FormatToolName(id[i + 1..])
    ensures forall k :: 0 <= k < i ==> r[k] == TitleCaseAt(id, k)
  {
    var head := id[..i];
    forall k | 0 <= k < i ensures r[k] == TitleCaseAt(id, k) {
      assert r[k] == Capitalize(head)[k];
      assert head[k] == id[k];
      if k > 0 { assert head[k - 1] == id[k - 1]; assert id[k - 1] in head; }
    }
  }

  /** After the first dash the display name is that of the rest: `cap`
      stands for the capitalised head and `rr` for the rest's name. */
  lemma TailAt(id: string, i: nat, cap: string, rr: string, r: string)
    requires i < |id| && id[i] == '-' && |cap| == i
    requires r == cap + " " + rr
    requires |rr| == |id| - i - 1 && forall k :: 0 <= k < |rr| ==> rr[k] == TitleCaseAt(id[i + 1..], k)
    ensures forall k :: i < k < |id| ==> r[k] == TitleCaseAt(id, k)
  {
    var rest := id[i + 1..];
    forall k | i < k < |id| ensures r[k] == TitleCaseAt(id, k) {
      assert r[k] == rr[k - i - 1];
      assert rest[k - i - 1] == id[k];
      if k - i - 1 > 0 { assert rest[k - i - 2] == id[k - 1]; }
    }
  }

  /** The display name has no dash left. */
  lemma NoDashInName(id: string)
    ensures '-' !in FormatToolName(id)
  {
    FormatToolNameAt(id);
    forall k | 0 <= k < |id| ensures FormatToolName(id)[k] != '-' {
      assert TitleCaseAt(id, k) != '-';
    }
  }

  /** For an id without spaces, splitting the display name on spaces gives
      back the capitalised segments: as many words as the id has segments,
      each with only its first character upper-cased. */
  lemma WordsOfName(id: string)
    requires ' ' !in id
    ensures Split(FormatToolName(id), ' ') == CapitalizeAll(Split(id, '-'))
    ensures |Split(FormatToolName(id), ' ')| == |Split(id, '-')|
  {
    var segs := Split(id, '-');
    var caps := CapitalizeAll(segs);
    forall k | 0 <= k < |caps| ensures ' ' !in caps[k] {
      SplitChars(id, '-', k);
      forall m | 0 <= m < |caps[k]| ensures caps[k][m] != ' ' {
        assert segs[k][m] in id;
      }
    }
    SplitJoin(caps, ' ');
  }

  /** Every character of a piece of `Split(s, c)` is a character of `s`. */
  lemma {:induction false} SplitChars(s: string, c: char, k: nat)
    requires k < |Split(s, c)|
    ensures forall x :: x in Split(s, c)[k] ==> x in s
    decreases |s|
  {
    if c in s {
      var i := IndexOf(s, c);
      var rest := s[i + 1..];
      assert Split(s, c) == [s[..i]] + Split(rest, c);
      if k > 0 {
        var piece := Split(rest, c)[k - 1];
        assert Split(s, c)[k] == piece;
        SplitChars(rest, c, k - 1);
        forall x | x in piece ensures x in s {
          assert x in rest;
          var m :| 0 <= m < |rest| && rest[m] == x;
          assert s[i + 1 + m] == x;
        }
      } else {
        assert Split(s, c)[k] == s[..i];
        forall x | x in s[..i] ensures x in s {
          var m :| 0 <= m < i && s[..i][m] == x;
          assert s[m] == x;
        }
      }
    } else {
      assert Split(s, c) == [s];
    }
  }

  /** `chartData`: one point per row, same order, named by
      `formatToolName`. */
  function ChartData(data: seq<Row>): (r: seq<ChartPoint>)
    ensures |r| == |data|
    ensures forall k :: 0 <= k < |data| ==>
      r[k].usage == data[k].usageCount && r[k].name == FormatToolName(data[k].toolId)
  {
    seq(|data|, k requires 0 <= k < |data| => ChartPoint(FormatToolName(data[k].toolId), data[k].usageCount))
  }

  /** The statistics card: a spinner while loading, the "No usage data"
      message for an empty list, the chart otherwise. */
  function Render(loading: bool, data: seq<Row>): (v: View)
    ensures v == NoUsageData <==> !loading && data == []
    ensures v.Chart? ==> |v.points| == |data| > 0
  {
    if loading then Spinner
    else if |data| == 0 then NoUsageData
    else Chart(ChartData(data))
  }

  /** The page's state: the rows it shows and the loading flag. */
  class Dashboard {
    var data: seq<Row>
    var loading: bool

    constructor ()
      ensures data == [] && loading
    {
      data := [];
      loading := true;
    }

    function View(): View
      reads this
    {
      Render(loading, data)
    }

    /** `fetchUsage`: on an ok response the rows are sorted and replace the
        data; a network error or a non-ok status leaves the data as it was.
        Either way loading ends. */
    method FetchUsage(outcome: FetchOutcome)
      modifies this
      ensures !loading
      ensures outcome.Fetched? ==>
        SortedByUsage(data) && multiset(data) == multiset(outcome.rows)
      ensures !outcome.Fetched? ==> data == old(data)
      ensures !outcome.Fetched? && old(data) == [] ==> View() == NoUsageData
    {
      if outcome.Fetched? {
        var a := new Row[|outcome.rows|](k requires 0 <= k < |outcome.rows| => outcome.rows[k]);
        assert a[..] == outcome.rows;
        SortByUsage(a);
        data := a[..];
      }
      loading := false;
    }
  }
}
