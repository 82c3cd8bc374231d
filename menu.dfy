/**
 * The non-interactive logic of main.cpp: its own normalize_username, the
 * one-record-per-company list, the year-sorted history of one company, and
 * the cursor arithmetic of pick_option. A `Stock*` into the store's arena
 * is the record's index in `stocks`; the keyboard is the sequence of codes
 * _getch would return.
 */
module Menu {
  import opened Text
  import opened Stocks
  import opened Sorting
  import opened Ints

  /* ---------------- normalize_username ---------------- */

  /** main.cpp's normalize_username strips only spaces and tabs. */
  method NormalizeUsername(username: string) returns (r: string)
    ensures r == Strip(username, SpaceTab)
    ensures r == "" <==> forall i :: 0 <= i < |username| ==> username[i] in SpaceTab
  {
    var start, end := TrimBounds(username, SpaceTab);
    StripEmpty(username, SpaceTab);
    if start <= end {
      return username[start..end + 1];
    }
    return "";
  }

  /* ---------------- unique_latest_companies ---------------- */

  /** The company names and the years of the records, position by position. */
  function Names(stocks: seq<Stock>): (names: seq<string>)
    ensures |names| == |stocks| && forall k :: 0 <= k < |stocks| ==> names[k] == stocks[k].companyName
  {
    seq(|stocks|, k requires 0 <= k < |stocks| => stocks[k].companyName)
  }

  function Years(stocks: seq<Stock>): (years: seq<int>)
    ensures |years| == |stocks| && forall k :: 0 <= k < |stocks| ==> years[k] == stocks[k].year
  {
    seq(|stocks|, k requires 0 <= k < |stocks| => stocks[k].year)
  }

  /** Every entry of `result` is a position below `upTo`. */
  predicate Below(result: seq<nat>, upTo: nat)
  {
    forall k :: 0 <= k < |result| ==> result[k] < upTo
  }

  /**
   * Which record stands for a company: r beats every other record of the
   * same name among the first `upTo` by year, and on a tie by coming first.
   */
  ghost predicate Latest<N>(names: seq<N>, years: seq<int>, r: nat, upTo: nat)
    requires |years| == |names| && r < |names| && upTo <= |names|
  {
    forall i :: 0 <= i < upTo && names[i] == names[r] ==>
      years[i] < years[r] || (years[i] == years[r] && r <= i)
  }

  ghost predicate AllLatest<N>(names: seq<N>, years: seq<int>, result: seq<nat>, upTo: nat)
    requires |years| == |names| && upTo <= |names| && Below(result, |names|)
  {
    forall k :: 0 <= k < |result| ==> Latest(names, years, result[k], upTo)
  }

  /** No two entries of `result` name the same company. */
  ghost predicate DistinctNames<N>(names: seq<N>, result: seq<nat>)
    requires Below(result, |names|)
  {
    forall k, l :: 0 <= k < l < |result| ==> names[result[k]] != names[result[l]]
  }

  /** The company of record i has an entry in `result`. */
  ghost predicate Listed<N>(names: seq<N>, result: seq<nat>, i: nat)
    requires i < |names| && Below(result, |names|)
  {
    exists k :: 0 <= k < |result| && names[result[k]] == names[i]
  }

  /** Every company among the first `upTo` records has an entry in `result`. */
  ghost predicate Covers<N>(names: seq<N>, result: seq<nat>, upTo: nat)
    requires upTo <= |names| && Below(result, |names|)
  {
    forall i :: 0 <= i < upTo ==> Listed(names, result, i)
  }

  /** Replacing entry j by a record of the same company keeps the names. */
  lemma {:induction false} ReplaceDistinct<N>(names: seq<N>, result: seq<nat>, j: nat, i: nat)
    requires Below(result, |names|) && j < |result| && i < |names| && names[i] == names[result[j]]
    requires DistinctNames(names, result)
    ensures DistinctNames(names, result[j := i])
  {
    var next := result[j := i];
    forall k, l | 0 <= k < l < |next|
      ensures names[next[k]] != names[next[l]]
    {
      assert names[next[k]] == names[result[k]] && names[next[l]] == names[result[l]];
    }
  }

  lemma {:induction false} ReplaceCovers<N>(names: seq<N>, result: seq<nat>, j: nat, i: nat)
    requires Below(result, |names|) && j < |result| && i < |names| && names[i] == names[result[j]]
    requires Covers(names, result, i)
    ensures Covers(names, result[j := i], i + 1)
  {
    var next := result[j := i];
    forall i' | 0 <= i' < i + 1
      ensures Listed(names, next, i')
    {
      if i' == i {
        assert names[next[j]] == names[i'];
      } else {
        assert Listed(names, result, i');
        var k :| 0 <= k < |result| && names[result[k]] == names[i'];
        assert names[next[k]] == names[result[k]];
      }
    }
  }

  /** The other entries are of other companies, so record i does not touch them. */
  lemma {:induction false} OthersLatest<N>(names: seq<N>, years: seq<int>, result: seq<nat>, j: nat, i: nat)
    requires |years| == |names| && Below(result, |names|) && j < |result| && i < |names|
    requires names[i] == names[result[j]] && DistinctNames(names, result)
    requires AllLatest(names, years, result, i)
    ensures forall k :: 0 <= k < |result| && k != j ==> Latest(names, years, result[k], i + 1)
  {
    forall k | 0 <= k < |result| && k != j
      ensures Latest(names, years, result[k], i + 1)
    {
      if k < j {
        assert names[result[k]] != names[result[j]];
      } else {
        assert names[result[j]] != names[result[k]];
      }
      assert Latest(names, years, result[k], i);
    }
  }

  /** Record i is of the company at entry j: the later of the two by year (the earlier on a tie) stays. */
  lemma {:induction false} FoundLatest<N>(names: seq<N>, years: seq<int>, result: seq<nat>, j: nat, i: nat)
    requires |years| == |names| && Below(result, i) && j < |result| && i < |names|
    requires names[i] == names[result[j]] && DistinctNames(names, result)
    requires AllLatest(names, years, result, i)
    ensures var next := if years[i] > years[result[j]] then result[j := i] else result;
      AllLatest(names, years, next, i + 1)
  {
    var next := if years[i] > years[result[j]] then result[j := i] else result;
    OthersLatest(names, years, result, j, i);
    assert Latest(names, years, result[j], i);
    forall k | 0 <= k < |next|
      ensures Latest(names, years, next[k], i + 1)
    {
      if k != j {
        assert next[k] == result[k];
      }
    }
  }

  /** Record i is of a company not listed yet: it becomes that company's entry. */
  lemma {:induction false} NewDistinct<N>(names: seq<N>, result: seq<nat>, i: nat)
    requires Below(result, i) && i < |names|
    requires forall j :: 0 <= j < |result| ==> names[result[j]] != names[i]
    requires DistinctNames(names, result)
    ensures DistinctNames(names, result + [i])
  {
    var next := result + [i];
    forall k, l | 0 <= k < l < |next|
      ensures names[next[k]] != names[next[l]]
    {
      assert next[k] == result[k];
      if l < |result| {
        assert next[l] == result[l];
      }
    }
  }

  lemma {:induction false} NewCovers<N>(names: seq<N>, result: seq<nat>, i: nat)
    requires Below(result, i) && i < |names|
    requires Covers(names, result, i)
    ensures Covers(names, result + [i], i + 1)
  {
    var next := result + [i];
    assert Below(next, |names|) by {
      forall k | 0 <= k < |next|
        ensures next[k] < |names|
      {
        if k < |result| {
          assert next[k] == result[k];
        }
      }
    }
    forall i' | 0 <= i' < i + 1
      ensures Listed(names, next, i')
    {
      if i' == i {
        assert names[next[|result|]] == names[i'];
      } else {
        assert Listed(names, result, i');
        var k :| 0 <= k < |result| && names[result[k]] == names[i'];
        assert next[k] == result[k];
      }
    }
  }

  lemma {:induction false} NewLatest<N>(names: seq<N>, years: seq<int>, result: seq<nat>, i: nat)
    requires |years| == |names| && Below(result, i) && i < |names|
    requires forall j :: 0 <= j < |result| ==> names[result[j]] != names[i]
    requires Covers(names, result, i) && AllLatest(names, years, result, i)
    ensures AllLatest(names, years, result + [i], i + 1)
  {
    var next := result + [i];
    forall i' | 0 <= i' < i
      ensures names[i'] != names[i]
    {
      assert Listed(names, result, i');
      var k :| 0 <= k < |result| && names[result[k]] == names[i'];
      assert names[result[k]] != names[i];
    }
    forall k | 0 <= k < |next|
      ensures Latest(names, years, next[k], i + 1)
    {
      if k < |result| {
        assert next[k] == result[k];
        assert Latest(names, years, result[k], i);
      }
    }
  }

  /** What unique_latest_companies has built after its first `upTo` records. */
  ghost predicate Summary<N>(names: seq<N>, years: seq<int>, result: seq<nat>, upTo: nat)
    requires |years| == |names| && upTo <= |names|
  {
    Below(result, upTo) && DistinctNames(names, result) && Covers(names, result, upTo)
    && AllLatest(names, years, result, upTo)
  }

  /** One step of the outer loop when record i's company is at entry j. */
  lemma StepFound<N>(names: seq<N>, years: seq<int>, result: seq<nat>, j: nat, i: nat)
    requires |years| == |names| && i < |names| && Summary(names, years, result, i)
    requires j < |result| && names[i] == names[result[j]]
    ensures Summary(names, years, if years[i] > years[result[j]] then result[j := i] else result, i + 1)
  {
    FoundLatest(names, years, result, j, i);
    if years[i] > years[result[j]] {
      ReplaceDistinct(names, result, j, i);
      ReplaceCovers(names, result, j, i);
    } else {
      assert Covers(names, result, i + 1) by {
        assert names[result[j]] == names[i];
      }
    }
  }

  /** One step of the outer loop when record i's company is not listed. */
  lemma StepNew<N>(names: seq<N>, years: seq<int>, result: seq<nat>, i: nat)
    requires |years| == |names| && i < |names| && Summary(names, years, result, i)
    requires forall j :: 0 <= j < |result| ==> names[result[j]] != names[i]
    ensures Summary(names, years, result + [i], i + 1)
  {
    NewDistinct(names, result, i);
    NewCovers(names, result, i);
    NewLatest(names, years, result, i);
  }

  /**
   * unique_latest_companies: one index per company name, the names pairwise
   * different, every company present, each index its latest record (the
   * first one among equal years).
   */
  method UniqueLatest(stocks: seq<Stock>) returns (result: seq<nat>)
    ensures Below(result, |stocks|)
    ensures DistinctNames(Names(stocks), result)
    ensures Covers(Names(stocks), result, |stocks|)
    ensures AllLatest(Names(stocks), Years(stocks), result, |stocks|)
  {
    ghost var names, years := Names(stocks), Years(stocks);
    result := [];
    var i := 0;
    while i < |stocks|
      invariant 0 <= i <= |stocks| && Summary(names, years, result, i)
    {
      var s := stocks[i];
      var found := false;
      var j := 0;
      while j < |result|
        invariant 0 <= j <= |result| && !found
        invariant forall j' :: 0 <= j' < j ==> names[result[j']] != names[i]
      {
        if stocks[result[j]].companyName == s.companyName {
          StepFound(names, years, result, j, i);
          if s.year > stocks[result[j]].year {
            result := result[j := i];
          }
          found := true;
          break;
        }
        j := j + 1;
      }
      if !found {
        StepNew(names, years, result, i);
        result := result + [i];
      }
      i := i + 1;
    }
  }

  /* ---------------- collect_company_history ---------------- */

  /** The indices of the records named like `name`, in store order. */
  function SameName(stocks: seq<Stock>, name: string, upTo: nat): (r: seq<nat>)
    requires upTo <= |stocks|
    ensures forall k :: 0 <= k < |r| ==> r[k] < upTo && stocks[r[k]].companyName == name
    ensures forall i :: 0 <= i < upTo && stocks[i].companyName == name ==> i in r
    decreases upTo
  {
    if upTo == 0 then []
    else SameName(stocks, name, upTo - 1) + (if stocks[upTo - 1].companyName == name then [upTo - 1] else [])
  }

  /** The sort key of collect_company_history: the year of a record. */
  function YearOf(stocks: seq<Stock>, k: nat): real
  {
    if k < |stocks| then stocks[k].year as real else 0.0
  }

  /**
   * collect_company_history: nothing for an index outside the store;
   * otherwise every record of that company, each once, ordered by year.
   */
  method CollectHistory(stocks: seq<Stock>, baseIndex: int) returns (series: seq<nat>)
    ensures !(0 <= baseIndex < |stocks|) ==> series == []
    ensures 0 <= baseIndex < |stocks| ==>
      multiset(series) == multiset(SameName(stocks, stocks[baseIndex].companyName, |stocks|))
    ensures forall k :: 0 <= k < |series| ==> series[k] < |stocks|
    ensures forall a, b :: 0 <= a < b < |series| ==> stocks[series[a]].year <= stocks[series[b]].year
  {
    series := [];
    if baseIndex < 0 || baseIndex >= |stocks| {
      return;
    }
    var name := stocks[baseIndex].companyName;
    var i := 0;
    while i < |stocks|
      invariant 0 <= i <= |stocks| && series == SameName(stocks, name, i)
    {
      if stocks[i].companyName == name {
        series := series + [i];
      }
      i := i + 1;
    }
    ghost var collected := series;
    assert collected == SameName(stocks, stocks[baseIndex].companyName, |stocks|);
    series := ExchangeSort(series, (k: nat) => YearOf(stocks, k));
    forall k | 0 <= k < |series|
      ensures series[k] < |stocks|
    {
      assert series[k] in multiset(collected);
    }
    forall a, b | 0 <= a < b < |series|
      ensures stocks[series[a]].year <= stocks[series[b]].year
    {
      assert YearOf(stocks, series[a]) <= YearOf(stocks, series[b]);
    }
  }

  /* ---------------- pick_option ---------------- */

  /** Where the list is: the highlighted item and the first item shown. */
  datatype Cursor = Cursor(selected: int, offset: int)

  /** The page shows items offset .. offset + page - 1, and the highlight is on it. */
  predicate Visible(c: Cursor, total: int, page: int)
  {
    0 <= c.offset <= c.selected < c.offset + page <= total
  }

  /** The wrap-around of the cursor: a position inside the list is its own remainder. */
  lemma WrapInside(x: int, n: int)
    requires 0 <= x < n
    ensures x % n == x
  {
  }

  /** One past the last position wraps to 0, one before the first to the last. */
  lemma WrapEnds(n: int)
    requires n > 0
    ensures n % n == 0 && (-1) % n == n - 1
  {
  }

  /** Key code 72 after 224/0: one up, wrapping from the first item to the last page. */
  function Up(c: Cursor, total: int, page: int): (d: Cursor)
    requires Visible(c, total, page)
    ensures Visible(d, total, page)
    ensures d.selected == (c.selected - 1) % total
  {
    if c.selected > 0 then
      var s := c.selected - 1;
      WrapInside(s, total);
      Cursor(s, if s < c.offset then s else c.offset)
    else
      WrapEnds(total);
      Cursor(total - 1, if total > page then total - page else 0)
  }

  /** Key code 80 after 224/0: one down, wrapping from the last item to the top. */
  function Down(c: Cursor, total: int, page: int): (d: Cursor)
    requires Visible(c, total, page)
    ensures Visible(d, total, page)
    ensures d.selected == (c.selected + 1) % total
  {
    if c.selected < total - 1 then
      var s := c.selected + 1;
      WrapInside(s, total);
      Cursor(s, if s >= c.offset + page then s - page + 1 else c.offset)
    else
      WrapEnds(total);
      Cursor(0, 0)
  }

  /** The end of a run of pick_option: an index, -1 (cancelled), or still waiting for keys. */
  datatype Outcome = Chosen(index: int) | Cancelled | Waiting

  /**
   * The reaction to the remaining key codes: q or Q cancels, 13 (Enter)
   * chooses the highlighted item, 224 or 0 is followed by an arrow code, any
   * other code is ignored.
   */
  function Pick(total: int, page: int, c: Cursor, codes: seq<int>): (r: Outcome)
    requires Visible(c, total, page)
    ensures r.Chosen? ==> 0 <= r.index < total
    decreases |codes|
  {
    if |codes| == 0 then Waiting
    else if codes[0] == 'q' as int || codes[0] == 'Q' as int then Cancelled
    else if codes[0] == 13 then Chosen(c.selected)
    else if codes[0] == 224 || codes[0] == 0 then
      if |codes| == 1 then Waiting
      else if codes[1] == 72 then Pick(total, page, Up(c, total, page), codes[2..])
      else if codes[1] == 80 then Pick(total, page, Down(c, total, page), codes[2..])
      else Pick(total, page, c, codes[2..])
    else Pick(total, page, c, codes[1..])
  }

  /**
   * pick_option over `total` items: -1 for an empty list, otherwise what
   * Pick gives from the top of the list with a page of min(12, total).
   */
  method PickOption(total: nat, codes: seq<int>) returns (r: Outcome)
    ensures total == 0 ==> r == Cancelled
    ensures total > 0 ==> r == Pick(total, Min(12, total), Cursor(0, 0), codes)
    ensures r.Chosen? ==> 0 <= r.index < total
  {
    if total == 0 {
      return Cancelled;
    }
    var selected := 0;
    var offset := 0;
    var pageSize := 12;
    var p := 0;
    ghost var page := Min(12, total);
    while p < |codes|
      invariant 0 <= p <= |codes|
      invariant pageSize == 12 || pageSize == page
      invariant p > 0 ==> pageSize == page
      invariant Visible(Cursor(selected, offset), total, page)
      invariant Pick(total, page, Cursor(selected, offset), codes[p..]) == Pick(total, page, Cursor(0, 0), codes)
      decreases |codes| - p
    {
      if pageSize > total {
        pageSize := total;
      }
      if offset < 0 {
        offset := 0;
      }
      if offset > total - pageSize {
        offset := total - pageSize;
      }
      var rest := codes[p..];
      var ch := codes[p];
      if ch == 'q' as int || ch == 'Q' as int {
        return Cancelled;
      } else if ch == 13 {
        return Chosen(selected);
      } else if ch == 224 || ch == 0 {
        if p + 1 == |codes| {
          return Waiting;
        }
        var arrow := codes[p + 1];
        assert rest[2..] == codes[p + 2..];
        ghost var before := Cursor(selected, offset);
        if arrow == 72 {
          if selected > 0 {
            selected := selected - 1;
            if selected < offset {
              offset := selected;
            }
          } else {
            selected := total - 1;
            if total > pageSize {
              offset := total - pageSize;
            } else {
              offset := 0;
            }
          }
          assert Cursor(selected, offset) == Up(before, total, page);
        } else if arrow == 80 {
          if selected < total - 1 {
            selected := selected + 1;
            if selected >= offset + pageSize {
              offset := selected - pageSize + 1;
            }
          } else {
            selected := 0;
            offset := 0;
          }
          assert Cursor(selected, offset) == Down(before, total, page);
        }
        p := p + 2;
      } else {
        assert rest[1..] == codes[p + 1..];
        p := p + 1;
      }
    }
    return Waiting;
  }

  /** Down undoes Up and Up undoes Down, as far as the highlighted item goes. */
  lemma UpDownInverse(c: Cursor, total: int, page: int)
    requires Visible(c, total, page)
    ensures Down(Up(c, total, page), total, page).selected == c.selected
    ensures Up(Down(c, total, page), total, page).selected == c.selected
  {
  }
}
