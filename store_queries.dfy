/**
 * What the queries of DataStore.h compute, as functions of the arena: the
 * records of a sector and their statistics, the text of compare_vs_sector,
 * the records in a P/E range, a metric of a record, and the handles
 * recommend ranks.
 */
module StoreQueries {
  import opened Wrappers
  import opened Stocks
  import opened Ranking
  import opened StoreKeys
  import opened StoreIndex

  /* ---------------- filter_by_sector ---------------- */

  /** The normalized sector of every record of the arena, in arena order. */
  function ArenaSectors(stocks: seq<Stock>): (ks: seq<string>)
    ensures |ks| == |stocks|
  {
    RangeInArena(|stocks|);
    SectorKeys(stocks, Range(|stocks|))
  }

  lemma ArenaSectorsAt(stocks: seq<Stock>, x: nat)
    requires x < |stocks|
    ensures ArenaSectors(stocks)[x] == Key(stocks[x].sector)
  {
    RangeInArena(|stocks|);
    SectorKeysAt(stocks, Range(|stocks|), x);
    RangeAt(|stocks|, x);
  }

  /**
   * filter_by_sector(key): the records whose normalized sector is key, in
   * arena order; the same list the sectors index files under key once every
   * record has been inserted in order.
   */
  function SectorRecords(stocks: seq<Stock>, key: string): (r: seq<nat>)
  {
    Members(ArenaSectors(stocks), Range(|stocks|), key)
  }

  /** Positions listed by Members over the first i positions, one position at a time. */
  lemma MembersStep<K>(ks: seq<K>, k: K, i: nat)
    requires i < |ks|
    ensures Members(ks[..i + 1], Range(i + 1), k) ==
      Members(ks[..i], Range(i), k) + (if ks[i] == k then [i] else [])
  {
    assert ks[..i + 1][..i] == ks[..i];
    assert Range(i + 1)[..i] == Range(i);
  }

  /** A record is listed iff it is in the arena and its sector normalizes to key. */
  lemma SectorRecordsMeaning(stocks: seq<Stock>, key: string, x: int)
    ensures x in SectorRecords(stocks, key) <==> 0 <= x < |stocks| && Key(stocks[x].sector) == key
  {
    MembersOfRange(ArenaSectors(stocks), key, x);
    if 0 <= x < |stocks| {
      ArenaSectorsAt(stocks, x);
    }
  }

  /** The records come in strictly increasing arena order, so none is listed twice. */
  lemma SectorRecordsIncreasing(stocks: seq<Stock>, key: string)
    ensures var r := SectorRecords(stocks, key);
      forall a, b :: 0 <= a < b < |r| ==> r[a] < r[b]
  {
    var ks := ArenaSectors(stocks);
    MembersOfRangeIncreasing(ks, key);
    assert SectorRecords(stocks, key) == Members(ks, Range(|ks|), key);
  }

  /** Every listed record is a record of the arena. */
  lemma SectorRecordsInArena(stocks: seq<Stock>, key: string)
    ensures InArena(SectorRecords(stocks, key), |stocks|)
  {
    var r := SectorRecords(stocks, key);
    forall j | 0 <= j < |r|
      ensures r[j] < |stocks|
    {
      SectorRecordsMeaning(stocks, key, r[j]);
    }
  }

  /* ---------------- sector_stats ---------------- */

  /** sector_stats' result; count is the number of records of the sector. */
  datatype SectorStats = SectorStats(avgPe: real, avgRoe: real, avgDivYield: real,
                                     minPrice: real, maxPrice: real, count: int)

  /** sum / count when count is positive, 0 otherwise. */
  function Average(sum: real, count: nat): real
  {
    if count > 0 then sum / count as real else 0.0
  }

  /**
   * sector_stats(key): over the records of the sector, the P/E, ROE and
   * dividend yield averages, the running price minimum from 1e18 and
   * maximum from -1e18, and the count.
   */
  function SectorSummary(stocks: seq<Stock>, key: string): SectorStats
  {
    SectorRecordsInArena(stocks, key);
    var idx := SectorRecords(stocks, key);
    var c := |idx|;
    SectorStats(Average(Total(stocks, idx, 1), c), Average(Total(stocks, idx, 3), c),
                Average(Total(stocks, idx, 7), c), MinPrice(stocks, idx), MaxPrice(stocks, idx), c)
  }

  /** The running values of sector_stats' scan: three sums, the two price extremes, the count. */
  datatype Running = Running(pe: real, roe: real, div: real, minPrice: real, maxPrice: real, count: nat)

  /** The running values after scanning the listed records. */
  function Accumulated(stocks: seq<Stock>, idx: seq<nat>): Running
    requires InArena(idx, |stocks|)
  {
    Running(Total(stocks, idx, 1), Total(stocks, idx, 3), Total(stocks, idx, 7),
            MinPrice(stocks, idx), MaxPrice(stocks, idx), |idx|)
  }

  /** One more record in the scan: each sum grows by its metric, each extreme is updated. */
  lemma AccumulatedStep(stocks: seq<Stock>, idx: seq<nat>, i: nat)
    requires InArena(idx, |stocks|) && i < |stocks|
    ensures InArena(idx + [i], |stocks|)
    ensures Accumulated(stocks, idx + [i]) == Next(Accumulated(stocks, idx), stocks[i])
  {
    assert (idx + [i])[..|idx|] == idx;
  }

  /** sector_stats' loop body on a record of the sector. */
  function Next(a: Running, s: Stock): Running
  {
    Running(a.pe + s.pe, a.roe + s.roe, a.div + s.dividendYield,
            if s.price < a.minPrice then s.price else a.minPrice,
            if s.price > a.maxPrice then s.price else a.maxPrice, a.count + 1)
  }

  /**
   * The running values after sector_stats' loop has looked at records 0 .. n - 1,
   * whose normalised sectors are ks.
   */
  function Scanned(stocks: seq<Stock>, ks: seq<string>, key: string, n: nat): Running
    requires n <= |stocks| == |ks|
  {
    if n == 0 then Running(0.0, 0.0, 0.0, PriceCeiling, -PriceCeiling, 0)
    else if ks[n - 1] == key then Next(Scanned(stocks, ks, key, n - 1), stocks[n - 1])
    else Scanned(stocks, ks, key, n - 1)
  }

  /** The scan so far has accumulated exactly the sector's records among the first n. */
  lemma {:induction false} ScannedIsAccumulated(stocks: seq<Stock>, ks: seq<string>, key: string, n: nat)
    requires n <= |stocks| == |ks|
    ensures InArena(Members(ks[..n], Range(n), key), |stocks|)
    ensures Scanned(stocks, ks, key, n) == Accumulated(stocks, Members(ks[..n], Range(n), key))
  {
    if n > 0 {
      var before := Members(ks[..n - 1], Range(n - 1), key);
      ScannedIsAccumulated(stocks, ks, key, n - 1);
      MembersStep(ks, key, n - 1);
      if ks[n - 1] == key {
        AccumulatedStep(stocks, before, n - 1);
        assert Members(ks[..n], Range(n), key) == before + [n - 1];
      } else {
        assert Members(ks[..n], Range(n), key) == before;
      }
    }
  }

  /** Averaging the finished scan over the whole arena gives sector_stats' result. */
  lemma ScanGivesSummary(stocks: seq<Stock>, key: string)
    ensures var a := Scanned(stocks, ArenaSectors(stocks), key, |stocks|);
      SectorSummary(stocks, key) ==
        SectorStats(Average(a.pe, a.count), Average(a.roe, a.count), Average(a.div, a.count),
                    a.minPrice, a.maxPrice, a.count)
  {
    var ks := ArenaSectors(stocks);
    ScannedIsAccumulated(stocks, ks, key, |stocks|);
    assert ks[..|stocks|] == ks;
  }

  /** A sector with no record keeps the initial values: zero averages and the two sentinels. */
  lemma EmptySectorSummary(stocks: seq<Stock>, key: string)
    requires forall x :: 0 <= x < |stocks| ==> Key(stocks[x].sector) != key
    ensures SectorSummary(stocks, key) == SectorStats(0.0, 0.0, 0.0, PriceCeiling, -PriceCeiling, 0)
  {
    var idx := SectorRecords(stocks, key);
    if idx != [] {
      SectorRecordsMeaning(stocks, key, idx[0]);
    }
  }

  /** The sector of any record has a positive count: that record itself is counted. */
  lemma OwnSectorCounted(stocks: seq<Stock>, i: nat)
    requires i < |stocks|
    ensures SectorSummary(stocks, Key(stocks[i].sector)).count >= 1
  {
    SectorRecordsMeaning(stocks, Key(stocks[i].sector), i);
  }

  /** A sum of values that all lie in [lo, hi] lies between count * lo and count * hi. */
  lemma {:induction false} TotalWithin(stocks: seq<Stock>, idx: seq<nat>, id: int, lo: real, hi: real)
    requires InArena(idx, |stocks|)
    requires forall j :: 0 <= j < |idx| ==> lo <= FeatureValue(stocks[idx[j]], id) <= hi
    ensures |idx| as real * lo <= Total(stocks, idx, id) <= |idx| as real * hi
  {
    if idx != [] {
      TotalWithin(stocks, idx[..|idx| - 1], id, lo, hi);
    }
  }

  /** An average of values in [lo, hi] lies in [lo, hi]. */
  lemma AverageWithin(sum: real, count: nat, lo: real, hi: real)
    requires count > 0 && count as real * lo <= sum <= count as real * hi
    ensures lo <= Average(sum, count) <= hi
  {
    var c := count as real;
    assert sum / c * c == sum;
    if sum / c < lo {
      assert sum / c * c < lo * c;
    }
    if sum / c > hi {
      assert sum / c * c > hi * c;
    }
  }

  /** When every record of a non-empty sector has its P/E in [lo, hi], so has the sector's average P/E. */
  lemma SectorAverageWithin(stocks: seq<Stock>, key: string, lo: real, hi: real)
    requires SectorSummary(stocks, key).count > 0
    requires forall x :: 0 <= x < |stocks| && Key(stocks[x].sector) == key ==> lo <= stocks[x].pe <= hi
    ensures lo <= SectorSummary(stocks, key).avgPe <= hi
  {
    var idx := SectorRecords(stocks, key);
    SectorRecordsInArena(stocks, key);
    assert SectorSummary(stocks, key).avgPe == Average(Total(stocks, idx, 1), |idx|) && |idx| > 0;
    SectorPeWithin(stocks, key, lo, hi);
    MeanWithin(stocks, idx, 1, lo, hi);
  }

  /** The average of values that all lie in [lo, hi] lies in [lo, hi]. */
  lemma MeanWithin(stocks: seq<Stock>, idx: seq<nat>, id: int, lo: real, hi: real)
    requires InArena(idx, |stocks|) && |idx| > 0
    requires forall j :: 0 <= j < |idx| ==> lo <= FeatureValue(stocks[idx[j]], id) <= hi
    ensures lo <= Average(Total(stocks, idx, id), |idx|) <= hi
  {
    TotalWithin(stocks, idx, id, lo, hi);
    AverageWithin(Total(stocks, idx, id), |idx|, lo, hi);
  }

  /** The P/E bound on the sector's records, read through the record list. */
  lemma SectorPeWithin(stocks: seq<Stock>, key: string, lo: real, hi: real)
    requires forall x :: 0 <= x < |stocks| && Key(stocks[x].sector) == key ==> lo <= stocks[x].pe <= hi
    ensures var idx := SectorRecords(stocks, key);
      InArena(idx, |stocks|) &&
      forall j :: 0 <= j < |idx| ==> lo <= FeatureValue(stocks[idx[j]], 1) <= hi
  {
    var idx := SectorRecords(stocks, key);
    SectorRecordsInArena(stocks, key);
    forall j | 0 <= j < |idx|
      ensures lo <= FeatureValue(stocks[idx[j]], 1) <= hi
    {
      SectorRecordsMeaning(stocks, key, idx[j]);
    }
  }

  /**
   * In a non-empty sector whose prices lie strictly between the two
   * sentinels, the price extremes are prices of the sector that bound all
   * of its prices.
   */
  lemma SectorPriceBounds(stocks: seq<Stock>, key: string)
    requires SectorSummary(stocks, key).count > 0
    requires forall x :: 0 <= x < |stocks| && Key(stocks[x].sector) == key ==>
      -PriceCeiling < stocks[x].price < PriceCeiling
    ensures var st := SectorSummary(stocks, key);
      (forall x :: 0 <= x < |stocks| && Key(stocks[x].sector) == key ==>
         st.minPrice <= stocks[x].price <= st.maxPrice) &&
      (exists x :: 0 <= x < |stocks| && Key(stocks[x].sector) == key && stocks[x].price == st.minPrice) &&
      (exists x :: 0 <= x < |stocks| && Key(stocks[x].sector) == key && stocks[x].price == st.maxPrice)
  {
    var idx := SectorRecords(stocks, key);
    SectorRecordsInArena(stocks, key);
    forall j | 0 <= j < |idx|
      ensures -PriceCeiling < stocks[idx[j]].price < PriceCeiling
    {
      SectorRecordsMeaning(stocks, key, idx[j]);
    }
    PriceBounds(stocks, idx);
    forall x | 0 <= x < |stocks| && Key(stocks[x].sector) == key
      ensures MinPrice(stocks, idx) <= stocks[x].price <= MaxPrice(stocks, idx)
    {
      SectorRecordsMeaning(stocks, key, x);
      var j :| 0 <= j < |idx| && idx[j] == x;
    }
    var jmin :| 0 <= jmin < |idx| && stocks[idx[jmin]].price == MinPrice(stocks, idx);
    var jmax :| 0 <= jmax < |idx| && stocks[idx[jmax]].price == MaxPrice(stocks, idx);
    SectorRecordsMeaning(stocks, key, idx[jmin]);
    SectorRecordsMeaning(stocks, key, idx[jmax]);
  }

  /* ---------------- compare_vs_sector ---------------- */

  /** One verdict of compare_vs_sector. */
  function Side(below: bool): string
  {
    if below then "below sector avg" else "above sector avg"
  }

  /** The text compare_vs_sector builds for a record against its sector's statistics. */
  function CompareText(s: Stock, st: SectorStats): string
  {
    if st.count == 0 then "Sector data unavailable"
    else
      "P/E: " + Side(s.pe < st.avgPe) + "; ROE: " + Side(s.roe < st.avgRoe) +
      "; Dividend Yield: " + Side(s.dividendYield < st.avgDivYield)
  }

  /** A verdict placed after p reads "below" at p's length exactly when it is the below verdict. */
  lemma VerdictAt(p: string, below: bool, q: string)
    ensures |p + Side(below) + q| == |p| + 16 + |q|
    ensures (p + Side(below) + q)[|p|..|p| + 5] == "below" <==> below
  {
    SideField(below);
    var v := Side(below);
    assert (p + v + q)[|p|..|p| + 5] == v[..5];
  }

  /** The P/E verdict starts at index 5. */
  lemma PeVerdict(s: Stock, st: SectorStats)
    requires st.count != 0
    ensures var r := CompareText(s, st);
      |r| == 78 && (r[5..10] == "below" <==> s.pe < st.avgPe)
  {
    var a, b, c := Side(s.pe < st.avgPe), Side(s.roe < st.avgRoe), Side(s.dividendYield < st.avgDivYield);
    SideField(s.roe < st.avgRoe);
    SideField(s.dividendYield < st.avgDivYield);
    var q := "; ROE: " + b + "; Dividend Yield: " + c;
    assert CompareText(s, st) == "P/E: " + a + q;
    VerdictAt("P/E: ", s.pe < st.avgPe, q);
  }

  /** The ROE verdict starts at index 28. */
  lemma RoeVerdict(s: Stock, st: SectorStats)
    requires st.count != 0
    ensures var r := CompareText(s, st);
      |r| == 78 && (r[28..33] == "below" <==> s.roe < st.avgRoe)
  {
    var a, b, c := Side(s.pe < st.avgPe), Side(s.roe < st.avgRoe), Side(s.dividendYield < st.avgDivYield);
    SideField(s.pe < st.avgPe);
    SideField(s.dividendYield < st.avgDivYield);
    var p := "P/E: " + a + "; ROE: ";
    var q := "; Dividend Yield: " + c;
    assert CompareText(s, st) == p + b + q;
    VerdictAt(p, s.roe < st.avgRoe, q);
  }

  /** The dividend yield verdict starts at index 62. */
  lemma DivVerdict(s: Stock, st: SectorStats)
    requires st.count != 0
    ensures var r := CompareText(s, st);
      |r| == 78 && (r[62..67] == "below" <==> s.dividendYield < st.avgDivYield)
  {
    var a, b, c := Side(s.pe < st.avgPe), Side(s.roe < st.avgRoe), Side(s.dividendYield < st.avgDivYield);
    SideField(s.pe < st.avgPe);
    SideField(s.roe < st.avgRoe);
    var p := "P/E: " + a + "; ROE: " + b + "; Dividend Yield: ";
    assert CompareText(s, st) == p + c + "";
    VerdictAt(p, s.dividendYield < st.avgDivYield, "");
  }

  /**
   * The three verdicts sit at fixed places of a 78-character text and can be
   * read back: each says "below" exactly when the record is below the
   * sector's average of that metric.
   */
  lemma CompareTextFields(s: Stock, st: SectorStats)
    requires st.count != 0
    ensures var r := CompareText(s, st);
      |r| == 78 &&
      (r[5..10] == "below" <==> s.pe < st.avgPe) &&
      (r[28..33] == "below" <==> s.roe < st.avgRoe) &&
      (r[62..67] == "below" <==> s.dividendYield < st.avgDivYield)
  {
    PeVerdict(s, st);
    RoeVerdict(s, st);
    DivVerdict(s, st);
  }

  /** A verdict is 16 characters and starts with "below" exactly when it is the below verdict. */
  lemma SideField(below: bool)
    ensures |Side(below)| == 16 && (Side(below)[..5] == "below" <==> below)
  {
    if !below {
      assert Side(below)[0] == 'a';
    }
  }

  /** compare_vs_sector(s): "No stock" for a null record, otherwise the text against its own sector. */
  function Comparison(stocks: seq<Stock>, s: Option<nat>): string
    requires s.Some? ==> s.value < |stocks|
  {
    match s
    case None => "No stock"
    case Some(i) => CompareText(stocks[i], SectorSummary(stocks, Key(stocks[i].sector)))
  }

  /**
   * For a record of the arena the sector is never unavailable, and the P/E
   * verdict reads "below" exactly when the record's P/E is under its sector's
   * average.
   */
  lemma ComparisonOfRecord(stocks: seq<Stock>, i: nat)
    requires i < |stocks|
    ensures var st := SectorSummary(stocks, Key(stocks[i].sector));
      var r := Comparison(stocks, Some(i));
      r != "Sector data unavailable" && r != "No stock" && |r| == 78 &&
      (r[5..10] == "below" <==> stocks[i].pe < st.avgPe)
  {
    var st := SectorSummary(stocks, Key(stocks[i].sector));
    OwnSectorCounted(stocks, i);
    CompareTextFields(stocks[i], st);
  }

  /* ---------------- collect_pe_range and sort_by_metric ---------------- */

  /** The records below n whose P/E lies in [lo, hi], in arena order. */
  function PeRange(stocks: seq<Stock>, lo: real, hi: real, n: nat): (r: seq<nat>)
    requires n <= |stocks|
    ensures |r| <= n && forall j :: 0 <= j < |r| ==> r[j] < n
  {
    if n == 0 then
      []
    else
      var v := stocks[n - 1].pe;
      var step := if v >= lo && v <= hi then [n - 1] else [];
      PeRange(stocks, lo, hi, n - 1) + step
  }

  /** A record is listed iff it lies below n and its P/E is within the closed range. */
  lemma {:induction false} PeRangeMeaning(stocks: seq<Stock>, lo: real, hi: real, n: nat, x: int)
    requires n <= |stocks|
    ensures x in PeRange(stocks, lo, hi, n) <==> 0 <= x < n && lo <= stocks[x].pe <= hi
  {
    if n > 0 {
      PeRangeMeaning(stocks, lo, hi, n - 1, x);
    }
  }

  /** feature_value of a record, read through its position (0 for a position outside the arena). */
  function Metric(stocks: seq<Stock>, id: int, x: nat): real
  {
    if x < |stocks| then FeatureValue(stocks[x], id) else 0.0
  }

  /**
   * A rearrangement of arena positions sorted by P/E through Metric is made of
   * arena positions and sorted by the records' P/E.
   */
  lemma SortedByPe(stocks: seq<Stock>, before: seq<nat>, after: seq<nat>)
    requires InArena(before, |stocks|) && multiset(after) == multiset(before)
    requires forall x, y :: 0 <= x < y < |after| ==> Metric(stocks, 1, after[x]) <= Metric(stocks, 1, after[y])
    ensures InArena(after, |stocks|)
    ensures forall x, y :: 0 <= x < y < |after| ==> stocks[after[x]].pe <= stocks[after[y]].pe
  {
    forall j | 0 <= j < |after|
      ensures after[j] < |stocks|
    {
      assert after[j] in multiset(before);
    }
  }

  /* ---------------- recommend ---------------- */

  /** The RecScore handles recommend pushes for records 0 .. n - 1. */
  function RecKeys(stocks: seq<Stock>, strategy: int, n: nat): (ks: seq<RankKey>)
    requires n <= |stocks|
    ensures |ks| == n
  {
    if n == 0 then [] else RecKeys(stocks, strategy, n - 1) + [RecKey(stocks, strategy, n - 1)]
  }

  /** Every handle is the score handle of the record it refers to, one below n. */
  lemma {:induction false} RecKeysAreHandles(stocks: seq<Stock>, strategy: int, n: nat, x: RankKey)
    requires n <= |stocks| && x in RecKeys(stocks, strategy, n)
    ensures x.ref < n && x == RecKey(stocks, strategy, x.ref)
  {
    if x != RecKey(stocks, strategy, n - 1) {
      RecKeysAreHandles(stocks, strategy, n - 1, x);
    }
  }
}
