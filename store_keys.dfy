/**
 * The value-level helpers of DataStore.h: normalize_key, the three ranking
 * handles (StockPeKey, StockRoeKey, RecScore) built over arena indices,
 * feature_value, distance_between, trend_flag and the scoring of recommend.
 * distance_between ends in sqrt; since sqrt is monotone, the model keeps the
 * squared distance and compares it with the squared threshold.
 */
module StoreKeys {
  import opened Wrappers
  import opened Text
  import opened Stocks
  import opened Ranking

  /* ---------------- normalize_key ---------------- */

  /** The index key of a name or sector: blank-trimmed, then a..z upper-cased. */
  function Key(s: string): string
  {
    Upper(Strip(s, Blank))
  }

  /** normalize_key: the two trim loops, then a copy loop that upper-cases a..z. */
  method NormalizeKey(s: string) returns (out: string)
    ensures out == Key(s)
    ensures |out| <= |s| && forall i :: 0 <= i < |out| ==> !('a' <= out[i] <= 'z')
    ensures out == [] || (out[0] !in Blank && out[|out| - 1] !in Blank)
  {
    var start, end := TrimBounds(s, Blank);
    out := UpperCopy(s, start, end);
    KeyShape(s);
  }

  /** The copy loop of normalize_key: s[start..end] with a..z upper-cased. */
  method UpperCopy(s: string, start: int, end: int) returns (out: string)
    requires 0 <= start <= end + 1 <= |s|
    ensures out == Upper(s[start..end + 1])
  {
    out := "";
    var i := start;
    while i <= end
      invariant start <= i <= end + 1
      invariant out == Upper(s[start..i])
    {
      var c := s[i];
      if 'a' <= c <= 'z' {
        c := (c as int - 'a' as int + 'A' as int) as char;
      }
      assert s[start..i + 1] == s[start..i] + [s[i]];
      out := out + [c];
      i := i + 1;
    }
  }

  /** A key has no lower-case ASCII letter and no blank at either end. */
  lemma KeyShape(s: string)
    ensures |Key(s)| <= |s|
    ensures forall i :: 0 <= i < |Key(s)| ==> !('a' <= Key(s)[i] <= 'z')
    ensures Key(s) == [] || (Key(s)[0] !in Blank && Key(s)[|Key(s)| - 1] !in Blank)
  {
    StripShape(s, Blank);
    var t := Strip(s, Blank);
    forall i | 0 <= i < |t|
      ensures !('a' <= Upper(t)[i] <= 'z')
    {
      CaseMapping(t[i]);
    }
    if t != [] {
      CaseMapping(t[0]);
      CaseMapping(t[|t| - 1]);
    }
  }

  /** normalize_key is idempotent. */
  lemma KeyIdempotent(s: string)
    ensures Key(Key(s)) == Key(s)
  {
    KeyShape(s);
    StripNoEdges(Key(s), Blank);
    CaseIdempotent(Strip(s, Blank));
  }

  /* ---------------- ranking handles ---------------- */

  /** StockPeKey for record i: ordered by P/E, then company name. */
  function PeKey(stocks: seq<Stock>, i: nat): (k: RankKey)
    requires i < |stocks|
    ensures k.ref == i && k.metric == stocks[i].pe && k.name == stocks[i].companyName
  {
    RankKey(stocks[i].pe, stocks[i].companyName, i)
  }

  /** StockRoeKey for record i: ordered by ROE, then company name. */
  function RoeKey(stocks: seq<Stock>, i: nat): (k: RankKey)
    requires i < |stocks|
    ensures k.ref == i && k.metric == stocks[i].roe && k.name == stocks[i].companyName
  {
    RankKey(stocks[i].roe, stocks[i].companyName, i)
  }

  /* ---------------- feature_value and distance_between ---------------- */

  /** feature_value: the metric a quick_sort or sort_by_metric id selects; 0 for an unknown id. */
  function FeatureValue(s: Stock, id: int): (v: real)
    ensures !(0 <= id <= 7) ==> v == 0.0
    ensures id == 1 ==> v == s.pe
  {
    if id == 0 then s.latestEps
    else if id == 1 then s.pe
    else if id == 2 then s.bookValue
    else if id == 3 then s.roe
    else if id == 4 then s.lastDividend
    else if id == 5 then s.price
    else if id == 6 then s.expectedGrowth
    else if id == 7 then s.dividendYield
    else 0.0
  }

  function Square(d: real): real
  {
    d * d
  }

  function DiffSq(x: real, y: real): real
  {
    Square(x - y)
  }

  lemma SquareFacts(d: real)
    ensures Square(d) == Square(-d)
    ensures Square(d) >= 0.0
    ensures Square(d) == 0.0 ==> d == 0.0
    ensures d == 0.0 ==> Square(d) == 0.0
  {
    assert Square(-d) == (-d) * (-d) == d * d;
    if d > 0.0 {
      calc {
        Square(d);
        d * d;
      > 0.0 * d;
        0.0;
      }
    } else if d < 0.0 {
      calc {
        Square(d);
        (-d) * (-d);
      > 0.0 * (-d);
        0.0;
      }
    } else {
      assert d * d == 0.0;
    }
  }

  lemma DiffSqFacts(x: real, y: real)
    ensures DiffSq(x, y) == DiffSq(y, x)
    ensures DiffSq(x, y) >= 0.0 && (DiffSq(x, y) == 0.0 <==> x == y)
  {
    SquareFacts(x - y);
    assert y - x == -(x - y);
  }

  /** The square of distance_between: P/E, ROE, book value, EPS and dividend yield. */
  function DistanceSq(a: Stock, b: Stock): real
  {
    DiffSq(a.pe, b.pe) + DiffSq(a.roe, b.roe) + DiffSq(a.bookValue, b.bookValue) +
    DiffSq(a.latestEps, b.latestEps) + DiffSq(a.dividendYield, b.dividendYield)
  }

  /** The distance is symmetric, non-negative, and zero exactly on equal features. */
  lemma DistanceFacts(a: Stock, b: Stock)
    ensures DistanceSq(a, b) == DistanceSq(b, a) && DistanceSq(a, b) >= 0.0
    ensures DistanceSq(a, b) == 0.0 <==>
      a.pe == b.pe && a.roe == b.roe && a.bookValue == b.bookValue &&
      a.latestEps == b.latestEps && a.dividendYield == b.dividendYield
  {
    DiffSqFacts(a.pe, b.pe);
    DiffSqFacts(a.roe, b.roe);
    DiffSqFacts(a.bookValue, b.bookValue);
    DiffSqFacts(a.latestEps, b.latestEps);
    DiffSqFacts(a.dividendYield, b.dividendYield);
  }

  /** build_similarity_graph's test dist < 0.3, on the squared distance. */
  predicate Close(a: Stock, b: Stock)
  {
    DistanceSq(a, b) < 0.09
  }

  /* ---------------- trend_flag ---------------- */

  /** The vote of trend_flag: expected ROE up, expected P/E down, positive growth. */
  function TrendScore(s: Stock): (score: int)
    ensures -2 <= score <= 3
  {
    (if s.expectedRoe > s.roe then 1 else if s.expectedRoe < s.roe then -1 else 0) +
    (if s.expectedPe < s.pe then 1 else if s.expectedPe > s.pe then -1 else 0) +
    (if s.expectedGrowth > 0.0 then 1 else 0)
  }

  /** trend_flag: "No stock" for a null record, else Improving, Declining or Stable by the vote. */
  function TrendFlag(s: Option<Stock>): (flag: string)
    ensures s.None? <==> flag == "No stock"
    ensures flag in {"No stock", "Improving", "Declining", "Stable"}
  {
    match s
    case None => "No stock"
    case Some(st) =>
      var score := TrendScore(st);
      if score >= 2 then "Improving" else if score <= -1 then "Declining" else "Stable"
  }

  /**
   * What the flags mean: all three signals up is Improving; both
   * expectations worse is Declining; a record whose expectations equal its
   * current figures and that forecasts no growth is Stable.
   */
  lemma TrendCases(s: Stock)
    ensures s.expectedRoe > s.roe && s.expectedPe < s.pe ==> TrendFlag(Some(s)) == "Improving"
    ensures s.expectedRoe < s.roe && s.expectedPe > s.pe ==> TrendFlag(Some(s)) == "Declining"
    ensures s.expectedRoe == s.roe && s.expectedPe == s.pe && s.expectedGrowth <= 0.0 ==> TrendFlag(Some(s)) == "Stable"
    ensures TrendFlag(Some(s)) == "Improving" ==> s.expectedRoe > s.roe || s.expectedPe < s.pe
  {
  }

  /* ---------------- recommend's scoring ---------------- */

  /** The four weights (value, growth, health, dividend) of a strategy id. */
  datatype Weights = Weights(value: real, growth: real, health: real, dividend: real)

  /** 0 growth-heavy, 1 value-heavy, 2 dividend-heavy, 3 and any other id balanced. */
  function StrategyWeights(strategy: int): (w: Weights)
    ensures w.value + w.growth + w.health + w.dividend == 1.0
    ensures w.value > 0.0 && w.growth > 0.0 && w.health > 0.0 && w.dividend > 0.0
    ensures strategy == 0 ==> w.growth == 0.5
    ensures strategy == 1 ==> w.value == 0.5
    ensures strategy == 2 ==> w.dividend == 0.5
    ensures !(0 <= strategy <= 2) ==> w == Weights(0.25, 0.25, 0.25, 0.25)
  {
    if strategy == 0 then Weights(0.1, 0.5, 0.2, 0.2)
    else if strategy == 1 then Weights(0.5, 0.15, 0.2, 0.15)
    else if strategy == 2 then Weights(0.2, 0.1, 0.2, 0.5)
    else Weights(0.25, 0.25, 0.25, 0.25)
  }

  /** 1/pe for a positive P/E, otherwise 0. */
  function ValueScore(s: Stock): (v: real)
    ensures s.pe <= 0.0 ==> v == 0.0
    ensures s.pe > 0.0 ==> v > 0.0 && v * s.pe == 1.0
  {
    if s.pe > 0.0 then 1.0 / s.pe else 0.0
  }

  /** The dividend yield for a positive price, otherwise 0. */
  function DividendScore(s: Stock): (v: real)
    ensures s.price <= 0.0 ==> v == 0.0
    ensures s.price > 0.0 ==> v == s.dividendYield
  {
    if s.price > 0.0 then s.dividendYield else 0.0
  }

  /** The weighted total recommend ranks by. */
  function Score(s: Stock, strategy: int): real
  {
    var w := StrategyWeights(strategy);
    w.value * ValueScore(s) + w.growth * s.expectedGrowth +
    w.health * (s.roe * 0.5 + s.equityToAsset * 0.5) + w.dividend * DividendScore(s)
  }

  /** RecScore for record i: ordered by score, then company name. */
  function RecKey(stocks: seq<Stock>, strategy: int, i: nat): (k: RankKey)
    requires i < |stocks|
    ensures k.ref == i && k.metric == Score(stocks[i], strategy) && k.name == stocks[i].companyName
  {
    RankKey(Score(stocks[i], strategy), stocks[i].companyName, i)
  }

  /**
   * Other things equal, a higher expected growth never lowers the score,
   * and a negative P/E scores like a P/E of 0.
   */
  lemma ScoreMonotoneInGrowth(s: Stock, g: real, strategy: int)
    requires g >= s.expectedGrowth
    ensures Score(s.(expectedGrowth := g), strategy) >= Score(s, strategy)
    ensures s.pe < 0.0 ==> Score(s, strategy) == Score(s.(pe := 0.0), strategy)
  {
    var w := StrategyWeights(strategy);
    assert w.growth * g >= w.growth * s.expectedGrowth;
  }
}
