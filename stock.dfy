/**
 * Stock.h: one company-year record. Stock is a plain struct that the arena,
 * the parser and the synthetic-year loop copy by value, so it is a datatype
 * here, and validate/compute_derived, which assign fields of one copy in
 * place, return the updated copy. Monetary and ratio fields are reals.
 */
module Stocks {

  datatype Stock = Stock(
    companyName: string,
    sector: string,
    year: int,
    price: real,
    latestEps: real,
    epsLastQuarter: real,
    lastAnnualEps: real,
    pe: real,
    expectedPe: real,
    expectedGrowth: real,
    peg: real,
    bookValue: real,
    expectedBookValue: real,
    pb: real,
    expectedPb: real,
    roe: real,
    expectedRoe: real,
    equityToAsset: real,
    roa: real,
    lastDividend: real,
    expectedDividend: real,
    dividendYield: real,
    pegRatio: real,
    bookValueGrowth: real,
    assetReturn: real,
    valid: bool)

  /** Stock(): empty strings, year 0, every number 0 and valid false. */
  function Default(): (s: Stock)
    ensures s.companyName == "" && s.sector == "" && s.year == 0 && !s.valid
    ensures s.price == 0.0 && s.pe == 0.0 && s.roe == 0.0 && s.dividendYield == 0.0
  {
    Stock("", "", 0, 0.0, 0.0, 0.0, 0.0, 0.0, 0.0, 0.0, 0.0, 0.0, 0.0, 0.0, 0.0,
          0.0, 0.0, 0.0, 0.0, 0.0, 0.0, 0.0, 0.0, 0.0, 0.0, false)
  }

  /** The acceptance test of validate. */
  predicate Acceptable(s: Stock)
  {
    s.price > 0.0 && 0.0 <= s.pe <= 2000.0 && -100.0 <= s.roe <= 100.0 &&
    |s.companyName| > 0 && |s.sector| > 0
  }

  /**
   * validate: sets `valid` to true, then clears it for each failed check:
   * a non-positive price, P/E outside [0, 2000], ROE outside [-100, 100],
   * an empty name, an empty sector.
   */
  function Validate(s: Stock): (r: Stock)
    ensures r == s.(valid := r.valid)
    ensures r.valid <==> (s.price > 0.0 && 0.0 <= s.pe <= 2000.0 && -100.0 <= s.roe <= 100.0 &&
                          s.companyName != "" && s.sector != "")
  {
    var v0 := true;
    var v1 := if s.price <= 0.0 then false else v0;
    var v2 := if s.pe < 0.0 || s.pe > 2000.0 then false else v1;
    var v3 := if s.roe < -100.0 || s.roe > 100.0 then false else v2;
    var v4 := if |s.companyName| == 0 then false else v3;
    var v5 := if |s.sector| == 0 then false else v4;
    s.(valid := v5)
  }

  /** validate looks only at the data, so running it again changes nothing. */
  lemma ValidateIdempotent(s: Stock)
    ensures Validate(Validate(s)) == Validate(s)
    ensures Validate(s).valid == Acceptable(s)
  {
  }

  /**
   * compute_derived: the dividend yield in percent (0 unless the price is
   * positive and the last dividend non-zero), P/E over expected growth (0 for
   * zero growth), the relative book-value growth (0 for zero book value) and
   * ROE times equity-to-asset.
   */
  function ComputeDerived(s: Stock): (r: Stock)
    ensures r == s.(dividendYield := r.dividendYield, pegRatio := r.pegRatio,
                    bookValueGrowth := r.bookValueGrowth, assetReturn := r.assetReturn)
    ensures !(s.price > 0.0 && s.lastDividend != 0.0) ==> r.dividendYield == 0.0
    ensures s.price > 0.0 && s.lastDividend != 0.0 ==> r.dividendYield * s.price == s.lastDividend * 100.0
    ensures s.expectedGrowth == 0.0 ==> r.pegRatio == 0.0
    ensures s.expectedGrowth != 0.0 ==> r.pegRatio * s.expectedGrowth == s.pe
    ensures s.bookValue == 0.0 ==> r.bookValueGrowth == 0.0
    ensures s.bookValue != 0.0 ==> r.bookValueGrowth * s.bookValue == s.expectedBookValue - s.bookValue
    ensures r.assetReturn == s.roe * s.equityToAsset
  {
    var dy := if s.price > 0.0 && s.lastDividend != 0.0 then (s.lastDividend / s.price) * 100.0 else 0.0;
    var pg := if s.expectedGrowth != 0.0 then s.pe / s.expectedGrowth else 0.0;
    var bg := if s.bookValue != 0.0 then (s.expectedBookValue - s.bookValue) / s.bookValue else 0.0;
    s.(dividendYield := dy, pegRatio := pg, bookValueGrowth := bg, assetReturn := s.roe * s.equityToAsset)
  }

  /** The two steps touch disjoint fields: validity is decided before and after alike. */
  lemma DerivedKeepsValidity(s: Stock)
    ensures Validate(ComputeDerived(s)).valid == Validate(s).valid
    ensures ComputeDerived(Validate(s)) == Validate(ComputeDerived(s))
  {
  }

  /** A default-constructed record never passes validate (its price is 0). */
  lemma DefaultRejected()
    ensures !Validate(Default()).valid
  {
  }
}
