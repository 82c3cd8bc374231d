/**
 * The ranking handles of the index engine (StockPeKey, StockRoeKey and RecScore
 * in DataStore.h): a metric, the company name used to break ties, and the
 * arena index of the record. The handle caches the two fields it is ordered
 * by; records never change after loading, so the cache cannot go stale.
 */
module Ranking {

  /** std::string operator<: lexicographic on characters, a proper prefix first. */
  predicate StrLess(a: string, b: string)
    decreases |a|
  {
    if |a| == 0 then |b| > 0
    else if |b| == 0 then false
    else if a[0] < b[0] then true
    else if b[0] < a[0] then false
    else StrLess(a[1..], b[1..])
  }

  lemma {:induction false} StrLessIrreflexive(a: string)
    ensures !StrLess(a, a)
    decreases |a|
  {
    if |a| > 0 { StrLessIrreflexive(a[1..]); }
  }

  lemma {:induction false} StrLessTransitive(a: string, b: string, c: string)
    requires StrLess(a, b) && StrLess(b, c)
    ensures StrLess(a, c)
    decreases |a|
  {
    if |a| > 0 && |b| > 0 && |c| > 0 && a[0] == b[0] == c[0] {
      StrLessTransitive(a[1..], b[1..], c[1..]);
    }
  }

  lemma {:induction false} StrLessTotal(a: string, b: string)
    ensures a == b || StrLess(a, b) || StrLess(b, a)
    decreases |a|
  {
    if |a| > 0 && |b| > 0 && a[0] == b[0] {
      StrLessTotal(a[1..], b[1..]);
      if a[1..] == b[1..] {
        assert a == [a[0]] + a[1..] && b == [b[0]] + b[1..];
      }
    }
  }

  lemma {:induction false} StrLessAsymmetric(a: string, b: string)
    ensures !(StrLess(a, b) && StrLess(b, a))
  {
    if StrLess(a, b) && StrLess(b, a) {
      StrLessTransitive(a, b, a);
      StrLessIrreflexive(a);
    }
  }

  datatype RankKey = RankKey(metric: real, name: string, ref: nat)

  /** operator< of the handles: by metric, then by company name. */
  predicate Less(a: RankKey, b: RankKey)
  {
    a.metric < b.metric || (a.metric == b.metric && StrLess(a.name, b.name))
  }

  /** Neither handle is < the other: same metric and same company name. */
  predicate Equiv(a: RankKey, b: RankKey)
  {
    a.metric == b.metric && a.name == b.name
  }

  lemma LessIrreflexive(a: RankKey)
    ensures !Less(a, a)
  {
    StrLessIrreflexive(a.name);
  }

  lemma LessTransitive(a: RankKey, b: RankKey, c: RankKey)
    requires Less(a, b) && Less(b, c)
    ensures Less(a, c)
  {
    if a.metric == b.metric == c.metric {
      StrLessTransitive(a.name, b.name, c.name);
    }
  }

  /** Exactly one of a < b, b < a and "equivalent" holds. */
  lemma LessTrichotomy(a: RankKey, b: RankKey)
    ensures Less(a, b) || Less(b, a) || Equiv(a, b)
    ensures !(Less(a, b) && Less(b, a))
    ensures Equiv(a, b) ==> !Less(a, b) && !Less(b, a)
  {
    StrLessTotal(a.name, b.name);
    StrLessAsymmetric(a.name, b.name);
    StrLessIrreflexive(a.name);
  }

  /** Equivalent handles are ordered alike against every third handle. */
  lemma LessRespectsEquiv(a: RankKey, b: RankKey, c: RankKey)
    requires Equiv(a, b)
    ensures Less(a, c) == Less(b, c) && Less(c, a) == Less(c, b)
  {
  }

  /** "Not after" (operator<= read as !(b < a)) is transitive. */
  lemma NotLessTransitive(a: RankKey, b: RankKey, c: RankKey)
    requires !Less(b, a) && !Less(c, b)
    ensures !Less(c, a)
  {
    LessTrichotomy(a, b);
    LessTrichotomy(b, c);
    if Less(c, a) {
      if Less(a, b) {
        LessTransitive(c, a, b);
        LessTrichotomy(b, c);
      } else {
        assert Equiv(a, b);
        LessRespectsEquiv(a, b, c);
        LessTrichotomy(b, c);
      }
    }
  }
}
