/**
 * The whitespace trimming and ASCII case mapping that CsvParser::trim,
 * DataStore::normalize_key, UserManager::normalize_username, the e-mail
 * normalisation of User.h and normalize_username in main.cpp each write out
 * with the same two index loops: `start` moves right past whitespace, then
 * `end` moves left past whitespace but not below `start`. The files differ
 * only in which characters count as whitespace, so the set is a parameter.
 */
module Text {

  /** Space, tab, carriage return and line feed. */
  const Blank: set<char> := {' ', '\t', '\r', '\n'}

  /** Space and tab only (main.cpp and the e-mail normalisation). */
  const SpaceTab: set<char> := {' ', '\t'}

  /** How far the `start` loop runs: the number of leading characters in ws. */
  function Lead(s: string, ws: set<char>): (k: nat)
    ensures k <= |s| && (forall i :: 0 <= i < k ==> s[i] in ws) && (k < |s| ==> s[k] !in ws)
    decreases |s|
  {
    if |s| == 0 || s[0] !in ws then 0 else 1 + Lead(s[1..], ws)
  }

  /** Where the `end` loop stops, as an exclusive bound: trailing ws in s[lo..hi] dropped. */
  function TrimEnd(s: string, ws: set<char>, lo: nat, hi: nat): (e: nat)
    requires lo <= hi <= |s|
    ensures lo <= e <= hi
    ensures forall i :: e <= i < hi ==> s[i] in ws
    ensures e > lo ==> s[e - 1] !in ws
    decreases hi
  {
    if hi > lo && s[hi - 1] in ws then TrimEnd(s, ws, lo, hi - 1) else hi
  }

  /** The trimmed string: leading and trailing characters in ws removed. */
  function Strip(s: string, ws: set<char>): (r: string)
  {
    s[Lead(s, ws)..TrimEnd(s, ws, Lead(s, ws), |s|)]
  }

  /**
   * What trimming promises: the result is a contiguous piece of s, everything
   * cut off on either side is whitespace, and the result neither starts nor
   * ends with whitespace.
   */
  lemma StripShape(s: string, ws: set<char>)
    ensures var a, b := Lead(s, ws), TrimEnd(s, ws, Lead(s, ws), |s|);
      0 <= a <= b <= |s| && Strip(s, ws) == s[a..b] &&
      (forall i :: 0 <= i < a ==> s[i] in ws) && (forall i :: b <= i < |s| ==> s[i] in ws)
    ensures var r := Strip(s, ws); r == [] || (r[0] !in ws && r[|r| - 1] !in ws)
  {
  }

  /** Trimming gives "" exactly when every character is whitespace. */
  lemma StripEmpty(s: string, ws: set<char>)
    ensures Strip(s, ws) == [] <==> forall i :: 0 <= i < |s| ==> s[i] in ws
  {
    var a := Lead(s, ws);
    var b := TrimEnd(s, ws, a, |s|);
    if Strip(s, ws) == [] {
      assert a == b;
    } else if a < |s| {
      assert s[a] !in ws;
    }
  }

  /** A string whose ends are not whitespace is its own trim. */
  lemma StripNoEdges(s: string, ws: set<char>)
    requires s == [] || (s[0] !in ws && s[|s| - 1] !in ws)
    ensures Strip(s, ws) == s
  {
    if s != [] {
      assert Lead(s, ws) == 0;
      assert TrimEnd(s, ws, 0, |s|) == |s|;
    }
  }

  /** Trimming twice is trimming once. */
  lemma StripIdempotent(s: string, ws: set<char>)
    ensures Strip(Strip(s, ws), ws) == Strip(s, ws)
  {
    StripShape(s, ws);
    StripNoEdges(Strip(s, ws), ws);
  }

  /** One step of the `start` loop: a leading whitespace character counts once. */
  lemma LeadStep(s: string, ws: set<char>, k: nat)
    requires k <= |s|
    ensures k < |s| && s[k] in ws ==> Lead(s[k..], ws) == 1 + Lead(s[k + 1..], ws)
    ensures !(k < |s| && s[k] in ws) ==> Lead(s[k..], ws) == 0
  {
    if k < |s| {
      assert s[k..][0] == s[k] && s[k..][1..] == s[k + 1..];
    }
  }

  /** One step of the `end` loop: a trailing whitespace character is dropped. */
  lemma TrimEndStep(s: string, ws: set<char>, lo: nat, hi: nat)
    requires lo < hi <= |s| && s[hi - 1] in ws
    ensures TrimEnd(s, ws, lo, hi) == TrimEnd(s, ws, lo, hi - 1)
  {
  }

  /**
   * The two loops the sources share: on return, `start` is where the
   * trimmed text begins and `end` is its last index (end < start when
   * nothing is left).
   */
  method TrimBounds(s: string, ws: set<char>) returns (start: int, end: int)
    ensures start == Lead(s, ws) && end + 1 == TrimEnd(s, ws, start, |s|)
    ensures Strip(s, ws) == s[start..end + 1]
  {
    start := SkipLeading(s, ws);
    end := SkipTrailing(s, ws, start);
  }

  /** The `start` loop: it moves right past the leading whitespace. */
  method SkipLeading(s: string, ws: set<char>) returns (start: int)
    ensures start == Lead(s, ws)
  {
    start := 0;
    assert s[0..] == s;
    while start < |s| && s[start] in ws
      invariant 0 <= start <= |s| && Lead(s, ws) == start + Lead(s[start..], ws)
    {
      LeadStep(s, ws, start);
      start := start + 1;
    }
    LeadStep(s, ws, start);
  }

  /** The `end` loop: it moves left past the trailing whitespace, but not below `start`. */
  method SkipTrailing(s: string, ws: set<char>, start: int) returns (end: int)
    requires 0 <= start <= |s|
    ensures end + 1 == TrimEnd(s, ws, start, |s|)
  {
    end := |s| - 1;
    while end >= start && s[end] in ws
      invariant start - 1 <= end <= |s| - 1
      invariant TrimEnd(s, ws, start, |s|) == TrimEnd(s, ws, start, end + 1)
    {
      TrimEndStep(s, ws, start, end + 1);
      end := end - 1;
    }
  }

  /** 'a'..'z' to 'A'..'Z'; every other character unchanged. */
  function UpperChar(c: char): char
  {
    if 'a' <= c <= 'z' then (c as int - 'a' as int + 'A' as int) as char else c
  }

  /** 'A'..'Z' to 'a'..'z'; every other character unchanged. */
  function LowerChar(c: char): char
  {
    if 'A' <= c <= 'Z' then (c as int - 'A' as int + 'a' as int) as char else c
  }

  function Upper(s: string): (r: string)
    ensures |r| == |s| && forall i :: 0 <= i < |s| ==> r[i] == UpperChar(s[i])
  {
    seq(|s|, i requires 0 <= i < |s| => UpperChar(s[i]))
  }

  function Lower(s: string): (r: string)
    ensures |r| == |s| && forall i :: 0 <= i < |s| ==> r[i] == LowerChar(s[i])
  {
    seq(|s|, i requires 0 <= i < |s| => LowerChar(s[i]))
  }

  /** Case mapping leaves no letter of the other case and never touches whitespace. */
  lemma CaseMapping(c: char)
    ensures !('a' <= UpperChar(c) <= 'z') && !('A' <= LowerChar(c) <= 'Z')
    ensures UpperChar(UpperChar(c)) == UpperChar(c) && LowerChar(LowerChar(c)) == LowerChar(c)
    ensures c in Blank ==> UpperChar(c) == c && LowerChar(c) == c
    ensures (UpperChar(c) in Blank <==> c in Blank) && (LowerChar(c) in Blank <==> c in Blank)
  {
  }

  /** Upper and Lower are idempotent. */
  lemma CaseIdempotent(s: string)
    ensures Upper(Upper(s)) == Upper(s) && Lower(Lower(s)) == Lower(s)
  {
    forall i | 0 <= i < |s|
      ensures UpperChar(UpperChar(s[i])) == UpperChar(s[i]) && LowerChar(LowerChar(s[i])) == LowerChar(s[i])
    {
      CaseMapping(s[i]);
    }
  }

  /** Concatenation regroups freely. */
  lemma AppendAssoc<T>(a: seq<T>, b: seq<T>, c: seq<T>)
    ensures a + (b + c) == (a + b) + c
  {
  }
}
