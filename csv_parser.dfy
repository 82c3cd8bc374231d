/**
 * CsvParser.h: the character loops of split, trim and remove_commas, the
 * empty-token rule of to_double, and the row rules of parse. The file stream
 * becomes the sequence of its lines, the numeric extraction of
 * std::istringstream becomes the parameter `read` (None when the stream
 * fails), and the rand()-driven growth factors of the synthetic years become
 * the parameter `noise`: noise(i, k) are the factors drawn for the data line
 * at index i and year offset k. parse draws fresh values for every accepted
 * line and year, so any run of parse is one choice of this function.
 */
module CsvParsing {
  import opened Wrappers
  import opened Text
  import opened Stocks

  /** Occurrences of c in s. */
  function CountChar(s: string, c: char): (n: nat)
    ensures n <= |s|
    decreases |s|
  {
    if |s| == 0 then 0 else CountChar(s[..|s| - 1], c) + (if s[|s| - 1] == c then 1 else 0)
  }

  /** split: the pieces between commas, built one character at a time as the loop does. */
  function Split(s: string): (ts: seq<string>)
    ensures |ts| >= 1
    decreases |s|
  {
    if |s| == 0 then [""]
    else
      var ts := Split(s[..|s| - 1]);
      var c := s[|s| - 1];
      if c == ',' then ts + [""] else ts[..|ts| - 1] + [ts[|ts| - 1] + [c]]
  }

  /** One token per comma plus one, and no token holds a comma. */
  lemma {:induction false} SplitShape(s: string)
    ensures |Split(s)| == CountChar(s, ',') + 1
    ensures forall k :: 0 <= k < |Split(s)| ==> ',' !in Split(s)[k]
    decreases |s|
  {
    if |s| > 0 {
      var p := s[..|s| - 1];
      var c := s[|s| - 1];
      SplitShape(p);
      var ts := Split(p);
      if c != ',' {
        var k := |ts| - 1;
        assert ',' !in ts[k] + [c];
        var us := ts[..k] + [ts[k] + [c]];
        assert forall j :: 0 <= j < k ==> us[j] == ts[j];
      }
    }
  }

  /** The tokens put back together with a comma between neighbours. */
  function Join(ts: seq<string>): string
    requires |ts| >= 1
    decreases |ts|
  {
    if |ts| == 1 then ts[0] else Join(ts[..|ts| - 1]) + [','] + ts[|ts| - 1]
  }

  /** Join on one more token. */
  lemma JoinSnoc(ts: seq<string>, t: string)
    requires |ts| >= 1
    ensures Join(ts + [t]) == Join(ts) + [','] + t
  {
    assert (ts + [t])[..|ts|] == ts;
  }

  /** JoinSplit one step on, when the new character is a comma. */
  lemma JoinSplitComma(s: string)
    requires |s| > 0 && s[|s| - 1] == ','
    requires Join(Split(s[..|s| - 1])) == s[..|s| - 1]
    ensures Join(Split(s)) == s
  {
    var p := s[..|s| - 1];
    var ts := Split(p);
    assert Split(s) == ts + [""];
    JoinSnoc(ts, "");
    assert p + [','] + "" == p + [','];
    Unsnoc(s);
  }

  /** JoinSplit one step on, when the new character extends the last token. */
  lemma JoinSplitOther(s: string)
    requires |s| > 0 && s[|s| - 1] != ','
    requires Join(Split(s[..|s| - 1])) == s[..|s| - 1]
    ensures Join(Split(s)) == s
  {
    var ts := Split(s[..|s| - 1]);
    var k := |ts| - 1;
    var front, last := ts[..k], ts[k];
    Unsnoc(ts);
    assert Split(s) == front + [last + [s[|s| - 1]]];
    JoinExtend(ts, front, last, s[|s| - 1]);
    Unsnoc(s);
  }

  /** Extending the last token extends the join by the same character. */
  lemma JoinExtend(ts: seq<string>, front: seq<string>, last: string, c: char)
    requires ts == front + [last]
    ensures Join(front + [last + [c]]) == Join(ts) + [c]
  {
    if |front| == 0 {
      assert front + [last + [c]] == [last + [c]];
    } else {
      JoinSnoc(front, last);
      JoinSnoc(front, last + [c]);
      AppendAssoc(Join(front) + [','], last, [c]);
    }
  }

  /** Joining what split produced gives back the line. */
  lemma {:induction false} JoinSplit(s: string)
    ensures Join(Split(s)) == s
    decreases |s|
  {
    if |s| > 0 {
      JoinSplit(s[..|s| - 1]);
      if s[|s| - 1] == ',' {
        JoinSplitComma(s);
      } else {
        JoinSplitOther(s);
      }
    }
  }

  /** A character other than a comma extends the last token. */
  lemma SplitExtend(u: string, front: seq<string>, last: string)
    requires |u| > 0 && u[|u| - 1] != ',' && Split(u[..|u| - 1]) == front + [last]
    ensures Split(u) == front + [last + [u[|u| - 1]]]
  {
    var us := front + [last];
    assert us[..|us| - 1] == front && us[|us| - 1] == last;
  }

  /** Appending text without a comma extends the last token. */
  lemma {:induction false} SplitAppend(s: string, t: string)
    requires ',' !in t
    ensures var ts := Split(s); Split(s + t) == ts[..|ts| - 1] + [ts[|ts| - 1] + t]
    decreases |t|
  {
    var ts := Split(s);
    if |t| == 0 {
      assert s + t == s && ts[|ts| - 1] + t == ts[|ts| - 1];
      Unsnoc(ts);
    } else {
      var t' := t[..|t| - 1];
      SplitAppend(s, t');
      var c := t[|t| - 1];
      assert c != ',' by { assert c in t; }
      var u := s + t;
      assert u[..|u| - 1] == s + t' && u[|u| - 1] == c;
      SplitExtend(u, ts[..|ts| - 1], ts[|ts| - 1] + t');
      AppendAssoc(ts[|ts| - 1], t', [c]);
      Unsnoc(t);
    }
  }

  /** Splitting a join of comma-free tokens gives the tokens back. */
  lemma {:induction false} SplitJoin(ts: seq<string>)
    requires |ts| >= 1 && forall k :: 0 <= k < |ts| ==> ',' !in ts[k]
    ensures Split(Join(ts)) == ts
    decreases |ts|
  {
    if |ts| == 1 {
      SplitAppend([], ts[0]);
      assert [] + ts[0] == ts[0];
      assert Split([]) == [""];
      assert [""][..0] + [[] + ts[0]] == ts;
    } else {
      var front := ts[..|ts| - 1];
      SplitJoin(front);
      var s := Join(front) + [','];
      assert s[..|s| - 1] == Join(front);
      assert Split(s) == front + [""];
      SplitAppend(s, ts[|ts| - 1]);
      assert (front + [""])[..|front|] == front && (front + [""])[|front|] == "";
      assert "" + ts[|ts| - 1] == ts[|ts| - 1];
      assert Join(ts) == s + ts[|ts| - 1];
      assert ts == front + [ts[|ts| - 1]];
    }
  }

  /** The split loop: `current` collects characters, a comma closes it. */
  method SplitLine(line: string) returns (tokens: seq<string>)
    ensures tokens == Split(line)
  {
    tokens := [];
    var current: string := "";
    var i := 0;
    while i < |line|
      invariant 0 <= i <= |line| && tokens + [current] == Split(line[..i])
    {
      assert line[..i + 1][..i] == line[..i];
      var c := line[i];
      if c == ',' {
        tokens := tokens + [current];
        current := "";
      } else {
        assert (tokens + [current])[..|tokens|] == tokens;
        current := current + [c];
      }
      i := i + 1;
    }
    tokens := tokens + [current];
    assert line[..|line|] == line;
  }

  /** trim: the two index loops, then "" or the substring. */
  method Trim(s: string) returns (r: string)
    ensures r == Strip(s, Blank)
  {
    var start, end := TrimBounds(s, Blank);
    if end < start {
      return "";
    }
    return s[start..end + 1];
  }

  /** remove_commas: every character except ',' in order. */
  function Uncomma(s: string): (r: string)
    ensures ',' !in r && |r| == |s| - CountChar(s, ',')
    decreases |s|
  {
    if |s| == 0 then ""
    else Uncomma(s[..|s| - 1]) + (if s[|s| - 1] == ',' then "" else [s[|s| - 1]])
  }

  method RemoveCommas(s: string) returns (out: string)
    ensures out == Uncomma(s)
  {
    out := "";
    var i := 0;
    while i < |s|
      invariant 0 <= i <= |s| && out == Uncomma(s[..i])
    {
      assert s[..i + 1][..i] == s[..i];
      if s[i] != ',' {
        out := out + [s[i]];
      }
      i := i + 1;
    }
    assert s[..|s|] == s;
  }

  /** The tokens of split, concatenated. */
  function Flatten(ts: seq<string>): string
    decreases |ts|
  {
    if |ts| == 0 then "" else Flatten(ts[..|ts| - 1]) + ts[|ts| - 1]
  }

  /** Flatten on one more token. */
  lemma FlattenSnoc(ts: seq<string>, t: string)
    ensures Flatten(ts + [t]) == Flatten(ts) + t
  {
    assert (ts + [t])[..|ts|] == ts;
  }

  /** A non-empty sequence is its front plus its last element. */
  lemma Unsnoc<T>(xs: seq<T>)
    requires |xs| > 0
    ensures xs == xs[..|xs| - 1] + [xs[|xs| - 1]]
  {
  }

  /** FlattenSplit one step on, when the new character is a comma. */
  lemma FlattenSplitComma(s: string)
    requires |s| > 0 && s[|s| - 1] == ','
    requires Flatten(Split(s[..|s| - 1])) == Uncomma(s[..|s| - 1])
    ensures Flatten(Split(s)) == Uncomma(s)
  {
    var ts := Split(s[..|s| - 1]);
    assert Uncomma(s) == Uncomma(s[..|s| - 1]);
    assert Split(s) == ts + [""];
    FlattenSnoc(ts, "");
    assert Flatten(ts) + "" == Flatten(ts);
  }

  /** FlattenSplit one step on, when the new character extends the last token. */
  lemma FlattenSplitOther(s: string)
    requires |s| > 0 && s[|s| - 1] != ','
    requires Flatten(Split(s[..|s| - 1])) == Uncomma(s[..|s| - 1])
    ensures Flatten(Split(s)) == Uncomma(s)
  {
    var ts := Split(s[..|s| - 1]);
    var c := s[|s| - 1];
    assert Uncomma(s) == Uncomma(s[..|s| - 1]) + [c];
    var k := |ts| - 1;
    var front, last := ts[..k], ts[k];
    Unsnoc(ts);
    assert Split(s) == front + [last + [c]];
    FlattenExtend(ts, front, last, c);
  }

  /** Extending the last token extends the concatenation by the same character. */
  lemma FlattenExtend(ts: seq<string>, front: seq<string>, last: string, c: char)
    requires ts == front + [last]
    ensures Flatten(front + [last + [c]]) == Flatten(ts) + [c]
  {
    FlattenSnoc(front, last + [c]);
    FlattenSnoc(front, last);
    AppendAssoc(Flatten(front), last, [c]);
  }

  /** remove_commas keeps exactly the characters of split's tokens, in order. */
  lemma {:induction false} FlattenSplit(s: string)
    ensures Flatten(Split(s)) == Uncomma(s)
    decreases |s|
  {
    if |s| > 0 {
      FlattenSplit(s[..|s| - 1]);
      if s[|s| - 1] == ',' {
        FlattenSplitComma(s);
      } else {
        FlattenSplitOther(s);
      }
    }
  }

  /** A comma-free string is left alone. */
  lemma {:induction false} UncommaNoComma(s: string)
    requires ',' !in s
    ensures Uncomma(s) == s
    decreases |s|
  {
    if |s| > 0 {
      UncommaNoComma(s[..|s| - 1]);
      assert s == s[..|s| - 1] + [s[|s| - 1]];
    }
  }

  /** What to_double hands to the stream: the trimmed token without commas. */
  function Cleaned(token: string): string
  {
    Uncomma(Strip(token, Blank))
  }

  /** The value to_double returns: 0 for an empty cleaned token or a failed read. */
  function Number(token: string, read: string -> Option<real>): real
  {
    var c := Cleaned(token);
    if |c| == 0 then 0.0 else match read(c) case None => 0.0 case Some(v) => v
  }

  /** to_double: ok is false for an empty cleaned token and for a failed read. */
  method ToDouble(token: string, read: string -> Option<real>) returns (v: real, ok: bool)
    ensures ok <==> Cleaned(token) != "" && read(Cleaned(token)).Some?
    ensures v == Number(token, read)
    ensures Cleaned(token) == "" ==> !ok && v == 0.0
  {
    var cleaned := Trim(token);
    cleaned := RemoveCommas(cleaned);
    if |cleaned| == 0 {
      return 0.0, false;
    }
    var r := read(cleaned);
    if r.None? {
      return 0.0, false;
    }
    return r.value, true;
  }

  /** The record parse builds from one data row of at least 21 columns. */
  function RowRecord(cols: seq<string>, read: string -> Option<real>): Stock
    requires |cols| >= 21
  {
    Default().(
      price := Number(cols[1], read),
      sector := Strip(cols[2], Blank),
      companyName := Strip(cols[3], Blank),
      year := 2022,
      latestEps := Number(cols[4], read),
      epsLastQuarter := Number(cols[5], read),
      lastAnnualEps := Number(cols[6], read),
      pe := Number(cols[7], read),
      expectedPe := Number(cols[8], read),
      expectedGrowth := Number(cols[9], read),
      peg := Number(cols[10], read),
      bookValue := Number(cols[11], read),
      expectedBookValue := Number(cols[12], read),
      pb := Number(cols[13], read),
      expectedPb := Number(cols[14], read),
      roe := Number(cols[15], read),
      expectedRoe := Number(cols[16], read),
      equityToAsset := Number(cols[17], read),
      roa := Number(cols[18], read),
      lastDividend := Number(cols[19], read),
      expectedDividend := Number(cols[20], read))
  }

  /** A data row is kept when it has at least 21 columns and its record passes validate. */
  function AcceptRow(cols: seq<string>, read: string -> Option<real>): (r: Option<Stock>)
    ensures r.Some? ==> |cols| >= 21 && r.value.valid && r.value.year == 2022 && Acceptable(r.value)
    ensures |cols| < 21 ==> r.None?
  {
    if |cols| < 21 then None
    else
      var s := Validate(RowRecord(cols, read));
      if !s.valid then None else Some(ComputeDerived(s))
  }

  /** The growth factors of one synthetic year: base + noise for price, EPS and P/E. */
  datatype Factors = Factors(price: real, eps: real, pe: real)

  /** The synthetic copy of s for 2022 + k, scaled field by field. */
  function Synthetic(s: Stock, k: int, f: Factors): Stock
  {
    s.(year := 2022 + k,
       price := s.price * f.price,
       latestEps := s.latestEps * f.eps,
       epsLastQuarter := s.epsLastQuarter * f.eps,
       lastAnnualEps := s.lastAnnualEps * f.eps,
       pe := s.pe * f.pe,
       expectedPe := s.expectedPe * f.pe,
       expectedGrowth := s.expectedGrowth * f.eps,
       peg := s.peg * f.pe,
       bookValue := s.bookValue * f.price,
       expectedBookValue := s.expectedBookValue * f.price,
       pb := s.pb * f.pe,
       expectedPb := s.expectedPb * f.pe,
       roe := s.roe * f.eps,
       expectedRoe := s.expectedRoe * f.eps,
       roa := s.roa * f.eps,
       lastDividend := s.lastDividend * f.price,
       expectedDividend := s.expectedDividend * f.price)
  }

  /** parse adds a synthetic record for each of the ten years after 2022. */
  const SyntheticYears: nat := 10

  /** The synthetic records for offsets 1..k that pass validate, in order. */
  function SyntheticRows(s: Stock, noise: int -> Factors, k: nat): seq<Stock>
  {
    if k == 0 then []
    else
      var sy := Validate(Synthetic(s, k, noise(k)));
      SyntheticRows(s, noise, k - 1) + (if sy.valid then [ComputeDerived(sy)] else [])
  }

  /** At most k synthetic records, all valid, with years rising strictly within 2023..2022+k. */
  lemma {:induction false} SyntheticRowsShape(s: Stock, noise: int -> Factors, k: nat)
    ensures var rows := SyntheticRows(s, noise, k);
      |rows| <= k &&
      (forall a :: 0 <= a < |rows| ==> rows[a].valid && 2023 <= rows[a].year <= 2022 + k) &&
      (forall a, b :: 0 <= a < b < |rows| ==> rows[a].year < rows[b].year)
  {
    if k > 0 {
      SyntheticRowsShape(s, noise, k - 1);
    }
  }

  /** The year loop of parse for one accepted base record. */
  method EmitYears(s: Stock, noise: int -> Factors) returns (rows: seq<Stock>)
    ensures rows == SyntheticRows(s, noise, SyntheticYears)
  {
    rows := [];
    var yearOffset := 1;
    while yearOffset <= SyntheticYears
      invariant 1 <= yearOffset <= SyntheticYears + 1 && rows == SyntheticRows(s, noise, yearOffset - 1)
    {
      var sy := Synthetic(s, yearOffset, noise(yearOffset));
      sy := Validate(sy);
      if sy.valid {
        rows := rows + [ComputeDerived(sy)];
      }
      yearOffset := yearOffset + 1;
    }
  }

  /** What one data line contributes: nothing, or its base record and the synthetic years. */
  function LineRecords(line: string, read: string -> Option<real>, noise: int -> Factors): seq<Stock>
  {
    match AcceptRow(Split(line), read)
    case None => []
    case Some(b) => [b] + SyntheticRows(b, noise, SyntheticYears)
  }

  /** The factors drawn for the year offsets of the data line at index i. */
  function LineNoise(noise: (nat, int) -> Factors, i: nat): int -> Factors
  {
    k => noise(i, k)
  }

  /** The records of lines[i..], skipping empty lines and the header (the first non-empty line). */
  function DataRecords(lines: seq<string>, i: nat, seenHeader: bool, read: string -> Option<real>,
                       noise: (nat, int) -> Factors): seq<Stock>
    requires i <= |lines|
    decreases |lines| - i
  {
    if i == |lines| then []
    else if |lines[i]| == 0 then DataRecords(lines, i + 1, seenHeader, read, noise)
    else if !seenHeader then DataRecords(lines, i + 1, true, read, noise)
    else LineRecords(lines[i], read, LineNoise(noise, i)) + DataRecords(lines, i + 1, true, read, noise)
  }

  /** The header: the trimmed columns of the first non-empty line from i on, none if there is none. */
  function Header(lines: seq<string>, i: nat): seq<string>
    requires i <= |lines|
    decreases |lines| - i
  {
    if i == |lines| then []
    else if |lines[i]| == 0 then Header(lines, i + 1)
    else Columns(lines[i])
  }

  /** The trimmed columns of one line. */
  function Columns(line: string): seq<string>
  {
    TrimAll(Split(line))
  }

  /** Every token trimmed. */
  function TrimAll(ts: seq<string>): (r: seq<string>)
    ensures |r| == |ts| && forall k :: 0 <= k < |ts| ==> r[k] == Strip(ts[k], Blank)
    decreases |ts|
  {
    if |ts| == 0 then [] else TrimAll(ts[..|ts| - 1]) + [Strip(ts[|ts| - 1], Blank)]
  }

  /** Every record parse emits is valid and dated 2022..2032. */
  lemma {:induction false} DataRecordsValid(lines: seq<string>, i: nat, seenHeader: bool,
                                            read: string -> Option<real>, noise: (nat, int) -> Factors)
    requires i <= |lines|
    ensures forall s :: s in DataRecords(lines, i, seenHeader, read, noise) ==> s.valid && 2022 <= s.year <= 2032
    decreases |lines| - i
  {
    if i < |lines| {
      DataRecordsValid(lines, i + 1, true, read, noise);
      DataRecordsValid(lines, i + 1, seenHeader, read, noise);
      LineRecordsValid(lines[i], read, LineNoise(noise, i));
    }
  }

  /** What one line contributes is valid and dated 2022..2032. */
  lemma LineRecordsValid(line: string, read: string -> Option<real>, noise: int -> Factors)
    ensures forall s :: s in LineRecords(line, read, noise) ==> s.valid && 2022 <= s.year <= 2032
  {
    var r := AcceptRow(Split(line), read);
    if r.Some? {
      var rows := SyntheticRows(r.value, noise, SyntheticYears);
      SyntheticRowsShape(r.value, noise, SyntheticYears);
      assert LineRecords(line, read, noise) == [r.value] + rows;
      forall s | s in [r.value] + rows
        ensures s.valid && 2022 <= s.year <= 2032
      {
        if s != r.value {
          var a :| 0 <= a < |rows| && rows[a] == s;
        }
      }
    } else {
      assert LineRecords(line, read, noise) == [];
    }
  }

  /** One data line: split, the column-count rule, validate, then the synthetic years. */
  method ParseDataLine(line: string, read: string -> Option<real>, noise: int -> Factors)
      returns (records: seq<Stock>)
    ensures records == LineRecords(line, read, noise)
  {
    var cols := SplitLine(line);
    if |cols| < 21 {
      return [];
    }
    var s := Default();
    var ok: bool;
    var price, sector, name := 0.0, "", "";
    price, ok := ToDouble(cols[1], read);
    sector := Trim(cols[2]);
    name := Trim(cols[3]);
    var v4, v5, v6, v7, v8, v9, v10, v11, v12 := 0.0, 0.0, 0.0, 0.0, 0.0, 0.0, 0.0, 0.0, 0.0;
    var v13, v14, v15, v16, v17, v18, v19, v20 := 0.0, 0.0, 0.0, 0.0, 0.0, 0.0, 0.0, 0.0;
    v4, ok := ToDouble(cols[4], read);
    v5, ok := ToDouble(cols[5], read);
    v6, ok := ToDouble(cols[6], read);
    v7, ok := ToDouble(cols[7], read);
    v8, ok := ToDouble(cols[8], read);
    v9, ok := ToDouble(cols[9], read);
    v10, ok := ToDouble(cols[10], read);
    v11, ok := ToDouble(cols[11], read);
    v12, ok := ToDouble(cols[12], read);
    v13, ok := ToDouble(cols[13], read);
    v14, ok := ToDouble(cols[14], read);
    v15, ok := ToDouble(cols[15], read);
    v16, ok := ToDouble(cols[16], read);
    v17, ok := ToDouble(cols[17], read);
    v18, ok := ToDouble(cols[18], read);
    v19, ok := ToDouble(cols[19], read);
    v20, ok := ToDouble(cols[20], read);
    s := s.(price := price, sector := sector, companyName := name, year := 2022,
            latestEps := v4, epsLastQuarter := v5, lastAnnualEps := v6, pe := v7,
            expectedPe := v8, expectedGrowth := v9, peg := v10, bookValue := v11,
            expectedBookValue := v12, pb := v13, expectedPb := v14, roe := v15,
            expectedRoe := v16, equityToAsset := v17, roa := v18, lastDividend := v19,
            expectedDividend := v20);
    assert s == RowRecord(cols, read);
    s := Validate(s);
    if !s.valid {
      return [];
    }
    s := ComputeDerived(s);
    var synthetic := EmitYears(s, noise);
    records := [s] + synthetic;
  }

  /** TrimAll over one more token of a prefix. */
  lemma TrimAllStep(ts: seq<string>, i: nat)
    requires i < |ts|
    ensures TrimAll(ts[..i + 1]) == TrimAll(ts[..i]) + [Strip(ts[i], Blank)]
  {
    assert ts[..i + 1][..i] == ts[..i];
  }

  /** The trimmed header columns. */
  method HeaderColumns(line: string) returns (header: seq<string>)
    ensures header == Columns(line)
  {
    var cols := SplitLine(line);
    header := [];
    var i := 0;
    while i < |cols|
      invariant 0 <= i <= |cols| && header == TrimAll(cols[..i])
    {
      TrimAllStep(cols, i);
      var t := Trim(cols[i]);
      header := header + [t];
      i := i + 1;
    }
    assert cols[..|cols|] == cols;
  }

  /** Empty lines before i change neither the header nor the records. */
  lemma {:induction false} LeadingEmpty(lines: seq<string>, i: nat, read: string -> Option<real>,
                                        noise: (nat, int) -> Factors)
    requires i <= |lines| && forall k :: 0 <= k < i ==> |lines[k]| == 0
    ensures Header(lines, 0) == Header(lines, i)
    ensures DataRecords(lines, 0, false, read, noise) == DataRecords(lines, i, false, read, noise)
    decreases i
  {
    if i > 0 {
      LeadingEmpty(lines, i - 1, read, noise);
    }
  }

  /**
   * One turn of parse's loop on lines[i]: an empty line is skipped, the first
   * non-empty one becomes the header, every later one adds its records.
   */
  method ConsumeLine(lines: seq<string>, i: nat, first: bool, stocks: seq<Stock>, header: seq<string>,
                     read: string -> Option<real>, noise: (nat, int) -> Factors)
      returns (stocks': seq<Stock>, header': seq<string>, first': bool)
    requires i < |lines|
    ensures stocks' + DataRecords(lines, i + 1, !first', read, noise) ==
      stocks + DataRecords(lines, i, !first, read, noise)
    ensures first' ==> first && header' == header && Header(lines, i + 1) == Header(lines, i)
    ensures !first' && first ==> header' == Header(lines, i)
    ensures !first ==> !first' && header' == header
  {
    var line := lines[i];
    stocks', header', first' := stocks, header, first;
    if |line| == 0 {
      assert Header(lines, i + 1) == Header(lines, i);
    } else if first {
      header' := HeaderColumns(line);
      first' := false;
    } else {
      var records := ParseDataLine(line, read, LineNoise(noise, i));
      ghost var tail := DataRecords(lines, i + 1, true, read, noise);
      assert DataRecords(lines, i, true, read, noise) == records + tail;
      AppendAssoc(stocks, records, tail);
      stocks' := stocks + records;
    }
  }

  /**
   * parse over the lines of the file: empty lines are skipped, the first
   * non-empty line is the header, every later line goes through the row rules.
   */
  method ParseLines(lines: seq<string>, read: string -> Option<real>, noise: (nat, int) -> Factors)
      returns (stocks: seq<Stock>, header: seq<string>)
    ensures stocks == DataRecords(lines, 0, false, read, noise)
    ensures header == Header(lines, 0)
  {
    stocks := [];
    header := [];
    var first := true;
    ghost var all := DataRecords(lines, 0, false, read, noise);
    var i := 0;
    while i < |lines|
      invariant 0 <= i <= |lines|
      invariant stocks + DataRecords(lines, i, !first, read, noise) == all
      invariant first ==> header == [] && Header(lines, i) == Header(lines, 0)
      invariant !first ==> header == Header(lines, 0)
    {
      stocks, header, first := ConsumeLine(lines, i, first, stocks, header, read, noise);
      i := i + 1;
    }
    if first {
      assert Header(lines, i) == [];
    }
  }
}
