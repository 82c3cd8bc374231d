/**
 * The string and arithmetic helpers of User.h: the CSV field escaping and
 * its inverse, the tokenizer load_users runs over each saved line,
 * normalize_username, the modular hash_password, and the e-mail
 * normalisation and comparison of signup and email_exists. A C++ string is
 * a sequence of chars here, one byte per char; `(unsigned char)c` is the
 * char code modulo 256.
 */
module Users {
  import opened Text

  /* ---------------- escape_csv / unescape_csv ---------------- */

  /** What escape_csv writes for one character. */
  function EscapeChar(c: char): string
  {
    if c == ',' then ['\\', 'c']
    else if c == '\n' then ['\\', 'n']
    else if c == '\\' then ['\\', '\\']
    else [c]
  }

  function Escape(s: string): string
    decreases |s|
  {
    if |s| == 0 then "" else EscapeChar(s[0]) + Escape(s[1..])
  }

  /**
   * unescape_csv: a backslash followed by c, n or a backslash becomes
   * ',', a newline or a backslash; any other character, including a lone
   * or trailing backslash, is copied.
   */
  function Unescape(s: string): string
    decreases |s|
  {
    if |s| == 0 then ""
    else if s[0] == '\\' && |s| >= 2 && s[1] == 'c' then [','] + Unescape(s[2..])
    else if s[0] == '\\' && |s| >= 2 && s[1] == 'n' then ['\n'] + Unescape(s[2..])
    else if s[0] == '\\' && |s| >= 2 && s[1] == '\\' then ['\\'] + Unescape(s[2..])
    else [s[0]] + Unescape(s[1..])
  }

  method EscapeCsv(s: string) returns (result: string)
    ensures result == Escape(s)
    ensures ',' !in result && '\n' !in result
  {
    result := "";
    var i := 0;
    while i < |s|
      invariant 0 <= i <= |s| && result + Escape(s[i..]) == Escape(s)
    {
      assert s[i..][0] == s[i] && s[i..][1..] == s[i + 1..];
      result := result + EscapeChar(s[i]);
      i := i + 1;
    }
    assert s[|s|..] == [];
    EscapeSeparators(s);
  }

  method UnescapeCsv(s: string) returns (result: string)
    ensures result == Unescape(s)
  {
    result := "";
    var i := 0;
    while i < |s|
      invariant 0 <= i <= |s| && result + Unescape(s[i..]) == Unescape(s)
    {
      UnescapeFrom(s, i);
      if s[i] == '\\' && i + 1 < |s| {
        if s[i + 1] == 'c' {
          AppendAssoc(result, [','], Unescape(s[i + 2..]));
          result := result + [','];
          i := i + 1;
        } else if s[i + 1] == 'n' {
          AppendAssoc(result, ['\n'], Unescape(s[i + 2..]));
          result := result + ['\n'];
          i := i + 1;
        } else if s[i + 1] == '\\' {
          AppendAssoc(result, ['\\'], Unescape(s[i + 2..]));
          result := result + ['\\'];
          i := i + 1;
        } else {
          AppendAssoc(result, [s[i]], Unescape(s[i + 1..]));
          result := result + [s[i]];
        }
      } else {
        AppendAssoc(result, [s[i]], Unescape(s[i + 1..]));
        result := result + [s[i]];
      }
      i := i + 1;
    }
    assert s[|s|..] == [];
  }

  /** Unescape on the suffix from i: one step of unescape_csv's loop. */
  lemma UnescapeFrom(s: string, i: nat)
    requires i < |s|
    ensures s[i] == '\\' && i + 1 < |s| && s[i + 1] in ['c', 'n', '\\'] ==>
      Unescape(s[i..]) == [if s[i + 1] == 'c' then ',' else if s[i + 1] == 'n' then '\n' else '\\'] + Unescape(s[i + 2..])
    ensures !(s[i] == '\\' && i + 1 < |s| && s[i + 1] in ['c', 'n', '\\']) ==>
      Unescape(s[i..]) == [s[i]] + Unescape(s[i + 1..])
  {
    var rest := s[i..];
    assert rest[0] == s[i] && rest[1..] == s[i + 1..];
    if i + 1 < |s| {
      assert rest[1] == s[i + 1] && rest[2..] == s[i + 2..];
    }
  }

  /** Unescaping undoes escaping, for every string. */
  lemma {:induction false} UnescapeEscape(s: string)
    ensures Unescape(Escape(s)) == s
    decreases |s|
  {
    if |s| > 0 {
      var rest := Escape(s[1..]);
      UnescapeEscape(s[1..]);
      assert Escape(s) == EscapeChar(s[0]) + rest;
      UnescapeEscapeChar(s[0], rest);
      assert s == [s[0]] + s[1..];
    }
  }

  /** Unescaping reads the escape of one character back as that character. */
  lemma UnescapeEscapeChar(c: char, rest: string)
    ensures Unescape(EscapeChar(c) + rest) == [c] + Unescape(rest)
  {
    var e := EscapeChar(c) + rest;
    if |EscapeChar(c)| == 2 {
      assert e[0] == '\\' && e[1] == EscapeChar(c)[1] && e[2..] == rest;
    } else {
      assert e[0] == c && e[1..] == rest;
    }
  }

  /** Escaped text holds no field separator and no line break. */
  lemma {:induction false} EscapeSeparators(s: string)
    ensures ',' !in Escape(s) && '\n' !in Escape(s)
    decreases |s|
  {
    if |s| > 0 {
      EscapeSeparators(s[1..]);
    }
  }

  /** Text without ',', newline or backslash is written unchanged (the numeric columns). */
  lemma {:induction false} EscapePlain(s: string)
    requires forall i :: 0 <= i < |s| ==> s[i] != ',' && s[i] != '\n' && s[i] != '\\'
    ensures Escape(s) == s
    decreases |s|
  {
    if |s| > 0 {
      EscapePlain(s[1..]);
      assert s == [s[0]] + s[1..];
    }
  }

  /* ---------------- the load tokenizer ---------------- */

  /** The tokenizer's variables: finished tokens, the token being built, and the escape flag. */
  datatype Scan = Scan(tokens: seq<string>, current: string, escaped: bool)

  /**
   * One character of the load loop. After a backslash the next character
   * is appended literally and the backslash itself is dropped; with
   * keepEscapes the pair is kept instead, so unescape_csv can decode it.
   */
  function Feed(st: Scan, c: char, keepEscapes: bool): Scan
  {
    if st.escaped then st.(current := st.current + (if keepEscapes then ['\\', c] else [c]), escaped := false)
    else if c == '\\' then st.(escaped := true)
    else if c == ',' then Scan(st.tokens + [st.current], "", false)
    else st.(current := st.current + [c])
  }

  function Run(st: Scan, s: string, keepEscapes: bool): Scan
    decreases |s|
  {
    if |s| == 0 then st else Run(Feed(st, s[0], keepEscapes), s[1..], keepEscapes)
  }

  /** The tokens of a line: those finished by a comma, then the one still being built. */
  function Tokens(line: string, keepEscapes: bool): (ts: seq<string>)
    ensures |ts| >= 1
  {
    var st := Run(Scan([], "", false), line, keepEscapes);
    st.tokens + [st.current]
  }

  lemma {:induction false} RunAppend(st: Scan, a: string, b: string, keepEscapes: bool)
    ensures Run(st, a + b, keepEscapes) == Run(Run(st, a, keepEscapes), b, keepEscapes)
    decreases |a|
  {
    if |a| > 0 {
      assert (a + b)[0] == a[0] && (a + b)[1..] == a[1..] + b;
      RunAppend(Feed(st, a[0], keepEscapes), a[1..], b, keepEscapes);
    } else {
      assert a + b == b;
    }
  }

  /** The load loop as written in User.h (the backslash is dropped). */
  method LoadTokens(line: string) returns (tokens: seq<string>)
    ensures tokens == Tokens(line, false)
  {
    tokens := [];
    var current: string := "";
    var escaped := false;
    var i := 0;
    while i < |line|
      invariant 0 <= i <= |line| && Scan(tokens, current, escaped) == Run(Scan([], "", false), line[..i], false)
    {
      var c := line[i];
      RunAppend(Scan([], "", false), line[..i], [c], false);
      assert line[..i + 1] == line[..i] + [c];
      if escaped {
        current := current + [c];
        escaped := false;
      } else if c == '\\' {
        escaped := true;
      } else if c == ',' {
        tokens := tokens + [current];
        current := "";
      } else {
        current := current + [c];
      }
      i := i + 1;
    }
    assert line[..|line|] == line;
    tokens := tokens + [current];
  }

  /** What the as-written tokenizer makes of an escaped character: the escape letter. */
  function GarbleChar(c: char): char
  {
    if c == ',' then 'c' else if c == '\n' then 'n' else c
  }

  function Garble(s: string): string
    decreases |s|
  {
    if |s| == 0 then "" else [GarbleChar(s[0])] + Garble(s[1..])
  }

  /** One saved line: the escaped fields with a comma between neighbours. */
  function SavedLine(fields: seq<string>): string
    requires |fields| >= 1
    decreases |fields|
  {
    if |fields| == 1 then Escape(fields[0]) else Escape(fields[0]) + [','] + SavedLine(fields[1..])
  }

  /** What the tokenizer turns one saved field into, as written or with the escapes kept. */
  function Loaded(s: string, keepEscapes: bool): string
  {
    if keepEscapes then Escape(s) else Garble(s)
  }

  function LoadedAll(fields: seq<string>, keepEscapes: bool): seq<string>
    decreases |fields|
  {
    if |fields| == 0 then [] else [Loaded(fields[0], keepEscapes)] + LoadedAll(fields[1..], keepEscapes)
  }

  /** Scanning the escape of one character appends its loaded form. */
  lemma RunEscapeChar(ts: seq<string>, cur: string, c: char, keepEscapes: bool)
    ensures Run(Scan(ts, cur, false), EscapeChar(c), keepEscapes) ==
      Scan(ts, cur + (if keepEscapes then EscapeChar(c) else [GarbleChar(c)]), false)
  {
    var st := Scan(ts, cur, false);
    var e := EscapeChar(c);
    if |e| == 2 {
      var st1 := Feed(st, '\\', keepEscapes);
      assert e[0] == '\\' && e[1..] == [e[1]] && e[1..][1..] == [];
      assert Run(st, e, keepEscapes) == Run(st1, [e[1]], keepEscapes);
      assert Run(st1, [e[1]], keepEscapes) == Run(Feed(st1, e[1], keepEscapes), [], keepEscapes);
    } else {
      assert e[1..] == [];
    }
  }

  /** Scanning one escaped field appends its loaded form to the current token. */
  lemma {:induction false} RunEscaped(ts: seq<string>, cur: string, s: string, keepEscapes: bool)
    ensures Run(Scan(ts, cur, false), Escape(s), keepEscapes) == Scan(ts, cur + Loaded(s, keepEscapes), false)
    decreases |s|
  {
    if |s| == 0 {
      assert cur + Loaded(s, keepEscapes) == cur;
    } else {
      var c := s[0];
      assert Escape(s) == EscapeChar(c) + Escape(s[1..]);
      RunAppend(Scan(ts, cur, false), EscapeChar(c), Escape(s[1..]), keepEscapes);
      var piece := if keepEscapes then EscapeChar(c) else [GarbleChar(c)];
      RunEscapeChar(ts, cur, c, keepEscapes);
      RunEscaped(ts, cur + piece, s[1..], keepEscapes);
      var rest := Loaded(s[1..], keepEscapes);
      assert Loaded(s, keepEscapes) == piece + rest by {
        if !keepEscapes {
          assert Garble(s) == [GarbleChar(c)] + Garble(s[1..]);
        }
      }
      AppendAssoc(cur, piece, rest);
    }
  }

  /** Scanning a saved line from a state with no open token yields one loaded token per field. */
  lemma {:induction false} RunSaved(ts: seq<string>, fields: seq<string>, keepEscapes: bool)
    requires |fields| >= 1
    ensures var st := Run(Scan(ts, "", false), SavedLine(fields), keepEscapes);
      st.tokens + [st.current] == ts + LoadedAll(fields, keepEscapes)
    decreases |fields|
  {
    RunEscaped(ts, "", fields[0], keepEscapes);
    var first := Loaded(fields[0], keepEscapes);
    assert "" + first == first;
    if |fields| == 1 {
      assert LoadedAll(fields, keepEscapes) == [first];
    } else {
      var st := Scan(ts, "", false);
      var rest := SavedLine(fields[1..]);
      assert SavedLine(fields) == Escape(fields[0]) + [','] + rest;
      RunAppend(st, Escape(fields[0]) + [','], rest, keepEscapes);
      RunAppend(st, Escape(fields[0]), [','], keepEscapes);
      assert Run(Scan(ts, first, false), [','], keepEscapes) == Scan(ts + [first], "", false);
      RunSaved(ts + [first], fields[1..], keepEscapes);
      assert LoadedAll(fields, keepEscapes) == [first] + LoadedAll(fields[1..], keepEscapes);
      AppendAssoc(ts, [first], LoadedAll(fields[1..], keepEscapes));
    }
  }

  /**
   * As written: loading a saved line keeps the number of fields, but each
   * field comes back with ',' turned into 'c' and a newline into 'n'.
   */
  lemma LoadSavedAsWritten(fields: seq<string>)
    requires |fields| >= 1
    ensures Tokens(SavedLine(fields), false) == LoadedAll(fields, false)
    ensures |Tokens(SavedLine(fields), false)| == |fields|
  {
    RunSaved([], fields, false);
    LoadedAllLength(fields, false);
  }

  lemma {:induction false} LoadedAllLength(fields: seq<string>, keepEscapes: bool)
    ensures |LoadedAll(fields, keepEscapes)| == |fields|
    ensures forall k :: 0 <= k < |fields| ==> LoadedAll(fields, keepEscapes)[k] == Loaded(fields[k], keepEscapes)
    decreases |fields|
  {
    if |fields| > 0 {
      LoadedAllLength(fields[1..], keepEscapes);
    }
  }

  /** The discrepancy: the one-field record "a,b" loads back as "acb". */
  lemma CommaFieldCorrupted()
    ensures Unescape(Tokens(SavedLine(["a,b"]), false)[0]) == "acb"
    ensures Unescape(Tokens(SavedLine(["a,b"]), false)[0]) != "a,b"
  {
    LoadSavedAsWritten(["a,b"]);
    assert LoadedAll(["a,b"], false) == [Garble("a,b")];
    assert Garble("a,b") == "acb" by {
      assert "a,b"[1..] == ",b" && ",b"[1..] == "b" && "b"[1..] == "";
    }
    assert Unescape("acb") == "acb" by {
      assert "acb"[1..] == "cb" && "cb"[1..] == "b" && "b"[1..] == "";
    }
    assert "acb"[1] != "a,b"[1];
  }

  /** Corrected: with the escape pairs kept, every field survives a save and load unchanged. */
  lemma SaveLoadRoundTrip(fields: seq<string>)
    requires |fields| >= 1
    ensures var ts := Tokens(SavedLine(fields), true);
      |ts| == |fields| && forall k :: 0 <= k < |fields| ==> Unescape(ts[k]) == fields[k]
  {
    RunSaved([], fields, true);
    LoadedAllLength(fields, true);
    forall k | 0 <= k < |fields|
      ensures Unescape(Tokens(SavedLine(fields), true)[k]) == fields[k]
    {
      UnescapeEscape(fields[k]);
    }
  }

  /* ---------------- normalize_username ---------------- */

  /** normalize_username: space, tab, CR and LF stripped from both ends. */
  method NormalizeUsername(username: string) returns (r: string)
    ensures r == Strip(username, Blank)
    ensures r == "" <==> forall i :: 0 <= i < |username| ==> username[i] in Blank
  {
    var start, end := TrimBounds(username, Blank);
    StripEmpty(username, Blank);
    if end < start {
      return "";
    }
    return username[start..end + 1];
  }

  /* ---------------- hash_password ---------------- */

  /** The modulus of hash_password, 2^31 - 1. */
  const Prime: nat := 2147483647

  /** (unsigned char)c */
  function Byte(c: char): nat
  {
    (c as int) % 256
  }

  /** The forward loops: h = (h * m + byte) mod Prime over s from the front. */
  function Fold(h: nat, s: string, m: nat): (r: nat)
    ensures (h < Prime || |s| > 0) ==> r < Prime
    decreases |s|
  {
    if |s| == 0 then h else Fold((h * m + Byte(s[0])) % Prime, s[1..], m)
  }

  /** The reverse loop: the same step over s from the back. */
  function FoldBack(h: nat, s: string, m: nat): (r: nat)
    ensures (h < Prime || |s| > 0) ==> r < Prime
    decreases |s|
  {
    if |s| == 0 then h else FoldBack((h * m + Byte(s[|s| - 1])) % Prime, s[..|s| - 1], m)
  }

  /** The number hash_password prints. */
  function HashValue(password: string, salt: string): nat
  {
    var combined := password + salt;
    FoldBack((Fold(0, combined, 31) * Fold(0, salt, 37)) % Prime, combined, 41)
  }

  /** Every hash value is below the modulus. */
  lemma HashValueBound(password: string, salt: string)
    ensures HashValue(password, salt) < Prime
  {
  }

  /**
   * Below the modulus, neither a step `h * 41 + 255` nor the product of two
   * residues reaches 2^64, so the unsigned long long arithmetic never wraps.
   */
  lemma NoWrapAround(h: nat, g: nat)
    requires h < Prime && g < Prime
    ensures h * 41 + 255 < 0x1_0000_0000_0000_0000
    ensures h * g < 0x1_0000_0000_0000_0000
  {
    assert h * g <= h * Prime <= Prime * Prime;
  }

  /** Lower-case hexadecimal digits. */
  const HexDigits: string := "0123456789abcdef"

  /** `ss << hex << n`: the digits of n in base 16, no leading zeros, "0" for 0. */
  function Hex(n: nat): (r: string)
    ensures |r| >= 1 && forall i :: 0 <= i < |r| ==> r[i] in HexDigits
    decreases n
  {
    if n < 16 then [HexDigits[n]] else Hex(n / 16) + [HexDigits[n % 16]]
  }

  /** The padding loop: "0" prepended until the width is reached. */
  function PadZeros(s: string, width: nat): (r: string)
    decreases width - |s|
  {
    if |s| >= width then s else PadZeros("0" + s, width)
  }

  /** The value of a hexadecimal digit string (the inverse of Hex). */
  function HexValue(s: string): nat
    decreases |s|
  {
    if |s| == 0 then 0 else HexValue(s[..|s| - 1]) * 16 + DigitValue(s[|s| - 1])
  }

  function DigitValue(c: char): nat
  {
    if '0' <= c <= '9' then c as int - '0' as int
    else if 'a' <= c <= 'f' then c as int - 'a' as int + 10
    else 0
  }

  /** Each digit reads back as its value. */
  lemma DigitRoundTrip(d: nat)
    requires d < 16
    ensures DigitValue(HexDigits[d]) == d
  {
    if d < 10 {
      assert HexDigits[d] == ('0' as int + d) as char;
    } else {
      assert HexDigits[d] == ('a' as int + d - 10) as char;
    }
  }

  lemma {:induction false} HexValueOfHex(n: nat)
    ensures HexValue(Hex(n)) == n
    decreases n
  {
    DigitRoundTrip(n % 16);
    if n >= 16 {
      HexValueOfHex(n / 16);
      var h := Hex(n);
      assert h[..|h| - 1] == Hex(n / 16);
    }
  }

  /** Hex(n) has at most k digits when n < 16^k; a value below 2^31 takes at most 8. */
  lemma {:induction false} HexLength(n: nat)
    requires n < 0x1_0000_0000
    ensures |Hex(n)| <= 8
  {
    var m := n;
    var k := 8;
    HexLengthBelow(n, 8);
  }

  function Power16(k: nat): nat
  {
    if k == 0 then 1 else 16 * Power16(k - 1)
  }

  lemma {:induction false} HexLengthBelow(n: nat, k: nat)
    requires k >= 1 && n < Power16(k)
    ensures |Hex(n)| <= k
    decreases k
  {
    if n >= 16 {
      assert k >= 2;
      HexLengthBelow(n / 16, k - 1);
    }
  }

  /** A leading zero does not change the value. */
  lemma {:induction false} HexValueLeadingZero(s: string)
    ensures HexValue("0" + s) == HexValue(s)
    decreases |s|
  {
    if |s| > 0 {
      var t := "0" + s;
      assert t[..|t| - 1] == "0" + s[..|s| - 1];
      HexValueLeadingZero(s[..|s| - 1]);
    } else {
      assert ("0" + s)[..0] == [];
    }
  }

  /** Padding keeps the digits' value, reaches the width when the text was no longer and keeps the text as its suffix. */
  lemma {:induction false} PadZerosShape(s: string, width: nat)
    requires forall i :: 0 <= i < |s| ==> s[i] in HexDigits
    ensures var r := PadZeros(s, width);
      (|s| <= width ==> |r| == width && r[width - |s|..] == s) && (|s| >= width ==> r == s) &&
      (forall i :: 0 <= i < |r| ==> r[i] in HexDigits) && HexValue(r) == HexValue(s)
    decreases width - |s|
  {
    if |s| < width {
      HexValueLeadingZero(s);
      PadZerosShape("0" + s, width);
      var r := PadZeros(s, width);
      assert r[width - |s| - 1..] == "0" + s;
      assert r[width - |s|..] == r[width - |s| - 1..][1..];
    }
  }

  /** The text hash_password returns. */
  function HashText(password: string, salt: string): string
  {
    PadZeros(Hex(HashValue(password, salt)), 16)
  }

  /** Exactly 16 lower-case hex digits whose value is the hash. */
  lemma HashTextShape(password: string, salt: string)
    ensures var r := HashText(password, salt);
      |r| == 16 && (forall i :: 0 <= i < 16 ==> r[i] in HexDigits) && HexValue(r) == HashValue(password, salt)
  {
    var h := HashValue(password, salt);
    HexLength(h);
    HexValueOfHex(h);
    PadZerosShape(Hex(h), 16);
  }

  /** hash_password: the three accumulator loops, the hex conversion, then the padding loop. */
  method HashPassword(password: string, salt: string) returns (result: string)
    ensures result == HashText(password, salt)
    ensures |result| == 16 && (forall i :: 0 <= i < 16 ==> result[i] in HexDigits)
    ensures HexValue(result) == HashValue(password, salt)
  {
    var combined := password + salt;
    var hash: nat := 0;
    var i := 0;
    while i < |combined|
      invariant 0 <= i <= |combined| && hash < Prime
      invariant Fold(hash, combined[i..], 31) == Fold(0, combined, 31)
    {
      assert combined[i..][1..] == combined[i + 1..];
      hash := (hash * 31 + Byte(combined[i])) % Prime;
      i := i + 1;
    }
    assert combined[|combined|..] == [];
    var saltHash: nat := 0;
    i := 0;
    while i < |salt|
      invariant 0 <= i <= |salt| && saltHash < Prime
      invariant Fold(saltHash, salt[i..], 37) == Fold(0, salt, 37)
    {
      assert salt[i..][1..] == salt[i + 1..];
      saltHash := (saltHash * 37 + Byte(salt[i])) % Prime;
      i := i + 1;
    }
    assert salt[|salt|..] == [];
    hash := (hash * saltHash) % Prime;
    assert combined[..|combined|] == combined;
    i := |combined| - 1;
    while i >= 0
      invariant -1 <= i < |combined| && hash < Prime
      invariant FoldBack(hash, combined[..i + 1], 41) == HashValue(password, salt)
    {
      assert combined[..i + 1][..i] == combined[..i];
      hash := (hash * 41 + Byte(combined[i])) % Prime;
      i := i - 1;
    }
    result := Hex(hash);
    while |result| < 16
      invariant PadZeros(result, 16) == HashText(password, salt)
      decreases 16 - |result|
    {
      result := "0" + result;
    }
    HashTextShape(password, salt);
  }

  /* ---------------- e-mail normalisation ---------------- */

  /** The normalised form signup and email_exists compare against. */
  function NormalEmail(email: string): string
  {
    Lower(Strip(email, SpaceTab))
  }

  /** The trimming loops over space and tab, then the lower-casing loop over start..end. */
  method NormalizeEmail(email: string) returns (normalized: string)
    ensures normalized == NormalEmail(email)
  {
    var start, end := TrimBounds(email, SpaceTab);
    normalized := "";
    var i := start;
    while i <= end
      invariant start <= i <= end + 1 || (i == start && end < start)
      invariant normalized == Lower(email[start..i])
    {
      var c := email[i];
      if 'A' <= c <= 'Z' {
        c := (c as int - 'A' as int + 'a' as int) as char;
      }
      assert c == LowerChar(email[i]);
      normalized := normalized + [c];
      i := i + 1;
    }
  }

  /** The lower-casing loop applied to a stored e-mail. */
  method LowerEmail(email: string) returns (lowered: string)
    ensures lowered == Lower(email)
  {
    lowered := "";
    var j := 0;
    while j < |email|
      invariant 0 <= j <= |email| && lowered == Lower(email[..j])
    {
      var c := email[j];
      if 'A' <= c <= 'Z' {
        c := (c as int - 'A' as int + 'a' as int) as char;
      }
      lowered := lowered + [c];
      j := j + 1;
    }
    assert email[..|email|] == email;
  }

  /** As written: the stored e-mail is lower-cased but not trimmed; the given one is both. */
  predicate EmailMatches(stored: string, given: string)
  {
    Lower(stored) == NormalEmail(given)
  }

  /**
   * email_exists, and the duplicate check of signup: true when some stored
   * e-mail of a listed user matches.
   */
  method EmailExists(stored: seq<string>, email: string) returns (found: bool)
    ensures found <==> exists k :: 0 <= k < |stored| && EmailMatches(stored[k], email)
  {
    var normalized := NormalizeEmail(email);
    var k := 0;
    while k < |stored|
      invariant 0 <= k <= |stored|
      invariant forall j :: 0 <= j < k ==> !EmailMatches(stored[j], email)
    {
      var userEmail := LowerEmail(stored[k]);
      if userEmail == normalized {
        return true;
      }
      k := k + 1;
    }
    return false;
  }

  /** Normalising twice is normalising once. */
  lemma NormalEmailIdempotent(email: string)
    ensures NormalEmail(NormalEmail(email)) == NormalEmail(email)
  {
    var t := Strip(email, SpaceTab);
    StripShape(email, SpaceTab);
    var n := Lower(t);
    if |t| > 0 {
      CaseMapping(t[0]);
      CaseMapping(t[|t| - 1]);
    }
    StripNoEdges(n, SpaceTab);
    CaseIdempotent(t);
  }

  /**
   * The discrepancy: signup stores the e-mail as typed, so an address
   * registered with a leading space never matches itself and the duplicate
   * check lets the same address through again.
   */
  lemma StoredSpaceNeverMatches()
    ensures !EmailMatches(" a@b.c", " a@b.c")
  {
    var e := " a@b.c";
    assert Lead(e, SpaceTab) == 1 by {
      assert e[1..][0] == 'a';
    }
    assert |NormalEmail(e)| <= 5;
  }

  /** Corrected: both sides normalised. */
  predicate EmailMatchesNormalized(stored: string, given: string)
  {
    NormalEmail(stored) == NormalEmail(given)
  }

  /**
   * Every address matches itself once both sides are normalised, and for a
   * stored address already in normal form the corrected test agrees with the
   * one as written.
   */
  lemma NormalizedMatching(stored: string, given: string)
    ensures EmailMatchesNormalized(given, given)
    ensures stored == NormalEmail(stored) ==> (EmailMatches(stored, given) <==> EmailMatchesNormalized(stored, given))
  {
    if stored == NormalEmail(stored) {
      var t := Strip(stored, SpaceTab);
      CaseIdempotent(t);
      assert Lower(stored) == Lower(Lower(t)) == Lower(t) == stored;
    }
  }
}
