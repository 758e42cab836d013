/**
  The Python string primitives the configuration parser and the event-log
  cleaner rely on: `str.strip`, `str.lstrip(" ")`, `str.splitlines`,
  `str.partition`, `str.lower` (as far as it matters for ASCII keywords),
  and the text forms accepted by `int(...)` and `float(...)`.
 */
module Text {
  import opened Base

  /** The characters for which Python's `str.isspace()` holds. */
  predicate IsSpace(c: char) {
    c == ' ' || c == '\t' || c == '\n' || c == '\r' || c == '\U{000B}' || c == '\U{000C}'
    || ('\U{001C}' <= c <= '\U{001F}') || c == '\U{0085}' || c == '\U{00A0}' || c == '\U{1680}'
    || ('\U{2000}' <= c <= '\U{200A}') || c == '\U{2028}' || c == '\U{2029}' || c == '\U{202F}'
    || c == '\U{205F}' || c == '\U{3000}'
  }

  /** The line boundaries recognised by `str.splitlines()`. */
  predicate IsLineBreak(c: char) {
    c == '\n' || c == '\r' || c == '\U{000B}' || c == '\U{000C}' || c == '\U{001C}' || c == '\U{001D}'
    || c == '\U{001E}' || c == '\U{0085}' || c == '\U{2028}' || c == '\U{2029}'
  }

  function LStrip(s: string): string {
    if s != [] && IsSpace(s[0]) then LStrip(s[1..]) else s
  }

  function RStrip(s: string): string {
    if s != [] && IsSpace(s[|s| - 1]) then RStrip(s[..|s| - 1]) else s
  }

  /** `s.strip()`: leading and trailing whitespace removed. */
  function Strip(s: string): string {
    RStrip(LStrip(s))
  }

  lemma {:induction false} LStripSpec(s: string)
    ensures |LStrip(s)| <= |s| && LStrip(s) == s[|s| - |LStrip(s)|..]
    ensures forall i :: 0 <= i < |s| - |LStrip(s)| ==> IsSpace(s[i])
    ensures LStrip(s) == [] || !IsSpace(LStrip(s)[0])
  {
    if s != [] && IsSpace(s[0]) {
      var t := s[1..];
      LStripSpec(t);
      var n := |s| - |LStrip(s)|;
      assert LStrip(s) == LStrip(t) && n == |t| - |LStrip(t)| + 1;
      forall i | 0 < i < n ensures IsSpace(s[i]) {
        assert s[i] == t[i - 1];
      }
      assert s[n..] == t[n - 1..];
    }
  }

  lemma {:induction false} RStripSpec(s: string)
    ensures |RStrip(s)| <= |s| && RStrip(s) == s[..|RStrip(s)|]
    ensures forall i :: |RStrip(s)| <= i < |s| ==> IsSpace(s[i])
    ensures RStrip(s) == [] || !IsSpace(RStrip(s)[|RStrip(s)| - 1])
  {
    if s != [] && IsSpace(s[|s| - 1]) {
      var t := s[..|s| - 1];
      RStripSpec(t);
      var n := |RStrip(s)|;
      assert RStrip(s) == RStrip(t) && n == |RStrip(t)|;
      forall i | n <= i < |s| - 1 ensures IsSpace(s[i]) {
        assert s[i] == t[i];
      }
      assert s[..n] == t[..n];
    }
  }

  /**
    `strip` removes exactly the whitespace at both ends: the result is a slice
    `s[k..k + |r|]` of the input, everything outside it is whitespace, and it
    neither starts nor ends with whitespace.
   */
  lemma StripSpec(s: string)
    ensures var r := Strip(s);
      && (r == [] || (!IsSpace(r[0]) && !IsSpace(r[|r| - 1])))
      && |r| <= |LStrip(s)| <= |s|
      && (forall i :: 0 <= i < |s| - |LStrip(s)| ==> IsSpace(s[i]))
      && r == s[|s| - |LStrip(s)|..][..|r|]
      && (forall i :: |s| - |LStrip(s)| + |r| <= i < |s| ==> IsSpace(s[i]))
  {
    var l := LStrip(s);
    LStripSpec(s);
    RStripSpec(l);
    var r := Strip(s);
    if r != [] {
      assert r[0] == l[0];
    }
    forall i | |s| - |l| + |r| <= i < |s| ensures IsSpace(s[i]) {
      assert s[i] == l[i - (|s| - |l|)];
    }
  }

  /** Stripping twice is stripping once. */
  lemma StripIdempotent(s: string)
    ensures Strip(Strip(s)) == Strip(s)
  {
    StripSpec(s);
    var r := Strip(s);
    assert LStrip(r) == r;
    assert RStrip(r) == r;
  }

  /** `len(s) - len(s.lstrip(" "))`: the number of leading space characters (tabs do not count). */
  function LeadingSpaces(s: string): (n: nat)
    ensures n <= |s|
    ensures forall i :: 0 <= i < n ==> s[i] == ' '
    ensures n == |s| || s[n] != ' '
  {
    if s != [] && s[0] == ' ' then 1 + LeadingSpaces(s[1..]) else 0
  }

  /** Index of the first line boundary in `s`, or `|s|` when there is none. */
  function FirstBreak(s: string): (i: nat)
    ensures i <= |s|
    ensures forall j :: 0 <= j < i ==> !IsLineBreak(s[j])
    ensures i < |s| ==> IsLineBreak(s[i])
  {
    if s == [] then 0
    else if IsLineBreak(s[0]) then 0
    else 1 + FirstBreak(s[1..])
  }

  /**
    `s.splitlines()`: the lines of `s` without their boundaries; "\r\n" is one
    boundary, and a boundary at the very end does not open an empty last line.
   */
  function SplitLines(s: string): (lines: seq<string>)
    ensures forall k, j :: 0 <= k < |lines| && 0 <= j < |lines[k]| ==> !IsLineBreak(lines[k][j])
    ensures s == [] <==> lines == []
    decreases |s|
  {
    if s == [] then []
    else
      var i := FirstBreak(s);
      var line := s[..i];
      if i == |s| then [line]
      else if s[i] == '\r' && i + 1 < |s| && s[i + 1] == '\n' then [line] + SplitLines(s[i + 2..])
      else [line] + SplitLines(s[i + 1..])
  }

  /** The boundary that ends each line of `SplitLines(s)`, or "" after a last line that has none. */
  function LineEnds(s: string): seq<string>
    decreases |s|
  {
    if s == [] then []
    else
      var i := FirstBreak(s);
      if i == |s| then [""]
      else if s[i] == '\r' && i + 1 < |s| && s[i + 1] == '\n' then ["\r\n"] + LineEnds(s[i + 2..])
      else [s[i..i + 1]] + LineEnds(s[i + 1..])
  }

  /** Each line followed by its boundary, all joined together. */
  function Interleave(lines: seq<string>, ends: seq<string>): string
    requires |lines| == |ends|
  {
    if lines == [] then [] else lines[0] + ends[0] + Interleave(lines[1..], ends[1..])
  }

  /** A `splitlines` boundary: "\r\n" or a single line-break character. */
  predicate IsBoundary(b: string) {
    b == "\r\n" || (|b| == 1 && IsLineBreak(b[0]))
  }

  /** The first line of a non-empty `s`, its boundary `s[i..j]`, and the text after it. */
  lemma SplitLinesHead(s: string) returns (i: nat, j: nat)
    requires s != []
    ensures i <= j <= |s| && (i == |s| ==> j == |s|)
    ensures SplitLines(s) == [s[..i]] + (if i == |s| then [] else SplitLines(s[j..]))
    ensures LineEnds(s) == [s[i..j]] + (if i == |s| then [] else LineEnds(s[j..]))
    ensures s == s[..i] + s[i..j] + s[j..]
    ensures i < |s| ==> IsBoundary(s[i..j])
    ensures i < |s| && s[i..j] == "\r" ==> j == |s| || s[j] != '\n'
  {
    i := FirstBreak(s);
    if i == |s| {
      j := i;
      assert s[i..j] == [] && s[..i] == s && s[j..] == [];
    } else if s[i] == '\r' && i + 1 < |s| && s[i + 1] == '\n' {
      j := i + 2;
      assert s[i..j] == "\r\n";
      assert s == s[..i] + s[i..j] + s[j..];
    } else {
      j := i + 1;
      assert s[i..j] == [s[i]];
      assert s == s[..i] + s[i..j] + s[j..];
    }
  }

  /** The lines of `s`, each followed by its boundary, give `s` back. */
  lemma {:induction false} SplitLinesRebuild(s: string)
    ensures |LineEnds(s)| == |SplitLines(s)|
    ensures s == Interleave(SplitLines(s), LineEnds(s))
    decreases |s|
  {
    if s != [] {
      var i, j := SplitLinesHead(s);
      if i < |s| {
        SplitLinesRebuild(s[j..]);
      }
    }
  }

  /**
    Every line but the last ends in a boundary, and the last one, when it has
    none, is not empty. A "\r" directly followed by "\n" is one boundary,
    never a "\r" boundary followed by an empty line and a "\n".
   */
  lemma {:induction false} LineEndsBoundaries(s: string)
    ensures var lines, ends := SplitLines(s), LineEnds(s);
      && |ends| == |lines|
      && (forall k :: 0 <= k < |ends| ==> IsBoundary(ends[k]) || (ends[k] == "" && k == |ends| - 1 && lines[k] != ""))
      && (forall k :: 0 <= k < |ends| - 1 && ends[k] == "\r" ==> !(lines[k + 1] == "" && ends[k + 1] == "\n"))
    decreases |s|
  {
    SplitLinesRebuild(s);
    if s != [] {
      var i, j := SplitLinesHead(s);
      if i < |s| {
        var rest := s[j..];
        LineEndsBoundaries(rest);
        var lines, ends := SplitLines(s), LineEnds(s);
        assert lines[1..] == SplitLines(rest) && ends[1..] == LineEnds(rest);
        if ends[0] == "\r" && 1 < |ends| && lines[1] == "" {
          var i2, j2 := SplitLinesHead(rest);
          assert i2 == 0;
        }
      } else {
        assert s[..i] == s;
      }
    }
  }

  /** Index of the first `c` in `s`, or `|s|` when `c` does not occur. */
  function Find(s: string, c: char): (i: nat)
    ensures i <= |s|
    ensures forall j :: 0 <= j < i ==> s[j] != c
    ensures i < |s| ==> s[i] == c
  {
    if s == [] then 0
    else if s[0] == c then 0
    else 1 + Find(s[1..], c)
  }

  /** `s.partition(sep)` reduced to the two parts the parser keeps: before and after the first `sep`. */
  function Partition(s: string, sep: char): (string, string) {
    var i := Find(s, sep);
    if i < |s| then (s[..i], s[i + 1..]) else (s, "")
  }

  /** The two parts around the first separator put back together give the text. */
  lemma PartitionSplit(s: string, sep: char)
    ensures sep !in Partition(s, sep).0
    ensures sep in s ==> s == Partition(s, sep).0 + [sep] + Partition(s, sep).1
    ensures sep !in s ==> Partition(s, sep) == (s, "")
  {
    var i := Find(s, sep);
    if i < |s| {
      assert s == s[..i] + [sep] + s[i + 1..];
    }
  }

  function LowerChar(c: char): char {
    if 'A' <= c <= 'Z' then (c as int + 32) as char else c
  }

  /**
    `s.lower()` on ASCII letters. No other character lower-cases to one of the
    letters of "true", "yes", "false" or "no", so comparing the result with
    those words decides exactly what Python's full Unicode `lower()` decides.
   */
  function AsciiLower(s: string): (r: string)
    ensures |r| == |s|
    ensures forall i :: 0 <= i < |s| ==> r[i] == LowerChar(s[i])
  {
    if s == [] then [] else [LowerChar(s[0])] + AsciiLower(s[1..])
  }

  predicate IsDigit(c: char) {
    '0' <= c <= '9'
  }

  predicate AllDigits(s: string) {
    forall i :: 0 <= i < |s| ==> IsDigit(s[i])
  }

  /** The value of a string of decimal digits (most significant first). */
  function DigitsValue(s: string): (n: nat)
    requires AllDigits(s)
  {
    if s == [] then 0 else DigitsValue(s[..|s| - 1]) * 10 + (s[|s| - 1] as int - '0' as int)
  }

  function Pow10(k: nat): (p: nat)
    ensures p >= 1
  {
    if k == 0 then 1 else 10 * Pow10(k - 1)
  }

  /** Splits an optional leading '+' or '-' off `s`: (is negative, remaining text). */
  function SplitSign(s: string): (string, bool) {
    if s != [] && s[0] == '-' then (s[1..], true)
    else if s != [] && s[0] == '+' then (s[1..], false)
    else (s, false)
  }

  /** `int(s)` on text already stripped: an optional sign and at least one ASCII digit. */
  function ParseInt(s: string): (r: Option<int>)
    ensures r.Some? <==> SplitSign(s).0 != [] && AllDigits(SplitSign(s).0)
    ensures r.Some? ==> '.' !in s
    ensures r.Some? ==> s != [] && (IsDigit(s[0]) || s[0] == '-' || s[0] == '+')
  {
    var (digits, negative) := SplitSign(s);
    if digits != [] && AllDigits(digits) then
      var n: int := DigitsValue(digits);
      Some(if negative then -n else n)
    else None
  }

  /** Positional value: the first digit weighs ten to the power of the number of digits after it. */
  lemma {:induction false} DigitsValueLeading(d: string)
    requires d != [] && AllDigits(d)
    ensures DigitsValue(d) == (d[0] as int - '0' as int) * Pow10(|d| - 1) + DigitsValue(d[1..])
    decreases |d|
  {
    if |d| == 1 {
      assert d[..0] == [] && d[1..] == [];
    } else {
      var c := d[0] as int - '0' as int;
      var last := d[|d| - 1] as int - '0' as int;
      var init := d[..|d| - 1];
      var tail := d[1..];
      assert init[0] == d[0] && init[1..] == tail[..|tail| - 1] && tail[|tail| - 1] == d[|d| - 1];
      DigitsValueLeading(init);
      var p := Pow10(|d| - 2);
      var rest := DigitsValue(init[1..]);
      assert DigitsValue(init) == c * p + rest;
      assert DigitsValue(d) == DigitsValue(init) * 10 + last;
      assert DigitsValue(tail) == rest * 10 + last;
      assert Pow10(|d| - 1) == 10 * p;
      MulDistrib(c, p, rest);
    }
  }

  lemma MulDistrib(c: int, p: int, rest: int)
    ensures (c * p + rest) * 10 == c * (10 * p) + rest * 10
  {
  }

  /** Leading zeros do not change the value of a digit string: `int("007") == 7`. */
  lemma LeadingZeroKeepsValue(d: string)
    requires AllDigits(d)
    ensures AllDigits("0" + d) && DigitsValue("0" + d) == DigitsValue(d)
  {
    DigitsValueLeading("0" + d);
    assert ("0" + d)[1..] == d;
  }

  /**
    `int` of one or more digits is their value; a leading '+' keeps it and a
    leading '-' negates it.
   */
  lemma ParseIntSign(d: string)
    requires d != [] && AllDigits(d)
    ensures ParseInt(d) == Some(DigitsValue(d))
    ensures ParseInt("+" + d) == Some(DigitsValue(d))
    ensures ParseInt("-" + d) == Some(-(DigitsValue(d) as int))
  {
    assert d[0] != '-' && d[0] != '+';
    assert ("+" + d)[1..] == d && ("-" + d)[1..] == d;
  }

  /**
    `float(s)` on text already stripped that contains a '.': an optional sign,
    then digits, one '.', digits, with at least one digit in all. The value is
    the exact rational the text denotes.
   */
  function ParseDecimal(s: string): (r: Option<real>) {
    var (body, negative) := SplitSign(s);
    var parts := Partition(body, '.');
    var whole := parts.0;
    var frac := parts.1;
    if '.' in body && AllDigits(whole) && AllDigits(frac) && |whole| + |frac| > 0 then
      var v := DigitsValue(whole) as real + DigitsValue(frac) as real / Pow10(|frac|) as real;
      Some(if negative then -v else v)
    else None
  }

  /** `str(n)` for an integer: decimal digits, with '-' in front of a negative number. */
  function IntToString(n: int): (s: string)
    ensures s != []
  {
    if n < 0 then "-" + NatToDigits(-n) else NatToDigits(n)
  }

  function NatToDigits(n: nat): (s: string)
    ensures s != [] && AllDigits(s)
    decreases n
  {
    var last := [('0' as int + n % 10) as char];
    if n < 10 then last else NatToDigits(n / 10) + last
  }

  lemma {:induction false} NatToDigitsValue(n: nat)
    ensures DigitsValue(NatToDigits(n)) == n
    decreases n
  {
    var s := NatToDigits(n);
    if n >= 10 {
      NatToDigitsValue(n / 10);
      assert s[..|s| - 1] == NatToDigits(n / 10);
    }
  }

  /** Round trip: `int(str(n)) == n`. */
  lemma IntToStringRoundTrip(n: int)
    ensures ParseInt(IntToString(n)) == Some(n)
  {
    if n < 0 {
      NatToDigitsValue(-n);
      assert SplitSign(IntToString(n)) == (NatToDigits(-n), true);
    } else {
      NatToDigitsValue(n);
      assert SplitSign(IntToString(n)) == (NatToDigits(n), false);
    }
  }
}
