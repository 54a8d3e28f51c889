/** The pieces of Python's string handling that the duration parser relies on:
    `str.split()` without arguments, `int()` on a token and `str()` of an integer. */
module Text {
  import opened Wrappers

  /** The characters Python's `str.isspace` accepts, which are the separators of `str.split()`. */
  predicate IsSpace(c: char) {
    || ('\t' <= c <= '\r')
    || ('\U{1C}' <= c <= ' ')
    || c == '\U{85}' || c == '\U{A0}' || c == '\U{1680}'
    || ('\U{2000}' <= c <= '\U{200A}')
    || c == '\U{2028}' || c == '\U{2029}' || c == '\U{202F}' || c == '\U{205F}' || c == '\U{3000}'
  }

  predicate AllSpace(s: string) {
    forall i :: 0 <= i < |s| ==> IsSpace(s[i])
  }

  predicate NoSpace(s: string) {
    forall i :: 0 <= i < |s| ==> !IsSpace(s[i])
  }

  predicate IsDigit(c: char) {
    '0' <= c <= '9'
  }

  predicate AllDigits(s: string) {
    forall i :: 0 <= i < |s| ==> IsDigit(s[i])
  }

  /** `s` without its leading whitespace. */
  function TrimStart(s: string): (t: string)
    ensures |t| <= |s| && t == s[|s| - |t|..]
    ensures AllSpace(s[..|s| - |t|])
    ensures t == [] || !IsSpace(t[0])
  {
    if |s| > 0 && IsSpace(s[0]) then
      var t := TrimStart(s[1..]);
      assert s[..|s| - |t|] == [s[0]] + s[1..][..|s| - 1 - |t|];
      t
    else s
  }

  /** The longest prefix of `s` that holds no whitespace. */
  function Word(s: string): (w: string)
    ensures w <= s && NoSpace(w)
    ensures |w| == |s| || IsSpace(s[|w|])
  {
    if |s| > 0 && !IsSpace(s[0]) then [s[0]] + Word(s[1..]) else []
  }

  /** `s.split()[0]`: the first whitespace-delimited token, or None where Python raises IndexError. */
  function FirstToken(s: string): (r: Option<string>)
    ensures r.None? <==> AllSpace(s)
    ensures r.Some? ==> |r.value| > 0 && NoSpace(r.value)
  {
    var t := TrimStart(s);
    if |t| == 0 then None
    else
      assert s[|s| - |t|] == t[0];
      Some(Word(t))
  }

  /** A token surrounded by whitespace is what `FirstToken` finds. */
  lemma FirstTokenOf(lead: string, w: string, rest: string)
    requires AllSpace(lead) && |w| > 0 && NoSpace(w)
    requires rest == [] || IsSpace(rest[0])
    ensures FirstToken(lead + w + rest) == Some(w)
  {
    assert lead + w + rest == lead + (w + rest);
    TrimStartOf(lead, w + rest);
    WordOf(w, rest);
  }

  lemma TrimStartOf(lead: string, t: string)
    requires AllSpace(lead) && (t == [] || !IsSpace(t[0]))
    ensures TrimStart(lead + t) == t
  {
    var s := lead + t;
    var r := TrimStart(s);
    assert forall j :: 0 <= j < |lead| ==> s[j] == lead[j];
    assert |t| > 0 ==> s[|lead|] == t[0];
    assert |r| == |t|;
  }

  lemma WordOf(w: string, rest: string)
    requires NoSpace(w) && (rest == [] || IsSpace(rest[0]))
    ensures Word(w + rest) == w
  {
    var t := w + rest;
    var v := Word(t);
    assert forall j :: 0 <= j < |w| ==> t[j] == w[j];
    assert |t| == |w| || IsSpace(t[|w|]);
    assert v == t[..|v|];
  }

  function DigitValue(c: char): nat
    requires IsDigit(c)
  {
    c as int - '0' as int
  }

  function DigitChar(d: nat): (c: char)
    requires d < 10
    ensures IsDigit(c) && DigitValue(c) == d
  {
    ('0' as int + d) as char
  }

  /** The number a string of decimal digits denotes, most significant digit first. */
  function DigitsValue(s: string): nat
    requires AllDigits(s)
  {
    if |s| == 0 then 0 else 10 * DigitsValue(s[..|s| - 1]) + DigitValue(s[|s| - 1])
  }

  /** Digits as `str` prints a natural number: no leading zero unless the number is 0 itself. */
  predicate Unpadded(d: string) {
    |d| > 0 && AllDigits(d) && (d[0] == '0' ==> |d| == 1)
  }

  /** Python's `str(n)` for a non-negative integer: decimal, no sign, no padding. */
  function NatToString(n: nat): (s: string)
    ensures Unpadded(s)
    ensures DigitsValue(s) == n
  {
    if n < 10 then [DigitChar(n)]
    else
      var s := NatToString(n / 10) + [DigitChar(n % 10)];
      assert s[..|s| - 1] == NatToString(n / 10);
      s
  }

  /** Python's `str(i)` for any integer. */
  function IntToString(i: int): string {
    if i < 0 then "-" + NatToString(-i) else NatToString(i)
  }

  /** The tokens `int()` accepts in this model: an optional sign and one or more ASCII digits. */
  predicate IsIntLiteral(t: string) {
    || (|t| > 0 && AllDigits(t))
    || (|t| > 1 && (t[0] == '+' || t[0] == '-') && AllDigits(t[1..]))
  }

  /** Python's `int(t)` for a token without whitespace; None where Python raises ValueError. */
  function ParseInt(t: string): (r: Option<int>)
    ensures r.Some? <==> IsIntLiteral(t)
  {
    if |t| > 0 && AllDigits(t) then Some(DigitsValue(t))
    else if |t| > 1 && t[0] == '+' && AllDigits(t[1..]) then Some(DigitsValue(t[1..]))
    else if |t| > 1 && t[0] == '-' && AllDigits(t[1..]) then Some(-(DigitsValue(t[1..]) as int))
    else None
  }

  /** A digit string starting with a non-zero digit denotes a positive number. */
  lemma {:induction false} LeadingDigitPositive(d: string)
    requires |d| > 0 && AllDigits(d) && d[0] != '0'
    ensures DigitsValue(d) >= 1
    decreases |d|
  {
    if |d| > 1 {
      var p := d[..|d| - 1];
      assert p[0] == d[0];
      LeadingDigitPositive(p);
    }
  }

  lemma TensAndUnits(m: nat, c: nat)
    requires m >= 1 && c < 10
    ensures 10 * m + c >= 10 && (10 * m + c) / 10 == m && (10 * m + c) % 10 == c
  {
  }

  /** Every unpadded digit string is the one `str` prints for the number it denotes, so
      `NatToString` is the only unpadded spelling of a number. */
  lemma {:induction false} UnpaddedIsNatToString(d: string)
    requires Unpadded(d)
    ensures d == NatToString(DigitsValue(d))
    decreases |d|
  {
    var n := DigitsValue(d);
    var c := d[|d| - 1];
    if |d| == 1 {
      assert d[..0] == [];
      assert DigitChar(DigitValue(c)) == c;
    } else {
      var p := d[..|d| - 1];
      assert p[0] == d[0];
      UnpaddedIsNatToString(p);
      LeadingDigitPositive(p);
      TensAndUnits(DigitsValue(p), DigitValue(c));
      assert DigitChar(DigitValue(c)) == c;
      assert d == p + [c];
    }
  }

  /** `int()` of a run of digits, with or without a sign, is the number the digits denote with
      the sign applied. */
  lemma ParseIntValue(d: string)
    requires |d| > 0 && AllDigits(d)
    ensures ParseInt(d) == Some(DigitsValue(d))
    ensures ParseInt("+" + d) == Some(DigitsValue(d))
    ensures ParseInt("-" + d) == Some(-(DigitsValue(d) as int))
  {
    ParseIntSigned('+', d);
    ParseIntSigned('-', d);
  }

  /** One sign at a time, which keeps each proof small. */
  lemma ParseIntSigned(sign: char, d: string)
    requires sign == '+' || sign == '-'
    requires |d| > 0 && AllDigits(d)
    ensures ParseInt([sign] + d) == Some(if sign == '+' then DigitsValue(d) else -(DigitsValue(d) as int))
  {
    var t := [sign] + d;
    assert t[0] == sign && !IsDigit(t[0]);
    assert t[1..] == d;
  }

  /** A leading zero adds nothing to the value of a digit string. */
  lemma {:induction false} DigitsValueLeadingZero(d: string)
    requires AllDigits(d)
    ensures AllDigits("0" + d) && DigitsValue("0" + d) == DigitsValue(d)
    decreases |d|
  {
    var z := "0" + d;
    assert forall k :: 0 < k < |z| ==> z[k] == d[k - 1];
    if |d| == 0 {
      assert z[..0] == [];
    } else {
      var p := d[..|d| - 1];
      DigitsValueLeadingZero(p);
      assert z[..|z| - 1] == "0" + p;
    }
  }

  /** Zero padding changes nothing: `int("007") == int("7")`. */
  lemma ParseIntLeadingZero(d: string)
    requires |d| > 0 && AllDigits(d)
    ensures ParseInt("0" + d) == ParseInt(d)
  {
    DigitsValueLeadingZero(d);
    ParseIntValue(d);
    ParseIntValue("0" + d);
  }

  /** `int("-0") == 0`. */
  lemma ParseMinusZeroExample()
    ensures ParseInt("-0") == Some(0)
  {
    ParseIntSigned('-', "0");
    assert ['-'] + "0" == "-0";
  }

  /** `int(str(i)) == i`: reading back a printed integer gives the integer. */
  lemma ParseIntOfString(i: int)
    ensures ParseInt(IntToString(i)) == Some(i)
    ensures |IntToString(i)| > 0 && NoSpace(IntToString(i))
  {
    var s := IntToString(i);
    if i < 0 {
      var d := NatToString(-i);
      assert s[1..] == d;
      assert !IsDigit(s[0]);
    }
  }
}
