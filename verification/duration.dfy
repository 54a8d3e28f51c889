/** Conversions between a duration text and a number of minutes (main.py:25-30 and 49-54). */
module Duration {
  import opened Wrappers
  import opened Seqs
  import opened Text

  /** `int(str(dur).split()[0])`, with every failure of the `try` read as 0 minutes. */
  function ParseMinutes(s: string): (m: int)
    ensures AllSpace(s) ==> m == 0
    ensures m != 0 ==> FirstToken(s).Some? && IsIntLiteral(FirstToken(s).value)
  {
    match FirstToken(s)
    case None => 0
    case Some(t) => ParseInt(t).GetOr(0)
  }

  /** A duration reads as `int()` of its first token, or 0 when that raises. With
      `Text.ParseIntValue` this fixes the minutes of every duration, padded and signed ones
      included. */
  lemma ParseMinutesToken(lead: string, w: string, rest: string)
    requires AllSpace(lead) && |w| > 0 && NoSpace(w)
    requires rest == [] || IsSpace(rest[0])
    ensures ParseMinutes(lead + w + rest) == ParseInt(w).GetOr(0)
  {
    FirstTokenOf(lead, w, rest);
  }

  /** A duration whose first token is a printed integer reads as that integer, whatever follows. */
  lemma ParseMinutesReadsInt(lead: string, i: int, rest: string)
    requires AllSpace(lead)
    requires rest == [] || IsSpace(rest[0])
    ensures ParseMinutes(lead + IntToString(i) + rest) == i
  {
    ParseIntOfString(i);
    FirstTokenOf(lead, IntToString(i), rest);
  }

  /** A duration whose first token is not an integer ("abc min", "1h 5m") reads as 0. */
  lemma ParseMinutesNonNumeric(lead: string, w: string, rest: string)
    requires AllSpace(lead) && |w| > 0 && NoSpace(w) && !IsIntLiteral(w)
    requires rest == [] || IsSpace(rest[0])
    ensures ParseMinutes(lead + w + rest) == 0
  {
    FirstTokenOf(lead, w, rest);
  }

  /** The leaderboard's display of a total: `h, m = divmod(n, 60)`, then `"{h}h {m}m"` when
      `h > 0` and `"{m} min"` otherwise. Python's `divmod` floors, and so do Dafny's `/` and `%`
      with a positive divisor, so a negative total shows only its remainder. */
  function FormatMinutes(n: int): (s: string)
    ensures 'h' in s <==> n >= 60
    ensures |s| > 0 && s[|s| - 1] in "mn"
  {
    var hours := n / 60;
    var minutes := n % 60;
    if hours > 0 then
      var s := NatToString(hours) + "h " + NatToString(minutes) + "m";
      assert s[|NatToString(hours)|] == 'h';
      s
    else
      var d := NatToString(minutes);
      var s := d + " min";
      assert forall k :: 0 <= k < |d| ==> s[k] == d[k] && IsDigit(s[k]);
      assert forall k :: |d| <= k < |s| ==> s[k] in " min";
      s
  }

  /** A display as the leaderboard writes it: the minute form with minutes below 60, or the hour
      form with at least one hour and minutes below 60, each number written without padding. */
  predicate Canonical(s: string) {
    if IsMinuteForm(s) then Unpadded(s[..|s| - 4]) && DigitsValue(s[..|s| - 4]) < 60
    else
      var i := IndexOf(s, 'h');
      IsHourFormAt(s, i) && Unpadded(s[..i]) && DigitsValue(s[..i]) >= 1
      && Unpadded(s[i + 2..|s| - 1]) && DigitsValue(s[i + 2..|s| - 1]) < 60
  }

  /** Every display `FormatMinutes` writes is canonical. */
  lemma FormatCanonical(n: int)
    ensures Canonical(FormatMinutes(n))
  {
    if n >= 60 {
      HourDisplayText(n);
      HourTextCanonical(n / 60, n % 60);
    } else {
      assert FormatMinutes(n) == NatToString(n % 60) + " min";
      MinuteTextCanonical(n % 60);
    }
  }

  lemma MinuteTextCanonical(m: nat)
    requires m < 60
    ensures Canonical(NatToString(m) + " min")
  {
    var d := NatToString(m);
    var s := d + " min";
    assert s[|s| - 4..] == " min";
    assert s[..|s| - 4] == d;
  }

  lemma HourTextCanonical(h: nat, m: nat)
    requires h >= 1 && m < 60
    ensures Canonical(NatToString(h) + "h " + NatToString(m) + "m")
  {
    HourDigitsCanonical(NatToString(h), NatToString(m));
  }

  lemma HourDigitsCanonical(hs: string, ms: string)
    requires Unpadded(hs) && DigitsValue(hs) >= 1 && Unpadded(ms) && DigitsValue(ms) < 60
    ensures Canonical(hs + "h " + ms + "m")
  {
    HourTextShape(hs, ms);
    CanonicalHourForm(hs + "h " + ms + "m", |hs|);
  }

  /** The hour form of two digit strings: not the minute form, its first 'h' right after the
      hours, and its fields exactly those strings. */
  lemma HourTextShape(hs: string, ms: string)
    requires |hs| > 0 && AllDigits(hs) && |ms| > 0 && AllDigits(ms)
    ensures var s := hs + "h " + ms + "m";
      !IsMinuteForm(s) && IndexOf(s, 'h') == |hs| && IsHourFormAt(s, |hs|)
      && s[..|hs|] == hs && s[|hs| + 2..|s| - 1] == ms
  {
    var s := hs + "h " + ms + "m";
    HourFormIsNotMinuteForm(hs, ms);
    FirstLetterAfterDigits(hs, "h " + ms + "m");
    assert s == hs + ("h " + ms + "m");
    HourFormParts(hs, ms);
  }

  /** An hour form whose first 'h' is at `i` is canonical when its numbers are unpadded, with at
      least one hour and fewer than 60 minutes. */
  lemma CanonicalHourForm(s: string, i: nat)
    requires !IsMinuteForm(s) && IndexOf(s, 'h') == i && IsHourFormAt(s, i)
    requires Unpadded(s[..i]) && DigitsValue(s[..i]) >= 1
    requires Unpadded(s[i + 2..|s| - 1]) && DigitsValue(s[i + 2..|s| - 1]) < 60
    ensures Canonical(s)
  {
  }

  /** Reads a display back as minutes: `"{m} min"` is m and `"{h}h {m}m"` is 60 * h + m. */
  function ReadDisplay(s: string): Option<int> {
    if IsMinuteForm(s) then Some(DigitsValue(s[..|s| - 4]))
    else ReadHourForm(s, IndexOf(s, 'h'))
  }

  /** `s` is digits followed by " min". */
  predicate IsMinuteForm(s: string) {
    |s| > 4 && s[|s| - 4..] == " min" && AllDigits(s[..|s| - 4])
  }

  /** `s` is digits, 'h' at position `i`, a space, digits and a final 'm'. */
  predicate IsHourFormAt(s: string, i: nat) {
    0 < i && i + 3 < |s| && s[i] == 'h' && s[i + 1] == ' ' && s[|s| - 1] == 'm'
    && AllDigits(s[..i]) && AllDigits(s[i + 2..|s| - 1])
  }

  /** Reads `s` as hours before the 'h' at position `i` and minutes after it. */
  function ReadHourForm(s: string, i: nat): Option<int> {
    if IsHourFormAt(s, i) then Some(60 * DigitsValue(s[..i]) + DigitsValue(s[i + 2..|s| - 1]))
    else None
  }

  lemma ReadsMinuteForm(m: string)
    requires |m| > 0 && AllDigits(m)
    ensures ReadDisplay(m + " min") == Some(DigitsValue(m))
  {
    var s := m + " min";
    assert s[|s| - 4..] == " min";
    assert s[..|s| - 4] == m;
  }

  lemma ReadsHourForm(h: string, m: string)
    requires |h| > 0 && AllDigits(h) && |m| > 0 && AllDigits(m)
    ensures ReadDisplay(h + "h " + m + "m") == Some(60 * DigitsValue(h) + DigitsValue(m))
  {
    var s := h + "h " + m + "m";
    HourTextShape(h, m);
    HourFormFields(h, m);
    ReadDisplayNotMinuteForm(s);
  }

  lemma HourFormIsNotMinuteForm(h: string, m: string)
    ensures !IsMinuteForm(h + "h " + m + "m")
  {
    var s := h + "h " + m + "m";
    assert s[|s| - 1] == 'm';
  }

  lemma HourFormFields(h: string, m: string)
    requires |h| > 0 && AllDigits(h) && |m| > 0 && AllDigits(m)
    ensures ReadHourForm(h + "h " + m + "m", |h|) == Some(60 * DigitsValue(h) + DigitsValue(m))
  {
    var s := h + "h " + m + "m";
    HourFormParts(h, m);
    assert ReadHourForm(s, |h|) == Some(60 * DigitsValue(s[..|h|]) + DigitsValue(s[|h| + 2..|s| - 1]));
  }

  /** Where the hour form keeps its hours and its minutes. */
  lemma HourFormParts(h: string, m: string)
    requires |h| > 0 && AllDigits(h) && |m| > 0 && AllDigits(m)
    ensures var s := h + "h " + m + "m";
      IsHourFormAt(s, |h|) && s[..|h|] == h && s[|h| + 2..|s| - 1] == m
  {
    var t := "h " + m + "m";
    var s := h + t;
    assert h + "h " + m + "m" == s;
    assert s[..|h|] == h;
    assert s[|h|..] == t;
    assert t[2..|t| - 1] == m;
    assert s[|h| + 2..|s| - 1] == t[2..|t| - 1];
    assert s[|h|] == 'h' && s[|h| + 1] == ' ' && s[|s| - 1] == 'm';
  }

  lemma ReadDisplayNotMinuteForm(s: string)
    requires !IsMinuteForm(s)
    ensures ReadDisplay(s) == ReadHourForm(s, IndexOf(s, 'h'))
  {
  }

  /** In digits followed by 'h', the first 'h' is the one after the digits. */
  lemma FirstLetterAfterDigits(h: string, rest: string)
    requires AllDigits(h) && |rest| > 0 && rest[0] == 'h'
    ensures IndexOf(h + rest, 'h') == |h|
  {
    var s := h + rest;
    assert s[|h|] == 'h';
    assert forall k :: 0 <= k < |h| ==> s[k] == h[k];
  }

  /** The display loses nothing for a non-negative total; a negative one shows its floor remainder. */
  lemma FormatReadBack(n: int)
    ensures ReadDisplay(FormatMinutes(n)) == Some(if n >= 0 then n else n % 60)
  {
    if n >= 60 {
      HourDisplayReadBack(n);
    } else {
      MinuteDisplayReadBack(n);
    }
  }

  lemma HourDisplayReadBack(n: int)
    requires n >= 60
    ensures ReadDisplay(FormatMinutes(n)) == Some(n)
  {
    HourDisplayText(n);
    HourTextReadBack(n);
  }

  /** The display of at least an hour is the hour form of `divmod(n, 60)`. */
  lemma HourDisplayText(n: int)
    requires n >= 60
    ensures FormatMinutes(n) == NatToString(n / 60) + "h " + NatToString(n % 60) + "m"
  {
  }

  lemma HourTextReadBack(n: int)
    requires n >= 60
    ensures ReadDisplay(NatToString(n / 60) + "h " + NatToString(n % 60) + "m") == Some(n)
  {
    var h, m := NatToString(n / 60), NatToString(n % 60);
    assert ReadDisplay(h + "h " + m + "m") == Some(60 * DigitsValue(h) + DigitsValue(m)) by {
      ReadsHourForm(h, m);
    }
    assert 60 * DigitsValue(h) + DigitsValue(m) == n by {
      HoursAndMinutes(n);
    }
  }

  lemma HoursAndMinutes(n: int)
    ensures 60 * (n / 60) + n % 60 == n
  {
  }

  lemma MinuteDisplayReadBack(n: int)
    requires n < 60
    ensures ReadDisplay(FormatMinutes(n)) == Some(n % 60)
  {
    var m := NatToString(n % 60);
    assert FormatMinutes(n) == m + " min";
    ReadsMinuteForm(m);
  }

  /** A display is the one `FormatMinutes` writes for a non-negative total exactly when it is
      canonical and reads back as that total: the display of a total is unique. */
  lemma FormatCharacterised(n: int, t: string)
    requires n >= 0
    ensures t == FormatMinutes(n) <==> Canonical(t) && ReadDisplay(t) == Some(n)
  {
    if t == FormatMinutes(n) {
      FormatReadBack(n);
      FormatCanonical(n);
    }
    if Canonical(t) && ReadDisplay(t) == Some(n) {
      DisplayOfCanonical(t);
    }
  }

  /** Every canonical display is written by `FormatMinutes` for the total it reads back as. */
  lemma DisplayOfCanonical(s: string)
    requires Canonical(s)
    ensures ReadDisplay(s).Some? && FormatMinutes(ReadDisplay(s).value) == s
  {
    if IsMinuteForm(s) {
      MinuteFormOfCanonical(s);
    } else {
      HourFormOfCanonical(s);
    }
  }

  lemma MinuteFormOfCanonical(s: string)
    requires Canonical(s) && IsMinuteForm(s)
    ensures ReadDisplay(s).Some? && FormatMinutes(ReadDisplay(s).value) == s
  {
    var d := s[..|s| - 4];
    var v := DigitsValue(d);
    assert ReadDisplay(s) == Some(v as int);
    UnpaddedIsNatToString(d);
    assert s == d + " min" by {
      assert s[|s| - 4..] == " min";
    }
    MinuteDisplayText(v);
  }

  lemma HourFormOfCanonical(s: string)
    requires Canonical(s) && !IsMinuteForm(s)
    ensures ReadDisplay(s).Some? && FormatMinutes(ReadDisplay(s).value) == s
  {
    var n := HourFormValue(s);
    HourFormReads(s);
    HourFormWritten(s);
    assert ReadDisplay(s) == Some(n) && FormatMinutes(n) == s;
  }

  /** The total a canonical hour form denotes. */
  function HourFormValue(s: string): int
    requires Canonical(s) && !IsMinuteForm(s)
  {
    var i := IndexOf(s, 'h');
    60 * DigitsValue(s[..i]) + DigitsValue(s[i + 2..|s| - 1])
  }

  lemma HourFormReads(s: string)
    requires Canonical(s) && !IsMinuteForm(s)
    ensures ReadDisplay(s) == Some(HourFormValue(s))
  {
    ReadDisplayNotMinuteForm(s);
  }

  lemma HourFormWritten(s: string)
    requires Canonical(s) && !IsMinuteForm(s)
    ensures FormatMinutes(HourFormValue(s)) == s
  {
    var i := IndexOf(s, 'h');
    var hd, md := s[..i], s[i + 2..|s| - 1];
    var h, m := DigitsValue(hd), DigitsValue(md);
    var n := HourFormValue(s);
    assert FormatMinutes(n) == NatToString(h) + "h " + NatToString(m) + "m" by {
      HourFormText(n, h, m);
    }
    assert NatToString(h) + "h " + NatToString(m) + "m" == s by {
      UnpaddedIsNatToString(hd);
      UnpaddedIsNatToString(md);
      HourFormJoin(s, i);
    }
  }

  /** The display of `n == 60 * h + m` minutes, with at least one hour and `m` below 60. */
  lemma HourFormText(n: int, h: nat, m: nat)
    requires h >= 1 && m < 60 && n == 60 * h + m
    ensures FormatMinutes(n) == NatToString(h) + "h " + NatToString(m) + "m"
  {
    SplitMinutes(h, m);
    HourDisplayText(n);
  }

  /** An hour form is its hours, `"h "`, its minutes and `"m"`. */
  lemma HourFormJoin(s: string, i: nat)
    requires IsHourFormAt(s, i)
    ensures s == s[..i] + "h " + s[i + 2..|s| - 1] + "m"
  {
    var t := s[..i] + "h " + s[i + 2..|s| - 1] + "m";
    assert |t| == |s|;
    forall k | 0 <= k < |s|
      ensures t[k] == s[k]
    {
    }
  }

  /** Below an hour, the display is the minute form of the total. */
  lemma MinuteDisplayText(n: int)
    requires 0 <= n < 60
    ensures FormatMinutes(n) == NatToString(n) + " min"
  {
    SplitMinutes(0, n);
    assert n / 60 == 0 && n % 60 == n;
  }

  lemma SplitMinutes(h: nat, m: nat)
    requires m < 60
    ensures (60 * h + m) / 60 == h && (60 * h + m) % 60 == m
  {
  }

  /** Reading the display with `ParseMinutes` recovers totals below an hour and gives 0 for the
      hour form, whose first token `"{h}h"` is not an integer. */
  lemma ParseFormatted(n: int)
    ensures n >= 60 ==> ParseMinutes(FormatMinutes(n)) == 0
    ensures n < 60 ==> ParseMinutes(FormatMinutes(n)) == n % 60
  {
    if n >= 60 {
      HourDisplayParsesToZero(n);
    } else {
      MinuteDisplayParses(n);
    }
  }

  /** `ParseMinutes(FormatMinutes(n)) == n` for totals under an hour. */
  lemma RoundTripBelowHour(n: int)
    requires 0 <= n < 60
    ensures ParseMinutes(FormatMinutes(n)) == n
  {
    BelowAnHour(n);
    MinuteDisplayParses(n);
  }

  lemma BelowAnHour(n: int)
    requires 0 <= n < 60
    ensures n / 60 == 0 && n % 60 == n
  {
  }

  lemma HourDisplayParsesToZero(n: int)
    requires n >= 60
    ensures ParseMinutes(FormatMinutes(n)) == 0
  {
    var h, m := NatToString(n / 60), NatToString(n % 60);
    assert FormatMinutes(n) == h + "h " + m + "m";
    ParseHourForm(h, m);
  }

  lemma MinuteDisplayParses(n: int)
    requires n < 60
    ensures ParseMinutes(FormatMinutes(n)) == n % 60
  {
    assert FormatMinutes(n) == NatToString(n % 60) + " min";
    ParseMinuteForm(n % 60);
  }

  lemma ParseHourForm(h: string, m: string)
    requires |h| > 0 && AllDigits(h)
    ensures ParseMinutes(h + "h " + m + "m") == 0
  {
    var w := h + "h";
    assert h + "h " + m + "m" == [] + w + (" " + m + "m");
    assert !IsDigit(w[|w| - 1]);
    assert NoSpace(w) by {
      assert forall k :: 0 <= k < |h| ==> w[k] == h[k];
    }
    ParseMinutesNonNumeric([], w, " " + m + "m");
  }

  lemma ParseMinuteForm(minutes: nat)
    ensures ParseMinutes(NatToString(minutes) + " min") == minutes
  {
    assert IntToString(minutes) == NatToString(minutes);
    assert NatToString(minutes) + " min" == [] + IntToString(minutes) + " min";
    ParseMinutesReadsInt([], minutes, " min");
  }

  /** The default for a record without a duration, "0 min", counts as no time. */
  lemma DefaultDurationIsZero()
    ensures ParseMinutes("0 min") == 0
  {
    assert IntToString(0) == "0";
    assert "0 min" == [] + IntToString(0) + " min";
    ParseMinutesReadsInt([], 0, " min");
  }

  /** A token that is not a number counts as no time. */
  lemma ParseWordExample()
    ensures ParseMinutes("abc min") == 0
  {
    assert "abc min" == [] + "abc" + " min";
    assert "abc"[0] == 'a' && !IsDigit('a');
    ParseMinutesNonNumeric([], "abc", " min");
  }

  lemma ParseNumberExample()
    ensures ParseMinutes("45 min") == 45
  {
    assert NatToString(45) == "45" by {
      assert NatToString(4) == "4";
    }
    assert "45 min" == [] + IntToString(45) + " min";
    ParseMinutesReadsInt([], 45, " min");
  }

  /** Zero padding is read through: `"007 min"` is 7 minutes. */
  lemma ParsePaddedExample()
    ensures ParseMinutes("007 min") == 7
  {
    var d := "7";
    assert DigitsValue(d) == 7;
    ParseIntLeadingZero(d);
    ParseIntLeadingZero("0" + d);
    ParseIntValue(d);
    assert "007 min" == [] + ("0" + ("0" + d)) + " min";
    ParseMinutesToken([], "0" + ("0" + d), " min");
  }

  /** A plus sign is read through: `"+5 min"` is 5 minutes. */
  lemma ParsePlusExample()
    ensures ParseMinutes("+5 min") == 5
  {
    var d := "5";
    assert DigitsValue(d) == 5;
    ParseIntValue(d);
    assert "+5 min" == [] + ("+" + d) + " min";
    ParseMinutesToken([], "+" + d, " min");
  }

  /** Leading whitespace is skipped and a sign is accepted, so totals can go negative. */
  lemma ParseNegativeExample()
    ensures ParseMinutes("  -30 min") == -30
  {
    assert NatToString(30) == "30" by {
      assert NatToString(3) == "3";
    }
    assert "  -30 min" == "  " + IntToString(-30) + " min";
    ParseMinutesReadsInt("  ", -30, " min");
  }

  lemma FormatHourExample()
    ensures FormatMinutes(75) == "1h 15m"
  {
    assert NatToString(15) == "15" by {
      assert NatToString(1) == "1";
    }
  }

  /** No zero padding: 125 minutes is two hours and five minutes. */
  lemma FormatTwoHoursExample()
    ensures FormatMinutes(125) == "2h 5m"
  {
    assert NatToString(2) == "2" && NatToString(5) == "5";
  }

  /** divmod(-5, 60) == (-1, 55): a negative total shows as its floor remainder. */
  lemma FormatNegativeExample()
    ensures FormatMinutes(-5) == "55 min"
  {
    assert NatToString(55) == "55" by {
      assert NatToString(5) == "5";
    }
  }
}
