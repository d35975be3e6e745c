/** `convert_date_format`: replace every `Z` by `+00:00`, parse the text as
    an ISO date-time with `datetime.fromisoformat`, and format it with
    `strftime("%d %b %Y")`; a text that does not parse comes back unchanged.

    The parser is a recogniser for the common ISO shapes:
      YYYY-MM-DD [ <any one char> HH[:MM[:SS[.f{1,6}]]] [ (+|-)HH:MM | (+|-)HHMM ] ]
    with Python's range checks (year 1..9999, day within the month, leap
    years, hour < 24, minute and second < 60). The formatted date only uses
    the date fields: an offset is kept in the parsed value, never applied. */
module DateFormat {
  import opened Values

  datatype Date = Date(year: int, month: int, day: int)

  function Pow10(w: nat): (p: nat)
    ensures p >= 1
  {
    if w == 0 then 1 else 10 * Pow10(w - 1)
  }

  /** `n` written with exactly `w` digits, zero-padded on the left
      (`%d`, `%m`, `%Y` for the widths 2 and 4). */
  function Digits(n: nat, w: nat): (r: string)
    ensures |r| == w && AllDigits(r)
  {
    if w == 0 then "" else Digits(n / 10, w - 1) + [DigitChar(n % 10)]
  }

  /** Padding a number that fits is undone by reading the digits back. */
  lemma {:induction false} NumDigits(n: nat, w: nat)
    requires n < Pow10(w)
    ensures Num(Digits(n, w)) == n
  {
    if w > 0 {
      var r := Digits(n, w);
      assert r[..|r| - 1] == Digits(n / 10, w - 1);
      NumDigits(n / 10, w - 1);
    }
  }

  /** Reading a digit string and writing it back at its own width gives the
      same string, leading zeros included. */
  lemma {:induction false} DigitsNum(s: string)
    requires AllDigits(s)
    ensures Digits(Num(s), |s|) == s
  {
    if s != [] {
      var init := s[..|s| - 1];
      var n := Num(s);
      var d := s[|s| - 1] as int - '0' as int;
      assert n / 10 == Num(init) && n % 10 == d;
      DigitsNum(init);
      assert s == init + [s[|s| - 1]];
    }
  }

  predicate IsLeap(y: int)
  {
    y % 4 == 0 && (y % 100 != 0 || y % 400 == 0)
  }

  function DaysInMonth(y: int, m: int): (d: int)
    requires 1 <= m <= 12
    ensures 28 <= d <= 31
  {
    if m == 2 then (if IsLeap(y) then 29 else 28)
    else if m == 4 || m == 6 || m == 9 || m == 11 then 30
    else 31
  }

  /** The dates `datetime` can represent. */
  predicate ValidDate(d: Date)
  {
    1 <= d.year <= 9999 && 1 <= d.month <= 12 && 1 <= d.day <= DaysInMonth(d.year, d.month)
  }

  /** A two-digit field below `bound`. */
  predicate Field2(s: string, bound: nat)
  {
    |s| == 2 && AllDigits(s) && Num(s) < bound
  }

  /** The clock part: HH, HH:MM, HH:MM:SS or HH:MM:SS.f with 1 to 6 fraction digits. */
  predicate ClockOk(t: string)
    ensures ClockOk(t) ==> |t| == 2 || |t| == 5 || |t| == 8 || 10 <= |t| <= 15
  {
    |t| >= 2 && Field2(t[..2], 24) &&
    (|t| == 2 ||
     (|t| >= 5 && t[2] == ':' && Field2(t[3..5], 60) &&
      (|t| == 5 ||
       (|t| >= 8 && t[5] == ':' && Field2(t[6..8], 60) &&
        (|t| == 8 || (t[8] == '.' && 10 <= |t| <= 15 && AllDigits(t[9..])))))))
  }

  /** The offset part: empty, or a sign and HH:MM or HHMM. */
  predicate OffsetOk(z: string)
    ensures OffsetOk(z) ==> |z| == 0 || |z| == 5 || |z| == 6
  {
    |z| == 0 ||
    ((z[0] == '+' || z[0] == '-') &&
     ((|z| == 6 && Field2(z[1..3], 24) && z[3] == ':' && Field2(z[4..6], 60)) ||
      (|z| == 5 && Field2(z[1..3], 24) && Field2(z[3..5], 60))))
  }

  /** The index of the first `+` or `-` at or after `i`, or `|t|`. */
  function SignIndex(t: string, i: nat): (j: nat)
    requires i <= |t|
    decreases |t| - i
    ensures i <= j <= |t|
    ensures j < |t| ==> t[j] == '+' || t[j] == '-'
    ensures forall k :: i <= k < j ==> t[k] != '+' && t[k] != '-'
  {
    if i == |t| || t[i] == '+' || t[i] == '-' then i else SignIndex(t, i + 1)
  }

  /** What may follow the date: nothing, or a separator, a clock and an offset. */
  predicate TimeSuffixOk(t: string)
    ensures TimeSuffixOk(t) ==> |t| == 0 || 3 <= |t| <= 22
  {
    t == [] ||
    (|t| >= 3 &&
     var j := SignIndex(t, 1);
     ClockOk(t[1..j]) && OffsetOk(t[j..]))
  }

  /** `datetime.fromisoformat`, restricted to the shapes described above. */
  function ParseIso(s: string): (r: Option<Date>)
    ensures r.Some? ==> ValidDate(r.value)
    ensures r.Some? ==> |s| >= 10 && AllDigits(s[..4]) && AllDigits(s[5..7]) && AllDigits(s[8..10]) &&
                        r.value == Date(Num(s[..4]), Num(s[5..7]), Num(s[8..10]))
    ensures r.Some? ==> s[4] == '-' && s[7] == '-' && TimeSuffixOk(s[10..])
  {
    if |s| < 10 || !AllDigits(s[..4]) || s[4] != '-' || !AllDigits(s[5..7]) || s[7] != '-' ||
       !AllDigits(s[8..10]) || !TimeSuffixOk(s[10..])
    then None
    else
      var d := Date(Num(s[..4]), Num(s[5..7]), Num(s[8..10]));
      if ValidDate(d) then Some(d) else None
  }

  /** The ISO text `YYYY-MM-DD` of a date. */
  function IsoText(d: Date): (r: string)
    requires ValidDate(d)
    ensures |r| == 10 && r[4] == '-' && r[7] == '-'
    ensures AllDigits(r[..4]) && AllDigits(r[5..7]) && AllDigits(r[8..10])
  {
    var r := Digits(d.year, 4) + "-" + Digits(d.month, 2) + "-" + Digits(d.day, 2);
    assert r[..4] == Digits(d.year, 4) && r[5..7] == Digits(d.month, 2) && r[8..10] == Digits(d.day, 2);
    r
  }

  /** The recogniser reads back any valid date written in ISO form, with or
      without an accepted time suffix. */
  lemma ParseIsoText(d: Date, suffix: string)
    requires ValidDate(d) && TimeSuffixOk(suffix)
    ensures ParseIso(IsoText(d) + suffix) == Some(d)
  {
    var s := IsoText(d) + suffix;
    assert s[..4] == Digits(d.year, 4);
    assert s[5..7] == Digits(d.month, 2);
    assert s[8..10] == Digits(d.day, 2);
    assert s[10..] == suffix;
    NumDigits(d.year, 4);
    NumDigits(d.month, 2);
    NumDigits(d.day, 2);
  }

  /** The converse: a text that parses is the ISO form of the date it
      parses to, followed by an accepted suffix. */
  lemma ParseIsoShape(s: string)
    requires ParseIso(s).Some?
    ensures TimeSuffixOk(s[10..])
    ensures s == IsoText(ParseIso(s).value) + s[10..]
  {
    var d := ParseIso(s).value;
    var iso := IsoText(d);
    DigitsNum(s[..4]);
    DigitsNum(s[5..7]);
    DigitsNum(s[8..10]);
    assert iso[..4] == s[..4] && iso[5..7] == s[5..7] && iso[8..10] == s[8..10];
    assert forall i :: 0 <= i < 4 ==> iso[i] == iso[..4][i] && s[i] == s[..4][i];
    assert forall i :: 5 <= i < 7 ==> iso[i] == iso[5..7][i - 5] && s[i] == s[5..7][i - 5];
    assert forall i :: 8 <= i < 10 ==> iso[i] == iso[8..10][i - 8] && s[i] == s[8..10][i - 8];
    assert s[..10] == iso;
    assert s == s[..10] + s[10..];
  }

  /** `strftime("%b")` in the C locale. */
  const MonthAbbr: seq<string> :=
    ["Jan", "Feb", "Mar", "Apr", "May", "Jun", "Jul", "Aug", "Sep", "Oct", "Nov", "Dec"]

  /** `strftime("%d %b %Y")`. */
  function FormatDate(d: Date): (r: string)
    requires ValidDate(d)
    ensures |r| == 11 && r[2] == ' ' && r[6] == ' '
  {
    var m := MonthAbbr[d.month - 1];
    assert |m| == 3;
    Digits(d.day, 2) + " " + m + " " + Digits(d.year, 4)
  }

  /** The formatted text reads back to the date: the day and the year are
      its first and last digit groups, and the month's abbreviation sits
      between them. */
  lemma FormatDateFields(d: Date)
    requires ValidDate(d)
    ensures var r := FormatDate(d);
            AllDigits(r[..2]) && Num(r[..2]) == d.day &&
            r[3..6] == MonthAbbr[d.month - 1] && r[3..6] in MonthAbbr &&
            AllDigits(r[7..]) && Num(r[7..]) == d.year
  {
    var r := FormatDate(d);
    assert r[..2] == Digits(d.day, 2);
    assert r[3..6] == MonthAbbr[d.month - 1];
    assert r[7..] == Digits(d.year, 4);
    NumDigits(d.day, 2);
    NumDigits(d.year, 4);
  }

  /** `s.replace("Z", "+00:00")`. */
  function ReplaceZ(s: string): (r: string)
    ensures |r| >= |s|
  {
    if s == [] then []
    else (if s[0] == 'Z' then "+00:00" else [s[0]]) + ReplaceZ(s[1..])
  }

  /** After the replacement no `Z` is left. */
  lemma {:induction false} ReplaceZRemovesZ(s: string)
    ensures forall i :: 0 <= i < |ReplaceZ(s)| ==> ReplaceZ(s)[i] != 'Z'
  {
    if s != [] {
      ReplaceZRemovesZ(s[1..]);
      var head := if s[0] == 'Z' then "+00:00" else [s[0]];
      assert forall i :: 0 <= i < |head| ==> head[i] != 'Z';
      assert ReplaceZ(s) == head + ReplaceZ(s[1..]);
    }
  }

  /** A text without `Z` is left as it is. */
  lemma {:induction false} ReplaceZKeeps(s: string)
    requires forall i :: 0 <= i < |s| ==> s[i] != 'Z'
    ensures ReplaceZ(s) == s
  {
    if s != [] {
      ReplaceZKeeps(s[1..]);
      assert s == [s[0]] + s[1..];
    }
  }

  /** `convert_date_format` on a string. */
  function ConvertDateString(s: string): (r: string)
    ensures r == s || (|r| == 11 && r[2] == ' ' && r[6] == ' ')
  {
    match ParseIso(ReplaceZ(s))
    case None => s
    case Some(d) => FormatDate(d)
  }

  /** `convert_date_format` on any loaded value: only a string has the
      `replace` method; on anything else the `AttributeError` is caught and
      the value comes back unchanged. */
  function ConvertDate(v: Value): (r: Value)
    ensures !v.Str? ==> r == v
    ensures r.Str? <==> v.Str?
    ensures v.Str? ==> r == Str(ConvertDateString(v.s))
  {
    match v
    case Str(s) => Str(ConvertDateString(s))
    case _ => v
  }

  /** Leniency: a date that does not parse (after the `Z` replacement) is
      returned exactly as given, `Z`s included. */
  lemma UnparseableUnchanged(s: string)
    requires ParseIso(ReplaceZ(s)).None?
    ensures ConvertDateString(s) == s
  {
  }

  /** A date that parses is reformatted from its own digits: the day and
      the year are copied from the ISO text, the month is looked up in the
      abbreviation table. */
  lemma ParsedReformatted(s: string)
    requires ParseIso(ReplaceZ(s)).Some?
    ensures var t := ReplaceZ(s);
            AllDigits(t[5..7]) && 1 <= Num(t[5..7]) <= 12 &&
            ConvertDateString(s) == t[8..10] + " " + MonthAbbr[Num(t[5..7]) - 1] + " " + t[..4]
  {
    var t := ReplaceZ(s);
    DigitsNum(t[8..10]);
    DigitsNum(t[..4]);
  }

  /** `"2023-03-22T00:00:00-0800"` becomes `"22 Mar 2023"`: the offset
      without a colon is accepted and is not applied to the date. */
  lemma ExampleOffsetDate(s: string)
    requires s == "2023-03-22T00:00:00-0800"
    ensures ConvertDateString(s) == "22 Mar 2023"
  {
    var d := Date(2023, 3, 22);
    ExampleIso(d);
    ExampleClock("00:00:00");
    var z := "-0800";
    assert z[1..3] == "08" && z[3..5] == "00";
    ZeroField("00");
    NumTwo("08");
    ExampleText(s, "2023-03-22", "00:00:00", "-0800");
    DateTimeConverted(d, "00:00:00", "-0800");
    ExampleFormats(d);
  }

  /** `"2023-03-22T00:00:00.123456"` becomes `"22 Mar 2023"`: a fraction
      of six digits (microseconds) is accepted. */
  lemma ExampleMicroseconds(s: string)
    requires s == "2023-03-22T00:00:00.123456"
    ensures ConvertDateString(s) == "22 Mar 2023"
  {
    var d := Date(2023, 3, 22);
    var clock := "00:00:00.123456";
    ExampleIso(d);
    var hms, frac := clock[..8], clock[9..];
    assert hms == "00:00:00" && frac == "123456";
    assert clock == hms + "." + frac;
    ExampleClock(hms);
    FractionClock(hms, frac);
    ExampleText(s, "2023-03-22", clock, "");
    DateTimeConverted(d, clock, "");
    ExampleFormats(d);
  }

  /** The example texts are a date, `T`, a clock and an offset. */
  lemma ExampleText(s: string, iso: string, clock: string, z: string)
    requires (s == "2023-03-22T00:00:00-0800" && iso == "2023-03-22" && clock == "00:00:00" && z == "-0800") ||
             (s == "2023-03-22T00:00:00.123456" && iso == "2023-03-22" && clock == "00:00:00.123456" && z == "")
    ensures s == iso + ("T" + clock + z)
  {
  }

  lemma ExampleFormats(d: Date)
    requires d == Date(2023, 3, 22)
    ensures FormatDate(d) == "22 Mar 2023"
  {
    Digits2(22);
    Digits4(2023);
    assert MonthAbbr[2] == "Mar";
  }

  /** Two-digit padding, digit by digit. */
  lemma Digits2(n: nat)
    ensures Digits(n, 2) == [DigitChar(n / 10 % 10), DigitChar(n % 10)]
  {
  }

  /** Four-digit padding, digit by digit. */
  lemma Digits4(n: nat)
    ensures Digits(n, 4) == [DigitChar(n / 10 / 10 / 10 % 10), DigitChar(n / 10 / 10 % 10),
                             DigitChar(n / 10 % 10), DigitChar(n % 10)]
  {
    Digits2(n / 10 / 10);
  }

  lemma ExampleIso(d: Date)
    requires d == Date(2023, 3, 22)
    ensures ValidDate(d) && IsoText(d) == "2023-03-22"
  {
    Digits4(2023);
    Digits2(3);
    Digits2(22);
  }

  lemma ExampleClock(c: string)
    requires c == "00:00:00"
    ensures ClockOk(c)
  {
    assert c[..2] == "00" && c[3..5] == "00" && c[6..8] == "00";
    ZeroField("00");
  }

  /** After `HH:MM:SS`, a `.` and a fraction are accepted exactly when the
      fraction is one to six digits. */
  lemma FractionClock(hms: string, frac: string)
    requires |hms| == 8 && ClockOk(hms)
    ensures ClockOk(hms + "." + frac) <==> 1 <= |frac| <= 6 && AllDigits(frac)
  {
    var t := hms + "." + frac;
    assert t[..2] == hms[..2] && t[3..5] == hms[3..5] && t[6..8] == hms[6..8];
    assert t[2] == hms[2] && t[5] == hms[5] && t[8] == '.';
    assert t[9..] == frac;
  }

  lemma ZeroField(z: string)
    requires z == "00"
    ensures Field2(z, 24) && Field2(z, 60)
  {
    NumTwo(z);
  }

  /** A two-digit field is worth ten times its first digit plus its second. */
  lemma NumTwo(s: string)
    requires |s| == 2 && AllDigits(s)
    ensures Num(s) == (s[0] as int - '0' as int) * 10 + (s[1] as int - '0' as int)
  {
    var first := s[..1];
    assert first[..0] == [] && first[0] == s[0];
    assert Num(first) == s[0] as int - '0' as int;
    assert Num(s) == Num(first) * 10 + (s[1] as int - '0' as int);
  }

  /** `"not-a-date"` passes through unchanged. */
  lemma ExampleNotADate(s: string)
    requires s == "not-a-date"
    ensures ConvertDateString(s) == s
  {
    assert ReplaceZ(s) == s by {
      assert forall i :: 0 <= i < |s| ==> s[i] != 'Z';
      ReplaceZKeeps(s);
    }
    assert !IsDigit(s[..4][0]);
  }

  /** `"2023-03-22 garbage"` passes through unchanged: the date part is
      valid, but what follows it is not a time. */
  lemma ExampleBadSuffix(s: string)
    requires s == "2023-03-22 garbage"
    ensures ConvertDateString(s) == s
  {
    assert ReplaceZ(s) == s by {
      assert forall i :: 0 <= i < |s| ==> s[i] != 'Z';
      ReplaceZKeeps(s);
    }
    GarbageSuffix(s[10..]);
  }

  lemma GarbageSuffix(t: string)
    requires t == " garbage"
    ensures !TimeSuffixOk(t)
  {
    assert forall k :: 1 <= k < |t| ==> t[k] != '+' && t[k] != '-';
    assert SignIndex(t, 1) == |t|;
    assert t[1..|t|][..2][0] == 'g';
  }

  /** A clock is made of digits, `:` and `.` only. */
  lemma ClockChars(t: string)
    requires ClockOk(t)
    ensures forall i :: 0 <= i < |t| ==> IsDigit(t[i]) || t[i] == ':' || t[i] == '.'
  {
    assert forall i :: 0 <= i < 2 ==> t[i] == t[..2][i];
    if |t| >= 5 {
      assert forall i :: 3 <= i < 5 ==> t[i] == t[3..5][i - 3];
    }
    if |t| >= 8 {
      assert forall i :: 6 <= i < 8 ==> t[i] == t[6..8][i - 6];
    }
    if |t| > 8 {
      assert forall i :: 9 <= i < |t| ==> t[i] == t[9..][i - 9];
    }
  }

  /** A date, `T`, an accepted clock and an accepted offset convert to the
      formatted date: the clock and the offset are read and dropped, the
      offset is not applied. */
  lemma DateTimeConverted(d: Date, clock: string, z: string)
    requires ValidDate(d) && ClockOk(clock) && OffsetOk(z)
    ensures ConvertDateString(IsoText(d) + ("T" + clock + z)) == FormatDate(d)
  {
    DateTimeHasNoZ(d, clock, z);
    SuffixOk(clock, z);
    ParseIsoText(d, "T" + clock + z);
  }

  /** The replacement leaves a date-time without `Z` as it is. */
  lemma DateTimeHasNoZ(d: Date, clock: string, z: string)
    requires ValidDate(d) && ClockOk(clock) && OffsetOk(z)
    ensures ReplaceZ(IsoText(d) + ("T" + clock + z)) == IsoText(d) + ("T" + clock + z)
  {
    IsoHasNoZ(d);
    SuffixHasNoZ(clock, z);
    KeepsWithoutZ(IsoText(d), "T" + clock + z);
  }

  /** `T`, a clock and an offset hold no `Z`. */
  lemma SuffixHasNoZ(clock: string, z: string)
    requires ClockOk(clock) && OffsetOk(z)
    ensures var t := "T" + clock + z;
            forall i :: 0 <= i < |t| ==> t[i] != 'Z'
  {
    ClockChars(clock);
    OffsetHasNoZ(z);
    var t := "T" + clock + z;
    assert forall i :: 1 <= i < 1 + |clock| ==> t[i] == clock[i - 1];
    assert forall i :: 1 + |clock| <= i < |t| ==> t[i] == z[i - 1 - |clock|];
  }

  /** Two texts without `Z` are kept together as they are. */
  lemma KeepsWithoutZ(a: string, b: string)
    requires forall i :: 0 <= i < |a| ==> a[i] != 'Z'
    requires forall i :: 0 <= i < |b| ==> b[i] != 'Z'
    ensures ReplaceZ(a + b) == a + b
  {
    ReplaceZKeeps(a);
    ReplaceZKeeps(b);
    ReplaceZAppend(a, b);
  }

  /** A trailing `Z` on a date-time reads as the `+00:00` offset: the
      result is the formatted date, not the input. */
  lemma ZuluSuffix(d: Date, clock: string)
    requires ValidDate(d) && ClockOk(clock)
    ensures ConvertDateString(IsoText(d) + ("T" + clock + "Z")) == FormatDate(d)
  {
    ZuluReplaced(d, clock);
    var utc := "+00:00";
    assert utc[1..3] == "00" && utc[3] == ':' && utc[4..6] == "00";
    ZeroField("00");
    SuffixOk(clock, "+00:00");
    ParseIsoText(d, "T" + clock + "+00:00");
  }

  lemma ZuluReplaced(d: Date, clock: string)
    requires ValidDate(d) && ClockOk(clock)
    ensures ReplaceZ(IsoText(d) + ("T" + clock + "Z")) == IsoText(d) + ("T" + clock + "+00:00")
  {
    IsoHasNoZ(d);
    ReplaceZKeeps(IsoText(d));
    ReplaceZAppend(IsoText(d), "T" + clock + "Z");
    ZuluTail(clock);
  }

  /** After `T` and a clock, which hold no `Z`, only the final `Z` is
      replaced. */
  lemma ZuluTail(clock: string)
    requires ClockOk(clock)
    ensures ReplaceZ("T" + clock + "Z") == "T" + clock + "+00:00"
  {
    var head := "T" + clock;
    ClockChars(clock);
    assert forall i :: 1 <= i < |head| ==> head[i] == clock[i - 1];
    ReplaceTrailingZ(head, "Z");
  }

  /** An offset is made of a sign, digits and `:` only. */
  lemma OffsetHasNoZ(z: string)
    requires OffsetOk(z)
    ensures forall i :: 0 <= i < |z| ==> z[i] != 'Z'
  {
    if |z| > 0 {
      assert forall i :: 1 <= i < 3 ==> z[i] == z[1..3][i - 1];
      if |z| == 6 {
        assert forall i :: 4 <= i < 6 ==> z[i] == z[4..6][i - 4];
      } else {
        assert forall i :: 3 <= i < 5 ==> z[i] == z[3..5][i - 3];
      }
    }
  }

  /** One trailing `Z` after a text without `Z` becomes `+00:00`. */
  lemma ReplaceTrailingZ(head: string, z: string)
    requires z == "Z"
    requires forall i :: 0 <= i < |head| ==> head[i] != 'Z'
    ensures ReplaceZ(head + z) == head + "+00:00"
  {
    ReplaceZKeeps(head);
    ReplaceZAppend(head, z);
    assert z[1..] == [];
  }

  lemma IsoHasNoZ(d: Date)
    requires ValidDate(d)
    ensures forall i :: 0 <= i < |IsoText(d)| ==> IsoText(d)[i] != 'Z'
  {
    var iso := IsoText(d);
    assert forall i :: 0 <= i < 4 ==> iso[i] == iso[..4][i];
    assert forall i :: 5 <= i < 7 ==> iso[i] == iso[5..7][i - 5];
    assert forall i :: 8 <= i < 10 ==> iso[i] == iso[8..10][i - 8];
  }

  /** An accepted clock and offset after `T` form an accepted suffix: the
      clock holds no sign, so the offset starts at its sign. */
  lemma SuffixOk(clock: string, z: string)
    requires ClockOk(clock) && OffsetOk(z)
    ensures TimeSuffixOk("T" + clock + z)
  {
    var suffix := "T" + clock + z;
    ClockChars(clock);
    assert forall k :: 1 <= k < 1 + |clock| ==> suffix[k] == clock[k - 1];
    if z != [] {
      assert suffix[1 + |clock|] == z[0];
      SignIndexSkips(suffix, 1, 1 + |clock|);
    }
    assert SignIndex(suffix, 1) == 1 + |clock|;
    assert suffix[1..1 + |clock|] == clock;
    assert suffix[1 + |clock|..] == z;
  }

  lemma {:induction false} SignIndexSkips(t: string, i: nat, j: nat)
    requires i <= j < |t| && (t[j] == '+' || t[j] == '-')
    requires forall k :: i <= k < j ==> t[k] != '+' && t[k] != '-'
    ensures SignIndex(t, i) == j
    decreases j - i
  {
    if i < j {
      SignIndexSkips(t, i + 1, j);
    }
  }

  lemma {:induction false} ReplaceZAppend(a: string, b: string)
    ensures ReplaceZ(a + b) == ReplaceZ(a) + ReplaceZ(b)
  {
    if a != [] {
      assert (a + b)[0] == a[0];
      assert (a + b)[1..] == a[1..] + b;
      ReplaceZAppend(a[1..], b);
    } else {
      assert a + b == b;
    }
  }
}
