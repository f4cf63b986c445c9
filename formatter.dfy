/**
 * The date formatter (core/src/main/java/com/maddy/calendar/core/Formatter.kt):
 * Latin digits and English names for AD, Devanagari digits and Nepali names
 * for BS, and `format`, which replaces pattern tokens left to right.
 *
 * Strings are sequences of Unicode scalar values; every character used here
 * lies in the Basic Multilingual Plane, so `substring(0, 3)` on a JVM string
 * takes the same three characters as `[..3]` here.
 */
module Formatter {
  import opened Months
  import opened Weekdays
  import opened Dates
  import Conversion

  /** Kotlin's nullable argument, `type: ILocalDate.Type? = null`. */
  datatype Option<T> = None | Some(value: T)

  // ---------------------------------------------------------------------------
  // Digits

  /** `npNumberChars`: the Devanagari digit for each value 0..9. */
  const NpDigits: seq<char> := ['०', '१', '२', '३', '४', '५', '६', '७', '८', '९']

  /** The ASCII digit for a value 0..9. */
  function DigitChar(n: int): (c: char)
    requires 0 <= n <= 9
    ensures '0' <= c <= '9' && c as int - '0' as int == n
  {
    ('0' as int + n) as char
  }

  /** `toString()` of a non-negative number: its decimal digits, most significant first. */
  function Digits(n: nat): (s: string)
    ensures |s| >= 1
  {
    if n < 10 then [DigitChar(n)] else Digits(n / 10) + [DigitChar(n % 10)]
  }

  /** `Int.toString()`: a minus sign before the digits of a negative number. */
  function DecimalString(n: int): (s: string)
    ensures n >= 0 ==> s == Digits(n)
    ensures n < 0 ==> s == ['-'] + Digits(-n)
  {
    if n < 0 then ['-'] + Digits(-n) else Digits(n)
  }

  /** The number a string of ASCII digits denotes. */
  function DigitsValue(s: string): int
  {
    if |s| == 0 then 0 else DigitsValue(s[..|s| - 1]) * 10 + (s[|s| - 1] as int - '0' as int)
  }

  /** Reading the digits back gives the number. */
  lemma {:induction false} DigitsRoundTrip(n: nat)
    ensures DigitsValue(Digits(n)) == n
  {
    var s := Digits(n);
    if n >= 10 {
      DigitsRoundTrip(n / 10);
      assert s[..|s| - 1] == Digits(n / 10);
    }
  }

  /** Leading zeros do not change the value. */
  lemma {:induction false} LeadingZeros(k: nat, s: string)
    ensures DigitsValue(seq(k, _ => '0') + s) == DigitsValue(s)
    decreases |s|
  {
    var z := seq(k, _ => '0');
    if |s| == 0 {
      ZerosValue(k);
      assert z + s == z;
    } else {
      var t := z + s;
      assert t[..|t| - 1] == z + s[..|s| - 1];
      LeadingZeros(k, s[..|s| - 1]);
    }
  }

  /** A string of zeros denotes zero. */
  lemma {:induction false} ZerosValue(k: nat)
    ensures DigitsValue(seq(k, _ => '0')) == 0
  {
    if k > 0 {
      var z := seq(k, _ => '0');
      assert z[..k - 1] == seq(k - 1, _ => '0');
      ZerosValue(k - 1);
    }
  }

  /** The Devanagari digit in place of each ASCII digit; other characters are kept. */
  function TransliterateChar(c: char): (r: char)
    ensures '0' <= c <= '9' ==> r == NpDigits[c as int - '0' as int]
    ensures !('0' <= c <= '9') ==> r == c
  {
    if '0' <= c <= '9' then NpDigits[c as int - '0' as int] else c
  }

  /** `TransliterateChar` on every character. */
  function Transliterate(s: string): (r: string)
    ensures |r| == |s|
  {
    if |s| == 0 then [] else Transliterate(s[..|s| - 1]) + [TransliterateChar(s[|s| - 1])]
  }

  /** Each character is transliterated in place. */
  lemma {:induction false} TransliterateAt(s: string, i: int)
    requires 0 <= i < |s|
    ensures Transliterate(s)[i] == TransliterateChar(s[i])
    decreases |s|
  {
    if i < |s| - 1 {
      TransliterateAt(s[..|s| - 1], i);
    }
  }

  /** Transliteration works piece by piece. */
  lemma {:induction false} TransliterateConcat(a: string, b: string)
    ensures Transliterate(a + b) == Transliterate(a) + Transliterate(b)
    decreases |b|
  {
    if |b| == 0 {
      assert a + b == a;
    } else {
      var ab := a + b;
      assert ab[..|ab| - 1] == a + b[..|b| - 1];
      TransliterateConcat(a, b[..|b| - 1]);
    }
  }

  /** `npNumberChars[n].toString()`: the digit for 0..9, and "null" for a key the map lacks. */
  function NpCharOrNull(n: int): (s: string)
    ensures 0 <= n <= 9 ==> s == [NpDigits[n]]
    ensures !(0 <= n <= 9) ==> s == "null"
  {
    if 0 <= n <= 9 then [NpDigits[n]] else "null"
  }

  /**
   * `getNpCharacter(number, prefix)`: the last digit is rendered and put in
   * front of the prefix, and the rest of the number recurses. A number from 10
   * up is positive, so the JVM `/` and `%` here are Dafny's.
   */
  function GetNpCharacter(number: int, prefix: string): string
  {
    if number >= 10 then GetNpCharacter(number / 10, GetNpCharacter(number % 10, "") + prefix)
    else NpCharOrNull(number) + prefix
  }

  /** Appending one character appends its transliteration. */
  lemma TransliterateSnoc(s: string, c: char)
    ensures Transliterate(s + [c]) == Transliterate(s) + [TransliterateChar(c)]
  {
    assert (s + [c])[..|s|] == s;
  }

  /**
   * `getNpCharacter(n, prefix)` is the decimal rendering of n with Devanagari
   * digits, followed by the prefix.
   */
  lemma {:induction false} GetNpCharacterIsTransliteration(n: nat, prefix: string)
    ensures GetNpCharacter(n, prefix) == Transliterate(Digits(n)) + prefix
  {
    if n >= 10 {
      var last := [NpDigits[n % 10]];
      NpCharacterStep(n, prefix);
      GetNpCharacterIsTransliteration(n / 10, last + prefix);
      TransliteratedDigitsStep(n);
      AppendAssociative(Transliterate(Digits(n / 10)), last, prefix);
    } else {
      NpCharacterOfDigit(n, prefix);
    }
  }

  /** A single digit is looked up in the digit map. */
  lemma NpCharacterOfDigit(n: int, prefix: string)
    requires 0 <= n <= 9
    ensures GetNpCharacter(n, prefix) == Transliterate(Digits(n)) + prefix
  {
    var c := DigitChar(n);
    assert Digits(n) == [c];
    TransliterateSnoc([], c);
    assert [] + [c] == [c];
    assert TransliterateChar(c) == NpDigits[n];
  }

  lemma AppendAssociative(a: string, b: string, c: string)
    ensures a + (b + c) == (a + b) + c
  {
  }

  /** One step of `getNpCharacter`: the last digit joins the prefix. */
  lemma NpCharacterStep(n: int, prefix: string)
    requires n >= 10
    ensures GetNpCharacter(n, prefix) == GetNpCharacter(n / 10, [NpDigits[n % 10]] + prefix)
  {
    assert GetNpCharacter(n % 10, "") == [NpDigits[n % 10]];
  }

  /** The transliterated digits of n are those of n / 10 followed by its last digit. */
  lemma TransliteratedDigitsStep(n: nat)
    requires n >= 10
    ensures Transliterate(Digits(n)) == Transliterate(Digits(n / 10)) + [NpDigits[n % 10]]
  {
    TransliterateSnoc(Digits(n / 10), DigitChar(n % 10));
  }

  /** A negative number has no key in the digit map and renders as "null". */
  lemma GetNpCharacterOfNegative(n: int, prefix: string)
    requires n < 0
    ensures GetNpCharacter(n, prefix) == "null" + prefix
  {
  }

  /** With the empty prefix: the transliterated digits of n, or "null" for a negative n. */
  lemma NpCharacterOf(n: int)
    ensures n >= 0 ==> GetNpCharacter(n, "") == Transliterate(Digits(n))
    ensures n < 0 ==> GetNpCharacter(n, "") == "null"
  {
    if n >= 0 {
      GetNpCharacterIsTransliteration(n, "");
      assert Transliterate(Digits(n)) + "" == Transliterate(Digits(n));
    } else {
      GetNpCharacterOfNegative(n, "");
      assert "null" + "" == "null";
    }
  }

  /** `padStart(length, padChar)`: pad characters in front up to `length`; a longer string is kept. */
  function PadStart(s: string, length: nat, pad: char): (r: string)
    ensures |s| >= length ==> r == s
    ensures |s| < length ==> |r| == length && r[length - |s|..] == s
    ensures forall i :: 0 <= i < |r| - |s| ==> r[i] == pad
  {
    if |s| >= length then s else seq(length - |s|, _ => pad) + s
  }

  /** Transliteration commutes with padding by '0'. */
  lemma TransliteratePad(s: string)
    ensures Transliterate(PadStart(s, 2, '0')) == PadStart(Transliterate(s), 2, NpDigits[0])
  {
    if |s| < 2 {
      var z := seq(2 - |s|, _ => '0');
      TransliterateConcat(z, s);
      assert Transliterate(z) == seq(2 - |s|, _ => NpDigits[0]);
    }
  }

  // ---------------------------------------------------------------------------
  // Fields

  /** `dayName(day, type)`: AD pads the decimal day to two ASCII digits, BS to two Devanagari digits. */
  function DayName(day: int, kind: Kind): (s: string)
    ensures |s| >= 2
  {
    if kind == AD then PadStart(DecimalString(day), 2, '0')
    else PadStart(GetNpCharacter(day, ""), 2, NpDigits[0])
  }

  /** `yearName(year, type)`: the plain decimal year for AD, its Devanagari digits for BS. */
  function YearName(year: int, kind: Kind): string
  {
    if kind == AD then DecimalString(year) else GetNpCharacter(year, "")
  }

  /** `monthCharacter(month, type)`: the month value padded like a day. */
  function MonthCharacter(month: Month, kind: Kind): (s: string)
    ensures |s| == 2
  {
    NpCharacterOf(month.Value());
    DigitsLength(month.Value());
    if kind == AD then PadStart(DecimalString(month.Value()), 2, '0')
    else PadStart(GetNpCharacter(month.Value(), ""), 2, NpDigits[0])
  }

  /** A non-negative day reads the same in both calendars up to the digits: BS is AD transliterated. */
  lemma DayNameTransliterated(day: nat)
    ensures DayName(day, BS) == Transliterate(DayName(day, AD))
  {
    NpCharacterOf(day);
    TransliteratePad(Digits(day));
  }

  /** The AD rendering of a non-negative day reads back as the day, in two characters below 100. */
  lemma DayNameValue(day: nat)
    ensures DigitsValue(DayName(day, AD)) == day
    ensures day <= 99 ==> |DayName(day, AD)| == 2
  {
    var s := Digits(day);
    DigitsRoundTrip(day);
    if |s| < 2 {
      LeadingZeros(2 - |s|, s);
    }
    if day <= 99 {
      DigitsLength(day);
    }
  }

  /** A number below 100 has at most two digits. */
  lemma DigitsLength(n: nat)
    requires n <= 99
    ensures |Digits(n)| <= 2
  {
    if n >= 10 {
      assert Digits(n / 10) == [DigitChar(n / 10)];
    }
  }

  /** The year in BS is the AD rendering with Devanagari digits, for a year from 0 up; below 0 it is "null". */
  lemma YearNameDigits(year: int)
    ensures year >= 0 ==> YearName(year, BS) == Transliterate(YearName(year, AD))
    ensures year < 0 ==> YearName(year, BS) == "null"
  {
    NpCharacterOf(year);
  }

  /** The month is two digits, the BS ones the transliteration of the AD ones, and they read back as its value. */
  lemma MonthCharacterDigits(month: Month)
    ensures MonthCharacter(month, BS) == Transliterate(MonthCharacter(month, AD))
    ensures DigitsValue(MonthCharacter(month, AD)) == month.Value()
  {
    DayNameTransliterated(month.Value());
    DayNameValue(month.Value());
  }

  // ---------------------------------------------------------------------------
  // Names

  /** The map Formatter.kt calls `bsMonths`, which holds the English month names. */
  const EnglishMonths: seq<string> := ["January", "February", "March", "April", "May", "June",
    "July", "August", "September", "October", "November", "December"]

  /** `npMonths`: the Nepali month names. */
  const NepaliMonths: seq<string> := ["बैशाख", "जेठ", "असार", "श्रावण", "भदौ", "आश्विन",
    "कार्तिक", "मंसिर", "पुष", "माघ", "फाल्गुन", "चैत्र"]

  /**
   * `monthName(month, type, short)`: the Nepali name for BS whatever `short`
   * says; the English name for AD, cut to three characters when `short`. Every
   * value 1..12 is a key of both maps, so the `?: ""` fallback never applies.
   */
  function MonthName(month: Month, kind: Kind, short: bool): (s: string)
    ensures kind == BS ==> s == NepaliMonths[month.Ordinal()]
    ensures kind == AD && !short ==> s == EnglishMonths[month.Ordinal()]
    ensures kind == AD && short ==> |s| == 3 && s == EnglishMonths[month.Ordinal()][..3]
  {
    var o := month.Ordinal();
    if kind == BS then NepaliMonths[o]
    else if short then EnglishMonths[o][..3]
    else EnglishMonths[o]
  }

  /** Full names tell the months apart in both calendars, and so do the short English ones. */
  lemma MonthNamesDistinct(a: Month, b: Month, kind: Kind, short: bool)
    requires a != b
    ensures MonthName(a, kind, short) != MonthName(b, kind, short)
  {
    if kind == BS {
      NepaliMonthsDistinct(a.Ordinal(), b.Ordinal());
    } else {
      EnglishMonthsDistinct(a.Ordinal(), b.Ordinal());
    }
  }

  lemma NepaliMonthsDistinct(i: int, j: int)
    requires 0 <= i < 12 && 0 <= j < 12 && i != j
    ensures NepaliMonths[i] != NepaliMonths[j]
  {
    assert NepaliMonths[i][0] != NepaliMonths[j][0] || NepaliMonths[i][1] != NepaliMonths[j][1];
  }

  lemma EnglishMonthsDistinct(i: int, j: int)
    requires 0 <= i < 12 && 0 <= j < 12 && i != j
    ensures EnglishMonths[i][..3] != EnglishMonths[j][..3]
  {
    assert EnglishMonths[i][0] != EnglishMonths[j][0] || EnglishMonths[i][1] != EnglishMonths[j][1]
      || EnglishMonths[i][2] != EnglishMonths[j][2];
  }

  /** `npWeekDays`, indexed by ordinal from MONDAY. */
  const NepaliWeekDays: seq<string> := ["सोमबार", "मंगलबार", "बुधबार", "बिहिबार", "शुक्रबार", "शनिबार", "आइतबार"]

  /** The enum names lower-cased with the first letter capitalised, from MONDAY. */
  const EnglishWeekDays: seq<string> := ["Monday", "Tuesday", "Wednesday", "Thursday", "Friday", "Saturday", "Sunday"]

  /**
   * `weekDayName(dayOfWeek, type, short)`: the Nepali name for BS, the
   * capitalised enum name for AD, each cut to three characters when `short`.
   */
  function WeekDayName(day: DayOfWeek, kind: Kind, short: bool): (s: string)
    ensures var name := if kind == BS then NepaliWeekDays[day.Ordinal()] else EnglishWeekDays[day.Ordinal()];
      |name| >= 3 && s == if short then name[..3] else name
  {
    var name := if kind == BS then NepaliWeekDays[day.Ordinal()] else EnglishWeekDays[day.Ordinal()];
    if short then name[..3] else name
  }

  /** The full weekday names are pairwise distinct in both calendars. */
  lemma WeekDayNamesDistinct(a: DayOfWeek, b: DayOfWeek, kind: Kind)
    requires a != b
    ensures WeekDayName(a, kind, false) != WeekDayName(b, kind, false)
  {
    var oa, ob := a.Ordinal(), b.Ordinal();
    if kind == BS {
      assert NepaliWeekDays[oa][..3] != NepaliWeekDays[ob][..3] || NepaliWeekDays[oa] != NepaliWeekDays[ob];
    } else {
      assert EnglishWeekDays[oa][..2] != EnglishWeekDays[ob][..2] || EnglishWeekDays[oa] != EnglishWeekDays[ob];
    }
  }

  // ---------------------------------------------------------------------------
  // format

  /** The end of the run of `c` that continues the text from index `i`, looking no further than `cap`. */
  function RunEnd(text: string, c: char, i: nat, cap: nat): (n: nat)
    requires i <= cap && i <= |text|
    ensures i <= n <= cap && n <= |text|
    ensures forall j :: i <= j < n ==> text[j] == c
    ensures n < cap && n < |text| ==> text[n] != c
    decreases cap - i
  {
    if i == cap || i == |text| || text[i] != c then i else RunEnd(text, c, i + 1, cap)
  }

  /** How many copies of `c` the text starts with, counting at most `cap`. */
  function Run(text: string, c: char, cap: nat): (n: nat)
    ensures n <= cap && n <= |text|
    ensures forall i :: 0 <= i < n ==> text[i] == c
    ensures n < cap && n < |text| ==> text[n] != c
  {
    RunEnd(text, c, 0, cap)
  }

  /**
   * The length of the token that starts with `c` and is followed by `run - 1`
   * more copies of it (counting up to four), or 0 when none does: "y" must come
   * four times, "M" two to four times, "E" three or four, "h", "H", "m" and "s"
   * twice, while "d" and "a" stand alone.
   */
  function TokenLength(c: char, run: nat): (n: nat)
    requires 1 <= run <= 4
    ensures n <= run
  {
    if c == 'y' then (if run == 4 then 4 else 0)
    else if c == 'M' then (if run >= 2 then run else 0)
    else if c == 'E' then (if run >= 3 then run else 0)
    else if c == 'd' then (if run >= 2 then 2 else 1)
    else if c == 'h' || c == 'H' || c == 'm' || c == 's' then (if run >= 2 then 2 else 0)
    else if c == 'a' then 1
    else 0
  }

  /**
   * The length of the token the regular expression matches at the start of
   * `text`, or 0 where it matches nothing; the token is a run of its first
   * character.
   */
  function MatchLength(text: string): (n: nat)
    ensures n <= |text| && n <= 4
    ensures forall i :: 0 <= i < n ==> text[i] == text[0]
  {
    if |text| == 0 then 0 else TokenLength(text[0], Run(text, text[0], 4))
  }

  /**
   * The regular expression `yyyy|MMMM|MMM|MM|EEEE|EEE|dd|d|hh|HH|mm|ss|a`
   * at one position: the first alternative, in that order, that the text
   * starts with, or "" when none does.
   */
  function Alternation(text: string): string
  {
    if "yyyy" <= text then "yyyy"
    else if "MMMM" <= text then "MMMM"
    else if "MMM" <= text then "MMM"
    else if "MM" <= text then "MM"
    else if "EEEE" <= text then "EEEE"
    else if "EEE" <= text then "EEE"
    else if "dd" <= text then "dd"
    else if "d" <= text then "d"
    else if "hh" <= text then "hh"
    else if "HH" <= text then "HH"
    else if "mm" <= text then "mm"
    else if "ss" <= text then "ss"
    else if "a" <= text then "a"
    else ""
  }

  /** A token made of one repeated character is a prefix of the text exactly when the text's run of it is long enough. */
  lemma RunPrefix(text: string, token: string, c: char)
    requires 1 <= |token| <= 4 && forall i :: 0 <= i < |token| ==> token[i] == c
    ensures token <= text <==> Run(text, c, 4) >= |token|
    ensures token <= text ==> text[..|token|] == token
  {
  }

  /** Counting runs finds the same token as trying the alternatives in order. */
  lemma MatchLengthIsAlternation(text: string)
    ensures Alternation(text) == text[..MatchLength(text)]
  {
    if |text| > 0 {
      var c := text[0];
      if c == 'M' {
        AlternationOfMonth(text);
      } else if c == 'E' {
        AlternationOfWeekDay(text);
      } else if c == 'd' {
        AlternationOfDay(text);
      } else if c == 'y' {
        RunPrefix(text, "yyyy", 'y');
      } else if c == 'a' {
        RunPrefix(text, "a", 'a');
      } else if c == 'h' || c == 'H' || c == 'm' || c == 's' {
        AlternationOfTime(text);
      }
    }
  }

  lemma AlternationOfMonth(text: string)
    requires |text| > 0 && text[0] == 'M'
    ensures Alternation(text) == text[..MatchLength(text)]
  {
    RunPrefix(text, "MMMM", 'M');
    RunPrefix(text, "MMM", 'M');
    RunPrefix(text, "MM", 'M');
  }

  lemma AlternationOfWeekDay(text: string)
    requires |text| > 0 && text[0] == 'E'
    ensures Alternation(text) == text[..MatchLength(text)]
  {
    RunPrefix(text, "EEEE", 'E');
    RunPrefix(text, "EEE", 'E');
  }

  lemma AlternationOfDay(text: string)
    requires |text| > 0 && text[0] == 'd'
    ensures Alternation(text) == text[..MatchLength(text)]
  {
    RunPrefix(text, "dd", 'd');
    RunPrefix(text, "d", 'd');
  }

  lemma AlternationOfTime(text: string)
    requires |text| > 0 && (text[0] == 'h' || text[0] == 'H' || text[0] == 'm' || text[0] == 's')
    ensures Alternation(text) == text[..MatchLength(text)]
  {
    var c := text[0];
    RunPrefix(text, [c, c], c);
  }

  /** What each token of the pattern is replaced with, for one date and calendar. */
  datatype Replacements = Replacements(year: string, monthName: string, monthShort: string, month: string,
    weekDay: string, weekDayShort: string, day: string)

  /**
   * The replacement the `when` expression gives for each token, taken once for
   * a date: year, month and weekday names and the day in the chosen calendar;
   * the weekday is the one the `dayOfWeek` getter gives, as written.
   */
  function ReplacementsOf(date: Date, kind: Kind): (r: Replacements)
    ensures r.year == YearName(date.year, kind) && r.day == DayName(date.day, kind)
    ensures r.monthName == MonthName(date.month, kind, false) && r.monthShort == MonthName(date.month, kind, true)
    ensures r.month == MonthCharacter(date.month, kind)
    ensures var w := Conversion.DayOfWeekOfAsWritten(date);
      r.weekDay == WeekDayName(w, kind, false) && r.weekDayShort == WeekDayName(w, kind, true)
  {
    var dayOfWeek := Conversion.DayOfWeekOfAsWritten(date);
    Replacements(YearName(date.year, kind), MonthName(date.month, kind, false), MonthName(date.month, kind, true),
      MonthCharacter(date.month, kind), WeekDayName(dayOfWeek, kind, false), WeekDayName(dayOfWeek, kind, true),
      DayName(date.day, kind))
  }

  /**
   * The replacement for the token that is `length` copies of `c`: "yyyy",
   * "MMMM", "MMM", "MM", "EEEE", "EEE", "dd" and "d" take the date's fields,
   * while "hh", "HH", "mm", "ss" and "a" become empty.
   */
  function Render(c: char, length: nat, r: Replacements): string
  {
    if c == 'y' then r.year
    else if c == 'M' then (if length == 4 then r.monthName else if length == 3 then r.monthShort else r.month)
    else if c == 'E' then (if length == 4 then r.weekDay else r.weekDayShort)
    else if c == 'd' then r.day
    else ""
  }

  /** Left to right: replace the token matched at each position and resume after it; copy any other character. */
  function Scan(pattern: string, r: Replacements): string
    decreases |pattern|
  {
    if |pattern| == 0 then ""
    else
      var n := MatchLength(pattern);
      if n == 0 then [pattern[0]] + Scan(pattern[1..], r)
      else Render(pattern[0], n, r) + Scan(pattern[n..], r)
  }

  /** `format(date, pattern, type)`: the calendar of the names and digits defaults to the date's own. */
  function Format(date: Date, pattern: string, kind: Option<Kind> := None): string
  {
    Scan(pattern, ReplacementsOf(date, if kind.Some? then kind.value else date.kind))
  }

  /** The characters a token can start with: any other character is copied as it is. */
  predicate TokenStart(c: char)
  {
    c == 'y' || c == 'M' || c == 'E' || c == 'd' || c == 'h' || c == 'H' || c == 'm' || c == 's' || c == 'a'
  }

  /** A character that starts no token is copied and scanning resumes right after it. */
  lemma ScanLiteral(c: char, rest: string, r: Replacements)
    requires !TokenStart(c)
    ensures Scan([c] + rest, r) == [c] + Scan(rest, r)
  {
    var p := [c] + rest;
    assert p[0] == c && p[1..] == rest;
  }

  /** Text without token-start characters passes through unchanged in front of whatever follows it. */
  lemma {:induction false} ScanLiteralText(text: string, rest: string, r: Replacements)
    requires forall i :: 0 <= i < |text| ==> !TokenStart(text[i])
    ensures Scan(text + rest, r) == text + Scan(rest, r)
    decreases |text|
  {
    if |text| > 0 {
      assert text + rest == [text[0]] + (text[1..] + rest);
      ScanLiteral(text[0], text[1..] + rest, r);
      ScanLiteralText(text[1..], rest, r);
      assert text == [text[0]] + text[1..];
    } else {
      assert text + rest == rest;
    }
  }

  /** So a pattern without token-start characters is returned as it is. */
  lemma FormatLiteral(date: Date, pattern: string, kind: Option<Kind>)
    requires forall i :: 0 <= i < |pattern| ==> !TokenStart(pattern[i])
    ensures Format(date, pattern, kind) == pattern
  {
    ScanLiteralText(pattern, "", ReplacementsOf(date, if kind.Some? then kind.value else date.kind));
    assert pattern + "" == pattern;
  }

  /** A token followed by anything that does not lengthen it is rendered and scanning resumes after it. */
  lemma ScanToken(token: string, rest: string, r: Replacements)
    requires |token| >= 1 && MatchLength(token + rest) == |token|
    ensures Scan(token + rest, r) == Render(token[0], |token|, r) + Scan(rest, r)
  {
    var p := token + rest;
    assert p[0] == token[0] && p[|token|..] == rest;
  }

  /** `d` and `dd` render alike; after a single `d` anything but another `d` is scanned as usual. */
  lemma SingleAndDoubleDay(rest: string, r: Replacements)
    requires |rest| == 0 || rest[0] != 'd'
    ensures Scan("d" + rest, r) == r.day + Scan(rest, r)
    ensures Scan("dd" + rest, r) == r.day + Scan(rest, r)
  {
    var p, q := "d" + rest, "dd" + rest;
    assert p[1..] == rest && q[1..] == p;
    ScanToken("d", rest, r);
    ScanToken("dd", rest, r);
  }

  /** An hour, minute or second token vanishes whatever follows it; a third letter is left for the next match. */
  lemma TimeTokenVanishes(c: char, rest: string, r: Replacements)
    requires c == 'h' || c == 'H' || c == 'm' || c == 's'
    ensures Scan([c, c] + rest, r) == Scan(rest, r)
  {
    var p := [c, c] + rest;
    assert p[0] == c && p[1] == c;
    assert RunEnd(p, c, 0, 4) == RunEnd(p, c, 2, 4);
    assert MatchLength(p) == 2;
    assert Render(c, 2, r) == "";
    assert p[2..] == rest;
  }

  /** The am/pm marker `a` vanishes wherever it stands, inside words too. */
  lemma MarkerVanishes(rest: string, r: Replacements)
    ensures Scan("a" + rest, r) == Scan(rest, r)
  {
    var p := "a" + rest;
    assert p[0] == 'a' && p[1..] == rest;
    assert MatchLength(p) == 1;
    assert Render('a', 1, r) == "";
  }

  /** So "ss a" becomes a single space. */
  lemma ScanSecondsAndMarker(r: Replacements)
    ensures Scan("ss a", r) == " "
  {
    MarkerVanishes("", r);
    assert "a" + "" == "a";
    ScanLiteral(' ', "a", r);
    assert [' '] + "a" == " a";
    TimeTokenVanishes('s', " a", r);
    assert ['s', 's'] + " a" == "ss a";
  }

  /** "MM" is replaced with the two-digit month. */
  lemma ScanMonthDigits(r: Replacements)
    ensures Scan("MM", r) == r.month
  {
    ScanToken("MM", "", r);
    assert "MM" + "" == "MM";
  }

  /** The `monthName` property of ILocalDate, `format(this, "MM")`, is the two-digit month in the date's calendar. */
  lemma MonthNameProperty(date: Date)
    ensures Format(date, "MM") == MonthCharacter(date.month, date.kind)
  {
    ScanMonthDigits(ReplacementsOf(date, date.kind));
  }

  /** "MMM yyyy" is the short month name, a space and the year. */
  lemma ScanMonthTitle(r: Replacements)
    ensures Scan("MMM yyyy", r) == r.monthShort + " " + r.year
  {
    ScanToken("yyyy", "", r);
    assert "yyyy" + "" == "yyyy";
    ScanLiteral(' ', "yyyy", r);
    assert [' '] + "yyyy" == " yyyy";
    ScanToken("MMM", " yyyy", r);
    assert "MMM" + " yyyy" == "MMM yyyy";
  }

  /** A month title in the date's own calendar: the short month name, a space and the year. */
  lemma MonthTitle(date: Date)
    ensures Format(date, "MMM yyyy") == MonthName(date.month, date.kind, true) + " " + YearName(date.year, date.kind)
  {
    ScanMonthTitle(ReplacementsOf(date, date.kind));
  }

  /** "EEEE" is the full weekday name. */
  lemma ScanWeekDay(r: Replacements)
    ensures Scan("EEEE", r) == r.weekDay
  {
    ScanToken("EEEE", "", r);
    assert "EEEE" + "" == "EEEE";
  }

  /**
   * `format(date, "EEEE")` names the weekday the getter gives; for a valid
   * date outside AD 2002-01-01..04-13 that is the date's true weekday.
   */
  lemma FormatWeekDay(date: Date)
    ensures Format(date, "EEEE") == WeekDayName(Conversion.DayOfWeekOfAsWritten(date), date.kind, false)
    ensures Valid(date) && !Conversion.CountMisread(date)
      ==> Format(date, "EEEE") == WeekDayName(Conversion.DayOfWeekOf(date), date.kind, false)
  {
    ScanWeekDay(ReplacementsOf(date, date.kind));
    if Valid(date) && !Conversion.CountMisread(date) {
      Conversion.DayOfWeekAgreement(date);
    }
  }

  /** AD 2002-04-13, a Saturday, is formatted as a Monday. */
  lemma FormatWeekDayBeforeReference()
    ensures Format(Date(AD, 2002, AprilShrwan, 13), "EEEE") == WeekDayName(Weekdays.Monday, AD, false)
    ensures Conversion.DayOfWeekOf(Date(AD, 2002, AprilShrwan, 13)) == Weekdays.Saturday
  {
    Conversion.DayOfWeekBeforeReference();
    FormatWeekDay(Date(AD, 2002, AprilShrwan, 13));
  }
}
