/**
  Date-only strings of the events route (`YYYY-MM-DD`, the `full-date` of
  section 5.6 of RFC 3339): the `isIsoDateOnly` shape test, the
  `addDaysIsoDateOnly` day arithmetic through `Date.UTC`, and how such
  strings compare with JavaScript's `<`.
 */
module IsoDates {
  import opened Strings
  import opened Dates

  /** A JavaScript value as a parsed JSON request body delivers it. */
  datatype JsValue = Undefined | Null | JsString(s: string) | JsOther

  /** One position of an anchored regular expression without repetition. */
  datatype Atom = AnyDigit | Literal(c: char)

  /** `/^\d{4}-\d{2}-\d{2}$/`, one atom per character. */
  const IsoPattern: seq<Atom> :=
    [AnyDigit, AnyDigit, AnyDigit, AnyDigit, Literal('-'), AnyDigit, AnyDigit, Literal('-'), AnyDigit, AnyDigit]

  predicate AtomMatches(a: Atom, c: char) {
    match a
    case AnyDigit => IsDigit(c)
    case Literal(l) => c == l
  }

  /** `^...$` matching of a repetition-free pattern: exactly one character per atom. */
  predicate FullMatch(p: seq<Atom>, s: string) {
    |s| == |p| && forall i :: 0 <= i < |s| ==> AtomMatches(p[i], s[i])
  }

  predicate IsIsoDateString(s: string) {
    FullMatch(IsoPattern, s)
  }

  /** `isIsoDateOnly(v)`: a string matching the pattern. */
  predicate IsIsoDateOnly(v: JsValue) {
    v.JsString? && IsIsoDateString(v.s)
  }

  /** The pattern accepts exactly four digits, '-', two digits, '-', two digits. */
  lemma IsoShape(s: string)
    ensures IsIsoDateString(s) <==>
              && |s| == 10 && s[4] == '-' && s[7] == '-'
              && AllDigits(s[..4]) && AllDigits(s[5..7]) && AllDigits(s[8..])
  {
    if |s| == 10 && s[4] == '-' && s[7] == '-' && AllDigits(s[..4]) && AllDigits(s[5..7]) && AllDigits(s[8..]) {
      forall i | 0 <= i < 10 ensures AtomMatches(IsoPattern[i], s[i]) {
        if i < 4 { assert s[i] == s[..4][i]; }
        else if 5 <= i < 7 { assert s[i] == s[5..7][i - 5]; }
        else if 8 <= i { assert s[i] == s[8..][i - 8]; }
      }
    }
    if IsIsoDateString(s) {
      assert AtomMatches(IsoPattern[4], s[4]) && AtomMatches(IsoPattern[7], s[7]);
      forall i | 0 <= i < 4 ensures IsDigit(s[..4][i]) {
        assert AtomMatches(IsoPattern[i], s[i]);
      }
      forall i | 0 <= i < 2 ensures IsDigit(s[5..7][i]) && IsDigit(s[8..][i]) {
        assert AtomMatches(IsoPattern[5 + i], s[5 + i]);
        assert AtomMatches(IsoPattern[8 + i], s[8 + i]);
      }
    }
  }

  /** The shape is all that is tested: impossible months and days pass, short fields do not. */
  lemma ShapeOnly()
    ensures IsIsoDateString("2024-13-45")
    ensures IsIsoDateString("0000-00-00")
    ensures !IsIsoDateString("2024-1-05")
    ensures !IsIsoDateString("2024-01-05T00:00")
  {
    IsoShape("2024-13-45");
    IsoShape("0000-00-00");
  }

  /** The `full-date` text of a date: four-digit year, two-digit month and day. */
  function Iso(d: Date): (s: string)
    requires 0 <= d.year < 10000 && 0 <= d.month < 100 && 0 <= d.day < 100
    ensures IsIsoDateString(s)
    ensures s[..4] == Fixed(d.year, 4) && s[5..7] == Fixed(d.month, 2) && s[8..] == Fixed(d.day, 2)
  {
    var s := Fixed(d.year, 4) + ("-" + (Fixed(d.month, 2) + ("-" + Fixed(d.day, 2))));
    assert s[..4] == Fixed(d.year, 4) && s[5..7] == Fixed(d.month, 2) && s[8..] == Fixed(d.day, 2);
    IsoShape(s);
    s
  }

  /** `split("-")` cuts a matching string into its three fields. */
  lemma SplitIso(s: string)
    requires IsIsoDateString(s)
    ensures Split(s, '-') == [s[..4], s[5..7], s[8..]]
  {
    IsoShape(s);
    var y, m, d := s[..4], s[5..7], s[8..];
    assert '-' !in y && '-' !in m && '-' !in d by {
      assert forall i :: 0 <= i < 4 ==> y[i] != '-';
      assert forall i :: 0 <= i < 2 ==> m[i] != '-' && d[i] != '-';
    }
    var rest := m + ['-'] + d;
    assert s == y + (['-'] + rest);
    SplitPair(m, d, '-');
    SplitSep(rest, '-');
    SplitAfter(y, ['-'] + rest, '-');
    assert y + [] == y;
  }

  /** `isoDate.split("-").map((p) => parseInt(p, 10))` on a matching string. */
  function IsoFields(s: string): (nat, nat, nat)
    requires IsIsoDateString(s)
  {
    IsoShape(s);
    SplitIso(s);
    var parts := Split(s, '-');
    (DigitsValue(parts[0]), DigitsValue(parts[1]), DigitsValue(parts[2]))
  }

  /**
    `new Date(Date.UTC(y, monthIndex, day))`: months beyond 0..11 roll into
    neighbouring years and days beyond the month into neighbouring months.
   */
  function UtcDate(y: int, monthIndex: int, day: int): (r: ValidDate)
    ensures DayNumber(r) == CalendarDayNumber(FullYear(y) + monthIndex / 12, monthIndex % 12 + 1, 1) + day - 1
  {
    AddDays(MakeDate(FullYear(y) + monthIndex / 12, monthIndex % 12 + 1, 1), day - 1)
  }

  /** The date `addDaysIsoDateOnly` starts from: the fields, a 0 month or day read as 1, through `Date.UTC`. */
  function IsoStartDate(s: string): ValidDate
    requires IsIsoDateString(s)
  {
    var fields := IsoFields(s);
    StartFromFields(fields.0, fields.1, fields.2)
  }

  /** `new Date(Date.UTC(y, (m || 1) - 1, d || 1))`. */
  function StartFromFields(y: int, m: int, d: int): ValidDate {
    UtcDate(y, (if m == 0 then 1 else m) - 1, if d == 0 then 1 else d)
  }

  /** `${yy}-${mm}-${dd}` with month and day padded to two digits and the year as printed. */
  function Format(r: ValidDate): string {
    IntToString(r.year) + "-" + PadStart(NatToString(r.month), 2, '0') + "-" + PadStart(NatToString(r.day), 2, '0')
  }

  /** `addDaysIsoDateOnly(isoDate, days)`. */
  function AddDaysIsoDateOnly(isoDate: string, days: int): string
    requires IsIsoDateString(isoDate)
  {
    Format(AddDays(IsoStartDate(isoDate), days))
  }

  /** The fields read back from a `full-date` are the ones written. */
  lemma FieldsOfIso(d: Date)
    requires 0 <= d.year < 10000 && 0 <= d.month < 100 && 0 <= d.day < 100
    ensures IsoFields(Iso(d)) == (d.year, d.month, d.day)
  {
    var s := Iso(d);
    Pow10Values();
    SplitIso(s);
    FixedValue(d.year, 4);
    FixedValue(d.month, 2);
    FixedValue(d.day, 2);
  }

  lemma Pow10Values()
    ensures Pow10(2) == 100 && Pow10(3) == 1000 && Pow10(4) == 10000
  {
  }

  /** A real date written as `full-date` (years 100 and later) is read back as itself. */
  lemma StartOfIso(d: ValidDate)
    requires 100 <= d.year < 10000
    ensures IsoStartDate(Iso(d)) == d
  {
    FieldsOfIso(d);
    StartDayNumber(Iso(d));
    DayNumberOrder(IsoStartDate(Iso(d)), d);
  }

  /** Year, month and day in the ranges of a four-digit-year date print as their fixed-width fields. */
  lemma FieldsText(y: nat, m: nat, d: nat)
    requires 1000 <= y < 10000 && m < 100 && d < 100
    ensures IntToString(y) + "-" + PadStart(NatToString(m), 2, '0') + "-" + PadStart(NatToString(d), 2, '0')
            == Fixed(y, 4) + ("-" + (Fixed(m, 2) + ("-" + Fixed(d, 2))))
  {
    Pow10Values();
    NatToStringFixed(y, 4);
    PadTwo(m);
    PadTwo(d);
    Assoc5(IntToString(y), "-", PadStart(NatToString(m), 2, '0'), "-", PadStart(NatToString(d), 2, '0'));
  }

  lemma Assoc5<T>(a: seq<T>, b: seq<T>, c: seq<T>, d: seq<T>, e: seq<T>)
    ensures a + b + c + d + e == a + (b + (c + (d + e)))
  {
  }

  /** A date in years 1000..9999 prints under `Format` exactly as its `full-date`. */
  lemma FormatIsIso(r: ValidDate)
    requires 1000 <= r.year < 10000
    ensures Format(r) == Iso(r)
  {
    FieldsText(r.year, r.month, r.day);
  }

  /** Adding days to a `full-date` string is calendar arithmetic while the years stay four-digit. */
  lemma AddDaysRoundTrip(d: ValidDate, n: int)
    requires 1000 <= d.year < 10000
    requires 1000 <= AddDays(d, n).year < 10000
    ensures AddDaysIsoDateOnly(Iso(d), n) == Iso(AddDays(d, n))
    ensures DayNumber(IsoStartDate(AddDaysIsoDateOnly(Iso(d), n))) == DayNumber(d) + n
  {
    StartOfIso(d);
    FormatIsIso(AddDays(d, n));
    StartOfIso(AddDays(d, n));
  }

  /** JavaScript `<` on `full-date` texts is the order of (year, month, day). */
  lemma IsoFieldOrder(a: Date, b: Date)
    requires 0 <= a.year < 10000 && 0 <= a.month < 100 && 0 <= a.day < 100
    requires 0 <= b.year < 10000 && 0 <= b.month < 100 && 0 <= b.day < 100
    ensures LexLess(Iso(a), Iso(b)) <==> Before(a, b)
    ensures Iso(a) == Iso(b) <==> a.year == b.year && a.month == b.month && a.day == b.day
  {
    assert Pow10(4) == 10000 && Pow10(2) == 100;
    FixedOrder(a.year, b.year, 4);
    FixedOrder(a.month, b.month, 2);
    FixedOrder(a.day, b.day, 2);
    var da, db := Fixed(a.day, 2), Fixed(b.day, 2);
    var ma, mb := Fixed(a.month, 2) + ("-" + da), Fixed(b.month, 2) + ("-" + db);
    LexAppend("-", da, "-", db);
    LexAppend(Fixed(a.month, 2), "-" + da, Fixed(b.month, 2), "-" + db);
    LexAppend("-", ma, "-", mb);
    LexAppend(Fixed(a.year, 4), "-" + ma, Fixed(b.year, 4), "-" + mb);
    assert Iso(a) == Iso(b) ==> a.year == b.year && a.month == b.month && a.day == b.day by {
      assert Iso(a) == Iso(b) ==> Iso(a)[..4] == Iso(b)[..4] && Iso(a)[5..7] == Iso(b)[5..7] && Iso(a)[8..] == Iso(b)[8..];
    }
  }

  /** JavaScript `<` on `full-date` strings is calendar order. */
  lemma IsoOrder(a: ValidDate, b: ValidDate)
    requires 0 <= a.year < 10000 && 0 <= b.year < 10000
    ensures LexLess(Iso(a), Iso(b)) <==> DayNumber(a) < DayNumber(b)
    ensures Iso(a) == Iso(b) <==> a == b
  {
    IsoFieldOrder(a, b);
    DayNumberOrder(a, b);
  }

  /** The next-day string of a `full-date` other than 9999-12-31 sorts after it. */
  lemma NextDayIsLater(d: ValidDate)
    requires 1000 <= d.year < 10000
    requires !(d.year == 9999 && d.month == 12 && d.day == 31)
    ensures 1000 <= AddDays(d, 1).year < 10000
    ensures AddDaysIsoDateOnly(Iso(d), 1) == Iso(AddDays(d, 1))
    ensures LexLess(Iso(d), AddDaysIsoDateOnly(Iso(d), 1))
  {
    var n := AddDays(d, 1);
    assert n == NextDay(d);
    AddDaysRoundTrip(d, 1);
    IsoOrder(d, n);
  }

  /** `Format` is the year as printed, then the two-digit month and day fields. */
  lemma FormatText(r: ValidDate)
    requires r.year >= 0
    ensures Format(r) == NatToString(r.year) + ("-" + (Fixed(r.month, 2) + ("-" + Fixed(r.day, 2))))
  {
    assert r.month < 100 && r.day < 100;
    PadTwo(r.month);
    PadTwo(r.day);
    Assoc5(IntToString(r.year), "-", PadStart(NatToString(r.month), 2, '0'), "-", PadStart(NatToString(r.day), 2, '0'));
  }

  /** Within one year (month index 0..11), `Date.UTC` counts `day` days from the first of the month. */
  lemma UtcDayNumber(y: int, monthIndex: int, day: int)
    requires 0 <= monthIndex < 12
    ensures DayNumber(UtcDate(y, monthIndex, day)) == CalendarDayNumber(FullYear(y), monthIndex + 1, day)
  {
    assert monthIndex / 12 == 0 && monthIndex % 12 == monthIndex;
    var yy := FullYear(y);
    assert yy + monthIndex / 12 == yy;
    assert CalendarDayNumber(yy, monthIndex + 1, 1) + day - 1 == CalendarDayNumber(yy, monthIndex + 1, day);
  }

  /**
    The date a matching string with a month field of at most 12 starts
    from: a month or day field of 00 counts as 1, a day past the end of
    the month runs on into the next, and years 0..99 are read as 19xx.
   */
  lemma StartDayNumber(s: string)
    requires IsIsoDateString(s)
    requires IsoFields(s).1 <= 12
    ensures var (y, m, dd) := IsoFields(s);
            DayNumber(IsoStartDate(s)) == CalendarDayNumber(FullYear(y), if m == 0 then 1 else m, if dd == 0 then 1 else dd)
  {
    var f := IsoFields(s);
    FieldsDayNumber(f.0, f.1, f.2);
  }

  /** `StartFromFields` for a month of at most 12 counts from the fields, each 0 read as 1. */
  lemma FieldsDayNumber(y: int, m: int, d: int)
    requires 0 <= m <= 12
    ensures DayNumber(StartFromFields(y, m, d)) == CalendarDayNumber(FullYear(y), if m == 0 then 1 else m, if d == 0 then 1 else d)
  {
    UtcDayNumber(y, (if m == 0 then 1 else m) - 1, if d == 0 then 1 else d);
  }

  /** The fields of a matching string, with no weekday. */
  function FieldsDate(s: string): Date
    requires IsIsoDateString(s)
  {
    var f := IsoFields(s);
    Date(f.0, f.1, f.2, 0)
  }

  /** A matching string is the `full-date` text of its own fields. */
  lemma IsoOfFields(s: string)
    requires IsIsoDateString(s)
    ensures FieldsDate(s).year < 10000 && FieldsDate(s).month < 100 && FieldsDate(s).day < 100
    ensures Iso(FieldsDate(s)) == s
  {
    IsoShape(s);
    SplitIso(s);
    Pow10Values();
    DigitsFixed(s[..4]);
    DigitsFixed(s[5..7]);
    DigitsFixed(s[8..]);
    var t := Iso(FieldsDate(s));
    assert t[4] == '-' && t[7] == '-' by { IsoShape(t); }
    assert s == s[..4] + [s[4]] + s[5..7] + [s[7]] + s[8..];
    assert t == t[..4] + [t[4]] + t[5..7] + [t[7]] + t[8..];
  }

  /**
    The day after the date `addDaysIsoDateOnly` starts from comes after the
    fields it was read from: a 00 month or day only moves it later, as do
    days and months that roll over and the 19xx reading of years 0..99.
   */
  lemma NextDayAfterFields(y: nat, m: nat, d: nat)
    requires y < 10000 && m < 100 && d < 100
    ensures Before(Date(y, m, d, 0), AddDays(StartFromFields(y, m, d), 1))
    ensures y <= 99 ==> AddDays(StartFromFields(y, m, d), 1).year >= 1900
  {
    var y0, mon := StartMonth(y, m);
    var k := if d == 0 then 1 else d;
    var e := AddDays(StartFromFields(y, m, d), 1);
    NextDayNumber(y, m, d, y0, mon);
    LaterInMonth(y0, mon, e, k);
  }

  lemma NextDayNumber(y: nat, m: nat, d: nat, y0: int, mon: int)
    requires m < 100
    requires var mi := (if m == 0 then 1 else m) - 1; y0 == FullYear(y) + mi / 12 && mon == mi % 12 + 1
    ensures DayNumber(AddDays(StartFromFields(y, m, d), 1)) == CalendarDayNumber(y0, mon, 1) + (if d == 0 then 1 else d)
  {
  }

  /** The year and month `Date.UTC` starts from for the fields `y` and `m`; never before them. */
  lemma StartMonth(y: nat, m: nat) returns (y0: int, mon: int)
    requires m < 100
    ensures var mi := (if m == 0 then 1 else m) - 1; y0 == FullYear(y) + mi / 12 && mon == mi % 12 + 1
    ensures 1 <= mon <= 12
    ensures y0 > y || (y0 == y && (m == 0 || mon == m))
    ensures y <= 99 ==> y0 >= 1900
  {
    var mi := (if m == 0 then 1 else m) - 1;
    y0, mon := FullYear(y) + mi / 12, mi % 12 + 1;
    if mi < 12 {
      assert mi / 12 == 0 && mi % 12 == mi;
    } else {
      assert mi / 12 >= 1;
    }
  }

  /** A date `k >= 1` days after the first of a month comes after it, on day `k + 1` if still in that month. */
  lemma LaterInMonth(y: int, mon: int, e: ValidDate, k: int)
    requires 1 <= mon <= 12 && k >= 1 && DayNumber(e) == CalendarDayNumber(y, mon, 1) + k
    ensures e.year > y || (e.year == y && (e.month > mon || (e.month == mon && e.day == k + 1)))
  {
    var first: ValidDate := MakeDate(y, mon, 1);
    DayNumberOrder(first, e);
  }

  /**
    `addDaysIsoDateOnly(s, 1)` sorts after `s` for every matching string,
    real date or not, unless the year of the day it prints reaches 10000.
   */
  lemma NextDayTextAfter(s: string)
    requires IsIsoDateString(s)
    requires AddDays(IsoStartDate(s), 1).year < 10000
    ensures LexLess(s, AddDaysIsoDateOnly(s, 1))
  {
    IsoOfFields(s);
    var f := FieldsDate(s);
    var e := AddDays(IsoStartDate(s), 1);
    assert IsoStartDate(s) == StartFromFields(f.year, f.month, f.day);
    NextDayAfterFields(f.year, f.month, f.day);
    TextBeforeLater(f, e);
  }

  /** The text of fields sorts before the printed text of a later date with a year below 10000. */
  lemma TextBeforeLater(f: Date, e: ValidDate)
    requires 0 <= f.year < 10000 && 0 <= f.month < 100 && 0 <= f.day < 100
    requires Before(f, e) && e.year < 10000
    requires f.year <= 99 ==> e.year >= 1900
    ensures LexLess(Iso(f), Format(e))
  {
    if e.year >= 1000 {
      assert e.month <= 12 && e.day <= 31;
      FormatIsIso(e);
      IsoFieldOrder(f, e);
      assert LexLess(Iso(f), Iso(e));
    } else {
      ShortYearFirst(f, e);
    }
  }

  /** A three-digit printed year sorts after any `full-date` text of a year below 1000. */
  lemma ShortYearFirst(f: Date, e: ValidDate)
    requires 0 <= f.year < 1000 && 0 <= f.month < 100 && 0 <= f.day < 100
    requires 100 <= e.year
    ensures LexLess(Iso(f), Format(e))
  {
    Pow10Values();
    FixedLeadingZero(f.year, 4);
    var t := Iso(f);
    assert t[0] == t[..4][0] == '0';
    NatToStringLead(e.year);
    FormatText(e);
    LeadDigitOrder(t, Format(e), NatToString(e.year));
  }

  /** A text starting with '0' sorts before one that starts with another digit. */
  lemma LeadDigitOrder(a: string, b: string, p: string)
    requires a != [] && a[0] == '0'
    requires p != [] && IsDigit(p[0]) && p[0] != '0' && |p| <= |b| && b[..|p|] == p
    ensures LexLess(a, b)
  {
    assert b[0] == b[..|p|][0];
  }

  /** Two-digit years are read as 19xx: 0099-12-31 is taken for 1999-12-31. */
  lemma TwoDigitYear(d: Date)
    requires 0 <= d.year <= 99 && 1 <= d.month <= 12 && 1 <= d.day <= 31
    ensures DayNumber(IsoStartDate(Iso(d))) == CalendarDayNumber(d.year + 1900, d.month, d.day)
  {
    FieldsOfIso(d);
    StartDayNumber(Iso(d));
  }

  /** The day after 9999-12-31 has a five-digit year: not a `full-date`, and it sorts before the start. */
  lemma PastYear9999(d: ValidDate)
    requires d.year == 9999 && d.month == 12 && d.day == 31
    ensures var e := AddDaysIsoDateOnly(Iso(d), 1);
            !IsIsoDateString(e) && LexLess(e, Iso(d))
  {
    StartOfIso(d);
    var next := NextDay(d);
    assert AddDays(d, 1) == next;
    assert next.year == 10000;
    FormatText(next);
    YearTexts();
  }

  lemma YearTexts()
    ensures NatToString(10000) == "10000" && Fixed(9999, 4) == "9999"
  {
  }
}
