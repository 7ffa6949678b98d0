/**
 * The `YYYY-MM-DD` form of `src/lib/date.ts`: `pad2`, `toISODate`,
 * `fromISODate` and the string comparison `isBefore`.
 */
module IsoDate {
  import opened Text
  import opened Calendar

  /** `pad2(n)`: a leading "0" below ten, the plain decimal otherwise. */
  function Pad2(n: int): string {
    if n < 10 then "0" + IntToString(n) else IntToString(n)
  }

  /** `toISODate(d)`: the year printed as is, month and day padded to two digits. */
  function ToISO(d: Date): string {
    IntToString(d.year) + "-" + Pad2(d.month) + "-" + Pad2(d.day)
  }

  /**
   * The strings `fromISODate` reads here: digits, a dash, two digits, a dash,
   * two digits. The year part may have any number of digits.
   */
  predicate IsISOShape(s: string) {
    |s| >= 7 && s[|s| - 6] == '-' && s[|s| - 3] == '-'
    && AllDigits(s[..|s| - 6]) && AllDigits(s[|s| - 5..|s| - 3]) && AllDigits(s[|s| - 2..])
  }

  function YearField(s: string): nat
    requires IsISOShape(s)
  {
    Value(s[..|s| - 6])
  }

  function MonthField(s: string): nat
    requires IsISOShape(s)
  {
    Value(s[|s| - 5..|s| - 3])
  }

  function DayField(s: string): nat
    requires IsISOShape(s)
  {
    Value(s[|s| - 2..])
  }

  /**
   * `fromISODate(s)`: `new Date(y, m - 1, d, 12)`. The constructor reads a
   * year from 0 to 99 as 1900 + year, and out-of-range months and days are
   * normalised like any other `Date` field. The time of day (noon) is dropped.
   */
  function FromISO(s: string): (r: Date)
    requires IsISOShape(s)
    ensures Valid(r)
  {
    var y := YearField(s);
    MakeDay(if y <= 99 then 1900 + y else y, MonthField(s) - 1, DayField(s))
  }

  /**
   * A canonical ISO date, as `toISODate` prints one: a real calendar day
   * whose year has at least four digits and no leading zero.
   */
  predicate IsISODate(s: string) {
    IsISOShape(s) && IsNumeral(s[..|s| - 6]) && YearField(s) >= 1000
    && Valid(Date(YearField(s), MonthField(s), DayField(s)))
  }

  /**
   * `isBefore(a, b)`: JavaScript's `a < b` on the two strings, a total
   * strict order: `a` is before `b` exactly when `b` is neither `a` nor
   * before `a`.
   */
  function IsBefore(a: string, b: string): (r: bool)
    ensures r <==> !(b == a || StrLt(b, a))
  {
    StrLeIsLtOrEq(b, a);
    StrLt(a, b)
  }

  // ---------------------------------------------------------------------------

  /** The two forms `pad2` prints for 0..99: a "0" and one digit, or the plain decimal. */
  lemma Pad2Digits(n: int)
    requires 0 <= n <= 99
    ensures |Pad2(n)| == 2 && AllDigits(Pad2(n)) && Value(Pad2(n)) == n
    ensures n < 10 ==> Pad2(n) == ['0', DigitChar(n)]
    ensures n >= 10 ==> Pad2(n) == NatToString(n)
  {
    var p := Pad2(n);
    if n < 10 {
      assert p == ['0', DigitChar(n)];
      assert p[..1] == "0" && p[..1][..0] == "";
      assert Value(p[..1]) == 0;
      assert Value(p) == 10 * Value(p[..1]) + DigitValue(p[1]);
    } else {
      ValueOfNatToString(n);
      assert NatToString(n / 10) == [DigitChar(n / 10)];
    }
  }

  /** Two digits are read and printed back unchanged. */
  lemma Pad2OfValue(t: string)
    requires |t| == 2 && AllDigits(t)
    ensures Pad2(Value(t)) == t
  {
    assert t[..1][..0] == "";
    assert Value(t[..1]) == DigitValue(t[0]);
    var n := Value(t);
    assert n == 10 * DigitValue(t[0]) + DigitValue(t[1]);
    Pad2Digits(n);
    if n < 10 {
      assert t == ['0', DigitChar(n)];
    } else {
      assert t[0] != '0';
      NatToStringOfValue(t);
    }
  }

  /** Where the three printed fields sit in `toISODate`'s output. */
  lemma {:induction false} ToISOSlices(d: Date)
    requires Valid(d) && d.year >= 0
    ensures var s := ToISO(d);
            |s| >= 7 && s[|s| - 6] == '-' && s[|s| - 3] == '-'
            && s[..|s| - 6] == NatToString(d.year)
            && s[|s| - 5..|s| - 3] == Pad2(d.month)
            && s[|s| - 2..] == Pad2(d.day)
  {
    var y, m, dd := NatToString(d.year), Pad2(d.month), Pad2(d.day);
    Pad2Digits(d.month);
    Pad2Digits(d.day);
    var s := ToISO(d);
    assert |m| == 2 && |dd| == 2 && |y| >= 1;
    assert s == y + "-" + m + "-" + dd;
    assert |s| == |y| + 6;
    assert s[..|s| - 6] == y;
    assert s[|s| - 5..|s| - 3] == m;
    assert s[|s| - 2..] == dd;
  }

  /** The pieces of `toISODate`'s output, found where `fromISODate` looks for them. */
  lemma {:induction false} ToISOFields(d: Date)
    requires Valid(d) && d.year >= 0
    ensures IsISOShape(ToISO(d))
    ensures ToISO(d)[..|ToISO(d)| - 6] == NatToString(d.year)
    ensures YearField(ToISO(d)) == d.year
    ensures MonthField(ToISO(d)) == d.month
    ensures DayField(ToISO(d)) == d.day
  {
    ToISOSlices(d);
    Pad2Digits(d.month);
    Pad2Digits(d.day);
    ValueOfNatToString(d.year);
  }

  /** Every day from year 1000 on prints as a canonical ISO date. */
  lemma ToISOIsISODate(d: Date)
    requires Valid(d) && d.year >= 1000
    ensures IsISODate(ToISO(d))
  {
    ToISOFields(d);
  }

  /** `fromISODate(toISODate(d)) == d` for every day from year 1000 on. */
  lemma FromToISO(d: Date)
    requires Valid(d) && d.year >= 1000
    ensures FromISO(ToISO(d)) == d
  {
    ToISOFields(d);
    MonthStartOfValid(d);
    ShiftInMonth(Date(d.year, d.month, 1), d.day - 1);
  }

  /** A canonical ISO string reads as the day its fields name. */
  lemma FromISOOfISODate(s: string)
    requires IsISODate(s)
    ensures FromISO(s) == Date(YearField(s), MonthField(s), DayField(s))
    ensures Valid(FromISO(s)) && FromISO(s).year >= 1000
  {
    var d := Date(YearField(s), MonthField(s), DayField(s));
    MonthStartOfValid(d);
    ShiftInMonth(Date(d.year, d.month, 1), d.day - 1);
  }

  /** `toISODate(fromISODate(s)) == s` for every canonical ISO date. */
  lemma ToFromISO(s: string)
    requires IsISODate(s)
    ensures ToISO(FromISO(s)) == s
  {
    FromISOOfISODate(s);
    var y, m, d := s[..|s| - 6], s[|s| - 5..|s| - 3], s[|s| - 2..];
    NatToStringOfValue(y);
    Pad2OfValue(m);
    Pad2OfValue(d);
    assert s == y + "-" + m + "-" + d;
  }

  /** `isBefore` is a strict order on all strings. */
  lemma IsBeforeStrict(a: string, b: string, c: string)
    ensures !IsBefore(a, a)
    ensures IsBefore(a, b) && IsBefore(b, c) ==> IsBefore(a, c)
    ensures a == b || IsBefore(a, b) || IsBefore(b, a)
  {
    StrLtIrreflexive(a);
    if IsBefore(a, b) && IsBefore(b, c) {
      StrLtTransitive(a, b, c);
    }
    StrLtTrichotomy(a, b);
  }

  /** The three fields of a four-digit-year ISO string, with their lengths and values. */
  lemma FourDigitPieces(d: Date)
    requires Valid(d) && 1000 <= d.year <= 9999
    ensures ToISO(d) == NatToString(d.year) + ("-" + (Pad2(d.month) + ("-" + Pad2(d.day))))
    ensures |NatToString(d.year)| == 4 && AllDigits(NatToString(d.year)) && Value(NatToString(d.year)) == d.year
    ensures |Pad2(d.month)| == 2 && AllDigits(Pad2(d.month)) && Value(Pad2(d.month)) == d.month
    ensures |Pad2(d.day)| == 2 && AllDigits(Pad2(d.day)) && Value(Pad2(d.day)) == d.day
  {
    FourDigitLength(d.year);
    ValueOfNatToString(d.year);
    Pad2Digits(d.month);
    Pad2Digits(d.day);
  }

  /** Two strings joined by a dash, the first parts of equal length, compare part by part. */
  lemma DashedPairOrder(x: string, y: string, u: string, v: string)
    requires |x| == |u|
    ensures StrLt(x + ("-" + y), u + ("-" + v)) <==> StrLt(x, u) || (x == u && StrLt(y, v))
  {
    StrLtConcat(x, "-" + y, u, "-" + v);
    assert ("-" + y)[0] == '-' && ("-" + v)[0] == '-';
    assert ("-" + y)[1..] == y && ("-" + v)[1..] == v;
  }

  /** Strings `x-y-z` with fields of equal lengths compare field by field. */
  lemma {:induction false} DashedOrder(x: string, y: string, z: string, u: string, v: string, w: string)
    requires |x| == |u| && |y| == |v|
    ensures StrLt(x + ("-" + (y + ("-" + z))), u + ("-" + (v + ("-" + w))))
        <==> StrLt(x, u) || (x == u && (StrLt(y, v) || (y == v && StrLt(z, w))))
  {
    var p, q := y + ("-" + z), v + ("-" + w);
    DashedPairOrder(x, p, u, q);
    DashedPairOrder(y, z, v, w);
  }

  /** Distinct days print differently. */
  lemma ToISOInjective(a: Date, b: Date)
    requires Valid(a) && Valid(b) && a.year >= 0 && b.year >= 0
    ensures ToISO(a) == ToISO(b) <==> a == b
  {
    if ToISO(a) == ToISO(b) {
      ToISOFields(a);
      ToISOFields(b);
    }
  }

  /** On days with four-digit years, string order is chronological order. */
  lemma {:induction false} IsBeforeChronological(a: Date, b: Date)
    requires Valid(a) && Valid(b)
    requires 1000 <= a.year <= 9999 && 1000 <= b.year <= 9999
    ensures IsBefore(ToISO(a), ToISO(b)) <==> Before(a, b)
    ensures ToISO(a) == ToISO(b) <==> a == b
  {
    FourDigitPieces(a);
    FourDigitPieces(b);
    DashedOrder(NatToString(a.year), Pad2(a.month), Pad2(a.day), NatToString(b.year), Pad2(b.month), Pad2(b.day));
    DigitStringOrder(NatToString(a.year), NatToString(b.year));
    DigitStringOrder(Pad2(a.month), Pad2(b.month));
    DigitStringOrder(Pad2(a.day), Pad2(b.day));
    ToISOInjective(a, b);
  }

  /** With four-digit years, JavaScript's `<=` on the strings is chronological `<=`. */
  lemma StrLeChronological(a: Date, b: Date)
    requires Valid(a) && Valid(b)
    requires 1000 <= a.year <= 9999 && 1000 <= b.year <= 9999
    ensures StrLe(ToISO(a), ToISO(b)) <==> !Before(b, a)
  {
    IsBeforeChronological(b, a);
  }

  /** Beyond year 9999 the string order stops being chronological. */
  lemma IsBeforeFiveDigitYear()
    ensures IsBefore(ToISO(Date(10000, 1, 1)), ToISO(Date(9999, 12, 31)))
    ensures Before(Date(9999, 12, 31), Date(10000, 1, 1))
  {
    assert NatToString(10000) == "10000";
    assert NatToString(9999) == "9999";
    var a := ToISO(Date(10000, 1, 1));
    var b := ToISO(Date(9999, 12, 31));
    assert a[0] == '1' && b[0] == '9';
  }
}
