/** Calendar dates as `datetime.date` holds them, their ISO `YYYY-MM-DD` text
    (`date.isoformat()`), and the fact the ledger relies on: comparing the
    ISO texts as strings orders them exactly as the calendar does. */
module Dates {
  import opened Wrappers
  import opened Text

  datatype Date = Date(year: int, month: int, day: int)

  /** Gregorian leap years. */
  predicate IsLeap(y: int) {
    y % 4 == 0 && (y % 100 != 0 || y % 400 == 0)
  }

  function DaysInMonth(y: int, m: int): (n: int)
    requires 1 <= m <= 12
    ensures 28 <= n <= 31
    ensures m == 2 ==> (n == 29 <==> IsLeap(y))
  {
    if m == 2 then (if IsLeap(y) then 29 else 28)
    else if m == 4 || m == 6 || m == 9 || m == 11 then 30
    else 31
  }

  /** The dates `datetime.date` can represent: years 1 to 9999. */
  predicate ValidDate(d: Date) {
    1 <= d.year <= 9999 && 1 <= d.month <= 12 && 1 <= d.day <= DaysInMonth(d.year, d.month)
  }

  /** A date `datetime.date` accepts. */
  type CalendarDate = d: Date | ValidDate(d) witness Date(1970, 1, 1)

  /** Calendar order: year first, then month, then day. */
  predicate DateLe(a: Date, b: Date) {
    a.year < b.year || (a.year == b.year && (a.month < b.month || (a.month == b.month && a.day <= b.day)))
  }

  function Pow10(w: nat): (p: nat)
    ensures p >= 1
  {
    if w == 0 then 1 else 10 * Pow10(w - 1)
  }

  predicate IsDigit(c: char) {
    '0' <= c <= '9'
  }

  predicate AllDigits(s: string) {
    forall i :: 0 <= i < |s| ==> IsDigit(s[i])
  }

  function DigitChar(k: int): (c: char)
    requires 0 <= k <= 9
    ensures IsDigit(c) && c as int - '0' as int == k
  {
    ('0' as int + k) as char
  }

  /** The last `w` decimal digits of `n`, zero-padded on the left
      (Python's `'%0wd' % n` when `n` has at most `w` digits). */
  function Digits(n: nat, w: nat): (r: string)
    ensures |r| == w && AllDigits(r)
  {
    if w == 0 then [] else Digits(n / 10, w - 1) + [DigitChar(n % 10)]
  }

  /** The number a string of decimal digits denotes. */
  function Value(s: string): nat
    requires AllDigits(s)
  {
    if s == [] then 0 else 10 * Value(s[..|s| - 1]) + (s[|s| - 1] as int - '0' as int)
  }

  lemma {:induction false} ValueOfDigits(n: nat, w: nat)
    requires n < Pow10(w)
    ensures Value(Digits(n, w)) == n
  {
    if w > 0 {
      var r := Digits(n, w);
      assert r[..|r| - 1] == Digits(n / 10, w - 1);
      ValueOfDigits(n / 10, w - 1);
    }
  }

  lemma {:induction false} DigitsOfValue(s: string)
    requires AllDigits(s)
    ensures Value(s) < Pow10(|s|)
    ensures Digits(Value(s), |s|) == s
  {
    if s != [] {
      var init := s[..|s| - 1];
      DigitsOfValue(init);
      var v := Value(s);
      assert v / 10 == Value(init) && v % 10 == s[|s| - 1] as int - '0' as int;
      assert s == init + [s[|s| - 1]];
    }
  }

  /** Zero-padded digit strings of one width compare as the numbers do. */
  lemma {:induction false} DigitsOrder(n: nat, m: nat, w: nat)
    requires n < Pow10(w) && m < Pow10(w)
    ensures LexLe(Digits(n, w), Digits(m, w)) <==> n <= m
  {
    if w > 0 {
      var hn, hm := Digits(n / 10, w - 1), Digits(m / 10, w - 1);
      var cn, cm := DigitChar(n % 10), DigitChar(m % 10);
      LexLeConcat(hn, [cn], hm, [cm]);
      DigitsOrder(n / 10, m / 10, w - 1);
      ValueOfDigits(n / 10, w - 1);
      ValueOfDigits(m / 10, w - 1);
      assert hn == hm <==> n / 10 == m / 10;
      assert LexLe([cn], [cm]) <==> cn <= cm;
    }
  }

  /** `date.isoformat()`. */
  function IsoFormat(d: Date): (r: string)
    requires ValidDate(d)
    ensures |r| == 10 && r[4] == '-' && r[7] == '-'
    ensures AllDigits(r[..4]) && AllDigits(r[5..7]) && AllDigits(r[8..])
  {
    Digits(d.year, 4) + "-" + Digits(d.month, 2) + "-" + Digits(d.day, 2)
  }

  /** Three dash-separated fields of fixed widths compare as strings field
      by field: the first differing field decides. */
  lemma DashedOrder(ya: string, ma: string, da: string, yb: string, mb: string, db: string)
    requires |ya| == |yb| && |ma| == |mb|
    ensures LexLe(ya + "-" + ma + "-" + da, yb + "-" + mb + "-" + db) <==>
      if ya != yb then LexLe(ya, yb)
      else if ma != mb then LexLe(ma, mb)
      else LexLe(da, db)
  {
    assert ya + "-" + ma + "-" + da == ya + ("-" + ma + ("-" + da));
    assert yb + "-" + mb + "-" + db == yb + ("-" + mb + ("-" + db));
    LexLeConcat(ya, "-" + ma + ("-" + da), yb, "-" + mb + ("-" + db));
    LexLeConcat("-" + ma, "-" + da, "-" + mb, "-" + db);
    LexLeConcat("-", ma, "-", mb);
    LexLeConcat("-", da, "-", db);
    assert "-" + ma == "-" + mb <==> ma == mb by {
      if "-" + ma == "-" + mb {
        assert ma == ("-" + ma)[1..];
      }
    }
  }

  /** Comparing ISO texts as strings is comparing the dates. */
  lemma IsoFormatOrder(a: Date, b: Date)
    requires ValidDate(a) && ValidDate(b)
    ensures LexLe(IsoFormat(a), IsoFormat(b)) <==> DateLe(a, b)
  {
    var ya, ma, da := Digits(a.year, 4), Digits(a.month, 2), Digits(a.day, 2);
    var yb, mb, db := Digits(b.year, 4), Digits(b.month, 2), Digits(b.day, 2);
    DashedOrder(ya, ma, da, yb, mb, db);
    DigitsEqual(a.year, b.year, 4);
    DigitsEqual(a.month, b.month, 2);
    if a.year != b.year {
      DigitsOrder(a.year, b.year, 4);
    } else if a.month != b.month {
      DigitsOrder(a.month, b.month, 2);
    } else {
      DigitsOrder(a.day, b.day, 2);
    }
  }

  /** Fixed-width digit strings of numbers that fit are equal exactly when the numbers are. */
  lemma DigitsEqual(n: nat, m: nat, w: nat)
    requires n < Pow10(w) && m < Pow10(w)
    ensures Digits(n, w) == Digits(m, w) <==> n == m
  {
    ValueOfDigits(n, w);
    ValueOfDigits(m, w);
  }

  /** Reads a `YYYY-MM-DD` text into a date; anything else, or a day that does
      not exist in the calendar, is rejected. */
  function ParseIsoDate(s: string): (r: Option<Date>)
    ensures r.Some? ==> ValidDate(r.value) && IsoFormat(r.value) == s
  {
    if |s| == 10 && s[4] == '-' && s[7] == '-'
       && AllDigits(s[..4]) && AllDigits(s[5..7]) && AllDigits(s[8..]) then
      var d := Date(Value(s[..4]), Value(s[5..7]), Value(s[8..]));
      if ValidDate(d) then
        Reassemble(s);
        Some(d)
      else
        None
    else
      None
  }

  /** A `YYYY-MM-DD` shaped text is the ISO layout of the numbers it spells. */
  lemma Reassemble(s: string)
    requires |s| == 10 && s[4] == '-' && s[7] == '-'
    requires AllDigits(s[..4]) && AllDigits(s[5..7]) && AllDigits(s[8..])
    ensures Digits(Value(s[..4]), 4) + "-" + Digits(Value(s[5..7]), 2) + "-" + Digits(Value(s[8..]), 2) == s
  {
    DigitsOfValue(s[..4]);
    DigitsOfValue(s[5..7]);
    DigitsOfValue(s[8..]);
    assert s == s[..4] + "-" + s[5..7] + "-" + s[8..];
  }

  /** Reading back the ISO text of a date gives the date. */
  lemma ParseIsoFormat(d: Date)
    requires ValidDate(d)
    ensures ParseIsoDate(IsoFormat(d)) == Some(d)
  {
    var s := IsoFormat(d);
    assert s[..4] == Digits(d.year, 4);
    assert s[5..7] == Digits(d.month, 2);
    assert s[8..] == Digits(d.day, 2);
    ValueOfDigits(d.year, 4);
    ValueOfDigits(d.month, 2);
    ValueOfDigits(d.day, 2);
  }

  /** Distinct dates have distinct ISO texts. */
  lemma IsoFormatInjective(a: Date, b: Date)
    requires ValidDate(a) && ValidDate(b) && IsoFormat(a) == IsoFormat(b)
    ensures a == b
  {
    ParseIsoFormat(a);
    ParseIsoFormat(b);
  }
}
