/** The dashboard's per-employee attendance column: the total of marked days,
    the rounded percentage of present days, the colour band of that
    percentage and the text shown beside the bar. */
module AttendanceRate {
  import opened Dates
  import opened Models

  /** `Math.round(present / total * 100)`, evaluated exactly: the nearest
      whole percentage, halves rounded up; 0 when nothing is marked. */
  function Rate(present: nat, absent: nat): (rate: nat)
    ensures present + absent == 0 ==> rate == 0
    ensures present + absent > 0 ==> rate <= 100
    ensures present + absent > 0 ==>
      var t := present + absent;
      2 * t * rate <= 200 * present + t < 2 * t * (rate + 1)
  {
    var t := present + absent;
    if t == 0 then 0
    else
      var q := (200 * present + t) / (2 * t);
      DivBounds(200 * present + t, 2 * t);
      RateAtMost100(q, present, t);
      q
  }

  /** Floor division sits between the two multiples of the divisor. */
  lemma DivBounds(n: nat, d: nat)
    requires d > 0
    ensures d * (n / d) <= n < d * (n / d + 1)
  {
  }

  lemma RateAtMost100(q: nat, present: nat, t: nat)
    requires present <= t && t > 0
    requires 2 * t * q <= 200 * present + t
    ensures q <= 100
  {
    if q > 100 {
      MulMono(2 * t, 101, q);
    }
  }

  lemma MulMono(a: nat, b: nat, c: nat)
    requires b <= c
    ensures a * b <= a * c
  {
  }

  /** The rounding bound pins the percentage down: no other whole number satisfies it. */
  lemma RateUnique(present: nat, absent: nat, r: nat)
    requires present + absent > 0
    requires var t := present + absent; 2 * t * r <= 200 * present + t < 2 * t * (r + 1)
    ensures r == Rate(present, absent)
  {
    var t := present + absent;
    var q := Rate(present, absent);
    if r < q {
      MulMono(2 * t, r + 1, q);
    } else if q < r {
      MulMono(2 * t, q + 1, r);
    }
  }

  /** Only present days give 100%, only absent days 0%. */
  lemma RateExtremes(present: nat, absent: nat)
    ensures absent == 0 && present > 0 ==> Rate(present, absent) == 100
    ensures present == 0 ==> Rate(present, absent) == 0
  {
    var t := present + absent;
    if absent == 0 && present > 0 {
      RateUnique(present, absent, 100);
    }
    if present == 0 && t > 0 {
      RateUnique(present, absent, 0);
    }
  }

  /** More present days, with the total unchanged, never lower the rate. */
  lemma RateMonotone(p1: nat, a1: nat, p2: nat, a2: nat)
    requires p1 + a1 == p2 + a2 && p1 <= p2
    ensures Rate(p1, a1) <= Rate(p2, a2)
  {
    var t := p1 + a1;
    if t > 0 {
      var r1 := Rate(p1, a1);
      var r2 := Rate(p2, a2);
      if r2 < r1 {
        MulMono(2 * t, r2 + 1, r1);
      }
    }
  }

  datatype Band = Green | Orange | Red

  /** The bar colour: green from 75%, orange from 50%, red below. */
  function BandOf(rate: nat): (b: Band)
    ensures b == Green <==> rate >= 75
    ensures b == Orange <==> 50 <= rate < 75
    ensures b == Red <==> rate < 50
  {
    if rate >= 75 then Green else if rate >= 50 then Orange else Red
  }

  /** A whole number written in decimal, without leading zeros (`${n}`). */
  function DecimalString(n: nat): (s: string)
    ensures s != [] && AllDigits(s) && Value(s) == n
    ensures |s| > 1 ==> s[0] != '0'
  {
    if n < 10 then [DigitChar(n)]
    else
      var s := DecimalString(n / 10) + [DigitChar(n % 10)];
      assert s[..|s| - 1] == DecimalString(n / 10);
      s
  }

  /** A row of the dashboard's attendance table. */
  datatype RateRow = RateRow(total: nat, rate: nat, band: Band, text: string)

  /** What the table shows for one employee: the total of marked days, the
      rate and its band, and the rate followed by '%' — or "--" when no day
      is marked. */
  function Row(e: EmployeeResponse): (r: RateRow)
    requires e.total_present >= 0 && e.total_absent >= 0
    ensures r.total == e.total_present + e.total_absent
    ensures r.rate == Rate(e.total_present, e.total_absent)
    ensures r.band == BandOf(r.rate)
    ensures r.total == 0 ==> r.text == "--" && r.band == Red
    ensures r.total > 0 ==> r.text == DecimalString(r.rate) + "%"
  {
    var total := e.total_present + e.total_absent;
    var rate := Rate(e.total_present, e.total_absent);
    if total > 0 then
      RateRow(total, rate, BandOf(rate), DecimalString(rate) + "%")
    else
      RateRow(total, rate, BandOf(rate), "--")
  }

  /** The label of a marked row is the rate in decimal, with no leading zero,
      and then '%'. */
  lemma RowLabelReadsBack(e: EmployeeResponse)
    requires e.total_present >= 0 && e.total_absent >= 0 && e.total_present + e.total_absent > 0
    ensures var r := Row(e); var n := |r.text| - 1;
      n >= 1 && r.text[n] == '%' && AllDigits(r.text[..n]) && Value(r.text[..n]) == r.rate &&
      (n > 1 ==> r.text[0] != '0')
  {
    var r := Row(e);
    var digits := DecimalString(r.rate);
    assert r.text[..|digits|] == digits;
  }
}
