/**
 The closed-form year of a day number, against counting years one by one under
 the Gregorian leap rule.
 */
module CivilYear {

  // ---------------------------------------------------------- the closed form

  const DAYS_PER_ERA := 146_097

  function YearOfEra(doe: int): int {
    (doe - doe / 1_460 + doe / 36_524 - doe / 146_096) / 365
  }

  /** The year before its conversion to 32 bits. */
  function WideYear(days: int): int {
    var shifted := days + 719_468;
    var era := shifted / DAYS_PER_ERA;
    var doe := shifted % DAYS_PER_ERA;
    var yoe := YearOfEra(doe);
    var doy := doe - (365 * yoe + yoe / 4 - yoe / 100);
    var month := (5 * doy + 2) / 153;
    yoe + era * 400 + if month >= 10 then 1 else 0
  }

  /** Wraps a value into the range of a signed 32-bit integer. */
  function AsI32(v: int): int {
    (v + 0x8000_0000) % 0x1_0000_0000 - 0x8000_0000
  }

  function CivilYearFromDays(days: int): int {
    AsI32(WideYear(days))
  }

  // ----------------------------------------------------------- counting years

  predicate IsLeap(year: int) {
    year % 4 == 0 && (year % 100 != 0 || year % 400 == 0)
  }

  function YearLength(year: int): nat {
    if IsLeap(year) then 366 else 365
  }

  /** The year reached by walking `days` days from 1 January of `year`, forwards or backwards. */
  function CountYears(year: int, days: int): int
  {
    if days < 0 then CountBack(year, -days)
    else CountForward(year, days)
  }

  function CountForward(year: int, days: nat): int
    decreases days
  {
    if days < YearLength(year) then year else CountForward(year + 1, days - YearLength(year))
  }

  /** The year that lies `days` days before 1 January of `year`. */
  function CountBack(year: int, days: nat): int
    requires days > 0
    decreases days
  {
    if days <= YearLength(year - 1) then year - 1 else CountBack(year - 1, days - YearLength(year - 1))
  }

  // ---------------------------------------------------------------- the proof

  /** Days from 1 March of year 0 to 1 March of `year`. */
  function FirstOfMarch(year: int): int {
    365 * year + year / 4 - year / 100 + year / 400
  }

  /** Days from 1 March of year 0 to 1 January of `year`. */
  function NewYear(year: int): int {
    FirstOfMarch(year - 1) + 306
  }

  lemma YearStep(year: int)
    ensures NewYear(year + 1) == NewYear(year) + YearLength(year)
  {
    NextQuotients(year);
    LeapDays(year);
  }

  lemma NextQuotients(y: int)
    ensures y / 4 == (y - 1) / 4 + if y % 4 == 0 then 1 else 0
    ensures y / 100 == (y - 1) / 100 + if y % 100 == 0 then 1 else 0
    ensures y / 400 == (y - 1) / 400 + if y % 400 == 0 then 1 else 0
  {
  }

  lemma LeapDays(y: int)
    ensures YearLength(y) == 365 + (if y % 4 == 0 then 1 else 0) - (if y % 100 == 0 then 1 else 0)
                             + (if y % 400 == 0 then 1 else 0)
  {
  }

  lemma {:induction false} ForwardInvariant(year: int, days: nat)
    ensures var y := CountForward(year, days);
            NewYear(y) <= NewYear(year) + days < NewYear(y + 1)
    decreases days
  {
    hide NewYear;
    YearStep(year);
    if days >= YearLength(year) {
      ForwardInvariant(year + 1, days - YearLength(year));
    }
  }

  lemma {:induction false} BackInvariant(year: int, days: nat)
    requires days > 0
    ensures var y := CountBack(year, days);
            NewYear(y) <= NewYear(year) - days < NewYear(y + 1)
    decreases days
  {
    hide NewYear;
    YearStep(year - 1);
    if days > YearLength(year - 1) {
      BackInvariant(year - 1, days - YearLength(year - 1));
    }
  }

  lemma {:induction false} NewYearGrows(a: int, b: int)
    requires a < b
    ensures NewYear(a + 1) <= NewYear(b)
    decreases b - a
  {
    if a + 1 < b {
      YearStep(a + 1);
      NewYearGrows(a + 1, b);
    }
  }

  /** A day lies in exactly one year. */
  lemma YearIsUnique(day: int, y: int, z: int)
    ensures NewYear(y) <= day < NewYear(y + 1) && NewYear(z) <= day < NewYear(z + 1) ==> y == z
  {
    if y < z {
      NewYearGrows(y, z);
    } else if z < y {
      NewYearGrows(z, y);
    }
  }

  /** Eras repeat. */
  lemma MarchInEra(era: int, yoe: int)
    ensures FirstOfMarch(yoe + 400 * era) == FirstOfMarch(yoe) + DAYS_PER_ERA * era
  {
    assert (yoe + 400 * era) / 4 == yoe / 4 + 100 * era;
    assert (yoe + 400 * era) / 100 == yoe / 100 + 4 * era;
    assert (yoe + 400 * era) / 400 == yoe / 400 + era;
  }

  /**
   The closed form inside one era: day `doe` is day `d` of four-year cycle `q` of
   century `c`, and the three corrections reduce the division to years of 365 days.
   */
  lemma EraYear(c: int, q: int, d: int)
    requires 0 <= c < 4 && 0 <= q < 25 && 0 <= d < 1_461
    requires q == 24 ==> d < 1_460
    ensures var k := if d == 1_460 then 3 else d / 365;
            YearOfEra(36_524 * c + 1_461 * q + d) == 100 * c + 4 * q + k
  {
    var doe := 36_524 * c + 1_461 * q + d;
    var e := if 24 * c + q + d >= 1_460 then 1 else 0;
    assert doe == 1_460 * (25 * c + q + e) + (24 * c + q + d - 1_460 * e);
    assert doe / 1_460 == 25 * c + q + e;
    assert doe / 36_524 == c;
    assert doe / 146_096 == 0;
    assert doe - doe / 1_460 + doe / 36_524 - doe / 146_096 == 365 * (100 * c + 4 * q) + (d - e);
    assert (d - e) / 365 == if d == 1_460 then 3 else d / 365;
  }

  lemma MarchOfCycle(c: int, q: int, k: int)
    requires 0 <= c < 4 && 0 <= q < 25 && 0 <= k < 4
    ensures FirstOfMarch(100 * c + 4 * q + k) == 36_524 * c + 1_461 * q + 365 * k
    ensures k < 3 ==> FirstOfMarch(100 * c + 4 * q + k + 1) == 36_524 * c + 1_461 * q + 365 * (k + 1)
    ensures k == 3 && q < 24 ==> FirstOfMarch(100 * c + 4 * q + k + 1) == 36_524 * c + 1_461 * (q + 1)
    ensures k == 3 && q == 24 ==>
              FirstOfMarch(100 * c + 4 * q + k + 1) == 36_524 * (c + 1) + if c == 3 then 1 else 0
  {
    var y := 100 * c + 4 * q + k;
    assert y / 4 == 25 * c + q && y / 100 == c && y / 400 == 0;
    if k == 3 {
      assert (y + 1) / 4 == 25 * c + q + 1;
      assert (y + 1) / 100 == if q == 24 then c + 1 else c;
      assert (y + 1) / 400 == if q == 24 && c == 3 then 1 else 0;
    } else {
      assert (y + 1) / 4 == 25 * c + q && (y + 1) / 100 == c && (y + 1) / 400 == 0;
    }
  }

  lemma CycleBrackets(c: int, q: int, d: int)
    requires 0 <= c < 4 && 0 <= q < 25 && 0 <= d < 1_461
    requires q == 24 ==> d < 1_460
    ensures var doe := 36_524 * c + 1_461 * q + d;
            var yoe := YearOfEra(doe);
            0 <= yoe < 400 && FirstOfMarch(yoe) <= doe < FirstOfMarch(yoe + 1)
  {
    EraYear(c, q, d);
    MarchOfCycle(c, q, if d == 1_460 then 3 else d / 365);
  }

  lemma EraBrackets(doe: int)
    requires 0 <= doe < DAYS_PER_ERA
    ensures var yoe := YearOfEra(doe);
            0 <= yoe < 400 && FirstOfMarch(yoe) <= doe < FirstOfMarch(yoe + 1)
  {
    if doe == DAYS_PER_ERA - 1 {
      // The leap day that ends the era.
      assert YearOfEra(doe) == 399;
      MarchOfCycle(3, 24, 3);
    } else {
      var c := doe / 36_524;
      var r := doe - 36_524 * c;
      var q := r / 1_461;
      var d := r - 1_461 * q;
      assert 36_524 * c + 1_461 * q + d == doe;
      CycleBrackets(c, q, d);
    }
  }

  lemma WideYearBrackets(days: int)
    ensures var y := WideYear(days);
            NewYear(y) <= days + 719_468 < NewYear(y + 1)
  {
    var shifted := days + 719_468;
    var era, doe := shifted / DAYS_PER_ERA, shifted % DAYS_PER_ERA;
    EraBrackets(doe);
    ShiftedBrackets(era, doe, YearOfEra(doe));
  }

  lemma ShiftedBrackets(era: int, doe: int, yoe: int)
    requires 0 <= yoe < 400 && FirstOfMarch(yoe) <= doe < FirstOfMarch(yoe + 1)
    ensures var doy := doe - (365 * yoe + yoe / 4 - yoe / 100);
            var y := yoe + era * 400 + if (5 * doy + 2) / 153 >= 10 then 1 else 0;
            NewYear(y) <= DAYS_PER_ERA * era + doe < NewYear(y + 1)
  {
    assert yoe / 400 == 0;
    MarchInEra(era, yoe);
    MarchInEra(era, yoe + 1);
    JanuaryOrMarch(yoe + 400 * era, doe - FirstOfMarch(yoe), DAYS_PER_ERA * era + doe);
  }

  /** Day 306 of a year that starts in March is 1 January of the next. */
  lemma JanuaryOrMarch(y: int, doy: int, day: int)
    requires day == FirstOfMarch(y) + doy && 0 <= doy && day < FirstOfMarch(y + 1)
    ensures var year := y + if (5 * doy + 2) / 153 >= 10 then 1 else 0;
            NewYear(year) <= day < NewYear(year + 1)
  {
    YearStep(y);
    YearStep(y + 1);
    assert (5 * doy + 2) / 153 >= 10 <==> doy >= 306;
  }

  /**
   The closed form is the year found by counting, before 1970 as well as after,
   for exactly the day numbers whose year fits in 32 bits.
   */
  lemma ClosedFormCounts(days: int)
    ensures CivilYearFromDays(days) == CountYears(1970, days)
            <==> -0x8000_0000 <= CountYears(1970, days) < 0x8000_0000
  {
    if days < 0 {
      BackInvariant(1970, -days);
    } else {
      ForwardInvariant(1970, days);
    }
    Epoch();
    WideYearBrackets(days);
    YearIsUnique(days + 719_468, WideYear(days), CountYears(1970, days));
    I32IsExact(WideYear(days));
  }

  lemma Epoch()
    ensures NewYear(1970) == 719_468
  {
  }

  lemma I32IsExact(v: int)
    ensures AsI32(v) == v <==> -0x8000_0000 <= v < 0x8000_0000
  {
  }
}
