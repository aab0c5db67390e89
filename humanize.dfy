/**
 * The humanizing helpers `when`, `time`, `date` (`human_date`) and `seconds`
 * (`human_seconds`), which both versions of `Lezer` define alike. They format
 * text around message lookups with no arguments.
 *
 * The date library's results are given as inputs: the day difference
 * (`None` when the event date cannot be parsed), its breakdown into units,
 * and the current year.
 */
module Humanize {
  import opened Wrappers
  import opened Text
  import opened Lookup

  // ---------------------------------------------------------------------------
  // when
  // ---------------------------------------------------------------------------

  /** The keys of the breakdown: y, m, w, d, h, i, s. */
  datatype Unit = Year | Month | Week | Day | Hour | Minute | Second

  /** The units in the order `when` visits them, most significant first. */
  const Units: seq<Unit> := [Year, Month, Week, Day, Hour, Minute, Second]

  function UnitLabel(u: Unit): string
  {
    match u
    case Year => "DATETIME_UNIT_YEAR"
    case Month => "DATETIME_UNIT_MONTH"
    case Week => "DATETIME_UNIT_WEEK"
    case Day => "DATETIME_UNIT_DAY"
    case Hour => "DATETIME_UNIT_HOUR"
    case Minute => "DATETIME_UNIT_MINUTE"
    case Second => "DATETIME_UNIT_SECOND"
  }

  /** The label of a unit: abbreviated when asked, else plural above one. */
  function UnitLabelKey(u: Unit, qty: int, abbrev: bool): string
  {
    if abbrev then UnitLabel(u) + "_ABBREV"
    else if qty > 1 then UnitLabel(u) + "_PLURAL"
    else UnitLabel(u)
  }

  /** One entry of `$ordering`: the quantity, a space, the translated label and a full stop. */
  function UnitPhrase(catalog: Catalog, u: Unit, qty: int, abbrev: bool): string
  {
    IntToString(qty) + " " + Translate(catalog, UnitLabelKey(u, qty, abbrev)) + "."
  }

  /** Whether the breakdown sets unit `u` to a nonzero quantity. */
  predicate Counts(parts: map<Unit, int>, u: Unit)
  {
    u in parts && parts[u] != 0
  }

  /** The units of `units` that get an entry, in order. */
  function NonZeroUnits(parts: map<Unit, int>, units: seq<Unit>): (r: seq<Unit>)
    ensures forall u :: u in r <==> u in units && Counts(parts, u)
    ensures forall i :: 0 <= i < |r| ==> Counts(parts, r[i])
    decreases |units|
  {
    if units == [] then []
    else
      var init := units[..|units| - 1];
      var last := units[|units| - 1];
      assert units == init + [last];
      NonZeroUnits(parts, init) + (if Counts(parts, last) then [last] else [])
  }

  /** `$ordering` after the loop has visited `units`. */
  function Phrases(catalog: Catalog, parts: map<Unit, int>, abbrev: bool, units: seq<Unit>): seq<string>
    decreases |units|
  {
    if units == [] then []
    else
      var init := units[..|units| - 1];
      var last := units[|units| - 1];
      Phrases(catalog, parts, abbrev, init)
        + (if Counts(parts, last) then [UnitPhrase(catalog, last, parts[last], abbrev)] else [])
  }

  lemma PhrasesSnoc(catalog: Catalog, parts: map<Unit, int>, abbrev: bool, units: seq<Unit>, u: Unit)
    ensures Phrases(catalog, parts, abbrev, units + [u])
      == Phrases(catalog, parts, abbrev, units) + (if Counts(parts, u) then [UnitPhrase(catalog, u, parts[u], abbrev)] else [])
  {
    assert (units + [u])[..|units|] == units;
  }

  /** The entries are the phrases of the nonzero units, one for one and in order. */
  lemma {:induction false} PhrasesOfNonZeroUnits(catalog: Catalog, parts: map<Unit, int>, abbrev: bool, units: seq<Unit>)
    ensures var p := Phrases(catalog, parts, abbrev, units);
      var nz := NonZeroUnits(parts, units);
      && |p| == |nz|
      && forall i :: 0 <= i < |p| ==> nz[i] in parts && p[i] == UnitPhrase(catalog, nz[i], parts[nz[i]], abbrev)
    decreases |units|
  {
    if units != [] {
      var init := units[..|units| - 1];
      PhrasesOfNonZeroUnits(catalog, parts, abbrev, init);
    }
  }

  /** `array_slice($ordering, 0, 2)`. */
  function TakeTwo<T>(s: seq<T>): seq<T>
  {
    if |s| <= 2 then s else s[..2]
  }

  /**
   * What `when` returns: the error text when the event cannot be parsed; the
   * yesterday, today or tomorrow label for a difference of -1, 0 or 1 day;
   * otherwise the future or past prefix followed by the first two entries
   * joined by ` & `.
   */
  function WhenText(catalog: Catalog, days: Option<int>, parts: map<Unit, int>, abbrev: bool): string
  {
    match days
    case None => "when: error"
    case Some(d) =>
      if d == -1 then Translate(catalog, "DATETIME_RANGE_YESTERDAY")
      else if d == 0 then Translate(catalog, "DATETIME_RANGE_TODAY")
      else if d == 1 then Translate(catalog, "DATETIME_RANGE_TOMORROW")
      else
        Translate(catalog, "DATETIME_RANGE_PREFIX_" + (if d >= 0 then "FUTURE" else "PAST"))
          + " " + Join(TakeTwo(Phrases(catalog, parts, abbrev, Units)), " & ")
  }

  /**
   * `when`: `days` is the day difference between the event and now,
   * `parts` its breakdown into units, `abbrev` whether `$options['abbrev']`
   * is set.
   */
  method When(catalog: Catalog, days: Option<int>, parts: map<Unit, int>, abbrev: bool) returns (text: string)
    ensures text == WhenText(catalog, days, parts, abbrev)
  {
    if days.None? {
      return "when: error";
    }
    var amount := days.value;
    if amount == -1 {
      return Translate(catalog, "DATETIME_RANGE_YESTERDAY");
    }
    if amount == 0 {
      return Translate(catalog, "DATETIME_RANGE_TODAY");
    }
    if amount == 1 {
      return Translate(catalog, "DATETIME_RANGE_TOMORROW");
    }

    var ordering: seq<string> := [];
    var k := 0;
    while k < |Units|
      invariant 0 <= k <= |Units|
      invariant ordering == Phrases(catalog, parts, abbrev, Units[..k])
    {
      var unit := Units[k];
      assert Units[..k + 1] == Units[..k] + [unit];
      PhrasesSnoc(catalog, parts, abbrev, Units[..k], unit);
      if unit in parts {
        var qty := parts[unit];
        if qty != 0 {
          var key := UnitLabel(unit);
          if abbrev {
            key := key + "_ABBREV";
          } else if qty > 1 {
            key := key + "_PLURAL";
          }
          assert key == UnitLabelKey(unit, qty, abbrev);
          ordering := ordering + [IntToString(qty) + " " + Translate(catalog, key) + "."];
        }
      }
      k := k + 1;
    }
    assert Units[..k] == Units;
    var prefix := "DATETIME_RANGE_PREFIX_" + (if amount >= 0 then "FUTURE" else "PAST");
    text := Translate(catalog, prefix) + " " + Join(TakeTwo(ordering), " & ");
  }

  /**
   * Away from the three special days, `when` names at most the two most
   * significant nonzero units, in the order year, month, week, day, hour,
   * minute, second, after the future prefix when the difference is positive
   * and the past prefix when it is negative. With two or more such units:
   */
  lemma WhenNamesFirstTwo(catalog: Catalog, d: int, parts: map<Unit, int>, abbrev: bool)
    requires d != -1 && d != 0 && d != 1
    requires |NonZeroUnits(parts, Units)| >= 2
    ensures var nz := NonZeroUnits(parts, Units);
      WhenText(catalog, Some(d), parts, abbrev)
        == Translate(catalog, "DATETIME_RANGE_PREFIX_" + (if d >= 0 then "FUTURE" else "PAST")) + " "
           + UnitPhrase(catalog, nz[0], parts[nz[0]], abbrev) + " & " + UnitPhrase(catalog, nz[1], parts[nz[1]], abbrev)
  {
    WhenTextListing(catalog, d, parts, abbrev);
    ListingOfNonZeroUnits(catalog, parts, abbrev, Units);
  }

  /** With exactly one nonzero unit, `when` names that one. */
  lemma WhenNamesOnlyUnit(catalog: Catalog, d: int, parts: map<Unit, int>, abbrev: bool)
    requires d != -1 && d != 0 && d != 1
    requires |NonZeroUnits(parts, Units)| == 1
    ensures var nz := NonZeroUnits(parts, Units);
      WhenText(catalog, Some(d), parts, abbrev)
        == Translate(catalog, "DATETIME_RANGE_PREFIX_" + (if d >= 0 then "FUTURE" else "PAST")) + " "
           + UnitPhrase(catalog, nz[0], parts[nz[0]], abbrev)
  {
    WhenTextListing(catalog, d, parts, abbrev);
    ListingOfNonZeroUnits(catalog, parts, abbrev, Units);
  }

  /** With no nonzero unit, `when` returns the prefix and a trailing space. */
  lemma WhenNamesNoUnit(catalog: Catalog, d: int, parts: map<Unit, int>, abbrev: bool)
    requires d != -1 && d != 0 && d != 1
    requires |NonZeroUnits(parts, Units)| == 0
    ensures WhenText(catalog, Some(d), parts, abbrev)
      == Translate(catalog, "DATETIME_RANGE_PREFIX_" + (if d >= 0 then "FUTURE" else "PAST")) + " "
  {
    WhenTextListing(catalog, d, parts, abbrev);
    ListingOfNonZeroUnits(catalog, parts, abbrev, Units);
  }

  lemma WhenTextListing(catalog: Catalog, d: int, parts: map<Unit, int>, abbrev: bool)
    requires d != -1 && d != 0 && d != 1
    ensures WhenText(catalog, Some(d), parts, abbrev)
      == Translate(catalog, "DATETIME_RANGE_PREFIX_" + (if d >= 0 then "FUTURE" else "PAST")) + " "
         + Join(TakeTwo(Phrases(catalog, parts, abbrev, Units)), " & ")
  {
  }

  /** The joined entries name the first two units of `units` with a nonzero quantity. */
  lemma ListingOfNonZeroUnits(catalog: Catalog, parts: map<Unit, int>, abbrev: bool, units: seq<Unit>)
    ensures var nz := NonZeroUnits(parts, units);
      var listing := Join(TakeTwo(Phrases(catalog, parts, abbrev, units)), " & ");
      && (|nz| == 0 ==> listing == "")
      && (|nz| == 1 ==> listing == UnitPhrase(catalog, nz[0], parts[nz[0]], abbrev))
      && (|nz| >= 2 ==> listing == UnitPhrase(catalog, nz[0], parts[nz[0]], abbrev)
                          + " & " + UnitPhrase(catalog, nz[1], parts[nz[1]], abbrev))
  {
    var p := Phrases(catalog, parts, abbrev, units);
    PhrasesOfNonZeroUnits(catalog, parts, abbrev, units);
    JoinTakeTwo(p, " & ");
  }

  lemma JoinTakeTwo(p: seq<string>, sep: string)
    ensures |p| == 0 ==> Join(TakeTwo(p), sep) == ""
    ensures |p| == 1 ==> Join(TakeTwo(p), sep) == p[0]
    ensures |p| >= 2 ==> Join(TakeTwo(p), sep) == p[0] + sep + p[1]
  {
    if |p| >= 2 {
      var t := TakeTwo(p);
      assert t[1..] == [p[1]];
    }
  }

  /** Units are listed by significance: a nonzero unit always precedes a less significant one. */
  lemma {:induction false} NonZeroUnitsInOrder(parts: map<Unit, int>, units: seq<Unit>, i: nat, j: nat)
    requires i < j < |NonZeroUnits(parts, units)|
    ensures exists a, b :: 0 <= a < b < |units| && units[a] == NonZeroUnits(parts, units)[i] && units[b] == NonZeroUnits(parts, units)[j]
    decreases |units|
  {
    var init := units[..|units| - 1];
    var last := units[|units| - 1];
    var nz0 := NonZeroUnits(parts, init);
    var nz := NonZeroUnits(parts, units);
    assert nz == nz0 + (if Counts(parts, last) then [last] else []);
    if j < |nz0| {
      NonZeroUnitsInOrder(parts, init, i, j);
      var a, b :| 0 <= a < b < |init| && init[a] == nz0[i] && init[b] == nz0[j];
      assert units[a] == nz[i] && units[b] == nz[j];
    } else {
      assert nz[j] == last;
      assert nz0[i] in NonZeroUnits(parts, init);
      var a :| 0 <= a < |init| && init[a] == nz0[i];
      assert units[a] == nz[i] && units[|units| - 1] == nz[j];
    }
  }

  /** The label rules: `_ABBREV` wins over `_PLURAL`, and `_PLURAL` needs a quantity above one. */
  lemma UnitLabelRules(u: Unit, qty: int, abbrev: bool)
    ensures abbrev ==> UnitLabelKey(u, qty, abbrev) == UnitLabel(u) + "_ABBREV"
    ensures !abbrev && qty > 1 ==> UnitLabelKey(u, qty, abbrev) == UnitLabel(u) + "_PLURAL"
    ensures !abbrev && qty <= 1 ==> UnitLabelKey(u, qty, abbrev) == UnitLabel(u)
  {
  }

  // ---------------------------------------------------------------------------
  // time
  // ---------------------------------------------------------------------------

  /** `time`: the first five characters (`HH:MM`) when `short`, else the input unchanged. */
  function Time(s: string, short: bool): (r: string)
    ensures short ==> r <= s && |r| == (if |s| < 5 then |s| else 5)
    ensures !short ==> r == s
  {
    if short then (if |s| <= 5 then s else s[..5]) else s
  }

  // ---------------------------------------------------------------------------
  // date / human_date
  // ---------------------------------------------------------------------------

  /** A date rendering: text, or the bare year as an integer. */
  datatype DateText = Words(text: string) | Number(year: int)

  predicate FourDigits(s: string) { |s| == 4 && AllDigits(s) }

  /** `preg_match('/^[0-9]{4}$/', $s) === 1`, PCRE's `$` included. */
  predicate YearPattern(s: string) { DollarAnchored(s, FourDigits) }

  /** PHP's `empty` on a string: `""` and `"0"`. */
  predicate PhpEmpty(s: string) { s == "" || s == "0" }

  /** `list($year, $month, $day) = explode('-', $s)`: missing parts are `null`, which reads as `""`. */
  function DateParts(s: string): (string, string, string)
  {
    var parts := Split(s, '-');
    (parts[0], if |parts| > 1 then parts[1] else "", if |parts| > 2 then parts[2] else "")
  }

  /**
   * `date` / `human_date`: the empty label for an empty or all-zero date; the
   * integer value of a bare four-digit year; otherwise the day number, the
   * translated month and, unless `short` holds and the year is the current
   * year, the year.
   */
  function HumanDate(catalog: Catalog, s: string, short: bool, currentYear: string): DateText
  {
    if s == "0000-00-00" || PhpEmpty(s) then Words(Translate(catalog, "MODEL_common_VALUE_EMPTY"))
    else if YearPattern(s) then Number(IntVal(s))
    else
      var (year, month, day) := DateParts(s);
      var ret := IntToString(IntVal(day)) + " " + Translate(catalog, "DATETIME_CALENDAR_MONTH_" + month);
      if short && currentYear == year then Words(ret) else Words(ret + " " + year)
  }

  /** An empty, `"0"` or all-zero date renders as the empty-value label. */
  lemma HumanDateSentinel(catalog: Catalog, s: string, short: bool, currentYear: string)
    requires s == "" || s == "0" || s == "0000-00-00"
    ensures HumanDate(catalog, s, short, currentYear) == Words(Translate(catalog, "MODEL_common_VALUE_EMPTY"))
  {
  }

  lemma {:induction false} DigitsValueBelow(s: string)
    requires AllDigits(s)
    ensures DigitsValue(s) < Pow10(|s|)
    decreases |s|
  {
    if s != [] {
      DigitsValueBelow(s[..|s| - 1]);
    }
  }

  function Pow10(n: nat): nat
  {
    if n == 0 then 1 else 10 * Pow10(n - 1)
  }

  lemma IntValOfDigits(s: string)
    requires s != [] && AllDigits(s)
    ensures IntVal(s) == DigitsValue(s)
  {
    LeadingDigitsOfDigits(s);
    assert !IsSpace(s[0]);
  }

  /** A bare four-digit year is returned as its integer value, between 0 and 9999. */
  lemma HumanDateBareYear(catalog: Catalog, s: string, short: bool, currentYear: string)
    requires FourDigits(s)
    ensures HumanDate(catalog, s, short, currentYear) == Number(DigitsValue(s))
    ensures 0 <= DigitsValue(s) <= 9999
  {
    assert s != "0000-00-00" && !PhpEmpty(s);
    assert YearPattern(s);
    IntValOfDigits(s);
    DigitsValueBelow(s);
  }

  /**
   * For `year-month-day` the result is the day number, a space and the
   * translated month; ` year` follows unless `short` holds and `year` is the
   * current year.
   */
  lemma HumanDateOfParts(catalog: Catalog, year: string, month: string, day: string, short: bool, currentYear: string)
    requires '-' !in year && '-' !in month && '-' !in day
    requires year + "-" + month + "-" + day != "0000-00-00"
    ensures var ret := IntToString(IntVal(day)) + " " + Translate(catalog, "DATETIME_CALENDAR_MONTH_" + month);
      HumanDate(catalog, year + "-" + month + "-" + day, short, currentYear)
        == Words(if short && currentYear == year then ret else ret + " " + year)
  {
    var s := year + "-" + month + "-" + day;
    assert s == year + ['-'] + (month + ['-'] + day);
    SplitAt(year, '-', month + ['-'] + day);
    SplitAt(month, '-', day);
    SplitFree(day, '-');
    assert DateParts(s) == (year, month, day);
    assert s[|year|] == '-';
    assert !PhpEmpty(s);
    assert !FourDigits(s);
    if s[|s| - 1] == '\n' {
      assert s[..|s| - 1][|year|] == '-';
    }
    assert !YearPattern(s);
  }

  // ---------------------------------------------------------------------------
  // seconds / human_seconds
  // ---------------------------------------------------------------------------

  /** Hours, minutes and seconds as `seconds` computes them with `floor` and `%`. */
  function Hms(n: nat): (r: (nat, nat, nat))
    ensures r.0 * 3600 + r.1 * 60 + r.2 == n
    ensures r.1 < 60 && r.2 < 60
  {
    var h := n / 3600;
    var m := (n - h * 3600) / 60;
    var s := n % 60;
    assert n - h * 3600 == m * 60 + s;
    (h, m, s)
  }

  /** The decomposition is the only one with minutes and seconds below 60. */
  lemma HmsUnique(h: nat, m: nat, s: nat)
    requires m < 60 && s < 60
    ensures Hms(h * 3600 + m * 60 + s) == (h, m, s)
  {
    var n := h * 3600 + m * 60 + s;
    var r := Hms(n);
    assert (r.0 - h) * 3600 == (m - r.1) * 60 + (s - r.2);
  }

  /** `seconds` / `human_seconds`: `%dh %dm %ds`. */
  function HumanSeconds(n: nat): string
  {
    var r := Hms(n);
    IntToString(r.0) + "h " + IntToString(r.1) + "m " + IntToString(r.2) + "s"
  }

  /** The rendering of `h` hours, `m` minutes and `s` seconds writes those three numbers. */
  lemma HumanSecondsOfParts(h: nat, m: nat, s: nat)
    requires m < 60 && s < 60
    ensures HumanSeconds(h * 3600 + m * 60 + s)
      == NatToString(h) + "h " + NatToString(m) + "m " + NatToString(s) + "s"
  {
    HmsUnique(h, m, s);
  }
}
