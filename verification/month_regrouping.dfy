/**
 * Stage 2: the year-grouped document regrouped by year and then by month.
 * Each headline's publish_date is read back with strptime('%Y-%m-%d');
 * headlines whose date does not read back are skipped, the others are
 * appended, unchanged and in source order, to the list of their month under
 * the year they were listed under.
 */
module MonthRegrouping {
  import opened Wrappers
  import opened Calendar
  import opened Sequences
  import opened Enrichment
  import opened NewsProcessing

  /** The month key: str() of the month number, without zero-padding. */
  function MonthKey(month: nat): string {
    DecimalString(month)
  }

  /** The twelve month keys. */
  function MonthKeys(): set<string> {
    set k: nat | 1 <= k <= 12 :: MonthKey(k)
  }

  predicate Parses(h: Headline) {
    ParseIso(h.publishDate).Some?
  }

  predicate InMonth(h: Headline, month: string) {
    match ParseIso(h.publishDate)
    case None => false
    case Some(d) => MonthKey(d.month) == month
  }

  function InMonthPredicate(month: string): Headline -> bool {
    h => InMonth(h, month)
  }

  /** The headlines of one year's list that belong under the given month key, in list order. */
  function MonthList(hs: seq<Headline>, month: string): seq<Headline> {
    Filter(hs, InMonthPredicate(month))
  }

  /** One year's month dictionary: a key for each month that received at least one headline. */
  function MonthsOf(hs: seq<Headline>): map<string, seq<Headline>> {
    map m | m in MonthKeys() && MonthList(hs, m) != [] :: MonthList(hs, m)
  }

  /** processed_data_by_year_month: every year of the input, mapped to its month dictionary. */
  function Regrouped(byYear: map<string, seq<Headline>>): map<string, map<string, seq<Headline>>> {
    map y | y in byYear :: MonthsOf(byYear[y])
  }

  lemma MonthListSnoc(hs: seq<Headline>, h: Headline, month: string)
    ensures MonthList(hs + [h], month) == MonthList(hs, month) + (if InMonth(h, month) then [h] else [])
  {
    FilterAppend(hs, [h], InMonthPredicate(month));
    assert [h][1..] == [];
  }

  /** Appending a headline whose date does not read back leaves the month dictionary as it was. */
  lemma MonthsOfSnocSkipped(hs: seq<Headline>, h: Headline)
    requires ParseIso(h.publishDate).None?
    ensures MonthsOf(hs + [h]) == MonthsOf(hs)
  {
    forall m ensures MonthList(hs + [h], m) == MonthList(hs, m) {
      MonthListSnoc(hs, h, m);
    }
    assert MonthsOf(hs + [h]).Keys == MonthsOf(hs).Keys;
  }

  /** Appending a headline whose date reads back appends it to its month's list, created if missing. */
  lemma MonthsOfSnocFiled(hs: seq<Headline>, h: Headline, d: Date)
    requires ParseIso(h.publishDate) == Some(d)
    ensures var m := MonthKey(d.month);
            var before := MonthsOf(hs);
            MonthsOf(hs + [h]) == before[m := (if m in before then before[m] else []) + [h]]
  {
    var before, after := MonthsOf(hs), MonthsOf(hs + [h]);
    var key := MonthKey(d.month);
    var target := before[key := (if key in before then before[key] else []) + [h]];
    assert key in MonthKeys() by {
      assert 1 <= d.month <= 12;
    }
    forall m ensures (m in after <==> m in target) && (m in after ==> after[m] == target[m]) {
      MonthListSnoc(hs, h, m);
      assert InMonth(h, m) <==> m == key;
    }
    assert after.Keys == target.Keys;
  }

  /** Appending one headline to a year's list changes its month dictionary as the loop body does. */
  lemma MonthsOfSnoc(hs: seq<Headline>, h: Headline)
    ensures ParseIso(h.publishDate).None? ==> MonthsOf(hs + [h]) == MonthsOf(hs)
    ensures ParseIso(h.publishDate).Some? ==>
              var m := MonthKey(ParseIso(h.publishDate).value.month);
              var before := MonthsOf(hs);
              MonthsOf(hs + [h]) == before[m := (if m in before then before[m] else []) + [h]]
  {
    match ParseIso(h.publishDate)
    case None => MonthsOfSnocSkipped(hs, h);
    case Some(d) => MonthsOfSnocFiled(hs, h, d);
  }

  /**
   * The body of the inner loop for one headline: a date that does not read
   * back is the ValueError branch and leaves the months unchanged; otherwise
   * the month's list is created when missing and the headline appended to it.
   */
  method FileHeadline(months: map<string, seq<Headline>>, headline: Headline)
    returns (result: map<string, seq<Headline>>)
    ensures ParseIso(headline.publishDate).None? ==> result == months
    ensures ParseIso(headline.publishDate).Some? ==>
              var month := MonthKey(ParseIso(headline.publishDate).value.month);
              result == months[month := (if month in months then months[month] else []) + [headline]]
  {
    result := months;
    match ParseIso(headline.publishDate) {
      case None =>
        // the warning is printed and the headline skipped
      case Some(publishDate) =>
        var month := MonthKey(publishDate.month);
        if month !in result {
          result := result[month := []];
        }
        assert result[month] == (if month in months then months[month] else []);
        result := result[month := result[month] + [headline]];
        assert result == months[month := (if month in months then months[month] else []) + [headline]];
    }
  }

  /** The inner loop: fills one year's month dictionary, starting empty. */
  method FillMonths(headlines: seq<Headline>) returns (months: map<string, seq<Headline>>)
    ensures months == MonthsOf(headlines)
  {
    months := map[];
    assert MonthsOf(headlines[..0]) == map[] by {
      assert headlines[..0] == [];
    }
    var k := 0;
    while k < |headlines|
      invariant 0 <= k <= |headlines|
      invariant months == MonthsOf(headlines[..k])
    {
      assert headlines[..k + 1] == headlines[..k] + [headlines[k]];
      MonthsOfSnoc(headlines[..k], headlines[k]);
      months := FileHeadline(months, headlines[k]);
      k := k + 1;
    }
    assert headlines[..k] == headlines;
  }

  /** The outer loop over the years of the input, which fills processed_data_by_year_month. */
  method Reorganise(byYear: map<string, seq<Headline>>) returns (out: map<string, map<string, seq<Headline>>>)
    ensures out == Regrouped(byYear)
  {
    out := map[];
    var pending := byYear.Keys;
    while pending != {}
      invariant pending <= byYear.Keys
      invariant out.Keys == byYear.Keys - pending
      invariant forall y :: y in out ==> out[y] == MonthsOf(byYear[y])
      decreases pending
    {
      var year :| year in pending;
      var months := FillMonths(byYear[year]);
      out := out[year := months];
      pending := pending - {year};
    }
    assert out.Keys == Regrouped(byYear).Keys;
  }

  // ---------------------------------------------------------------------------
  // What the regrouped document looks like
  // ---------------------------------------------------------------------------

  /** The month keys are the unpadded numerals "1" to "12". */
  lemma MonthKeysUnpadded()
    ensures MonthKeys() == {"1", "2", "3", "4", "5", "6", "7", "8", "9", "10", "11", "12"}
  {
    assert MonthKey(1) == "1" && MonthKey(2) == "2" && MonthKey(3) == "3" && MonthKey(4) == "4";
    assert MonthKey(5) == "5" && MonthKey(6) == "6" && MonthKey(7) == "7" && MonthKey(8) == "8";
    assert MonthKey(9) == "9";
    assert MonthKey(10) == "10" by { assert MonthKey(10) == MonthKey(1) + ['0']; }
    assert MonthKey(11) == "11" by { assert MonthKey(11) == MonthKey(1) + ['1']; }
    assert MonthKey(12) == "12" by { assert MonthKey(12) == MonthKey(1) + ['2']; }
    forall k: nat | 1 <= k <= 12
      ensures MonthKey(k) in {"1", "2", "3", "4", "5", "6", "7", "8", "9", "10", "11", "12"}
    {
      assert k in {1, 2, 3, 4, 5, 6, 7, 8, 9, 10, 11, 12};
    }
  }

  /**
   * Every year of the input is a year of the output, also when none of its
   * headlines reads back (it then holds an empty dictionary); every month key
   * is one of the twelve, and no month list is empty.
   */
  lemma RegroupedShape(byYear: map<string, seq<Headline>>)
    ensures Regrouped(byYear).Keys == byYear.Keys
    ensures forall y :: y in byYear && (forall i :: 0 <= i < |byYear[y]| ==> !Parses(byYear[y][i]))
              ==> Regrouped(byYear)[y] == map[]
    ensures forall y, m :: y in byYear && m in Regrouped(byYear)[y] ==>
              m in MonthKeys() && Regrouped(byYear)[y][m] != []
  {
    forall y | y in byYear && (forall i :: 0 <= i < |byYear[y]| ==> !Parses(byYear[y][i]))
      ensures Regrouped(byYear)[y] == map[]
    {
      forall m | m in MonthKeys() ensures MonthList(byYear[y], m) == [] {
        forall i | 0 <= i < |byYear[y]| ensures !InMonthPredicate(m)(byYear[y][i]) {
          assert !Parses(byYear[y][i]);
        }
        FilterNone(byYear[y], InMonthPredicate(m));
      }
      assert MonthsOf(byYear[y]).Keys == {};
    }
  }

  /** Placement within one year's list: the month dictionary files each record exactly under its own month. */
  lemma MonthsOfPlacement(hs: seq<Headline>)
    ensures forall i, d :: 0 <= i < |hs| && ParseIso(hs[i].publishDate) == Some(d) ==>
              MonthKey(d.month) in MonthsOf(hs) && hs[i] in MonthsOf(hs)[MonthKey(d.month)]
    ensures forall m, h :: m in MonthsOf(hs) && h in MonthsOf(hs)[m] ==>
              h in hs && ParseIso(h.publishDate).Some? && MonthKey(ParseIso(h.publishDate).value.month) == m
  {
    forall i, d | 0 <= i < |hs| && ParseIso(hs[i].publishDate) == Some(d)
      ensures MonthKey(d.month) in MonthsOf(hs) && hs[i] in MonthsOf(hs)[MonthKey(d.month)]
    {
      var m := MonthKey(d.month);
      assert m in MonthKeys() by {
        assert 1 <= d.month <= 12;
      }
      assert InMonthPredicate(m)(hs[i]);
      assert hs[i] in MonthList(hs, m);
    }
    forall m, h | m in MonthsOf(hs) && h in MonthsOf(hs)[m]
      ensures h in hs && ParseIso(h.publishDate).Some? && MonthKey(ParseIso(h.publishDate).value.month) == m
    {
      var l := MonthList(hs, m);
      var j :| 0 <= j < |l| && l[j] == h;
      assert InMonthPredicate(m)(h);
    }
  }

  /**
   * Each headline whose date reads back sits in the list of its own month
   * under the year it was listed under (that key is not compared with the
   * date's year); each entry of a month list is a headline of that year's
   * source list, unchanged, whose date reads back with that month.
   */
  lemma RegroupedPlacement(byYear: map<string, seq<Headline>>)
    ensures forall y, i, d :: y in byYear && 0 <= i < |byYear[y]| && ParseIso(byYear[y][i].publishDate) == Some(d) ==>
              MonthKey(d.month) in Regrouped(byYear)[y] && byYear[y][i] in Regrouped(byYear)[y][MonthKey(d.month)]
    ensures forall y, m, h :: y in byYear && m in Regrouped(byYear)[y] && h in Regrouped(byYear)[y][m] ==>
              h in byYear[y] && ParseIso(h.publishDate).Some? && MonthKey(ParseIso(h.publishDate).value.month) == m
  {
    forall y | y in byYear
      ensures Regrouped(byYear)[y] == MonthsOf(byYear[y])
    {
      MonthsOfPlacement(byYear[y]);
    }
  }

  /** Within a month list the headlines keep the order they had in the year's list. */
  lemma MonthListKeepsOrder(a: seq<Headline>, b: seq<Headline>, month: string)
    ensures MonthList(a + b, month) == MonthList(a, month) + MonthList(b, month)
  {
    FilterAppend(a, b, InMonthPredicate(month));
  }

  // ---------------------------------------------------------------------------
  // Counting: the month lists of a year hold exactly its readable headlines
  // ---------------------------------------------------------------------------

  /** The total length of the lists under month keys "1" to str(k). */
  function MonthTotal(months: map<string, seq<Headline>>, k: nat): nat {
    if k == 0 then 0 else MonthTotal(months, k - 1) + (if MonthKey(k) in months then |months[MonthKey(k)]| else 0)
  }

  lemma {:induction false} MonthTotalEmpty(k: nat)
    ensures MonthTotal(map[], k) == 0
  {
    if k > 0 {
      MonthTotalEmpty(k - 1);
    }
  }

  /** Appending a headline to one month's list adds one to the total over the months that include it. */
  lemma {:induction false} MonthTotalAppend(months: map<string, seq<Headline>>, month: nat, h: Headline, k: nat)
    requires 1 <= month
    ensures var key := MonthKey(month);
            MonthTotal(months[key := (if key in months then months[key] else []) + [h]], k)
            == MonthTotal(months, k) + (if month <= k then 1 else 0)
  {
    if k > 0 {
      MonthTotalAppend(months, month, h, k - 1);
      DecimalStringInjective(k, month);
    }
  }

  /** The month lists of a year together hold as many headlines as read back in the year's list. */
  lemma {:induction false} MonthTotalCounts(hs: seq<Headline>)
    ensures MonthTotal(MonthsOf(hs), 12) == |Filter(hs, Parses)|
    decreases |hs|
  {
    if hs == [] {
      assert MonthsOf(hs) == map[];
      MonthTotalEmpty(12);
    } else {
      var init, h := hs[..|hs| - 1], hs[|hs| - 1];
      assert hs == init + [h];
      MonthTotalCounts(init);
      MonthsOfSnoc(init, h);
      FilterAppend(init, [h], Parses);
      assert [h][1..] == [];
      match ParseIso(h.publishDate)
      case None =>
      case Some(d) =>
        MonthTotalAppend(MonthsOf(init), d.month, h, 12);
    }
  }

  // ---------------------------------------------------------------------------
  // The two stages together
  // ---------------------------------------------------------------------------

  /**
   * Regrouping the output of the first stage drops nothing: each year's month
   * lists hold all of its headlines, and each headline's date reads back with
   * the year and the month it is filed under.
   */
  lemma StageOneOutputRegroupsCompletely(rows: seq<EnrichedRow>)
    requires forall k :: 0 <= k < |rows| ==> ValidDate(rows[k].date)
    ensures Regrouped(YearBuckets(rows)).Keys == YearBuckets(rows).Keys
    ensures forall y :: y in YearBuckets(rows) ==> MonthTotal(Regrouped(YearBuckets(rows))[y], 12) == |YearBuckets(rows)[y]|
    ensures forall y, m, h ::
              y in YearBuckets(rows) && m in Regrouped(YearBuckets(rows))[y] && h in Regrouped(YearBuckets(rows))[y][m]
              ==> (ParseIso(h.publishDate).Some?
                   && DecimalString(ParseIso(h.publishDate).value.year) == y
                   && MonthKey(ParseIso(h.publishDate).value.month) == m)
  {
    var b := YearBuckets(rows);
    YearBucketsDates(rows);
    RegroupedPlacement(b);
    forall y | y in b ensures MonthTotal(Regrouped(b)[y], 12) == |b[y]| {
      MonthTotalCounts(b[y]);
      FilterAll(b[y], Parses);
    }
  }

  // ---------------------------------------------------------------------------
  // One row through both stages
  // ---------------------------------------------------------------------------

  /** An empty list has no months. */
  lemma MonthsOfEmpty()
    ensures MonthsOf([]) == map[]
  {
    forall m | m in MonthKeys() ensures MonthList([], m) == [] {
      FilterNone([], InMonthPredicate(m));
    }
  }

  /** A single headline dated "2001-01-15" is filed under month "1". */
  lemma ExampleMonthsOf(h: Headline)
    requires h.publishDate == "2001-01-15"
    ensures MonthsOf([h]) == map["1" := [h]]
  {
    IsoExampleCanonical();
    MonthsOfEmpty();
    MonthsOfSnoc([], h);
    assert [] + [h] == [h];
    assert MonthKey(1) == "1";
  }

  /** A year "2001" holding one headline dated "2001-01-15" becomes "2001" -> "1" -> that headline. */
  lemma ExampleMonths(h: Headline)
    requires h.publishDate == "2001-01-15"
    ensures Regrouped(map["2001" := [h]]) == map["2001" := map["1" := [h]]]
  {
    ExampleMonthsOf(h);
    assert Regrouped(map["2001" := [h]]).Keys == {"2001"};
  }

  /**
   * A row dated 20010115 whose headline the sentiment pipeline calls positive
   * with confidence 0.9 and the classifier ranks "Economy" first is listed
   * under "2001" by the first stage, dated "2001-01-15", and under "2001" and
   * month "1" by the second; a row dated 20011399 disappears.
   */
  lemma OneHeadlineThroughBothStages(text: string)
    requires text != [] && text[0] == 'S'
    ensures var raw := [RawRow("20010115", Some(text)), RawRow("20011399", Some(text))];
            var h := Headline("2001-01-15", "Economy", 0.9, Some(text));
            var byYear := YearBuckets(PreparedRows(raw, PositiveAnalyzer(), EconomyClassifier()));
            byYear == map["2001" := [h]] && Regrouped(byYear) == map["2001" := map["1" := [h]]]
  {
    var raw := [RawRow("20010115", Some(text)), RawRow("20011399", Some(text))];
    var row := EnrichedRow(Date(2001, 1, 15), Some(text), 0.9, "Economy");
    var h := Headline("2001-01-15", "Economy", 0.9, Some(text));
    ExamplePreparedRows(text);
    ExampleYearBuckets(row);
    ExampleMonths(h);
    assert YearBuckets(PreparedRows(raw, PositiveAnalyzer(), EconomyClassifier())) == map["2001" := [h]];
  }
}
