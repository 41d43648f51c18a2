/**
 * Stage 1: from the table of dated headlines to the year-grouped document.
 * The table operations (date conversion and dropna, the two .apply columns,
 * the category mask, sort_values) are functions on the sequence of rows; the
 * loop that fills the year dictionary is a method proved equal to YearBuckets.
 */
module NewsProcessing {
  import opened Wrappers
  import opened Calendar
  import opened Sequences
  import opened Enrichment

  /** One table row as read: the publish_date token and the headline cell (None when missing). */
  datatype RawRow = RawRow(publishDate: string, headlineText: Option<string>)

  /** A row whose publish_date was converted to a date. */
  datatype DatedRow = DatedRow(date: Date, headlineText: Option<string>)

  /** A row with the news_sentiment and category columns added. */
  datatype EnrichedRow = EnrichedRow(date: Date, headlineText: Option<string>, newsSentiment: real, category: string)

  /** One object of the year-grouped document, with its publish_date rendered as YYYY-MM-DD. */
  datatype Headline = Headline(publishDate: string, category: string, newsSentiment: real, headlineText: Option<string>)

  // ---------------------------------------------------------------------------
  // Date conversion and dropping of unconvertible rows
  // ---------------------------------------------------------------------------

  predicate HasValidDate(row: RawRow) {
    ParseCompact(row.publishDate).Some?
  }

  /** Converts every publish_date token and drops the rows where the conversion failed. */
  function DropInvalidDates(rows: seq<RawRow>): (r: seq<DatedRow>)
    ensures forall i :: 0 <= i < |r| ==> ValidDate(r[i].date)
    decreases |rows|
  {
    if rows == [] then []
    else
      var rest := DropInvalidDates(rows[1..]);
      match ParseCompact(rows[0].publishDate)
      case None => rest
      case Some(d) => [DatedRow(d, rows[0].headlineText)] + rest
  }

  /** As many rows survive as there are rows with a convertible publish_date. */
  lemma {:induction false} DropInvalidDatesCount(rows: seq<RawRow>)
    ensures |DropInvalidDates(rows)| == |Filter(rows, HasValidDate)|
    decreases |rows|
  {
    if rows != [] {
      DropInvalidDatesCount(rows[1..]);
    }
  }

  /** Rows are dropped one by one, so the kept rows keep their relative order. */
  lemma {:induction false} DropInvalidDatesAppend(a: seq<RawRow>, b: seq<RawRow>)
    ensures DropInvalidDates(a + b) == DropInvalidDates(a) + DropInvalidDates(b)
    decreases |a|
  {
    if a == [] {
      assert a + b == b;
    } else {
      assert (a + b)[0] == a[0];
      assert (a + b)[1..] == a[1..] + b;
      DropInvalidDatesAppend(a[1..], b);
    }
  }

  /** Every row whose token is a valid YYYYMMDD date is kept with that date. */
  lemma {:induction false} DropInvalidDatesKeepsValid(rows: seq<RawRow>)
    ensures forall i, d :: 0 <= i < |rows| && ParseCompact(rows[i].publishDate) == Some(d)
              ==> DatedRow(d, rows[i].headlineText) in DropInvalidDates(rows)
    decreases |rows|
  {
    if rows != [] {
      DropInvalidDatesKeepsValid(rows[1..]);
      forall i, d | 0 < i < |rows| && ParseCompact(rows[i].publishDate) == Some(d)
        ensures DatedRow(d, rows[i].headlineText) in DropInvalidDates(rows)
      {
        assert rows[i] == rows[1..][i - 1];
      }
    }
  }

  /** Every kept row comes from an input row whose token is exactly its date's eight digits. */
  lemma {:induction false} DropInvalidDatesFromRaw(rows: seq<RawRow>)
    ensures forall x :: x in DropInvalidDates(rows) ==> RawRow(CompactString(x.date), x.headlineText) in rows
    decreases |rows|
  {
    if rows != [] {
      DropInvalidDatesFromRaw(rows[1..]);
      forall x | x in DropInvalidDates(rows) && x !in DropInvalidDates(rows[1..])
        ensures RawRow(CompactString(x.date), x.headlineText) in rows
      {
        assert ParseCompact(rows[0].publishDate) == Some(x.date) && x.headlineText == rows[0].headlineText;
        ParseCompactExactly(rows[0].publishDate, x.date);
      }
    }
  }

  /**
   * Both directions together: the valid rows are kept, and no other row
   * survives.
   */
  lemma DropInvalidDatesKeepsExactlyValid(rows: seq<RawRow>)
    ensures forall i, d :: 0 <= i < |rows| && ParseCompact(rows[i].publishDate) == Some(d)
              ==> DatedRow(d, rows[i].headlineText) in DropInvalidDates(rows)
    ensures forall x :: x in DropInvalidDates(rows) ==> RawRow(CompactString(x.date), x.headlineText) in rows
  {
    DropInvalidDatesKeepsValid(rows);
    DropInvalidDatesFromRaw(rows);
  }

  // ---------------------------------------------------------------------------
  // The two enrichment columns, and the category mask
  // ---------------------------------------------------------------------------

  function EnrichRow(row: DatedRow, analyzer: SentimentAnalyzer, classifier: ZeroShotClassifier): EnrichedRow {
    EnrichedRow(row.date, row.headlineText, SentimentScore(row.headlineText, analyzer), Category(row.headlineText, classifier))
  }

  /** df['news_sentiment'] and df['category']: each row gains the two values computed from its own text. */
  function EnrichRows(rows: seq<DatedRow>, analyzer: SentimentAnalyzer, classifier: ZeroShotClassifier): (r: seq<EnrichedRow>)
    ensures |r| == |rows|
    ensures forall i :: 0 <= i < |rows| ==> r[i].date == rows[i].date && r[i].headlineText == rows[i].headlineText
    ensures forall i :: 0 <= i < |rows| ==>
              r[i].newsSentiment == SentimentScore(rows[i].headlineText, analyzer)
              && r[i].category == Category(rows[i].headlineText, classifier)
  {
    seq(|rows|, i requires 0 <= i < |rows| => EnrichRow(rows[i], analyzer, classifier))
  }

  predicate HasTargetCategory(row: EnrichedRow) {
    row.category in TargetCategories
  }

  /** df[df['category'].isin(target_categories)]. */
  function FilterCategories(rows: seq<EnrichedRow>): (r: seq<EnrichedRow>)
    ensures forall x :: x in r <==> x in rows && x.category in TargetCategories
  {
    Filter(rows, HasTargetCategory)
  }

  /** The mask removes rows one by one, so the rest keep their relative order. */
  lemma FilterCategoriesKeepsOrder(a: seq<EnrichedRow>, b: seq<EnrichedRow>)
    ensures FilterCategories(a + b) == FilterCategories(a) + FilterCategories(b)
  {
    FilterAppend(a, b, HasTargetCategory);
  }

  /**
   * With a classifier that only ever ranks first one of the labels it was
   * offered, the category mask removes nothing: the defaults already are
   * target categories.
   */
  lemma FilterCategoriesRemovesNothing(rows: seq<DatedRow>, analyzer: SentimentAnalyzer, classifier: ZeroShotClassifier)
    requires AnswersFromCandidates(classifier)
    ensures FilterCategories(EnrichRows(rows, analyzer, classifier)) == EnrichRows(rows, analyzer, classifier)
  {
    var e := EnrichRows(rows, analyzer, classifier);
    forall i | 0 <= i < |e| ensures HasTargetCategory(e[i]) {
      var text := rows[i].headlineText;
      if text.Some? {
        assert TopLabelIsCandidate(classifier(text.value, TargetCategories), TargetCategories);
      }
    }
    FilterAll(e, HasTargetCategory);
  }

  // ---------------------------------------------------------------------------
  // Sorting by publish_date
  // ---------------------------------------------------------------------------

  predicate SortedByDate(rows: seq<EnrichedRow>) {
    forall i, j :: 0 <= i < j < |rows| ==> DateLe(rows[i].date, rows[j].date)
  }

  function InsertByDate(x: EnrichedRow, rows: seq<EnrichedRow>): (r: seq<EnrichedRow>)
    requires SortedByDate(rows)
    ensures SortedByDate(r)
    ensures multiset(r) == multiset(rows) + multiset{x}
    decreases |rows|
  {
    if rows == [] || DateLe(x.date, rows[0].date) then [x] + rows
    else
      var rest := InsertByDate(x, rows[1..]);
      assert forall j :: 0 <= j < |rest| ==> DateLe(rows[0].date, rest[j].date) by {
        forall j | 0 <= j < |rest| ensures DateLe(rows[0].date, rest[j].date) {
          assert rest[j] in multiset(rest);
          if rest[j] != x {
            assert rest[j] in multiset(rows[1..]);
            var k :| 0 <= k < |rows[1..]| && rows[1..][k] == rest[j];
            assert rows[k + 1] == rest[j];
          }
        }
      }
      assert rows == [rows[0]] + rows[1..];
      [rows[0]] + rest
  }

  /** df.sort_values('publish_date'): the same rows, in chronological order. */
  function SortByDate(rows: seq<EnrichedRow>): (r: seq<EnrichedRow>)
    ensures SortedByDate(r)
    ensures multiset(r) == multiset(rows)
    decreases |rows|
  {
    if rows == [] then []
    else
      assert rows == [rows[0]] + rows[1..];
      InsertByDate(rows[0], SortByDate(rows[1..]))
  }

  // ---------------------------------------------------------------------------
  // Grouping by year
  // ---------------------------------------------------------------------------

  /** The Year column: str() of the date's year. */
  function YearOf(row: EnrichedRow): string {
    DecimalString(row.date.year)
  }

  function InYearPredicate(year: string): EnrichedRow -> bool {
    row => YearOf(row) == year
  }

  /** The rows of one groupby group, in table order. */
  function InYear(rows: seq<EnrichedRow>, year: string): seq<EnrichedRow> {
    Filter(rows, InYearPredicate(year))
  }

  /** One record of to_dict(orient='records') after its publish_date is rewritten by strftime. */
  function ToHeadline(row: EnrichedRow): Headline {
    Headline(FormatIso(row.date), row.category, row.newsSentiment, row.headlineText)
  }

  function Render(rows: seq<EnrichedRow>): (r: seq<Headline>)
    ensures |r| == |rows| && forall i :: 0 <= i < |rows| ==> r[i] == ToHeadline(rows[i])
  {
    seq(|rows|, i requires 0 <= i < |rows| => ToHeadline(rows[i]))
  }

  function YearsOf(rows: seq<EnrichedRow>): set<string> {
    set i | 0 <= i < |rows| :: YearOf(rows[i])
  }

  /** processed_data_by_year: each year present among the rows, mapped to its rendered group. */
  function YearBuckets(rows: seq<EnrichedRow>): map<string, seq<Headline>> {
    map y | y in YearsOf(rows) :: Render(InYear(rows, y))
  }

  /**
   * The inner loop over one group's records: each record keeps its fields and
   * has its publish_date rewritten as a YYYY-MM-DD string.
   */
  method FormatDates(group: seq<EnrichedRow>) returns (headlines: seq<Headline>)
    ensures headlines == Render(group)
  {
    headlines := [];
    var k := 0;
    while k < |group|
      invariant 0 <= k <= |group|
      invariant |headlines| == k
      invariant forall i :: 0 <= i < k ==> headlines[i] == ToHeadline(group[i])
    {
      headlines := headlines + [ToHeadline(group[k])];
      k := k + 1;
    }
  }

  /** The loop over df.groupby('Year') that fills processed_data_by_year. */
  method GroupByYear(rows: seq<EnrichedRow>) returns (byYear: map<string, seq<Headline>>)
    ensures byYear == YearBuckets(rows)
  {
    byYear := map[];
    var pending := YearsOf(rows);
    while pending != {}
      invariant pending <= YearsOf(rows)
      invariant byYear.Keys == YearsOf(rows) - pending
      invariant forall y :: y in byYear ==> byYear[y] == Render(InYear(rows, y))
      decreases pending
    {
      var year :| year in pending;
      var group := InYear(rows, year);
      var headlines := FormatDates(group);
      byYear := byYear[year := headlines];
      pending := pending - {year};
    }
    assert byYear.Keys == YearBuckets(rows).Keys;
  }

  /** Every row lands in the bucket of its own year, and in no other bucket. */
  lemma YearBucketsPlacement(rows: seq<EnrichedRow>, i: nat)
    requires i < |rows|
    requires forall k :: 0 <= k < |rows| ==> ValidDate(rows[k].date)
    ensures YearOf(rows[i]) in YearBuckets(rows)
    ensures ToHeadline(rows[i]) in YearBuckets(rows)[YearOf(rows[i])]
    ensures forall y :: y in YearBuckets(rows) && y != YearOf(rows[i]) ==> ToHeadline(rows[i]) !in YearBuckets(rows)[y]
  {
    var b := YearBuckets(rows);
    var key := YearOf(rows[i]);
    assert key in YearsOf(rows);
    var group := InYear(rows, key);
    assert rows[i] in group;
    var j :| 0 <= j < |group| && group[j] == rows[i];
    assert Render(group)[j] == ToHeadline(rows[i]);
    forall y | y in b && y != key ensures ToHeadline(rows[i]) !in b[y] {
      NotInOtherBucket(rows, i, y);
    }
  }

  lemma NotInOtherBucket(rows: seq<EnrichedRow>, i: nat, y: string)
    requires i < |rows|
    requires forall k :: 0 <= k < |rows| ==> ValidDate(rows[k].date)
    requires y in YearBuckets(rows) && y != YearOf(rows[i])
    ensures ToHeadline(rows[i]) !in YearBuckets(rows)[y]
  {
    var g := InYear(rows, y);
    forall k | 0 <= k < |g| ensures Render(g)[k] != ToHeadline(rows[i]) {
      assert g[k] in rows && YearOf(g[k]) == y;
      if g[k].date != rows[i].date {
        FormatIsoInjective(g[k].date, rows[i].date);
      }
    }
  }

  /** A rendered headline in a bucket comes from a row of that bucket's year. */
  lemma YearBucketsMember(rows: seq<EnrichedRow>, y: string, h: Headline) returns (row: EnrichedRow)
    requires y in YearBuckets(rows) && h in YearBuckets(rows)[y]
    ensures row in rows && YearOf(row) == y && h == ToHeadline(row)
  {
    var g := InYear(rows, y);
    var k :| 0 <= k < |g| && Render(g)[k] == h;
    row := g[k];
  }

  /** Headlines whose rendered dates read back, in non-decreasing date order. */
  predicate Chronological(hs: seq<Headline>) {
    (forall i :: 0 <= i < |hs| ==> ParseIso(hs[i].publishDate).Some?)
    && forall i, j :: 0 <= i < j < |hs| ==>
         DateLe(ParseIso(hs[i].publishDate).value, ParseIso(hs[j].publishDate).value)
  }

  /**
   * Every bucket is non-empty; each of its headlines carries a date that reads
   * back and whose year is the bucket's key; and when the rows were sorted the
   * bucket is in date order.
   */
  lemma YearBucketsDates(rows: seq<EnrichedRow>)
    requires forall k :: 0 <= k < |rows| ==> ValidDate(rows[k].date)
    ensures forall y :: y in YearBuckets(rows) ==> YearBuckets(rows)[y] != []
    ensures forall y, h :: y in YearBuckets(rows) && h in YearBuckets(rows)[y] ==>
              ParseIso(h.publishDate).Some? && DecimalString(ParseIso(h.publishDate).value.year) == y
    ensures SortedByDate(rows) ==> forall y :: y in YearBuckets(rows) ==> Chronological(YearBuckets(rows)[y])
  {
    var b := YearBuckets(rows);
    forall y | y in b ensures b[y] != [] {
      var i :| 0 <= i < |rows| && YearOf(rows[i]) == y;
      YearBucketsPlacement(rows, i);
    }
    forall y: string, h: Headline | y in b && h in b[y]
      ensures ParseIso(h.publishDate).Some? && DecimalString(ParseIso(h.publishDate).value.year) == y
    {
      var row := YearBucketsMember(rows, y, h);
      IsoRoundTrip(row.date);
    }
    if SortedByDate(rows) {
      forall y: string | y in b ensures Chronological(b[y]) {
        var g := InYear(rows, y);
        FilterKeepsOrder(rows, InYearPredicate(y), (p: EnrichedRow, q: EnrichedRow) => DateLe(p.date, q.date));
        var hs: seq<Headline> := b[y];
        assert hs == Render(g);
        forall i: int | 0 <= i < |g| ensures ParseIso(hs[i].publishDate) == Some(g[i].date) {
          IsoRoundTrip(g[i].date);
        }
      }
    }
  }

  // ---------------------------------------------------------------------------
  // The buckets together are a permutation of the rows
  // ---------------------------------------------------------------------------

  /** The buckets named by keys, one after the other. */
  function Concat(byYear: map<string, seq<Headline>>, keys: seq<string>): seq<Headline>
    requires forall i :: 0 <= i < |keys| ==> keys[i] in byYear
  {
    if keys == [] then [] else byYear[keys[0]] + Concat(byYear, keys[1..])
  }

  /** The rendered groups of keys, one after the other. */
  function ConcatGroups(rows: seq<EnrichedRow>, keys: seq<string>): seq<Headline> {
    if keys == [] then [] else Render(InYear(rows, keys[0])) + ConcatGroups(rows, keys[1..])
  }

  predicate Distinct(keys: seq<string>) {
    forall i, j :: 0 <= i < j < |keys| ==> keys[i] != keys[j]
  }

  lemma {:induction false} RenderAppend(a: seq<EnrichedRow>, b: seq<EnrichedRow>)
    ensures Render(a + b) == Render(a) + Render(b)
  {
    assert |Render(a + b)| == |Render(a) + Render(b)|;
    forall i | 0 <= i < |a + b| ensures Render(a + b)[i] == (Render(a) + Render(b))[i] {
      if i < |a| { assert (a + b)[i] == a[i]; } else { assert (a + b)[i] == b[i - |a|]; }
    }
  }

  lemma RenderInYearCons(x: EnrichedRow, rows: seq<EnrichedRow>, k: string)
    ensures Render(InYear([x] + rows, k)) == (if YearOf(x) == k then [ToHeadline(x)] else []) + Render(InYear(rows, k))
  {
    assert ([x] + rows)[1..] == rows;
    assert InYear([x] + rows, k) == (if YearOf(x) == k then [x] else []) + InYear(rows, k);
    RenderAppend(if YearOf(x) == k then [x] else [], InYear(rows, k));
    assert Render([x]) == [ToHeadline(x)];
  }

  /** Dropping the first of distinct keys leaves distinct keys, none equal to it. */
  lemma DistinctTail(keys: seq<string>)
    requires Distinct(keys) && keys != []
    ensures Distinct(keys[1..]) && keys[0] !in keys[1..]
  {
    forall i, j | 0 <= i < j < |keys[1..]| ensures keys[1..][i] != keys[1..][j] {
      assert keys[1..][i] == keys[i + 1] && keys[1..][j] == keys[j + 1];
    }
    forall j | 0 <= j < |keys[1..]| ensures keys[1..][j] != keys[0] {
      assert keys[1..][j] == keys[j + 1];
    }
  }

  /** The bookkeeping of one step of ConcatGroupsCons, on multisets alone. */
  lemma AddToParts<T>(whole1: multiset<T>, whole0: multiset<T>, head1: multiset<T>, head0: multiset<T>,
                      rest1: multiset<T>, rest0: multiset<T>, here: multiset<T>, later: multiset<T>)
    requires whole1 == head1 + rest1 && whole0 == head0 + rest0
    requires head1 == head0 + here && rest1 == rest0 + later
    ensures whole1 == whole0 + (here + later)
  {
  }

  lemma ConcatGroupsStep(rows: seq<EnrichedRow>, keys: seq<string>)
    requires keys != []
    ensures multiset(ConcatGroups(rows, keys))
            == multiset(Render(InYear(rows, keys[0]))) + multiset(ConcatGroups(rows, keys[1..]))
  {
  }

  lemma RenderInYearConsMultiset(x: EnrichedRow, rows: seq<EnrichedRow>, k: string)
    ensures multiset(Render(InYear([x] + rows, k)))
            == multiset(Render(InYear(rows, k))) + (if YearOf(x) == k then multiset{ToHeadline(x)} else multiset{})
  {
    RenderInYearCons(x, rows, k);
  }

  lemma MemberSplit(y: string, keys: seq<string>)
    requires keys != [] && keys[0] !in keys[1..]
    ensures (y in keys <==> y == keys[0] || y in keys[1..])
    ensures !(y == keys[0] && y in keys[1..])
  {
    assert keys == [keys[0]] + keys[1..];
  }

  /** Adding one row in front adds its headline once, to the one group of its year. */
  lemma {:induction false} ConcatGroupsCons(x: EnrichedRow, rows: seq<EnrichedRow>, keys: seq<string>)
    requires Distinct(keys)
    ensures multiset(ConcatGroups([x] + rows, keys))
            == multiset(ConcatGroups(rows, keys)) + (if YearOf(x) in keys then multiset{ToHeadline(x)} else multiset{})
    decreases |keys|
  {
    if keys != [] {
      var k, tail := keys[0], keys[1..];
      DistinctTail(keys);
      ConcatGroupsCons(x, rows, tail);
      RenderInYearConsMultiset(x, rows, k);
      ConcatGroupsStep(rows, keys);
      ConcatGroupsStep([x] + rows, keys);
      MemberSplit(YearOf(x), keys);
      var one := multiset{ToHeadline(x)};
      var here := if YearOf(x) == k then one else multiset{};
      var later := if YearOf(x) in tail then one else multiset{};
      AddToParts(multiset(ConcatGroups([x] + rows, keys)), multiset(ConcatGroups(rows, keys)),
                 multiset(Render(InYear([x] + rows, k))), multiset(Render(InYear(rows, k))),
                 multiset(ConcatGroups([x] + rows, tail)), multiset(ConcatGroups(rows, tail)), here, later);
    }
  }

  lemma {:induction false} ConcatGroupsPermutation(rows: seq<EnrichedRow>, keys: seq<string>)
    requires Distinct(keys)
    requires forall i :: 0 <= i < |rows| ==> YearOf(rows[i]) in keys
    ensures multiset(ConcatGroups(rows, keys)) == multiset(Render(rows))
    decreases |rows|
  {
    if rows == [] {
      ConcatGroupsEmpty(keys);
    } else {
      var x := rows[0];
      assert rows == [x] + rows[1..];
      ConcatGroupsPermutation(rows[1..], keys);
      ConcatGroupsCons(x, rows[1..], keys);
      RenderAppend([x], rows[1..]);
      assert Render([x]) == [ToHeadline(x)];
    }
  }

  lemma {:induction false} ConcatGroupsEmpty(keys: seq<string>)
    ensures ConcatGroups([], keys) == []
    decreases |keys|
  {
    if keys != [] {
      ConcatGroupsEmpty(keys[1..]);
    }
  }

  /**
   * Taken in any order, the buckets put together hold exactly the rendered
   * rows, each as often as it occurs: they are a permutation of the rows.
   */
  lemma YearBucketsPermutation(rows: seq<EnrichedRow>, keys: seq<string>)
    requires Distinct(keys)
    requires forall y :: y in YearBuckets(rows) <==> y in keys
    ensures forall i :: 0 <= i < |keys| ==> keys[i] in YearBuckets(rows)
    ensures multiset(Concat(YearBuckets(rows), keys)) == multiset(Render(rows))
    ensures |Concat(YearBuckets(rows), keys)| == |rows|
  {
    var b := YearBuckets(rows);
    ConcatAgrees(rows, keys);
    forall i | 0 <= i < |rows| ensures YearOf(rows[i]) in keys {
      assert YearOf(rows[i]) in YearsOf(rows);
    }
    ConcatGroupsPermutation(rows, keys);
    assert |multiset(Concat(b, keys))| == |multiset(Render(rows))|;
  }

  lemma {:induction false} ConcatAgrees(rows: seq<EnrichedRow>, keys: seq<string>)
    requires forall i :: 0 <= i < |keys| ==> keys[i] in YearBuckets(rows)
    ensures Concat(YearBuckets(rows), keys) == ConcatGroups(rows, keys)
    decreases |keys|
  {
    if keys != [] {
      ConcatAgrees(rows, keys[1..]);
    }
  }

  // ---------------------------------------------------------------------------
  // The whole stage
  // ---------------------------------------------------------------------------

  /** The rows that reach the grouping loop: dated, enriched, in the eight categories, sorted. */
  function PreparedRows(raw: seq<RawRow>, analyzer: SentimentAnalyzer, classifier: ZeroShotClassifier): seq<EnrichedRow> {
    SortByDate(FilterCategories(EnrichRows(DropInvalidDates(raw), analyzer, classifier)))
  }

  /**
   * Every row that reaches the grouping loop has a valid date and a target
   * category, the rows are in date order, and with confidences in [0, 1]
   * every sentiment lies in [-1, 1].
   */
  lemma PreparedRowsFacts(raw: seq<RawRow>, analyzer: SentimentAnalyzer, classifier: ZeroShotClassifier)
    ensures SortedByDate(PreparedRows(raw, analyzer, classifier))
    ensures forall k :: 0 <= k < |PreparedRows(raw, analyzer, classifier)| ==>
              var row := PreparedRows(raw, analyzer, classifier)[k];
              ValidDate(row.date) && row.category in TargetCategories
              && (ConfidencesInUnitRange(analyzer) ==> -1.0 <= row.newsSentiment <= 1.0)
  {
    var dated := DropInvalidDates(raw);
    var enriched := EnrichRows(dated, analyzer, classifier);
    var kept := FilterCategories(enriched);
    var sorted := SortByDate(kept);
    assert sorted == PreparedRows(raw, analyzer, classifier);
    EnrichRowsFacts(dated, analyzer, classifier);
    forall k | 0 <= k < |sorted|
      ensures sorted[k] in enriched && sorted[k].category in TargetCategories
    {
      assert sorted[k] in multiset(kept);
    }
  }

  /** Enrichment keeps the dates, and bounds each score when the confidences are bounded. */
  lemma EnrichRowsFacts(rows: seq<DatedRow>, analyzer: SentimentAnalyzer, classifier: ZeroShotClassifier)
    requires forall k :: 0 <= k < |rows| ==> ValidDate(rows[k].date)
    ensures forall x :: x in EnrichRows(rows, analyzer, classifier) ==>
              ValidDate(x.date) && (ConfidencesInUnitRange(analyzer) ==> -1.0 <= x.newsSentiment <= 1.0)
  {
    var enriched := EnrichRows(rows, analyzer, classifier);
    forall x | x in enriched
      ensures ValidDate(x.date)
      ensures ConfidencesInUnitRange(analyzer) ==> -1.0 <= x.newsSentiment <= 1.0
    {
      var e :| 0 <= e < |enriched| && enriched[e] == x;
      if ConfidencesInUnitRange(analyzer) {
        var text := rows[e].headlineText;
        if text.Some? {
          assert TopConfidenceInUnitRange(analyzer(text.value));
        }
      }
    }
  }

  /** Category and sentiment facts about the rows carry over to the rendered buckets. */
  lemma YearBucketsFields(rows: seq<EnrichedRow>, sentimentBounded: bool)
    requires forall k :: 0 <= k < |rows| ==> rows[k].category in TargetCategories
    requires sentimentBounded ==> forall k :: 0 <= k < |rows| ==> -1.0 <= rows[k].newsSentiment <= 1.0
    ensures forall y, h :: y in YearBuckets(rows) && h in YearBuckets(rows)[y] ==>
              h.category in TargetCategories && (sentimentBounded ==> -1.0 <= h.newsSentiment <= 1.0)
  {
    forall y: string, h: Headline | y in YearBuckets(rows) && h in YearBuckets(rows)[y]
      ensures h.category in TargetCategories && (sentimentBounded ==> -1.0 <= h.newsSentiment <= 1.0)
    {
      var row := YearBucketsMember(rows, y, h);
      var k :| 0 <= k < |rows| && rows[k] == row;
    }
  }

  /**
   * The stage from the table to processed_data_by_year: drop undated rows,
   * add the two columns, keep the eight categories, sort by date, group by year.
   */
  method ProcessNews(raw: seq<RawRow>, analyzer: SentimentAnalyzer, classifier: ZeroShotClassifier)
    returns (byYear: map<string, seq<Headline>>)
    ensures byYear == YearBuckets(PreparedRows(raw, analyzer, classifier))
    ensures forall y :: y in byYear ==> byYear[y] != [] && Chronological(byYear[y])
    ensures forall y, h :: y in byYear && h in byYear[y] ==>
              h.category in TargetCategories
              && ParseIso(h.publishDate).Some? && DecimalString(ParseIso(h.publishDate).value.year) == y
    ensures ConfidencesInUnitRange(analyzer) ==>
              forall y, h :: y in byYear && h in byYear[y] ==> -1.0 <= h.newsSentiment <= 1.0
  {
    var rows := PreparedRows(raw, analyzer, classifier);
    byYear := GroupByYear(rows);
    PreparedRowsFacts(raw, analyzer, classifier);
    YearBucketsDates(rows);
    YearBucketsFields(rows, ConfidencesInUnitRange(analyzer));
    assert byYear == YearBuckets(rows);
    forall y: string, h: Headline | y in byYear && h in byYear[y]
      ensures ParseIso(h.publishDate).Some? && DecimalString(ParseIso(h.publishDate).value.year) == y
      ensures h.category in TargetCategories
    {
    }
  }

  // ---------------------------------------------------------------------------
  // From the raw table to the buckets, row by row
  // ---------------------------------------------------------------------------

  /**
   * A row whose publish_date converts to d and whose headline is classified
   * into one of the eight categories appears in the bucket of d's year, with
   * its date rendered as YYYY-MM-DD and the two values computed from its text.
   */
  lemma ValidRowReachesBucket(raw: seq<RawRow>, analyzer: SentimentAnalyzer, classifier: ZeroShotClassifier, i: nat, d: Date)
    requires i < |raw| && ParseCompact(raw[i].publishDate) == Some(d)
    requires Category(raw[i].headlineText, classifier) in TargetCategories
    ensures var byYear := YearBuckets(PreparedRows(raw, analyzer, classifier));
            DecimalString(d.year) in byYear
            && Headline(FormatIso(d), Category(raw[i].headlineText, classifier),
                        SentimentScore(raw[i].headlineText, analyzer), raw[i].headlineText)
               in byYear[DecimalString(d.year)]
  {
    var text := raw[i].headlineText;
    var dated := DropInvalidDates(raw);
    var enriched := EnrichRows(dated, analyzer, classifier);
    var kept := FilterCategories(enriched);
    var rows := PreparedRows(raw, analyzer, classifier);
    DropInvalidDatesKeepsExactlyValid(raw);
    assert DatedRow(d, text) in dated;
    var j :| 0 <= j < |dated| && dated[j] == DatedRow(d, text);
    var row := enriched[j];
    assert row == EnrichedRow(d, text, SentimentScore(text, analyzer), Category(text, classifier));
    assert row in kept;
    assert row in multiset(rows) by {
      assert multiset(rows) == multiset(kept);
    }
    var k :| 0 <= k < |rows| && rows[k] == row;
    PreparedRowsFacts(raw, analyzer, classifier);
    YearBucketsPlacement(rows, k);
  }

  /**
   * Every record of every bucket comes from a raw row whose publish_date is
   * exactly its date's eight digits, with the same text; its category and
   * sentiment are the ones computed from that text, and its date reads back.
   */
  lemma BucketRecordFromRawRow(raw: seq<RawRow>, analyzer: SentimentAnalyzer, classifier: ZeroShotClassifier, y: string, h: Headline)
    requires y in YearBuckets(PreparedRows(raw, analyzer, classifier))
    requires h in YearBuckets(PreparedRows(raw, analyzer, classifier))[y]
    ensures ParseIso(h.publishDate).Some?
    ensures RawRow(CompactString(ParseIso(h.publishDate).value), h.headlineText) in raw
    ensures h.category == Category(h.headlineText, classifier) && h.category in TargetCategories
    ensures h.newsSentiment == SentimentScore(h.headlineText, analyzer)
  {
    var dated := DropInvalidDates(raw);
    var enriched := EnrichRows(dated, analyzer, classifier);
    var kept := FilterCategories(enriched);
    var rows := PreparedRows(raw, analyzer, classifier);
    var row := YearBucketsMember(rows, y, h);
    assert row in kept by {
      assert row in multiset(rows);
      assert multiset(rows) == multiset(kept);
    }
    var e :| 0 <= e < |enriched| && enriched[e] == row;
    assert dated[e] in dated;
    DropInvalidDatesKeepsExactlyValid(raw);
    IsoRoundTrip(row.date);
  }

  /** The category mask keeps each target-category row as often as it occurs, and no other row. */
  lemma FilterCategoriesMultiplicity(rows: seq<EnrichedRow>, x: EnrichedRow)
    ensures multiset(FilterCategories(rows))[x] == if x.category in TargetCategories then multiset(rows)[x] else 0
  {
    FilterMultiset(rows, HasTargetCategory, x);
  }

  // ---------------------------------------------------------------------------
  // An example row
  // ---------------------------------------------------------------------------

  /** A sentiment pipeline that calls every text positive with confidence 0.9. */
  function PositiveAnalyzer(): SentimentAnalyzer {
    t => Predictions([Prediction("positive", 0.9)])
  }

  /** A zero-shot pipeline that always ranks "Economy" first. */
  function EconomyClassifier(): ZeroShotClassifier {
    (t, candidates) => RankedLabels(["Economy"])
  }

  /** The row dated 20010115 is kept with its date and the row dated 20011399 is dropped. */
  lemma ExampleDatedRows(text: string)
    ensures DropInvalidDates([RawRow("20010115", Some(text)), RawRow("20011399", Some(text))])
            == [DatedRow(Date(2001, 1, 15), Some(text))]
  {
    var raw := [RawRow("20010115", Some(text)), RawRow("20011399", Some(text))];
    CompactExamples();
    CompactExamplesRejected();
    assert raw[0].publishDate == "20010115" && raw[1..] == [RawRow("20011399", Some(text))];
    assert raw[1..][1..] == [];
    assert DropInvalidDates(raw[1..]) == [];
  }

  /** The example pipelines score the headline 0.9 and file it under "Economy". */
  lemma ExampleEnrichedRow(text: string)
    requires text != [] && text[0] == 'S'
    ensures EnrichRows([DatedRow(Date(2001, 1, 15), Some(text))], PositiveAnalyzer(), EconomyClassifier())
            == [EnrichedRow(Date(2001, 1, 15), Some(text), 0.9, "Economy")]
  {
    assert !IsBlank(Some(text)) by {
      assert !IsSpace(text[0]);
    }
    assert LowerAscii("positive") == "positive";
  }

  /** The first stage keeps the row dated 20010115 and drops the one dated 20011399. */
  lemma ExamplePreparedRows(text: string)
    requires text != [] && text[0] == 'S'
    ensures PreparedRows([RawRow("20010115", Some(text)), RawRow("20011399", Some(text))], PositiveAnalyzer(), EconomyClassifier())
            == [EnrichedRow(Date(2001, 1, 15), Some(text), 0.9, "Economy")]
  {
    var row := EnrichedRow(Date(2001, 1, 15), Some(text), 0.9, "Economy");
    ExampleDatedRows(text);
    ExampleEnrichedRow(text);
    assert FilterCategories([row]) == [row] by {
      assert HasTargetCategory(row);
      FilterAll([row], HasTargetCategory);
    }
    assert SortByDate([row]) == [row];
  }

  /** A single row dated 15 January 2001 forms the bucket "2001", dated "2001-01-15". */
  lemma ExampleYearBuckets(row: EnrichedRow)
    requires row.date == Date(2001, 1, 15)
    ensures YearBuckets([row]) == map["2001" := [Headline("2001-01-15", row.category, row.newsSentiment, row.headlineText)]]
  {
    RenderedExamples();
    assert YearOf(row) == "2001";
    assert YearsOf([row]) == {"2001"} by {
      assert YearOf([row][0]) == "2001";
      forall y | y in YearsOf([row]) ensures y == "2001" { }
    }
    assert InYear([row], "2001") == [row] by {
      FilterAll([row], InYearPredicate("2001"));
    }
    assert Render([row]) == [ToHeadline(row)];
    assert YearBuckets([row]).Keys == {"2001"};
  }
}
