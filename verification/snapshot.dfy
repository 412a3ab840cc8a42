/** The record one run of the scraper builds from the health ministry's page:
    the three counters, the two chart series, the region table, the report
    URL, the page's last-updated time, the run stamp, a link to the read-me and
    the secondary news source's figures. */
module Snapshot {
  import opened Wrappers
  import opened Civil
  import opened IsoDate
  import opened JsText
  import opened ParseInt
  import opened DateText
  import opened Json
  import opened Series

  /** What the page yields once the DOM lookups are done: the report URL
      attribute (absent: `None`), the texts of the three counters and of the
      last-updated node, and the three chart attributes as `JSON.parse` reads
      them (`None`: the attribute is missing or is not JSON). */
  datatype Page = Page(
    reportUrl: Option<string>,
    countTest: string,
    countSick: string,
    countRecover: string,
    lastModified: string,
    infectedChart: Option<Value>,
    testsChart: Option<Value>,
    regionMap: Option<Value>)

  const ReadMe := "https://apify.com/petrpatek/covid-cz"

  const StampKey := "lastUpdatedAtApify"

  /** The record's keys, in the order the record is built. */
  const RecordKeys := ["totalTested", "infected", "recovered", "totalPositiveTests",
                       "numberOfTestedGraph", "infectedByRegion", "sourceUrl",
                       "lastUpdatedAtSource", StampKey, "readMe", "fromBabisNewspapers"]

  /** A counter of the page: trimmed, first space and first comma removed,
      `parseInt`; `NaN` when no digit leads. */
  function Counter(text: string): (v: Value)
    ensures v.Num? || v.NaN?
    ensures v.NaN? <==> CounterValue(Trim(text)).None?
    ensures v.Num? ==> v.n == CounterValue(Trim(text)).value
  {
    match CounterValue(Trim(text))
    case Some(n) => Num(n)
    case None => NaN
  }

  /** `JSON.parse` of a chart attribute: text that is not JSON throws a `SyntaxError`. */
  function Parsed(o: Option<Value>): (r: Result<Value>)
    ensures r.Ok? <==> o.Some?
    ensures r.Ok? ==> r.value == o.value
    ensures r.Err? ==> r.fault == SyntaxError
  {
    Need(o, SyntaxError)
  }

  /** The report URL attribute, `undefined` when the element has none. */
  function UrlValue(url: Option<string>): (v: Value)
    ensures v.Str? <==> url.Some?
    ensures v.Str? ==> v.s == url.value
    ensures !v.Str? ==> v.Undefined?
  {
    match url
    case Some(u) => Str(u)
    case None => Undefined
  }

  /** The text given to `new Date` for the last-updated time; `parts[1]`
      undefined throws a `TypeError`. */
  function SourceText(page: Page): (r: Result<string>)
    ensures r.Ok? <==> SourceDateTimeText(CleanLastModified(page.lastModified)).Some?
    ensures r.Err? ==> r.fault == TypeError
  {
    Need(SourceDateTimeText(CleanLastModified(page.lastModified)), TypeError)
  }

  /** The run stamp: `Date.UTC` of the clock's fields with seconds and
      milliseconds dropped. */
  function Stamp(now: DateTime): (s: string)
    requires Valid(now) && InRange(now)
    ensures var t := UtcFields(TruncateToMinute(now));
            ParseIsoString(s) == Some(t) && t.second == 0 && t.ms == 0
    ensures now.year >= 100 ==> ParseIsoString(s) == Some(TruncateToMinute(now))
  {
    DateString(UtcFields(TruncateToMinute(now)))
  }

  /** The parsed chart attributes, in the order they are parsed, and the
      last-updated text: the steps before the record is built. */
  datatype Inputs = Inputs(infectedData: Value, testsData: Value, regionData: Value, sourceText: string)

  function ReadInputs(page: Page): (r: Result<Inputs>)
    ensures r.Ok? <==> && page.infectedChart.Some? && page.testsChart.Some? && page.regionMap.Some?
                       && SourceText(page).Ok?
    ensures r.Ok? ==> r.value == Inputs(page.infectedChart.value, page.testsChart.value,
                                        page.regionMap.value, SourceText(page).value)
    ensures page.infectedChart.None? || page.testsChart.None? || page.regionMap.None?
            ==> r == Err(SyntaxError)
    ensures r.Err? && !(page.infectedChart.None? || page.testsChart.None? || page.regionMap.None?)
            ==> r == Err(TypeError)
  {
    var infectedData :- Parsed(page.infectedChart);
    var testsData :- Parsed(page.testsChart);
    var regionData :- Parsed(page.regionMap);
    var sourceText :- SourceText(page);
    Ok(Inputs(infectedData, testsData, regionData, sourceText))
  }

  /** The record's computed parts: the two series, the region table and the
      source time's ISO text, each throwing in the order the record lists them. */
  datatype Parts = Parts(positive: seq<Value>, tested: seq<Value>, regions: seq<Value>, source: string)

  function ComputeParts(inputs: Inputs): (r: Result<Parts>)
    ensures r.Ok? <==> && ConnectDataFromGraph(inputs.infectedData).Ok?
                       && ConnectDataFromGraph(inputs.testsData).Ok?
                       && ProjectRegions(inputs.regionData).Ok?
                       && SourceTimestamp(inputs.sourceText).Some?
    ensures r.Ok? ==> && r.value.positive == ConnectDataFromGraph(inputs.infectedData).value
                      && r.value.tested == ConnectDataFromGraph(inputs.testsData).value
                      && r.value.regions == ProjectRegions(inputs.regionData).value
                      && ParseIsoString(r.value.source) == SourceTimestamp(inputs.sourceText)
  {
    var positive :- ConnectDataFromGraph(inputs.infectedData);
    var tested :- ConnectDataFromGraph(inputs.testsData);
    var regions :- ProjectRegions(inputs.regionData);
    var source :- IsoOf(SourceTimestamp(inputs.sourceText));
    Ok(Parts(positive, tested, regions, source))
  }

  /** The record, field by field. */
  datatype Record = Record(
    totalTested: Value,
    infected: Value,
    recovered: Value,
    totalPositiveTests: seq<Value>,
    numberOfTestedGraph: seq<Value>,
    infectedByRegion: seq<Value>,
    sourceUrl: Value,
    lastUpdatedAtSource: string,
    lastUpdatedAtApify: string,
    readMe: string,
    fromBabisNewspapers: Value)

  /** The record as a JavaScript object: the ten properties of the object
      literal in their order, then `fromBabisNewspapers`, which is assigned
      afterwards and so comes last. */
  function RecordValue(rec: Record): (v: Value)
    ensures v.Obj? && |v.members| == |RecordKeys|
  {
    Obj([
      Member("totalTested", rec.totalTested),
      Member("infected", rec.infected),
      Member("recovered", rec.recovered),
      Member("totalPositiveTests", Arr(rec.totalPositiveTests)),
      Member("numberOfTestedGraph", Arr(rec.numberOfTestedGraph)),
      Member("infectedByRegion", Arr(rec.infectedByRegion)),
      Member("sourceUrl", rec.sourceUrl),
      Member("lastUpdatedAtSource", Str(rec.lastUpdatedAtSource)),
      Member(StampKey, Str(rec.lastUpdatedAtApify)),
      Member("readMe", Str(rec.readMe)),
      Member("fromBabisNewspapers", rec.fromBabisNewspapers)])
  }

  /** The record's properties come in the order the record lists them. */
  lemma RecordLayout(rec: Record)
    ensures Keys(RecordValue(rec).members) == RecordKeys
  {
    var ms := RecordValue(rec).members;
    var ks := Keys(ms);
    assert ks == [ms[0].key, ms[1].key, ms[2].key, ms[3].key, ms[4].key, ms[5].key,
                  ms[6].key, ms[7].key, ms[8].key, ms[9].key, ms[10].key];
  }

  /** Assigning `fromBabisNewspapers` to the object literal's ten properties
      appends it: the record's members are the literal's followed by it. */
  lemma RecordAssigned(rec: Record)
    ensures var ms := RecordValue(rec).members;
            Put(ms[..10], "fromBabisNewspapers", rec.fromBabisNewspapers) == ms
  {
    var ms := RecordValue(rec).members;
    var first := ms[..10];
    RecordLayout(rec);
    assert forall i :: 0 <= i < 10 ==> first[i].key == RecordKeys[i];
    PutAppends(first, "fromBabisNewspapers", rec.fromBabisNewspapers);
    assert first + [ms[10]] == ms;
  }

  /** The whole record, or the exception that ends the run: the chart
      attributes are parsed first (in the order infected, tests, regions),
      then the last-updated text is split, then the record's properties are
      computed in the order they are listed, and last the secondary source is
      awaited and spread into `fromBabisNewspapers`. The clock `now` is
      a valid `Date`; its local time zone is taken to be UTC. */
  function BuildRecord(page: Page, now: DateTime, supplemental: Result<Value>): (r: Result<Record>)
    requires Valid(now) && InRange(now)
    ensures page.infectedChart.None? || page.testsChart.None? || page.regionMap.None?
            ==> r == Err(SyntaxError)
    ensures (&& page.infectedChart.Some? && page.testsChart.Some? && page.regionMap.Some?
             && SourceText(page).Err?) ==> r == Err(TypeError)
    ensures r.Ok? <==> && ReadInputs(page).Ok? && ComputeParts(ReadInputs(page).value).Ok?
                       && supplemental.Ok?
    ensures ReadInputs(page).Ok? && ComputeParts(ReadInputs(page).value).Ok? && supplemental.Err?
            ==> r == Err(supplemental.fault)
    ensures r.Ok? ==> r.value.readMe == ReadMe && r.value.sourceUrl == UrlValue(page.reportUrl)
    ensures r.Ok? ==> ParseIsoString(r.value.lastUpdatedAtApify) == Some(UtcFields(TruncateToMinute(now)))
    ensures r.Ok? ==> r.value.fromBabisNewspapers == Spread(supplemental.value)
  {
    var inputs :- ReadInputs(page);
    var parts :- ComputeParts(inputs);
    var extra :- supplemental;
    Ok(Record(
      Counter(page.countTest),
      Counter(page.countSick),
      Counter(page.countRecover),
      parts.positive,
      parts.tested,
      parts.regions,
      UrlValue(page.reportUrl),
      parts.source,
      Stamp(now),
      ReadMe,
      Spread(extra)))
  }

  /** The counters, the series, the region table and the source time, as
      the page gives them. */
  lemma BuildFields(page: Page, now: DateTime, supplemental: Result<Value>)
    requires Valid(now) && InRange(now)
    requires BuildRecord(page, now, supplemental).Ok?
    ensures var rec := BuildRecord(page, now, supplemental).value;
            && rec.totalTested == Counter(page.countTest)
            && rec.infected == Counter(page.countSick)
            && rec.recovered == Counter(page.countRecover)
            && rec.totalPositiveTests == ConnectDataFromGraph(page.infectedChart.value).value
            && rec.numberOfTestedGraph == ConnectDataFromGraph(page.testsChart.value).value
            && rec.infectedByRegion == ProjectRegions(page.regionMap.value).value
            && ParseIsoString(rec.lastUpdatedAtSource) == SourceTimestamp(SourceText(page).value)
  {
    var inputs := ReadInputs(page).value;
    assert ComputeParts(inputs).Ok?;
  }

  /** Two runs over the same page and the same secondary figures build
      records that differ at most in the run stamp. */
  lemma BuildStampOnly(page: Page, now: DateTime, later: DateTime, supplemental: Result<Value>)
    requires Valid(now) && InRange(now) && Valid(later) && InRange(later)
    ensures BuildRecord(page, now, supplemental).Ok? <==> BuildRecord(page, later, supplemental).Ok?
    ensures BuildRecord(page, now, supplemental).Ok? ==>
              var a := BuildRecord(page, now, supplemental).value;
              a == BuildRecord(page, later, supplemental).value.(lastUpdatedAtApify := a.lastUpdatedAtApify)
  {
  }

  /** Records that differ only in the run stamp are the same object once the
      stamp property is deleted. */
  lemma StampOnly(a: Record, b: Record)
    requires a == b.(lastUpdatedAtApify := a.lastUpdatedAtApify)
    ensures Remove(RecordValue(a).members, StampKey) == Remove(RecordValue(b).members, StampKey)
  {
    var xs := RecordValue(a).members;
    var ys := RecordValue(b).members;
    RecordLayout(a);
    RecordLayout(b);
    assert forall i :: 0 <= i < |xs| && xs[i].key != StampKey ==> xs[i] == ys[i];
    RemoveSameExcept(xs, ys, StampKey);
  }
}
