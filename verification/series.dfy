/** The chart series and the region table of the record: each chart point
    `{x, y}` becomes `{value: y, date: <ISO text of parseDateToUTC(x)>}`, and
    each region entry is cut down to its `name` and `value`. */
module Series {
  import opened Wrappers
  import opened Civil
  import opened IsoDate
  import opened DateText
  import opened Json

  /** `Array.prototype.map` with a callback that may throw: the elements are
      visited in order and the first exception ends the map. */
  function MapAll<T>(items: seq<Value>, f: Value -> Result<T>): (r: Result<seq<T>>)
    ensures r.Ok? ==> |r.value| == |items|
  {
    if |items| == 0 then Ok([])
    else
      var x :- f(items[0]);
      var rest :- MapAll(items[1..], f);
      Ok([x] + rest)
  }

  /** The map succeeds exactly when the callback succeeds on every element,
      and then holds the callback's results in the elements' order. */
  lemma {:induction false} MapAllOk<T>(items: seq<Value>, f: Value -> Result<T>)
    ensures MapAll(items, f).Ok? <==> forall i :: 0 <= i < |items| ==> f(items[i]).Ok?
    ensures MapAll(items, f).Ok? ==>
              forall i :: 0 <= i < |items| ==> MapAll(items, f).value[i] == f(items[i]).value
  {
    if |items| > 0 {
      MapAllOk(items[1..], f);
      assert forall i :: 1 <= i < |items| ==> items[1..][i - 1] == items[i];
    }
  }

  /** When the callback throws, the map throws what the first throwing element threw. */
  lemma {:induction false} MapAllFirstError<T>(items: seq<Value>, f: Value -> Result<T>, i: nat)
    requires i < |items| && f(items[i]).Err?
    requires forall j :: 0 <= j < i ==> f(items[j]).Ok?
    ensures MapAll(items, f) == Err(f(items[i]).fault)
  {
    if i > 0 {
      assert forall j :: 0 <= j < i - 1 ==> items[1..][j] == items[j + 1];
      MapAllFirstError(items[1..], f, i - 1);
    }
  }

  /** `parseDateToUTC(x).toISOString()`: `split` is only there on a string,
      and an invalid date cannot be written. */
  function PointDate(x: Value): (r: Result<string>)
    ensures r.Ok? <==> x.Str? && ParseDateToUtc(x.s).Some?
    ensures !x.Str? ==> r == Err(TypeError)
    ensures x.Str? && r.Err? ==> r.fault == RangeError
    ensures r.Ok? ==> ParseIsoString(r.value) == ParseDateToUtc(x.s)
  {
    if x.Str? then IsoOf(ParseDateToUtc(x.s)) else Err(TypeError)
  }

  /** One chart point: `value` is read before `date`, as the object literal lists them. */
  function Point(p: Value): (r: Result<Value>)
    ensures r.Err? ==> r.fault == TypeError || r.fault == RangeError
    ensures r.Ok? <==> !(p.Undefined? || p.Null?) && PointDate(Get(p, "x").value).Ok?
    ensures r.Ok? ==> r.value == Obj([Member("value", Get(p, "y").value),
                                      Member("date", Str(PointDate(Get(p, "x").value).value))])
  {
    var y :- Get(p, "y");
    var date :- PointDate(Get(p, "x").value);
    Ok(Obj([Member("value", y), Member("date", Str(date))]))
  }

  /** `connectDataFromGraph(graphData)`: `graphData.values.map(...)`; `map`
      is only there on an array. */
  function ConnectDataFromGraph(graph: Value): (r: Result<seq<Value>>)
    ensures r.Ok? ==> Get(graph, "values").Ok? && Get(graph, "values").value.Arr?
    ensures r.Ok? ==> |r.value| == |Get(graph, "values").value.items|
  {
    var values :- Get(graph, "values");
    if !values.Arr? then Err(TypeError) else MapAll(values.items, Point)
  }

  /** The series keeps the points' number and order: element `i` carries the
      `y` of point `i` and the ISO text of the UTC midnight of its `x`. It fails
      exactly when `values` is not an array or some point cannot be converted,
      and then with the fault of the first such point. */
  lemma ConnectMeaning(graph: Value)
    requires Get(graph, "values").Ok? && Get(graph, "values").value.Arr?
    ensures var pts := Get(graph, "values").value.items;
            var r := ConnectDataFromGraph(graph);
            && (r.Ok? <==> forall i :: 0 <= i < |pts| ==> Point(pts[i]).Ok?)
            && (r.Ok? ==> forall i :: 0 <= i < |pts| ==> r.value[i] == Point(pts[i]).value)
  {
    MapAllOk(Get(graph, "values").value.items, Point);
  }

  lemma ConnectFirstError(graph: Value, i: nat)
    requires Get(graph, "values").Ok? && Get(graph, "values").value.Arr?
    requires var pts := Get(graph, "values").value.items;
             i < |pts| && Point(pts[i]).Err? && forall j :: 0 <= j < i ==> Point(pts[j]).Ok?
    ensures ConnectDataFromGraph(graph) == Err(Point(Get(graph, "values").value.items[i]).fault)
  {
    MapAllFirstError(Get(graph, "values").value.items, Point, i);
  }

  /** No points, no series. */
  lemma ConnectEmpty(graph: Value)
    requires Get(graph, "values") == Ok(Arr([]))
    ensures ConnectDataFromGraph(graph) == Ok([])
  {
  }

  /** Without an array under `values` there is no `map` to call. */
  lemma ConnectNotArray(graph: Value)
    requires Get(graph, "values").Ok? && !Get(graph, "values").value.Arr?
    ensures ConnectDataFromGraph(graph) == Err(TypeError)
  {
  }

  /** A point dated `DD.MM.YYYY` on a real calendar day is that day's UTC
      midnight, in the year the host's window gives. */
  lemma PointOfDay(p: Value, dd: string, mm: string, yyyy: string, d: nat, m: nat, y: nat)
    requires p.Obj? && Get(p, "x") == Ok(Str(dd + "." + mm + "." + yyyy))
    requires |dd| >= 1 && Numerals.AllDecimal(dd) && d == Numerals.ValueOf(dd, 10)
    requires |mm| >= 1 && Numerals.AllDecimal(mm) && m == Numerals.ValueOf(mm, 10)
    requires |yyyy| >= 1 && Numerals.AllDecimal(yyyy) && y == Numerals.ValueOf(yyyy, 10)
    requires ValidDate(HostYear(y), m, d) && InRange(DateTime(HostYear(y), m, d, 0, 0, 0, 0))
    ensures Point(p).Ok?
    ensures Point(p).value == Obj([Member("value", Get(p, "y").value),
                                   Member("date", Str(DateString(DateTime(HostYear(y), m, d, 0, 0, 0, 0))))])
  {
    ParseDateToUtcCalendar(dd, mm, yyyy, d, m, y);
  }

  /** `({name, value}) => ({name, value})`: destructuring reads both
      properties, and throws on `null` or `undefined`. */
  function Region(e: Value): (r: Result<Value>)
    ensures r.Err? <==> e.Undefined? || e.Null?
    ensures r.Err? ==> r.fault == TypeError
    ensures r.Ok? ==> && r.value.Obj? && Keys(r.value.members) == ["name", "value"]
                      && r.value.members[0].val == Get(e, "name").value
                      && r.value.members[1].val == Get(e, "value").value
  {
    var name :- Get(e, "name");
    var value := Get(e, "value").value;
    Ok(Obj([Member("name", name), Member("value", value)]))
  }

  /** `infectedByRegionData.map(...)`; `map` is only there on an array. */
  function ProjectRegions(data: Value): (r: Result<seq<Value>>)
    ensures r.Ok? ==> data.Arr? && |r.value| == |data.items|
    ensures !data.Arr? ==> r == Err(TypeError)
  {
    if !data.Arr? then Err(TypeError) else MapAll(data.items, Region)
  }

  /** The table keeps the entries' number and order, entry `i` holding exactly
      the `name` and `value` of source entry `i`; it fails exactly when some
      entry is `null` or `undefined`. */
  lemma ProjectMeaning(entries: seq<Value>)
    ensures var r := ProjectRegions(Arr(entries));
            && (r.Ok? <==> forall i :: 0 <= i < |entries| ==> !(entries[i].Undefined? || entries[i].Null?))
            && (r.Ok? ==> forall i :: 0 <= i < |entries| ==>
                  r.value[i] == Obj([Member("name", Get(entries[i], "name").value),
                                     Member("value", Get(entries[i], "value").value)]))
  {
    MapAllOk(entries, Region);
  }

  /** A region entry with its own `name` and `value` keeps those two and drops the rest. */
  lemma RegionOfEntry(ms: seq<Member>, i: nat, j: nat)
    requires UniqueKeys(ms) && i < |ms| && j < |ms|
    requires ms[i].key == "name" && ms[j].key == "value"
    ensures Region(Obj(ms)) == Ok(Obj([Member("name", ms[i].val), Member("value", ms[j].val)]))
  {
    GetMember(ms, i);
    GetMember(ms, j);
  }
}
