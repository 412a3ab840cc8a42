/** The end of a run: the record is compared with the one kept under the
    key-value store's `LATEST` key, pushed to the history dataset when it
    differs in anything but its run stamp, then stored under `LATEST` and
    pushed to the default dataset. */
module Persist {
  import opened Wrappers
  import opened Civil
  import opened Json
  import opened JsonText
  import opened Snapshot

  /** What the run can see and change: the value under `LATEST` (`None`:
      no value is stored), the history dataset and the default dataset. The
      store and the datasets keep JSON text, so each holds what `JSON.parse`
      gives back for what was written. */
  datatype Store = Store(latest: Option<Value>, history: seq<Value>, output: seq<Value>)

  /** Every value a store holds came back through JSON. */
  predicate Stored(st: Store) {
    && (st.latest.Some? ==> Canonical(st.latest.value))
    && (forall i :: 0 <= i < |st.history| ==> Canonical(st.history[i]))
    && (forall i :: 0 <= i < |st.output| ==> Canonical(st.output[i]))
  }

  /** `getValue(LATEST)`: the stored value, `null` when there is none. */
  function Latest(st: Store): (v: Value)
    ensures st.latest.None? <==> v.Null? && st.latest != Some(Null)
    ensures st.latest.Some? ==> v == st.latest.value
  {
    match st.latest
    case Some(v) => v
    case None => Null
  }

  /** One comparison and save of the record `Obj(data)`. Deleting the stamp
      from a missing `LATEST` (`null`) throws a `TypeError`, and then nothing
      is written. */
  function Save(st: Store, data: seq<Member>): (r: Result<Store>)
    ensures r.Err? <==> Latest(st).Null? || Latest(st).Undefined?
    ensures r.Err? ==> r.fault == TypeError
    ensures st.latest.None? ==> r == Err(TypeError)
    ensures r.Ok? ==> r.value.latest == Some(Canon(Obj(data)))
    ensures r.Ok? ==> r.value.output == st.output + [Canon(Obj(data))]
    ensures r.Ok? ==> r.value.history == st.history || r.value.history == st.history + [Canon(Obj(data))]
  {
    var previous :- Delete(Latest(st), StampKey);
    var actual := Delete(Spread(Obj(data)), StampKey).value;
    var saved := Canon(Obj(data));
    var history := if Stringify(previous) != Stringify(actual) then st.history + [saved] else st.history;
    Ok(Store(Some(saved), history, st.output + [saved]))
  }

  /** Saving keeps every value of the store one JSON can hold. */
  lemma SaveStored(st: Store, data: seq<Member>)
    requires Stored(st) && Save(st, data).Ok?
    ensures Stored(Save(st, data).value)
  {
    var saved := Canon(Obj(data));
    CanonIsCanonical(Obj(data));
    var st' := Save(st, data).value;
    assert forall i :: 0 <= i < |st'.history| ==> st'.history[i] == saved || st'.history[i] == st.history[i];
    assert forall i :: 0 <= i < |st'.output| ==> st'.output[i] == saved || st'.output[i] == st.output[i];
  }

  /** The record goes to the history exactly when, its stamp deleted, it differs
      from the stored record with its stamp deleted, as JSON sees them. */
  lemma SaveAppends(st: Store, data: seq<Member>)
    requires Stored(st) && Save(st, data).Ok?
    ensures var previous := Delete(Latest(st), StampKey).value;
            var saved := Canon(Obj(data));
            Save(st, data).value.history ==
              if previous != Delete(saved, StampKey).value then st.history + [saved] else st.history
  {
    var previous := Delete(Latest(st), StampKey).value;
    var actual := Delete(Spread(Obj(data)), StampKey).value;
    assert actual == Obj(Remove(data, StampKey));
    SameStringify(previous, actual);
    DeleteCanon(data, StampKey);
    PreviousCanonical(Latest(st));
    CanonOfCanonical(previous);
  }

  /** The stored value, its stamp deleted, is still a value JSON holds. */
  lemma PreviousCanonical(v: Value)
    requires Canonical(v) && !v.Null?
    ensures Delete(v, StampKey).Ok? && Canonical(Delete(v, StampKey).value)
  {
    if v.Obj? {
      CanonicalRemove(v.members, StampKey);
    }
  }

  /** Saving again a record that differs from the saved one only in its stamp
      adds nothing to the history. */
  lemma {:induction false} SaveAgain(st: Store, data: seq<Member>, again: seq<Member>)
    requires Save(st, data).Ok?
    requires Remove(again, StampKey) == Remove(data, StampKey)
    ensures Save(Save(st, data).value, again).Ok?
    ensures Save(Save(st, data).value, again).value.history == Save(st, data).value.history
  {
    var st' := Save(st, data).value;
    var previous := Delete(Latest(st'), StampKey).value;
    var actual := Delete(Spread(Obj(again)), StampKey).value;
    DeleteCanon(data, StampKey);
    assert previous == Canon(actual);
    CanonIdempotent(actual);
    SameStringify(previous, actual);
  }

  /** One run: build the record from the page, the clock and the secondary
      source, then compare and save it. */
  function Run(st: Store, page: Page, now: DateTime, supplemental: Result<Value>): (r: Result<Store>)
    requires Valid(now) && InRange(now)
    ensures BuildRecord(page, now, supplemental).Err? ==> r == Err(BuildRecord(page, now, supplemental).fault)
    ensures r.Ok? ==> r.value.latest == Some(Canon(RecordValue(BuildRecord(page, now, supplemental).value)))
  {
    var rec :- BuildRecord(page, now, supplemental);
    Save(st, RecordValue(rec).members)
  }

  /** A run never removes or rewrites what the history already holds. */
  lemma RunKeepsHistory(st: Store, page: Page, now: DateTime, supplemental: Result<Value>)
    requires Valid(now) && InRange(now) && Run(st, page, now, supplemental).Ok?
    ensures var h := Run(st, page, now, supplemental).value.history;
            |st.history| <= |h| <= |st.history| + 1 && h[..|st.history|] == st.history
  {
    var rec := BuildRecord(page, now, supplemental).value;
    SaveKeepsHistory(st, RecordValue(rec).members);
  }

  lemma SaveKeepsHistory(st: Store, data: seq<Member>)
    requires Save(st, data).Ok?
    ensures var h := Save(st, data).value.history;
            |st.history| <= |h| <= |st.history| + 1 && h[..|st.history|] == st.history
  {
    var h := Save(st, data).value.history;
    if h != st.history {
      assert h == st.history + [Canon(Obj(data))];
    }
  }

  /** Without a value under `LATEST` every run ends in a `TypeError` before writing. */
  lemma RunWithoutLatest(st: Store, page: Page, now: DateTime, supplemental: Result<Value>)
    requires Valid(now) && InRange(now) && st.latest.None?
    ensures Run(st, page, now, supplemental).Err?
  {
  }

  /** A second run over the same page and the same secondary figures, at any
      later clock, adds nothing to the history. */
  lemma RunAgain(st: Store, page: Page, now: DateTime, later: DateTime, supplemental: Result<Value>)
    requires Valid(now) && InRange(now) && Valid(later) && InRange(later)
    requires Run(st, page, now, supplemental).Ok?
    ensures var st' := Run(st, page, now, supplemental).value;
            Run(st', page, later, supplemental).Ok?
            && Run(st', page, later, supplemental).value.history == st'.history
  {
    BuildStampOnly(page, now, later, supplemental);
    var a := BuildRecord(page, now, supplemental).value;
    var b := BuildRecord(page, later, supplemental).value;
    StampOnly(b, a);
    SaveAgain(st, RecordValue(a).members, RecordValue(b).members);
  }
}
