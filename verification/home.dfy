/** The state logic of the Home screen (screens/Home.js): which scan record
    is current, the fetch of its spectrum file, and the reset button. React
    state updates are modelled as a pure transition `Step` from the screen
    state and one event to the next state and the fetch it starts, if any. */
module Home {
  import opened Wrappers
  import opened JsNumber
  import ScanKeys
  import FetchCsv

  /** A field value of a scan record, as far as truthiness can tell them
      apart. Objects and arrays are `Compound`. */
  datatype Value = Undefined | Null | Bool(b: bool) | Num(n: Number) | Str(s: string) | Compound

  /** JavaScript truthiness: `undefined`, `null`, `false`, `0`, `-0`, `NaN`
      and `""` are falsy. */
  predicate Truthy(v: Value) {
    match v
    case Undefined => false
    case Null => false
    case Bool(b) => b
    case Num(n) => !n.NaN? && n != Finite(0.0)
    case Str(s) => |s| > 0
    case Compound => true
  }

  /** A scan record: its own enumerable fields. */
  type Record = map<string, Value>

  /** A property read: a missing field reads as `undefined`. */
  function Get(r: Record, field: string): Value {
    if field in r then r[field] else Undefined
  }

  /** A non-null database value: an object whose keys, in `Object.keys`
      order, are `keys` and whose values are the scan records. */
  datatype Snapshot = Snapshot(keys: seq<string>, records: map<string, Record>)

  /** Keys are distinct and are exactly the record names, and with two keys
      or more every key has an ordinal, where the model's ranking agrees
      with the page's comparator (see `ScanKeys.Comparable`). */
  predicate ValidSnapshot(d: Snapshot) {
    && (forall i, j :: 0 <= i < j < |d.keys| ==> d.keys[i] != d.keys[j])
    && d.records.Keys == (set i | 0 <= i < |d.keys| :: d.keys[i])
    && ScanKeys.Comparable(ScanKeys.Ordinals(d.keys))
  }

  /** `{ ...data[latestScanKey], key: latestScanKey }`: the selected record
      with its own key added, overriding any field named `key`. With no keys
      the selected key is `undefined`, so the record is `{ key: undefined }`. */
  function LatestScan(d: Snapshot): (r: Record)
    requires ValidSnapshot(d)
    ensures |d.keys| == 0 ==> r == map["key" := Undefined]
    ensures |d.keys| > 0 ==> Get(r, "key") == Str(ScanKeys.LatestKey(d.keys).value)
    ensures |d.keys| > 0 ==> forall f :: f != "key" ==> Get(r, f) == Get(d.records[ScanKeys.LatestKey(d.keys).value], f)
  {
    match ScanKeys.LatestKey(d.keys)
    case None => map["key" := Undefined]
    case Some(k) =>
      ScanKeys.LatestKeyIsFirstMaximum(d.keys);
      d.records[k]["key" := Str(k)]
  }

  /** The screen state: `currentScan`, `fftData` and `fetchingFftData`;
      `None` is `null`. */
  datatype HomeState = HomeState(currentScan: Option<Record>, fftData: Option<FetchCsv.Series>, fetchingFftData: bool)

  /** The state of a freshly mounted screen. */
  const Initial := HomeState(None, None, false)

  /** What can happen to the screen: the database value changes (`None` is a
      null value), a started fetch resolves with the tokenised rows of the
      file or rejects, or the reset button is pressed. */
  datatype Event =
    | DataChanged(data: Option<Snapshot>)
    | FetchResolved(rows: seq<seq<string>>)
    | FetchRejected
    | ResetPressed

  predicate ValidEvent(e: Event) {
    e.DataChanged? && e.data.Some? ==> ValidSnapshot(e.data.value)
  }

  /** The side effect of a step: nothing, or a fetch of the file at `url`. */
  datatype Effect = NoFetch | StartFetch(url: Value)

  datatype Outcome = Outcome(state: HomeState, effect: Effect)

  /** The effect that runs whenever `currentScan` is set: when the scan is
      non-null and its `fftDataURL` is truthy it raises the loading flag and
      starts the fetch. */
  function FetchEffect(s: HomeState): (o: Outcome)
    ensures o.state.currentScan == s.currentScan && o.state.fftData == s.fftData
    ensures o.effect.StartFetch? <==> s.currentScan.Some? && Truthy(Get(s.currentScan.value, "fftDataURL"))
    ensures o.effect.StartFetch? ==> o.effect.url == Get(s.currentScan.value, "fftDataURL") && o.state.fetchingFftData
    ensures o.effect.NoFetch? ==> o.state == s
  {
    if s.currentScan.Some? && Truthy(Get(s.currentScan.value, "fftDataURL")) then
      Outcome(s.(fetchingFftData := true), StartFetch(Get(s.currentScan.value, "fftDataURL")))
    else
      Outcome(s, NoFetch)
  }

  /** One event. A new database value sets `currentScan` to a fresh object
      (so the fetch effect runs even when the value is unchanged); a null
      value changes nothing. A settled fetch lowers the loading flag, and a
      resolved one replaces `fftData` whichever scan is current. Reset
      clears the scan and the data but not the loading flag. */
  function Step(s: HomeState, e: Event): (o: Outcome)
    requires ValidEvent(e)
    ensures o.effect.StartFetch? <==>
      e.DataChanged? && e.data.Some? && Truthy(Get(LatestScan(e.data.value), "fftDataURL"))
    ensures o.state.fetchingFftData <==>
      o.effect.StartFetch? || (s.fetchingFftData && !e.FetchResolved? && !e.FetchRejected?)
    ensures o.state.fftData != s.fftData ==> e.FetchResolved? || e.ResetPressed?
    ensures o.state.currentScan != s.currentScan ==> (e.DataChanged? && e.data.Some?) || e.ResetPressed?
  {
    match e
    case DataChanged(None) => Outcome(s, NoFetch)
    case DataChanged(Some(d)) => FetchEffect(s.(currentScan := Some(LatestScan(d))))
    case FetchResolved(rows) =>
      Outcome(s.(fftData := Some(FetchCsv.ExtractSeries(rows)), fetchingFftData := false), NoFetch)
    case FetchRejected => Outcome(s.(fetchingFftData := false), NoFetch)
    case ResetPressed => Outcome(s.(currentScan := None, fftData := None), NoFetch)
  }

  /** The states and effects of a sequence of events. */
  function Run(s: HomeState, events: seq<Event>): (r: (HomeState, seq<Effect>))
    requires forall i :: 0 <= i < |events| ==> ValidEvent(events[i])
    ensures |r.1| == |events|
    decreases |events|
  {
    if |events| == 0 then (s, [])
    else
      var o := Step(s, events[0]);
      var rest := Run(o.state, events[1..]);
      (rest.0, [o.effect] + rest.1)
  }

  /** What the screen may rely on: loaded data is two aligned series of
      numbers, and a current scan always carries its key. */
  predicate Consistent(s: HomeState) {
    && (s.fftData.Some? ==>
          && |s.fftData.value.time| == |s.fftData.value.amplitude|
          && (forall k :: 0 <= k < |s.fftData.value.time| ==> !s.fftData.value.time[k].NaN?)
          && (forall k :: 0 <= k < |s.fftData.value.amplitude| ==> !s.fftData.value.amplitude[k].NaN?))
    && (s.currentScan.Some? ==> "key" in s.currentScan.value)
  }

  lemma StepKeepsConsistent(s: HomeState, e: Event)
    requires ValidEvent(e) && Consistent(s)
    ensures Consistent(Step(s, e).state)
  {
    if e.FetchResolved? {
      var series := FetchCsv.ExtractSeries(e.rows);
      assert |series.time| == |series.amplitude|;
    }
  }

  /** Every state reachable from a consistent one is consistent. */
  lemma {:induction false} RunKeepsConsistent(s: HomeState, events: seq<Event>)
    requires forall i :: 0 <= i < |events| ==> ValidEvent(events[i])
    requires Consistent(s)
    ensures Consistent(Run(s, events).0)
    decreases |events|
  {
    if |events| > 0 {
      var t := Step(s, events[0]).state;
      StepKeepsConsistent(s, events[0]);
      RunKeepsConsistent(t, events[1..]);
      assert Run(s, events).0 == Run(t, events[1..]).0;
    }
  }

  /** The freshly mounted screen is consistent, and so is every state the
      screen reaches from it. */
  lemma ReachableStatesConsistent(events: seq<Event>)
    requires forall i :: 0 <= i < |events| ==> ValidEvent(events[i])
    ensures Consistent(Initial)
    ensures Consistent(Run(Initial, events).0)
  {
    RunKeepsConsistent(Initial, events);
  }

  /** A new database value makes the newest scan current: the first key of
      maximal ordinal, with that key in its `key` field. */
  lemma SnapshotSelectsNewest(s: HomeState, d: Snapshot)
    requires ValidSnapshot(d) && |d.keys| > 0
    ensures var k := d.keys[ScanKeys.FirstMaximum(ScanKeys.Tag(d.keys, ScanKeys.Ordinals(d.keys)))];
      && Step(s, DataChanged(Some(d))).state.currentScan == Some(d.records[k]["key" := Str(k)])
      && Step(s, DataChanged(Some(d))).state.fftData == s.fftData
  {
    ScanKeys.LatestKeyIsFirstMaximum(d.keys);
  }

  /** An empty database object makes `{ key: undefined }` current, which is
      truthy but has no file to fetch. */
  lemma EmptySnapshot(s: HomeState, d: Snapshot)
    requires ValidSnapshot(d) && |d.keys| == 0
    ensures Step(s, DataChanged(Some(d))) ==
      Outcome(s.(currentScan := Some(map["key" := Undefined])), NoFetch)
  {
    assert Get(map["key" := Undefined], "fftDataURL") == Undefined;
  }

  /** Delivering the same database value again fetches the file again: the
      effect depends on the identity of `currentScan`, which is new each time. */
  lemma RepeatedSnapshotRefetches(s: HomeState, d: Snapshot)
    requires ValidSnapshot(d) && Truthy(Get(LatestScan(d), "fftDataURL"))
    ensures var first := Step(s, DataChanged(Some(d)));
      && first.effect == StartFetch(Get(LatestScan(d), "fftDataURL"))
      && Step(first.state, DataChanged(Some(d))) == first
  {
  }

  /** A null database value changes nothing. */
  lemma NullDataIgnored(s: HomeState)
    ensures Step(s, DataChanged(None)) == Outcome(s, NoFetch)
  {
  }

  /** A resolved fetch stores the series read from the file, whichever scan
      is current, and lowers the loading flag. */
  lemma ResolvedStoresSeries(s: HomeState, rows: seq<seq<string>>)
    ensures var t := Step(s, FetchResolved(rows)).state;
      && t.fftData == Some(FetchCsv.ExtractSeries(rows))
      && t.currentScan == s.currentScan
      && !t.fetchingFftData
  {
  }

  /** A rejected fetch keeps whatever series was shown and lowers the
      loading flag. */
  lemma RejectedKeepsSeries(s: HomeState)
    ensures Step(s, FetchRejected).state == s.(fetchingFftData := false)
  {
  }

  /** Reset clears the scan and its series; the loading flag and the pending
      fetch are untouched. */
  lemma ResetClears(s: HomeState)
    ensures Step(s, ResetPressed) == Outcome(HomeState(None, None, s.fetchingFftData), NoFetch)
  {
  }

  /** There is no guard against stale results: a fetch started before a
      reset still fills `fftData` when it resolves afterwards, although no
      scan is current. */
  lemma ResultAfterResetIsShown(s: HomeState, d: Snapshot, rows: seq<seq<string>>)
    requires ValidSnapshot(d) && Truthy(Get(LatestScan(d), "fftDataURL"))
    ensures var started := Step(s, DataChanged(Some(d)));
      var reset := Step(started.state, ResetPressed);
      var settled := Step(reset.state, FetchResolved(rows));
      && started.effect.StartFetch?
      && settled.state.currentScan.None?
      && settled.state.fftData == Some(FetchCsv.ExtractSeries(rows))
  {
  }
}
