/**
 The capped table of metric series (runtime/observability/series.go, counter.go), under any
 interleaving of lookups split at its read lock and its write lock. A metric object is named
 by the order it was created in.
 */
module SeriesTables {
  import opened Wrappers
  import opened Separated

  const LABEL_SEPARATOR := '\U{1F}'
  const OVERFLOW := "overflow"
  const DEFAULT_MAX_SERIES := 200

  function Key(values: seq<string>): string {
    Join([LABEL_SEPARATOR], values)
  }

  /** splitLabelValues: the inverse of Key, for a metric declaring n labels. */
  function Values(key: string, n: nat): seq<string> {
    if n == 0 then [] else Split(LABEL_SEPARATOR, key)
  }

  /** The label values come back from the key exactly when none holds the separator. */
  lemma ValuesOfKey(values: seq<string>)
    ensures Values(Key(values), |values|) == values <==> forall v :: v in values ==> LABEL_SEPARATOR !in v
  {
    if values != [] {
      SplitJoinIff(LABEL_SEPARATOR, values);
    }
  }

  /** Joining keeps at least one part for each value, and one exactly where no value holds the separator. */
  lemma {:induction false} PartsOfJoined(values: seq<string>)
    requires values != []
    ensures |Split(LABEL_SEPARATOR, Key(values))| >= |values|
    ensures |Split(LABEL_SEPARATOR, Key(values))| == |values| ==> forall v :: v in values ==> LABEL_SEPARATOR !in v
  {
    var parts := Split(LABEL_SEPARATOR, values[0]);
    SplitParts(LABEL_SEPARATOR, values[0]);
    JoinSplit(LABEL_SEPARATOR, values[0]);
    assert |parts| == 1 ==> LABEL_SEPARATOR !in parts[0] && parts[0] == values[0];
    if |values| > 1 {
      PartsOfJoined(values[1..]);
      SplitAppend(LABEL_SEPARATOR, values[0], Key(values[1..]));
    }
  }

  /** A combination without the separator shares its key with no other of its width. */
  lemma KeysDistinct(a: seq<string>, b: seq<string>)
    requires |a| == |b| && Key(a) == Key(b)
    requires forall v :: v in a ==> LABEL_SEPARATOR !in v
    ensures a == b
  {
    ValuesOfKey(a);
    if b != [] {
      PartsOfJoined(b);
    }
    ValuesOfKey(b);
  }

  /** normalizeLabelValues: pad with empty strings or drop extras. */
  function Normalized(n: nat, values: seq<string>): (r: seq<string>)
    ensures |r| == n
    ensures forall i :: 0 <= i < n ==> r[i] == if i < |values| then values[i] else ""
  {
    if |values| == n then values
    else seq(n, i requires 0 <= i => if i < |values| then values[i] else "")
  }

  function OverflowKey(n: nat): string {
    Key(seq(n, _ => OVERFLOW))
  }

  /** The map under the lock, the cap, and how many objects newValue has made. */
  datatype Table = Table(maxSeries: nat, labels: nat, series: map<string, nat>, created: nat) {

    function Bind(key: string): (Table, nat) {
      (this.(series := series[key := created], created := created + 1), created)
    }

    /** The section under the write lock, overflow included. */
    function GetLocked(key: string): (Table, nat) {
      if key in series then (this, series[key])
      else if |series| >= maxSeries then
        var o := OverflowKey(labels);
        if o in series then (this, series[o]) else Bind(o)
      else Bind(key)
    }

    /** Every object is bound to exactly one key, and the cap is exceeded by the overflow series alone. */
    ghost predicate Valid() {
      && maxSeries > 0
      && created == |series|
      && (forall k :: k in series ==> series[k] < created)
      && (forall k, l :: k in series && l in series && k != l ==> series[k] != series[l])
      && |series| <= maxSeries + 1
      && (|series| > maxSeries ==> OverflowKey(labels) in series)
    }

    /** v is what a lookup of key means in this table, once it has been answered. */
    ghost predicate Answers(key: string, v: nat) {
      if key in series then v == series[key]
      else |series| >= maxSeries && OverflowKey(labels) in series && v == series[OverflowKey(labels)]
    }
  }

  function NewTable(maxSeries: int, labels: nat): Table {
    Table(if maxSeries <= 0 then DEFAULT_MAX_SERIES else maxSeries, labels, map[], 0)
  }

  lemma BindKeepsValid(t: Table, key: string)
    requires t.Valid() && key !in t.series && (|t.series| < t.maxSeries || key == OverflowKey(t.labels))
    requires |t.series| <= t.maxSeries
    ensures t.Bind(key).0.Valid() && t.Bind(key).0.Answers(key, t.created)
  {
    hide OverflowKey;
  }

  lemma LockedKeepsValid(t: Table, key: string)
    requires t.Valid()
    ensures var (t', v) := t.GetLocked(key);
            && t'.Valid() && t'.Answers(key, v) && v < t'.created && t.created <= t'.created <= t.created + 1
            && t'.maxSeries == t.maxSeries && t'.labels == t.labels
            && forall k :: k in t.series ==> k in t'.series && t'.series[k] == t.series[k]
  {
    hide OverflowKey;
    var o := OverflowKey(t.labels);
    if key !in t.series {
      if |t.series| < t.maxSeries {
        BindKeepsValid(t, key);
      } else if o !in t.series {
        BindKeepsValid(t, o);
      }
    }
  }

  class SeriesTable {
    const maxSeries: nat
    const labels: nat
    var series: map<string, nat>
    var created: nat

    function View(): Table
      reads this
    {
      Table(maxSeries, labels, series, created)
    }

    constructor (maxSeries: int, labels: nat)
      ensures View() == Table(if maxSeries <= 0 then 200 else maxSeries, labels, map[], 0) && View().Valid()
    {
      this.maxSeries := if maxSeries <= 0 then DEFAULT_MAX_SERIES else maxSeries;
      this.labels := labels;
      series, created := map[], 0;
    }

    /** One lookup from start to end, with nobody else in between. */
    method Get(values: seq<string>) returns (v: nat)
      requires View().Valid()
      modifies this
      ensures View().Valid() && View().Answers(Key(values), v)
      ensures (View(), v) == old(View()).GetLocked(Key(values))
    {
      LockedKeepsValid(View(), Key(values));
      var key := Key(values);
      var hit := ReadLocked(key);
      if hit.Some? {
        return hit.value;
      }
      v := WriteLocked(key);
    }

    method ReadLocked(key: string) returns (hit: Option<nat>)
      ensures hit == if key in series then Some(series[key]) else None
    {
      if key in series {
        return Some(series[key]);
      }
      return None;
    }

    method WriteLocked(key: string) returns (v: nat)
      modifies this
      ensures (View(), v) == old(View()).GetLocked(key)
    {
      if key in series {
        return series[key];
      }
      var target := key;
      if |series| >= maxSeries {
        target := OverflowKey(labels);
        if target in series {
          return series[target];
        }
      }
      v := created;
      created := created + 1;
      series := series[target := v];
    }
  }

  /** An answer already given stays the answer. */
  lemma AnswersStable(t: Table, key: string, other: string, v: nat)
    requires t.Valid() && t.Answers(key, v)
    ensures t.GetLocked(other).0.Answers(key, v)
  {
  }

  // ----- any number of concurrent lookups -----

  datatype CallAt = Entered | Missed | Holds(v: nat) | Counted(v: nat)

  /** One WithLabelValues(...).Inc(). */
  datatype Call = Call(values: seq<string>, at: CallAt)

  datatype State = State(table: Table, calls: seq<Call>, counters: seq<nat>, incs: nat)

  datatype Step = Arrive(values: seq<string>) | Read(c: nat) | Write(c: nat) | Inc(c: nat)

  function Initial(maxSeries: int, labels: nat): State {
    State(NewTable(maxSeries, labels), [], [], 0)
  }

  predicate Enabled(s: State, step: Step) {
    match step
    case Arrive(_) => true
    case Read(c) => c < |s.calls| && s.calls[c].at == Entered
    case Write(c) => c < |s.calls| && s.calls[c].at == Missed
    case Inc(c) => c < |s.calls| && s.calls[c].at.Holds? && s.calls[c].at.v < |s.counters|
  }

  function At(s: State, c: nat, at: CallAt): State
    requires c < |s.calls|
  {
    s.(calls := s.calls[c := s.calls[c].(at := at)])
  }

  function Do(s: State, step: Step): State
    requires Enabled(s, step)
  {
    match step
    case Arrive(values) => s.(calls := s.calls + [Call(Normalized(s.table.labels, values), Entered)])
    case Read(c) =>
      var key := Key(s.calls[c].values);
      At(s, c, if key in s.table.series then Holds(s.table.series[key]) else Missed)
    case Write(c) =>
      var (t, v) := s.table.GetLocked(Key(s.calls[c].values));
      At(s.(table := t, counters := if t.created > s.table.created then s.counters + [0] else s.counters), c, Holds(v))
    case Inc(c) =>
      var v := s.calls[c].at.v;
      At(s.(counters := s.counters[v := s.counters[v] + 1], incs := s.incs + 1), c, Counted(v))
  }

  /** How many calls have incremented object v. */
  function IncsOf(calls: seq<Call>, v: nat): nat {
    if calls == [] then 0 else (if calls[0].at == Counted(v) then 1 else 0) + IncsOf(calls[1..], v)
  }

  function Sum(counters: seq<nat>): nat {
    if counters == [] then 0 else counters[0] + Sum(counters[1..])
  }

  lemma {:induction false} SumUpdated(counters: seq<nat>, v: nat, more: nat)
    requires v < |counters|
    ensures Sum(counters[v := counters[v] + more]) == Sum(counters) + more
  {
    var updated := counters[v := counters[v] + more];
    if v > 0 {
      SumUpdated(counters[1..], v - 1, more);
      assert updated[1..] == counters[1..][v - 1 := counters[v] + more];
    } else {
      assert updated[1..] == counters[1..];
    }
  }

  lemma {:induction false} SumExtended(counters: seq<nat>)
    ensures Sum(counters + [0]) == Sum(counters)
  {
    if counters != [] {
      SumExtended(counters[1..]);
      assert (counters + [0])[1..] == counters[1..] + [0];
    }
  }

  lemma {:induction false} IncsUpdated(calls: seq<Call>, c: nat, call: Call, v: nat)
    requires c < |calls| && !calls[c].at.Counted?
    ensures IncsOf(calls[c := call], v) == IncsOf(calls, v) + (if call.at == Counted(v) then 1 else 0)
  {
    if c > 0 {
      IncsUpdated(calls[1..], c - 1, call, v);
      assert calls[c := call][1..] == calls[1..][c - 1 := call];
    } else {
      assert calls[c := call][1..] == calls[1..];
    }
  }

  lemma {:induction false} IncsExtended(calls: seq<Call>, call: Call, v: nat)
    requires !call.at.Counted?
    ensures IncsOf(calls + [call], v) == IncsOf(calls, v)
  {
    if calls != [] {
      IncsExtended(calls[1..], call, v);
      assert (calls + [call])[1..] == calls[1..] + [call];
    }
  }

  ghost predicate GoodCalls(s: State) {
    forall c :: 0 <= c < |s.calls| ==>
      |s.calls[c].values| == s.table.labels
      && (s.calls[c].at.Holds? || s.calls[c].at.Counted? ==>
            s.table.Answers(Key(s.calls[c].values), s.calls[c].at.v) && s.calls[c].at.v < s.table.created)
      && (s.calls[c].at.Counted? ==> s.calls[c].at.v < |s.counters|)
  }

  ghost predicate GoodCounters(s: State) {
    && |s.counters| == s.table.created
    && (forall v :: 0 <= v < |s.counters| ==> s.counters[v] == IncsOf(s.calls, v))
    && Sum(s.counters) == s.incs
  }

  ghost predicate Inv(s: State) {
    s.table.Valid() && GoodCalls(s) && GoodCounters(s)
  }

  lemma StepKeepsCalls(s: State, step: Step)
    requires s.table.Valid() && GoodCalls(s) && |s.counters| == s.table.created && Enabled(s, step)
    ensures GoodCalls(Do(s, step)) && Do(s, step).table.Valid()
  {
    if step.Write? {
      var key := Key(s.calls[step.c].values);
      LockedKeepsValid(s.table, key);
      forall c | 0 <= c < |s.calls| && (s.calls[c].at.Holds? || s.calls[c].at.Counted?)
        ensures Do(s, step).table.Answers(Key(s.calls[c].values), s.calls[c].at.v)
      {
        AnswersStable(s.table, Key(s.calls[c].values), key, s.calls[c].at.v);
      }
    }
  }

  lemma {:induction false} NoneYet(calls: seq<Call>, v: nat)
    requires forall c :: 0 <= c < |calls| ==> calls[c].at != Counted(v)
    ensures IncsOf(calls, v) == 0
  {
    if calls != [] {
      NoneYet(calls[1..], v);
    }
  }

  lemma StepKeepsCounters(s: State, step: Step)
    requires Inv(s) && Enabled(s, step)
    ensures GoodCounters(Do(s, step))
  {
    var s' := Do(s, step);
    SumExtended(s.counters);
    if step.Write? {
      LockedKeepsValid(s.table, Key(s.calls[step.c].values));
      forall v | v == |s.counters| ensures IncsOf(s.calls, v) == 0 {
        NoneYet(s.calls, v);
      }
    }
    forall v | 0 <= v < |s'.counters| ensures s'.counters[v] == IncsOf(s'.calls, v) {
      if step.Arrive? {
        IncsExtended(s.calls, s'.calls[|s.calls|], v);
      } else {
        IncsUpdated(s.calls, step.c, s'.calls[step.c], v);
      }
    }
    if step.Inc? {
      SumUpdated(s.counters, s.calls[step.c].at.v, 1);
    }
  }

  lemma StepKeepsInv(s: State, step: Step)
    requires Inv(s) && Enabled(s, step)
    ensures Inv(Do(s, step))
  {
    StepKeepsCalls(s, step);
    StepKeepsCounters(s, step);
  }

  ghost predicate Follows(s: State, s': State) {
    exists step :: Enabled(s, step) && s' == Do(s, step)
  }

  ghost predicate IsRun(run: seq<State>, maxSeries: int, labels: nat) {
    && run != [] && run[0] == Initial(maxSeries, labels)
    && forall i :: 0 <= i < |run| - 1 ==> Follows(run[i], run[i + 1])
  }

  lemma {:induction false} RunKeepsInv(run: seq<State>, maxSeries: int, labels: nat, i: nat)
    requires IsRun(run, maxSeries, labels) && i < |run|
    ensures Inv(run[i]) && run[i].table.labels == labels && run[i].table.maxSeries == run[0].table.maxSeries
  {
    if i > 0 {
      RunKeepsInv(run, maxSeries, labels, i - 1);
      assert Follows(run[i - 1], run[i]);
      var step :| Enabled(run[i - 1], step) && run[i] == Do(run[i - 1], step);
      StepKeepsInv(run[i - 1], step);
    }
  }

  /**
   In every reachable state the table holds at most maxSeries+1 entries, each object is bound
   once, every counter is the number of increments made through it, and all of them together
   are the number of Inc calls: none is lost.
   */
  lemma TableBoundedAndNothingLost(run: seq<State>, maxSeries: int, labels: nat, i: nat)
    requires IsRun(run, maxSeries, labels) && i < |run|
    ensures var s := run[i];
            && |s.table.series| <= (if maxSeries <= 0 then DEFAULT_MAX_SERIES else maxSeries) + 1
            && |s.counters| == |s.table.series|
            && (forall v :: 0 <= v < |s.counters| ==> s.counters[v] == IncsOf(s.calls, v))
            && Sum(s.counters) == s.incs
  {
    RunKeepsInv(run, maxSeries, labels, i);
  }

  predicate Answered(at: CallAt) {
    at.Holds? || at.Counted?
  }

  /** The call is the same one, and keeps the object it was answered with. */
  predicate Continues(a: Call, b: Call) {
    a.values == b.values && (Answered(a.at) ==> Answered(b.at) && b.at.v == a.at.v)
  }

  /** A bound key is never rebound or dropped, and an answered call keeps its object. */
  ghost predicate Extends(s: State, s': State) {
    && (forall k :: k in s.table.series ==> k in s'.table.series && s'.table.series[k] == s.table.series[k])
    && |s.calls| <= |s'.calls|
    && forall c :: 0 <= c < |s.calls| ==> Continues(s.calls[c], s'.calls[c])
  }

  lemma StepContinues(s: State, step: Step, c: nat)
    requires Enabled(s, step) && c < |s.calls|
    ensures |s.calls| <= |Do(s, step).calls| && Continues(s.calls[c], Do(s, step).calls[c])
  {
  }

  lemma StepExtends(s: State, s': State)
    requires s.table.Valid() && Follows(s, s')
    ensures Extends(s, s')
  {
    hide Continues;
    var step :| Enabled(s, step) && s' == Do(s, step);
    if step.Write? {
      LockedKeepsValid(s.table, Key(s.calls[step.c].values));
    }
    forall c | 0 <= c < |s.calls| ensures Continues(s.calls[c], s'.calls[c]) {
      StepContinues(s, step, c);
    }
  }

  lemma {:induction false} ExtendsAlong(run: seq<State>, i: nat, j: nat)
    requires i <= j < |run| && forall k :: i <= k < j ==> Extends(run[k], run[k + 1])
    ensures Extends(run[i], run[j])
    decreases j
  {
    if i < j {
      ExtendsAlong(run, i, j - 1);
      assert Extends(run[j - 1], run[j]);
    }
  }

  lemma BindingsNeverChange(run: seq<State>, maxSeries: int, labels: nat, i: nat, j: nat)
    requires IsRun(run, maxSeries, labels) && i <= j < |run|
    ensures Extends(run[i], run[j])
  {
    forall k | i <= k < j ensures Extends(run[k], run[k + 1]) {
      RunKeepsInv(run, maxSeries, labels, k);
      StepExtends(run[k], run[k + 1]);
    }
    ExtendsAlong(run, i, j);
  }

  /** The key a combination's lookups are charged to: its own where that is tracked, the overflow key past the cap. */
  function ChargedTo(t: Table, key: string): string {
    if key in t.series then key else OverflowKey(t.labels)
  }

  /**
   Two answered lookups, at whatever times in the run and however they interleave, got one
   object exactly when they are charged to one key. So lookups of one combination always share
   theirs, tracked combinations of different keys never do, and untracked ones all do. A tracked
   combination and an untracked one share an object exactly when the tracked one is the overflow
   combination, which an application may look up under its own name.
   */
  lemma OneObjectPerCombination(run: seq<State>, maxSeries: int, labels: nat, i: nat, c: nat, d: nat)
    requires IsRun(run, maxSeries, labels) && i < |run| && c < |run[i].calls| && d < |run[i].calls|
    requires Answered(run[i].calls[c].at) && Answered(run[i].calls[d].at)
    ensures var s, a, b := run[i], run[i].calls[c], run[i].calls[d];
            && (a.at.v == b.at.v <==> ChargedTo(s.table, Key(a.values)) == ChargedTo(s.table, Key(b.values)))
            && (a.values == b.values ==> a.at.v == b.at.v)
            && (Key(a.values) in s.table.series && Key(b.values) in s.table.series ==>
                  (a.at.v == b.at.v <==> Key(a.values) == Key(b.values)))
            && (Key(a.values) !in s.table.series && Key(b.values) !in s.table.series ==> a.at.v == b.at.v)
            && (Key(a.values) in s.table.series && Key(b.values) !in s.table.series ==>
                  (a.at.v == b.at.v <==> Key(a.values) == OverflowKey(labels)))
            && (Key(a.values) !in s.table.series ==>
                  |s.table.series| >= s.table.maxSeries
                  && OverflowKey(labels) in s.table.series && a.at.v == s.table.series[OverflowKey(labels)])
  {
    RunKeepsInv(run, maxSeries, labels, i);
    assert run[i].table.Answers(Key(run[i].calls[c].values), run[i].calls[c].at.v);
    assert run[i].table.Answers(Key(run[i].calls[d].values), run[i].calls[d].at.v);
  }

  /** Under a cap of one, looking up "overflow" and then "x": different combinations, one object. */
  function SharingSteps(): seq<Step> {
    [Arrive([OVERFLOW]), Read(0), Write(0), Arrive(["x"]), Read(1), Write(1)]
  }

  /** The states passed through by a list of steps. */
  ghost predicate Passes(run: seq<State>, steps: seq<Step>) {
    && |run| == |steps| + 1
    && forall i :: 0 <= i < |steps| ==> Enabled(run[i], steps[i]) && run[i + 1] == Do(run[i], steps[i])
  }

  lemma PassedIsRun(run: seq<State>, steps: seq<Step>, maxSeries: int, labels: nat)
    requires Passes(run, steps) && run[0] == Initial(maxSeries, labels)
    ensures IsRun(run, maxSeries, labels)
  {
    forall i | 0 <= i < |run| - 1 ensures Follows(run[i], run[i + 1]) {
      assert Enabled(run[i], steps[i]) && run[i + 1] == Do(run[i], steps[i]);
    }
  }

  lemma OverflowKeyOfOne()
    ensures OverflowKey(1) == OVERFLOW && Key([OVERFLOW]) == OVERFLOW && Key(["x"]) == "x"
  {
    assert seq(1, _ => OVERFLOW) == [OVERFLOW];
  }

  /** The combination an application names "overflow" is handed out to others once the cap is reached. */
  lemma OverflowNameShared()
    ensures exists run: seq<State> ::
              && IsRun(run, 1, 1) && |run| == 7 && |run[6].calls| == 2
              && run[6].calls[0] == Call([OVERFLOW], Holds(0)) && run[6].calls[1] == Call(["x"], Holds(0))
              && run[6].table.series == map[OVERFLOW := 0]
  {
    var steps := SharingSteps();
    var s0 := Initial(1, 1);
    var s1 := Do(s0, steps[0]);
    var s2 := Do(s1, steps[1]);
    var s3 := Do(s2, steps[2]);
    var s4 := Do(s3, steps[3]);
    var s5 := Do(s4, steps[4]);
    OverflowKeyOfOne();
    assert s5.calls[1] == Call(["x"], Missed) && s5.table.series == map[OVERFLOW := 0];
    var s6 := Do(s5, steps[5]);
    var run := [s0, s1, s2, s3, s4, s5, s6];
    assert Passes(run, steps);
    PassedIsRun(run, steps, 1, 1);
  }
}
