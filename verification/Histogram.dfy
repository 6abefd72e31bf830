/**
 The cumulative histogram of runtime/observability/histogram.go: any interleaving of
 observers, each stepping through the buckets one atomic increment at a time, then the count,
 then the compare-and-swap on the sum. Exact arithmetic stands for floating point.
 */
module Histograms {
  import opened Wrappers

  datatype ObserverAt = Bucket(i: nat) | Counting | Summing(loaded: Option<real>) | Finished

  datatype Observer = Observer(value: real, at: ObserverAt)

  datatype State = State(buckets: seq<real>, bucketCounts: seq<nat>, count: nat, sum: real, observers: seq<Observer>)

  datatype Step = Arrive(value: real) | Bump(o: nat) | Count(o: nat) | Load(o: nat) | Swap(o: nat)

  function Initial(buckets: seq<real>): State {
    State(buckets, seq(|buckets|, _ => 0), 0, 0.0, [])
  }

  /** Where the loop over the buckets goes from bucket i. */
  function From(i: nat, buckets: nat): ObserverAt {
    if i < buckets then Bucket(i) else Counting
  }

  predicate Enabled(s: State, step: Step) {
    match step
    case Arrive(_) => true
    case Bump(o) => o < |s.observers| && s.observers[o].at.Bucket?
      && s.observers[o].at.i < |s.buckets| == |s.bucketCounts|
    case Count(o) => o < |s.observers| && s.observers[o].at == Counting
    case Load(o) => o < |s.observers| && s.observers[o].at == Summing(None)
    case Swap(o) => o < |s.observers| && s.observers[o].at.Summing? && s.observers[o].at.loaded.Some?
  }

  function At(s: State, o: nat, at: ObserverAt): State
    requires o < |s.observers|
  {
    s.(observers := s.observers[o := s.observers[o].(at := at)])
  }

  function Do(s: State, step: Step): State
    requires Enabled(s, step)
  {
    match step
    case Arrive(value) => s.(observers := s.observers + [Observer(value, From(0, |s.buckets|))])
    case Bump(o) =>
      var i := s.observers[o].at.i;
      var bumped :=
        if s.observers[o].value <= s.buckets[i] then s.bucketCounts[i := s.bucketCounts[i] + 1] else s.bucketCounts;
      At(s, o, From(i + 1, |s.buckets|)).(bucketCounts := bumped)
    case Count(o) => At(s, o, Summing(None)).(count := s.count + 1)
    case Load(o) => At(s, o, Summing(Some(s.sum)))
    case Swap(o) =>
      var loaded := s.observers[o].at.loaded.value;
      if s.sum == loaded then At(s, o, Finished).(sum := loaded + s.observers[o].value)
      else At(s, o, Summing(None))
  }

  // ----- what the counters stand for -----

  predicate PastBucket(o: Observer, i: nat) {
    o.at.Bucket? ==> i < o.at.i
  }

  predicate PastCount(o: Observer) {
    o.at.Summing? || o.at.Finished?
  }

  /** The observers past bucket i whose value is within its bound. */
  function Within(observers: seq<Observer>, i: nat, bound: real): nat {
    if observers == [] then 0
    else
      (if PastBucket(observers[0], i) && observers[0].value <= bound then 1 else 0)
      + Within(observers[1..], i, bound)
  }

  function Counted(observers: seq<Observer>): nat {
    if observers == [] then 0 else (if PastCount(observers[0]) then 1 else 0) + Counted(observers[1..])
  }

  function Summed(observers: seq<Observer>): real {
    if observers == [] then 0.0
    else (if observers[0].at.Finished? then observers[0].value else 0.0) + Summed(observers[1..])
  }

  ghost predicate Inv(s: State) {
    && |s.bucketCounts| == |s.buckets|
    && (forall o :: 0 <= o < |s.observers| && s.observers[o].at.Bucket? ==> s.observers[o].at.i < |s.buckets|)
    && (forall i :: 0 <= i < |s.buckets| ==> s.bucketCounts[i] == Within(s.observers, i, s.buckets[i]))
    && s.count == Counted(s.observers)
    && s.sum == Summed(s.observers)
  }

  lemma {:induction false} Replaced(observers: seq<Observer>, o: nat, next: Observer, i: nat, bound: real)
    requires o < |observers|
    ensures var w := observers[o];
            && Within(observers[o := next], i, bound) - Within(observers, i, bound)
               == (if PastBucket(next, i) && next.value <= bound then 1 else 0)
                  - (if PastBucket(w, i) && w.value <= bound then 1 else 0)
            && Counted(observers[o := next]) - Counted(observers)
               == (if PastCount(next) then 1 else 0) - (if PastCount(w) then 1 else 0)
            && Summed(observers[o := next]) - Summed(observers)
               == (if next.at.Finished? then next.value else 0.0) - (if w.at.Finished? then w.value else 0.0)
  {
    if o > 0 {
      Replaced(observers[1..], o - 1, next, i, bound);
      assert observers[o := next][1..] == observers[1..][o - 1 := next];
    } else {
      assert observers[o := next][1..] == observers[1..];
    }
  }

  lemma {:induction false} Appended(observers: seq<Observer>, next: Observer, i: nat, bound: real)
    requires !PastBucket(next, i) || next.at == Counting
    ensures Within(observers + [next], i, bound)
            == Within(observers, i, bound) + (if next.at == Counting && next.value <= bound then 1 else 0)
    ensures next.at.Bucket? || next.at == Counting ==>
              Counted(observers + [next]) == Counted(observers) && Summed(observers + [next]) == Summed(observers)
  {
    if observers != [] {
      Appended(observers[1..], next, i, bound);
      assert (observers + [next])[1..] == observers[1..] + [next];
    }
  }

  lemma StepKeepsInv(s: State, step: Step)
    requires Inv(s) && Enabled(s, step)
    ensures Inv(Do(s, step))
  {
    var s' := Do(s, step);
    if step.Arrive? {
      var next := s'.observers[|s.observers|];
      forall i | 0 <= i < |s.buckets| ensures Within(s'.observers, i, s.buckets[i]) == s.bucketCounts[i] {
        Appended(s.observers, next, i, s.buckets[i]);
      }
      if |s.buckets| == 0 {
        Appended(s.observers, next, 0, 0.0);
      } else {
        Appended(s.observers, next, 0, s.buckets[0]);
      }
    } else {
      var next := s'.observers[step.o];
      assert s'.observers == s.observers[step.o := next];
      Replaced(s.observers, step.o, next, 0, 0.0);
      forall i | 0 <= i < |s.buckets| ensures s'.bucketCounts[i] == Within(s'.observers, i, s.buckets[i]) {
        Replaced(s.observers, step.o, next, i, s.buckets[i]);
      }
    }
  }

  ghost predicate Follows(s: State, s': State) {
    exists step :: Enabled(s, step) && s' == Do(s, step)
  }

  ghost predicate IsRun(run: seq<State>, buckets: seq<real>) {
    && run != [] && run[0] == Initial(buckets)
    && forall i :: 0 <= i < |run| - 1 ==> Follows(run[i], run[i + 1])
  }

  lemma {:induction false} RunKeepsInv(run: seq<State>, buckets: seq<real>, i: nat)
    requires IsRun(run, buckets) && i < |run|
    ensures Inv(run[i]) && run[i].buckets == buckets
  {
    if i > 0 {
      RunKeepsInv(run, buckets, i - 1);
      assert Follows(run[i - 1], run[i]);
      var step :| Enabled(run[i - 1], step) && run[i] == Do(run[i - 1], step);
      StepKeepsInv(run[i - 1], step);
    }
  }

  // ----- at quiescence -----

  predicate Quiescent(s: State) {
    forall o :: 0 <= o < |s.observers| ==> s.observers[o].at == Finished
  }

  function AtMost(observers: seq<Observer>, bound: real): nat {
    if observers == [] then 0 else (if observers[0].value <= bound then 1 else 0) + AtMost(observers[1..], bound)
  }

  function Total(observers: seq<Observer>): real {
    if observers == [] then 0.0 else observers[0].value + Total(observers[1..])
  }

  lemma {:induction false} AllFinished(observers: seq<Observer>, i: nat, bound: real)
    requires forall o :: 0 <= o < |observers| ==> observers[o].at == Finished
    ensures Within(observers, i, bound) == AtMost(observers, bound)
    ensures Counted(observers) == |observers| && Summed(observers) == Total(observers)
  {
    if observers != [] {
      AllFinished(observers[1..], i, bound);
    }
  }

  lemma {:induction false} AtMostMonotonic(observers: seq<Observer>, low: real, high: real)
    requires low <= high
    ensures AtMost(observers, low) <= AtMost(observers, high) <= |observers|
  {
    if observers != [] {
      AtMostMonotonic(observers[1..], low, high);
    }
  }

  /**
   Once no observer is in the middle of a call, each bucket counts the observations at most
   its bound, the count all of them, and the sum is exact; so for ascending bounds the
   rendered buckets never decrease and the +Inf bucket bounds them.
   */
  lemma QuiescentHistogram(run: seq<State>, buckets: seq<real>, n: nat)
    requires IsRun(run, buckets) && n < |run| && Quiescent(run[n])
    requires forall i, j :: 0 <= i < j < |buckets| ==> buckets[i] <= buckets[j]
    ensures var s := run[n];
            && |s.bucketCounts| == |buckets|
            && (forall i :: 0 <= i < |buckets| ==> s.bucketCounts[i] == AtMost(s.observers, buckets[i]))
            && s.count == |s.observers| && s.sum == Total(s.observers)
            && (forall i, j :: 0 <= i <= j < |buckets| ==> s.bucketCounts[i] <= s.bucketCounts[j] <= s.count)
  {
    var s := run[n];
    RunKeepsInv(run, buckets, n);
    AllFinished(s.observers, 0, 0.0);
    forall i | 0 <= i < |buckets| ensures s.bucketCounts[i] == AtMost(s.observers, buckets[i]) {
      AllFinished(s.observers, i, buckets[i]);
    }
    forall i, j | 0 <= i <= j < |buckets| ensures s.bucketCounts[i] <= s.bucketCounts[j] <= s.count {
      AtMostMonotonic(s.observers, buckets[i], buckets[j]);
    }
  }

  // ----- one observation, with nobody else in between -----

  class HistogramValue {
    const buckets: seq<real>
    const bucketCounts: array<nat>
    var sum: real
    var count: nat

    ghost predicate Valid()
      reads this
    {
      bucketCounts.Length == |buckets|
    }

    constructor (buckets: seq<real>)
      ensures Valid() && this.buckets == buckets && fresh(bucketCounts) && count == 0 && sum == 0.0
      ensures forall i :: 0 <= i < |buckets| ==> bucketCounts[i] == 0
    {
      this.buckets, sum, count := buckets, 0.0, 0;
      bucketCounts := new nat[|buckets|](_ => 0);
    }

    /** Every bucket whose bound is at least v is incremented, not just the smallest. */
    method Observe(v: real)
      requires Valid()
      modifies this, bucketCounts
      ensures Valid() && count == old(count) + 1 && sum == old(sum) + v
      ensures forall i :: 0 <= i < |buckets| ==>
                bucketCounts[i] == old(bucketCounts[i]) + (if v <= buckets[i] then 1 else 0)
    {
      for i := 0 to |buckets|
        invariant forall k :: 0 <= k < i ==>
                    bucketCounts[k] == old(bucketCounts[k]) + (if v <= buckets[k] then 1 else 0)
        invariant forall k :: i <= k < |buckets| ==> bucketCounts[k] == old(bucketCounts[k])
        invariant count == old(count) && sum == old(sum)
      {
        if v <= buckets[i] {
          bucketCounts[i] := bucketCounts[i] + 1;
        }
      }
      count := count + 1;
      sum := sum + v;
    }
  }
}
