/**
 The lock-free accumulator of runtime/observability/atomic.go: any interleaving of
 compare-and-swap adders and plain stores. The addition is a parameter, so what is proved
 holds for floating-point addition as it is, rounding and order included.
 */
module Accumulators {
  import opened Pigeonhole

  datatype Update<T> = Add(delta: T) | Store(value: T)

  datatype CallAt<T> = Ready | Loaded(seen: T) | Committed

  datatype Call<T> = Call(update: Update<T>, at: CallAt<T>)

  /** commits records which call took effect when; the code keeps no such list. */
  datatype State<T> = State(bits: T, calls: seq<Call<T>>, commits: seq<nat>)

  datatype Step<T> = Arrive(update: Update<T>) | Load(c: nat) | CompareAndSwap(c: nat) | Put(c: nat)

  function Initial<T>(zero: T): State<T> {
    State(zero, [], [])
  }

  predicate Enabled<T>(s: State<T>, step: Step<T>) {
    match step
    case Arrive(_) => true
    case Load(c) => c < |s.calls| && s.calls[c].at.Ready? && s.calls[c].update.Add?
    case CompareAndSwap(c) => c < |s.calls| && s.calls[c].at.Loaded? && s.calls[c].update.Add?
    case Put(c) => c < |s.calls| && s.calls[c].at.Ready? && s.calls[c].update.Store?
  }

  function At<T>(s: State<T>, c: nat, at: CallAt<T>): State<T>
    requires c < |s.calls|
  {
    s.(calls := s.calls[c := s.calls[c].(at := at)])
  }

  function Do<T(==)>(plus: (T, T) -> T, s: State<T>, step: Step<T>): State<T>
    requires Enabled(s, step)
  {
    match step
    case Arrive(update) => s.(calls := s.calls + [Call(update, Ready)])
    case Load(c) => At(s, c, Loaded(s.bits))
    case CompareAndSwap(c) =>
      // The swap compares bits: it succeeds whenever the value is the one that was loaded,
      // whatever happened in between, and otherwise the loop starts over.
      if s.bits == s.calls[c].at.seen then
        At(s, c, Committed).(bits := plus(s.calls[c].at.seen, s.calls[c].update.delta), commits := s.commits + [c])
      else At(s, c, Ready)
    case Put(c) => At(s, c, Committed).(bits := s.calls[c].update.value, commits := s.commits + [c])
  }

  function Apply<T>(plus: (T, T) -> T, value: T, u: Update<T>): T {
    match u
    case Add(delta) => plus(value, delta)
    case Store(v) => v
  }

  /** The updates of the listed calls, applied one after the other. */
  function Fold<T>(plus: (T, T) -> T, zero: T, calls: seq<Call<T>>, commits: seq<nat>): T {
    if commits == [] then zero
    else
      var before, c := Fold(plus, zero, calls, commits[..|commits| - 1]), commits[|commits| - 1];
      if c < |calls| then Apply(plus, before, calls[c].update) else before
  }

  /** Folding depends only on what the listed calls update by. */
  lemma {:induction false} FoldSame<T>(plus: (T, T) -> T, zero: T, calls: seq<Call<T>>, calls': seq<Call<T>>,
                                       commits: seq<nat>)
    requires forall c :: c in commits ==> c < |calls| && c < |calls'| && calls[c].update == calls'[c].update
    ensures Fold(plus, zero, calls, commits) == Fold(plus, zero, calls', commits)
  {
    if commits != [] {
      var before := commits[..|commits| - 1];
      forall c | c in before ensures c < |calls| && c < |calls'| && calls[c].update == calls'[c].update {
        assert c in commits;
      }
      FoldSame(plus, zero, calls, calls', commits[..|commits| - 1]);
    }
  }

  ghost predicate Inv<T(!new)>(plus: (T, T) -> T, zero: T, s: State<T>) {
    && Distinct(s.commits)
    && (forall c :: c in s.commits ==> c < |s.calls|)
    && (forall c: nat :: c < |s.calls| ==> (s.calls[c].at.Committed? <==> c in s.commits))
    && s.bits == Fold(plus, zero, s.calls, s.commits)
  }

  /** Steps that commit nothing leave the fold alone. */
  lemma IdleKeepsInv<T(!new)>(plus: (T, T) -> T, zero: T, s: State<T>, calls': seq<Call<T>>)
    requires Inv(plus, zero, s) && |s.calls| <= |calls'|
    requires forall c :: 0 <= c < |s.calls| ==>
               calls'[c].update == s.calls[c].update && (calls'[c].at.Committed? <==> s.calls[c].at.Committed?)
    requires forall c :: |s.calls| <= c < |calls'| ==> !calls'[c].at.Committed?
    ensures Inv(plus, zero, s.(calls := calls'))
  {
    FoldSame(plus, zero, s.calls, calls', s.commits);
  }

  /** Committing one call extends the fold by its update. */
  lemma CommitKeepsInv<T(!new)>(plus: (T, T) -> T, zero: T, s: State<T>, c: nat)
    requires Inv(plus, zero, s) && c < |s.calls| && !s.calls[c].at.Committed?
    ensures Inv(plus, zero, At(s, c, Committed).(bits := Apply(plus, s.bits, s.calls[c].update),
                                                 commits := s.commits + [c]))
  {
    var calls' := s.calls[c := s.calls[c].(at := Committed)];
    FoldSame(plus, zero, s.calls, calls', s.commits);
    DistinctJoined(s.commits, [c]);
    assert (s.commits + [c])[..|s.commits|] == s.commits;
  }

  lemma StepKeepsInv<T(!new)>(plus: (T, T) -> T, zero: T, s: State<T>, step: Step<T>)
    requires Inv(plus, zero, s) && Enabled(s, step)
    ensures Inv(plus, zero, Do(plus, s, step))
  {
    hide Inv, Fold;
    var s' := Do(plus, s, step);
    if s'.commits != s.commits {
      CommitKeepsInv(plus, zero, s, step.c);
    } else {
      IdleKeepsInv(plus, zero, s, s'.calls);
    }
  }

  ghost predicate Follows<T(!new)>(plus: (T, T) -> T, s: State<T>, s': State<T>) {
    exists step :: Enabled(s, step) && s' == Do(plus, s, step)
  }

  ghost predicate IsRun<T(!new)>(plus: (T, T) -> T, zero: T, run: seq<State<T>>) {
    && run != [] && run[0] == Initial(zero)
    && forall i :: 0 <= i < |run| - 1 ==> Follows(plus, run[i], run[i + 1])
  }

  /**
   No update is lost or applied twice: in every reachable state the value is the fold of the
   committed updates in commit order, and the calls that have returned are exactly the ones
   committed, each once.
   */
  lemma {:induction false} ValueIsFoldOfCommits<T(!new)>(plus: (T, T) -> T, zero: T, run: seq<State<T>>, i: nat)
    requires IsRun(plus, zero, run) && i < |run|
    ensures Inv(plus, zero, run[i])
  {
    if i > 0 {
      ValueIsFoldOfCommits(plus, zero, run, i - 1);
      assert Follows(plus, run[i - 1], run[i]);
      var step :| Enabled(run[i - 1], step) && run[i] == Do(plus, run[i - 1], step);
      StepKeepsInv(plus, zero, run[i - 1], step);
    }
  }
}
