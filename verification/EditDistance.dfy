/**
 "Did you mean" suggestions (internal/cli/suggest.go): the two-row edit-distance table, and
 the choice of the nearest candidate under a clamped threshold.

 The distance is specified independently of any recurrence, as the length of a shortest
 script of single-rune insertions, deletions and substitutions.
 */
module EditDistance {
  import opened Utf8

  type Word = seq<int>

  /** One single-rune edit at a position of the word it is applied to. */
  datatype Edit = Insert(at: nat, rune: int) | Delete(at: nat) | Substitute(at: nat, rune: int) {

    predicate AppliesTo(w: Word) {
      if Insert? then at <= |w| else at < |w|
    }

    function Apply(w: Word): Word
      requires AppliesTo(w)
    {
      match this
      case Insert(at, rune) => w[..at] + [rune] + w[at..]
      case Delete(at) => w[..at] + w[at + 1..]
      case Substitute(at, rune) => w[..at] + [rune] + w[at + 1..]
    }
  }

  /** The script, applied edit by edit, turns a into b. */
  ghost predicate Turns(script: seq<Edit>, a: Word, b: Word) {
    if script == [] then a == b
    else script[0].AppliesTo(a) && Turns(script[1..], script[0].Apply(a), b)
  }

  /** d is the length of a shortest script turning a into b. */
  ghost predicate IsEditDistance(a: Word, b: Word, d: nat) {
    && (exists script :: |script| == d && Turns(script, a, b))
    && (forall script :: Turns(script, a, b) ==> d <= |script|)
  }

  // ----- the recurrence the table computes -----

  function Init(w: Word): Word
    requires w != []
  {
    w[..|w| - 1]
  }

  function Last(w: Word): int
    requires w != []
  {
    w[|w| - 1]
  }

  function Cost(x: int, y: int): nat {
    if x == y then 0 else 1
  }

  function Min(x: nat, y: nat): nat {
    if x <= y then x else y
  }

  function Distance(a: Word, b: Word): nat
    decreases |a| + |b|
  {
    if a == [] then |b|
    else if b == [] then |a|
    else Min(Min(Distance(a, Init(b)) + 1, Distance(Init(a), b) + 1),
             Distance(Init(a), Init(b)) + Cost(Last(a), Last(b)))
  }

  lemma {:induction false} DistanceSymmetric(a: Word, b: Word)
    ensures Distance(a, b) == Distance(b, a)
    decreases |a| + |b|
  {
    if a != [] && b != [] {
      DistanceSymmetric(a, Init(b));
      DistanceSymmetric(Init(a), b);
      DistanceSymmetric(Init(a), Init(b));
    }
  }

  // ----- the recurrence is attained by some script -----

  /** A script keeps working when the same rune trails both words. */
  lemma {:induction false} TurnsWithSuffix(script: seq<Edit>, a: Word, b: Word, c: int)
    requires Turns(script, a, b)
    ensures Turns(script, a + [c], b + [c])
  {
    if script != [] {
      assert script[0].Apply(a + [c]) == script[0].Apply(a) + [c];
      TurnsWithSuffix(script[1..], script[0].Apply(a), b, c);
    }
  }

  lemma {:induction false} Prepend(e: Edit, script: seq<Edit>, a: Word, mid: Word, b: Word)
    requires e.AppliesTo(a) && e.Apply(a) == mid && Turns(script, mid, b)
    ensures Turns([e] + script, a, b)
  {
    assert ([e] + script)[1..] == script;
  }

  lemma EmptySides(a: Word, b: Word)
    ensures a != [] && b == [] ==> Distance(a, b) == Distance(Init(a), b) + 1
    ensures a == [] && b != [] ==> Distance(a, b) == Distance(a, Init(b)) + 1
  {
  }

  lemma {:induction false} ByInserting(a: Word, b: Word) returns (script: seq<Edit>)
    requires b != []
    ensures |script| == Distance(a, Init(b)) + 1 && Turns(script, a, b)
    decreases |a| + |b|, 0
  {
    var rest := SomeScript(a, Init(b));
    TurnsWithSuffix(rest, a, Init(b), Last(b));
    assert Init(b) + [Last(b)] == b;
    Prepend(Insert(|a|, Last(b)), rest, a, a + [Last(b)], b);
    script := [Insert(|a|, Last(b))] + rest;
  }

  lemma {:induction false} ByMatching(a: Word, b: Word) returns (script: seq<Edit>)
    requires a != [] && b != []
    ensures |script| == Distance(Init(a), Init(b)) + Cost(Last(a), Last(b)) && Turns(script, a, b)
    decreases |a| + |b|, 0
  {
    var rest := SomeScript(Init(a), Init(b));
    TurnsWithSuffix(rest, Init(a), Init(b), Last(b));
    assert Init(b) + [Last(b)] == b;
    if Last(a) == Last(b) {
      assert a == Init(a) + [Last(b)];
      script := rest;
    } else {
      Prepend(Substitute(|a| - 1, Last(b)), rest, a, Init(a) + [Last(b)], b);
      script := [Substitute(|a| - 1, Last(b))] + rest;
    }
  }

  lemma {:induction false} SomeScript(a: Word, b: Word) returns (script: seq<Edit>)
    ensures |script| == Distance(a, b) && Turns(script, a, b)
    decreases |a| + |b|
  {
    if a == [] && b == [] {
      script := [];
    } else if a != [] && Distance(a, b) == Distance(Init(a), b) + 1 {
      script := ByDeleting(a, b);
    } else if b != [] && Distance(a, b) == Distance(a, Init(b)) + 1 {
      script := ByInserting(a, b);
    } else {
      EmptySides(a, b);
      script := ByMatching(a, b);
    }
  }

  lemma {:induction false} ByDeleting(a: Word, b: Word) returns (script: seq<Edit>)
    requires a != []
    ensures |script| == Distance(Init(a), b) + 1 && Turns(script, a, b)
    decreases |a| + |b|, 0
  {
    var rest := SomeScript(Init(a), b);
    Prepend(Delete(|a| - 1), rest, a, Init(a), b);
    script := [Delete(|a| - 1)] + rest;
  }

  // ----- no script beats the recurrence -----

  lemma {:induction false} ShortWord(y: Word, b: Word)
    requires |y| == 1
    ensures |b| <= Distance(y, b) + 1
    decreases |b|
  {
    if b != [] {
      ShortWord(y, Init(b));
    }
  }

  lemma LastRuneAdded(a: Word, b: Word)
    requires a != []
    ensures Distance(a, b) <= Distance(Init(a), b) + 1
  {
  }

  /** Extending the target by one rune costs at most one. */
  lemma DropLast(a: Word, b: Word)
    requires b != []
    ensures Distance(a, b) <= Distance(a, Init(b)) + 1
  {
  }

  lemma Unfold(x: Word, y: Word, d: nat, up: nat, left: nat, diagonal: nat)
    requires x != [] && y != [] && d == Distance(x, y)
    requires up == Distance(x, Init(y)) && left == Distance(Init(x), y) && diagonal == Distance(Init(x), Init(y))
    ensures d == Min(Min(up + 1, left + 1), diagonal + Cost(Last(x), Last(y)))
  {
  }

  lemma DistanceToNothing(a: Word)
    ensures Distance(a, []) == |a| == Distance([], a)
  {
  }

  lemma {:induction false} LastRuneDropped(a: Word, b: Word)
    requires a != []
    ensures Distance(Init(a), b) <= Distance(a, b) + 1
    decreases |b|
  {
    if b == [] {
      DistanceToNothing(a);
      DistanceToNothing(Init(a));
    } else {
      hide Distance;
      LastRuneDropped(a, Init(b));
      DropLast(Init(a), b);
      Unfold(a, b, Distance(a, b), Distance(a, Init(b)), Distance(Init(a), b), Distance(Init(a), Init(b)));
    }
  }

  lemma {:induction false} LastRuneReplaced(a: Word, a': Word, b: Word)
    requires a != [] && a' != [] && Init(a) == Init(a')
    ensures Distance(a, b) <= Distance(a', b) + 1
    decreases |b|
  {
    hide Distance;
    var p := Init(a);
    DistanceToNothing(a);
    DistanceToNothing(a');
    if b != [] {
      LastRuneReplaced(a, a', Init(b));
      Unfold(a, b, Distance(a, b), Distance(a, Init(b)), Distance(p, b), Distance(p, Init(b)));
      Unfold(a', b, Distance(a', b), Distance(a', Init(b)), Distance(p, b), Distance(p, Init(b)));
    }
  }

  lemma LastRuneExchanged(p: Word, x: Word, y: Word, a: Word, a': Word, b: Word)
    requires |x| <= 1 && |y| <= 1 && a == p + x + [] && a' == p + y + []
    ensures Distance(a, b) <= Distance(a', b) + 1
  {
    hide Distance;
    if x != [] { assert Init(a) == p; } else { assert a == p; }
    if y != [] { assert Init(a') == p; } else { assert a' == p; }
    if x != [] && y != [] {
      LastRuneReplaced(a, a', b);
    } else if x != [] {
      LastRuneAdded(a, b);
    } else if y != [] {
      LastRuneDropped(a', b);
    }
  }

  /** Exchanging at most one rune anywhere moves the distance by at most one. */
  lemma {:induction false} OneEditMovesByOne(p: Word, x: Word, y: Word, s: Word, b: Word)
    requires |x| <= 1 && |y| <= 1
    ensures Distance(p + x + s, b) <= Distance(p + y + s, b) + 1
    decreases |p| + |s| + |b|, |x| + |y|
  {
    var a, a' := p + x + s, p + y + s;
    if b == [] || a == [] {
      // Both distances are lengths, or a is empty and a' holds at most one rune.
      if b != [] && a' != [] {
        assert a' == y;
        ShortWord(y, b);
      }
    } else if s != [] {
      assert Init(a) == p + x + Init(s) && Last(a) == Last(s);
      assert Init(a') == p + y + Init(s) && Last(a') == Last(s);
      OneEditMovesByOne(p, x, y, Init(s), b);
      OneEditMovesByOne(p, x, y, s, Init(b));
      OneEditMovesByOne(p, x, y, Init(s), Init(b));
    } else {
      LastRuneExchanged(p, x, y, a, a', b);
    }
  }

  lemma {:induction false} EditMovesByOne(e: Edit, a: Word, b: Word)
    requires e.AppliesTo(a)
    ensures Distance(a, b) <= Distance(e.Apply(a), b) + 1
  {
    var p := a[..e.at];
    match e
    case Insert(at, rune) =>
      assert a == p + [] + a[at..];
      OneEditMovesByOne(p, [], [rune], a[at..], b);
    case Delete(at) =>
      assert a == p + [a[at]] + a[at + 1..];
      assert e.Apply(a) == p + [] + a[at + 1..];
      OneEditMovesByOne(p, [a[at]], [], a[at + 1..], b);
    case Substitute(at, rune) =>
      assert a == p + [a[at]] + a[at + 1..];
      OneEditMovesByOne(p, [a[at]], [rune], a[at + 1..], b);
  }

  lemma {:induction false} DistanceToSelf(a: Word)
    ensures Distance(a, a) == 0
  {
    if a != [] {
      DistanceToSelf(Init(a));
    }
  }

  lemma {:induction false} NoShorterScript(script: seq<Edit>, a: Word, b: Word)
    requires Turns(script, a, b)
    ensures Distance(a, b) <= |script|
  {
    if script == [] {
      DistanceToSelf(a);
    } else {
      EditMovesByOne(script[0], a, b);
      NoShorterScript(script[1..], script[0].Apply(a), b);
    }
  }

  /** The recurrence is the edit distance. */
  lemma DistanceIsEditDistance(a: Word, b: Word)
    ensures IsEditDistance(a, b, Distance(a, b))
  {
    var script := SomeScript(a, b);
    forall other | Turns(other, a, b) ensures Distance(a, b) <= |other| {
      NoShorterScript(other, a, b);
    }
  }

  // ----- it is a metric -----

  lemma Uncons(script: seq<Edit>, a: Word, b: Word)
    requires Turns(script, a, b) && script != []
    ensures script[0].AppliesTo(a) && Turns(script[1..], script[0].Apply(a), b)
  {
  }

  lemma NothingTurns(a: Word, b: Word)
    ensures Turns([], a, b) ==> a == b
  {
  }

  lemma {:induction false} Concatenated(s: seq<Edit>, t: seq<Edit>, a: Word, b: Word, c: Word)
    requires Turns(s, a, b) && Turns(t, b, c)
    ensures Turns(s + t, a, c)
  {
    hide Turns;
    if s == [] {
      assert s + t == t;
      NothingTurns(a, b);
    } else {
      Uncons(s, a, b);
      Concatenated(s[1..], t, s[0].Apply(a), b, c);
      Prepend(s[0], s[1..] + t, a, s[0].Apply(a), c);
      assert [s[0]] + (s[1..] + t) == s + t;
    }
  }

  lemma Metric(a: Word, b: Word, c: Word)
    ensures Distance(a, b) == 0 <==> a == b
    ensures Distance(a, b) == Distance(b, a)
    ensures Distance(a, c) <= Distance(a, b) + Distance(b, c)
  {
    DistanceToSelf(a);
    DistanceSymmetric(a, b);
    var s := SomeScript(a, b);
    var t := SomeScript(b, c);
    Concatenated(s, t, a, b, c);
    NoShorterScript(s + t, a, c);
  }

  // ----- the two-row table -----

  /** The recurrence, read at cell (i, j) of the table. */
  lemma Cell(a: Word, b: Word, i: nat, j: nat, d: nat, up: nat, left: nat, diagonal: nat)
    requires 0 < i <= |a| && 0 < j <= |b| && d == Distance(a[..i], b[..j])
    requires up == Distance(a[..i], b[..j - 1]) && left == Distance(a[..i - 1], b[..j])
    requires diagonal == Distance(a[..i - 1], b[..j - 1])
    ensures d == Min(Min(up + 1, left + 1), diagonal + Cost(a[i - 1], b[j - 1]))
  {
    hide Distance, Cost, Min;
    var x, y := a[..i], b[..j];
    assert Init(x) == a[..i - 1] && Init(y) == b[..j - 1];
    Unfold(x, y, d, up, left, diagonal);
  }

  /** One pass of the inner loop: row j of the table from row j-1. */
  method FillRow(ar: Word, br: Word, j: nat, prev: array<int>, curr: array<int>)
    requires 1 <= j <= |br| && prev != curr && prev.Length == curr.Length == |ar| + 1
    requires forall k :: 0 <= k <= |ar| ==> prev[k] == Distance(ar[..k], br[..j - 1])
    modifies curr
    ensures forall k :: 0 <= k <= |ar| ==> curr[k] == Distance(ar[..k], br[..j])
  {
    hide Distance;
    curr[0] := j;
    assert ar[..0] == [];
    DistanceToNothing(br[..j]);
    var i := 1;
    while i <= |ar|
      invariant 1 <= i <= |ar| + 1
      invariant forall k :: 0 <= k < i ==> curr[k] == Distance(ar[..k], br[..j])
      modifies curr
    {
      var cost := 1;
      if ar[i - 1] == br[j - 1] {
        cost := 0;
      }
      var del := prev[i] + 1;
      var ins := curr[i - 1] + 1;
      var sub := prev[i - 1] + cost;
      var m := del;
      if ins < m {
        m := ins;
      }
      if sub < m {
        m := sub;
      }
      Cell(ar, br, i, j, Distance(ar[..i], br[..j]), prev[i], curr[i - 1], prev[i - 1]);
      curr[i] := m;
      i := i + 1;
    }
  }

  method Levenshtein(a: Word, b: Word) returns (d: nat)
    ensures IsEditDistance(a, b, d)
    ensures d == Distance(a, b)
  {
    hide Distance, IsEditDistance;
    var ar, br := a, b;
    if |ar| > |br| {
      ar, br := br, ar;
      DistanceSymmetric(a, b);
    }
    var prev := new int[|ar| + 1](i => i);
    var curr := new int[|ar| + 1];
    assert br[..0] == [];
    forall k | 0 <= k <= |ar| ensures Distance(ar[..k], []) == k {
      DistanceToNothing(ar[..k]);
    }
    var j := 1;
    while j <= |br|
      invariant 1 <= j <= |br| + 1
      invariant prev != curr && prev.Length == curr.Length == |ar| + 1
      invariant fresh(prev) && fresh(curr)
      invariant forall k :: 0 <= k <= |ar| ==> prev[k] == Distance(ar[..k], br[..j - 1])
    {
      FillRow(ar, br, j, prev, curr);
      prev, curr := curr, prev;
      j := j + 1;
    }
    assert ar[..|ar|] == ar && br[..j - 1] == br;
    DistanceIsEditDistance(a, b);
    d := prev[|ar|];
  }

  // ----- the suggestion -----

  /** Half of the input's bytes, rounded up, held between 1 and 3. */
  function Threshold(bytes: nat): nat {
    var half := (bytes + 1) / 2;
    if half < 1 then 1 else if half > 3 then 3 else half
  }

  ghost function DistanceTo(input: Bytes, candidate: Bytes): nat {
    Distance(Runes(input), Runes(candidate))
  }

  /** k is the first of the candidates nearest to input. */
  ghost predicate NearestFirst(input: Bytes, candidates: seq<Bytes>, k: nat) {
    && k < |candidates|
    && (forall i :: 0 <= i < |candidates| ==> DistanceTo(input, candidates[k]) <= DistanceTo(input, candidates[i]))
    && (forall i :: 0 <= i < k ==> DistanceTo(input, candidates[k]) < DistanceTo(input, candidates[i]))
  }

  ghost predicate SomeWithin(input: Bytes, candidates: seq<Bytes>, threshold: nat) {
    exists c :: c in candidates && DistanceTo(input, c) <= threshold
  }

  method DistanceBetween(input: Bytes, candidate: Bytes) returns (d: nat)
    ensures d == DistanceTo(input, candidate)
  {
    d := Levenshtein(Runes(input), Runes(candidate));
  }

  /** The scan over the candidates, keeping the first of least distance. */
  method Nearest(input: Bytes, candidates: seq<Bytes>) returns (best: Bytes, bestDist: int, ghost k: nat)
    requires candidates != []
    ensures NearestFirst(input, candidates, k) && best == candidates[k]
    ensures bestDist == DistanceTo(input, best)
  {
    best, bestDist, k := [], -1, 0;
    var n := 0;
    while n < |candidates|
      invariant n <= |candidates|
      invariant n == 0 ==> bestDist == -1
      invariant n > 0 ==> k < n && best == candidates[k] && bestDist == DistanceTo(input, best)
      invariant n > 0 ==> forall i :: 0 <= i < n ==> bestDist <= DistanceTo(input, candidates[i])
      invariant n > 0 ==> forall i :: 0 <= i < k ==> bestDist < DistanceTo(input, candidates[i])
    {
      var d := DistanceBetween(input, candidates[n]);
      if bestDist == -1 || d < bestDist {
        bestDist := d;
        best := candidates[n];
        k := n;
      }
      n := n + 1;
    }
  }

  /** One edit is forgiven in up to two bytes, two in up to four, three in anything longer. */
  lemma ThresholdMeans(n: nat)
    ensures Threshold(n) == if n <= 2 then 1 else if n <= 4 then 2 else 3
  {
  }

  /**
   A suggestion is made exactly when some candidate is within the threshold, and it is then
   the first candidate of least distance.
   */
  method Suggest(input: Bytes, candidates: seq<Bytes>) returns (best: Bytes, ok: bool)
    ensures ok <==> input != [] && SomeWithin(input, candidates, Threshold(|input|))
    ensures ok ==> exists k: nat | k < |candidates| :: NearestFirst(input, candidates, k) && best == candidates[k]
    ensures !ok ==> best == []
  {
    if input == [] || |candidates| == 0 {
      return [], false;
    }
    var bestDist;
    ghost var k;
    best, bestDist, k := Nearest(input, candidates);
    var threshold := (|input| + 1) / 2;
    if threshold < 1 {
      threshold := 1;
    }
    if threshold > 3 {
      threshold := 3;
    }
    if bestDist > threshold {
      return [], false;
    }
    return best, true;
  }
}
