/** The migration table of internal/upgrade/migration.go: exact textual codemods, and the chain between two versions. */
module Migrations {
  import opened Pigeonhole
  import opened Replacing
  import opened Separated

  /** One exact replacement. The text to replace is specific, so never empty. */
  datatype Codemod = Codemod(describe: string, old_: string, new_: string) {
    ghost predicate Valid() {
      old_ != ""
    }
  }

  datatype Migration = Migration(from_: string, to: string, summary: string, codemods: seq<Codemod>,
                                 removed: seq<string>, notes: seq<string>)

  /** The links of the table: for each version the last migration declared from it. */
  function Links(declared: seq<Migration>): (links: map<string, Migration>)
    ensures |links| <= |declared|
  {
    if declared == [] then map[]
    else
      var last := declared[|declared| - 1];
      Links(declared[..|declared| - 1])[last.from_ := last]
  }

  /** A version leads on exactly if a migration is declared from it, by the last one declared. */
  lemma {:induction false} LinksMean(declared: seq<Migration>, at: string)
    ensures at in Links(declared) <==> exists k :: 0 <= k < |declared| && declared[k].from_ == at
    ensures forall k :: 0 <= k < |declared| && declared[k].from_ == at
                        && (forall later :: k < later < |declared| ==> declared[later].from_ != at)
                        ==> Links(declared)[at] == declared[k]
  {
    if declared != [] {
      var front := declared[..|declared| - 1];
      LinksMean(front, at);
      assert forall k :: 0 <= k < |front| ==> front[k] == declared[k];
    }
  }

  /** The version reached after the first i links of a chain. */
  function At(start: string, chain: seq<Migration>, i: nat): string
    requires i <= |chain|
  {
    if i == 0 then start else chain[i - 1].to
  }

  function End(start: string, chain: seq<Migration>): string {
    At(start, chain, |chain|)
  }

  predicate IsLink(links: map<string, Migration>, at: string, m: Migration) {
    at in links && links[at] == m
  }

  /** Every element is the table's link from the version the one before led to. */
  ghost predicate IsWalk(links: map<string, Migration>, start: string, chain: seq<Migration>) {
    forall i :: 0 <= i < |chain| ==> IsLink(links, At(start, chain, i), chain[i])
  }

  ghost predicate Reachable(links: map<string, Migration>, start: string, end: string) {
    exists chain :: IsWalk(links, start, chain) && End(start, chain) == end
  }

  lemma AtStep(start: string, chain: seq<Migration>, i: nat)
    requires i <= |chain|
    ensures At(start, chain, i) == if i == 0 then start else chain[i - 1].to
  {
  }

  /** A link is determined by where it starts, so two walks agree as far as both go. */
  lemma {:induction false} WalksAgree(links: map<string, Migration>, start: string, a: seq<Migration>,
                                      b: seq<Migration>, i: nat)
    requires IsWalk(links, start, a) && IsWalk(links, start, b) && i <= |a| && i <= |b|
    ensures a[..i] == b[..i] && At(start, a, i) == At(start, b, i)
  {
    hide At;
    AtStep(start, a, i);
    AtStep(start, b, i);
    if i > 0 {
      WalksAgree(links, start, a, b, i - 1);
      assert IsLink(links, At(start, a, i - 1), a[i - 1]) && IsLink(links, At(start, b, i - 1), b[i - 1]);
      assert a[..i] == a[..i - 1] + [a[i - 1]] && b[..i] == b[..i - 1] + [b[i - 1]];
    }
  }

  /** Cutting a loop out of a walk leaves a shorter walk to the same version. */
  lemma LoopCut(links: map<string, Migration>, start: string, chain: seq<Migration>, i: nat, j: nat)
    requires IsWalk(links, start, chain) && i < j <= |chain| && At(start, chain, i) == At(start, chain, j)
    ensures IsWalk(links, start, chain[..i] + chain[j..]) && End(start, chain[..i] + chain[j..]) == End(start, chain)
  {
    hide At, IsLink;
    var cut := chain[..i] + chain[j..];
    forall k: nat | k <= |cut| ensures At(start, cut, k) == At(start, chain, if k <= i then k else k + j - i) {
      AtStep(start, cut, k);
      AtStep(start, chain, if k <= i then k else k + j - i);
    }
    forall k | 0 <= k < |cut| ensures IsLink(links, At(start, cut, k), cut[k]) {
      var n := if k < i then k else k + j - i;
      assert cut[k] == chain[n];
      assert IsLink(links, At(start, chain, n), chain[n]);
    }
  }

  /** Whatever is reachable is reachable within as many links as the table has: a longer walk repeats a version. */
  lemma {:induction false} ShortWalk(links: map<string, Migration>, start: string, chain: seq<Migration>)
    returns (short: seq<Migration>)
    requires IsWalk(links, start, chain)
    ensures IsWalk(links, start, short) && End(start, short) == End(start, chain) && |short| <= |links|
    decreases |chain|
  {
    if |chain| <= |links| {
      short := chain;
    } else {
      var visited := seq(|chain|, i requires 0 <= i < |chain| => At(start, chain, i));
      if Distinct(visited) {
        forall v | v in visited ensures v in links.Keys {
          var i :| 0 <= i < |chain| && visited[i] == v;
          assert IsLink(links, At(start, chain, i), chain[i]);
        }
        assert |links.Keys| == |links|;
        NoMoreThan(visited, links.Keys);
        assert false;
      } else {
        var i, j :| 0 <= i < j < |chain| && visited[i] == visited[j];
        LoopCut(links, start, chain, i, j);
        short := ShortWalk(links, start, chain[..i] + chain[j..]);
      }
    }
  }

  lemma LinkAt(links: map<string, Migration>, start: string, walk: seq<Migration>, i: nat)
    requires IsWalk(links, start, walk) && i < |walk|
    ensures At(start, walk, i) in links
  {
    hide At;
    assert IsLink(links, At(start, walk, i), walk[i]);
  }

  lemma WalkMisses(links: map<string, Migration>, start: string, end: string, chain: seq<Migration>,
                   walk: seq<Migration>)
    requires IsWalk(links, start, chain) && forall i :: 0 <= i <= |chain| ==> At(start, chain, i) != end
    requires End(start, chain) !in links || |chain| >= |links|
    requires IsWalk(links, start, walk) && |walk| <= |links|
    ensures End(start, walk) != end
  {
    hide At;
    if |walk| <= |chain| {
      WalksAgree(links, start, walk, chain, |walk|);
    } else {
      LinkAt(links, start, walk, |chain|);
      WalksAgree(links, start, walk, chain, |chain|);
    }
  }

  /** A walk that passes `end` nowhere and cannot or need not go on shows that `end` is not reachable. */
  lemma NotReachable(links: map<string, Migration>, start: string, end: string, chain: seq<Migration>)
    requires IsWalk(links, start, chain) && forall i :: 0 <= i <= |chain| ==> At(start, chain, i) != end
    requires End(start, chain) !in links || |chain| >= |links|
    ensures !Reachable(links, start, end)
  {
    if Reachable(links, start, end) {
      var any :| IsWalk(links, start, any) && End(start, any) == end;
      var short := ShortWalk(links, start, any);
      WalkMisses(links, start, end, chain, short);
    }
  }

  /** The walk goes on exactly until it arrives, runs out of links, or has followed one link more than were declared. */
  ghost predicate Stops(links: map<string, Migration>, declared: nat, start: string, end: string,
                        chain: seq<Migration>) {
    IsWalk(links, start, chain)
    && (forall i :: 0 <= i < |chain| ==> At(start, chain, i) != end)
    && |chain| <= declared + 1
    && (End(start, chain) == end || End(start, chain) !in links || |chain| == declared + 1)
  }

  /** There is only one such walk. */
  lemma StopsOnce(links: map<string, Migration>, declared: nat, start: string, end: string, a: seq<Migration>,
                  b: seq<Migration>)
    requires Stops(links, declared, start, end, a) && Stops(links, declared, start, end, b)
    ensures a == b
  {
    hide At;
    if |a| < |b| {
      LinkAt(links, start, b, |a|);
      WalksAgree(links, start, a, b, |a|);
    } else if |b| < |a| {
      LinkAt(links, start, a, |b|);
      WalksAgree(links, start, a, b, |b|);
    } else {
      WalksAgree(links, start, a, b, |a|);
    }
  }

  /** A walk that has not arrived before its last version. */
  ghost predicate Underway(links: map<string, Migration>, start: string, end: string, chain: seq<Migration>) {
    IsWalk(links, start, chain) && forall i :: 0 <= i < |chain| ==> At(start, chain, i) != end
  }

  lemma NothingWalked(links: map<string, Migration>, start: string, end: string)
    ensures Underway(links, start, end, []) && End(start, []) == start
  {
  }

  lemma Extended(links: map<string, Migration>, start: string, chain: seq<Migration>, next: Migration)
    requires IsWalk(links, start, chain) && End(start, chain) in links && next == links[End(start, chain)]
    ensures IsWalk(links, start, chain + [next])
    ensures forall i :: 0 <= i <= |chain| ==> At(start, chain + [next], i) == At(start, chain, i)
  {
    hide At;
    var longer := chain + [next];
    forall i: nat | i <= |chain| ensures At(start, longer, i) == At(start, chain, i) {
      AtStep(start, longer, i);
      AtStep(start, chain, i);
    }
  }

  lemma WalkedOn(links: map<string, Migration>, start: string, end: string, chain: seq<Migration>, next: Migration)
    requires Underway(links, start, end, chain) && End(start, chain) != end
    requires End(start, chain) in links && next == links[End(start, chain)]
    ensures Underway(links, start, end, chain + [next]) && End(start, chain + [next]) == next.to
  {
    hide At;
    Extended(links, start, chain, next);
    AtStep(start, chain + [next], |chain| + 1);
  }

  lemma NotArrived(links: map<string, Migration>, start: string, end: string, chain: seq<Migration>)
    requires Underway(links, start, end, chain) && End(start, chain) != end
    ensures forall i :: 0 <= i <= |chain| ==> At(start, chain, i) != end
  {
    hide At, IsWalk;
    forall i | 0 <= i <= |chain| ensures At(start, chain, i) != end {
      if i == |chain| { assert End(start, chain) == At(start, chain, i); }
    }
  }

  /** The walk as a function: at most `fuel` links from `at`, stopping at the first arrival. */
  function Follow(links: map<string, Migration>, at: string, end: string, fuel: nat): (chain: seq<Migration>)
    ensures |chain| <= fuel
    decreases fuel
  {
    if fuel == 0 || at == end || at !in links then [] else [links[at]] + Follow(links, links[at].to, end, fuel - 1)
  }

  function Chain(start: string, end: string, declared: seq<Migration>): seq<Migration> {
    Follow(Links(declared), start, end, |declared| + 1)
  }

  /** A walk with one more link in front. */
  lemma WalkPrepended(links: map<string, Migration>, at: string, end: string, rest: seq<Migration>)
    requires at in links && at != end && IsWalk(links, links[at].to, rest)
    requires forall i :: 0 <= i < |rest| ==> At(links[at].to, rest, i) != end
    ensures var chain := [links[at]] + rest;
            IsWalk(links, at, chain)
            && (forall i :: 0 <= i < |chain| ==> At(at, chain, i) != end)
            && End(at, chain) == End(links[at].to, rest)
  {
    hide At;
    var next := links[at];
    var chain := [next] + rest;
    AtStep(at, chain, 0);
    forall i: nat | 1 <= i <= |chain| ensures At(at, chain, i) == At(next.to, rest, i - 1) {
      AtStep(at, chain, i);
      AtStep(next.to, rest, i - 1);
    }
    forall i | 0 <= i < |chain| ensures IsLink(links, At(at, chain, i), chain[i]) && At(at, chain, i) != end {
      if i > 0 {
        assert IsLink(links, At(next.to, rest, i - 1), rest[i - 1]);
      }
    }
  }

  lemma FollowStep(links: map<string, Migration>, at: string, end: string, fuel: nat)
    ensures Follow(links, at, end, fuel)
         == if fuel == 0 || at == end || at !in links then []
           else [links[at]] + Follow(links, links[at].to, end, fuel - 1)
  {
  }

  lemma {:induction false} FollowStops(links: map<string, Migration>, at: string, end: string, fuel: nat)
    ensures var chain := Follow(links, at, end, fuel);
            IsWalk(links, at, chain)
            && (forall i :: 0 <= i < |chain| ==> At(at, chain, i) != end)
            && (End(at, chain) == end || End(at, chain) !in links || |chain| == fuel)
    decreases fuel
  {
    hide Follow, At, End, IsWalk;
    FollowStep(links, at, end, fuel);
    if fuel == 0 || at == end || at !in links {
      NothingWalked(links, at, end);
    } else {
      FollowStops(links, links[at].to, end, fuel - 1);
      WalkPrepended(links, at, end, Follow(links, links[at].to, end, fuel - 1));
    }
  }

  lemma IsTheChain(start: string, end: string, declared: seq<Migration>, chain: seq<Migration>)
    requires Stops(Links(declared), |declared|, start, end, chain)
    ensures chain == Chain(start, end, declared)
  {
    hide Follow, At, IsWalk, Links;
    FollowStops(Links(declared), start, end, |declared| + 1);
    StopsOnce(Links(declared), |declared|, start, end, chain, Chain(start, end, declared));
  }

  /** The chain is the walk described, so all that is said of that walk is said of it. */
  lemma ChainStops(start: string, end: string, declared: seq<Migration>)
    ensures Stops(Links(declared), |declared|, start, end, Chain(start, end, declared))
  {
    hide Follow, At, IsWalk, Links;
    FollowStops(Links(declared), start, end, |declared| + 1);
  }

  lemma Reached(links: map<string, Migration>, start: string, end: string, chain: seq<Migration>)
    requires IsWalk(links, start, chain) && End(start, chain) == end
    requires forall i :: 0 <= i < |chain| ==> At(start, chain, i) != end
    ensures Reachable(links, start, end) && |chain| <= |links|
  {
    var short := ShortWalk(links, start, chain);
    if |short| < |chain| {
      WalksAgree(links, start, short, chain, |short|);
    }
  }

  /** Where the loop may stop, it has walked the one chain, and has arrived exactly if the table leads there. */
  lemma Concluded(start: string, end: string, declared: seq<Migration>, chain: seq<Migration>)
    requires Underway(Links(declared), start, end, chain) && |chain| <= |declared| + 1
    requires End(start, chain) == end || End(start, chain) !in Links(declared) || |chain| == |declared| + 1
    ensures Stops(Links(declared), |declared|, start, end, chain) && chain == Chain(start, end, declared)
    ensures End(start, chain) == end <==> Reachable(Links(declared), start, end)
    ensures End(start, chain) == end ==> |chain| <= |Links(declared)|
  {
    hide At, IsWalk, Reachable, Chain, Links;
    IsTheChain(start, end, declared, chain);
    if End(start, chain) == end {
      Reached(Links(declared), start, end, chain);
    } else {
      NotArrived(Links(declared), start, end, chain);
      NotReachable(Links(declared), start, end, chain);
    }
  }

  /**
   The migrations from one version to another. The chain is the table's own walk, stopped at the first arrival; nothing
   is missing exactly when the table leads there; and a cycle stops after one link more than the table has.
   */
  method Path(start: string, end: string, declared: seq<Migration>)
    returns (chain: seq<Migration>, missing: seq<string>)
    ensures Stops(Links(declared), |declared|, start, end, chain) && chain == Chain(start, end, declared)
    ensures missing == [] <==> Reachable(Links(declared), start, end)
    ensures missing == if End(start, chain) == end then [] else [End(start, chain)]
    ensures missing == [] ==> |chain| <= |Links(declared)|
  {
    hide At, End, IsWalk, Underway, Stops, Reachable, Chain;
    chain, missing := [], [];
    var byFrom := map[];
    NothingWalked(Links(declared), start, end);
    if start == end {
      Concluded(start, end, declared, chain);
      return;
    }
    for i := 0 to |declared|
      invariant byFrom == Links(declared[..i])
    {
      assert declared[..i + 1][..i] == declared[..i];
      byFrom := byFrom[declared[i].from_ := declared[i]];
    }
    assert declared[..|declared|] == declared;
    var at := start;
    for n := 0 to |declared| + 1
      invariant |chain| == n && missing == []
      invariant Underway(byFrom, start, end, chain) && at == End(start, chain)
    {
      if at == end {
        Concluded(start, end, declared, chain);
        return;
      }
      if at !in byFrom {
        Concluded(start, end, declared, chain);
        return chain, [at];
      }
      var next := byFrom[at];
      WalkedOn(byFrom, start, end, chain, next);
      chain := chain + [next];
      at := next.to;
    }
    Concluded(start, end, declared, chain);
    if at != end {
      return chain, [at];
    }
  }

  /** The text between the occurrences that are replaced. */
  function Pieces(s: string, old_: string): (pieces: seq<string>)
    requires old_ != ""
    ensures pieces != []
  {
    if s == "" then [""]
    else if StartsWith(s, old_) then [""] + Pieces(s[|old_|..], old_)
    else var rest := Pieces(s[1..], old_); [[s[0]] + rest[0]] + rest[1..]
  }

  /** The rewritten source and how many occurrences were replaced. */
  function Substitute(c: Codemod, source: string): (r: (string, nat))
    requires c.Valid()
  {
    var count := Count(source, c.old_);
    if count == 0 then (source, 0) else (ReplaceAll(source, c.old_, c.new_), count)
  }

  lemma OccurrenceStep(s: string, old_: string, between: string)
    requires old_ != "" && s != "" && StartsWith(s, old_)
    ensures Count(s, old_) == 1 + Count(s[|old_|..], old_) && Pieces(s, old_) == [""] + Pieces(s[|old_|..], old_)
    ensures ReplaceAll(s, old_, between) == between + ReplaceAll(s[|old_|..], old_, between)
  {
    hide StartsWith;
  }

  lemma PlainStep(s: string, old_: string, between: string)
    requires old_ != "" && s != "" && !StartsWith(s, old_)
    ensures Count(s, old_) == Count(s[1..], old_)
            && ReplaceAll(s, old_, between) == [s[0]] + ReplaceAll(s[1..], old_, between)
    ensures var rest := Pieces(s[1..], old_); Pieces(s, old_) == [[s[0]] + rest[0]] + rest[1..]
  {
    hide StartsWith;
  }

  lemma JoinOccurrence(pieces: seq<string>, between: string)
    requires pieces != []
    ensures Join(between, [""] + pieces) == between + Join(between, pieces)
  {
    assert ([""] + pieces)[1..] == pieces;
  }

  lemma JoinHead(c: char, pieces: seq<string>, between: string)
    requires pieces != []
    ensures Join(between, [[c] + pieces[0]] + pieces[1..]) == [c] + Join(between, pieces)
  {
    var longer := [[c] + pieces[0]] + pieces[1..];
    assert longer[1..] == pieces[1..];
  }

  lemma {:induction false} PiecesReplaced(s: string, old_: string, between: string)
    requires old_ != ""
    ensures |Pieces(s, old_)| == Count(s, old_) + 1
    ensures Join(between, Pieces(s, old_)) == ReplaceAll(s, old_, between)
  {
    if s == "" {
    } else if StartsWith(s, old_) {
      hide StartsWith, Join, Pieces, Count, ReplaceAll;
      PiecesReplaced(s[|old_|..], old_, between);
      OccurrenceStep(s, old_, between);
      JoinOccurrence(Pieces(s[|old_|..], old_), between);
    } else {
      hide StartsWith, Join, Pieces, Count, ReplaceAll;
      PiecesReplaced(s[1..], old_, between);
      PlainStep(s, old_, between);
      JoinHead(s[0], Pieces(s[1..], old_), between);
    }
  }

  lemma {:induction false} ReplacedByItself(s: string, old_: string)
    requires old_ != ""
    ensures ReplaceAll(s, old_, old_) == s
  {
    if s == "" {
    } else if StartsWith(s, old_) {
      ReplacedByItself(s[|old_|..], old_);
      assert s == old_ + s[|old_|..];
    } else {
      ReplacedByItself(s[1..], old_);
      assert s == [s[0]] + s[1..];
    }
  }

  predicate OccursAt(s: string, i: nat, old_: string)
    requires i <= |s|
  {
    StartsWith(s[i..], old_)
  }

  /** The text nowhere occurs, at any offset. */
  ghost predicate Absent(s: string, old_: string) {
    forall i :: 0 <= i <= |s| ==> !OccursAt(s, i, old_)
  }

  lemma {:induction false} PiecesFree(s: string, old_: string)
    requires old_ != ""
    ensures forall k :: 0 <= k < |Pieces(s, old_)| ==> Absent(Pieces(s, old_)[k], old_)
    ensures Pieces(s, old_)[0] <= s
  {
    if s == "" {
    } else if StartsWith(s, old_) {
      PiecesFree(s[|old_|..], old_);
    } else {
      PiecesFree(s[1..], old_);
      var rest := Pieces(s[1..], old_);
      var head := [s[0]] + rest[0];
      assert s == [s[0]] + s[1..];
      assert head <= s;
      forall i | 0 <= i <= |head| ensures !OccursAt(head, i, old_) {
        if i == 0 {
          assert |old_| <= |head| ==> head[..|old_|] == s[..|old_|];
        } else {
          assert head[i..] == rest[0][i - 1..];
          assert !OccursAt(rest[0], i - 1, old_);
        }
      }
      assert Pieces(s, old_) == [head] + rest[1..];
    }
  }

  /**
   A codemod is exactly the substitution it announces: the source is count + 1 stretches of text without the old text,
   joined by it, and the result is the same stretches joined by the new text.
   */
  lemma ApplyIsSubstitution(c: Codemod, source: string)
    requires c.Valid()
    ensures var pieces := Pieces(source, c.old_);
            && Join(c.old_, pieces) == source
            && Substitute(c, source) == (Join(c.new_, pieces), |pieces| - 1)
            && forall k :: 0 <= k < |pieces| ==> Absent(pieces[k], c.old_)
  {
    PiecesReplaced(source, c.old_, c.old_);
    PiecesReplaced(source, c.old_, c.new_);
    ReplacedByItself(source, c.old_);
    PiecesFree(source, c.old_);
  }
}
