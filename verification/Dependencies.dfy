/**
 The manifest rewriting of internal/upgrade/dependencies.go over whole texts: what its two regular expressions match,
 wherever the matches break lines, and the replacement that moves a pinned version forward.
 */
module Dependencies {
  import opened Wrappers
  import opened Versions
  import opened Separated

  datatype Dependency = Dependency(name: string, version: string)

  datatype Manifest = GoMod | PackageJSON

  datatype RequireChange = RequireChange(manifest: Manifest, name: string, from_: string, to: string)

  /**
   A matched requirement taken apart around its version. The rest is a go.mod line's end or a package.json
   entry's comma; blank is the white space a package.json match ends in.
   */
  datatype Requirement = Requirement(before: string, name: string, gap: string, version: string, rest: string,
                                     blank: string)

  predicate IsSpace(c: char) {
    c == ' ' || c == '\t' || c == '\n' || c == '\r' || c == '\U{0C}'
  }

  predicate IsSolid(c: char) {
    !IsSpace(c)
  }

  predicate AllOf(p: char -> bool, s: string) {
    forall i :: 0 <= i < |s| ==> p(s[i])
  }

  /** The length of the longest prefix of s made of characters satisfying p. */
  function Run(p: char -> bool, s: string): (n: nat)
    ensures n <= |s| && AllOf(p, s[..n]) && (n < |s| ==> !p(s[n]))
  {
    if s == "" || !p(s[0]) then 0 else 1 + Run(p, s[1..])
  }

  /** Where a run ends is decided by the text alone. */
  lemma {:induction false} RunIs(p: char -> bool, s: string, n: nat)
    requires n <= |s| && AllOf(p, s[..n]) && (n < |s| ==> !p(s[n]))
    ensures Run(p, s) == n
  {
    if n > 0 {
      assert p(s[..n][0]);
      assert s[1..][..n - 1] == s[..n][1..];
      RunIs(p, s[1..], n - 1);
    }
  }

  lemma RunJoined(p: char -> bool, a: string, b: string)
    requires AllOf(p, a)
    ensures Run(p, a + b) == |a| + Run(p, b)
  {
    var n := Run(p, b);
    assert (a + b)[..|a| + n] == a + b[..n];
    RunIs(p, a + b, |a| + n);
  }

  predicate NotBreak(c: char) {
    c != '\n'
  }

  // ----- one go.mod requirement -----

  /** A go.mod requirement at a line start: name, blank, version starting with 'v', and the rest of that line. */
  function MatchGo(s: string): Option<Requirement> {
    var i := Run(IsSpace, s);
    var t := s[i..];
    var n := Run(IsSolid, t);
    var u := t[n..];
    var g := Run(IsSpace, u);
    var w := u[g..];
    var v := Run(IsSolid, w);
    var x := w[v..];
    if n == 0 || g == 0 || v < 2 || w[0] != 'v' then None
    else Some(Requirement(s[..i], t[..n], u[..g], w[..v], x[..Run(NotBreak, x)], ""))
  }

  predicate GoVersion(version: string) {
    |version| >= 2 && version[0] == 'v' && AllOf(IsSolid, version)
  }

  predicate GoForm(r: Requirement) {
    AllOf(IsSpace, r.before) && r.name != "" && AllOf(IsSolid, r.name) && r.gap != "" && AllOf(IsSpace, r.gap)
    && GoVersion(r.version) && AllOf(NotBreak, r.rest) && (r.rest == "" || IsSpace(r.rest[0])) && r.blank == ""
  }

  function GoText(r: Requirement): string {
    r.before + r.name + r.gap + r.version + r.rest
  }

  lemma Glued(a: string, b: string, c: string, d: string, e: string)
    ensures a + b + c + d + e == a + (b + (c + (d + e)))
  {
  }

  lemma Cuts(s: string, n: nat)
    requires n <= |s|
    ensures s == s[..n] + s[n..]
  {
  }

  lemma GoPieces(s: string, t: string, u: string, w: string, r: Requirement)
    requires r.before == s[..Run(IsSpace, s)]
    requires r.name == t[..Run(IsSolid, t)] && r.name != "" && r.gap == u[..Run(IsSpace, u)] && r.gap != ""
    requires r.version == w[..Run(IsSolid, w)] && |r.version| >= 2 && w[0] == 'v'
    requires var x := w[Run(IsSolid, w)..]; r.rest == x[..Run(NotBreak, x)] && r.blank == ""
    ensures GoForm(r)
  {
    hide Run, AllOf;
    var x := w[Run(IsSolid, w)..];
    if r.rest != "" { assert x[0] == w[Run(IsSolid, w)]; }
  }

  lemma BreakAt(x: string, e: nat)
    requires e == Run(NotBreak, x) && e < |x|
    ensures x[e..][0] == '\n'
  {
  }

  lemma Regrouped(a: string, b: string, c: string, d: string, e: string, f: string)
    ensures a + (b + (c + (d + (e + f)))) == a + b + c + d + e + f
    ensures var all := a + b + c + d + e; all <= all + f && (all + f)[|all|..] == f
  {
  }

  /** A match is its parts, and ends where its line does. */
  lemma MatchGoForm(s: string)
    requires MatchGo(s).Some?
    ensures var r := MatchGo(s).value;
            GoForm(r) && GoText(r) <= s && (|GoText(r)| < |s| ==> s[|GoText(r)|] == '\n')
  {
    hide Run, AllOf, IsSpace, IsSolid, NotBreak, GoForm, GoVersion;
    var i := Run(IsSpace, s);
    var t := s[i..];
    var n := Run(IsSolid, t);
    var u := t[n..];
    var g := Run(IsSpace, u);
    var w := u[g..];
    var v := Run(IsSolid, w);
    var x := w[v..];
    var e := Run(NotBreak, x);
    var r := MatchGo(s).value;
    GoPieces(s, t, u, w, r);
    Cuts(x, e);
    Cuts(w, v);
    Cuts(u, g);
    Cuts(t, n);
    Cuts(s, i);
    Regrouped(s[..i], t[..n], u[..g], w[..v], x[..e], x[e..]);
    if e < |x| { BreakAt(x, e); }
  }

  lemma GoRematch(r: Requirement, after: string)
    requires GoForm(r) && (after == "" || after[0] == '\n')
    ensures MatchGo(GoText(r) + after) == Some(r)
  {
    hide Run;
    var x := r.rest + after;
    var w := r.version + x;
    var u := r.gap + w;
    var t := r.name + u;
    var s := r.before + t;
    Regrouped(r.before, r.name, r.gap, r.version, r.rest, after);
    assert s == GoText(r) + after;
    RunIs(IsSpace, s, |r.before|);
    assert s[|r.before|..] == t;
    RunIs(IsSolid, t, |r.name|);
    assert t[|r.name|..] == u;
    RunIs(IsSpace, u, |r.gap|);
    assert u[|r.gap|..] == w;
    RunIs(IsSolid, w, |r.version|);
    assert w[|r.version|..] == x;
    RunIs(NotBreak, x, |r.rest|);
  }

  // ----- one package.json entry -----

  predicate IsGap(gap: string) {
    var a := Run(IsSpace, gap);
    a < |gap| && gap[a] == ':' && AllOf(IsSpace, gap[a + 1..])
  }

  function Comma(tail: string): string {
    if tail != "" && tail[0] == ',' then "," else ""
  }

  /** The last place c stands at. */
  function LastIndex(c: char, s: string): (i: nat)
    requires c in s
    ensures i < |s| && s[i] == c && c !in s[i + 1..]
  {
    if s[|s| - 1] == c then |s| - 1 else LastIndex(c, s[..|s| - 1])
  }

  lemma {:induction false} LastIndexIs(c: char, s: string, i: nat)
    requires i < |s| && s[i] == c && c !in s[i + 1..]
    ensures LastIndex(c, s) == i
  {
    if i < |s| - 1 {
      assert s[|s| - 1] in s[i + 1..];
      var tail := s[..|s| - 1][i + 1..];
      assert s[i + 1..] == tail + [s[|s| - 1]];
      LastIndexIs(c, s[..|s| - 1], i);
    }
  }

  /**
   How much white space an entry ends in, as greedy as its line end permits: all of it at the end of the text, and
   otherwise what stands before the last line break.
   */
  function Blanks(tail: string, atEnd: bool): Option<nat> {
    var k := Run(IsSpace, tail);
    if atEnd && k == |tail| then Some(k)
    else if '\n' in tail[..k] then Some(LastIndex('\n', tail[..k]))
    else None
  }

  /** An entry closes: a comma or none, white space, and a line end; atEnd when no quote follows. */
  predicate Closes(tail: string, atEnd: bool) {
    Blanks(tail[|Comma(tail)|..], atEnd).Some?
  }

  /**
   A package.json entry at a line start: two quoted texts around a colon. The text is read in parts between
   quotes.
   */
  function MatchJSON(s: string): Option<Requirement> {
    var p := Split('"', s);
    if |p| < 5 || !AllOf(IsSpace, p[0]) || p[1] == "" || !IsGap(p[2]) || p[3] == "" || !Closes(p[4], |p| == 5) then None
    else
      var rest := Comma(p[4]);
      var tail := p[4][|rest|..];
      Some(Requirement(p[0], p[1], p[2], p[3], rest, tail[..Blanks(tail, |p| == 5).value]))
  }

  function Quote(s: string): string {
    "\"" + s + "\""
  }

  function JSONText(r: Requirement): string {
    r.before + Quote(r.name) + r.gap + Quote(r.version) + r.rest + r.blank
  }

  predicate Quotable(s: string) {
    s != "" && '"' !in s
  }

  predicate JSONForm(r: Requirement) {
    AllOf(IsSpace, r.before) && Quotable(r.name) && IsGap(r.gap) && '"' !in r.gap && Quotable(r.version)
    && (r.rest == "" || r.rest == ",") && AllOf(IsSpace, r.blank)
  }

  /** White space that an entry's match takes in full before what follows. */
  predicate TakenBefore(blank: string, after: string) {
    var q := Split('"', after);
    Blanks(blank + q[0], |q| == 1) == Some(|blank|)
  }

  /** Text without quotes joins the first part of what follows. */
  lemma {:induction false} SplitPrefixed(a: string, b: string)
    requires '"' !in a
    ensures Split('"', a + b) == [a + Split('"', b)[0]] + Split('"', b)[1..]
  {
    if a == "" {
      assert a + b == b && a + Split('"', b)[0] == Split('"', b)[0];
    } else {
      hide Split;
      SplitPrefixed(a[1..], b);
      SplitStep('"', a + b);
      var q := Split('"', b);
      var parts := [a[1..] + q[0]] + q[1..];
      assert a[0] in a && (a + b)[1..] == a[1..] + b;
      assert parts[1..] == q[1..];
      assert a + q[0] == [a[0]] + (a[1..] + q[0]);
    }
  }

  lemma SpaceNoQuote(s: string)
    requires AllOf(IsSpace, s)
    ensures '"' !in s
  {
  }

  lemma QuotesApart(r: Requirement, after: string)
    ensures JSONText(r) + after
            == r.before + ['"']
               + (r.name + ['"'] + (r.gap + ['"'] + (r.version + ['"'] + ((r.rest + r.blank) + after))))
  {
  }

  /** The parts between quotes of an entry and what follows it. */
  lemma EntryParts(r: Requirement, after: string)
    requires JSONForm(r)
    ensures var q := Split('"', after);
            Split('"', JSONText(r) + after) == [r.before, r.name, r.gap, r.version, r.rest + r.blank + q[0]] + q[1..]
  {
    hide Split;
    SpaceNoQuote(r.before);
    SpaceNoQuote(r.blank);
    QuotesApart(r, after);
    var d := (r.rest + r.blank) + after;
    var c := r.version + ['"'] + d;
    var b := r.gap + ['"'] + c;
    var a := r.name + ['"'] + b;
    SplitPrefixed(r.rest + r.blank, after);
    SplitAppend('"', r.version, d);
    SplitFree('"', r.version);
    SplitAppend('"', r.gap, c);
    SplitFree('"', r.gap);
    SplitAppend('"', r.name, b);
    SplitFree('"', r.name);
    SplitAppend('"', r.before, a);
    SplitFree('"', r.before);
  }

  lemma CommaKept(rest: string, tail: string)
    requires rest == "" || rest == ","
    requires rest == "" ==> Comma(tail) == ""
    ensures Comma(rest + tail) == rest && (rest + tail)[|rest|..] == tail
  {
  }

  lemma BlanksNoComma(blank: string, z: string, atEnd: bool)
    requires AllOf(IsSpace, blank) && Blanks(blank + z, atEnd) == Some(|blank|)
    ensures Comma(blank + z) == ""
    ensures (z == "" && atEnd) || (z != "" && z[0] == '\n')
  {
    RunJoined(IsSpace, blank, z);
  }

  lemma PartsMatch(s: string, p: seq<string>, r: Requirement, tail: string)
    requires p == Split('"', s) && |p| >= 5 && JSONForm(r)
    requires p[0] == r.before && p[1] == r.name && p[2] == r.gap && p[3] == r.version && p[4] == r.rest + tail
    requires Comma(p[4]) == r.rest && r.blank <= tail && Blanks(tail, |p| == 5) == Some(|r.blank|)
    ensures MatchJSON(s) == Some(r)
  {
    hide Split, IsGap, Blanks, AllOf, Comma;
    assert p[4][|r.rest|..] == tail;
    assert AllOf(IsSpace, p[0]) && p[1] != "" && IsGap(p[2]) && p[3] != "";
    assert Closes(p[4], |p| == 5);
    assert tail[..|r.blank|] == r.blank;
  }

  /** An entry followed by anything before which its white space is taken in full reads as itself. */
  lemma JSONRematch(r: Requirement, after: string)
    requires JSONForm(r) && TakenBefore(r.blank, after)
    ensures MatchJSON(JSONText(r) + after) == Some(r)
  {
    hide Split, IsGap, Blanks, JSONText, MatchJSON, Comma;
    EntryParts(r, after);
    var q := Split('"', after);
    var tail := r.blank + q[0];
    BlanksNoComma(r.blank, q[0], |q| == 1);
    CommaKept(r.rest, tail);
    assert r.rest + r.blank + q[0] == r.rest + tail;
    PartsMatch(JSONText(r) + after, [r.before, r.name, r.gap, r.version, r.rest + r.blank + q[0]] + q[1..], r, tail);
  }

  lemma BlanksTaken(tail: string, atEnd: bool)
    requires Blanks(tail, atEnd).Some?
    ensures var n := Blanks(tail, atEnd).value;
            n <= |tail| && AllOf(IsSpace, tail[..n])
  {
  }

  lemma JoinHeadTail(p: seq<string>)
    requires |p| > 1
    ensures Join(['"'], p) == p[0] + ['"'] + Join(['"'], p[1..])
  {
  }

  lemma JoinFive(p: seq<string>)
    requires |p| >= 5
    ensures Join(['"'], p) == p[0] + ['"'] + (p[1] + ['"'] + (p[2] + ['"'] + (p[3] + ['"'] + Join(['"'], p[4..]))))
  {
    JoinHeadTail(p);
    JoinHeadTail(p[1..]);
    JoinHeadTail(p[2..]);
    JoinHeadTail(p[3..]);
    assert p[1..][1..] == p[2..] && p[2..][1..] == p[3..] && p[3..][1..] == p[4..];
  }

  lemma {:induction false} JoinShortened(a: string, p: seq<string>)
    requires p != []
    ensures Join(['"'], [a + p[0]] + p[1..]) == a + Join(['"'], p)
  {
    assert ([a + p[0]] + p[1..])[1..] == p[1..];
    if |p| > 1 {
      JoinHeadTail(p);
      JoinHeadTail([a + p[0]] + p[1..]);
    }
  }

  /** A match is its parts, and its white space is taken in full before what follows. */
  lemma MatchJSONForm(s: string) returns (after: string)
    requires MatchJSON(s).Some?
    ensures var r := MatchJSON(s).value;
            JSONForm(r) && s == JSONText(r) + after && TakenBefore(r.blank, after)
  {
    hide Split, Join, IsGap, Blanks, AllOf;
    var r := MatchJSON(s).value;
    var p := Split('"', s);
    SplitParts('"', s);
    JoinSplit('"', s);
    var tail := p[4][|r.rest|..];
    BlanksTaken(tail, |p| == 5);
    var z := tail[|r.blank|..];
    var q := [z] + p[5..];
    after := Join(['"'], q);
    JoinFive(p);
    var front := r.rest + r.blank;
    assert p[4] == front + z;
    assert p[4..] == [front + z] + q[1..];
    JoinShortened(front, q);
    QuotesApart(r, after);
    forall part | part in q ensures '"' !in part {
      if part == z { assert forall c :: c in z ==> c in p[4]; assert p[4] in p; } else { assert part in p; }
    }
    SplitJoin('"', q);
    assert r.blank + z == tail;
    assert p[1] in p && p[2] in p && p[3] in p;
  }

  // ----- a match of either kind -----

  function Match(kind: Manifest, s: string): Option<Requirement> {
    match kind case GoMod => MatchGo(s) case PackageJSON => MatchJSON(s)
  }

  function Text(kind: Manifest, r: Requirement): string {
    match kind case GoMod => GoText(r) case PackageJSON => JSONText(r)
  }

  /** The requirement, standing before this text, is one a manifest of the kind can hold. */
  predicate Stands(kind: Manifest, r: Requirement, after: string) {
    match kind
    case GoMod => GoForm(r) && (after == "" || after[0] == '\n')
    case PackageJSON => JSONForm(r) && TakenBefore(r.blank, after)
  }

  /** What follows a match. */
  function Remaining(kind: Manifest, s: string, r: Requirement): string {
    if |Text(kind, r)| <= |s| then s[|Text(kind, r)|..] else ""
  }

  lemma GoNonEmpty(r: Requirement)
    requires GoForm(r)
    ensures GoText(r) != ""
  {
  }

  lemma JSONNonEmpty(r: Requirement)
    ensures JSONText(r) != ""
  {
  }

  /** A text matches as a requirement exactly when it is that requirement standing before the rest of the text. */
  lemma MatchIff(kind: Manifest, s: string, r: Requirement)
    ensures Match(kind, s) == Some(r) <==> Text(kind, r) <= s && Stands(kind, r, Remaining(kind, s, r))
    ensures Match(kind, s) == Some(r) ==> Text(kind, r) != "" && Remaining(kind, s, r) == s[|Text(kind, r)|..]
  {
    hide GoText, GoForm, JSONText, JSONForm, MatchGo, MatchJSON, TakenBefore;
    if Text(kind, r) <= s && Stands(kind, r, Remaining(kind, s, r)) {
      var after := Remaining(kind, s, r);
      assert s == Text(kind, r) + after;
      match kind {
        case GoMod => GoRematch(r, after);
        case PackageJSON => JSONRematch(r, after);
      }
    }
    if Match(kind, s) == Some(r) {
      match kind {
        case GoMod => MatchGoForm(s); GoNonEmpty(r);
        case PackageJSON =>
          var after := MatchJSONForm(s);
          assert (JSONText(r) + after)[|JSONText(r)|..] == after;
          JSONNonEmpty(r);
      }
    }
  }

  // ----- all matches of a text -----

  /** The text between matches goes character by character. */
  datatype Segment = Plain(c: char) | Entry(r: Requirement)

  /**
   A text cut at its matches, found from left to right; a match starts at a line start, and start says s is at
   one.
   */
  function Segments(kind: Manifest, s: string, start: bool): seq<Segment>
    decreases |s|
  {
    if s == "" then []
    else if !start || Match(kind, s).None? then [Plain(s[0])] + Segments(kind, s[1..], s[0] == '\n')
    else
      var r := Match(kind, s).value;
      MatchIff(kind, s, r);
      var text := Text(kind, r);
      [Entry(r)] + Segments(kind, s[|text|..], text[|text| - 1] == '\n')
  }

  /** The version nise ships of each pinned name; the last pin of a name wins. */
  function Wanted(pins: seq<Dependency>): map<string, string> {
    if pins == [] then map[]
    else
      var last := pins[|pins| - 1];
      Wanted(pins[..|pins| - 1])[last.name := last.version]
  }

  /** What can stand where a version stands in a manifest of this kind, on one line. */
  predicate GoodVersion(kind: Manifest, version: string) {
    '\n' !in version && match kind case GoMod => GoVersion(version) case PackageJSON => Quotable(version)
  }

  predicate GoodPins(kind: Manifest, want: map<string, string>) {
    forall name :: name in want ==> GoodVersion(kind, want[name])
  }

  /** The pinned version is later than the one held. */
  predicate Moves(d: Dependency, want: map<string, string>) {
    d.name in want && want[d.name] != d.version && Newer(want[d.name], d.version)
  }

  function PinOf(r: Requirement): Dependency {
    Dependency(r.name, r.version)
  }

  /** What a match is replaced by: a moved package.json entry does not get its white space back. */
  function Moved(r: Requirement, want: map<string, string>): Requirement {
    if Moves(PinOf(r), want) then r.(version := want[r.name], blank := "") else r
  }

  function SegmentText(kind: Manifest, p: Segment): string {
    match p case Plain(c) => [c] case Entry(r) => Text(kind, r)
  }

  function SegmentMoved(p: Segment, want: map<string, string>): Segment {
    match p case Plain(c) => p case Entry(r) => Entry(Moved(r, want))
  }

  function SegmentPins(p: Segment): seq<Dependency> {
    match p case Plain(_) => [] case Entry(r) => [PinOf(r)]
  }

  function SegmentFrame(kind: Manifest, p: Segment): string {
    match p case Plain(c) => [c] case Entry(r) => Text(kind, r.(version := "", blank := ""))
  }

  function Printed(kind: Manifest, segments: seq<Segment>): string {
    if segments == [] then "" else SegmentText(kind, segments[0]) + Printed(kind, segments[1..])
  }

  function AllMoved(segments: seq<Segment>, want: map<string, string>): seq<Segment> {
    seq(|segments|, i requires 0 <= i < |segments| => SegmentMoved(segments[i], want))
  }

  /** The requirements in the order they stand. */
  function Required(segments: seq<Segment>): seq<Dependency> {
    if segments == [] then []
    else SegmentPins(segments[0]) + Required(segments[1..])
  }

  /** Everything but the versions and the white space behind package.json entries. */
  function Frame(kind: Manifest, segments: seq<Segment>): string {
    if segments == [] then ""
    else SegmentFrame(kind, segments[0]) + Frame(kind, segments[1..])
  }

  function Changes(kind: Manifest, held: seq<Dependency>, want: map<string, string>): seq<RequireChange> {
    if held == [] then []
    else
      (if Moves(held[0], want) then [RequireChange(kind, held[0].name, held[0].version, want[held[0].name])] else [])
      + Changes(kind, held[1..], want)
  }

  /** The requirements of a manifest. */
  function RequiredIn(kind: Manifest, source: string): seq<Dependency> {
    Required(Segments(kind, source, true))
  }

  function Bumped(kind: Manifest, source: string, want: map<string, string>): string {
    Printed(kind, AllMoved(Segments(kind, source, true), want))
  }

  function ChangesOf(kind: Manifest, source: string, want: map<string, string>): seq<RequireChange> {
    Changes(kind, RequiredIn(kind, source), want)
  }

  lemma FoldStep(kind: Manifest, p: Segment, rest: seq<Segment>, want: map<string, string>)
    ensures Printed(kind, [p] + rest) == SegmentText(kind, p) + Printed(kind, rest)
    ensures AllMoved([p] + rest, want) == [SegmentMoved(p, want)] + AllMoved(rest, want)
    ensures Required([p] + rest) == SegmentPins(p) + Required(rest)
    ensures Frame(kind, [p] + rest) == SegmentFrame(kind, p) + Frame(kind, rest)
  {
    hide SegmentText, SegmentMoved, SegmentPins, SegmentFrame;
    assert ([p] + rest)[1..] == rest;
  }

  predicate IsLastPin(pins: seq<Dependency>, name: string, i: nat) {
    i < |pins| && pins[i].name == name && forall j :: i < j < |pins| ==> pins[j].name != name
  }

  lemma WantedStep(pins: seq<Dependency>)
    requires pins != []
    ensures var last := pins[|pins| - 1]; Wanted(pins) == Wanted(pins[..|pins| - 1])[last.name := last.version]
  {
  }

  /** A name is wanted at the version its last pin gives it. */
  lemma {:induction false} WantedMeans(pins: seq<Dependency>, name: string)
    ensures name in Wanted(pins) <==> exists i :: 0 <= i < |pins| && pins[i].name == name
    ensures forall i: nat :: IsLastPin(pins, name, i) ==> name in Wanted(pins) && Wanted(pins)[name] == pins[i].version
  {
    if pins != [] {
      hide Wanted;
      var n := |pins| - 1;
      WantedMeans(pins[..n], name);
      WantedStep(pins);
      forall i: nat | IsLastPin(pins, name, i) ensures name in Wanted(pins) && Wanted(pins)[name] == pins[i].version {
        if i < n { assert IsLastPin(pins[..n], name, i); }
      }
    }
  }

  method WantedVersions(pins: seq<Dependency>) returns (want: map<string, string>)
    ensures want == Wanted(pins)
  {
    want := map[];
    for i := 0 to |pins|
      invariant want == Wanted(pins[..i])
    {
      assert pins[..i + 1][..i] == pins[..i];
      want := want[pins[i].name := pins[i].version];
    }
    assert pins[..|pins|] == pins;
  }

  lemma ChangesStep(kind: Manifest, p: Segment, held: seq<Dependency>, want: map<string, string>)
    ensures Changes(kind, SegmentPins(p) + held, want)
            == Changes(kind, SegmentPins(p), want) + Changes(kind, held, want)
  {
    hide Moves;
    if p.Entry? {
      assert ([PinOf(p.r)] + held)[1..] == held && [PinOf(p.r)][1..] == [];
      assert Changes(kind, [], want) == [];
    } else {
      assert [] + held == held;
    }
  }

  /** What one piece adds to the rewritten text and to the changes. */
  lemma BumpStep(kind: Manifest, segments: seq<Segment>, i: nat, want: map<string, string>)
    requires i < |segments|
    ensures Printed(kind, AllMoved(segments[i..], want))
            == SegmentText(kind, SegmentMoved(segments[i], want)) + Printed(kind, AllMoved(segments[i + 1..], want))
    ensures Changes(kind, Required(segments[i..]), want)
            == Changes(kind, SegmentPins(segments[i]), want) + Changes(kind, Required(segments[i + 1..]), want)
  {
    hide Moves, Text, SegmentText, SegmentMoved, SegmentPins, Required, Printed, AllMoved, Changes, Frame, SegmentFrame;
    var p, rest := segments[i], segments[i + 1..];
    assert segments[i..] == [p] + rest;
    FoldStep(kind, p, rest, want);
    FoldStep(kind, SegmentMoved(p, want), AllMoved(rest, want), want);
    ChangesStep(kind, p, Required(rest), want);
  }

  lemma BumpStart(kind: Manifest, segments: seq<Segment>, want: map<string, string>)
    ensures segments[0..] == segments
    ensures Printed(kind, AllMoved(segments[|segments|..], want)) == ""
            && Changes(kind, Required(segments[|segments|..]), want) == []
  {
  }

  lemma NoChange(kind: Manifest, want: map<string, string>)
    ensures Changes(kind, [], want) == []
  {
  }

  lemma OneChange(kind: Manifest, r: Requirement, want: map<string, string>)
    ensures Changes(kind, [PinOf(r)], want)
            == if Moves(PinOf(r), want) then [RequireChange(kind, r.name, r.version, want[r.name])] else []
  {
    assert [PinOf(r)][1..] == [];
    assert Changes(kind, [], want) == [];
  }

  lemma SegmentBumped(kind: Manifest, p: Segment, want: map<string, string>)
    ensures p.Plain? ==> SegmentText(kind, SegmentMoved(p, want)) == [p.c]
    ensures p.Entry? ==>
              SegmentText(kind, SegmentMoved(p, want))
              == if Moves(PinOf(p.r), want) then Text(kind, p.r.(version := want[p.r.name], blank := ""))
                 else Text(kind, p.r)
  {
  }

  /** The same, piece by piece. */
  lemma PieceBumped(kind: Manifest, segments: seq<Segment>, i: nat, want: map<string, string>)
    requires i < |segments|
    ensures var (p, text, text') := (segments[i], Printed(kind, AllMoved(segments[i..], want)),
                                     Printed(kind, AllMoved(segments[i + 1..], want)));
            && (p.Plain? ==> text == [p.c] + text')
            && (p.Entry? && !Moves(PinOf(p.r), want) ==> text == Text(kind, p.r) + text')
            && (p.Entry? && Moves(PinOf(p.r), want) ==>
                  text == Text(kind, p.r.(version := want[p.r.name], blank := "")) + text')
    ensures var (p, changes, changes') := (segments[i], Changes(kind, Required(segments[i..]), want),
                                           Changes(kind, Required(segments[i + 1..]), want));
            if p.Entry? && Moves(PinOf(p.r), want) then
              changes == [RequireChange(kind, p.r.name, p.r.version, want[p.r.name])] + changes'
            else changes == changes'
  {
    hide Moves, Text, SegmentText, SegmentMoved, Required, Printed, AllMoved, Changes, Frame, SegmentFrame;
    BumpStep(kind, segments, i, want);
    SegmentBumped(kind, segments[i], want);
    if segments[i].Plain? {
      NoChange(kind, want);
    } else {
      OneChange(kind, segments[i].r, want);
    }
  }

  /** Rewrites the version of every requirement nise pins at a later version. */
  method Bump(kind: Manifest, source: string, pins: seq<Dependency>)
    returns (rewritten: string, changes: seq<RequireChange>)
    ensures rewritten == Bumped(kind, source, Wanted(pins))
    ensures changes == ChangesOf(kind, source, Wanted(pins))
  {
    hide Segments, Newer, Wanted, Text, Printed, AllMoved, Changes, Required;
    var want := WantedVersions(pins);
    var segments := Segments(kind, source, true);
    rewritten, changes := "", [];
    BumpStart(kind, segments, want);
    for i := 0 to |segments|
      invariant Printed(kind, AllMoved(segments, want)) == rewritten + Printed(kind, AllMoved(segments[i..], want))
      invariant Changes(kind, Required(segments), want) == changes + Changes(kind, Required(segments[i..]), want)
    {
      PieceBumped(kind, segments, i, want);
      match segments[i] {
        case Plain(c) =>
          rewritten := rewritten + [c];
        case Entry(r) =>
          if r.name !in want || want[r.name] == r.version || !Newer(want[r.name], r.version) {
            rewritten := rewritten + Text(kind, r);
          } else {
            changes := changes + [RequireChange(kind, r.name, r.version, want[r.name])];
            rewritten := rewritten + Text(kind, r.(version := want[r.name], blank := ""));
          }
      }
    }
  }

  lemma SegmentsStep(kind: Manifest, s: string, start: bool)
    requires s != ""
    ensures !start || Match(kind, s).None? ==>
              Segments(kind, s, start) == [Plain(s[0])] + Segments(kind, s[1..], s[0] == '\n')
    ensures start && Match(kind, s).Some? ==>
              var r := Match(kind, s).value;
              && Text(kind, r) != "" && |Remaining(kind, s, r)| < |s| && s == Text(kind, r) + Remaining(kind, s, r)
              && Stands(kind, r, Remaining(kind, s, r))
              && Segments(kind, s, start)
                 == [Entry(r)] + Segments(kind, Remaining(kind, s, r), Text(kind, r)[|Text(kind, r)| - 1] == '\n')
  {
    hide Match, Text, Stands;
    if start && Match(kind, s).Some? {
      MatchIff(kind, s, Match(kind, s).value);
    }
  }

  lemma PrintedEntry(kind: Manifest, r: Requirement, rest: seq<Segment>)
    ensures Printed(kind, [Entry(r)] + rest) == Text(kind, r) + Printed(kind, rest)
  {
    assert ([Entry(r)] + rest)[1..] == rest;
  }

  lemma PrintedPlain(kind: Manifest, c: char, rest: seq<Segment>)
    ensures Printed(kind, [Plain(c)] + rest) == [c] + Printed(kind, rest)
  {
    assert ([Plain(c)] + rest)[1..] == rest;
  }

  lemma MatchedStep(kind: Manifest, s: string) returns (r: Requirement, after: string, flag: bool)
    requires Match(kind, s).Some?
    ensures s == Text(kind, r) + after && |after| < |s|
    ensures Segments(kind, s, true) == [Entry(r)] + Segments(kind, after, flag)
  {
    hide Segments, Match, Text, Stands, Remaining;
    r := Match(kind, s).value;
    MatchIff(kind, s, r);
    SegmentsStep(kind, s, true);
    after, flag := Remaining(kind, s, r), Text(kind, r)[|Text(kind, r)| - 1] == '\n';
  }

  lemma NothingPrinted(kind: Manifest, start: bool)
    ensures Printed(kind, Segments(kind, "", start)) == ""
  {
  }

  /** The segments are the text. */
  lemma {:induction false} SegmentsPrinted(kind: Manifest, s: string, start: bool)
    ensures Printed(kind, Segments(kind, s, start)) == s
    decreases |s|
  {
    hide *;
    if s == "" {
      NothingPrinted(kind, start);
    } else if start && Match(kind, s).Some? {
      var r, after, flag := MatchedStep(kind, s);
      SegmentsPrinted(kind, after, flag);
      PrintedEntry(kind, r, Segments(kind, after, flag));
    } else {
      SegmentsStep(kind, s, start);
      SegmentsPrinted(kind, s[1..], s[0] == '\n');
      PrintedPlain(kind, s[0], Segments(kind, s[1..], s[0] == '\n'));
      assert s == [s[0]] + s[1..];
    }
  }

  // ----- reading the rewritten text again -----

  /** The text rewritten from here on. */
  function BumpFrom(kind: Manifest, s: string, start: bool, want: map<string, string>): string {
    Printed(kind, AllMoved(Segments(kind, s, start), want))
  }

  lemma BumpFromStep(kind: Manifest, s: string, start: bool, want: map<string, string>)
    requires s != ""
    ensures !start || Match(kind, s).None? ==>
              BumpFrom(kind, s, start, want) == [s[0]] + BumpFrom(kind, s[1..], s[0] == '\n', want)
    ensures start && Match(kind, s).Some? ==>
              var r := Match(kind, s).value;
              && Text(kind, r) != "" && |Remaining(kind, s, r)| < |s| && s == Text(kind, r) + Remaining(kind, s, r)
              && Stands(kind, r, Remaining(kind, s, r))
              && BumpFrom(kind, s, start, want)
                 == Text(kind, Moved(r, want))
                    + BumpFrom(kind, Remaining(kind, s, r), Text(kind, r)[|Text(kind, r)| - 1] == '\n', want)
  {
    hide Segments, Match, Text, Stands, Moved, Printed, AllMoved;
    SegmentsStep(kind, s, start);
    if start && Match(kind, s).Some? {
      var r := Match(kind, s).value;
      var rest := Segments(kind, Remaining(kind, s, r), Text(kind, r)[|Text(kind, r)| - 1] == '\n');
      FoldStep(kind, Entry(r), rest, want);
      FoldStep(kind, Entry(Moved(r, want)), AllMoved(rest, want), want);
    } else {
      var rest := Segments(kind, s[1..], s[0] == '\n');
      FoldStep(kind, Plain(s[0]), rest, want);
      FoldStep(kind, Plain(s[0]), AllMoved(rest, want), want);
    }
  }

  lemma BumpFromNothing(kind: Manifest, start: bool, want: map<string, string>)
    ensures BumpFrom(kind, "", start, want) == "" && Segments(kind, "", start) == []
  {
  }

  lemma TextHead(kind: Manifest, r: Requirement, version: string, blank: string, after: string)
    requires Stands(kind, r, after)
    ensures var r' := r.(version := version, blank := blank);
            Text(kind, r) != "" && Text(kind, r') != "" && Text(kind, r')[0] == Text(kind, r)[0]
  {
    if r.before == "" {
      match kind {
        case GoMod => assert Text(kind, r)[0] == r.name[0];
        case PackageJSON =>
      }
    }
  }

  /** The rewritten text starts as the text does. */
  lemma HeadKept(kind: Manifest, s: string, start: bool, want: map<string, string>)
    ensures var out := BumpFrom(kind, s, start, want);
            (out == "" <==> s == "") && (s != "" ==> out[0] == s[0])
  {
    hide BumpFrom, Match, Text, Stands, Moves;
    if s == "" {
      BumpFromNothing(kind, start, want);
    } else {
      BumpFromStep(kind, s, start, want);
      if start && Match(kind, s).Some? {
        var r := Match(kind, s).value;
        TextHead(kind, r, Moved(r, want).version, Moved(r, want).blank, Remaining(kind, s, r));
      }
    }
  }

  lemma MatchGoBlank(s: string)
    requires s != "" && IsSpace(s[0])
    ensures MatchGo(s)
            == match MatchGo(s[1..]) case None => None case Some(r) => Some(r.(before := [s[0]] + r.before))
  {
    hide IsSpace, IsSolid;
    var i := Run(IsSpace, s[1..]);
    assert Run(IsSpace, s) == i + 1;
    assert s[i + 1..] == s[1..][i..] && s[..i + 1] == [s[0]] + s[1..][..i];
  }

  lemma MatchJSONBlank(s: string)
    requires s != "" && IsSpace(s[0])
    ensures MatchJSON(s)
            == match MatchJSON(s[1..]) case None => None case Some(r) => Some(r.(before := [s[0]] + r.before))
  {
    hide Split, IsGap, Closes, Blanks;
    SplitStep('"', s);
    var q := Split('"', s[1..]);
    var p := [[s[0]] + q[0]] + q[1..];
    assert p[1..] == q[1..];
    assert AllOf(IsSpace, p[0]) <==> AllOf(IsSpace, q[0]) by {
      assert p[0][1..] == q[0];
      assert forall i :: 0 <= i < |q[0]| ==> q[0][i] == p[0][i + 1];
    }
  }

  /** White space in front of a match belongs to it, and in front of none does not make one. */
  lemma MatchBlank(kind: Manifest, s: string)
    requires s != "" && IsSpace(s[0])
    ensures Match(kind, s).Some? <==> Match(kind, s[1..]).Some?
    ensures Match(kind, s).Some? ==>
              Match(kind, s).value
              == Match(kind, s[1..]).value.(before := [s[0]] + Match(kind, s[1..]).value.before)
  {
    hide MatchGo, MatchJSON;
    match kind {
      case GoMod => MatchGoBlank(s);
      case PackageJSON => MatchJSONBlank(s);
    }
  }

  lemma FrontShifted(c: char, front: string, d: string, e: string, f: string, g: string)
    ensures ([c] + front) + d + e + f + g == [c] + (front + d + e + f + g)
  {
    var tail := d + (e + (f + g));
    assert ([c] + front) + d + e + f + g == ([c] + front) + tail;
    assert front + d + e + f + g == front + tail;
  }

  lemma TextShifted(kind: Manifest, r: Requirement, c: char)
    ensures Text(kind, r.(before := [c] + r.before)) == [c] + Text(kind, r)
  {
    hide Quote;
    FrontShifted(c, r.before, r.name, r.gap, r.version, r.rest);
    FrontShifted(c, r.before, Quote(r.name), r.gap, Quote(r.version), r.rest);
    var text := r.before + Quote(r.name) + r.gap + Quote(r.version) + r.rest;
    assert [c] + text + r.blank == [c] + (text + r.blank);
  }

  lemma MatchNonEmpty(kind: Manifest, t: string)
    requires Match(kind, t).Some?
    ensures t != ""
  {
    MatchIff(kind, t, Match(kind, t).value);
  }

  lemma SameRemaining(kind: Manifest, s: string, r: Requirement, r1: Requirement)
    requires s != "" && Text(kind, r) == [s[0]] + Text(kind, r1) && |Text(kind, r)| <= |s| && Text(kind, r1) != ""
    ensures Remaining(kind, s, r) == Remaining(kind, s[1..], r1)
    ensures Text(kind, r)[|Text(kind, r)| - 1] == Text(kind, r1)[|Text(kind, r1)| - 1]
  {
  }

  /** A line break in front of a match, as a piece of its own or as part of the match, is read alike. */
  lemma BreakInOrOut(kind: Manifest, r: Requirement, rest: seq<Segment>, c: char, want: map<string, string>)
    ensures var inside, outside := [Entry(r.(before := [c] + r.before))] + rest, [Plain(c)] + ([Entry(r)] + rest);
            && Printed(kind, AllMoved(inside, want)) == Printed(kind, AllMoved(outside, want))
            && Required(inside) == Required(outside) && Frame(kind, inside) == Frame(kind, outside)
  {
    hide Printed, AllMoved, Required, Frame, Text, Moves;
    var longer := r.(before := [c] + r.before);
    FoldStep(kind, Entry(longer), rest, want);
    FoldStep(kind, Entry(r), rest, want);
    FoldStep(kind, Plain(c), [Entry(r)] + rest, want);
    FoldStep(kind, Entry(Moved(longer, want)), AllMoved(rest, want), want);
    FoldStep(kind, Entry(Moved(r, want)), AllMoved(rest, want), want);
    FoldStep(kind, Plain(c), [Entry(Moved(r, want))] + AllMoved(rest, want), want);
    TextShifted(kind, Moved(r, want), c);
    TextShifted(kind, r.(version := "", blank := ""), c);
    assert [] + ([PinOf(r)] + Required(rest)) == [PinOf(r)] + Required(rest);
  }

  lemma MatchAfterBreak(kind: Manifest, s: string) returns (r: Requirement, rest: seq<Segment>)
    requires s != "" && s[0] == '\n' && Match(kind, s).Some?
    ensures Segments(kind, s, true) == [Entry(r.(before := [s[0]] + r.before))] + rest
    ensures Segments(kind, s, false) == [Plain(s[0])] + ([Entry(r)] + rest)
  {
    MatchBlank(kind, s);
    hide Match, Segments, Text, Stands, Remaining;
    r := Match(kind, s[1..]).value;
    SegmentsStep(kind, s, true);
    SegmentsStep(kind, s, false);
    MatchNonEmpty(kind, s[1..]);
    SegmentsStep(kind, s[1..], true);
    TextShifted(kind, r, s[0]);
    SameRemaining(kind, s, Match(kind, s).value, r);
    rest := Segments(kind, Remaining(kind, s[1..], r), Text(kind, r)[|Text(kind, r)| - 1] == '\n');
  }

  /** Before a line break it makes no difference whether a match may start there or only behind it. */
  lemma StartIrrelevant(kind: Manifest, s: string, want: map<string, string>)
    requires s == "" || s[0] == '\n'
    ensures BumpFrom(kind, s, true, want) == BumpFrom(kind, s, false, want)
    ensures Required(Segments(kind, s, true)) == Required(Segments(kind, s, false))
    ensures Frame(kind, Segments(kind, s, true)) == Frame(kind, Segments(kind, s, false))
  {
    if s == "" {
      BumpFromNothing(kind, true, want);
      BumpFromNothing(kind, false, want);
    } else if Match(kind, s).None? {
      hide Match, BumpFrom;
      SegmentsStep(kind, s, true);
      SegmentsStep(kind, s, false);
      BumpFromStep(kind, s, true, want);
      BumpFromStep(kind, s, false, want);
    } else {
      hide Printed, AllMoved, Required, Frame, Segments;
      var r, rest := MatchAfterBreak(kind, s);
      BreakInOrOut(kind, r, rest, s[0], want);
    }
  }

  // ----- a package.json text between its quotes -----

  /** Two parts between quotes that stand alike in a match: last says no quote follows. */
  predicate Alike(p: string, q: string, last: bool) {
    (Closes(p, last) <==> Closes(q, last)) && (!last ==> (p == "" <==> q == "") && (IsGap(p) <==> IsGap(q)))
  }

  ghost predicate AllAlike(p: seq<string>, q: seq<string>) {
    && |p| == |q| > 0 && p[0] == q[0]
    && forall k :: 0 <= k < |p| ==> Alike(p[k], q[k], k == |p| - 1)
  }

  lemma VersionNeither(v: string)
    requires Parsed(v).Some?
    ensures v != "" && !Closes(v, false) && !IsGap(v)
  {
    hide Parsed;
    VersionHead(v);
    RunIs(IsSpace, v, 0);
  }

  lemma BlanksDropped(blank: string, z: string, atEnd: bool)
    requires AllOf(IsSpace, blank) && Blanks(blank + z, atEnd) == Some(|blank|)
    ensures Blanks(z, atEnd) == Some(0)
  {
    var tail, k := blank + z, Run(IsSpace, z);
    RunJoined(IsSpace, blank, z);
    if !(atEnd && |blank| + k == |tail|) {
      assert tail[..|blank| + k] == blank + z[..k];
      assert z[..k][1..] == (blank + z[..k])[|blank| + 1..];
      LastIndexIs('\n', z[..k], 0);
    }
  }

  lemma CommaNoGap(s: string)
    requires s != "" && s[0] == ','
    ensures !IsGap(s)
  {
    RunIs(IsSpace, s, 0);
  }

  lemma GapTail(blank: string, z: string)
    requires AllOf(IsSpace, blank)
    ensures IsGap(blank + z) <==> IsGap(z)
  {
    RunJoined(IsSpace, blank, z);
    hide AllOf, Run;
    var a := Run(IsSpace, z);
    if a < |z| {
      assert (blank + z)[|blank| + a + 1..] == z[a + 1..];
      assert (blank + z)[|blank| + a] == z[a];
    }
  }

  lemma GapBehindBlanks(rest: string, blank: string, z: string)
    requires AllOf(IsSpace, blank) && (rest == "" || rest == ",")
    ensures IsGap(rest + blank + z) <==> IsGap(rest + z)
  {
    hide IsGap;
    if rest == "," {
      CommaNoGap(rest + blank + z);
      CommaNoGap(rest + z);
    } else {
      assert rest + blank + z == blank + z && rest + z == z;
      GapTail(blank, z);
    }
  }

  lemma AlikeTails(rest: string, blank: string, z: string, last: bool)
    requires AllOf(IsSpace, blank) && (rest == "" || rest == ",") && Blanks(blank + z, last) == Some(|blank|)
    ensures Alike(rest + blank + z, rest + z, last)
  {
    BlanksNoComma(blank, z, last);
    BlanksDropped(blank, z, last);
    hide Blanks;
    assert rest + blank + z == rest + (blank + z);
    CommaKept(rest, blank + z);
    CommaKept(rest, z);
    if !last {
      GapBehindBlanks(rest, blank, z);
    }
  }

  lemma SameAlike(p: string, last: bool)
    ensures Alike(p, p, last)
  {
  }

  lemma AlikePlain(c: char, p: seq<string>, q: seq<string>)
    requires AllAlike(p, q)
    ensures AllAlike(Fronted('"', c, p), Fronted('"', c, q))
  {
    hide Alike;
    var p', q' := Fronted('"', c, p), Fronted('"', c, q);
    forall k | 0 <= k < |p'| ensures Alike(p'[k], q'[k], k == |p'| - 1) {
      if c == '"' && k > 0 {
        assert p'[k] == p[k - 1] && q'[k] == q[k - 1];
      } else if k > 0 {
        assert p'[k] == p[k] && q'[k] == q[k];
      } else {
        SameAlike(p'[0], k == |p'| - 1);
      }
    }
  }

  lemma AlikeEntry(r: Requirement, moved: Requirement, p: seq<string>, q: seq<string>)
    requires AllAlike(p, q) && Alike(r.version, moved.version, false)
    requires moved == r.(version := moved.version, blank := moved.blank)
    requires Alike(r.rest + r.blank + p[0], moved.rest + moved.blank + q[0], |p| == 1)
    ensures AllAlike([r.before, r.name, r.gap, r.version, r.rest + r.blank + p[0]] + p[1..],
                     [moved.before, moved.name, moved.gap, moved.version, moved.rest + moved.blank + q[0]] + q[1..])
  {
    hide Alike;
    var p', q' := [r.before, r.name, r.gap, r.version, r.rest + r.blank + p[0]] + p[1..],
                  [moved.before, moved.name, moved.gap, moved.version, moved.rest + moved.blank + q[0]] + q[1..];
    forall k | 0 <= k < |p'| ensures Alike(p'[k], q'[k], k == |p'| - 1) {
      if k < 3 {
        SameAlike(p'[k], false);
      } else if k > 4 {
        assert p'[k] == p[k - 4] && q'[k] == q[k - 4];
      }
    }
  }

  lemma MovedAlike(r: Requirement, after: string, want: map<string, string>)
    requires JSONForm(r) && TakenBefore(r.blank, after) && GoodPins(PackageJSON, want)
    ensures JSONForm(Moved(r, want)) && Alike(r.version, Moved(r, want).version, false)
    ensures var q, moved := Split('"', after), Moved(r, want);
            Alike(r.rest + r.blank + q[0], moved.rest + moved.blank + q[0], |q| == 1)
            && Blanks(moved.blank + q[0], |q| == 1) == Some(|moved.blank|)
  {
    hide IsGap, Closes, Parsed, Split, Blanks;
    var q, moved := Split('"', after), Moved(r, want);
    if Moves(PinOf(r), want) {
      VersionNeither(r.version);
      VersionNeither(moved.version);
      AlikeTails(r.rest, r.blank, q[0], |q| == 1);
      BlanksDropped(r.blank, q[0], |q| == 1);
      assert r.rest + "" + q[0] == r.rest + q[0] && "" + q[0] == q[0];
    } else {
      SameAlike(r.version, false);
      SameAlike(r.rest + r.blank + q[0], |q| == 1);
    }
  }

  lemma MovedFields(r: Requirement, want: map<string, string>)
    ensures Moved(r, want) == r.(version := Moved(r, want).version, blank := Moved(r, want).blank)
  {
  }

  /** Between its quotes the rewritten text stands like the text, and starts with the same part. */
  lemma {:induction false} QuotesAlike(s: string, start: bool, want: map<string, string>)
    requires GoodPins(PackageJSON, want)
    ensures AllAlike(Split('"', s), Split('"', BumpFrom(PackageJSON, s, start, want)))
    decreases |s|
  {
    hide BumpFrom, MatchJSON, JSONText, Moved, Alike, Split, GoodVersion, TakenBefore;
    var out := BumpFrom(PackageJSON, s, start, want);
    if s == "" {
      BumpFromNothing(PackageJSON, start, want);
      SplitFree('"', "");
      SameAlike("", true);
    } else {
      BumpFromStep(PackageJSON, s, start, want);
      if start && MatchJSON(s).Some? {
        var r := MatchJSON(s).value;
        var after, flag := Remaining(PackageJSON, s, r), JSONText(r)[|JSONText(r)| - 1] == '\n';
        var out2 := BumpFrom(PackageJSON, after, flag, want);
        QuotesAlike(after, flag, want);
        MovedAlike(r, after, want);
        EntryParts(r, after);
        EntryParts(Moved(r, want), out2);
        MovedFields(r, want);
        AlikeEntry(r, Moved(r, want), Split('"', after), Split('"', out2));
      } else {
        var out2 := BumpFrom(PackageJSON, s[1..], s[0] == '\n', want);
        QuotesAlike(s[1..], s[0] == '\n', want);
        SplitStep('"', s);
        SplitStep('"', [s[0]] + out2);
        assert ([s[0]] + out2)[1..] == out2;
        AlikePlain(s[0], Split('"', s[1..]), Split('"', out2));
      }
    }
  }

  /** Rewriting what follows makes no entry where there was none. */
  lemma JSONStaysUnmatched(s: string, start: bool, want: map<string, string>)
    requires GoodPins(PackageJSON, want) && MatchJSON(s).None?
    ensures MatchJSON(BumpFrom(PackageJSON, s, start, want)).None?
  {
    hide BumpFrom, Split, Closes, IsGap, AllOf, GoodVersion;
    QuotesAlike(s, start, want);
    var p, q := Split('"', s), Split('"', BumpFrom(PackageJSON, s, start, want));
    if |p| >= 5 {
      assert Alike(p[1], q[1], false) && Alike(p[2], q[2], false) && Alike(p[3], q[3], false)
             && Alike(p[4], q[4], 4 == |p| - 1);
    }
  }

  // ----- a go.mod text word by word -----

  /** The word the text starts with is kept. */
  lemma {:induction false} WordKept(s: string, want: map<string, string>)
    ensures var n := Run(IsSolid, s);
            BumpFrom(GoMod, s, false, want) == s[..n] + BumpFrom(GoMod, s[n..], false, want)
  {
    hide BumpFrom, Match, Moves;
    if s == "" || !IsSolid(s[0]) {
      assert s[0..] == s;
    } else {
      BumpFromStep(GoMod, s, false, want);
      WordKept(s[1..], want);
      var n := Run(IsSolid, s[1..]);
      assert s[1..][n..] == s[n + 1..] && s[..n + 1] == [s[0]] + s[1..][..n];
    }
  }

  /** Starts with blanks and then a word that ends there. */
  predicate StartsWord(s: string, blanks: string, word: string) {
    blanks + word <= s && (|blanks + word| < |s| ==> IsSpace(s[|blanks + word|]))
  }

  lemma MatchStartsWord(r: Requirement, after: string, want: map<string, string>, out: string)
    requires GoForm(r)
    ensures StartsWord(GoText(Moved(r, want)) + out, r.before, r.name)
  {
    var moved := Moved(r, want);
    assert GoText(moved) + out == r.before + r.name + (r.gap + moved.version + r.rest + out);
  }

  lemma WordThenSpace(s: string, want: map<string, string>)
    requires s != "" && IsSolid(s[0])
    ensures StartsWord(BumpFrom(GoMod, s, false, want), "", s[..Run(IsSolid, s)])
  {
    hide BumpFrom;
    var n := Run(IsSolid, s);
    WordKept(s, want);
    HeadKept(GoMod, s[n..], false, want);
    assert "" + s[..n] == s[..n];
  }

  lemma EmptyStarts()
    ensures StartsWord("", "", "")
  {
  }

  lemma BlankInFront(c: char, s: string, blanks: string, word: string)
    requires StartsWord(s, blanks, word)
    ensures StartsWord([c] + s, [c] + blanks, word)
  {
    assert [c] + blanks + word == [c] + (blanks + word);
  }

  lemma MatchGoWords(s: string)
    requires MatchGo(s).Some?
    ensures var r, i := MatchGo(s).value, Run(IsSpace, s);
            GoForm(r) && r.before == s[..i] && r.name == s[i..][..Run(IsSolid, s[i..])]
  {
    MatchGoForm(s);
  }

  /** The blanks and the first word the text starts with are kept, whether or not a match begins among them. */
  lemma {:induction false} FirstWordKept(s: string, start: bool, want: map<string, string>)
    ensures var i := Run(IsSpace, s);
            StartsWord(BumpFrom(GoMod, s, start, want), s[..i], s[i..][..Run(IsSolid, s[i..])])
    decreases |s|
  {
    hide BumpFrom, MatchGo, GoForm, GoText, Moves, StartsWord;
    if s == "" {
      BumpFromNothing(GoMod, start, want);
      EmptyStarts();
    } else {
      BumpFromStep(GoMod, s, start, want);
      if start && MatchGo(s).Some? {
        var r := MatchGo(s).value;
        MatchGoWords(s);
        var flag := GoText(r)[|GoText(r)| - 1] == '\n';
        MatchStartsWord(r, Remaining(GoMod, s, r), want, BumpFrom(GoMod, Remaining(GoMod, s, r), flag, want));
      } else if IsSpace(s[0]) {
        FirstWordKept(s[1..], s[0] == '\n', want);
        var i := Run(IsSpace, s[1..]);
        assert s[i + 1..] == s[1..][i..] && s[..i + 1] == [s[0]] + s[1..][..i];
        BlankInFront(s[0], BumpFrom(GoMod, s[1..], s[0] == '\n', want), s[1..][..i],
                     s[i + 1..][..Run(IsSolid, s[i + 1..])]);
      } else {
        BumpFromStep(GoMod, s, false, want);
        assert s[0] != '\n';
        WordThenSpace(s, want);
        assert s[0..] == s;
      }
    }
  }

  /** The blanks and the word a text starts with. */
  function LeadingBlanks(s: string): string {
    s[..Run(IsSpace, s)]
  }

  function LeadingWord(s: string): string {
    var t := s[Run(IsSpace, s)..]; t[..Run(IsSolid, t)]
  }

  function BehindWord(s: string): string {
    var t := s[Run(IsSpace, s)..]; t[Run(IsSolid, t)..]
  }

  lemma LeadingAfterBlank(s: string)
    requires s != "" && IsSpace(s[0])
    ensures LeadingBlanks(s) == [s[0]] + LeadingBlanks(s[1..])
    ensures LeadingWord(s) == LeadingWord(s[1..]) && BehindWord(s) == BehindWord(s[1..])
  {
    var i := Run(IsSpace, s[1..]);
    assert s[i + 1..] == s[1..][i..] && s[..i + 1] == [s[0]] + s[1..][..i];
  }

  lemma LeadingSolid(s: string)
    requires s != "" && IsSolid(s[0])
    ensures LeadingBlanks(s) == "" && LeadingWord(s) == s[..Run(IsSolid, s)] && BehindWord(s) == s[Run(IsSolid, s)..]
  {
    assert s[0..] == s;
  }

  lemma LeadingOfNothing()
    ensures LeadingBlanks("") == "" && LeadingWord("") == "" && BehindWord("") == ""
  {
  }

  /** Where no match starts, the first word is kept and what follows it is rewritten by itself. */
  lemma {:induction false} UnmatchedWord(s: string, start: bool, want: map<string, string>)
    requires MatchGo(s).None?
    ensures BumpFrom(GoMod, s, start, want)
            == LeadingBlanks(s) + LeadingWord(s) + BumpFrom(GoMod, BehindWord(s), false, want)
    decreases |s|
  {
    hide BumpFrom, MatchGo, Moves, LeadingBlanks, LeadingWord, BehindWord, Run;
    if s == "" {
      BumpFromNothing(GoMod, start, want);
      BumpFromNothing(GoMod, false, want);
      LeadingOfNothing();
    } else {
      BumpFromStep(GoMod, s, start, want);
      if IsSpace(s[0]) {
        MatchBlank(GoMod, s);
        UnmatchedWord(s[1..], s[0] == '\n', want);
        LeadingAfterBlank(s);
        assert [s[0]] + LeadingBlanks(s[1..]) + LeadingWord(s[1..])
               == [s[0]] + (LeadingBlanks(s[1..]) + LeadingWord(s[1..]));
      } else {
        BumpFromStep(GoMod, s, false, want);
        LeadingSolid(s);
        assert s[0] != '\n';
        WordKept(s, want);
        assert "" + LeadingWord(s) == LeadingWord(s);
      }
    }
  }

  lemma StartsWordRuns(s: string, blanks: string, word: string)
    requires StartsWord(s, blanks, word) && AllOf(IsSpace, blanks) && AllOf(IsSolid, word)
    requires word == "" ==> s == blanks
    ensures Run(IsSpace, s) == |blanks| && Run(IsSolid, s[|blanks|..]) == |word| && s[|blanks|..][..|word|] == word
  {
    assert s[..|blanks|] == blanks;
    if word != "" { assert s[|blanks|] == word[0]; }
    RunIs(IsSpace, s, |blanks|);
    assert s[|blanks|..][..|word|] == word;
    RunIs(IsSolid, s[|blanks|..], |word|);
  }

  /** Whether a requirement matches is seen from the first two words and the blanks between them. */
  lemma MatchGoIff(s: string)
    ensures MatchGo(s).Some? <==>
            LeadingWord(s) != "" && LeadingBlanks(BehindWord(s)) != ""
            && |LeadingWord(BehindWord(s))| >= 2 && LeadingWord(BehindWord(s))[0] == 'v'
  {
    hide IsSpace, IsSolid;
  }

  lemma NoWordAllBlank(s: string)
    requires LeadingWord(s) == ""
    ensures s == LeadingBlanks(s)
  {
  }

  lemma LeadingParts(s: string)
    ensures AllOf(IsSpace, LeadingBlanks(s)) && AllOf(IsSolid, LeadingWord(s))
    ensures s == LeadingBlanks(s) + LeadingWord(s) + BehindWord(s)
    ensures BehindWord(s) != "" ==> IsSpace(BehindWord(s)[0])
  {
  }

  lemma BlanksFirst(s: string)
    ensures LeadingBlanks(s) != "" <==> s != "" && IsSpace(s[0])
  {
  }

  lemma SameLeading(out: string, blanks: string, s: string)
    requires out == blanks == s
    ensures LeadingWord(out) == LeadingWord(s)
  {
  }

  lemma WordsOf(s: string, blanks: string, word: string, behind: string)
    requires s == blanks + word + behind && AllOf(IsSpace, blanks) && AllOf(IsSolid, word) && word != ""
    requires behind != "" ==> IsSpace(behind[0])
    ensures LeadingWord(s) == word && BehindWord(s) == behind
  {
    assert s[|blanks| + |word|..] == behind;
    StartsWordRuns(s, blanks, word);
    assert s[|blanks|..][|word|..] == behind;
  }

  lemma SecondWord(s: string, blanks: string, word: string)
    requires StartsWord(s, blanks, word) && AllOf(IsSpace, blanks) && AllOf(IsSolid, word) && word != ""
    ensures LeadingWord(s) == word
  {
    StartsWordRuns(s, blanks, word);
  }

  lemma {:induction false} AllBlankKept(s: string, start: bool, want: map<string, string>)
    requires AllOf(IsSpace, s)
    ensures BumpFrom(GoMod, s, start, want) == s
    decreases |s|
  {
    if s == "" {
      BumpFromNothing(GoMod, start, want);
    } else {
      RunIs(IsSpace, s, |s|);
      assert MatchGo(s).None?;
      hide BumpFrom, MatchGo;
      BumpFromStep(GoMod, s, start, want);
      AllBlankKept(s[1..], s[0] == '\n', want);
    }
  }

  lemma NoSecondWord(out2: string, behind: string, want: map<string, string>)
    requires out2 == BumpFrom(GoMod, behind, false, want) && behind == LeadingBlanks(behind)
    ensures LeadingWord(out2) == ""
  {
    LeadingParts(behind);
    AllBlankKept(behind, false, want);
    RunIs(IsSpace, behind, |behind|);
  }

  lemma FirstWordBehind(behind: string, want: map<string, string>)
    ensures StartsWord(BumpFrom(GoMod, behind, false, want), LeadingBlanks(behind), LeadingWord(behind))
  {
    FirstWordKept(behind, false, want);
  }

  /** The second word and whether there is one stay, given what the rewritten text behind the first word is. */
  lemma SecondWordKept(behind: string, out: string, want: map<string, string>)
    requires out == BumpFrom(GoMod, behind, false, want)
    ensures (LeadingBlanks(out) == "" <==> LeadingBlanks(behind) == "")
    ensures LeadingBlanks(behind) != "" ==> LeadingWord(out) == LeadingWord(behind)
    ensures (out == "" <==> behind == "") && (behind != "" ==> out[0] == behind[0])
  {
    hide BumpFrom, LeadingBlanks, LeadingWord, StartsWord;
    FirstWordBehind(behind, want);
    HeadKept(GoMod, behind, false, want);
    BlanksFirst(behind);
    BlanksFirst(out);
    LeadingParts(behind);
    if LeadingWord(behind) == "" {
      NoWordAllBlank(behind);
      NoSecondWord(out, behind, want);
    } else {
      SecondWord(out, LeadingBlanks(behind), LeadingWord(behind));
    }
  }

  lemma NothingBehind(s: string)
    requires LeadingWord(s) == ""
    ensures BehindWord(s) == ""
  {
  }

  /** Rewriting what follows makes no requirement where there was none. */
  lemma GoStaysUnmatched(s: string, start: bool, want: map<string, string>)
    requires MatchGo(s).None?
    ensures MatchGo(BumpFrom(GoMod, s, start, want)).None?
  {
    hide BumpFrom, MatchGo, LeadingBlanks, LeadingWord, BehindWord;
    var blanks, word, behind := LeadingBlanks(s), LeadingWord(s), BehindWord(s);
    var out, out2 := BumpFrom(GoMod, s, start, want), BumpFrom(GoMod, behind, false, want);
    UnmatchedWord(s, start, want);
    SecondWordKept(behind, out2, want);
    LeadingParts(s);
    MatchGoIff(s);
    MatchGoIff(out);
    if word != "" {
      WordsOf(out, blanks, word, out2);
    } else {
      NoWordAllBlank(s);
      NothingBehind(s);
      assert out == blanks;
      SameLeading(out, blanks, s);
    }
  }

  // ----- what a bump keeps -----

  lemma StaysUnmatched(kind: Manifest, s: string, start: bool, want: map<string, string>)
    requires GoodPins(kind, want) && Match(kind, s).None?
    ensures Match(kind, BumpFrom(kind, s, start, want)).None?
  {
    hide BumpFrom, MatchGo, MatchJSON;
    match kind {
      case GoMod => GoStaysUnmatched(s, start, want);
      case PackageJSON => JSONStaysUnmatched(s, start, want);
    }
  }

  /** A requirement at its new version, before the rest of the text rewritten, reads as that. */
  lemma MovedStands(kind: Manifest, r: Requirement, after: string, flag: bool, want: map<string, string>)
    requires GoodPins(kind, want) && Stands(kind, r, after)
    ensures Stands(kind, Moved(r, want), BumpFrom(kind, after, flag, want))
  {
    hide BumpFrom, Split, Blanks, IsGap, Newer;
    match kind {
      case GoMod => HeadKept(kind, after, flag, want);
      case PackageJSON =>
        QuotesAlike(after, flag, want);
        MovedAlike(r, after, want);
    }
  }

  function MovedPin(d: Dependency, want: map<string, string>): Dependency {
    if Moves(d, want) then d.(version := want[d.name]) else d
  }

  function MovedPins(held: seq<Dependency>, want: map<string, string>): (moved: seq<Dependency>)
    ensures |moved| == |held|
  {
    seq(|held|, i requires 0 <= i < |held| => MovedPin(held[i], want))
  }

  lemma NothingRequired(kind: Manifest, want: map<string, string>)
    ensures MovedPins([], want) == [] && Required([]) == []
  {
  }

  lemma MovedPinsStep(r: Requirement, held: seq<Dependency>, want: map<string, string>)
    ensures MovedPins([PinOf(r)] + held, want) == [PinOf(Moved(r, want))] + MovedPins(held, want)
  {
    hide Moves;
  }

  lemma FrameUnmoved(kind: Manifest, r: Requirement, want: map<string, string>)
    ensures SegmentFrame(kind, Entry(Moved(r, want))) == SegmentFrame(kind, Entry(r))
  {
    hide Moves, Text;
  }

  lemma MatchedHead(kind: Manifest, r: Requirement, after: string)
    requires Stands(kind, r, after)
    ensures var s := Text(kind, r) + after;
            && s != "" && Text(kind, r) != "" && Match(kind, s) == Some(r) && Remaining(kind, s, r) == after
            && Segments(kind, s, true)
               == [Entry(r)] + Segments(kind, after, Text(kind, r)[|Text(kind, r)| - 1] == '\n')
  {
    hide Segments, Match, Text, Stands;
    var s := Text(kind, r) + after;
    assert s[|Text(kind, r)|..] == after;
    MatchIff(kind, s, r);
    SegmentsStep(kind, s, true);
  }

  /** What follows a match is nothing or a line break. */
  lemma EndsAtBreak(kind: Manifest, r: Requirement, after: string)
    requires Stands(kind, r, after)
    ensures after == "" || after[0] == '\n'
  {
    if kind == PackageJSON {
      hide Split, Blanks, IsGap;
      var q := Split('"', after);
      BlanksNoComma(r.blank, q[0], |q| == 1);
      JoinSplit('"', after);
      if |q| > 1 { JoinHeadTail(q); }
    }
  }

  /** Reading a rewritten text again finds the same requirements, each at the version it was moved to. */
  lemma {:induction false} ReadAgain(kind: Manifest, s: string, start: bool, want: map<string, string>)
    requires GoodPins(kind, want)
    ensures var before, after := Segments(kind, s, start), Segments(kind, BumpFrom(kind, s, start, want), start);
            Required(after) == MovedPins(Required(before), want) && Frame(kind, after) == Frame(kind, before)
    decreases |s|
  {
    hide BumpFrom, Segments, Match, Text, Stands, Moves, Required, Frame, GoodPins, Printed, AllMoved, MovedPins, Moved;
    if s == "" {
      BumpFromNothing(kind, start, want);
      NothingRequired(kind, want);
    } else {
      SegmentsStep(kind, s, start);
      BumpFromStep(kind, s, start, want);
      var out := BumpFrom(kind, s, start, want);
      if start && Match(kind, s).Some? {
        var r := Match(kind, s).value;
        var after, flag := Remaining(kind, s, r), Text(kind, r)[|Text(kind, r)| - 1] == '\n';
        var out2 := BumpFrom(kind, after, flag, want);
        ReadAgain(kind, after, flag, want);
        MovedStands(kind, r, after, flag, want);
        MatchedHead(kind, Moved(r, want), out2);
        var flag' := Text(kind, Moved(r, want))[|Text(kind, Moved(r, want))| - 1] == '\n';
        EndsAtBreak(kind, Moved(r, want), out2);
        if flag != flag' { StartIrrelevant(kind, out2, want); }
        FoldStep(kind, Entry(r), Segments(kind, after, flag), want);
        FoldStep(kind, Entry(Moved(r, want)), Segments(kind, out2, flag'), want);
        MovedPinsStep(r, Required(Segments(kind, after, flag)), want);
        FrameUnmoved(kind, r, want);
      } else {
        var flag := s[0] == '\n';
        var out2 := BumpFrom(kind, s[1..], flag, want);
        ReadAgain(kind, s[1..], flag, want);
        if start { StaysUnmatched(kind, s, start, want); }
        SegmentsStep(kind, out, start);
        assert out[1..] == out2;
        FoldStep(kind, Plain(s[0]), Segments(kind, s[1..], flag), want);
        FoldStep(kind, Plain(s[0]), Segments(kind, out2, flag), want);
        assert [] + Required(Segments(kind, out2, flag)) == Required(Segments(kind, out2, flag));
        assert [] + Required(Segments(kind, s[1..], flag)) == Required(Segments(kind, s[1..], flag));
      }
    }
  }

  /**
   A bump keeps the requirements, each at the version it was moved to, and all the rest of the text but the white space
   behind package.json entries.
   */
  lemma BumpKeeps(kind: Manifest, source: string, want: map<string, string>)
    requires GoodPins(kind, want)
    ensures var bumped := Bumped(kind, source, want);
            && RequiredIn(kind, bumped) == MovedPins(RequiredIn(kind, source), want)
            && Frame(kind, Segments(kind, bumped, true)) == Frame(kind, Segments(kind, source, true))
  {
    hide Segments, Printed, AllMoved, Required, Frame, MovedPins;
    ReadAgain(kind, source, true, want);
  }

  lemma {:induction false} NothingMoves(kind: Manifest, held: seq<Dependency>, want: map<string, string>)
    ensures Changes(kind, held, want) == [] <==> forall d :: d in held ==> !Moves(d, want)
  {
    hide Moves;
    if held != [] {
      NothingMoves(kind, held[1..], want);
      assert held == [held[0]] + held[1..];
    }
  }

  lemma MovedOnce(d: Dependency, want: map<string, string>)
    ensures !Moves(MovedPin(d, want), want)
  {
  }

  /** Bumping again with the same pins finds nothing to do. */
  lemma BumpIdempotent(kind: Manifest, source: string, want: map<string, string>)
    requires GoodPins(kind, want)
    ensures ChangesOf(kind, Bumped(kind, source, want), want) == []
  {
    hide Bumped, RequiredIn, Changes, MovedPin, Moves;
    BumpKeeps(kind, source, want);
    var held := RequiredIn(kind, source);
    forall d | d in MovedPins(held, want) ensures !Moves(d, want) {
      var i :| 0 <= i < |held| && MovedPins(held, want)[i] == d;
      MovedOnce(held[i], want);
    }
    NothingMoves(kind, MovedPins(held, want), want);
  }

  lemma {:induction false} RequiredHas(segments: seq<Segment>, i: nat)
    requires i < |segments| && segments[i].Entry?
    ensures PinOf(segments[i].r) in Required(segments)
  {
    if i > 0 {
      RequiredHas(segments[1..], i - 1);
    }
  }

  lemma UnmovedSegments(segments: seq<Segment>, want: map<string, string>)
    requires forall d :: d in Required(segments) ==> !Moves(d, want)
    ensures AllMoved(segments, want) == segments
  {
    hide Moves, Required;
    forall i | 0 <= i < |segments| ensures SegmentMoved(segments[i], want) == segments[i] {
      if segments[i].Entry? {
        RequiredHas(segments, i);
      }
    }
  }

  /** Nothing to report means nothing rewritten. */
  lemma BumpedUnchanged(kind: Manifest, source: string, want: map<string, string>)
    requires ChangesOf(kind, source, want) == []
    ensures Bumped(kind, source, want) == source
  {
    hide Segments, Printed, AllMoved, Required, Changes, Moves;
    NothingMoves(kind, RequiredIn(kind, source), want);
    UnmovedSegments(Segments(kind, source, true), want);
    SegmentsPrinted(kind, source, true);
  }

  // ----- runs of bumps -----

  /** Two states of one requirement between which only the version changed, and only forward. */
  predicate Forward(d: Dependency, d': Dependency) {
    d' == d || (d'.name == d.name && Newer(d'.version, d.version))
  }

  lemma ForwardTransitive(a: Dependency, b: Dependency, c: Dependency)
    requires Forward(a, b) && Forward(b, c)
    ensures Forward(a, c)
  {
    hide Newer;
    NewerIsStrictOrder(c.version, b.version, a.version);
  }

  /**
   Between two states of a manifest the requirements are the same ones, moved forward if at all, and all the rest of the
   text is the same but for the white space behind package.json entries.
   */
  ghost predicate MovesForward(kind: Manifest, text: string, text': string) {
    && Frame(kind, Segments(kind, text', true)) == Frame(kind, Segments(kind, text, true))
    && var held, held' := RequiredIn(kind, text), RequiredIn(kind, text');
       |held'| == |held| && forall i :: 0 <= i < |held| ==> Forward(held[i], held'[i])
  }

  lemma MovesForwardSelf(kind: Manifest, text: string)
    ensures MovesForward(kind, text, text)
  {
  }

  lemma MovesForwardTransitive(kind: Manifest, a: string, b: string, c: string)
    requires MovesForward(kind, a, b) && MovesForward(kind, b, c)
    ensures MovesForward(kind, a, c)
  {
    hide Forward, RequiredIn, Frame, Segments;
    var x, y, z := RequiredIn(kind, a), RequiredIn(kind, b), RequiredIn(kind, c);
    forall i | 0 <= i < |x| ensures Forward(x[i], z[i]) {
      ForwardTransitive(x[i], y[i], z[i]);
    }
  }

  lemma BumpedForward(kind: Manifest, source: string, want: map<string, string>)
    requires GoodPins(kind, want)
    ensures MovesForward(kind, source, Bumped(kind, source, want))
  {
    hide Bumped, RequiredIn, Frame, Segments, Newer;
    BumpKeeps(kind, source, want);
  }

  /** The manifest after a run of upgrades, each with the pins of the nise that ran it. */
  function AfterRun(kind: Manifest, source: string, wants: seq<map<string, string>>): string {
    if wants == [] then source else Bumped(kind, AfterRun(kind, source, wants[..|wants| - 1]), wants[|wants| - 1])
  }

  /**
   Along any run of upgrades the requirements stay, each version only moves forward, and the rest of the text
   is kept.
   */
  lemma {:induction false} NeverBackwards(kind: Manifest, source: string, wants: seq<map<string, string>>)
    requires forall want :: want in wants ==> GoodPins(kind, want)
    ensures MovesForward(kind, source, AfterRun(kind, source, wants))
  {
    hide MovesForward, Bumped, GoodPins;
    if wants == [] {
      MovesForwardSelf(kind, source);
    } else {
      var front, want := wants[..|wants| - 1], wants[|wants| - 1];
      NeverBackwards(kind, source, front);
      var middle := AfterRun(kind, source, front);
      BumpedForward(kind, middle, want);
      MovesForwardTransitive(kind, source, middle, Bumped(kind, middle, want));
    }
  }

  // ----- lines -----

  function Breaks(s: string): nat {
    if s == "" then 0 else (if s[0] == '\n' then 1 else 0) + Breaks(s[1..])
  }

  lemma {:induction false} BreaksJoined(a: string, b: string)
    ensures Breaks(a + b) == Breaks(a) + Breaks(b)
  {
    if a == "" {
      assert a + b == b;
    } else {
      BreaksJoined(a[1..], b);
      assert (a + b)[1..] == a[1..] + b;
    }
  }

  lemma {:induction false} NoBreaks(s: string)
    ensures Breaks(s) == 0 <==> '\n' !in s
  {
    if s != "" {
      NoBreaks(s[1..]);
      assert s == [s[0]] + s[1..];
    }
  }

  lemma {:induction false} LinesAreBreaks(s: string)
    ensures |Split('\n', s)| == Breaks(s) + 1
  {
    if s != "" {
      LinesAreBreaks(s[1..]);
    }
  }

  /**
   The piece stays as many lines: it is not moved, or has no line break in its version or in the white space it
   drops.
   */
  predicate KeepsLines(p: Segment, want: map<string, string>) {
    p.Entry? && Moves(PinOf(p.r), want) ==> '\n' !in p.r.version && '\n' !in p.r.blank
  }

  lemma QuoteBreaks(s: string)
    ensures Breaks(Quote(s)) == Breaks(s)
  {
    BreaksJoined("\"", s);
    BreaksJoined("\"" + s, "\"");
    NoBreaks("\"");
  }

  lemma TextBreaks(kind: Manifest, r: Requirement)
    requires kind == GoMod ==> r.blank == ""
    ensures Breaks(Text(kind, r))
            == Breaks(r.before) + Breaks(r.name) + Breaks(r.gap) + Breaks(r.version) + Breaks(r.rest) + Breaks(r.blank)
  {
    match kind {
      case GoMod =>
        hide Breaks;
        BreaksJoined(r.before, r.name);
        BreaksJoined(r.before + r.name, r.gap);
        BreaksJoined(r.before + r.name + r.gap, r.version);
        BreaksJoined(r.before + r.name + r.gap + r.version, r.rest);
        NoBreaks(r.blank);
      case PackageJSON =>
        QuoteBreaks(r.name);
        QuoteBreaks(r.version);
        hide Breaks, Quote;
        BreaksJoined(r.before, Quote(r.name));
        BreaksJoined(r.before + Quote(r.name), r.gap);
        BreaksJoined(r.before + Quote(r.name) + r.gap, Quote(r.version));
        BreaksJoined(r.before + Quote(r.name) + r.gap + Quote(r.version), r.rest);
        BreaksJoined(r.before + Quote(r.name) + r.gap + Quote(r.version) + r.rest, r.blank);
    }
  }

  lemma SegmentBreaks(kind: Manifest, p: Segment, want: map<string, string>)
    requires GoodPins(kind, want) && (p.Entry? && kind == GoMod ==> p.r.blank == "")
    ensures Breaks(SegmentText(kind, SegmentMoved(p, want))) <= Breaks(SegmentText(kind, p))
    ensures Breaks(SegmentText(kind, SegmentMoved(p, want))) == Breaks(SegmentText(kind, p)) <==> KeepsLines(p, want)
  {
    hide Breaks, Text, Newer;
    if p.Entry? && Moves(PinOf(p.r), want) {
      TextBreaks(kind, p.r);
      TextBreaks(kind, Moved(p.r, want));
      NoBreaks(p.r.version);
      NoBreaks(p.r.blank);
      NoBreaks(want[p.r.name]);
      NoBreaks("");
    }
  }

  lemma {:induction false} GoEntriesEndSolid(s: string, start: bool)
    ensures forall k :: 0 <= k < |Segments(GoMod, s, start)| ==>
              (Segments(GoMod, s, start)[k].Entry? ==> Segments(GoMod, s, start)[k].r.blank == "")
    decreases |s|
  {
    if s != "" {
      hide Segments;
      SegmentsStep(GoMod, s, start);
      if start && MatchGo(s).Some? {
        hide MatchGo, GoText;
        var r := MatchGo(s).value;
        GoEntriesEndSolid(Remaining(GoMod, s, r), GoText(r)[|GoText(r)| - 1] == '\n');
      } else {
        hide MatchGo;
        GoEntriesEndSolid(s[1..], s[0] == '\n');
      }
    }
  }

  lemma AllKeepStep(p: Segment, rest: seq<Segment>, want: map<string, string>)
    ensures (forall k :: 0 <= k < |[p] + rest| ==> KeepsLines(([p] + rest)[k], want))
            <==> KeepsLines(p, want) && forall k :: 0 <= k < |rest| ==> KeepsLines(rest[k], want)
  {
    hide KeepsLines;
    assert forall k :: 0 <= k < |rest| ==> ([p] + rest)[k + 1] == rest[k];
    assert ([p] + rest)[0] == p;
  }

  lemma {:induction false} PrintedBreaks(kind: Manifest, segments: seq<Segment>, want: map<string, string>)
    requires GoodPins(kind, want)
    requires forall k :: 0 <= k < |segments| && segments[k].Entry? && kind == GoMod ==> segments[k].r.blank == ""
    ensures Breaks(Printed(kind, AllMoved(segments, want))) <= Breaks(Printed(kind, segments))
    ensures Breaks(Printed(kind, AllMoved(segments, want))) == Breaks(Printed(kind, segments))
            <==> forall k :: 0 <= k < |segments| ==> KeepsLines(segments[k], want)
  {
    hide Breaks, KeepsLines, GoodPins, SegmentText;
    if segments == [] {
      assert AllMoved(segments, want) == [];
    } else {
      var p, rest := segments[0], segments[1..];
      assert segments == [p] + rest;
      PrintedBreaks(kind, rest, want);
      SegmentBreaks(kind, p, want);
      FoldStep(kind, p, rest, want);
      FoldStep(kind, SegmentMoved(p, want), AllMoved(rest, want), want);
      BreaksJoined(SegmentText(kind, p), Printed(kind, rest));
      BreaksJoined(SegmentText(kind, SegmentMoved(p, want)), Printed(kind, AllMoved(rest, want)));
      AllKeepStep(p, rest, want);
    }
  }

  /** Every piece of the text, and so every line, stands on the line it stood on. */
  ghost predicate StaysOnLine(kind: Manifest, segments: seq<Segment>, want: map<string, string>) {
    forall n :: 0 <= n <= |segments| ==>
      Breaks(Printed(kind, AllMoved(segments[..n], want))) == Breaks(Printed(kind, segments[..n]))
  }

  /**
   A bump keeps every line in its place if and only if no package.json entry it moves is followed by blank
   lines or blanks to the end of the text that hold a line break, nor has one in its version; a bump of go.mod
   always does.
   */
  lemma LinesKeptIff(kind: Manifest, source: string, want: map<string, string>)
    requires GoodPins(kind, want)
    ensures var segments := Segments(kind, source, true);
            && (StaysOnLine(kind, segments, want)
                <==> forall k :: 0 <= k < |segments| ==> KeepsLines(segments[k], want))
            && (|Split('\n', Bumped(kind, source, want))| == |Split('\n', source)|
                <==> forall k :: 0 <= k < |segments| ==> KeepsLines(segments[k], want))
            && |Split('\n', Bumped(kind, source, want))| <= |Split('\n', source)|
  {
    hide Segments, Printed, AllMoved, Breaks, KeepsLines, Split, GoodPins;
    var segments := Segments(kind, source, true);
    if kind == GoMod { GoEntriesEndSolid(source, true); }
    forall n | 0 <= n <= |segments|
      ensures Breaks(Printed(kind, AllMoved(segments[..n], want))) == Breaks(Printed(kind, segments[..n]))
              <==> forall k :: 0 <= k < n ==> KeepsLines(segments[k], want)
    {
      PrintedBreaks(kind, segments[..n], want);
    }
    assert segments[..|segments|] == segments;
    PrintedBreaks(kind, segments, want);
    SegmentsPrinted(kind, source, true);
    LinesAreBreaks(source);
    LinesAreBreaks(Bumped(kind, source, want));
  }

  // ----- requirements ahead of what is shipped -----

  /** The requirements a project holds at a later version than nise ships. */
  datatype Ahead = Ahead(manifest: Manifest, name: string, version: string, pinned: string)

  predicate IsAhead(d: Dependency, want: map<string, string>) {
    d.name in want && d.version != want[d.name] && Newer(d.version, want[d.name])
  }

  function AheadNotes(kind: Manifest, held: seq<Dependency>, want: map<string, string>): seq<Ahead> {
    if held == [] then []
    else
      var last := held[|held| - 1];
      AheadNotes(kind, held[..|held| - 1], want)
      + if IsAhead(last, want) then [Ahead(kind, last.name, last.version, want[last.name])] else []
  }

  method AheadOfNise(kind: Manifest, source: string, pins: seq<Dependency>) returns (notes: seq<Ahead>)
    ensures notes == AheadNotes(kind, RequiredIn(kind, source), Wanted(pins))
  {
    hide Newer, Wanted, RequiredIn;
    var have := WantedVersions(pins);
    var held := RequiredIn(kind, source);
    notes := [];
    for i := 0 to |held|
      invariant notes == AheadNotes(kind, held[..i], have)
    {
      assert held[..i + 1][..i] == held[..i];
      var d := held[i];
      if d.name !in have || d.version == have[d.name] || !Newer(d.version, have[d.name]) {
        continue;
      }
      notes := notes + [Ahead(kind, d.name, d.version, have[d.name])];
    }
    assert held[..|held|] == held;
  }

  /**
   A pinned requirement is moved or named as ahead, never both; it is neither exactly when one of the two
   versions cannot be read or they are the same one.
   */
  lemma MovedAheadOrEqual(d: Dependency, want: map<string, string>)
    requires d.name in want
    ensures !(Moves(d, want) && IsAhead(d, want))
    ensures !Moves(d, want) && !IsAhead(d, want)
            <==> Parsed(d.version).None? || Parsed(want[d.name]).None? || Parsed(d.version) == Parsed(want[d.name])
  {
    hide Parsed;
    NewerIsStrictOrder(d.version, want[d.name], d.version);
  }

  // ----- two package.json texts -----

  const RANGED := Requirement("    ", "svelte", ": ", "^5.0.0", ",", "")
  const RANGED_LINE := "    \"svelte\": \"^5.0.0\","

  lemma ExampleGap()
    ensures IsGap(": ") && '"' !in ": "
  {
    RunIs(IsSpace, ": ", 0);
  }

  lemma AtTheEnd()
    ensures Split('"', "") == [""] && Blanks("", true) == Some(0)
  {
    SplitFree('"', "");
  }

  lemma RangedText()
    ensures JSONText(RANGED) == RANGED_LINE
  {
    assert Quote("svelte") == "\"svelte\"" && Quote("^5.0.0") == "\"^5.0.0\"";
  }

  lemma RangedRequired()
    ensures RequiredIn(PackageJSON, RANGED_LINE) == [Dependency("svelte", "^5.0.0")]
  {
    hide IsGap, Segments, Split, Blanks, JSONText;
    ExampleGap();
    AtTheEnd();
    RangedText();
    assert RANGED_LINE + "" == RANGED_LINE && "" + "" == "";
    MatchedHead(PackageJSON, RANGED, "");
    BumpFromNothing(PackageJSON, false, map[]);
  }

  /** A range in package.json is left alone without a note, though the code's own comment promises one. */
  lemma RangeUnnoted()
    ensures RequiredIn(PackageJSON, RANGED_LINE) == [Dependency("svelte", "^5.0.0")]
    ensures var want := map["svelte" := "5.1.0"];
            Bumped(PackageJSON, RANGED_LINE, want) == RANGED_LINE
            && AheadNotes(PackageJSON, RequiredIn(PackageJSON, RANGED_LINE), want) == []
  {
    hide RequiredIn, Parsed, Bumped, Changes, Moves, IsAhead;
    var want := map["svelte" := "5.1.0"];
    var d := Dependency("svelte", "^5.0.0");
    RangedRequired();
    RangeUnreadable("^5.0.0");
    MovedAheadOrEqual(d, want);
    NothingMoves(PackageJSON, [d], want);
    BumpedUnchanged(PackageJSON, RANGED_LINE, want);
    assert [d][..0] == [];
  }

  const BLANK_BEHIND := Requirement("    ", "svelte", ": ", "5.0.0", ",", "\n")
  const LAST_ENTRY := Requirement("\n    ", "vite", ": ", "6.0.0", "", "")
  const SPACED := "    \"svelte\": \"5.0.0\",\n\n    \"vite\": \"6.0.0\""

  lemma LastEntryText()
    ensures JSONText(LAST_ENTRY) == "\n    \"vite\": \"6.0.0\"" && JSONForm(LAST_ENTRY)
  {
    hide IsGap;
    ExampleGap();
    assert Quote("vite") == "\"vite\"" && Quote("6.0.0") == "\"6.0.0\"";
  }

  lemma BlankBehindText()
    ensures JSONText(BLANK_BEHIND) == "    \"svelte\": \"5.0.0\",\n" && JSONForm(BLANK_BEHIND)
  {
    hide IsGap;
    ExampleGap();
    assert Quote("svelte") == "\"svelte\"" && Quote("5.0.0") == "\"5.0.0\"";
  }

  lemma SvelteMovedText()
    ensures JSONText(BLANK_BEHIND.(version := "5.1.0", blank := "")) == "    \"svelte\": \"5.1.0\","
  {
    assert Quote("svelte") == "\"svelte\"" && Quote("5.1.0") == "\"5.1.0\"";
  }

  lemma LaterPatch()
    ensures Newer("5.1.0", "5.0.0")
  {
    hide Parsed;
    DigitVersion('5', '1', '0');
    DigitVersion('5', '0', '0');
  }

  lemma SvelteMoves()
    ensures var want := map["svelte" := "5.1.0"];
            && Moved(BLANK_BEHIND, want) == BLANK_BEHIND.(version := "5.1.0", blank := "")
            && Moved(LAST_ENTRY, want) == LAST_ENTRY
  {
    hide Newer;
    LaterPatch();
  }

  lemma TwoSegments(p: Segment, q: Segment, want: map<string, string>)
    ensures Printed(PackageJSON, AllMoved([p, q], want))
            == SegmentText(PackageJSON, SegmentMoved(p, want)) + SegmentText(PackageJSON, SegmentMoved(q, want))
    ensures Required([p, q]) == SegmentPins(p) + SegmentPins(q)
  {
    hide SegmentText, SegmentMoved, SegmentPins;
    assert AllMoved([p, q], want) == [SegmentMoved(p, want), SegmentMoved(q, want)];
    assert [p, q][1..] == [q] && [q][1..] == [];
    var a, b := SegmentMoved(p, want), SegmentMoved(q, want);
    assert [a, b][1..] == [b] && [b][1..] == [];
    assert Printed(PackageJSON, []) == "" && Required([]) == [];
    assert Printed(PackageJSON, [b]) == SegmentText(PackageJSON, b);
  }

  /** The blank line is the entry's: the white space in front of the next one starts at its own line break. */
  lemma BlankLineTaken()
    ensures TakenBefore("\n", JSONText(LAST_ENTRY))
  {
    hide Split, JSONText, IsGap;
    LastEntryText();
    EntryParts(LAST_ENTRY, "");
    AtTheEnd();
    assert JSONText(LAST_ENTRY) + "" == JSONText(LAST_ENTRY);
    var tail := "\n\n    ";
    assert "\n" + "\n    " == tail;
    RunIs(IsSpace, tail, 6);
    assert tail[..6] == tail && '\n' !in tail[2..];
  }

  lemma LastTaken()
    ensures TakenBefore("", "")
  {
    AtTheEnd();
    assert "" + "" == "";
  }

  lemma SpacedSegments()
    ensures Segments(PackageJSON, SPACED, true) == [Entry(BLANK_BEHIND), Entry(LAST_ENTRY)]
  {
    hide Segments, JSONText, JSONForm, Split, TakenBefore;
    LastEntryText();
    BlankBehindText();
    BlankLineTaken();
    var after := JSONText(LAST_ENTRY);
    assert SPACED == JSONText(BLANK_BEHIND) + after;
    MatchedHead(PackageJSON, BLANK_BEHIND, after);
    LastTaken();
    MatchedHead(PackageJSON, LAST_ENTRY, "");
    assert after + "" == after;
    BumpFromNothing(PackageJSON, false, map[]);
  }

  /** A blank line behind an entry that is moved is lost, though all formatting is meant to be left alone. */
  lemma BlankLineLost()
    ensures Bumped(PackageJSON, SPACED, map["svelte" := "5.1.0"])
            == "    \"svelte\": \"5.1.0\",\n    \"vite\": \"6.0.0\""
    ensures RequiredIn(PackageJSON, SPACED) == [Dependency("svelte", "5.0.0"), Dependency("vite", "6.0.0")]
  {
    hide Segments, JSONText, Moved, Printed, AllMoved, Required;
    var want := map["svelte" := "5.1.0"];
    SpacedSegments();
    SvelteMoves();
    SvelteMovedText();
    LastEntryText();
    TwoSegments(Entry(BLANK_BEHIND), Entry(LAST_ENTRY), want);
  }
}
