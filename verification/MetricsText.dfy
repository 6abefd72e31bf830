/**
 The whole exposition document (WriteText in runtime/observability/expose.go): families in
 name order, series in key order, and what a reader of the text can tell. How a number is
 formatted is a parameter; formatting is taken to be injective and free of newlines.
 */
module MetricsText {
  import opened Pigeonhole
  import opened Sorting
  import opened Separated
  import opened Exposition
  import opened SeriesTables

  datatype Kind = Counter | Gauge | SampledGauge | Histogram

  /**
   What one series holds: a number, a number sampled at exposition together with the label
   values it was registered under, or a histogram's bucket counts, total count and sum.
   */
  datatype Point<V> =
    | Single(value: V)
    | Sampled(values: seq<string>, value: V)
    | Distribution(counts: seq<V>, total: V, sum: V)

  /** One Vec; buckets are the bounds shared by all its series. */
  datatype Family<V> = Family(
    kind: Kind, name: string, help: string, labelNames: seq<string>, buckets: seq<V>, series: map<string, Point<V>>)

  function KindName(kind: Kind): string {
    match kind
    case Counter => "counter"
    case Gauge => "gauge"
    case SampledGauge => "gauge"
    case Histogram => "histogram"
  }

  /** The keys the combinations of that width have. */
  predicate LegalKey(key: string, labels: nat) {
    if labels == 0 then key == "" else |Values(key, labels)| >= labels
  }

  /** The point is one the table of a Vec of this kind can hold under the key. */
  predicate Holdable<V>(f: Family<V>, key: string, p: Point<V>) {
    && LegalKey(key, |f.labelNames|)
    && match f.kind
       case Counter => p.Single?
       case Gauge => p.Single?
       case SampledGauge => p.Sampled? && |p.values| == |f.labelNames| && key == Key(p.values)
       case Histogram => p.Distribution? && |p.counts| == |f.buckets|
  }

  predicate Legal<V>(f: Family<V>) {
    forall key :: key in f.series ==> Holdable(f, key, f.series[key])
  }

  /** The names are ones a reader can tell from what is around them; nothing checks this at registration. */
  predicate WellNamed<V>(f: Family<V>) {
    LegalName(f.name) && forall n :: n in f.labelNames ==> LegalLabel(n)
  }

  ghost predicate LegalFormat<V(!new)>(format: V -> string) {
    && (forall v :: '\n' !in format(v))
    && (forall v, w :: format(v) == format(w) ==> v == w)
  }

  // ----- what is written -----

  /** The pairs writeSample writes: the i-th name with the i-th value, surplus values left over. */
  function Pairs(names: seq<string>, values: seq<string>): (r: seq<(string, string)>)
    requires |names| <= |values|
    ensures |r| == |names|
    ensures forall i :: 0 <= i < |r| ==> r[i] == (names[i], values[i])
  {
    seq(|names|, i requires 0 <= i < |names| => (names[i], values[i]))
  }

  /** The values handed to writeSample: a sampled gauge's own, and otherwise what the key splits into. */
  function Labels<V>(f: Family<V>, key: string, p: Point<V>): (values: seq<string>)
    requires Holdable(f, key, p)
    ensures |values| >= |f.labelNames|
  {
    if p.Sampled? then p.values else Values(key, |f.labelNames|)
  }

  function Bound<V>(format: V -> string, f: Family<V>, i: nat): string {
    if i < |f.buckets| then format(f.buckets[i]) else "+Inf"
  }

  function BucketLine<V>(format: V -> string, f: Family<V>, values: seq<string>, i: nat, count: V): Line
    requires |values| >= |f.labelNames|
  {
    Sample(f.name + "_bucket", Pairs(f.labelNames + ["le"], values + [Bound(format, f, i)]), format(count))
  }

  /** The bucket lines of one histogram series, from bucket i on. */
  function BucketLines<V>(format: V -> string, f: Family<V>, values: seq<string>, counts: seq<V>,
                          i: nat): (r: seq<Line>)
    requires |values| >= |f.labelNames| && |counts| == |f.buckets| && i <= |counts|
    ensures |r| == |counts| - i
    ensures forall k :: 0 <= k < |r| ==> r[k] == BucketLine(format, f, values, i + k, counts[i + k])
    decreases |counts| - i
  {
    if i == |counts| then []
    else [BucketLine(format, f, values, i, counts[i])] + BucketLines(format, f, values, counts, i + 1)
  }

  /** The lines of one series. */
  function PointLines<V>(format: V -> string, f: Family<V>, key: string, p: Point<V>): seq<Line>
    requires Holdable(f, key, p)
  {
    var values := Labels(f, key, p);
    match p
    case Single(v) => [Sample(f.name, Pairs(f.labelNames, values), format(v))]
    case Sampled(_, v) => [Sample(f.name, Pairs(f.labelNames, values), format(v))]
    case Distribution(counts, total, sum) =>
      BucketLines(format, f, values, counts, 0)
      + [BucketLine(format, f, values, |counts|, total),
         Sample(f.name + "_sum", Pairs(f.labelNames, values), format(sum)),
         Sample(f.name + "_count", Pairs(f.labelNames, values), format(total))]
  }

  function SeriesLines<V>(format: V -> string, f: Family<V>, keys: seq<string>): seq<Line>
    requires Legal(f) && forall key :: key in keys ==> key in f.series
  {
    if keys == [] then []
    else PointLines(format, f, keys[0], f.series[keys[0]]) + SeriesLines(format, f, keys[1..])
  }

  function FamilyLines<V>(format: V -> string, f: Family<V>, keys: seq<string>): seq<Line>
    requires Legal(f) && forall key :: key in keys ==> key in f.series
  {
    [Help(f.name, f.help), Type(f.name, KindName(f.kind))] + SeriesLines(format, f, keys)
  }

  /** The lines of the families in the order given, each with its own keys. */
  function DocumentLines<V>(format: V -> string, fs: seq<Family<V>>, keys: seq<seq<string>>): seq<Line>
    requires |keys| == |fs|
    requires forall i :: 0 <= i < |fs| ==> Legal(fs[i]) && forall key :: key in keys[i] ==> key in fs[i].series
  {
    if fs == [] then [] else FamilyLines(format, fs[0], keys[0]) + DocumentLines(format, fs[1..], keys[1..])
  }

  /** The keys of a map in ascending order. */
  ghost predicate SortedKeys<X>(keys: seq<string>, m: map<string, X>) {
    Ascending(CharRank, keys) && forall key :: key in keys <==> key in m
  }

  predicate AllWellNamed<V>(fs: seq<Family<V>>) {
    forall i :: 0 <= i < |fs| ==> WellNamed(fs[i])
  }

  ghost predicate LegalDocument<V>(fs: seq<Family<V>>, keys: seq<seq<string>>) {
    |keys| == |fs| && forall i :: 0 <= i < |fs| ==> Legal(fs[i]) && SortedKeys(keys[i], fs[i].series)
  }

  // ----- what a series shows -----

  /** The reading of one series: its label values, its bucket bounds as printed, and its numbers. */
  datatype Reading<V> = Reading(labels: seq<string>, bounds: seq<string>, point: Point<V>)

  /** A sampled gauge and a set one print alike. */
  function Plain<V>(p: Point<V>): Point<V> {
    if p.Sampled? then Single(p.value) else p
  }

  predicate Readable<V>(r: Reading<V>, labels: nat) {
    && |r.labels| == labels && !r.point.Sampled?
    && (r.point.Distribution? ==> |r.bounds| == |r.point.counts| + 1)
    && (r.point.Single? ==> r.bounds == [])
  }

  /**
   Of values too many, the lines show one for each label, and a histogram's bucket lines the next one as the
   bound.
   */
  function ReadingOf<V>(format: V -> string, f: Family<V>, key: string, p: Point<V>): (r: Reading<V>)
    requires Holdable(f, key, p)
    ensures Readable(r, |f.labelNames|)
  {
    var values, n := Labels(f, key, p), |f.labelNames|;
    Reading(
      values[..n],
      if p.Distribution? then seq(|f.buckets| + 1, i requires 0 <= i => (values + [Bound(format, f, i)])[n]) else [],
      Plain(p))
  }

  function ReadingSize<V>(r: Reading<V>): nat {
    if r.point.Distribution? then |r.point.counts| + 3 else 1
  }

  /** Line i of the lines a reading is printed as. */
  function ReadingLine<V>(format: V -> string, name: string, names: seq<string>, r: Reading<V>, i: nat): Line
    requires Readable(r, |names|) && i < ReadingSize(r)
  {
    var pairs := Pairs(names, r.labels);
    match r.point
    case Single(v) => Sample(name, pairs, format(v))
    case Distribution(counts, total, sum) =>
      if i <= |counts| then
        Sample(name + "_bucket", pairs + [("le", r.bounds[i])], format(if i < |counts| then counts[i] else total))
      else if i == |counts| + 1 then Sample(name + "_sum", pairs, format(sum))
      else Sample(name + "_count", pairs, format(total))
  }

  lemma PairsSplit(names: seq<string>, values: seq<string>, bound: string)
    requires |names| <= |values|
    ensures Pairs(names, values) == Pairs(names, values[..|names|])
    ensures Pairs(names + ["le"], values + [bound])
            == Pairs(names, values[..|names|]) + [("le", (values + [bound])[|names|])]
  {
  }

  lemma LineShows<V>(format: V -> string, f: Family<V>, key: string, p: Point<V>, i: nat)
    requires Holdable(f, key, p) && i < ReadingSize(ReadingOf(format, f, key, p))
    ensures i < |PointLines(format, f, key, p)|
    ensures PointLines(format, f, key, p)[i]
            == ReadingLine(format, f.name, f.labelNames, ReadingOf(format, f, key, p), i)
  {
    var values := Labels(f, key, p);
    PairsSplit(f.labelNames, values, Bound(format, f, i));
  }

  /** The lines of a series are those of its reading: nothing else about it is printed. */
  lemma LinesShowReading<V>(format: V -> string, f: Family<V>, key: string, p: Point<V>)
    requires Holdable(f, key, p)
    ensures var r, lines := ReadingOf(format, f, key, p), PointLines(format, f, key, p);
            && |lines| == ReadingSize(r)
            && forall i :: 0 <= i < |lines| ==> lines[i] == ReadingLine(format, f.name, f.labelNames, r, i)
  {
    var r, lines := ReadingOf(format, f, key, p), PointLines(format, f, key, p);
    assert |lines| == ReadingSize(r);
    hide *;
    forall i | 0 <= i < |lines| ensures lines[i] == ReadingLine(format, f.name, f.labelNames, r, i) {
      LineShows(format, f, key, p, i);
    }
  }

  /** The lines of a histogram with one bucket and no labels, and of a counter with one label. */
  lemma SeriesSpelled<V>(format: V -> string, h: Family<V>, c: Family<V>, count: V, total: V, sum: V, value: string)
    requires h.kind == Histogram && h.labelNames == [] && |h.buckets| == 1
    requires c.kind == Counter && |c.labelNames| == 1 && LABEL_SEPARATOR !in value
    ensures Holdable(h, "", Distribution([count], total, sum)) && Holdable(c, value, Single(total))
    ensures PointLines(format, h, "", Distribution([count], total, sum))
            == [Sample(h.name + "_bucket", [("le", format(h.buckets[0]))], format(count)),
                Sample(h.name + "_bucket", [("le", "+Inf")], format(total)),
                Sample(h.name + "_sum", [], format(sum)), Sample(h.name + "_count", [], format(total))]
    ensures PointLines(format, c, value, Single(total)) == [Sample(c.name, [(c.labelNames[0], value)], format(total))]
  {
    SplitFree(LABEL_SEPARATOR, value);
    var counts := [count];
    var b := BucketLines(format, h, [], counts, 0);
    assert b == [b[0]];
    var none: seq<string> := [];
    hide Holdable, BucketLines;
    assert Pairs(none, []) == [];
    assert Pairs(none + ["le"], none + [Bound(format, h, 0)]) == [("le", format(h.buckets[0]))];
    assert Pairs(none + ["le"], none + [Bound(format, h, 1)]) == [("le", "+Inf")];
    assert Pairs(c.labelNames, [value]) == [(c.labelNames[0], value)];
  }

  lemma PairsEqual(names: seq<string>, values: seq<string>, names': seq<string>, values': seq<string>)
    requires |names| == |values| && |names'| == |values'| && Pairs(names, values) == Pairs(names', values')
    ensures names == names' && values == values'
  {
    var a, b := Pairs(names, values), Pairs(names', values');
    assert |names| == |names'|;
    forall i | 0 <= i < |names| ensures names[i] == names'[i] && values[i] == values'[i] {
      assert a[i] == b[i];
    }
  }

  /** The names a histogram's lines are written under. */
  lemma SuffixesDiffer(name: string)
    ensures name + "_bucket" != name + "_sum" && name + "_sum" != name + "_count" && name + "_bucket" != name + "_count"
  {
    assert (name + "_bucket")[|name| + 1] == 'b' && (name + "_sum")[|name| + 1] == 's'
           && (name + "_count")[|name| + 1] == 'c';
  }

  /** The same lines under one name, as far as the shorter of two readings goes. */
  ghost predicate SameLines<V>(format: V -> string, name: string, names: seq<string>, r: Reading<V>,
                               names': seq<string>, r': Reading<V>)
    requires Readable(r, |names|) && Readable(r', |names'|)
  {
    forall i :: 0 <= i < ReadingSize(r) && i < ReadingSize(r') ==>
      ReadingLine(format, name, names, r, i) == ReadingLine(format, name, names', r', i)
  }

  lemma SameCounts<V>(format: V -> string, name: string, names: seq<string>, r: Reading<V>, names': seq<string>,
                      r': Reading<V>)
    requires Readable(r, |names|) && Readable(r', |names'|) && SameLines(format, name, names, r, names', r')
    requires r.point.Distribution? && r'.point.Distribution?
    ensures |r.point.counts| == |r'.point.counts|
  {
    SuffixesDiffer(name);
    var m, m' := |r.point.counts|, |r'.point.counts|;
    var i := if m < m' then m + 1 else m' + 1;
    assert ReadingLine(format, name, names, r, i) == ReadingLine(format, name, names', r', i);
  }

  lemma PointEqual<V(!new)>(format: V -> string, name: string, names: seq<string>, r: Reading<V>,
                            names': seq<string>, r': Reading<V>, i: nat)
    requires LegalFormat(format) && Readable(r, |names|) && Readable(r', |names'|)
    requires r.point.Distribution? && r'.point.Distribution? && |r.point.counts| == |r'.point.counts| && i < |r.bounds|
    requires ReadingLine(format, name, names, r, i) == ReadingLine(format, name, names', r', i)
    ensures r.bounds[i] == r'.bounds[i]
    ensures if i < |r.point.counts| then r.point.counts[i] == r'.point.counts[i] else r.point.total == r'.point.total
  {
    var a, b := Pairs(names, r.labels) + [("le", r.bounds[i])], Pairs(names', r'.labels) + [("le", r'.bounds[i])];
    assert a == b;
    assert a[|a| - 1] == b[|b| - 1];
  }

  /** Two readings printed alike are the same. */
  lemma ReadingDetermined<V(!new)>(format: V -> string, name: string, names: seq<string>, r: Reading<V>,
                                   names': seq<string>, r': Reading<V>)
    requires LegalFormat(format) && Readable(r, |names|) && Readable(r', |names'|)
    requires r.point.Single? <==> r'.point.Single?
    requires SameLines(format, name, names, r, names', r')
    ensures names == names' && r == r'
  {
    if r.point.Single? {
      assert ReadingLine(format, name, names, r, 0) == ReadingLine(format, name, names', r', 0);
      PairsEqual(names, r.labels, names', r'.labels);
    } else {
      SameCounts(format, name, names, r, names', r');
      var n := |r.point.counts|;
      assert ReadingLine(format, name, names, r, n + 1) == ReadingLine(format, name, names', r', n + 1);
      PairsEqual(names, r.labels, names', r'.labels);
      forall i | 0 <= i < |r.bounds|
        ensures r.bounds[i] == r'.bounds[i]
        ensures if i < n then r.point.counts[i] == r'.point.counts[i] else r.point.total == r'.point.total
      {
        PointEqual(format, name, names, r, names', r', i);
      }
      assert r.point.counts == r'.point.counts;
      assert r.point.total == r'.point.total by {
        PointEqual(format, name, names, r, names', r', n);
      }
    }
  }

  lemma SamePlain<V>(f: Family<V>, key: string, p: Point<V>, g: Family<V>, key': string, p': Point<V>)
    requires KindName(f.kind) == KindName(g.kind) && Holdable(f, key, p) && Holdable(g, key', p')
    ensures Plain(p).Single? <==> Plain(p').Single?
  {
    assert KindName(Counter)[0] == 'c' && KindName(Gauge)[0] == 'g' && KindName(Histogram)[0] == 'h';
  }

  lemma SharedLines<V>(format: V -> string, name: string, names: seq<string>, r: Reading<V>, a: seq<Line>,
                       rest: seq<Line>,
                       names': seq<string>, r': Reading<V>, b: seq<Line>, rest': seq<Line>)
    requires Readable(r, |names|) && Readable(r', |names'|) && a + rest == b + rest'
    requires |a| == ReadingSize(r) && forall i :: 0 <= i < |a| ==> a[i] == ReadingLine(format, name, names, r, i)
    requires |b| == ReadingSize(r') && forall i :: 0 <= i < |b| ==> b[i] == ReadingLine(format, name, names', r', i)
    ensures SameLines(format, name, names, r, names', r')
  {
    hide ReadingLine;
    forall i | 0 <= i < |a| && i < |b|
      ensures ReadingLine(format, name, names, r, i) == ReadingLine(format, name, names', r', i)
    {
      assert (a + rest)[i] == a[i] && (b + rest')[i] == b[i];
    }
  }

  /** The lines of one series, whatever follows them, determine its reading and where they end. */
  lemma SeriesDetermined<V(!new)>(format: V -> string, f: Family<V>, key: string, p: Point<V>, rest: seq<Line>,
                                  g: Family<V>, key': string, p': Point<V>, rest': seq<Line>)
    requires LegalFormat(format) && f.name == g.name && KindName(f.kind) == KindName(g.kind)
    requires Holdable(f, key, p) && Holdable(g, key', p')
    requires PointLines(format, f, key, p) + rest == PointLines(format, g, key', p') + rest'
    ensures ReadingOf(format, f, key, p) == ReadingOf(format, g, key', p')
    ensures f.labelNames == g.labelNames && rest == rest'
  {
    var a, b := PointLines(format, f, key, p), PointLines(format, g, key', p');
    var r, r' := ReadingOf(format, f, key, p), ReadingOf(format, g, key', p');
    assert r.point.Single? <==> r'.point.Single? by {
      SamePlain(f, key, p, g, key', p');
    }
    hide *;
    LinesShowReading(format, f, key, p);
    LinesShowReading(format, g, key', p');
    assert SameLines(format, f.name, f.labelNames, r, g.labelNames, r') by {
      SharedLines(format, f.name, f.labelNames, r, a, rest, g.labelNames, r', b, rest');
    }
    ReadingDetermined(format, f.name, f.labelNames, r, g.labelNames, r');
    assert a == (a + rest)[..|a|] && b == (b + rest')[..|b|];
    assert rest == (a + rest)[|a|..] && rest' == (b + rest')[|b|..];
  }

  // ----- which series print alike -----

  /** Joining the last parts first changes nothing. */
  lemma {:induction false} RestJoined(parts: seq<string>, n: nat)
    requires n < |parts|
    ensures Key(parts[..n] + [Key(parts[n..])]) == Key(parts)
  {
    if n == 0 {
      assert parts[..0] + [Key(parts[0..])] == [Key(parts)];
    } else {
      RestJoined(parts[1..], n - 1);
      var values := parts[..n] + [Key(parts[n..])];
      assert values[1..] == parts[1..][..n - 1] + [Key(parts[1..][n - 1..])] by {
        assert parts[1..][n - 1..] == parts[n..];
      }
    }
  }

  /** The legal keys are exactly the keys of the combinations of that width. */
  lemma LegalKeyIff(key: string, labels: nat)
    ensures LegalKey(key, labels) <==> exists values :: |values| == labels && Key(values) == key
  {
    if labels == 0 {
      assert Key([]) == "";
    } else {
      forall values | |values| == labels && Key(values) == key ensures LegalKey(key, labels) {
        PartsOfJoined(values);
      }
      if LegalKey(key, labels) {
        var parts := Values(key, labels);
        JoinSplit(LABEL_SEPARATOR, key);
        RestJoined(parts, labels - 1);
        var values := parts[..labels - 1] + [Key(parts[labels - 1..])];
        assert |values| == labels && Key(values) == key;
      }
    }
  }

  /** The combination shown for a series looked up under these values: the first parts of its key. */
  function Displayed(values: seq<string>): (w: seq<string>)
    ensures |w| == |values|
  {
    if values == [] then [] else PartsOfJoined(values); Split(LABEL_SEPARATOR, Key(values))[..|values|]
  }

  predicate Unseparated(values: seq<string>) {
    forall v :: v in values ==> LABEL_SEPARATOR !in v
  }

  /**
   What is shown is a combination any series could have, free of separators. It is the one
   looked up exactly when that is free of them, and otherwise that of another key.
   */
  lemma DisplayedIsAnother(values: seq<string>)
    ensures Unseparated(Displayed(values))
    ensures Displayed(values) == values <==> Unseparated(values)
    ensures Key(Displayed(values)) == Key(values) <==> Unseparated(values)
  {
    if values != [] {
      var parts, w := Split(LABEL_SEPARATOR, Key(values)), Displayed(values);
      SplitParts(LABEL_SEPARATOR, Key(values));
      PartsOfJoined(values);
      assert forall v :: v in w ==> v in parts;
      SplitJoin(LABEL_SEPARATOR, w);
      if Unseparated(values) {
        SplitJoin(LABEL_SEPARATOR, values);
        assert w == values;
      }
    }
  }

  lemma KeyIsLegal(values: seq<string>)
    ensures LegalKey(Key(values), |values|)
    ensures Values(Key(values), |values|)[..|values|] == Displayed(values)
  {
    if values != [] {
      PartsOfJoined(values);
    }
  }

  /**
   Which series of a counter, or of a gauge that is set, print alike: those whose combinations
   show alike. With one number in them, the series of a combination and that of the
   separator-free combination it shows print the same line, and have different keys exactly
   when a value holds the separator.
   */
  lemma SeparatorMergesSeries<V(!new)>(format: V -> string, f: Family<V>, a: seq<string>, b: seq<string>, p: Point<V>)
    requires f.kind in {Counter, Gauge} && p.Single? && |a| == |b| == |f.labelNames|
    ensures Holdable(f, Key(a), p) && Holdable(f, Key(b), p) && Holdable(f, Key(Displayed(a)), p)
    ensures PointLines(format, f, Key(a), p) == PointLines(format, f, Key(b), p) <==> Displayed(a) == Displayed(b)
    ensures PointLines(format, f, Key(a), p) == PointLines(format, f, Key(Displayed(a)), p)
    ensures Key(Displayed(a)) != Key(a) <==> exists v :: v in a && LABEL_SEPARATOR in v
  {
    var w := Displayed(a);
    KeyIsLegal(a);
    KeyIsLegal(b);
    KeyIsLegal(w);
    DisplayedIsAnother(a);
    DisplayedIsAnother(w);
    PairsSplit(f.labelNames, Labels(f, Key(a), p), "");
    PairsSplit(f.labelNames, Labels(f, Key(b), p), "");
    PairsSplit(f.labelNames, Labels(f, Key(w), p), "");
    if PointLines(format, f, Key(a), p) == PointLines(format, f, Key(b), p) {
      assert PointLines(format, f, Key(a), p)[0] == PointLines(format, f, Key(b), p)[0];
      PairsEqual(f.labelNames, Displayed(a), f.labelNames, Displayed(b));
    }
  }

  /** Two literals: a series of its own that reads as another's. */
  lemma MergedExample()
    ensures var a, b := ["x" + [LABEL_SEPARATOR] + "y"], ["x"];
            Key(a) != Key(b) && Displayed(a) == Displayed(b) == ["x"]
  {
    SplitFree(LABEL_SEPARATOR, "x");
    SplitAppend(LABEL_SEPARATOR, "x", "y");
    assert Key(["x"]) == "x";
  }

  /**
   A histogram's series shows the same combination, and unless that is the one looked up, every
   bucket line has the value left over in the place of its bound.
   */
  lemma SeparatorHidesBounds<V>(format: V -> string, f: Family<V>, values: seq<string>, p: Point<V>)
    requires f.kind == Histogram && p.Distribution? && |p.counts| == |f.buckets| && |values| == |f.labelNames| > 0
    ensures Holdable(f, Key(values), p)
    ensures var r, parts := ReadingOf(format, f, Key(values), p), Split(LABEL_SEPARATOR, Key(values));
            && r.labels == Displayed(values)
            && forall i :: 0 <= i <= |f.buckets| ==>
                 if Unseparated(values) then r.bounds[i] == Bound(format, f, i)
                 else |parts| > |values| && r.bounds[i] == parts[|values|]
  {
    KeyIsLegal(values);
    PartsOfJoined(values);
    if Unseparated(values) {
      SplitJoin(LABEL_SEPARATOR, values);
    }
  }

  /** Sampled gauges print the values they were registered under, so no two combinations print alike. */
  lemma SampledNeverMerge<V(!new)>(format: V -> string, f: Family<V>, a: seq<string>, b: seq<string>, v: V)
    requires f.kind == SampledGauge && |a| == |b| == |f.labelNames|
    ensures Holdable(f, Key(a), Sampled(a, v)) && Holdable(f, Key(b), Sampled(b, v))
    ensures PointLines(format, f, Key(a), Sampled(a, v)) == PointLines(format, f, Key(b), Sampled(b, v)) <==> a == b
  {
    KeyIsLegal(a);
    KeyIsLegal(b);
    if PointLines(format, f, Key(a), Sampled(a, v)) == PointLines(format, f, Key(b), Sampled(b, v)) {
      assert PointLines(format, f, Key(a), Sampled(a, v))[0] == PointLines(format, f, Key(b), Sampled(b, v))[0];
      PairsEqual(f.labelNames, a, f.labelNames, b);
    }
  }

  // ----- one family at a time -----

  /** What a family's lines show. The label names show on its series only. */
  datatype Excerpt<V> = Excerpt(kind: string, name: string, help: string, labelNames: seq<string>,
                                readings: seq<Reading<V>>)

  function Readings<V>(format: V -> string, f: Family<V>, keys: seq<string>): (r: seq<Reading<V>>)
    requires Legal(f) && forall key :: key in keys ==> key in f.series
    ensures |r| == |keys|
    ensures forall i :: 0 <= i < |keys| ==> r[i] == ReadingOf(format, f, keys[i], f.series[keys[i]])
  {
    seq(|keys|, i requires 0 <= i < |keys| => assert keys[i] in keys; ReadingOf(format, f, keys[i], f.series[keys[i]]))
  }

  function ExcerptOf<V>(format: V -> string, f: Family<V>, keys: seq<string>): Excerpt<V>
    requires Legal(f) && forall key :: key in keys ==> key in f.series
  {
    Excerpt(KindName(f.kind), f.name, f.help, if keys == [] then [] else f.labelNames, Readings(format, f, keys))
  }

  lemma SamplesOnly<V>(format: V -> string, f: Family<V>, key: string, p: Point<V>)
    requires Holdable(f, key, p)
    ensures PointLines(format, f, key, p) != []
    ensures forall i :: 0 <= i < |PointLines(format, f, key, p)| ==> PointLines(format, f, key, p)[i].Sample?
  {
  }

  /** What may follow a family in a document: nothing, or the next family's help line. */
  predicate Next(rest: seq<Line>) {
    rest == [] || rest[0].Help?
  }

  lemma SeriesStep<V>(format: V -> string, f: Family<V>, keys: seq<string>, rest: seq<Line>)
    requires Legal(f) && keys != [] && forall key :: key in keys ==> key in f.series
    ensures keys[0] in f.series && Holdable(f, keys[0], f.series[keys[0]])
    ensures forall key :: key in keys[1..] ==> key in f.series
    ensures SeriesLines(format, f, keys) + rest
            == PointLines(format, f, keys[0], f.series[keys[0]]) + (SeriesLines(format, f, keys[1..]) + rest)
    ensures Readings(format, f, keys) == [ReadingOf(format, f, keys[0], f.series[keys[0]])]
            + Readings(format, f, keys[1..])
  {
    hide PointLines, ReadingOf, Holdable;
    assert keys[0] in keys;
    assert forall key :: key in keys[1..] ==> key in keys;
  }

  lemma NotNext<V>(format: V -> string, f: Family<V>, keys: seq<string>, rest: seq<Line>)
    requires Legal(f) && keys != [] && forall key :: key in keys ==> key in f.series
    ensures var lines := SeriesLines(format, f, keys) + rest; lines != [] && lines[0].Sample?
  {
    assert keys[0] in keys;
    SamplesOnly(format, f, keys[0], f.series[keys[0]]);
    var first := PointLines(format, f, keys[0], f.series[keys[0]]);
    assert (SeriesLines(format, f, keys) + rest)[0] == first[0];
  }

  /** The samples of a family determine the readings of its series, and where they end. */
  lemma {:induction false} SamplesDetermineReadings<V(!new)>(
      format: V -> string, f: Family<V>, keys: seq<string>, rest: seq<Line>,
      g: Family<V>, keys': seq<string>, rest': seq<Line>)
    requires LegalFormat(format) && f.name == g.name && KindName(f.kind) == KindName(g.kind) && Legal(f) && Legal(g)
    requires (forall key :: key in keys ==> key in f.series) && (forall key :: key in keys' ==> key in g.series)
    requires Next(rest) && Next(rest')
    requires SeriesLines(format, f, keys) + rest == SeriesLines(format, g, keys') + rest'
    ensures Readings(format, f, keys) == Readings(format, g, keys') && rest == rest'
    ensures |keys| == |keys'| && (keys != [] ==> f.labelNames == g.labelNames)
    decreases |keys|
  {
    hide PointLines, LegalFormat, Legal, LegalKey, Holdable, KindName, ReadingOf;
    if keys == [] && keys' == [] {
      assert rest == SeriesLines(format, f, keys) + rest && rest' == SeriesLines(format, g, keys') + rest';
    } else if keys == [] {
      assert rest == SeriesLines(format, g, keys') + rest';
      NotNext(format, g, keys', rest');
    } else if keys' == [] {
      assert rest' == SeriesLines(format, f, keys) + rest;
      NotNext(format, f, keys, rest);
    } else {
      hide SeriesLines, Readings;
      var key, key' := keys[0], keys'[0];
      SeriesStep(format, f, keys, rest);
      SeriesStep(format, g, keys', rest');
      var more, more' := SeriesLines(format, f, keys[1..]) + rest, SeriesLines(format, g, keys'[1..]) + rest';
      SeriesDetermined(format, f, key, f.series[key], more, g, key', g.series[key'], more');
      SamplesDetermineReadings(format, f, keys[1..], rest, g, keys'[1..], rest');
    }
  }

  lemma HeaderDetermined<V>(
      format: V -> string, f: Family<V>, keys: seq<string>, rest: seq<Line>,
      g: Family<V>, keys': seq<string>, rest': seq<Line>)
    requires Legal(f) && Legal(g)
    requires (forall key :: key in keys ==> key in f.series) && (forall key :: key in keys' ==> key in g.series)
    requires FamilyLines(format, f, keys) + rest == FamilyLines(format, g, keys') + rest'
    ensures f.name == g.name && f.help == g.help && KindName(f.kind) == KindName(g.kind)
    ensures SeriesLines(format, f, keys) + rest == SeriesLines(format, g, keys') + rest'
  {
    hide SeriesLines, Legal, KindName;
    var a, b := FamilyLines(format, f, keys) + rest, FamilyLines(format, g, keys') + rest';
    assert a[0] == Help(f.name, f.help) && b[0] == Help(g.name, g.help);
    assert a[1] == Type(f.name, KindName(f.kind)) && b[1] == Type(g.name, KindName(g.kind));
    assert a[2..] == SeriesLines(format, f, keys) + rest && b[2..] == SeriesLines(format, g, keys') + rest';
  }

  lemma FamilyDetermined<V(!new)>(
      format: V -> string, f: Family<V>, keys: seq<string>, rest: seq<Line>,
      g: Family<V>, keys': seq<string>, rest': seq<Line>)
    requires LegalFormat(format) && Legal(f) && Legal(g)
    requires (forall key :: key in keys ==> key in f.series) && (forall key :: key in keys' ==> key in g.series)
    requires Next(rest) && Next(rest')
    requires FamilyLines(format, f, keys) + rest == FamilyLines(format, g, keys') + rest'
    ensures ExcerptOf(format, f, keys) == ExcerptOf(format, g, keys') && rest == rest'
  {
    hide FamilyLines, SeriesLines, Legal, LegalFormat, KindName, Readings;
    HeaderDetermined(format, f, keys, rest, g, keys', rest');
    SamplesDetermineReadings(format, f, keys, rest, g, keys', rest');
  }

  /** Series with the same readings under the same names print the same lines. */
  lemma {:induction false} ReadingsDetermineSamples<V>(format: V -> string, f: Family<V>, keys: seq<string>,
                                                       g: Family<V>, keys': seq<string>)
    requires Legal(f) && Legal(g) && f.name == g.name
    requires (forall key :: key in keys ==> key in f.series) && (forall key :: key in keys' ==> key in g.series)
    requires Readings(format, f, keys) == Readings(format, g, keys') && (keys != [] ==> f.labelNames == g.labelNames)
    ensures SeriesLines(format, f, keys) == SeriesLines(format, g, keys')
    decreases |keys|
  {
    hide PointLines, Legal, LegalKey, Holdable, ReadingOf, Readings, ReadingLine;
    if keys == [] {
      assert |Readings(format, f, keys)| == 0;
    } else {
      assert |Readings(format, f, keys)| == |keys|;
      SeriesStep(format, f, keys, []);
      SeriesStep(format, g, keys', []);
      var key, key' := keys[0], keys'[0];
      assert Readings(format, f, keys)[0] == Readings(format, g, keys')[0];
      assert Readings(format, f, keys)[1..] == Readings(format, g, keys')[1..];
      LinesShowReading(format, f, key, f.series[key]);
      LinesShowReading(format, g, key', g.series[key']);
      assert PointLines(format, f, key, f.series[key]) == PointLines(format, g, key', g.series[key']);
      ReadingsDetermineSamples(format, f, keys[1..], g, keys'[1..]);
    }
  }

  // ----- the whole document -----

  function Excerpts<V>(format: V -> string, fs: seq<Family<V>>, keys: seq<seq<string>>): (r: seq<Excerpt<V>>)
    requires |keys| == |fs|
    requires forall i :: 0 <= i < |fs| ==> Legal(fs[i]) && forall key :: key in keys[i] ==> key in fs[i].series
    ensures |r| == |fs| && forall i :: 0 <= i < |fs| ==> r[i] == ExcerptOf(format, fs[i], keys[i])
  {
    seq(|fs|, i requires 0 <= i < |fs| => ExcerptOf(format, fs[i], keys[i]))
  }

  lemma ExcerptsStep<V>(format: V -> string, fs: seq<Family<V>>, keys: seq<seq<string>>)
    requires fs != [] && LegalDocument(fs, keys)
    ensures Excerpts(format, fs, keys) == [ExcerptOf(format, fs[0], keys[0])] + Excerpts(format, fs[1..], keys[1..])
    ensures DocumentLines(format, fs, keys)
            == FamilyLines(format, fs[0], keys[0]) + DocumentLines(format, fs[1..], keys[1..])
    ensures LegalDocument(fs[1..], keys[1..])
    ensures FamilyLines(format, fs[0], keys[0]) != [] && FamilyLines(format, fs[0], keys[0])[0].Help?
  {
    hide ExcerptOf, Legal, Ascending, SeriesLines;
  }

  lemma NothingWritten<V>(format: V -> string, fs: seq<Family<V>>, keys: seq<seq<string>>)
    requires fs == [] && LegalDocument(fs, keys)
    ensures DocumentLines(format, fs, keys) == []
  {
  }

  lemma DocumentIsNext<V>(format: V -> string, fs: seq<Family<V>>, keys: seq<seq<string>>)
    requires LegalDocument(fs, keys)
    ensures Next(DocumentLines(format, fs, keys))
  {
    if fs != [] {
      ExcerptsStep(format, fs, keys);
    }
  }

  lemma {:induction false} LinesDetermineExcerpts<V(!new)>(
      format: V -> string, fs: seq<Family<V>>, keys: seq<seq<string>>, gs: seq<Family<V>>, keys': seq<seq<string>>)
    requires LegalFormat(format) && LegalDocument(fs, keys) && LegalDocument(gs, keys')
    requires DocumentLines(format, fs, keys) == DocumentLines(format, gs, keys')
    ensures Excerpts(format, fs, keys) == Excerpts(format, gs, keys')
    decreases |fs|
  {
    hide Excerpts, FamilyLines, Legal, LegalFormat, ExcerptOf, DocumentLines, Ascending;
    if fs == [] && gs == [] {
      assert Excerpts(format, fs, keys) == [] && Excerpts(format, gs, keys') == [];
    } else if fs == [] {
      NothingWritten(format, fs, keys);
      ExcerptsStep(format, gs, keys');
    } else if gs == [] {
      NothingWritten(format, gs, keys');
      ExcerptsStep(format, fs, keys);
    } else {
      ExcerptsStep(format, fs, keys);
      ExcerptsStep(format, gs, keys');
      var rest, rest' := DocumentLines(format, fs[1..], keys[1..]), DocumentLines(format, gs[1..], keys'[1..]);
      DocumentIsNext(format, fs[1..], keys[1..]);
      DocumentIsNext(format, gs[1..], keys'[1..]);
      FamilyDetermined(format, fs[0], keys[0], rest, gs[0], keys'[0], rest');
      LinesDetermineExcerpts(format, fs[1..], keys[1..], gs[1..], keys'[1..]);
    }
  }

  lemma {:induction false} ExcerptsDetermineLines<V(!new)>(
      format: V -> string, fs: seq<Family<V>>, keys: seq<seq<string>>, gs: seq<Family<V>>, keys': seq<seq<string>>)
    requires LegalDocument(fs, keys) && LegalDocument(gs, keys')
             && Excerpts(format, fs, keys) == Excerpts(format, gs, keys')
    ensures DocumentLines(format, fs, keys) == DocumentLines(format, gs, keys')
    decreases |fs|
  {
    assert |Excerpts(format, fs, keys)| == |fs| && |Excerpts(format, gs, keys')| == |gs|;
    if fs != [] {
      hide Excerpts, Legal, DocumentLines, Ascending, SeriesLines, Readings, KindName;
      ExcerptsStep(format, fs, keys);
      ExcerptsStep(format, gs, keys');
      assert Excerpts(format, fs, keys)[0] == Excerpts(format, gs, keys')[0];
      assert Excerpts(format, fs, keys)[1..] == Excerpts(format, gs, keys')[1..];
      assert |Readings(format, fs[0], keys[0])| == |keys[0]| && |Readings(format, gs[0], keys'[0])| == |keys'[0]|;
      ReadingsDetermineSamples(format, fs[0], keys[0], gs[0], keys'[0]);
      ExcerptsDetermineLines(format, fs[1..], keys[1..], gs[1..], keys'[1..]);
    }
  }

  lemma ExtendedPairsLegal(names: seq<string>, values: seq<string>)
    requires |names| <= |values| && forall n :: n in names ==> LegalLabel(n)
    ensures forall i :: 0 <= i < |names| ==> LegalLabel(Pairs(names, values)[i].0)
  {
    assert forall i :: 0 <= i < |names| ==> names[i] in names;
  }

  lemma LeLegal()
    ensures LegalLabel("le")
  {
  }

  lemma SuffixedNameLegal(name: string, suffix: string)
    requires LegalName(name) && suffix in ["_bucket", "_sum", "_count"]
    ensures LegalName(name + suffix)
  {
  }

  lemma ReadingLineLegal<V(!new)>(format: V -> string, f: Family<V>, r: Reading<V>, i: nat)
    requires LegalFormat(format) && WellNamed(f) && Readable(r, |f.labelNames|) && i < ReadingSize(r)
    ensures LegalLine(ReadingLine(format, f.name, f.labelNames, r, i))
  {
    hide LegalName, LegalLabel, Holdable;
    LeLegal();
    ExtendedPairsLegal(f.labelNames, r.labels);
    SuffixedNameLegal(f.name, "_bucket");
    SuffixedNameLegal(f.name, "_sum");
    SuffixedNameLegal(f.name, "_count");
  }

  lemma PointLinesLegal<V(!new)>(format: V -> string, f: Family<V>, key: string, p: Point<V>)
    requires LegalFormat(format) && WellNamed(f) && Holdable(f, key, p)
    ensures forall i :: 0 <= i < |PointLines(format, f, key, p)| ==> LegalLine(PointLines(format, f, key, p)[i])
  {
    hide *;
    LinesShowReading(format, f, key, p);
    forall i | 0 <= i < |PointLines(format, f, key, p)| ensures LegalLine(PointLines(format, f, key, p)[i]) {
      ReadingLineLegal(format, f, ReadingOf(format, f, key, p), i);
    }
  }

  lemma {:induction false} SeriesLinesLegal<V(!new)>(format: V -> string, f: Family<V>, keys: seq<string>)
    requires LegalFormat(format) && Legal(f) && WellNamed(f) && forall key :: key in keys ==> key in f.series
    ensures forall i :: 0 <= i < |SeriesLines(format, f, keys)| ==> LegalLine(SeriesLines(format, f, keys)[i])
  {
    hide WellNamed, PointLines, LegalFormat, LegalLine, Holdable;
    if keys != [] {
      assert keys[0] in keys;
      PointLinesLegal(format, f, keys[0], f.series[keys[0]]);
      SeriesLinesLegal(format, f, keys[1..]);
    }
  }

  lemma FamilyLinesLegal<V(!new)>(format: V -> string, f: Family<V>, keys: seq<string>)
    requires LegalFormat(format) && Legal(f) && WellNamed(f) && forall key :: key in keys ==> key in f.series
    ensures forall i :: 0 <= i < |FamilyLines(format, f, keys)| ==> LegalLine(FamilyLines(format, f, keys)[i])
  {
    hide SeriesLines, LegalFormat;
    SeriesLinesLegal(format, f, keys);
  }

  lemma {:induction false} DocumentLinesLegal<V(!new)>(format: V -> string, fs: seq<Family<V>>, keys: seq<seq<string>>)
    requires LegalFormat(format) && LegalDocument(fs, keys) && AllWellNamed(fs)
    ensures forall i :: 0 <= i < |DocumentLines(format, fs, keys)| ==> LegalLine(DocumentLines(format, fs, keys)[i])
  {
    if fs != [] {
      hide WellNamed, FamilyLines, Legal, LegalLine, LegalFormat, Ascending;
      FamilyLinesLegal(format, fs[0], keys[0]);
      DocumentLinesLegal(format, fs[1..], keys[1..]);
    }
  }

  /**
   Two documents are the same text exactly when they show the same families with the same
   readings in the same order, whatever the label values.
   */
  lemma TextsAgreeIff<V(!new)>(
      format: V -> string, fs: seq<Family<V>>, keys: seq<seq<string>>, gs: seq<Family<V>>, keys': seq<seq<string>>)
    requires LegalFormat(format) && LegalDocument(fs, keys) && LegalDocument(gs, keys') && AllWellNamed(fs)
             && AllWellNamed(gs)
    ensures Text(DocumentLines(format, fs, keys)) == Text(DocumentLines(format, gs, keys'))
            <==> Excerpts(format, fs, keys) == Excerpts(format, gs, keys')
  {
    hide Ascending, Text, DocumentLines, Excerpts, LegalFormat, Legal, LegalLine;
    if Text(DocumentLines(format, fs, keys)) == Text(DocumentLines(format, gs, keys')) {
      DocumentLinesLegal(format, fs, keys);
      DocumentLinesLegal(format, gs, keys');
      TextDeterminesLines(DocumentLines(format, fs, keys), DocumentLines(format, gs, keys'));
      LinesDetermineExcerpts(format, fs, keys, gs, keys');
    }
    if Excerpts(format, fs, keys) == Excerpts(format, gs, keys') {
      ExcerptsDetermineLines(format, fs, keys, gs, keys');
    }
  }

  // ----- from readings back to series -----

  /** Every series shows all of its label values: none of those set by key holds the separator. */
  predicate ShowsAll<V>(f: Family<V>)
    requires Legal(f)
  {
    forall key :: key in f.series ==> |Labels(f, key, f.series[key])| == |f.labelNames|
  }

  /** The same numbers, and for two sampled gauges the same label values registered. */
  predicate SamePoint<V(==)>(p: Point<V>, q: Point<V>) {
    Plain(p) == Plain(q) && (p.Sampled? && q.Sampled? ==> p.values == q.values)
  }

  /** Two families a reader of the text cannot tell apart. */
  ghost predicate SameSnapshot<V>(f: Family<V>, g: Family<V>) {
    && KindName(f.kind) == KindName(g.kind) && f.name == g.name && f.help == g.help
    && f.series.Keys == g.series.Keys
    && (forall key :: key in f.series ==> SamePoint(f.series[key], g.series[key]))
    && (f.series != map[] ==> f.labelNames == g.labelNames && (f.kind == Histogram ==> f.buckets == g.buckets))
  }

  lemma ReadingGivesKey<V>(format: V -> string, f: Family<V>, key: string, p: Point<V>)
    requires Holdable(f, key, p) && |Labels(f, key, p)| == |f.labelNames|
    ensures key == Key(ReadingOf(format, f, key, p).labels)
  {
    var values := Labels(f, key, p);
    assert values[..|f.labelNames|] == values;
    if !p.Sampled? && f.labelNames != [] {
      JoinSplit(LABEL_SEPARATOR, key);
    }
  }

  lemma ReadingGivesBuckets<V(!new)>(format: V -> string, f: Family<V>, key: string, p: Point<V>, g: Family<V>,
                                     key': string, p': Point<V>)
    requires LegalFormat(format) && Holdable(f, key, p) && Holdable(g, key', p') && f.kind == g.kind == Histogram
    requires |Labels(f, key, p)| == |f.labelNames| && |Labels(g, key', p')| == |g.labelNames|
    requires ReadingOf(format, f, key, p) == ReadingOf(format, g, key', p')
    ensures f.buckets == g.buckets
  {
    var r, r' := ReadingOf(format, f, key, p), ReadingOf(format, g, key', p');
    assert |r.bounds| == |f.buckets| + 1 && |r'.bounds| == |g.buckets| + 1;
    forall i | 0 <= i < |f.buckets| ensures f.buckets[i] == g.buckets[i] {
      assert r.bounds[i] == format(f.buckets[i]) && r'.bounds[i] == format(g.buckets[i]);
    }
  }

  lemma ReadingGivesPoint<V>(format: V -> string, f: Family<V>, key: string, p: Point<V>, g: Family<V>,
                             key': string, p': Point<V>)
    requires Holdable(f, key, p) && Holdable(g, key', p')
    requires |Labels(f, key, p)| == |f.labelNames| && |Labels(g, key', p')| == |g.labelNames|
    requires ReadingOf(format, f, key, p) == ReadingOf(format, g, key', p')
    ensures SamePoint(p, p')
  {
    var values, values' := Labels(f, key, p), Labels(g, key', p');
    assert values[..|f.labelNames|] == values && values'[..|g.labelNames|] == values';
  }

  lemma HistogramKind(kind: Kind, kind': Kind)
    requires KindName(kind) == KindName(kind')
    ensures kind == Histogram <==> kind' == Histogram
  {
    assert KindName(Counter)[0] == 'c' && KindName(Gauge)[0] == 'g' && KindName(Histogram)[0] == 'h';
  }

  lemma KeysFromReadings<V(!new)>(format: V -> string, f: Family<V>, keys: seq<string>, g: Family<V>,
                                  keys': seq<string>, i: nat)
    requires Legal(f) && Legal(g) && SortedKeys(keys, f.series) && SortedKeys(keys', g.series) && ShowsAll(f)
             && ShowsAll(g)
    requires Readings(format, f, keys) == Readings(format, g, keys') && i < |keys|
    ensures |keys| == |keys'| && keys[i] == keys'[i] && keys[i] in f.series && keys[i] in g.series
    ensures SamePoint(f.series[keys[i]], g.series[keys[i]])
    ensures Holdable(f, keys[i], f.series[keys[i]]) && Holdable(g, keys[i], g.series[keys[i]])
    ensures ReadingOf(format, f, keys[i], f.series[keys[i]]) == ReadingOf(format, g, keys[i], g.series[keys[i]])
  {
    hide Holdable, Ascending, LegalName, LegalLabel;
    assert |Readings(format, f, keys)| == |Readings(format, g, keys')|;
    assert Readings(format, f, keys)[i] == Readings(format, g, keys')[i];
    var key, key' := keys[i], keys'[i];
    assert key in keys && key' in keys';
    ReadingGivesKey(format, f, key, f.series[key]);
    ReadingGivesKey(format, g, key', g.series[key']);
    ReadingGivesPoint(format, f, key, f.series[key], g, key', g.series[key']);
  }

  lemma ExcerptGivesSnapshot<V(!new)>(format: V -> string, f: Family<V>, keys: seq<string>, g: Family<V>,
                                      keys': seq<string>)
    requires LegalFormat(format) && Legal(f) && Legal(g) && SortedKeys(keys, f.series) && SortedKeys(keys', g.series)
    requires ShowsAll(f) && ShowsAll(g) && ExcerptOf(format, f, keys) == ExcerptOf(format, g, keys')
    ensures SameSnapshot(f, g)
  {
    hide Legal, LegalFormat, Readings, ReadingOf, Holdable, KindName, SamePoint, Ascending, Labels;
    assert |Readings(format, f, keys)| == |Readings(format, g, keys')|;
    forall i | 0 <= i < |keys| ensures keys[i] == keys'[i] {
      KeysFromReadings(format, f, keys, g, keys', i);
    }
    assert keys == keys';
    forall key | key in f.series ensures key in g.series && SamePoint(f.series[key], g.series[key]) {
      assert key in keys;
      var i :| 0 <= i < |keys| && keys[i] == key;
      KeysFromReadings(format, f, keys, g, keys', i);
    }
    assert forall key :: key in g.series ==> key in keys;
    if f.series != map[] {
      var key :| key in f.series;
      assert key in keys;
      if f.kind == Histogram {
        HistogramKind(f.kind, g.kind);
        KeysFromReadings(format, f, keys, g, keys', 0);
        ReadingGivesBuckets(format, f, keys[0], f.series[keys[0]], g, keys[0], g.series[keys[0]]);
      }
    }
  }

  ghost predicate SameFamilies<V(!new)>(fs: seq<Family<V>>, gs: seq<Family<V>>) {
    |fs| == |gs| && forall i :: 0 <= i < |fs| ==> SameSnapshot(fs[i], gs[i])
  }

  /**
   Where every series shows all of its label values, the document determines the whole
   snapshot: the same text means the same families with the same kinds, names and helps, and in
   each the same series with the same numbers.
   */
  lemma TextDeterminesSnapshot<V(!new)>(
      format: V -> string, fs: seq<Family<V>>, keys: seq<seq<string>>, gs: seq<Family<V>>, keys': seq<seq<string>>)
    requires LegalFormat(format) && LegalDocument(fs, keys) && LegalDocument(gs, keys') && AllWellNamed(fs)
             && AllWellNamed(gs)
    requires (forall i :: 0 <= i < |fs| ==> ShowsAll(fs[i])) && (forall i :: 0 <= i < |gs| ==> ShowsAll(gs[i]))
    requires Text(DocumentLines(format, fs, keys)) == Text(DocumentLines(format, gs, keys'))
    ensures SameFamilies(fs, gs)
  {
    hide Text, DocumentLines, Legal, ExcerptOf, LegalFormat, ShowsAll, SameSnapshot, Ascending;
    TextsAgreeIff(format, fs, keys, gs, keys');
    assert |Excerpts(format, fs, keys)| == |Excerpts(format, gs, keys')|;
    forall i | 0 <= i < |fs| ensures SameSnapshot(fs[i], gs[i]) {
      assert Excerpts(format, fs, keys)[i] == Excerpts(format, gs, keys')[i];
      ExcerptGivesSnapshot(format, fs[i], keys[i], gs[i], keys'[i]);
    }
  }

  // ----- the writer -----

  /** sortedKeys over a map read in whatever order its keys come. */
  method KeysInOrder<X>(m: map<string, X>) returns (keys: seq<string>)
    ensures SortedKeys(keys, m)
  {
    keys := [];
    var todo := m.Keys;
    while todo != {}
      invariant todo <= m.Keys && Distinct(keys)
      invariant forall key :: key in keys <==> key in m.Keys - todo
      decreases todo
    {
      var key :| key in todo;
      todo := todo - {key};
      DistinctJoined(keys, [key]);
      keys := keys + [key];
    }
    SortSorts(CharRank, keys);
    keys := Sort(CharRank, keys);
  }

  /** The order is fixed: a map has one ascending list of keys. */
  lemma KeysUnique<X>(keys: seq<string>, keys': seq<string>, m: map<string, X>)
    requires SortedKeys(keys, m) && SortedKeys(keys', m)
    ensures keys == keys'
  {
    AscendingUnique(CharRank, keys, keys');
  }

  lemma KeysLegal<V>(f: Family<V>, keys: seq<string>, n: nat)
    requires Legal(f) && SortedKeys(keys, f.series) && n < |keys|
    ensures keys[n] in f.series && Holdable(f, keys[n], f.series[keys[n]])
  {
    assert keys[n] in keys;
  }

  lemma NoSeriesYet<V>(format: V -> string, f: Family<V>, keys: seq<string>, header: seq<Line>)
    requires Legal(f)
    ensures header + SeriesLines(format, f, keys[..0]) == header
  {
  }

  lemma {:induction false} SeriesLinesExtended<V>(format: V -> string, f: Family<V>, keys: seq<string>, n: nat)
    requires Legal(f) && n < |keys| && forall key :: key in keys ==> key in f.series
    ensures SeriesLines(format, f, keys[..n + 1])
            == SeriesLines(format, f, keys[..n]) + PointLines(format, f, keys[n], f.series[keys[n]])
    decreases n
  {
    hide PointLines, Legal;
    if n == 0 {
      assert keys[..1][1..] == [];
    } else {
      SeriesLinesExtended(format, f, keys[1..], n - 1);
      assert keys[..n + 1][1..] == keys[1..][..n] && keys[..n][1..] == keys[1..][..n - 1];
    }
  }

  /** One family out, its series in ascending key order. */
  method WriteFamily<V(!new)>(format: V -> string, f: Family<V>) returns (out: string, keys: seq<string>)
    requires Legal(f)
    ensures SortedKeys(keys, f.series) && out == Text(FamilyLines(format, f, keys))
  {
    hide SeriesLines, PointLines, Text, Legal, Ascending;
    keys := KeysInOrder(f.series);
    var header := [Help(f.name, f.help), Type(f.name, KindName(f.kind))];
    out := Text(header);
    NoSeriesYet(format, f, keys, header);
    for n := 0 to |keys|
      invariant out == Text(header + SeriesLines(format, f, keys[..n]))
    {
      KeysLegal(f, keys, n);
      var lines := PointLines(format, f, keys[n], f.series[keys[n]]);
      SeriesLinesExtended(format, f, keys, n);
      TextJoined(header + SeriesLines(format, f, keys[..n]), lines);
      assert header + SeriesLines(format, f, keys[..n]) + lines == header + SeriesLines(format, f, keys[..n + 1]);
      out := out + Text(lines);
    }
    assert keys[..|keys|] == keys;
  }

  /** The Vecs of one kind, under the names they registered. */
  predicate Registered<V>(kind: Kind, vecs: map<string, Family<V>>) {
    forall name :: name in vecs ==> Legal(vecs[name]) && vecs[name].name == name && vecs[name].kind == kind
  }

  /** The Vecs of one kind in ascending name order. */
  ghost predicate Listed<V>(fs: seq<Family<V>>, names: seq<string>, vecs: map<string, Family<V>>) {
    && SortedKeys(names, vecs) && |fs| == |names|
    && forall i :: 0 <= i < |fs| ==> names[i] in vecs && fs[i] == vecs[names[i]]
  }

  /** sortVecsByName: the registered Vecs of one kind, which are unique by name, in name order. */
  method InNameOrder<V(!new)>(kind: Kind, vecs: map<string, Family<V>>) returns (fs: seq<Family<V>>, names: seq<string>)
    requires Registered(kind, vecs)
    ensures Listed(fs, names, vecs) && forall i :: 0 <= i < |fs| ==> Legal(fs[i])
  {
    hide Legal;
    names := KeysInOrder(vecs);
    fs := [];
    for n := 0 to |names|
      invariant |fs| == n && forall i :: 0 <= i < n ==> names[i] in vecs && fs[i] == vecs[names[i]]
    {
      assert names[n] in names;
      fs := fs + [vecs[names[n]]];
    }
  }

  lemma {:induction false} DocumentExtended<V>(format: V -> string, fs: seq<Family<V>>, keys: seq<seq<string>>,
                                               f: Family<V>, own: seq<string>)
    requires LegalDocument(fs, keys) && Legal(f) && SortedKeys(own, f.series)
    ensures LegalDocument(fs + [f], keys + [own])
    ensures DocumentLines(format, fs + [f], keys + [own])
            == DocumentLines(format, fs, keys) + FamilyLines(format, f, own)
  {
    hide Legal, FamilyLines, Ascending;
    if fs == [] {
      assert (fs + [f])[1..] == [] && fs + [f] == [f] && keys + [own] == [own];
    } else {
      DocumentExtended(format, fs[1..], keys[1..], f, own);
      assert (fs + [f])[1..] == fs[1..] + [f] && (keys + [own])[1..] == keys[1..] + [own];
    }
  }

  /** The families in the order given, appended to what is already written. */
  method WriteFamilies<V(!new)>(format: V -> string, fs: seq<Family<V>>, ghost before: seq<Family<V>>,
                                ghost keys: seq<seq<string>>, text: string)
    returns (out: string, ghost keys': seq<seq<string>>)
    requires forall i :: 0 <= i < |fs| ==> Legal(fs[i])
    requires LegalDocument(before, keys) && text == Text(DocumentLines(format, before, keys))
    ensures LegalDocument(before + fs, keys') && out == Text(DocumentLines(format, before + fs, keys'))
  {
    hide Legal, Text, DocumentLines, Ascending, FamilyLines;
    out, keys' := text, keys;
    assert before + fs[..0] == before;
    for n := 0 to |fs|
      invariant LegalDocument(before + fs[..n], keys') && out == Text(DocumentLines(format, before + fs[..n], keys'))
    {
      var more, own := WriteFamily(format, fs[n]);
      DocumentExtended(format, before + fs[..n], keys', fs[n], own);
      TextJoined(DocumentLines(format, before + fs[..n], keys'), FamilyLines(format, fs[n], own));
      assert before + fs[..n] + [fs[n]] == before + fs[..n + 1];
      out, keys' := out + more, keys' + [own];
    }
    assert before + fs[..|fs|] == before + fs;
  }

  /** The registered Vecs by kind. */
  datatype Registry<V> = Registry(
    counters: map<string, Family<V>>, gauges: map<string, Family<V>>,
    gaugeFuncs: map<string, Family<V>>, histograms: map<string, Family<V>>)
  {
    predicate Valid() {
      && Registered(Counter, counters) && Registered(Gauge, gauges)
      && Registered(SampledGauge, gaugeFuncs) && Registered(Histogram, histograms)
    }
  }

  ghost predicate AllListed<V(!new)>(reg: Registry<V>, cs: seq<Family<V>>, c: seq<string>, gs: seq<Family<V>>,
                                     g: seq<string>,
                                     ss: seq<Family<V>>, s: seq<string>, hs: seq<Family<V>>, h: seq<string>) {
    Listed(cs, c, reg.counters) && Listed(gs, g, reg.gauges) && Listed(ss, s, reg.gaugeFuncs)
      && Listed(hs, h, reg.histograms)
  }

  /** The families of each kind in turn, each kind in ascending name order. */
  ghost predicate InOrder<V(!new)>(fs: seq<Family<V>>, reg: Registry<V>) {
    exists cs, c, gs, g, ss, s, hs, h ::
      fs == cs + gs + ss + hs && AllListed(reg, cs, c, gs, g, ss, s, hs, h)
  }

  lemma OrderWitnessed<V(!new)>(reg: Registry<V>, cs: seq<Family<V>>, c: seq<string>, gs: seq<Family<V>>,
                                g: seq<string>,
                                ss: seq<Family<V>>, s: seq<string>, hs: seq<Family<V>>, h: seq<string>)
    requires AllListed(reg, cs, c, gs, g, ss, s, hs, h)
    ensures InOrder(cs + gs + ss + hs, reg)
  {
  }

  lemma ListedUnique<V(!new)>(fs: seq<Family<V>>, names: seq<string>, gs: seq<Family<V>>, names': seq<string>,
                              vecs: map<string, Family<V>>)
    requires Listed(fs, names, vecs) && Listed(gs, names', vecs)
    ensures fs == gs
  {
    hide Ascending;
    KeysUnique(names, names', vecs);
  }

  lemma PartsUnique<V(!new)>(reg: Registry<V>, cs: seq<Family<V>>, c: seq<string>, gs: seq<Family<V>>, g: seq<string>,
                             ss: seq<Family<V>>, s: seq<string>, hs: seq<Family<V>>, h: seq<string>,
                             cs': seq<Family<V>>, c': seq<string>, gs': seq<Family<V>>, g': seq<string>,
                             ss': seq<Family<V>>, s': seq<string>, hs': seq<Family<V>>, h': seq<string>)
    requires AllListed(reg, cs, c, gs, g, ss, s, hs, h) && AllListed(reg, cs', c', gs', g', ss', s', hs', h')
    ensures cs == cs' && gs == gs' && ss == ss' && hs == hs'
  {
    hide Listed;
    ListedUnique(cs, c, cs', c', reg.counters);
    ListedUnique(gs, g, gs', g', reg.gauges);
    ListedUnique(ss, s, ss', s', reg.gaugeFuncs);
    ListedUnique(hs, h, hs', h', reg.histograms);
  }

  /** A registry has one order. */
  lemma OrderUnique<V(!new)>(fs: seq<Family<V>>, gs: seq<Family<V>>, reg: Registry<V>)
    requires InOrder(fs, reg) && InOrder(gs, reg)
    ensures fs == gs
  {
    hide Listed, AllListed;
    var cs, c, gs1, g, ss, s, hs, h :| fs == cs + gs1 + ss + hs && AllListed(reg, cs, c, gs1, g, ss, s, hs, h);
    var cs', c', gs', g', ss', s', hs', h' :| gs == cs' + gs' + ss' + hs'
      && AllListed(reg, cs', c', gs', g', ss', s', hs', h');
    PartsUnique(reg, cs, c, gs1, g, ss, s, hs, h, cs', c', gs', g', ss', s', hs', h');
  }

  ghost predicate IsDocument<V(!new)>(out: string, format: V -> string, fs: seq<Family<V>>, keys: seq<seq<string>>) {
    LegalDocument(fs, keys) && out == Text(DocumentLines(format, fs, keys))
  }

  /** The text is the registered families' document, kind by kind, names and series in order. */
  ghost predicate IsExposition<V(!new)>(out: string, format: V -> string, reg: Registry<V>) {
    exists fs, keys :: InOrder(fs, reg) && IsDocument(out, format, fs, keys)
  }

  lemma EmptyDocument<V>(format: V -> string)
    ensures LegalDocument<V>([], []) && Text(DocumentLines(format, [], [])) == ""
  {
  }

  /** WriteText: counters, gauges, sampled gauges and histograms, each kind in name order. */
  method WriteText<V(!new)>(format: V -> string, reg: Registry<V>) returns (out: string)
    requires reg.Valid()
    ensures IsExposition(out, format, reg)
  {
    hide InOrder, Listed, Registered, Text, DocumentLines, LegalDocument, Legal;
    var cs, c := InNameOrder(Counter, reg.counters);
    var gs, g := InNameOrder(Gauge, reg.gauges);
    var ss, s := InNameOrder(SampledGauge, reg.gaugeFuncs);
    var hs, h := InNameOrder(Histogram, reg.histograms);
    EmptyDocument(format);
    ghost var keys;
    out, keys := WriteFamilies(format, cs, [], [], "");
    assert [] + cs == cs;
    out, keys := WriteFamilies(format, gs, cs, keys, out);
    out, keys := WriteFamilies(format, ss, cs + gs, keys, out);
    out, keys := WriteFamilies(format, hs, cs + gs + ss, keys, out);
    OrderWitnessed(reg, cs, c, gs, g, ss, s, hs, h);
    assert IsDocument(out, format, cs + gs + ss + hs, keys);
  }

  lemma DocumentUnique<V(!new)>(format: V -> string, fs: seq<Family<V>>, keys: seq<seq<string>>,
                                keys': seq<seq<string>>)
    requires LegalDocument(fs, keys) && LegalDocument(fs, keys')
    ensures keys == keys'
  {
    hide Legal, Ascending;
    forall i | 0 <= i < |fs| ensures keys[i] == keys'[i] {
      KeysUnique(keys[i], keys'[i], fs[i].series);
    }
  }

  /** The output is deterministic: a registry has one text, however its maps are ranged over. */
  lemma ExpositionUnique<V(!new)>(out: string, out': string, format: V -> string, reg: Registry<V>)
    requires IsExposition(out, format, reg) && IsExposition(out', format, reg)
    ensures out == out'
  {
    hide InOrder, LegalDocument, Text, DocumentLines;
    var fs, keys :| InOrder(fs, reg) && IsDocument(out, format, fs, keys);
    var gs, keys' :| InOrder(gs, reg) && IsDocument(out', format, gs, keys');
    OrderUnique(fs, gs, reg);
    DocumentUnique(format, fs, keys, keys');
  }

  /**
   Registries that print the same text hold, in their one order, the same families series for
   series, provided every series shows all of its label values.
   */
  lemma ExpositionDeterminesRegistry<V(!new)>(
      out: string, format: V -> string, reg: Registry<V>, fs: seq<Family<V>>, reg': Registry<V>, gs: seq<Family<V>>)
    requires LegalFormat(format) && IsExposition(out, format, reg) && IsExposition(out, format, reg')
    requires InOrder(fs, reg) && InOrder(gs, reg') && AllWellNamed(fs) && AllWellNamed(gs)
    requires forall i :: 0 <= i < |fs| ==> Legal(fs[i]) && ShowsAll(fs[i])
    requires forall i :: 0 <= i < |gs| ==> Legal(gs[i]) && ShowsAll(gs[i])
    ensures SameFamilies(fs, gs)
  {
    hide InOrder, LegalFormat, LegalDocument, Text, DocumentLines, SameSnapshot, Legal, ShowsAll;
    var fs1, keys :| InOrder(fs1, reg) && IsDocument(out, format, fs1, keys);
    var gs1, keys' :| InOrder(gs1, reg') && IsDocument(out, format, gs1, keys');
    OrderUnique(fs, fs1, reg);
    OrderUnique(gs, gs1, reg');
    TextDeterminesSnapshot(format, fs, keys, gs, keys');
  }
}
