/** Snapshots of the watched tree and what differs between two of them (internal/dev/watch.go). */
module Watch {
  import opened Sorting
  import opened Pigeonhole

  /** The metadata a sweep compares. */
  datatype Stamp = Stamp(size: int, modTime: int)

  type Snapshot = map<string, Stamp>

  /** The path was added, removed, or modified. */
  predicate Differs(was: Snapshot, now: Snapshot, path: string) {
    (path in was) != (path in now) || (path in was && path in now && was[path] != now[path])
  }

  /** Snapshots differ somewhere exactly when they are not equal. */
  lemma DiffersSomewhere(was: Snapshot, now: Snapshot)
    ensures (exists path :: Differs(was, now, path)) <==> was != now
  {
    if was.Keys != now.Keys {
      var path :| (path in was.Keys) != (path in now.Keys);
      assert Differs(was, now, path);
    } else if was != now {
      var path :| path in was.Keys && was[path] != now[path];
      assert Differs(was, now, path);
    }
  }

  /** One range loop over a map, in whatever order its keys come. */
  method Collect(keys: set<string>, was: Snapshot, now: Snapshot) returns (out: seq<string>)
    requires keys <= was.Keys + now.Keys
    ensures Distinct(out)
    ensures forall path :: path in out <==> path in keys && Differs(was, now, path)
  {
    out := [];
    var todo := keys;
    while todo != {}
      invariant todo <= keys
      invariant Distinct(out)
      invariant forall path :: path in out <==> path in keys - todo && Differs(was, now, path)
      decreases todo
    {
      var path :| path in todo;
      todo := todo - {path};
      if path !in now || path !in was || now[path] != was[path] {
        DistinctJoined(out, [path]);
        out := out + [path];
      }
    }
  }

  /** Changed lists every path that differs, once, in ascending order; none exactly when nothing changed. */
  method Changed(was: Snapshot, now: Snapshot) returns (out: seq<string>)
    ensures Ascending(CharRank, out)
    ensures forall path :: path in out <==> Differs(was, now, path)
    ensures out == [] <==> was == now
  {
    var gone := Collect(was.Keys, was, now);
    var come := Collect(now.Keys - was.Keys, was, now);
    DistinctJoined(gone, come);
    SortSorts(CharRank, gone + come);
    out := Sort(CharRank, gone + come);
    assert forall path :: path in out <==> path in gone || path in come;
    DiffersSomewhere(was, now);
    if out == [] {
      assert forall path :: path !in out;
    } else {
      assert out[0] in out;
    }
  }
}
