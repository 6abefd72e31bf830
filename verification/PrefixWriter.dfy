/**
 Turning a child's byte stream into whole tagged lines (PrefixWriter in
 internal/dev/prefix.go), and exactly when its output is independent of how the stream was
 cut into writes.
 */
module PrefixLines {
  import opened Utf8
  import opened StripAnsi

  const NL: Byte := 0x0a
  const CR: Byte := 0x0d
  const MAX_BUFFERED_LINE := 65536

  // ----- lines of a stream -----

  /** The position of the first newline, or the length when there is none. */
  function Break(s: Bytes): (i: nat)
    ensures i <= |s| && NL !in s[..i] && (i < |s| ==> s[i] == NL)
  {
    if s == [] || s[0] == NL then 0
    else
      var i := 1 + Break(s[1..]);
      assert s[..i] == [s[0]] + s[1..][..i - 1];
      i
  }

  /** The newline-terminated lines of s, without their newlines. */
  function Lines(s: Bytes): seq<Bytes>
    decreases |s|
  {
    var i := Break(s);
    if i == |s| then [] else [s[..i]] + Lines(s[i + 1..])
  }

  /** What follows the last newline. */
  function Rest(s: Bytes): (r: Bytes)
    ensures |r| <= |s| && NL !in r
    decreases |s|
  {
    var i := Break(s);
    if i == |s| then s else Rest(s[i + 1..])
  }

  /** A newline lies past any stretch without one. */
  lemma NewlineAfter(s: Bytes, n: nat, i: nat)
    requires n <= |s| && NL !in s[..n] && i < |s| && s[i] == NL
    ensures n <= i
  {
  }

  lemma BreakUnique(s: Bytes, i: nat)
    requires i < |s| && s[i] == NL && NL !in s[..i]
    ensures Break(s) == i
  {
    NewlineAfter(s, Break(s), i);
    NewlineAfter(s, i, Break(s));
  }

  lemma BreakNone(s: Bytes)
    requires NL !in s
    ensures Break(s) == |s| && Lines(s) == [] && Rest(s) == s
  {
  }

  /** The line that ends at the first newline comes first. */
  lemma LinesStep(s: Bytes, i: nat)
    requires i < |s| && s[i] == NL && NL !in s[..i]
    ensures Lines(s) == [s[..i]] + Lines(s[i + 1..]) && Rest(s) == Rest(s[i + 1..])
  {
    BreakUnique(s, i);
  }

  /** Reading on from where the last newline left off. */
  lemma {:induction false} LinesJoined(s: Bytes, t: Bytes)
    ensures Lines(s + t) == Lines(s) + Lines(Rest(s) + t)
    ensures Rest(s + t) == Rest(Rest(s) + t)
    decreases |s|
  {
    hide Lines, Rest, Break;
    var i := Break(s);
    if i < |s| {
      LinesStep(s, i);
      assert (s + t)[..i] == s[..i];
      LinesStep(s + t, i);
      assert (s + t)[i + 1..] == s[i + 1..] + t;
      LinesJoined(s[i + 1..], t);
    } else {
      assert s[..i] == s;
      BreakNone(s);
    }
  }

  // ----- the writer on values -----

  /** What one Write hands on, line by line and untagged, and what it keeps. */
  function Written(buf: Bytes, p: Bytes): (seq<Bytes>, Bytes) {
    var lines, rest := Lines(buf + p), Rest(buf + p);
    if |rest| > MAX_BUFFERED_LINE then (lines + [rest], []) else (lines, rest)
  }

  function Flushed(buf: Bytes): seq<Bytes> {
    if buf == [] then [] else [buf]
  }

  /** Every line handed on by writing the chunks in turn and then flushing. */
  function Emitted(buf: Bytes, chunks: seq<Bytes>): seq<Bytes>
    decreases |chunks|
  {
    if chunks == [] then Flushed(buf)
    else
      var (lines, rest) := Written(buf, chunks[0]);
      lines + Emitted(rest, chunks[1..])
  }

  function Joined(chunks: seq<Bytes>): Bytes {
    if chunks == [] then [] else chunks[0] + Joined(chunks[1..])
  }

  /** The lines of a stream with a last line that may lack its newline. */
  function AllLines(s: Bytes): seq<Bytes> {
    Lines(s) + Flushed(Rest(s))
  }

  /** Every line fits the buffer; a last unterminated line may be one byte longer. */
  predicate Fits(s: Bytes) {
    (forall line :: line in Lines(s) ==> |line| <= 65536) && |Rest(s)| <= 65537
  }

  // ----- chunking does not matter when every line fits -----

  /** A pending partial line only grows towards a line of the stream. */
  lemma {:induction false} PendingBounded(pending: Bytes, t: Bytes)
    requires Fits(pending + t) && NL !in pending
    ensures |pending| <= MAX_BUFFERED_LINE + 1
    ensures |pending| == MAX_BUFFERED_LINE + 1 ==> t == []
  {
    var s := pending + t;
    var i := Break(s);
    if i < |s| {
      assert s[..|pending|] == pending;
      NewlineAfter(s, |pending|, i);
      assert s[..i] in Lines(s);
    }
  }

  lemma FitsFromRest(s: Bytes, t: Bytes)
    requires Fits(s + t)
    ensures Fits(Rest(s) + t)
  {
    LinesJoined(s, t);
  }

  lemma {:induction false} NothingMore(chunks: seq<Bytes>)
    requires Joined(chunks) == []
    ensures Emitted([], chunks) == []
  {
    if chunks != [] {
      assert chunks[0] == [] && Joined(chunks[1..]) == [];
      assert [] + chunks[0] == [];
      BreakNone([]);
      NothingMore(chunks[1..]);
    }
  }

  lemma {:induction false} EmittedIsAllLines(buf: Bytes, chunks: seq<Bytes>)
    requires NL !in buf && |buf| <= MAX_BUFFERED_LINE && Fits(buf + Joined(chunks))
    ensures Emitted(buf, chunks) == AllLines(buf + Joined(chunks))
    decreases |chunks|
  {
    hide Lines, Rest, Break, Fits;
    if chunks == [] {
      assert buf + Joined(chunks) == buf;
      BreakNone(buf);
    } else {
      var p, t := chunks[0], Joined(chunks[1..]);
      var s := buf + p;
      assert buf + Joined(chunks) == s + t;
      LinesJoined(s, t);
      FitsFromRest(s, t);
      PendingBounded(Rest(s), t);
      if |Rest(s)| > MAX_BUFFERED_LINE {
        assert Rest(s) + t == Rest(s);
        BreakNone(Rest(s));
        NothingMore(chunks[1..]);
      } else {
        EmittedIsAllLines(Rest(s), chunks[1..]);
      }
    }
  }

  // ----- and it does matter as soon as one does not -----

  lemma OneWrite(buf: Bytes, p: Bytes)
    ensures Emitted(buf, [p]) == Written(buf, p).0 + Flushed(Written(buf, p).1)
  {
    assert |[p][1..]| == 0;
  }

  lemma TwoWrites(a: Bytes, b: Bytes)
    ensures Emitted([], [a, b]) == Written([], a).0 + Emitted(Written([], a).1, [b])
    ensures Joined([a, b]) == a + b
  {
    assert [a, b][1..] == [b] && |[b][1..]| == 0;
    assert Joined([b]) == b + Joined([b][1..]) == b;
  }

  lemma OneWriteIsAllLines(s: Bytes)
    ensures Emitted([], [s]) == AllLines(s)
  {
    OneWrite([], s);
    assert [] + s == s;
  }

  /** Where the cut falls on a line that is too long, that line is handed on early. */
  lemma CutEmitsEarly(a: Bytes, b: Bytes)
    requires |Rest(a)| > MAX_BUFFERED_LINE
    ensures Emitted([], [a, b]) == Lines(a) + [Rest(a)] + AllLines(b)
  {
    TwoWrites(a, b);
    assert [] + a == a;
    OneWriteIsAllLines(b);
  }

  /** A stream cut just before the newline of a line that is too long gains a line. */
  lemma CutAtLongLine(s: Bytes, n: nat)
    requires n < |s| && s[n] == NL && |Rest(s[..n])| > MAX_BUFFERED_LINE
    ensures |Emitted([], [s[..n], s[n..]])| == |AllLines(s)| + 1
  {
    hide Lines, Rest, Break, Emitted;
    var a, b := s[..n], s[n..];
    assert s == a + b;
    CutEmitsEarly(a, b);
    LinesJoined(a, b);
    LinesStep(b, 0);
    var joined := Rest(a) + b;
    assert joined[..|Rest(a)|] == Rest(a);
    LinesStep(joined, |Rest(a)|);
    assert joined[|Rest(a)| + 1..] == b[1..];
  }

  lemma NothingAfterNewline(r: Bytes, b: Bytes)
    requires NL !in r && b == [NL]
    ensures Rest(r + b) == []
  {
    assert (r + b)[..|r|] == r && (r + b)[|r| + 1..] == [];
    LinesStep(r + b, |r|);
  }

  /** A long last line cut one byte early gains a line. */
  lemma {:induction false} CutAtLongRest(s: Bytes)
    requires |Rest(s)| > MAX_BUFFERED_LINE + 1
    ensures |Emitted([], [s[..|s| - 1], s[|s| - 1..]])| == |AllLines(s)| + 1
  {
    var a, b := s[..|s| - 1], s[|s| - 1..];
    assert s == a + b;
    LinesJoined(a, b);
    var joined := Rest(a) + b;
    if b[0] == NL {
      NothingAfterNewline(Rest(a), b);
    }
    BreakNone(joined);
    BreakNone(b);
    CutEmitsEarly(a, b);
  }

  /** Where the first line longer than the buffer ends. */
  lemma {:induction false} FindLongLine(s: Bytes, k: nat) returns (n: nat)
    requires k < |Lines(s)| && |Lines(s)[k]| > MAX_BUFFERED_LINE
    ensures n < |s| && s[n] == NL && Rest(s[..n]) == Lines(s)[k]
    decreases |s|
  {
    hide Lines, Rest, Break;
    var i := Break(s);
    if i == |s| {
      assert s[..i] == s;
      BreakNone(s);
    }
    LinesStep(s, i);
    if k == 0 {
      n := i;
      BreakNone(s[..i]);
    } else {
      var m := FindLongLine(s[i + 1..], k - 1);
      n := i + 1 + m;
      assert s[..n][..i] == s[..i];
      LinesStep(s[..n], i);
      assert s[..n][i + 1..] == s[i + 1..][..m];
    }
  }

  // ----- the writer itself -----

  function TrimCR(s: Bytes): Bytes {
    if s != [] && s[|s| - 1] == CR then s[..|s| - 1] else s
  }

  function Tagged(prefix: Bytes, strip: bool, line: Bytes): Bytes {
    var s := TrimCR(line);
    prefix + (if strip then Strip(s) else s)
  }

  /** A line goes out behind its tag, without the one carriage return that ended it, its escapes kept or stripped. */
  lemma TaggedMeans(prefix: Bytes, line: Bytes)
    requires line != [] ==> line[|line| - 1] as char != '\r'
    ensures Tagged(prefix, false, line) == Tagged(prefix, false, line + ['\r' as int]) == prefix + line
    ensures Tagged(prefix, true, line) == Tagged(prefix, true, line + ['\r' as int]) == prefix + Strip(line)
  {
    hide Strip;
    var ended := line + ['\r' as int];
    assert ended[..|ended| - 1] == line;
  }

  function TaggedAll(prefix: Bytes, strip: bool, lines: seq<Bytes>): (r: seq<Bytes>)
    ensures |r| == |lines|
    ensures forall i :: 0 <= i < |r| ==> r[i] == Tagged(prefix, strip, lines[i])
  {
    if lines == [] then [] else [Tagged(prefix, strip, lines[0])] + TaggedAll(prefix, strip, lines[1..])
  }

  lemma TaggedAllJoined(prefix: Bytes, strip: bool, a: seq<Bytes>, b: seq<Bytes>)
    ensures TaggedAll(prefix, strip, a + b) == TaggedAll(prefix, strip, a) + TaggedAll(prefix, strip, b)
  {
  }

  /** A line that does not fit gives a cut that hands on one line more. */
  lemma BadCut(s: Bytes) returns (a: Bytes, b: Bytes)
    requires !Fits(s)
    ensures Joined([a, b]) == s && |Emitted([], [a, b])| == |AllLines(s)| + 1
  {
    hide Lines, Rest, Emitted, Joined, AllLines;
    if |Rest(s)| > MAX_BUFFERED_LINE + 1 {
      CutAtLongRest(s);
      a, b := s[..|s| - 1], s[|s| - 1..];
    } else {
      var line :| line in Lines(s) && |line| > MAX_BUFFERED_LINE;
      var k :| 0 <= k < |Lines(s)| && Lines(s)[k] == line;
      var n := FindLongLine(s, k);
      CutAtLongLine(s, n);
      a, b := s[..n], s[n..];
    }
    TwoWrites(a, b);
    assert a + b == s;
  }

  /**
   The same tagged lines come out however the stream is cut into writes, exactly when every
   line fits.
   */
  lemma ChunkingIrrelevantIffFits(prefix: Bytes, strip: bool, s: Bytes)
    ensures (forall chunks :: Joined(chunks) == s ==>
               TaggedAll(prefix, strip, Emitted([], chunks)) == TaggedAll(prefix, strip, AllLines(s))) <==> Fits(s)
  {
    if Fits(s) {
      forall chunks | Joined(chunks) == s ensures Emitted([], chunks) == AllLines(s) {
        assert [] + Joined(chunks) == s;
        EmittedIsAllLines([], chunks);
      }
    } else {
      var a, b := BadCut(s);
      assert |TaggedAll(prefix, strip, Emitted([], [a, b]))| != |TaggedAll(prefix, strip, AllLines(s))|;
    }
  }

  class PrefixWriter {
    const prefix: Bytes
    const strip: bool
    var buf: Bytes
    /** What emit has received. */
    var emitted: seq<Bytes>

    ghost predicate Valid()
      reads this
    {
      NL !in buf && |buf| <= MAX_BUFFERED_LINE
    }

    constructor (prefix: Bytes, strip: bool)
      ensures Valid() && buf == [] && emitted == [] && this.prefix == prefix && this.strip == strip
    {
      this.prefix, this.strip, buf, emitted := prefix, strip, [], [];
    }

    /** The lines the write completes are emitted, and never more than the bound is kept. */
    method Write(p: Bytes)
      requires Valid()
      modifies this
      ensures Valid()
      ensures buf == Written(old(buf), p).1
      ensures emitted == old(emitted) + TaggedAll(prefix, strip, Written(old(buf), p).0)
    {
      hide Lines, Rest, Break, TaggedAll, Tagged, TrimCR;
      buf := buf + p;
      ghost var all, taken := buf, [];
      while true
        invariant Lines(all) == taken + Lines(buf) && Rest(all) == Rest(buf)
        invariant emitted == old(emitted) + TaggedAll(prefix, strip, taken)
        decreases |buf|
      {
        var i := Break(buf);
        if i == |buf| {
          assert buf[..i] == buf;
          BreakNone(buf);
          break;
        }
        LinesStep(buf, i);
        Line(buf[..i]);
        TaggedAllJoined(prefix, strip, taken, [buf[..i]]);
        taken := taken + [buf[..i]];
        buf := buf[i + 1..];
      }
      if |buf| > MAX_BUFFERED_LINE {
        Line(buf);
        TaggedAllJoined(prefix, strip, taken, [buf]);
        buf := [];
      }
    }

    method Flush()
      requires Valid()
      modifies this
      ensures Valid() && buf == []
      ensures emitted == old(emitted) + TaggedAll(prefix, strip, Flushed(old(buf)))
    {
      if |buf| > 0 {
        Line(buf);
        buf := [];
      }
    }

    /** One line out: trailing carriage return dropped, escapes stripped on request, tagged. */
    method Line(b: Bytes)
      modifies this`emitted
      ensures emitted == old(emitted) + TaggedAll(prefix, strip, [b])
    {
      var s := TrimCR(b);
      if strip {
        s := StripANSI(s);
      }
      emitted := emitted + [prefix + s];
    }
  }

  lemma TaggedNone(prefix: Bytes, strip: bool)
    ensures TaggedAll(prefix, strip, []) == []
  {
  }

  lemma EmittedStep(buf: Bytes, chunks: seq<Bytes>, n: nat)
    requires n < |chunks|
    ensures Emitted(buf, chunks[n..]) == Written(buf, chunks[n]).0 + Emitted(Written(buf, chunks[n]).1, chunks[n + 1..])
  {
    assert chunks[n..][1..] == chunks[n + 1..];
  }

  lemma EmittedDone(buf: Bytes, chunks: seq<Bytes>)
    ensures Emitted(buf, chunks[|chunks|..]) == Flushed(buf)
  {
  }

  /** Writing any cut of a stream whose lines fit, then flushing, emits its lines, tagged. */
  method WriteAll(w: PrefixWriter, chunks: seq<Bytes>)
    requires w.Valid() && w.buf == [] && w.emitted == []
    modifies w
    ensures w.emitted == TaggedAll(w.prefix, w.strip, Emitted([], chunks))
    ensures Fits(Joined(chunks)) ==> w.emitted == TaggedAll(w.prefix, w.strip, AllLines(Joined(chunks)))
  {
    hide Emitted, Written, TaggedAll, Tagged, Fits, AllLines, Joined, Flushed;
    ghost var out := TaggedAll(w.prefix, w.strip, Emitted([], chunks));
    assert chunks[0..] == chunks;
    TaggedNone(w.prefix, w.strip);
    for n := 0 to |chunks|
      invariant w.Valid()
      invariant w.emitted + TaggedAll(w.prefix, w.strip, Emitted(w.buf, chunks[n..])) == out
    {
      EmittedStep(w.buf, chunks, n);
      TaggedAllJoined(w.prefix, w.strip, Written(w.buf, chunks[n]).0,
                      Emitted(Written(w.buf, chunks[n]).1, chunks[n + 1..]));
      w.Write(chunks[n]);
    }
    EmittedDone(w.buf, chunks);
    w.Flush();
    if Fits(Joined(chunks)) {
      assert [] + Joined(chunks) == Joined(chunks);
      EmittedIsAllLines([], chunks);
    }
  }
}
