/**
 The query fingerprint of runtime/pagination/cursor.go: which bytes are hashed for one
 resource and its filters. The hash itself is a parameter.
 */
module QueryBinding {
  import opened Utf8
  import opened Framing
  import opened Pigeonhole
  import opened Sorting

  /** url.Values: every key with its values in request order. */
  type Filters = map<Bytes, seq<Bytes>>

  function ByteRank(b: Byte): int {
    b
  }

  /** Go's < on strings, byte by byte. */
  predicate BytesLess(a: Bytes, b: Bytes) {
    exists k :: 0 <= k <= |a| && k < |b| && a[..k] == b[..k] && (k == |a| || a[k] < b[k])
  }

  lemma BytesOrder(a: Bytes, b: Bytes)
    ensures LexLess(ByteRank, a, b) <==> BytesLess(a, b)
  {
    hide LexLess;
    if LexLess(ByteRank, a, b) {
      var k := LessParts(ByteRank, a, b);
    }
    if BytesLess(a, b) {
      var k :| 0 <= k <= |a| && k < |b| && a[..k] == b[..k] && (k == |a| || a[k] < b[k]);
      PartedLess(ByteRank, a, b, k);
    }
  }

  /** The keys are framed strictly ascending in that order. */
  lemma AscendingBytes(keys: seq<Bytes>)
    ensures Ascending(ByteRank, keys) <==> forall i, j :: 0 <= i < j < |keys| ==> BytesLess(keys[i], keys[j])
  {
    hide LexLess, BytesLess;
    forall i, j | 0 <= i < j < |keys| ensures LexLess(ByteRank, keys[i], keys[j]) <==> BytesLess(keys[i], keys[j]) {
      BytesOrder(keys[i], keys[j]);
    }
  }

  function Values(values: seq<Bytes>): Bytes {
    if values == [] then [] else LengthPrefixed(values[0]) + Values(values[1..])
  }

  function Entry(key: Bytes, values: seq<Bytes>): Bytes {
    LengthPrefixed(key) + Word(|values|) + Values(values)
  }

  function Entries(keys: seq<Bytes>, filters: Filters): Bytes
    requires forall key :: key in keys ==> key in filters
  {
    if keys == [] then [] else Entry(keys[0], filters[keys[0]]) + Entries(keys[1..], filters)
  }

  function Framed(resource: Bytes, keys: seq<Bytes>, filters: Filters): Bytes
    requires forall key :: key in keys ==> key in filters
  {
    LengthPrefixed(resource) + Word(|keys|) + Entries(keys, filters)
  }

  ghost predicate Lists(keys: seq<Bytes>, filters: Filters) {
    Distinct(keys) && forall key :: key in keys <==> key in filters
  }

  /** The bytes hashed for a query: its filters framed in ascending key order. */
  ghost predicate Canonical(bytes: Bytes, resource: Bytes, filters: Filters) {
    exists keys :: Lists(keys, filters) && Ascending(ByteRank, keys) && bytes == Framed(resource, keys, filters)
  }

  ghost predicate EntryFits(key: Bytes, values: seq<Bytes>) {
    Fits(key) && |values| < WORD && forall value :: value in values ==> Fits(value)
  }

  /** Every length fits the eight bytes it is written in. */
  ghost predicate Writable(resource: Bytes, filters: Filters) {
    Fits(resource) && |filters| < WORD && forall key :: key in filters ==> EntryFits(key, filters[key])
  }

  lemma {:induction false} ValuesUnique(vs: seq<Bytes>, s: Bytes, ws: seq<Bytes>, t: Bytes)
    requires |vs| == |ws| && Values(vs) + s == Values(ws) + t
    requires (forall v :: v in vs ==> Fits(v)) && forall w :: w in ws ==> Fits(w)
    ensures vs == ws && s == t
  {
    hide LengthPrefixed;
    if vs == [] {
      assert Values(vs) + s == s && Values(ws) + t == t;
    } else {
      var s', t' := Values(vs[1..]) + s, Values(ws[1..]) + t;
      assert Values(vs) + s == LengthPrefixed(vs[0]) + s' && Values(ws) + t == LengthPrefixed(ws[0]) + t';
      PrefixedUnique(vs[0], s', ws[0], t');
      ValuesUnique(vs[1..], s, ws[1..], t);
      assert vs == [vs[0]] + vs[1..] && ws == [ws[0]] + ws[1..];
    }
  }

  lemma EntryUnique(key: Bytes, vs: seq<Bytes>, s: Bytes, key': Bytes, ws: seq<Bytes>, t: Bytes)
    requires EntryFits(key, vs) && EntryFits(key', ws) && Entry(key, vs) + s == Entry(key', ws) + t
    ensures key == key' && vs == ws && s == t
  {
    hide LengthPrefixed, Word, Values;
    var s', t' := Values(vs) + s, Values(ws) + t;
    assert Entry(key, vs) + s == LengthPrefixed(key) + (Word(|vs|) + s');
    assert Entry(key', ws) + t == LengthPrefixed(key') + (Word(|ws|) + t');
    PrefixedUnique(key, Word(|vs|) + s', key', Word(|ws|) + t');
    WordUnique(|vs|, s', |ws|, t');
    ValuesUnique(vs, s, ws, t);
  }

  lemma {:induction false} EntriesUnique(keys: seq<Bytes>, f: Filters, keys': seq<Bytes>, g: Filters)
    requires |keys| == |keys'|
    requires forall key :: key in keys ==> key in f && EntryFits(key, f[key])
    requires forall key :: key in keys' ==> key in g && EntryFits(key, g[key])
    requires Entries(keys, f) == Entries(keys', g)
    ensures keys == keys' && forall key :: key in keys ==> f[key] == g[key]
  {
    hide Entry, EntryFits;
    if keys != [] {
      EntryUnique(keys[0], f[keys[0]], Entries(keys[1..], f), keys'[0], g[keys'[0]], Entries(keys'[1..], g));
      EntriesUnique(keys[1..], f, keys'[1..], g);
      assert keys == [keys[0]] + keys[1..] && keys' == [keys'[0]] + keys'[1..];
    }
  }

  lemma ListsAsMany(keys: seq<Bytes>, filters: Filters)
    requires Lists(keys, filters)
    ensures |keys| <= |filters|
  {
    NoMoreThan(keys, filters.Keys);
  }

  lemma FramedUnique(resource: Bytes, keys: seq<Bytes>, f: Filters, resource': Bytes, keys': seq<Bytes>, g: Filters)
    requires Fits(resource) && Fits(resource') && |keys| < WORD && |keys'| < WORD
    requires forall key :: key in keys ==> key in f && EntryFits(key, f[key])
    requires forall key :: key in keys' ==> key in g && EntryFits(key, g[key])
    requires Framed(resource, keys, f) == Framed(resource', keys', g)
    ensures resource == resource' && keys == keys' && forall key :: key in keys ==> f[key] == g[key]
  {
    hide Entries, EntryFits, LengthPrefixed, Word;
    var s, t := Word(|keys|) + Entries(keys, f), Word(|keys'|) + Entries(keys', g);
    assert Framed(resource, keys, f) == LengthPrefixed(resource) + s;
    assert Framed(resource', keys', g) == LengthPrefixed(resource') + t;
    PrefixedUnique(resource, s, resource', t);
    WordUnique(|keys|, Entries(keys, f), |keys'|, Entries(keys', g));
    EntriesUnique(keys, f, keys', g);
  }

  /** The hashed bytes determine the query: equal bytes mean the same resource and the same ordered values per key. */
  lemma CanonicalDeterminesQuery(bytes: Bytes, resource: Bytes, f: Filters, resource': Bytes, g: Filters)
    requires Canonical(bytes, resource, f) && Canonical(bytes, resource', g)
    requires Writable(resource, f) && Writable(resource', g)
    ensures resource == resource' && f == g
  {
    hide Framed, Entries, EntryFits, LengthPrefixed, Word;
    var keys :| Lists(keys, f) && Ascending(ByteRank, keys) && bytes == Framed(resource, keys, f);
    var keys' :| Lists(keys', g) && Ascending(ByteRank, keys') && bytes == Framed(resource', keys', g);
    ListsAsMany(keys, f);
    ListsAsMany(keys', g);
    FramedUnique(resource, keys, f, resource', keys', g);
    assert f.Keys == g.Keys;
  }

  /** The query determines the hashed bytes, whatever order its parameters arrived in. */
  lemma QueryDeterminesCanonical(bytes: Bytes, bytes': Bytes, resource: Bytes, filters: Filters)
    requires Canonical(bytes, resource, filters) && Canonical(bytes', resource, filters)
    ensures bytes == bytes'
  {
    hide Framed, Ascending;
    var keys :| Lists(keys, filters) && Ascending(ByteRank, keys) && bytes == Framed(resource, keys, filters);
    var keys' :| Lists(keys', filters) && Ascending(ByteRank, keys') && bytes' == Framed(resource, keys', filters);
    AscendingUnique(ByteRank, keys, keys');
  }

  lemma {:induction false} EntriesAppend(keys: seq<Bytes>, key: Bytes, filters: Filters)
    requires key in filters && forall k :: k in keys ==> k in filters
    ensures Entries(keys + [key], filters) == Entries(keys, filters) + Entry(key, filters[key])
  {
    hide Entry;
    if keys == [] {
      assert Entries([key], filters) == Entry(key, filters[key]) + Entries([], filters);
    } else {
      EntriesAppend(keys[1..], key, filters);
      assert (keys + [key])[1..] == keys[1..] + [key];
    }
  }

  lemma {:induction false} ValuesAppend(values: seq<Bytes>, value: Bytes)
    ensures Values(values + [value]) == Values(values) + LengthPrefixed(value)
  {
    hide LengthPrefixed;
    if values == [] {
      assert Values([value]) == LengthPrefixed(value) + Values([]);
    } else {
      ValuesAppend(values[1..], value);
      assert (values + [value])[1..] == values[1..] + [value];
    }
  }

  lemma NoValues()
    ensures Values([]) == []
  {
  }

  /** Appends one key, its value count and its values to the buffer. */
  method WriteEntry(buffer: Bytes, key: Bytes, values: seq<Bytes>) returns (out: Bytes)
    ensures out == buffer + Entry(key, values)
  {
    hide LengthPrefixed, Word, Values;
    out := buffer + LengthPrefixed(key);
    out := out + Word(|values|);
    ghost var start := out;
    NoValues();
    for i := 0 to |values|
      invariant out == start + Values(values[..i])
    {
      ValuesAppend(values[..i], values[i]);
      assert values[..i + 1] == values[..i] + [values[i]];
      out := out + LengthPrefixed(values[i]);
    }
    assert values[..|values|] == values;
  }

  lemma NoEntries(filters: Filters)
    ensures Entries([], filters) == []
  {
  }

  /** The bytes NewBinding hashes; order is the order the filter map happened to be ranged over in. */
  method CanonicalBytes(resource: Bytes, filters: Filters, order: seq<Bytes>) returns (canonical: Bytes)
    requires Lists(order, filters)
    ensures Canonical(canonical, resource, filters)
  {
    hide LengthPrefixed, Word, Entries, Entry, Ascending, Sort;
    canonical := LengthPrefixed(resource);
    var keys := Sort(ByteRank, order);
    SortSorts(ByteRank, order);
    AscendingDistinct(ByteRank, keys);
    canonical := canonical + Word(|keys|);
    ghost var start := canonical;
    NoEntries(filters);
    for i := 0 to |keys|
      invariant canonical == start + Entries(keys[..i], filters)
    {
      EntriesAppend(keys[..i], keys[i], filters);
      assert keys[..i + 1] == keys[..i] + [keys[i]];
      canonical := WriteEntry(canonical, keys[i], filters[keys[i]]);
    }
    assert keys[..|keys|] == keys;
    assert canonical == Framed(resource, keys, filters);
  }

  function HexDigit(v: int): Byte
    requires 0 <= v < 16
  {
    if v < 10 then 48 + v else 97 + (v - 10)
  }

  /** Lower-case hexadecimal. */
  function Hex(s: Bytes): Bytes {
    if s == [] then [] else [HexDigit(s[0] / 16), HexDigit(s[0] % 16)] + Hex(s[1..])
  }

  lemma DigitMeans(v: int)
    requires 0 <= v < 16
    ensures HexDigit(v) as char == "0123456789abcdef"[v]
  {
  }

  /** Two lower-case hexadecimal digits for each byte, the high half first. */
  lemma {:induction false} HexMeans(s: Bytes, i: nat)
    requires i < |s|
    ensures |Hex(s)| == 2 * |s|
    ensures Hex(s)[2 * i] as char == "0123456789abcdef"[s[i] / 16]
    ensures Hex(s)[2 * i + 1] as char == "0123456789abcdef"[s[i] % 16]
  {
    hide HexDigit;
    DigitMeans(s[0] / 16);
    DigitMeans(s[0] % 16);
    if |s| > 1 {
      HexMeans(s[1..], if i == 0 then 0 else i - 1);
    }
  }

  lemma {:induction false} HexInjective(s: Bytes, t: Bytes)
    requires Hex(s) == Hex(t)
    ensures s == t
  {
    if s != [] && t != [] {
      assert Hex(s)[0] == Hex(t)[0] && Hex(s)[1] == Hex(t)[1];
      assert Hex(s)[2..] == Hex(s[1..]) && Hex(t)[2..] == Hex(t[1..]);
      HexInjective(s[1..], t[1..]);
      assert s == [s[0]] + s[1..] && t == [t[0]] + t[1..];
    }
  }

  /** A fingerprint survives being carried in JSON text. */
  lemma {:induction false} HexIsText(s: Bytes)
    ensures Valid(Hex(s))
  {
    if s != [] {
      HexIsText(s[1..]);
      var h := Hex(s);
      assert Decode(h).ok && Decode(h).size == 1;
      assert Decode(h[1..]).ok && Decode(h[1..]).size == 1;
      assert h[1..][1..] == Hex(s[1..]);
    }
  }

  ghost predicate Fingerprints(hash: Bytes -> Bytes, fingerprint: Bytes, resource: Bytes, filters: Filters) {
    exists bytes :: Canonical(bytes, resource, filters) && fingerprint == Hex(hash(bytes))
  }

  /** The fingerprint under a hash, as NewBinding returns it. */
  method NewBinding(hash: Bytes -> Bytes, resource: Bytes, filters: Filters, order: seq<Bytes>)
    returns (fingerprint: Bytes)
    requires Lists(order, filters)
    ensures Fingerprints(hash, fingerprint, resource, filters)
    ensures Valid(fingerprint)
  {
    var canonical := CanonicalBytes(resource, filters, order);
    HexIsText(hash(canonical));
    fingerprint := Hex(hash(canonical));
  }

  /** Under a hash without collisions two fingerprints agree exactly when the queries do. */
  lemma FingerprintsAgreeIff(hash: Bytes -> Bytes, fp: Bytes, resource: Bytes, f: Filters,
                             fp': Bytes, resource': Bytes, g: Filters)
    requires forall a, b :: hash(a) == hash(b) ==> a == b
    requires Fingerprints(hash, fp, resource, f) && Fingerprints(hash, fp', resource', g)
    requires Writable(resource, f) && Writable(resource', g)
    ensures fp == fp' <==> resource == resource' && f == g
  {
    hide Canonical, Writable, Hex;
    var bytes :| Canonical(bytes, resource, f) && fp == Hex(hash(bytes));
    var bytes' :| Canonical(bytes', resource', g) && fp' == Hex(hash(bytes'));
    if fp == fp' {
      HexInjective(hash(bytes), hash(bytes'));
      CanonicalDeterminesQuery(bytes, resource, f, resource', g);
    } else if resource == resource' && f == g {
      QueryDeterminesCanonical(bytes, bytes', resource, f);
    }
  }
}
