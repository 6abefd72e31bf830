/** The signing keys of runtime/pagination/key.go: one active key and the retired keys that still verify. */
module KeyRings {
  import opened Wrappers
  import opened Utf8
  import opened Pigeonhole

  const MIN_KEY_BYTES := 32
  const MAX_KEY_ID_BYTES := 32
  const MAX_RETIRED_KEYS := 8

  datatype Key = Key(id: Bytes, secret: Bytes)

  datatype KeyRing = KeyRing(active: Key, retired: seq<Key>)

  datatype KeyError = BadKeyID | ShortSecret | DuplicateKeyID | TooManyRetired

  /** Lower-case letters, digits, '-' and '_', at least one and at most 32 of them. */
  predicate ValidKeyID(id: Bytes) {
    && id != [] && |id| <= MAX_KEY_ID_BYTES
    && forall b :: b in id ==> 97 <= b <= 122 || 48 <= b <= 57 || b == 45 || b == 95
  }

  /** What NewKey guarantees of every key it returns. A key it did not return is the zero value, with no identifier. */
  predicate Constructed(key: Key) {
    ValidKeyID(key.id) && |key.secret| >= MIN_KEY_BYTES
  }

  function NewKey(id: Bytes, secret: Bytes): (r: Result<Key, KeyError>)
    ensures r.Ok?
            <==> 1 <= |id| <= 32 && |secret| >= 32
                 && forall b :: b in id ==> var c := b as char; 'a' <= c <= 'z' || '0' <= c <= '9' || c in "-_"
    ensures r.Ok? ==> r.value == Key(id, secret) && Constructed(r.value)
    ensures !ValidKeyID(id) ==> r == Err(BadKeyID)
  {
    if !ValidKeyID(id) then Err(BadKeyID)
    else if |secret| < MIN_KEY_BYTES then Err(ShortSecret)
    else Ok(Key(id, secret))
  }

  function Keys(ring: KeyRing): seq<Key> {
    [ring.active] + ring.retired
  }

  function IDs(keys: seq<Key>): seq<Bytes> {
    seq(|keys|, i requires 0 <= i < |keys| => keys[i].id)
  }

  ghost predicate ValidRing(ring: KeyRing) {
    && |ring.retired| <= MAX_RETIRED_KEYS && Distinct(IDs(Keys(ring)))
    && forall key :: key in Keys(ring) ==> Constructed(key)
  }

  /** Retired key i is the first that NewKeyRing refuses. */
  ghost predicate FirstRefused(active: Key, retired: seq<Key>, i: nat) {
    i < |retired|
    && (forall j :: 0 <= j < i ==> retired[j].id != [])
    && Distinct(IDs([active] + retired[..i]))
    && (retired[i].id == [] || retired[i].id in IDs([active] + retired[..i]))
  }

  ghost predicate RefusedFor(active: Key, retired: seq<Key>, error: KeyError) {
    exists i: nat :: FirstRefused(active, retired, i)
      && error == if retired[i].id == [] then BadKeyID else DuplicateKeyID
  }

  lemma Unconstructed(ring: KeyRing, key: Key)
    requires key in Keys(ring) && key.id == []
    ensures !ValidRing(ring)
  {
  }

  lemma Repeated(active: Key, retired: seq<Key>, i: nat)
    requires i < |retired| && retired[i].id in IDs([active] + retired[..i])
    ensures !ValidRing(KeyRing(active, retired))
  {
    var all := IDs(Keys(KeyRing(active, retired)));
    var j :| 0 <= j < i + 1 && IDs([active] + retired[..i])[j] == retired[i].id;
    assert all[i + 1] == retired[i].id && all[j] == retired[i].id;
  }

  lemma IDsExtended(keys: seq<Key>, key: Key)
    requires Distinct(IDs(keys)) && key.id !in IDs(keys)
    ensures IDs(keys + [key]) == IDs(keys) + [key.id] && Distinct(IDs(keys + [key]))
  {
  }

  /** Accepts exactly the rings whose identifiers are unique and whose keys were all constructed. */
  method NewKeyRing(active: Key, retired: seq<Key>) returns (r: Result<KeyRing, KeyError>)
    requires forall key :: key in [active] + retired ==> key.id == [] || Constructed(key)
    ensures r.Ok? ==> r.value == KeyRing(active, retired)
    ensures r.Ok? <==> ValidRing(KeyRing(active, retired))
    ensures active.id == [] ==> r == Err(BadKeyID)
    ensures active.id != [] && |retired| > 8 ==> r == Err(TooManyRetired)
    ensures active.id != [] && |retired| <= 8 && r.Err? ==> RefusedFor(active, retired, r.error)
  {
    hide Constructed;
    ghost var ring := KeyRing(active, retired);
    if active.id == [] {
      Unconstructed(ring, active);
      return Err(BadKeyID);
    }
    if |retired| > MAX_RETIRED_KEYS {
      return Err(TooManyRetired);
    }
    var seen := {active.id};
    assert IDs([active] + retired[..0]) == [active.id];
    for i := 0 to |retired|
      invariant forall id :: id in seen <==> id in IDs([active] + retired[..i])
      invariant Distinct(IDs([active] + retired[..i]))
      invariant forall j :: 0 <= j < i ==> retired[j].id != []
    {
      var key := retired[i];
      if key.id == [] {
        Unconstructed(ring, key);
        assert FirstRefused(active, retired, i);
        return Err(BadKeyID);
      }
      if key.id in seen {
        Repeated(active, retired, i);
        assert FirstRefused(active, retired, i);
        return Err(DuplicateKeyID);
      }
      IDsExtended([active] + retired[..i], key);
      assert [active] + retired[..i + 1] == [active] + retired[..i] + [key];
      seen := seen + {key.id};
    }
    assert retired[..|retired|] == retired;
    r := Ok(KeyRing(active, retired));
  }

  function FindIn(keys: seq<Key>, id: Bytes): (found: Option<Key>)
    ensures found.Some? ==> found.value in keys && found.value.id == id
    ensures found.None? ==> forall key :: key in keys ==> key.id != id
  {
    if keys == [] then None else if id == keys[0].id then Some(keys[0]) else FindIn(keys[1..], id)
  }

  function Find(ring: KeyRing, id: Bytes): Option<Key> {
    FindIn(Keys(ring), id)
  }

  /** Unique identifiers make the lookup independent of the order of the keys: it returns the key of that identifier. */
  lemma FindsTheKey(ring: KeyRing, key: Key)
    requires ValidRing(ring)
    ensures Find(ring, key.id) == Some(key) <==> key in Keys(ring)
  {
    var keys := Keys(ring);
    if key in keys {
      var found := FindIn(keys, key.id).value;
      var i :| 0 <= i < |keys| && keys[i] == key;
      var j :| 0 <= j < |keys| && keys[j] == found;
      assert IDs(keys)[i] == IDs(keys)[j];
    }
  }

  lemma FindOrderIrrelevant(ring: KeyRing, ring': KeyRing, id: Bytes)
    requires ValidRing(ring) && ValidRing(ring') && forall key :: key in Keys(ring) <==> key in Keys(ring')
    ensures Find(ring, id) == Find(ring', id)
  {
    hide ValidRing;
    if Find(ring, id).Some? {
      FindsTheKey(ring', Find(ring, id).value);
    }
  }
}
