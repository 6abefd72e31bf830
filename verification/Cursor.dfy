/**
 The signed cursor tokens of runtime/pagination/cursor.go. The MAC and the JSON codec of the
 payload are parameters; all else is written out: bounds, framing, base64url, the dot-separated
 token, the order of Decode's checks, and expiry in whole seconds.
 */
module Cursors {
  import opened Wrappers
  import opened Utf8
  import opened Int64
  import opened Separated
  import opened Framing
  import opened KeyRings
  import Base64Url

  const MAX_TOKEN_BYTES := 4096
  const MAX_CURSOR_VALUES := 8
  const MAX_CURSOR_VALUE_BYTES := 256
  const DOT: Byte := '.' as int
  const SECOND := 1_000_000_000

  /** The bytes of an ASCII literal. */
  function Text(s: string): (t: Bytes)
    requires forall i :: 0 <= i < |s| ==> s[i] as int < 128
    ensures |t| == |s| && forall i :: 0 <= i < |s| ==> t[i] == s[i] as int
  {
    seq(|s|, i requires 0 <= i < |s| => s[i] as int)
  }

  const VERSION: Bytes := Text("nc1")
  const FORWARD: Bytes := Text("forward")
  const BACKWARD: Bytes := Text("backward")

  datatype Payload = Payload(direction: Bytes, binding: Bytes, expiresAt: int, values: seq<Bytes>)

  /** What Decode returns; expiresAt is in seconds. */
  datatype Cursor = Cursor(direction: Bytes, values: seq<Bytes>, expiresAt: int)

  datatype CursorError =
    | Unbound | BadDirection | BadValues | Malformed | BadVersion | BadSignature | Expired | WrongBinding

  /** The keyed hash, and the JSON codec of the payload. */
  datatype Primitives = Primitives(
    mac: (Bytes, Bytes) -> Bytes,
    marshal: Payload -> Bytes,
    unmarshal: Bytes -> Option<Payload>)

  /** JSON carries valid UTF-8 and 64-bit integers faithfully; invalid bytes it would replace. */
  predicate Carried(p: Payload) {
    Valid(p.direction) && Valid(p.binding) && IsInt64(p.expiresAt) && forall v :: v in p.values ==> Valid(v)
  }

  ghost predicate Lawful(prims: Primitives) {
    forall p :: Carried(p) ==> prims.unmarshal(prims.marshal(p)) == Some(p)
  }

  predicate ValidDirection(d: Bytes) {
    d == FORWARD || d == BACKWARD
  }

  predicate CheckValues(values: seq<Bytes>) {
    1 <= |values| <= MAX_CURSOR_VALUES && forall v :: v in values ==> |v| <= MAX_CURSOR_VALUE_BYTES && Valid(v)
  }

  function Sign(prims: Primitives, key: Key, version: Bytes, keyID: Bytes, body: Bytes): Bytes {
    prims.mac(key.secret, SignedBytes(version, keyID, body))
  }

  /** The expiry written into a cursor issued at now: whole seconds, the fraction cut off. Times are in nanoseconds. */
  function ExpiresAt(now: int, ttl: int): int {
    (now + ttl) / SECOND
  }

  predicate Before(now: int, expiresAt: int) {
    now < expiresAt * SECOND
  }

  function Token(prims: Primitives, key: Key, payload: Payload): Bytes {
    var body := prims.marshal(payload);
    Join([DOT], [VERSION, key.id, Base64Url.Encode(body), Base64Url.Encode(Sign(prims, key, VERSION, key.id, body))])
  }

  function Encode(prims: Primitives, ring: KeyRing, ttl: int, now: int, binding: Bytes, direction: Bytes,
                  values: seq<Bytes>)
    : Result<Bytes, CursorError>
  {
    if binding == [] then Err(Unbound)
    else if !ValidDirection(direction) then Err(BadDirection)
    else if !CheckValues(values) then Err(BadValues)
    else
      var token := Token(prims, ring.active, Payload(direction, binding, ExpiresAt(now, ttl), values));
      if |token| > MAX_TOKEN_BYTES then Err(BadValues) else Ok(token)
  }

  /** The checks on a payload whose tag verified. */
  function Claims(now: int, binding: Bytes, payload: Payload): Result<Cursor, CursorError> {
    if !ValidDirection(payload.direction) || !CheckValues(payload.values) then Err(Malformed)
    else if !Before(now, payload.expiresAt) then Err(Expired)
    else if payload.binding != binding then Err(WrongBinding)
    else Ok(Cursor(payload.direction, payload.values, payload.expiresAt))
  }

  function DecodeSigned(prims: Primitives, ring: KeyRing, now: int, binding: Bytes, keyID: Bytes, body: Bytes,
                        tag: Bytes)
    : Result<Cursor, CursorError>
  {
    match Find(ring, keyID)
    case None => Err(BadSignature)
    case Some(key) =>
      if tag != Sign(prims, key, VERSION, keyID, body) then Err(BadSignature)
      else
        match prims.unmarshal(body)
        case None => Err(Malformed)
        case Some(payload) => Claims(now, binding, payload)
  }

  function DecodeParts(prims: Primitives, ring: KeyRing, now: int, binding: Bytes, parts: seq<Bytes>)
    : Result<Cursor, CursorError>
  {
    if |parts| != 4 then Err(Malformed)
    else if parts[0] != VERSION then Err(BadVersion)
    else if !ValidKeyID(parts[1]) then Err(Malformed)
    else
      match Base64Url.Decode(parts[2])
      case None => Err(Malformed)
      case Some(body) =>
        match Base64Url.Decode(parts[3])
        case None => Err(Malformed)
        case Some(tag) => DecodeSigned(prims, ring, now, binding, parts[1], body, tag)
  }

  function Decode(prims: Primitives, ring: KeyRing, now: int, binding: Bytes, token: Bytes)
    : Result<Cursor, CursorError>
  {
    if binding == [] then Err(Unbound)
    else if token == [] || |token| > MAX_TOKEN_BYTES then Err(Malformed)
    else DecodeParts(prims, ring, now, binding, Split(DOT, token))
  }

  lemma PartsRecovered(prims: Primitives, key: Key, payload: Payload)
    requires Constructed(key)
    ensures var body := prims.marshal(payload);
            Split(DOT, Token(prims, key, payload))
            == [VERSION, key.id, Base64Url.Encode(body), Base64Url.Encode(Sign(prims, key, VERSION, key.id, body))]
  {
    hide Base64Url.Encode, Sign, Split, Join;
    var body := prims.marshal(payload);
    var tag := Sign(prims, key, VERSION, key.id, body);
    Base64Url.EncodedIsLetters(body);
    Base64Url.EncodedIsLetters(tag);
    var parts := [VERSION, key.id, Base64Url.Encode(body), Base64Url.Encode(tag)];
    forall part | part in parts ensures DOT !in part {
      assert VERSION == [110, 99, 49];
    }
    SplitJoin(DOT, parts);
  }

  lemma {:induction false} AsciiValid(s: Bytes)
    requires forall i :: 0 <= i < |s| ==> s[i] < 128
    ensures Valid(s)
  {
    if s != [] {
      AsciiValid(s[1..]);
    }
  }

  lemma DirectionsAreText()
    ensures Valid(FORWARD) && Valid(BACKWARD)
  {
    AsciiValid(FORWARD);
    AsciiValid(BACKWARD);
  }

  /** What Decode says of a token it can verify: the expiry first, then the query, then the position itself. */
  function Verdict(now: int, binding: Bytes, payload: Payload): Result<Cursor, CursorError> {
    if !Before(now, payload.expiresAt) then Err(Expired)
    else if binding != payload.binding then Err(WrongBinding)
    else Ok(Cursor(payload.direction, payload.values, payload.expiresAt))
  }

  lemma SplitFreeOfNothing(token: Bytes)
    requires |Split(DOT, token)| == 4
    ensures token != []
  {
  }

  lemma ActiveConstructed(ring: KeyRing)
    requires ValidRing(ring)
    ensures Constructed(ring.active)
  {
    assert ring.active in Keys(ring);
  }

  lemma PayloadCarried(payload: Payload)
    requires ValidDirection(payload.direction) && CheckValues(payload.values)
    requires Valid(payload.binding) && IsInt64(payload.expiresAt)
    ensures Carried(payload)
  {
    DirectionsAreText();
  }

  /**
   A token Encode issued decodes, under any ring that still holds the signing key with the same secret and at any
   time, to exactly its direction, values and expiry until that expiry, and only for the query it was issued for.
   */
  lemma DecodeIssued(prims: Primitives, ring: KeyRing, ttl: int, issuedAt: int, binding: Bytes, direction: Bytes,
                     values: seq<Bytes>, token: Bytes, later: KeyRing, now: int, asked: Bytes)
    requires Lawful(prims) && ValidRing(ring) && ValidRing(later)
    requires Valid(binding) && IsInt64(ExpiresAt(issuedAt, ttl)) && asked != []
    requires Encode(prims, ring, ttl, issuedAt, binding, direction, values) == Ok(token)
    requires ring.active in Keys(later)
    ensures Decode(prims, later, now, asked, token)
         == Verdict(now, asked, Payload(direction, binding, ExpiresAt(issuedAt, ttl), values))
  {
    hide Base64Url.Encode, Base64Url.Decode, Split, Join, Find, ValidKeyID, CheckValues, ValidDirection, ValidRing,
         ExpiresAt;
    var payload := Payload(direction, binding, ExpiresAt(issuedAt, ttl), values);
    ActiveConstructed(ring);
    PartsRecovered(prims, ring.active, payload);
    PayloadCarried(payload);
    var body := prims.marshal(payload);
    Base64Url.DecodeEncoded(body);
    Base64Url.DecodeEncoded(Sign(prims, ring.active, VERSION, ring.active.id, body));
    FindsTheKey(later, ring.active);
    assert token != [] by {
      SplitFreeOfNothing(token);
    }
    assert ValidKeyID(ring.active.id);
  }

  /** Past its expiry an issued token is accepted by no ring at all, whatever keys that ring holds. */
  lemma IssuedExpires(prims: Primitives, ring: KeyRing, ttl: int, issuedAt: int, binding: Bytes, direction: Bytes,
                      values: seq<Bytes>, token: Bytes, later: KeyRing, now: int, asked: Bytes)
    requires Lawful(prims) && ValidRing(ring)
    requires Valid(binding) && IsInt64(ExpiresAt(issuedAt, ttl)) && asked != []
    requires Encode(prims, ring, ttl, issuedAt, binding, direction, values) == Ok(token)
    requires !Before(now, ExpiresAt(issuedAt, ttl))
    ensures Decode(prims, later, now, asked, token) == Err(Expired)
            || Decode(prims, later, now, asked, token) == Err(BadSignature)
  {
    hide Base64Url.Encode, Base64Url.Decode, Split, Join, Find, ValidKeyID, CheckValues, ValidDirection, ValidRing,
         ExpiresAt;
    var payload := Payload(direction, binding, ExpiresAt(issuedAt, ttl), values);
    ActiveConstructed(ring);
    PartsRecovered(prims, ring.active, payload);
    PayloadCarried(payload);
    var body := prims.marshal(payload);
    Base64Url.DecodeEncoded(body);
    Base64Url.DecodeEncoded(Sign(prims, ring.active, VERSION, ring.active.id, body));
    assert token != [] by {
      SplitFreeOfNothing(token);
    }
    assert ValidKeyID(ring.active.id);
  }

  lemma JoinedLength(a: Bytes, b: Bytes, c: Bytes, d: Bytes)
    ensures |Join([DOT], [a, b, c, d])| == |a| + |b| + |c| + |d| + 3
  {
    assert [a, b, c, d][1..] == [b, c, d] && [b, c, d][1..] == [c, d] && [c, d][1..] == [d];
    assert |Join([DOT], [c, d])| == |c| + 1 + |d|;
    assert |Join([DOT], [b, c, d])| == |b| + 1 + |Join([DOT], [c, d])|;
  }

  /** The bytes of a token: version and identifier as they are, body and tag six bits to a letter, three dots. */
  lemma TokenLength(prims: Primitives, key: Key, payload: Payload)
    ensures var body := prims.marshal(payload);
            |Token(prims, key, payload)|
            == 6 + |key.id| + (8 * |body| + 5) / 6 + (8 * |Sign(prims, key, VERSION, key.id, body)| + 5) / 6
  {
    hide Base64Url.Encode, Sign;
    var body := prims.marshal(payload);
    var tag := Sign(prims, key, VERSION, key.id, body);
    Base64Url.EncodedLength(body);
    Base64Url.EncodedLength(tag);
    JoinedLength(VERSION, key.id, Base64Url.Encode(body), Base64Url.Encode(tag));
  }

  /**
   A cursor is issued exactly for a bound query, a known direction, one to eight values of at most 256 valid bytes,
   and a token of at most 4096 bytes; otherwise the first of these that fails decides the error.
   */
  lemma EncodeSucceedsIff(prims: Primitives, ring: KeyRing, ttl: int, now: int, binding: Bytes, direction: Bytes,
                          values: seq<Bytes>)
    ensures var known := direction == Text("forward") || direction == Text("backward");
            var fitting := 1 <= |values| <= 8 && forall i :: 0 <= i < |values| ==>
              |values[i]| <= 256 && Valid(values[i]);
            var payload := Payload(direction, binding, (now + ttl) / 1_000_000_000, values);
            var body := prims.marshal(payload);
            var tag := prims.mac(ring.active.secret, SignedBytes(Text("nc1"), ring.active.id, body));
            var length := 6 + |ring.active.id| + (8 * |body| + 5) / 6 + (8 * |tag| + 5) / 6;
            var r := Encode(prims, ring, ttl, now, binding, direction, values);
            && (r.Ok? <==> binding != [] && known && fitting && length <= 4096)
            && (binding == [] ==> r == Err(Unbound))
            && (binding != [] && !known ==> r == Err(BadDirection))
            && (binding != [] && known && !(fitting && length <= 4096) ==> r == Err(BadValues))
  {
    hide Base64Url.Encode, SignedBytes, Token;
    TokenLength(prims, ring.active, Payload(direction, binding, ExpiresAt(now, ttl), values));
  }

  lemma BoundQuery(prims: Primitives, ring: KeyRing, ttl: int, now: int, binding: Bytes, direction: Bytes,
                   values: seq<Bytes>)
    requires Encode(prims, ring, ttl, now, binding, direction, values).Ok?
    ensures binding != []
  {
  }

  /**
   A cursor lives as long as it is meant to, to the second: for its own query it is accepted at any time up to a
   second before its lifetime is over, and at none from then on.
   */
  lemma LivesItsLifetime(prims: Primitives, ring: KeyRing, ttl: int, issuedAt: int, binding: Bytes, direction: Bytes,
                         values: seq<Bytes>, token: Bytes, later: KeyRing, now: int)
    requires Lawful(prims) && ValidRing(ring) && ValidRing(later) && ring.active in Keys(later)
    requires Valid(binding) && IsInt64((issuedAt + ttl) / 1_000_000_000)
    requires Encode(prims, ring, ttl, issuedAt, binding, direction, values) == Ok(token)
    ensures now <= issuedAt + ttl - 1_000_000_000 ==>
              var r := Decode(prims, later, now, binding, token);
              r.Ok? && r.value.direction == direction && r.value.values == values
    ensures now >= issuedAt + ttl ==> Decode(prims, later, now, binding, token) == Err(Expired)
  {
    hide Encode, Decode, ValidRing, Keys, Lawful;
    BoundQuery(prims, ring, ttl, issuedAt, binding, direction, values);
    DecodeIssued(prims, ring, ttl, issuedAt, binding, direction, values, token, later, now, binding);
  }

  ghost predicate Tagged(prims: Primitives, key: Key, token: Bytes, body: Bytes) {
    var dot: Byte := '.' as int;
    var parts := Split(dot, token);
    |parts| == 4 && parts[0] == Text("nc1") && parts[1] == key.id && Base64Url.Decode(parts[2]) == Some(body)
    && Base64Url.Decode(parts[3]) == Some(Sign(prims, key, VERSION, key.id, body))
  }

  /** Some key of the ring tagged exactly this body under its own identifier. */
  ghost predicate Verified(prims: Primitives, ring: KeyRing, token: Bytes, body: Bytes) {
    exists key :: key in Keys(ring) && Tagged(prims, key, token, body)
  }

  /**
   Nothing unverified influences the result: whatever Decode accepts, a key of the ring tagged the body it came
   from.
   */
  lemma AcceptedIsVerified(prims: Primitives, ring: KeyRing, now: int, binding: Bytes, token: Bytes)
    requires Decode(prims, ring, now, binding, token).Ok?
    ensures exists body :: Verified(prims, ring, token, body) && prims.unmarshal(body).Some?
              && Decode(prims, ring, now, binding, token) == Claims(now, binding, prims.unmarshal(body).value)
  {
    hide Split, Base64Url.Decode, ValidKeyID, Sign, Claims;
    var parts := Split(DOT, token);
    var body := Base64Url.Decode(parts[2]).value;
    var key := Find(ring, parts[1]).value;
    assert key in Keys(ring) && Tagged(prims, key, token, body);
    assert Verified(prims, ring, token, body);
  }

  lemma VerifiedKeyFound(prims: Primitives, ring: KeyRing, key: Key, token: Bytes, body: Bytes)
    requires ValidRing(ring) && key in Keys(ring) && Tagged(prims, key, token, body)
    ensures token != [] && ValidKeyID(key.id) && Find(ring, key.id) == Some(key)
  {
    hide Split, Base64Url.Decode, ValidKeyID, Find;
    FindsTheKey(ring, key);
    SplitFreeOfNothing(token);
    assert Constructed(key);
  }

  /**
   A token is accepted as a cursor exactly when it is within 4096 bytes, a key of the ring tagged its body, and the
   body holds that cursor for this very query: a known direction, one to eight values of at most 256 valid bytes,
   and an expiry not yet reached.
   */
  lemma AcceptedIff(prims: Primitives, ring: KeyRing, now: int, binding: Bytes, token: Bytes, c: Cursor)
    requires ValidRing(ring)
    ensures Decode(prims, ring, now, binding, token) == Ok(c)
            <==> binding != [] && |token| <= 4096 && now < c.expiresAt * 1_000_000_000
                 && (c.direction == Text("forward") || c.direction == Text("backward"))
                 && 1 <= |c.values| <= 8 && (forall i :: 0 <= i < |c.values| ==>
                                             |c.values[i]| <= 256 && Valid(c.values[i]))
                 && exists body :: Verified(prims, ring, token, body)
                      && prims.unmarshal(body) == Some(Payload(c.direction, binding, c.expiresAt, c.values))
  {
    hide Split, Base64Url.Decode, ValidKeyID, Sign, ValidRing, FindIn;
    if Decode(prims, ring, now, binding, token) == Ok(c) {
      var parts := Split(DOT, token);
      var body := Base64Url.Decode(parts[2]).value;
      var key := Find(ring, parts[1]).value;
      assert key in Keys(ring) && Tagged(prims, key, token, body);
      assert Verified(prims, ring, token, body);
    }
    if exists body :: Verified(prims, ring, token, body)
         && prims.unmarshal(body) == Some(Payload(c.direction, binding, c.expiresAt, c.values)) {
      var body :| Verified(prims, ring, token, body)
        && prims.unmarshal(body) == Some(Payload(c.direction, binding, c.expiresAt, c.values));
      var key :| key in Keys(ring) && Tagged(prims, key, token, body);
      VerifiedKeyFound(prims, ring, key, token, body);
    }
  }
}
