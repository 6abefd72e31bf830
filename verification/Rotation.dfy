/**
 Issuing cursors while keys rotate: every run of issuing, passing time and replacing the ring in
 which a key leaves only once the cursors it signed have expired.
 */
module Rotation {
  import opened Wrappers
  import Utf8
  import opened Int64
  import opened KeyRings
  import opened Cursors

  datatype Issued = Issued(token: Utf8.Bytes, ring: KeyRing, issuedAt: int, binding: Utf8.Bytes,
                           direction: Utf8.Bytes, values: seq<Utf8.Bytes>)

  datatype State = State(now: int, ring: KeyRing, issued: seq<Issued>)

  /** The record is of a token Encode returned. */
  ghost predicate Genuine(prims: Primitives, ttl: int, r: Issued) {
    ValidRing(r.ring) && Utf8.Valid(r.binding) && IsInt64(ExpiresAt(r.issuedAt, ttl))
    && Encode(prims, r.ring, ttl, r.issuedAt, r.binding, r.direction, r.values) == Ok(r.token)
  }

  /** The token has not reached its stored expiry, which the encoding cuts to whole seconds. */
  predicate Live(now: int, ttl: int, r: Issued) {
    Before(now, ExpiresAt(r.issuedAt, ttl))
  }

  ghost predicate Start(s: State) {
    ValidRing(s.ring) && s.issued == []
  }

  predicate Wait(s: State, s': State) {
    s.now <= s'.now && s' == s.(now := s'.now)
  }

  ghost predicate Issue(prims: Primitives, ttl: int, s: State, s': State) {
    exists r: Issued :: r.ring == s.ring && r.issuedAt == s.now && Genuine(prims, ttl, r)
      && s' == s.(issued := s.issued + [r])
  }

  /** The ring is replaced by any other that keeps each key, secret included, whose cursors may still be presented. */
  ghost predicate Rotate(ttl: int, s: State, s': State) {
    ValidRing(s'.ring) && s' == s.(ring := s'.ring)
    && forall r :: r in s.issued && Live(s.now, ttl, r) ==> r.ring.active in Keys(s'.ring)
  }

  ghost predicate Next(prims: Primitives, ttl: int, s: State, s': State) {
    Wait(s, s') || Issue(prims, ttl, s, s') || Rotate(ttl, s, s')
  }

  ghost predicate IsRun(prims: Primitives, ttl: int, run: seq<State>) {
    run != [] && Start(run[0]) && forall k :: 0 <= k < |run| - 1 ==> Next(prims, ttl, run[k], run[k + 1])
  }

  ghost predicate Inv(prims: Primitives, ttl: int, s: State) {
    ValidRing(s.ring)
    && forall r :: r in s.issued ==> Genuine(prims, ttl, r) && (Live(s.now, ttl, r) ==> r.ring.active in Keys(s.ring))
  }

  lemma StepKeepsInv(prims: Primitives, ttl: int, s: State, s': State)
    requires Inv(prims, ttl, s) && Next(prims, ttl, s, s')
    ensures Inv(prims, ttl, s')
  {
    hide Genuine, ValidRing;
    if Issue(prims, ttl, s, s') {
      var r: Issued :| r.ring == s.ring && r.issuedAt == s.now && Genuine(prims, ttl, r)
        && s' == s.(issued := s.issued + [r]);
      assert r.ring.active in Keys(s'.ring);
    } else if Wait(s, s') {
      assert forall r :: Live(s'.now, ttl, r) ==> Live(s.now, ttl, r);
    }
  }

  lemma StartInv(prims: Primitives, ttl: int, s: State)
    requires Start(s)
    ensures Inv(prims, ttl, s)
  {
  }

  lemma {:induction false} RunKeepsInv(prims: Primitives, ttl: int, run: seq<State>, k: nat)
    requires IsRun(prims, ttl, run) && k < |run|
    ensures Inv(prims, ttl, run[k])
  {
    hide Inv, Next;
    if k == 0 {
      StartInv(prims, ttl, run[0]);
    } else {
      RunKeepsInv(prims, ttl, run, k - 1);
      assert Next(prims, ttl, run[k - 1], run[k - 1 + 1]);
      StepKeepsInv(prims, ttl, run[k - 1], run[k]);
    }
  }

  /**
   In every run, every token ever issued decodes to exactly its direction, values and expiry for its own query until
   its stored expiry, is refused for any other query, and is accepted by no one from then on.
   */
  lemma EveryIssuedTokenDecodes(prims: Primitives, ttl: int, run: seq<State>, k: nat, r: Issued, asked: Utf8.Bytes)
    requires Lawful(prims) && IsRun(prims, ttl, run) && k < |run| && r in run[k].issued && asked != []
    ensures var expiresAt := ExpiresAt(r.issuedAt, ttl);
            var result := Decode(prims, run[k].ring, run[k].now, asked, r.token);
            if Before(run[k].now, expiresAt) then
              result == if asked == r.binding then Ok(Cursor(r.direction, r.values, expiresAt)) else Err(WrongBinding)
            else
              result == Err(Expired) || result == Err(BadSignature)
  {
    hide IsRun, Encode, Decode, ValidRing, Keys, Lawful;
    RunKeepsInv(prims, ttl, run, k);
    var s := run[k];
    var expiresAt := ExpiresAt(r.issuedAt, ttl);
    if Before(s.now, expiresAt) {
      assert Live(s.now, ttl, r);
      DecodeIssued(prims, r.ring, ttl, r.issuedAt, r.binding, r.direction, r.values, r.token, s.ring, s.now, asked);
    } else {
      IssuedExpires(prims, r.ring, ttl, r.issuedAt, r.binding, r.direction, r.values, r.token, s.ring, s.now, asked);
    }
  }

  /** Rotation takes nothing from a cursor's lifetime: to the second it is the one it was issued with. */
  lemma EveryTokenLivesItsLifetime(prims: Primitives, ttl: int, run: seq<State>, k: nat, r: Issued)
    requires Lawful(prims) && IsRun(prims, ttl, run) && k < |run| && r in run[k].issued
    ensures var result := Decode(prims, run[k].ring, run[k].now, r.binding, r.token);
            && (run[k].now <= r.issuedAt + ttl - 1_000_000_000 ==>
                  result.Ok? && result.value.direction == r.direction && result.value.values == r.values)
            && (run[k].now >= r.issuedAt + ttl ==> result.Err?)
  {
    hide IsRun, Encode, Decode, ValidRing, Keys, Lawful;
    RunKeepsInv(prims, ttl, run, k);
    BoundQuery(prims, r.ring, ttl, r.issuedAt, r.binding, r.direction, r.values);
    EveryIssuedTokenDecodes(prims, ttl, run, k, r, r.binding);
  }

  lemma RunExtended(prims: Primitives, ttl: int, run: seq<State>, s': State)
    requires IsRun(prims, ttl, run) && Next(prims, ttl, run[|run| - 1], s')
    ensures IsRun(prims, ttl, run + [s'])
  {
    hide Next;
    var longer := run + [s'];
    forall k | 0 <= k < |longer| - 1 ensures Next(prims, ttl, longer[k], longer[k + 1]) {
      if k < |run| - 1 { assert Next(prims, ttl, run[k], run[k + 1]); }
    }
  }

  /**
   Nothing else stands in the way: any run goes on to any later moment, to a ring that keeps the keys still needed,
   and to whatever token the ring in use issues.
   */
  lemma RunGoesOn(prims: Primitives, ttl: int, run: seq<State>, later: int, ring: KeyRing, r: Issued)
    requires IsRun(prims, ttl, run)
    ensures var s := run[|run| - 1];
            && (s.now <= later ==> IsRun(prims, ttl, run + [s.(now := later)]))
            && (ValidRing(ring)
                && (forall i :: i in s.issued && Before(s.now, ExpiresAt(i.issuedAt, ttl)) ==>
                    i.ring.active in Keys(ring))
                ==> IsRun(prims, ttl, run + [s.(ring := ring)]))
            && (r.ring == s.ring && r.issuedAt == s.now && Genuine(prims, ttl, r)
                ==> IsRun(prims, ttl, run + [s.(issued := s.issued + [r])]))
  {
    var s := run[|run| - 1];
    hide IsRun, ValidRing, Genuine, ExpiresAt, Before, Keys;
    if s.now <= later {
      assert Wait(s, s.(now := later));
      RunExtended(prims, ttl, run, s.(now := later));
    }
    if ValidRing(ring)
       && forall i :: i in s.issued && Before(s.now, ExpiresAt(i.issuedAt, ttl)) ==> i.ring.active in Keys(ring) {
      assert Rotate(ttl, s, s.(ring := ring));
      RunExtended(prims, ttl, run, s.(ring := ring));
    }
    if r.ring == s.ring && r.issuedAt == s.now && Genuine(prims, ttl, r) {
      assert Issue(prims, ttl, s, s.(issued := s.issued + [r]));
      RunExtended(prims, ttl, run, s.(issued := s.issued + [r]));
    }
  }
}
