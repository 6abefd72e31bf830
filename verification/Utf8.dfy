/**
 UTF-8 as Go's unicode/utf8 reads and writes it (RFC 3629): one rune at a time, a byte
 that starts no well-formed sequence decoding to U+FFFD with size 1.
 */
module Utf8 {

  type Byte = x: int | 0 <= x < 256

  type Bytes = seq<Byte>

  const RuneError := 0xFFFD

  /** One decoding step: the rune, how many bytes it took, and whether they were well formed. */
  datatype Step = Step(rune: int, size: nat, ok: bool)

  predicate IsScalar(r: int) {
    0 <= r < 0xD800 || 0xE000 <= r <= 0x10FFFF
  }

  predicate Continues(b: Byte) {
    0x80 <= b <= 0xBF
  }

  /** The second-byte range each lead byte of a three- or four-byte sequence permits. */
  predicate SecondAfter(lead: Byte, b: Byte) {
    Continues(b)
    && (lead == 0xE0 ==> 0xA0 <= b)
    && (lead == 0xED ==> b <= 0x9F)
    && (lead == 0xF0 ==> 0x90 <= b)
    && (lead == 0xF4 ==> b <= 0x8F)
  }

  /** Appends one six-bit continuation byte to the bits read so far. */
  function Shift(high: int, continuation: int): int {
    high * 0x40 + (continuation - 0x80)
  }

  function Decode(s: Bytes): (d: Step)
    requires s != []
    ensures 1 <= d.size <= |s|
    ensures IsScalar(d.rune)
    ensures d.rune < 0x80 ==> d.size == 1 && s[0] == d.rune
    ensures d.rune >= 0x80 ==> s[0] >= 0x80
  {
    var lead: int := s[0];
    if lead < 0x80 then Step(lead, 1, true)
    else if 0xC2 <= lead <= 0xDF && |s| >= 2 && Continues(s[1]) then
      Step(Shift(lead - 0xC0, s[1]), 2, true)
    else if 0xE0 <= lead <= 0xEF && |s| >= 3 && SecondAfter(s[0], s[1]) && Continues(s[2]) then
      Step(Shift(Shift(lead - 0xE0, s[1]), s[2]), 3, true)
    else if 0xF0 <= lead <= 0xF4 && |s| >= 4 && SecondAfter(s[0], s[1]) && Continues(s[2]) && Continues(s[3]) then
      Step(Shift(Shift(Shift(lead - 0xF0, s[1]), s[2]), s[3]), 4, true)
    else Step(RuneError, 1, false)
  }

  function Encode(r: int): (s: Bytes)
    ensures 1 <= |s| <= 4
    ensures 0 <= r < 0x80 ==> s == [r]
    ensures !(0 <= r < 0x80) ==> forall i :: 0 <= i < |s| ==> s[i] >= 0x80
  {
    if 0 <= r < 0x80 then [r]
    else if 0x80 <= r < 0x800 then [0xC0 + r / 0x40, 0x80 + r % 0x40]
    else if !IsScalar(r) then [0xEF, 0xBF, 0xBD]
    else
      var high := r / 0x40;
      if r < 0x10000 then [0xE0 + high / 0x40, 0x80 + high % 0x40, 0x80 + r % 0x40]
      else [0xF0 + high / 0x40 / 0x40, 0x80 + high / 0x40 % 0x40, 0x80 + high % 0x40, 0x80 + r % 0x40]
  }

  /** The rune conversion: every rune of s, malformed bytes as U+FFFD. */
  function Runes(s: Bytes): (rs: seq<int>) {
    if s == [] then [] else [Decode(s).rune] + Runes(s[Decode(s).size..])
  }

  function EncodeAll(rs: seq<int>): (s: Bytes) {
    if rs == [] then [] else Encode(rs[0]) + EncodeAll(rs[1..])
  }

  predicate Valid(s: Bytes) {
    s == [] || (Decode(s).ok && Valid(s[Decode(s).size..]))
  }

  lemma DecodeThree(r: int, rest: Bytes)
    requires IsScalar(r) && 0x800 <= r < 0x10000
    ensures Decode(Encode(r) + rest) == Step(r, 3, true)
  {
    var s := Encode(r) + rest;
    var high := r / 0x40;
    var top := high / 0x40;
    assert 0 <= top < 0x10 && high == top * 0x40 + high % 0x40 && r == high * 0x40 + r % 0x40;
    assert s[0] == 0xE0 + top && s[1] == 0x80 + high % 0x40 && s[2] == 0x80 + r % 0x40;
    assert Shift(Shift(top, s[1]), s[2]) == r;
    assert SecondAfter(s[0], s[1]);
  }

  lemma DecodeFour(r: int, rest: Bytes)
    requires IsScalar(r) && 0x10000 <= r
    ensures Decode(Encode(r) + rest) == Step(r, 4, true)
  {
    var s := Encode(r) + rest;
    var high := r / 0x40;
    var mid := high / 0x40;
    var top := mid / 0x40;
    assert mid == top * 0x40 + mid % 0x40 && high == mid * 0x40 + high % 0x40 && r == high * 0x40 + r % 0x40;
    assert 0x10 <= mid <= 0x10F && 0 <= top <= 4;
    assert s[0] == 0xF0 + top && s[1] == 0x80 + mid % 0x40 && s[2] == 0x80 + high % 0x40 && s[3] == 0x80 + r % 0x40;
    assert Shift(Shift(Shift(top, s[1]), s[2]), s[3]) == r;
    assert SecondAfter(s[0], s[1]);
  }

  /** Decoding what was just encoded recovers the rune and its exact length, whatever follows. */
  lemma DecodeEncoded(r: int, rest: Bytes)
    requires IsScalar(r)
    ensures Decode(Encode(r) + rest) == Step(r, |Encode(r)|, true)
  {
    if r >= 0x10000 {
      DecodeFour(r, rest);
    } else if r >= 0x800 {
      DecodeThree(r, rest);
    } else if r >= 0x80 {
      var s := Encode(r) + rest;
      assert s[0] == 0xC0 + r / 0x40 && s[1] == 0x80 + r % 0x40;
    }
  }

  lemma EncodeShifted(high: int, b: Byte)
    requires Continues(b)
    ensures Shift(high, b) / 0x40 == high && Shift(high, b) % 0x40 == b - 0x80
  {
  }

  lemma EncodeDecoded(s: Bytes)
    requires s != [] && Decode(s).ok
    ensures Encode(Decode(s).rune) == s[..Decode(s).size]
  {
    var d := Decode(s);
    match d.size
    case 4 => EncodeShifted(Shift(Shift(s[0] as int - 0xF0, s[1]), s[2]), s[3]);
      EncodeShifted(Shift(s[0] as int - 0xF0, s[1]), s[2]);
      EncodeShifted(s[0] as int - 0xF0, s[1]);
    case 3 => EncodeShifted(Shift(s[0] as int - 0xE0, s[1]), s[2]);
      EncodeShifted(s[0] as int - 0xE0, s[1]);
    case 2 => EncodeShifted(s[0] as int - 0xC0, s[1]);
    case _ =>
  }

  /** Encoding what was decoded never takes fewer bytes; a malformed byte comes back as three. */
  lemma {:induction false} ReencodedNoShorter(s: Bytes)
    ensures |EncodeAll(Runes(s))| >= |s|
    decreases |s|
  {
    if s != [] {
      var d := Decode(s);
      ReencodedNoShorter(s[d.size..]);
      assert Runes(s)[1..] == Runes(s[d.size..]);
      if d.ok {
        EncodeDecoded(s);
      }
    }
  }

  /** Valid strings are exactly those that survive decoding and re-encoding. */
  lemma {:induction false} ValidIffReencodes(s: Bytes)
    ensures Valid(s) <==> EncodeAll(Runes(s)) == s
    decreases |s|
  {
    if s != [] {
      var d := Decode(s);
      var again := EncodeAll(Runes(s[d.size..]));
      assert Runes(s)[1..] == Runes(s[d.size..]);
      ValidIffReencodes(s[d.size..]);
      if d.ok {
        EncodeDecoded(s);
        assert (s[..d.size] + again)[d.size..] == again;
      } else {
        ReencodedNoShorter(s[d.size..]);
        assert |EncodeAll(Runes(s))| == 3 + |again|;
      }
    }
  }

  lemma {:induction false} DecodeLocal(s: Bytes, t: Bytes)
    requires s != [] && Decode(s).ok
    ensures Decode(s + t) == Decode(s)
  {
    var d := Decode(s);
    EncodeDecoded(s);
    DecodeEncoded(d.rune, s[d.size..] + t);
    assert s + t == Encode(d.rune) + (s[d.size..] + t);
  }
}
