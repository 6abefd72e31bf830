/**
 The length-prefixed framing of runtime/pagination/cursor.go: every field is preceded by its
 length as eight big-endian bytes, so no two sequences of fields produce the same bytes.
 */
module Framing {
  import opened Utf8

  /** One more than the largest length eight bytes can hold. Every length in Go is below it. */
  const WORD := 0x1_0000_0000_0000_0000

  function Power(width: nat): nat {
    if width == 0 then 1 else 256 * Power(width - 1)
  }

  function BigEndian(value: nat, width: nat): (s: Bytes)
    ensures |s| == width
  {
    if width == 0 then [] else BigEndian(value / 256, width - 1) + [value % 256]
  }

  function Word(value: nat): (s: Bytes)
    ensures |s| == 8
  {
    BigEndian(value, 8)
  }

  function LengthPrefixed(data: Bytes): Bytes {
    Word(|data|) + data
  }

  /** The bytes a cursor's tag is computed over. */
  function SignedBytes(version: Bytes, keyID: Bytes, body: Bytes): Bytes {
    LengthPrefixed(version) + LengthPrefixed(keyID) + LengthPrefixed(body)
  }

  predicate Fits(data: Bytes) {
    |data| < WORD
  }

  lemma {:induction false} BigEndianInjective(v: nat, w: nat, width: nat)
    requires v < Power(width) && w < Power(width) && BigEndian(v, width) == BigEndian(w, width)
    ensures v == w
  {
    if width > 0 {
      var s, t := BigEndian(v, width), BigEndian(w, width);
      assert s[width - 1] == v % 256 && t[width - 1] == w % 256;
      assert s[..width - 1] == BigEndian(v / 256, width - 1) && t[..width - 1] == BigEndian(w / 256, width - 1);
      BigEndianInjective(v / 256, w / 256, width - 1);
    }
  }

  lemma WordSize()
    ensures Power(8) == WORD
  {
    assert Power(4) == 0x1_0000_0000;
    assert Power(8) == 0x1_0000_0000 * Power(4);
  }

  /** The number that bytes denote, most significant first. */
  function Denoted(s: Bytes): nat {
    if s == [] then 0 else 256 * Denoted(s[..|s| - 1]) + s[|s| - 1]
  }

  lemma DenotedAppended(s: Bytes, b: Byte)
    ensures Denoted(s + [b]) == 256 * Denoted(s) + b
  {
    assert (s + [b])[..|s|] == s;
  }

  lemma {:induction false} BigEndianDenotes(value: nat, width: nat)
    requires value < Power(width)
    ensures Denoted(BigEndian(value, width)) == value
  {
    if width > 0 {
      hide Denoted;
      BigEndianDenotes(value / 256, width - 1);
      DenotedAppended(BigEndian(value / 256, width - 1), value % 256);
    } else {
      assert value == 0;
    }
  }

  /** A length is written as the eight bytes that denote it, most significant first. */
  lemma WordDenotes(value: nat)
    requires value < 0x1_0000_0000_0000_0000
    ensures |Word(value)| == 8 && Denoted(Word(value)) == value
  {
    WordSize();
    BigEndianDenotes(value, 8);
  }

  lemma WordUnique(v: nat, s: Bytes, w: nat, t: Bytes)
    requires v < WORD && w < WORD && Word(v) + s == Word(w) + t
    ensures v == w && s == t
  {
    hide BigEndian, Power;
    WordSize();
    assert Word(v) == (Word(v) + s)[..8] && Word(w) == (Word(w) + t)[..8];
    assert s == (Word(v) + s)[8..] && t == (Word(w) + t)[8..];
    BigEndianInjective(v, w, 8);
  }

  /** A framed field ends where its length says, whatever follows it. */
  lemma PrefixedUnique(a: Bytes, s: Bytes, b: Bytes, t: Bytes)
    requires Fits(a) && Fits(b) && LengthPrefixed(a) + s == LengthPrefixed(b) + t
    ensures a == b && s == t
  {
    hide Word;
    assert Word(|a|) + (a + s) == LengthPrefixed(a) + s && Word(|b|) + (b + t) == LengthPrefixed(b) + t;
    WordUnique(|a|, a + s, |b|, b + t);
    assert a == (a + s)[..|a|] && b == (b + t)[..|b|];
    assert s == (a + s)[|a|..] && t == (b + t)[|b|..];
  }

  /** No byte can move across a field boundary without changing what is signed. */
  lemma SignedBytesInjective(version: Bytes, keyID: Bytes, body: Bytes, version': Bytes, keyID': Bytes, body': Bytes)
    requires Fits(version) && Fits(keyID) && Fits(body) && Fits(version') && Fits(keyID') && Fits(body')
    requires SignedBytes(version, keyID, body) == SignedBytes(version', keyID', body')
    ensures version == version' && keyID == keyID' && body == body'
  {
    hide LengthPrefixed;
    var tail, tail' := LengthPrefixed(keyID) + LengthPrefixed(body), LengthPrefixed(keyID') + LengthPrefixed(body');
    assert SignedBytes(version, keyID, body) == LengthPrefixed(version) + tail;
    assert SignedBytes(version', keyID', body') == LengthPrefixed(version') + tail';
    PrefixedUnique(version, tail, version', tail');
    PrefixedUnique(keyID, LengthPrefixed(body), keyID', LengthPrefixed(body'));
    assert LengthPrefixed(body) + [] == LengthPrefixed(body) && LengthPrefixed(body') + [] == LengthPrefixed(body');
    PrefixedUnique(body, [], body', []);
  }
}
