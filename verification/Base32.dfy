/** base32 (section 6 of RFC 4648) without padding, decoded as Go's encoding/base32 decodes it. */
module Base32 {
  import opened Wrappers
  import opened Utf8

  type Quintet = x: int | 0 <= x < 32

  /** 'A' to 'Z', then '2' to '7'. */
  function Letter(v: Quintet): Byte {
    if v < 26 then 65 + v else 50 + (v - 26)
  }

  predicate IsLetter(b: Byte) {
    65 <= b <= 90 || 50 <= b <= 55
  }

  function Value(b: Byte): Quintet
    requires IsLetter(b)
  {
    if b >= 65 then b - 65 else 26 + (b - 50)
  }

  /** Forty bits as eight groups of five. */
  function Block(s: Bytes): (g: seq<Quintet>)
    requires |s| == 5
    ensures |g| == 8
  {
    var a: int, b: int, c: int, d: int, e: int := s[0], s[1], s[2], s[3], s[4];
    [a / 8, a % 8 * 4 + b / 64, b / 2 % 32, b % 2 * 16 + c / 16, c % 16 * 2 + d / 128, d / 4 % 32,
     d % 4 * 8 + e / 32, e % 32]
  }

  function Unblock(g: seq<Quintet>): (s: Bytes)
    requires |g| == 8
    ensures |s| == 5
  {
    var p: int, q: int, r: int, t: int := g[0], g[1], g[2], g[3];
    var u: int, v: int, w: int, x: int := g[4], g[5], g[6], g[7];
    [p * 8 + q / 4, q % 4 * 64 + r * 2 + t / 16, t % 16 * 16 + u / 2, u % 2 * 128 + v * 4 + w / 8, w % 8 * 32 + x]
  }

  /** How many letters a final block of that many bytes takes, and how many bytes that many letters carry. */
  function LettersFor(bytes: nat): (n: nat)
    requires bytes < 5
    ensures n < 8
  {
    if bytes == 4 then 7 else if bytes == 3 then 5 else if bytes == 2 then 4 else if bytes == 1 then 2 else 0
  }

  function BytesFor(letters: nat): (n: nat)
    requires letters < 8
    ensures n < 5
  {
    if letters == 7 then 4 else if letters == 5 then 3 else if letters == 4 then 2 else if letters == 2 then 1 else 0
  }

  function Zeros(n: nat): (z: seq<int>)
    ensures |z| == n && forall i :: 0 <= i < n ==> z[i] == 0
  {
    seq(n, _ => 0)
  }

  function Groups(s: Bytes): seq<Quintet> {
    if |s| >= 5 then Block(s[..5]) + Groups(s[5..]) else Block(s + Zeros(5 - |s|))[..LettersFor(|s|)]
  }

  function Ungroup(g: seq<Quintet>): Bytes {
    if |g| >= 8 then Unblock(g[..8]) + Ungroup(g[8..]) else Unblock(g + Zeros(8 - |g|))[..BytesFor(|g|)]
  }

  function Letters(g: seq<Quintet>): Bytes {
    seq(|g|, i requires 0 <= i < |g| => Letter(g[i]))
  }

  /** The group each letter stands for, line breaks skipped; any other byte is an error. */
  function Quintets(t: Bytes): Option<seq<Quintet>> {
    if t == [] then Some([])
    else
      match Quintets(t[1..])
      case None => None
      case Some(rest) =>
        if t[0] == 10 || t[0] == 13 then Some(rest)
        else if IsLetter(t[0]) then Some([Value(t[0])] + rest)
        else None
  }

  function Encode(s: Bytes): Bytes {
    Letters(Groups(s))
  }

  function Decode(t: Bytes): Option<Bytes> {
    match Quintets(t) case None => None case Some(g) => Some(Ungroup(g))
  }

  lemma LetterRead(v: Quintet)
    ensures IsLetter(Letter(v)) && Value(Letter(v)) == v
  {
  }

  lemma {:induction false} QuintetsOfLetters(g: seq<Quintet>)
    ensures Quintets(Letters(g)) == Some(g)
  {
    if g != [] {
      QuintetsOfLetters(g[1..]);
      assert Letters(g)[1..] == Letters(g[1..]);
      LetterRead(g[0]);
      assert g == [g[0]] + g[1..];
    }
  }

  lemma OuterBytes(a: Byte, b: Byte, d: Byte, e: Byte)
    ensures var x: int, y: int := a, b; x / 8 * 8 + (x % 8 * 4 + y / 64) / 4 == x
    ensures var x: int, y: int := d, e; (x % 4 * 8 + y / 32) % 8 * 32 + y % 32 == y
  {
  }

  lemma SecondByte(a: Byte, b: Byte, c: Byte)
    ensures var x: int, y: int, z: int := a, b, c;
            (x % 8 * 4 + y / 64) % 4 * 64 + y / 2 % 32 * 2 + (y % 2 * 16 + z / 16) / 16 == y
  {
    var x: int, y: int, z: int := a, b, c;
    assert (x % 8 * 4 + y / 64) % 4 == y / 64;
    assert (y % 2 * 16 + z / 16) / 16 == y % 2;
    var half := y / 2;
    assert half / 32 == y / 64;
  }

  lemma ThirdByte(b: Byte, c: Byte, d: Byte)
    ensures var x: int, y: int, z: int := b, c, d; (x % 2 * 16 + y / 16) % 16 * 16 + (y % 16 * 2 + z / 128) / 2 == y
  {
  }

  lemma FourthByte(c: Byte, d: Byte, e: Byte)
    ensures var x: int, y: int, z: int := c, d, e;
            (x % 16 * 2 + y / 128) % 2 * 128 + y / 4 % 32 * 4 + (y % 4 * 8 + z / 32) / 8 == y
  {
  }

  lemma UnblockBlock(s: Bytes)
    requires |s| == 5
    ensures Unblock(Block(s)) == s
  {
    var t := Unblock(Block(s));
    assert t[0] == s[0] && t[4] == s[4] by { OuterBytes(s[0], s[1], s[3], s[4]); }
    assert t[1] == s[1] by { SecondByte(s[0], s[1], s[2]); }
    assert t[2] == s[2] by { ThirdByte(s[1], s[2], s[3]); }
    assert t[3] == s[3] by { FourthByte(s[2], s[3], s[4]); }
  }

  lemma TailSteps(s: Bytes, g: seq<Quintet>)
    requires |s| < 5 && |g| < 8
    ensures Groups(s) == Block(s + Zeros(5 - |s|))[..LettersFor(|s|)]
    ensures Ungroup(g) == Unblock(g + Zeros(8 - |g|))[..BytesFor(|g|)]
  {
    hide Block, Unblock;
  }

  /** Each byte depends only on the letters that carry it. */
  lemma TailBytes(g: seq<Quintet>, h: seq<Quintet>, bytes: nat)
    requires |g| == 8 && |h| == 8 && bytes < 5 && g[..LettersFor(bytes)] == h[..LettersFor(bytes)]
    ensures Unblock(g)[..bytes] == Unblock(h)[..bytes]
  {
    var n := LettersFor(bytes);
    assert forall i :: 0 <= i < n ==> g[i] == g[..n][i] == h[i];
  }

  /** The letters of a final block carry all of its bytes. */
  lemma TailRead(s: Bytes)
    requires |s| < 5
    ensures Ungroup(Groups(s)) == s
  {
    hide Block, Unblock, Groups, Ungroup, Zeros;
    var full := s + Zeros(5 - |s|);
    var n := LettersFor(|s|);
    var block := Block(full);
    var g := block[..n];
    TailSteps(s, g);
    UnblockBlock(full);
    var padded := g + Zeros(8 - n);
    assert padded[..n] == g;
    TailBytes(block, padded, |s|);
    assert full[..|s|] == s;
  }

  lemma {:induction false} UngroupGroups(s: Bytes)
    ensures Ungroup(Groups(s)) == s
  {
    hide Block, Unblock;
    if |s| < 5 {
      TailRead(s);
    } else {
      UngroupGroups(s[5..]);
      UnblockBlock(s[..5]);
      var g := Groups(s);
      assert g[..8] == Block(s[..5]) && g[8..] == Groups(s[5..]);
      assert s == s[..5] + s[5..];
    }
  }

  /** Every byte string reads back from its own encoding. */
  lemma DecodeEncoded(s: Bytes)
    ensures Decode(Encode(s)) == Some(s)
  {
    UngroupGroups(s);
    QuintetsOfLetters(Groups(s));
  }

  lemma EncodedIsLetters(s: Bytes)
    ensures forall i :: 0 <= i < |Encode(s)| ==> IsLetter(Encode(s)[i])
  {
    forall i | 0 <= i < |Encode(s)| ensures IsLetter(Encode(s)[i]) {
      LetterRead(Groups(s)[i]);
    }
  }

  /** The letters of the standard alphabet, in its order. */
  lemma AlphabetOrder(v: Quintet)
    ensures Letter(v) as char == if v < 26 then 'A' + v as char else '2' + (v - 26) as char
  {
  }

  /** Every text of letters and line breaks is read, no other, and the line breaks do not matter. */
  lemma {:induction false} ReadableIff(t: Bytes)
    ensures Decode(t).Some? <==> forall i :: 0 <= i < |t| ==> IsLetter(t[i]) || t[i] as char in "\n\r"
  {
    if t != [] {
      ReadableIff(t[1..]);
      assert t == [t[0]] + t[1..];
    }
  }

  lemma {:induction false} BreakSkipped(a: Bytes, brk: Byte, b: Bytes)
    requires brk as char in "\n\r"
    ensures Quintets(a + [brk] + b) == Quintets(a + b)
  {
    if a == [] {
      assert a + [brk] + b == [brk] + b && a + b == b;
    } else {
      BreakSkipped(a[1..], brk, b);
      assert (a + [brk] + b)[1..] == a[1..] + [brk] + b && (a + b)[1..] == a[1..] + b;
    }
  }

  lemma BreaksSkipped(a: Bytes, brk: Byte, b: Bytes)
    requires brk as char in "\n\r"
    ensures Decode(a + [brk] + b) == Decode(a + b)
  {
    hide Ungroup;
    BreakSkipped(a, brk, b);
  }

  lemma FirstBits(a: int, b: int)
    requires 0 <= a < 256 && 0 <= b < 256
    ensures (a / 8) * 32 + (a % 8 * 4 + b / 64) == a * 4 + b / 64 && b / 64 * 32 + b / 2 % 32 == b / 2
  {
  }

  lemma SecondBits(b: int, c: int)
    requires 0 <= b < 256 && 0 <= c < 256
    ensures b / 2 * 32 + (b % 2 * 16 + c / 16) == b * 16 + c / 16
  {
  }

  lemma LastBits(c: int, d: int, e: int)
    requires 0 <= c < 256 && 0 <= d < 256 && 0 <= e < 256
    ensures c / 16 * 32 + (c % 16 * 2 + d / 128) == c * 2 + d / 128
    ensures d / 128 * 32 + d / 4 % 32 == d / 4 && d / 4 * 32 + (d % 4 * 8 + e / 32) == d * 8 + e / 32
    ensures e / 32 * 32 + e % 32 == e
  {
  }

  /** Eight letters are the same forty bits as their five bytes. */
  lemma BlockIsBits(s: Bytes)
    requires |s| == 5
    ensures var g := Block(s);
            var a: int, b: int, c: int, d: int, e: int := s[0], s[1], s[2], s[3], s[4];
            ((((((g[0] as int * 32 + g[1]) * 32 + g[2]) * 32 + g[3]) * 32 + g[4]) * 32 + g[5]) * 32 + g[6]) * 32 + g[7]
            == (((a * 256 + b) * 256 + c) * 256 + d) * 256 + e
  {
    var g := Block(s);
    var a: int, b: int, c: int, d: int, e: int := s[0], s[1], s[2], s[3], s[4];
    var one := g[0] as int * 32 + g[1];
    var two := one * 32 + g[2];
    var three := two * 32 + g[3];
    var four := three * 32 + g[4];
    var five := four * 32 + g[5];
    var six := five * 32 + g[6];
    FirstBits(a, b);
    SecondBits(b, c);
    LastBits(c, d, e);
    assert one == a * 4 + b / 64 && two == a * 128 + b / 2;
    assert three == (a * 256 + b) * 16 + c / 16;
    assert four == ((a * 256 + b) * 256 + c) * 2 + d / 128;
    assert five == ((a * 256 + b) * 256 + c) * 64 + d / 4;
    assert six == (((a * 256 + b) * 256 + c) * 256 + d) * 8 + e / 32;
  }

  lemma {:induction false} EncodedLength(s: Bytes)
    ensures |Encode(s)| == (8 * |s| + 4) / 5 >= |s|
  {
    if |s| >= 5 {
      EncodedLength(s[5..]);
      assert |Groups(s)| == 8 + |Groups(s[5..])|;
    }
  }
}
