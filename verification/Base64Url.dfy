/**
 base64url without padding (section 5 of RFC 4648), with the leniency of Go's RawURLEncoding
 decoder: line breaks are skipped and the unused low bits of a final group are ignored.
 */
module Base64Url {
  import opened Wrappers
  import opened Utf8

  type Sextet = x: int | 0 <= x < 64

  function Letter(v: Sextet): Byte {
    if v < 26 then 65 + v
    else if v < 52 then 97 + (v - 26)
    else if v < 62 then 48 + (v - 52)
    else if v == 62 then 45
    else 95
  }

  predicate IsLetter(b: Byte) {
    65 <= b <= 90 || 97 <= b <= 122 || 48 <= b <= 57 || b == 45 || b == 95
  }

  function Value(b: Byte): Sextet
    requires IsLetter(b)
  {
    if b == 45 then 62
    else if b == 95 then 63
    else if b <= 57 then 52 + (b - 48)
    else if b <= 90 then b - 65
    else 26 + (b - 97)
  }

  lemma LetterRead(v: Sextet)
    ensures IsLetter(Letter(v)) && Value(Letter(v)) == v
  {
  }

  /** The six-bit groups of s, most significant bits first, the last one padded with zero bits. */
  function Groups(s: Bytes): seq<Sextet> {
    if s == [] then []
    else
      var a: int := s[0];
      if |s| == 1 then [a / 4, a % 4 * 16]
      else
        var b: int := s[1];
        if |s| == 2 then [a / 4, a % 4 * 16 + b / 16, b % 16 * 4]
        else
          var c: int := s[2];
          [a / 4, a % 4 * 16 + b / 16, b % 16 * 4 + c / 64, c % 64] + Groups(s[3..])
  }

  /** The bytes of a run of six-bit groups; a single group left over is an error. */
  function Ungroup(g: seq<Sextet>): Option<Bytes> {
    if g == [] then Some([])
    else if |g| == 1 then None
    else
      var a: int, b: int := g[0], g[1];
      var first: Byte := a * 4 + b / 16;
      if |g| == 2 then Some([first])
      else
        var c: int := g[2];
        var second: Byte := b % 16 * 16 + c / 4;
        if |g| == 3 then Some([first, second])
        else
          var d: int := g[3];
          var third: Byte := c % 4 * 64 + d;
          match Ungroup(g[4..])
          case None => None
          case Some(rest) => Some([first, second, third] + rest)
  }

  function Letters(g: seq<Sextet>): Bytes {
    seq(|g|, i requires 0 <= i < |g| => Letter(g[i]))
  }

  /** The six-bit group each letter stands for, line breaks skipped; any other byte is an error. */
  function Sextets(t: Bytes): Option<seq<Sextet>> {
    if t == [] then Some([])
    else
      match Sextets(t[1..])
      case None => None
      case Some(rest) =>
        if t[0] == 10 || t[0] == 13 then Some(rest)
        else if IsLetter(t[0]) then Some([Value(t[0])] + rest)
        else None
  }

  function Encode(s: Bytes): Bytes {
    Letters(Groups(s))
  }

  function Decode(t: Bytes): Option<Bytes> {
    match Sextets(t)
    case None => None
    case Some(groups) => Ungroup(groups)
  }

  lemma {:induction false} SextetsOfLetters(g: seq<Sextet>)
    ensures Sextets(Letters(g)) == Some(g)
  {
    if g != [] {
      SextetsOfLetters(g[1..]);
      assert Letters(g)[1..] == Letters(g[1..]);
      LetterRead(g[0]);
      assert g == [g[0]] + g[1..];
    }
  }

  lemma FirstByte(a: Byte, b: Byte)
    ensures var x: int, y: int := a, b; (x % 4 * 16 + y / 16) / 16 == x % 4 && (x % 4 * 16 + y / 16) % 16 == y / 16
  {
  }

  lemma SecondByte(b: Byte, c: Byte)
    ensures var y: int, z: int := b, c; (y % 16 * 4 + z / 64) / 4 == y % 16 && (y % 16 * 4 + z / 64) % 4 == z / 64
  {
  }

  lemma {:induction false} UngroupGroups(s: Bytes)
    ensures Ungroup(Groups(s)) == Some(s)
  {
    if |s| == 1 {
      FirstByte(s[0], 0);
      assert s == [s[0]];
    } else if |s| == 2 {
      FirstByte(s[0], s[1]);
      SecondByte(s[1], 0);
      assert s == [s[0], s[1]];
    } else if |s| >= 3 {
      UngroupGroups(s[3..]);
      var g := Groups(s);
      assert g[4..] == Groups(s[3..]);
      FirstByte(s[0], s[1]);
      SecondByte(s[1], s[2]);
      assert s == [s[0], s[1], s[2]] + s[3..];
    }
  }

  lemma DecodeEncoded(s: Bytes)
    ensures Decode(Encode(s)) == Some(s)
  {
    UngroupGroups(s);
    SextetsOfLetters(Groups(s));
  }

  /** Encoded text holds letters only, so it never holds the separator of a token. */
  lemma EncodedIsLetters(s: Bytes)
    ensures forall b :: b in Encode(s) ==> IsLetter(b)
  {
    forall i | 0 <= i < |Encode(s)| ensures IsLetter(Encode(s)[i]) {
      LetterRead(Groups(s)[i]);
    }
  }

  /** The letters of the URL and filename safe alphabet, in its order. */
  lemma AlphabetOrder(v: Sextet)
    ensures Letter(v) as char
            == if v < 26 then 'A' + v as char else if v < 52 then 'a' + (v - 26) as char
               else if v < 62 then '0' + (v - 52) as char else if v == 62 then '-' else '_'
  {
  }

  /** Six bits to a letter, rounded up. */
  lemma {:induction false} LettersFor(s: Bytes)
    ensures |Groups(s)| == (8 * |s| + 5) / 6
  {
    if |s| > 3 {
      LettersFor(s[3..]);
    }
  }

  /** Each group of three bytes is the same 24 bits as its four letters, and what is left over is padded with zeros. */
  lemma {:induction false} GroupsAreBits(s: Bytes, i: nat)
    requires 3 * i < |s|
    ensures |Groups(s)| == (8 * |s| + 5) / 6
    ensures var g, left := Groups(s), |s| - 3 * i;
            var first, second := g[4 * i] as int, g[4 * i + 1] as int;
            var a := s[3 * i] as int;
            if left == 1 then first * 64 + second == a * 16
            else
              var b, third := s[3 * i + 1] as int, g[4 * i + 2] as int;
              if left == 2 then (first * 64 + second) * 64 + third == (a * 256 + b) * 4
              else
                var c, fourth := s[3 * i + 2] as int, g[4 * i + 3] as int;
                ((first * 64 + second) * 64 + third) * 64 + fourth == (a * 256 + b) * 256 + c
  {
    LettersFor(s);
    if |s| > 3 {
      var g := Groups(s);
      assert g[4..] == Groups(s[3..]);
      if i > 0 {
        GroupsAreBits(s[3..], i - 1);
      }
    }
  }

  lemma EncodedLength(s: Bytes)
    ensures |Encode(s)| == (8 * |s| + 5) / 6
  {
    LettersFor(s);
  }

  /** Read are the texts of letters and line breaks whose letters do not leave one over from groups of four. */
  lemma {:induction false} SextetsIff(t: Bytes)
    ensures Sextets(t).Some? <==> forall i :: 0 <= i < |t| ==> IsLetter(t[i]) || t[i] as char in "\n\r"
  {
    if t != [] {
      SextetsIff(t[1..]);
      assert t == [t[0]] + t[1..];
    }
  }

  lemma {:induction false} UngroupIff(g: seq<Sextet>)
    ensures Ungroup(g).Some? <==> |g| % 4 != 1
  {
    if |g| >= 4 {
      UngroupIff(g[4..]);
    }
  }

  lemma {:induction false} SextetsOf(t: Bytes)
    requires forall i :: 0 <= i < |t| ==> IsLetter(t[i])
    ensures Sextets(t).Some? && |Sextets(t).value| == |t|
  {
    if t != [] {
      SextetsOf(t[1..]);
    }
  }

  lemma ReadableIff(t: Bytes)
    requires forall i :: 0 <= i < |t| ==> t[i] as char !in "\n\r"
    ensures Decode(t).Some? <==> (forall i :: 0 <= i < |t| ==> IsLetter(t[i])) && |t| % 4 != 1
  {
    hide Sextets, Ungroup, IsLetter;
    SextetsIff(t);
    if Sextets(t).Some? {
      SextetsOf(t);
      UngroupIff(Sextets(t).value);
    }
  }

  lemma {:induction false} BreakSkipped(a: Bytes, brk: Byte, b: Bytes)
    requires brk as char in "\n\r"
    ensures Sextets(a + [brk] + b) == Sextets(a + b)
  {
    if a == [] {
      assert a + [brk] + b == [brk] + b && a + b == b;
    } else {
      BreakSkipped(a[1..], brk, b);
      assert (a + [brk] + b)[1..] == a[1..] + [brk] + b && (a + b)[1..] == a[1..] + b;
    }
  }

  lemma BreaksSkipped(a: Bytes, brk: Byte, b: Bytes)
    requires brk as char in "\n\r"
    ensures Decode(a + [brk] + b) == Decode(a + b)
  {
    hide Ungroup;
    BreakSkipped(a, brk, b);
  }
}
