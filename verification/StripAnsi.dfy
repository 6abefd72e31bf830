/** Removing terminal escape sequences from a line of output (StripANSI in internal/dev/prefix.go). */
module StripAnsi {
  import opened Utf8

  const ESC: Byte := 0x1b
  const BEL: Byte := 0x07
  const LBRACKET: Byte := 0x5b
  const RBRACKET: Byte := 0x5d
  const BACKSLASH: Byte := 0x5c

  /** A CSI final byte: @ to ~. */
  predicate Final(b: Byte) {
    0x40 <= b <= 0x7e
  }

  /** Where the CSI sequence whose parameters start at i ends. */
  function CsiEnd(s: Bytes, i: nat): (e: nat)
    requires i <= |s|
    ensures i <= e <= |s|
    decreases |s| - i
  {
    if i == |s| then i else if Final(s[i]) then i + 1 else CsiEnd(s, i + 1)
  }

  /** Where the OSC sequence whose body starts at i ends. */
  function OscEnd(s: Bytes, i: nat): (e: nat)
    requires i <= |s|
    ensures i <= e <= |s|
    decreases |s| - i
  {
    if i == |s| then i
    else if s[i] == BEL then i + 1
    else if s[i] == ESC && i + 1 < |s| && s[i + 1] == BACKSLASH then i + 2
    else OscEnd(s, i + 1)
  }

  /** Where the escape sequence starting at i ends. */
  function EscapeEnd(s: Bytes, i: nat): (e: nat)
    requires i < |s| && s[i] == ESC
    ensures i < e <= |s|
  {
    if i + 1 == |s| then i + 1
    else if s[i + 1] == LBRACKET then CsiEnd(s, i + 2)
    else if s[i + 1] == RBRACKET then OscEnd(s, i + 2)
    else i + 2
  }

  /** The text left of s from position i on. */
  function Visible(s: Bytes, i: nat): Bytes
    requires i <= |s|
    decreases |s| - i
  {
    if i == |s| then []
    else if s[i] == ESC then Visible(s, EscapeEnd(s, i))
    else Encode(Decode(s[i..]).rune) + Visible(s, i + Decode(s[i..]).size)
  }

  function Strip(s: Bytes): Bytes {
    if ESC !in s then s else Visible(s, 0)
  }

  method SkipCsi(s: Bytes, from: nat) returns (i: nat)
    requires from <= |s|
    ensures i == CsiEnd(s, from)
  {
    i := from;
    while i < |s| && !Final(s[i])
      invariant from <= i <= |s|
      invariant CsiEnd(s, i) == CsiEnd(s, from)
    {
      i := i + 1;
    }
    if i < |s| {
      i := i + 1;
    }
  }

  method SkipOsc(s: Bytes, from: nat) returns (i: nat)
    requires from <= |s|
    ensures i == OscEnd(s, from)
  {
    i := from;
    while i < |s|
      invariant from <= i <= |s|
      invariant OscEnd(s, i) == OscEnd(s, from)
    {
      if s[i] == BEL {
        return i + 1;
      }
      if s[i] == ESC && i + 1 < |s| && s[i + 1] == BACKSLASH {
        return i + 2;
      }
      i := i + 1;
    }
  }

  lemma {:induction false} NoEscapeVisible(s: Bytes, i: nat)
    requires i <= |s|
    ensures ESC !in Visible(s, i)
    decreases |s| - i
  {
    if i < |s| {
      if s[i] == ESC {
        NoEscapeVisible(s, EscapeEnd(s, i));
      } else {
        var d := Decode(s[i..]);
        NoEscapeVisible(s, i + d.size);
        assert ESC !in Encode(d.rune);
      }
    }
  }

  method StripANSI(s: Bytes) returns (out: Bytes)
    ensures out == Strip(s)
    ensures ESC !in out
  {
    hide Decode, Encode, CsiEnd, OscEnd;
    NoEscapeVisible(s, 0);
    if ESC !in s {
      return s;
    }
    out := [];
    var i := 0;
    while i < |s|
      invariant 0 <= i <= |s|
      invariant out + Visible(s, i) == Visible(s, 0)
    {
      ghost var start := i;
      if s[i] != ESC {
        var d := Decode(s[i..]);
        out := out + Encode(d.rune);
        i := i + d.size;
        continue;
      }
      i := i + 1;
      if i >= |s| {
        break;
      }
      if s[i] == LBRACKET {
        i := SkipCsi(s, i + 1);
      } else if s[i] == RBRACKET {
        i := SkipOsc(s, i + 1);
      } else {
        i := i + 1;
      }
      assert i == EscapeEnd(s, start);
    }
  }

  // ----- what it leaves -----

  /** No escape byte survives, so stripping again changes nothing. */
  lemma StripIdempotent(s: Bytes)
    ensures ESC !in Strip(s) && Strip(Strip(s)) == Strip(s)
  {
    NoEscapeVisible(s, 0);
  }

  /** The pieces a build tool's output is made of. */
  datatype Piece =
    | Text(text: Bytes)
    | Csi(parameters: Bytes, final: Byte)
    | OscBel(body: Bytes)
    | OscSt(body: Bytes)
    | Pair(second: Byte)
  {
    predicate WellFormed() {
      match this
      case Text(text) => Valid(text) && ESC !in text
      case Csi(parameters, final) =>
        '@' <= final as char <= '~' && forall b :: b in parameters ==> !('@' <= b as char <= '~')
      case OscBel(body) => BEL !in body && ESC !in body
      case OscSt(body) => BEL !in body && ESC !in body
      case Pair(second) => second as char != '[' && second as char != ']'
    }

    function Bytes(): Bytes {
      match this
      case Text(text) => text
      case Csi(parameters, final) => [ESC, '[' as int] + parameters + [final]
      case OscBel(body) => [ESC, ']' as int] + body + [BEL]
      case OscSt(body) => [ESC, ']' as int] + body + [ESC, '\\' as int]
      case Pair(second) => [ESC, second]
    }
  }

  function Rendered(pieces: seq<Piece>): Bytes {
    if pieces == [] then [] else pieces[0].Bytes() + Rendered(pieces[1..])
  }

  function TextIn(p: Piece): Bytes {
    if p.Text? then p.text else []
  }

  function TextOf(pieces: seq<Piece>): Bytes {
    if pieces == [] then []
    else TextIn(pieces[0]) + TextOf(pieces[1..])
  }

  lemma {:induction false} CsiEndAt(s: Bytes, i: nat, e: nat)
    requires i <= e < |s| && Final(s[e]) && forall k :: i <= k < e ==> !Final(s[k])
    ensures CsiEnd(s, i) == e + 1
    decreases e - i
  {
    if i < e {
      CsiEndAt(s, i + 1, e);
    }
  }

  lemma {:induction false} OscEndAt(s: Bytes, i: nat, e: nat)
    requires i <= e < |s| && forall k :: i <= k < e ==> s[k] != BEL && s[k] != ESC
    requires s[e] == BEL || (s[e] == ESC && e + 1 < |s| && s[e + 1] == BACKSLASH)
    ensures OscEnd(s, i) == if s[e] == BEL then e + 1 else e + 2
    decreases e - i
  {
    if i < e {
      OscEndAt(s, i + 1, e);
    }
  }

  lemma VisibleRune(s: Bytes, i: nat, d: Step, next: Bytes)
    requires i < |s| && s[i] != ESC && d == Decode(s[i..]) && next == Visible(s, i + d.size)
    ensures Visible(s, i) == Encode(d.rune) + next
  {
  }

  /** t stands in s at position i. */
  predicate At(s: Bytes, i: nat, t: Bytes) {
    i + |t| <= |s| && s[i..i + |t|] == t
  }

  /** One rune of well-formed text is copied. */
  lemma RuneCopied(s: Bytes, i: nat, text: Bytes, d: Step)
    requires text != [] && d == Decode(text) && d.ok && text[0] != ESC && At(s, i, text)
    ensures s[i] != ESC && Decode(s[i..]) == d && Encode(d.rune) == text[..d.size]
  {
    var after := s[i + |text|..];
    DecodeLocal(text, after);
    EncodeDecoded(text);
    assert s[i..] == text + after;
    assert s[i] == s[i..][0];
  }

  lemma ValidStep(text: Bytes)
    requires text != [] && Valid(text)
    ensures Decode(text).ok && Valid(text[Decode(text).size..])
  {
  }

  lemma RunesCopied(s: Bytes, i: nat, text: Bytes, n: nat, next: Bytes)
    requires text != [] && Decode(text).ok && n == Decode(text).size && text[0] != ESC && At(s, i, text)
    requires next == Visible(s, i + n)
    ensures Visible(s, i) == text[..n] + next
  {
    RuneCopied(s, i, text, Decode(text));
    VisibleRune(s, i, Decode(text), next);
  }

  lemma AtTail(s: Bytes, i: nat, t: Bytes, n: nat)
    requires At(s, i, t) && n <= |t|
    ensures At(s, i, t[..n]) && At(s, i + n, t[n..])
  {
  }

  lemma {:induction false} TextCopied(s: Bytes, i: nat, text: Bytes, last: Bytes)
    requires Valid(text) && ESC !in text && At(s, i, text) && last == Visible(s, i + |text|)
    ensures Visible(s, i) == text + last
    decreases |text|
  {
    hide Visible, Decode, Encode, Valid, At;
    if text == [] {
      assert text + last == last;
    } else {
      ValidStep(text);
      var n := Decode(text).size;
      AtTail(s, i, text, n);
      TextCopied(s, i + n, text[n..], last);
      RunesCopied(s, i, text, n, text[n..] + last);
      assert text == text[..n] + text[n..];
      assert text + last == text[..n] + (text[n..] + last);
    }
  }

  lemma AtEach(s: Bytes, i: nat, t: Bytes)
    requires At(s, i, t)
    ensures forall k :: i <= k < i + |t| ==> s[k] == t[k - i]
  {
    forall k | i <= k < i + |t| ensures s[k] == t[k - i] {
      assert s[i..i + |t|][k - i] == s[k];
    }
  }

  /** A well-formed escape is skipped whole. */
  lemma EscapeSkipped(s: Bytes, i: nat, p: Piece, b: Bytes)
    requires p.WellFormed() && !p.Text? && b == p.Bytes() && At(s, i, b)
    ensures s[i] == ESC && EscapeEnd(s, i) == i + |b|
  {
    AtEach(s, i, b);
    assert s[i] == b[0] && s[i + 1] == b[1];
    match p
    case Csi(parameters, final) =>
      forall k | i + 2 <= k < i + |b| - 1 ensures !Final(s[k]) {
        assert s[k] == b[k - i] == parameters[k - i - 2];
        assert s[k] in parameters;
      }
      assert s[i + |b| - 1] == final;
      CsiEndAt(s, i + 2, i + |b| - 1);
    case OscBel(body) =>
      forall k | i + 2 <= k < i + |b| - 1 ensures s[k] != BEL && s[k] != ESC {
        assert s[k] == b[k - i] == body[k - i - 2];
      }
      assert s[i + |b| - 1] == BEL;
      OscEndAt(s, i + 2, i + |b| - 1);
    case OscSt(body) =>
      forall k | i + 2 <= k < i + |b| - 2 ensures s[k] != BEL && s[k] != ESC {
        assert s[k] == b[k - i] == body[k - i - 2];
      }
      assert s[i + |b| - 2] == ESC && s[i + |b| - 1] == BACKSLASH;
      OscEndAt(s, i + 2, i + |b| - 2);
    case Pair(second) =>
  }

  lemma VisibleEscape(s: Bytes, i: nat, e: nat)
    requires i < |s| && s[i] == ESC && e == EscapeEnd(s, i)
    ensures Visible(s, i) == Visible(s, e)
  {
  }

  lemma PieceVisible(s: Bytes, i: nat, p: Piece, b: Bytes, next: Bytes)
    requires p.WellFormed() && b == p.Bytes() && At(s, i, b) && next == Visible(s, i + |b|)
    ensures Visible(s, i) == TextIn(p) + next
  {
    if p.Text? {
      TextCopied(s, i, p.text, next);
    } else {
      EscapeSkipped(s, i, p, b);
      VisibleEscape(s, i, i + |b|);
    }
  }

  lemma FrontAndBack(s: Bytes, i: nat, b: Bytes, rest: Bytes)
    requires i <= |s| && s[i..] == b + rest
    ensures At(s, i, b) && s[i + |b|..] == rest
  {
    assert s[i..][..|b|] == b && s[i..][|b|..] == rest;
  }

  lemma {:induction false} PiecesVisible(s: Bytes, i: nat, pieces: seq<Piece>)
    requires forall p :: p in pieces ==> p.WellFormed()
    requires i <= |s| && s[i..] == Rendered(pieces)
    ensures Visible(s, i) == TextOf(pieces)
    decreases |pieces|
  {
    if pieces != [] {
      var b, rest := pieces[0].Bytes(), Rendered(pieces[1..]);
      assert s[i..] == b + rest;
      FrontAndBack(s, i, b, rest);
      PiecesVisible(s, i + |b|, pieces[1..]);
      PieceVisible(s, i, pieces[0], b, TextOf(pieces[1..]));
    }
  }

  lemma EscapeLeads(p: Piece)
    ensures p.Text? || ESC in p.Bytes()
  {
    if !p.Text? { assert p.Bytes()[0] == ESC; }
  }

  lemma {:induction false} NoEscapeIsText(pieces: seq<Piece>)
    requires ESC !in Rendered(pieces)
    ensures Rendered(pieces) == TextOf(pieces)
  {
    if pieces != [] {
      EscapeLeads(pieces[0]);
      NoEscapeIsText(pieces[1..]);
    }
  }

  /** Well-formed text with well-formed escapes anywhere in it comes out as exactly the text. */
  lemma StripKeepsExactlyTheText(pieces: seq<Piece>)
    requires forall p :: p in pieces ==> p.WellFormed()
    ensures Strip(Rendered(pieces)) == TextOf(pieces)
  {
    if ESC !in Rendered(pieces) {
      NoEscapeIsText(pieces);
    } else {
      PiecesVisible(Rendered(pieces), 0, pieces);
    }
  }
}
