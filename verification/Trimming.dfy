/** Go's strings.TrimSpace, for a given notion of white space, and the removal of one character throughout. */
module Trimming {

  /** White space as Go's unicode.IsSpace has it. */
  predicate IsBlank(c: char) {
    c == ' ' || '\t' <= c <= '\r' || c == '\U{85}' || c == '\U{A0}' || c == '\U{1680}' || '\U{2000}' <= c <= '\U{200A}'
    || c == '\U{2028}' || c == '\U{2029}' || c == '\U{202F}' || c == '\U{205F}' || c == '\U{3000}'
  }

  function TrimLeft<T>(isSpace: T -> bool, s: seq<T>): seq<T> {
    if s != [] && isSpace(s[0]) then TrimLeft(isSpace, s[1..]) else s
  }

  function TrimRight<T>(isSpace: T -> bool, s: seq<T>): seq<T> {
    if s != [] && isSpace(s[|s| - 1]) then TrimRight(isSpace, s[..|s| - 1]) else s
  }

  function TrimSpace<T>(isSpace: T -> bool, s: seq<T>): seq<T> {
    TrimRight(isSpace, TrimLeft(isSpace, s))
  }

  predicate AllSpace<T>(isSpace: T -> bool, s: seq<T>) {
    forall i :: 0 <= i < |s| ==> isSpace(s[i])
  }

  lemma {:induction false} TrimLeftPadded<T>(isSpace: T -> bool, pad: seq<T>, text: seq<T>)
    requires AllSpace(isSpace, pad)
    ensures TrimLeft(isSpace, pad + text) == TrimLeft(isSpace, text)
  {
    if pad == [] {
      assert pad + text == text;
    } else {
      assert (pad + text)[1..] == pad[1..] + text;
      TrimLeftPadded(isSpace, pad[1..], text);
    }
  }

  lemma {:induction false} TrimRightPadded<T>(isSpace: T -> bool, text: seq<T>, pad: seq<T>)
    requires AllSpace(isSpace, pad)
    ensures TrimRight(isSpace, text + pad) == TrimRight(isSpace, text)
  {
    if pad == [] {
      assert text + pad == text;
    } else {
      assert (text + pad)[..|text + pad| - 1] == text + pad[..|pad| - 1];
      TrimRightPadded(isSpace, text, pad[..|pad| - 1]);
    }
  }

  /** Blanks around a text that neither starts nor ends in one are trimmed, and nothing else. */
  lemma TrimSpacePadded<T>(isSpace: T -> bool, before: seq<T>, text: seq<T>, after: seq<T>)
    requires AllSpace(isSpace, before) && AllSpace(isSpace, after)
    requires text != [] && !isSpace(text[0]) && !isSpace(text[|text| - 1])
    ensures TrimSpace(isSpace, before + text + after) == text
  {
    assert before + text + after == before + (text + after);
    TrimLeftPadded(isSpace, before, text + after);
    assert TrimLeft(isSpace, text + after) == text + after;
    TrimRightPadded(isSpace, text, after);
  }

  /** strings.ReplaceAll of one element by nothing. */
  function Without<T(==)>(x: T, s: seq<T>): seq<T> {
    if s == [] then [] else if s[0] == x then Without(x, s[1..]) else [s[0]] + Without(x, s[1..])
  }

  lemma {:induction false} WithoutJoined<T>(x: T, a: seq<T>, b: seq<T>)
    ensures Without(x, a + b) == Without(x, a) + Without(x, b)
  {
    if a == [] {
      assert a + b == b;
    } else {
      WithoutJoined(x, a[1..], b);
      assert (a + b)[1..] == a[1..] + b;
    }
  }

  lemma {:induction false} WithoutAbsent<T>(x: T, s: seq<T>)
    requires x !in s
    ensures Without(x, s) == s
  {
    if s != [] {
      WithoutAbsent(x, s[1..]);
      assert s == [s[0]] + s[1..];
    }
  }

  lemma WithoutItself<T>(x: T)
    ensures Without(x, [x]) == []
  {
    assert [x][1..] == [];
  }
}
