/**
 The recovery codes of modules/totp/recovery.go: printing, reading what a person transcribes, and the stored
 digest.
 */
module RecoveryCodes {
  import opened Wrappers
  import opened Utf8
  import opened Trimming

  const CHARACTERS := 10
  const GROUP := 5
  const ALPHABET := "0123456789ABCDEFGHJKMNPQRSTVWXYZ"

  datatype RecoveryError = BadRecoveryCode

  /** A digit, or an upper-case letter other than I, L, O and U. */
  predicate IsLetter(c: char) {
    '0' <= c <= '9' || ('A' <= c <= 'Z' && c != 'I' && c != 'L' && c != 'O' && c != 'U')
  }

  lemma AlphabetSize()
    ensures |ALPHABET| == 32
  {
  }

  lemma AlphabetAt(i: nat)
    requires i < |ALPHABET|
    ensures IsLetter(ALPHABET[i])
  {
  }

  lemma AlphabetHas(c: char)
    requires IsLetter(c)
    ensures c in ALPHABET
  {
    var n := c as int - 'A' as int;
    var i := if c <= '9' then c as int - '0' as int
             else if c <= 'H' then n + 10
             else if c <= 'K' then n + 9
             else if c <= 'N' then n + 8
             else if c <= 'T' then n + 7
             else n + 6;
    assert ALPHABET[i] == c;
  }

  lemma AlphabetIs(c: char)
    ensures c in ALPHABET <==> IsLetter(c)
  {
    hide IsLetter;
    if c in ALPHABET {
      var i :| 0 <= i < |ALPHABET| && ALPHABET[i] == c;
      AlphabetAt(i);
    } else if IsLetter(c) {
      AlphabetHas(c);
    }
  }

  predicate AllLetters(s: string) {
    forall i :: 0 <= i < |s| ==> IsLetter(s[i])
  }

  /** The characters in groups of five with a hyphen between. */
  function Grouped(s: string): string {
    if |s| <= GROUP then s else s[..GROUP] + "-" + Grouped(s[GROUP..])
  }

  /** What the writing loop has produced after i characters. */
  function Written(s: string, i: nat): string
    requires i <= |s|
  {
    if i == 0 then "" else Written(s, i - 1) + (if i - 1 > 0 && (i - 1) % GROUP == 0 then "-" else "") + [s[i - 1]]
  }

  lemma {:induction false} WrittenFirst(s: string, i: nat)
    requires i <= |s| && i <= GROUP
    ensures Written(s, i) == s[..i]
  {
    if i > 0 {
      WrittenFirst(s, i - 1);
      assert s[..i] == s[..i - 1] + [s[i - 1]];
    }
  }

  lemma {:induction false} WrittenSecond(s: string, i: nat)
    requires GROUP < i <= |s| && i <= 2 * GROUP
    ensures Written(s, i) == s[..GROUP] + "-" + s[GROUP..i]
  {
    if i == GROUP + 1 {
      WrittenFirst(s, GROUP);
      assert s[GROUP..i] == [s[GROUP]];
    } else {
      WrittenSecond(s, i - 1);
      assert s[GROUP..i] == s[GROUP..i - 1] + [s[i - 1]];
    }
  }

  lemma WrittenIsGrouped(s: string)
    requires |s| == CHARACTERS
    ensures Written(s, |s|) == Grouped(s)
  {
    WrittenSecond(s, |s|);
    assert Grouped(s[GROUP..]) == s[GROUP..];
  }

  /** The characters random bytes choose: the low five bits of each. */
  function Chosen(raw: Bytes): (s: string)
    ensures |s| == |raw|
  {
    seq(|raw|, i requires 0 <= i < |raw| => ALPHABET[raw[i] % 32])
  }

  /** Where a letter stands in the alphabet. */
  function Place(c: char): int {
    var n := c as int - 'A' as int;
    if c <= '9' then c as int - '0' as int
    else if c <= 'H' then n + 10
    else if c <= 'K' then n + 9
    else if c <= 'N' then n + 8
    else if c <= 'T' then n + 7
    else n + 6
  }

  lemma PlaceOfLetter(i: nat)
    requires i < 32
    ensures Place(ALPHABET[i]) == i
  {
  }

  /** The printed form is two groups of five. */
  lemma GroupedTen(s: string)
    requires |s| == 10
    ensures Grouped(s) == s[..5] + "-" + s[5..]
  {
  }

  lemma GroupedInjective(a: string, b: string)
    requires |a| == CHARACTERS && |b| == CHARACTERS && Grouped(a) == Grouped(b)
    ensures a == b
  {
    hide Grouped;
    GroupedTen(a);
    GroupedTen(b);
    assert Grouped(a)[..GROUP] == a[..GROUP] && Grouped(a)[GROUP + 1..] == a[GROUP..];
    assert Grouped(b)[..GROUP] == b[..GROUP] && Grouped(b)[GROUP + 1..] == b[GROUP..];
    assert a == a[..GROUP] + a[GROUP..] && b == b[..GROUP] + b[GROUP..];
  }

  /** Different choices are different codes: no two values of the low five bits share a letter. */
  lemma CodesAgreeIff(a: Bytes, b: Bytes)
    requires |a| == |b| == 10
    ensures Grouped(Chosen(a)) == Grouped(Chosen(b)) <==> forall i :: 0 <= i < 10 ==> a[i] % 32 == b[i] % 32
  {
    hide Grouped, Place;
    if Grouped(Chosen(a)) == Grouped(Chosen(b)) {
      AlphabetSize();
      GroupedInjective(Chosen(a), Chosen(b));
      forall i | 0 <= i < 10 ensures a[i] % 32 == b[i] % 32 {
        assert Chosen(a)[i] == Chosen(b)[i];
        PlaceOfLetter(a[i] % 32);
        PlaceOfLetter(b[i] % 32);
      }
    }
    if forall i :: 0 <= i < 10 ==> a[i] % 32 == b[i] % 32 {
      assert Chosen(a) == Chosen(b);
    }
  }

  /** A code is written from ten random bytes, one character of the alphabet for each. */
  method NewRecoveryCode(raw: Bytes) returns (value: string)
    requires |raw| == CHARACTERS
    ensures value == Grouped(Chosen(raw)) && AllLetters(Chosen(raw))
  {
    hide IsLetter, Grouped;
    AlphabetSize();
    value := "";
    ghost var chosen := Chosen(raw);
    for i := 0 to |raw|
      invariant value == Written(chosen, i)
      invariant forall j :: 0 <= j < i ==> IsLetter(chosen[j])
    {
      if i > 0 && i % GROUP == 0 {
        value := value + "-";
      }
      AlphabetAt(raw[i] % 32);
      value := value + [ALPHABET[raw[i] % 32]];
    }
    WrittenIsGrouped(chosen);
  }

  predicate IsDiscarded(c: char) {
    c == '-' || c == ' '
  }

  /** Reads the characters the alphabet leaves out as those they are mistaken for, and folds case. */
  function Fold(c: char): char {
    if c == 'i' || c == 'I' || c == 'l' || c == 'L' then '1'
    else if c == 'o' || c == 'O' then '0'
    else if 'a' <= c <= 'z' then c - 'a' + 'A'
    else c
  }

  /** I and L are read as 1, O as 0, and every other letter as its upper-case form. */
  lemma FoldMeans(c: char)
    ensures Fold(c) == if c in "iIlL" then '1' else if c in "oO" then '0'
                       else if 'a' <= c <= 'z' then (c as int - 'a' as int + 'A' as int) as char else c
    ensures IsDiscarded(c) <==> c in "- "
  {
  }

  function Cleaned(s: string): string {
    if s == "" then "" else if IsDiscarded(s[0]) then Cleaned(s[1..]) else [Fold(s[0])] + Cleaned(s[1..])
  }

  function Parsed(submitted: string): Result<string, RecoveryError> {
    var cleaned := Cleaned(TrimSpace(IsBlank, submitted));
    if |cleaned| == CHARACTERS && AllLetters(cleaned) then Ok(Grouped(cleaned)) else Err(BadRecoveryCode)
  }

  method ParseRecoveryCode(submitted: string) returns (r: Result<string, RecoveryError>)
    ensures r == Parsed(submitted)
  {
    hide TrimSpace, Cleaned, IsLetter, Grouped;
    var cleaned := Cleaned(TrimSpace(IsBlank, submitted));
    if |cleaned| != CHARACTERS {
      return Err(BadRecoveryCode);
    }
    for i := 0 to |cleaned|
      invariant forall j :: 0 <= j < i ==> IsLetter(cleaned[j])
    {
      AlphabetIs(cleaned[i]);
      if cleaned[i] !in ALPHABET {
        return Err(BadRecoveryCode);
      }
    }
    var value := "";
    for i := 0 to |cleaned|
      invariant value == Written(cleaned, i)
    {
      if i > 0 && i % GROUP == 0 {
        value := value + "-";
      }
      value := value + [cleaned[i]];
    }
    WrittenIsGrouped(cleaned);
    r := Ok(value);
  }

  /** A transcription of the characters: hyphens and spaces anywhere, either case, I or L for 1 and O for 0. */
  predicate Transcribes(typed: string, letters: string) {
    if typed == "" then letters == ""
    else if IsDiscarded(typed[0]) then Transcribes(typed[1..], letters)
    else letters != "" && Fold(typed[0]) == letters[0] && Transcribes(typed[1..], letters[1..])
  }

  lemma {:induction false} CleanedTranscribes(typed: string, letters: string)
    ensures Transcribes(typed, letters) <==> Cleaned(typed) == letters
  {
    hide Fold;
    if typed != "" {
      if IsDiscarded(typed[0]) {
        CleanedTranscribes(typed[1..], letters);
      } else if letters != "" {
        CleanedTranscribes(typed[1..], letters[1..]);
        assert letters == [letters[0]] + letters[1..];
        assert Cleaned(typed)[1..] == Cleaned(typed[1..]);
      }
    }
  }

  /** A submission is read as a code exactly when, trimmed, it transcribes that code's ten characters. */
  lemma ParsedIff(submitted: string, letters: string)
    requires |letters| == CHARACTERS && AllLetters(letters)
    ensures Parsed(submitted) == Ok(Grouped(letters)) <==> Transcribes(TrimSpace(IsBlank, submitted), letters)
  {
    hide Cleaned, TrimSpace, Transcribes;
    CleanedTranscribes(TrimSpace(IsBlank, submitted), letters);
    var cleaned := Cleaned(TrimSpace(IsBlank, submitted));
    if |cleaned| == CHARACTERS && Grouped(cleaned) == Grouped(letters) {
      GroupedInjective(cleaned, letters);
    }
  }

  lemma {:induction false} LettersUnfolded(s: string)
    requires AllLetters(s)
    ensures Cleaned(s) == s
  {
    if s != "" {
      LettersUnfolded(s[1..]);
      assert s == [s[0]] + s[1..];
    }
  }

  lemma NothingCleaned()
    ensures Cleaned("") == ""
  {
  }

  lemma CleanedStep(s: string)
    requires s != ""
    ensures Cleaned(s) == (if IsDiscarded(s[0]) then "" else [Fold(s[0])]) + Cleaned(s[1..])
  {
    hide Fold;
  }

  lemma {:induction false} CleanedJoined(a: string, b: string)
    ensures Cleaned(a + b) == Cleaned(a) + Cleaned(b)
  {
    hide Fold, IsDiscarded, Cleaned;
    if a == "" {
      assert a + b == b;
      NothingCleaned();
    } else {
      CleanedJoined(a[1..], b);
      assert (a + b)[1..] == a[1..] + b;
      CleanedStep(a + b);
      CleanedStep(a);
    }
  }

  lemma CleanedGrouped(letters: string)
    requires |letters| == CHARACTERS && AllLetters(letters)
    ensures Cleaned(Grouped(letters)) == letters
  {
    hide Fold;
    var a, b := letters[..GROUP], letters[GROUP..];
    GroupedTen(letters);
    CleanedJoined(a + "-", b);
    CleanedJoined(a, "-");
    LettersUnfolded(a);
    LettersUnfolded(b);
    assert Cleaned("-") == "";
    assert a + b == letters;
  }

  /** Reading a printed code gives that code back, blanks around it notwithstanding. */
  lemma ParseInvertsPrinting(letters: string, before: string, after: string)
    requires |letters| == CHARACTERS && AllLetters(letters) && AllSpace(IsBlank, before) && AllSpace(IsBlank, after)
    ensures Parsed(before + Grouped(letters) + after) == Ok(Grouped(letters))
  {
    hide TrimSpace, Grouped, Cleaned;
    GroupedTen(letters);
    TrimSpacePadded(IsBlank, before, Grouped(letters), after);
    CleanedGrouped(letters);
  }

  /** What the server stores; a zero code has none. */
  function Digest(hash: string -> Bytes, value: string): Option<Bytes> {
    if value == "" then None else Some(hash(Without('-', value)))
  }

  lemma LettersUnhyphenated(s: string)
    requires AllLetters(s)
    ensures Without('-', s) == s
  {
    WithoutAbsent('-', s);
  }

  lemma UnhyphenatedGrouped(letters: string)
    requires |letters| == CHARACTERS && AllLetters(letters)
    ensures Without('-', Grouped(letters)) == letters
  {
    var a, b := letters[..GROUP], letters[GROUP..];
    GroupedTen(letters);
    WithoutJoined('-', a + "-", b);
    WithoutJoined('-', a, "-");
    LettersUnhyphenated(a);
    LettersUnhyphenated(b);
    WithoutItself('-');
    assert a + b == letters;
  }

  /**
   The digest is that of the ten characters, so every transcription of a code that is read has the code's own
   digest.
   */
  lemma TranscriptionKeepsDigest(hash: string -> Bytes, letters: string, submitted: string)
    requires |letters| == CHARACTERS && AllLetters(letters) && Transcribes(TrimSpace(IsBlank, submitted), letters)
    ensures Parsed(submitted).Ok?
    ensures Digest(hash, Parsed(submitted).value) == Digest(hash, Grouped(letters)) == Some(hash(letters))
  {
    hide Transcribes, TrimSpace, Without, Grouped;
    ParsedIff(submitted, letters);
    GroupedTen(letters);
    UnhyphenatedGrouped(letters);
  }
}
