/**
 Time-based one-time passwords from modules/totp/totp.go: the shared secret and its transcription, the code of a step
 (section 5.3 of RFC 4226), and verification over a window of steps. The MAC is a parameter of twenty bytes.
 */
module Totp {
  import opened Wrappers
  import opened Utf8
  import opened Decimals
  import opened Framing
  import opened Trimming
  import Base32

  const PERIOD := 30
  const DIGITS := 6
  const SECRET_BYTES := 20
  const MAX_SKEW_STEPS := 2

  datatype TotpError = BadSecret | BadCode | BeforeEpoch

  type Mac = (Bytes, Bytes) -> Bytes

  /** HMAC-SHA1 returns twenty bytes. */
  ghost predicate IsMac(mac: Mac) {
    forall key, message :: |mac(key, message)| == 20
  }

  // ---- the secret

  function Upper(b: Byte): Byte {
    if 97 <= b <= 122 then b - 32 else b
  }

  /** A blank, a hyphen or a padding sign. */
  predicate IsSeparator(b: Byte) {
    b == 32 || b == 45 || b == 61
  }

  /** Letters are read in either case, through blanks, hyphens and padding. */
  lemma RetypingMeans(b: Byte)
    ensures IsSeparator(b) <==> b as char in " -="
    ensures Upper(b) == if 'a' <= b as char <= 'z' then b - 'a' as int + 'A' as int else b
  {
  }

  function Cleaned(encoded: Bytes): Bytes {
    if encoded == [] then []
    else if IsSeparator(encoded[0]) then Cleaned(encoded[1..])
    else [Upper(encoded[0])] + Cleaned(encoded[1..])
  }

  function SecretFromBytes(key: Bytes): Result<Bytes, TotpError> {
    if |key| != SECRET_BYTES then Err(BadSecret) else Ok(key)
  }

  function ParseSecret(encoded: Bytes): Result<Bytes, TotpError> {
    var cleaned := Cleaned(encoded);
    if cleaned == [] then Err(BadSecret)
    else match Base32.Decode(cleaned) case None => Err(BadSecret) case Some(key) => SecretFromBytes(key)
  }

  /** The text shown to the person enrolling; a zero secret shows nothing. */
  function Base32Of(secret: Bytes): Bytes {
    if secret == [] then [] else Base32.Encode(secret)
  }

  /** The text retyped: the same letters in either case, with separators anywhere. */
  predicate Retyped(typed: Bytes, text: Bytes) {
    if typed == [] then text == []
    else if IsSeparator(typed[0]) then Retyped(typed[1..], text)
    else text != [] && Upper(typed[0]) == text[0] && Retyped(typed[1..], text[1..])
  }

  lemma {:induction false} CleanedRetyped(typed: Bytes, text: Bytes)
    ensures Retyped(typed, text) <==> Cleaned(typed) == text
  {
    if typed != [] {
      if IsSeparator(typed[0]) {
        CleanedRetyped(typed[1..], text);
      } else if text != [] {
        CleanedRetyped(typed[1..], text[1..]);
        assert text == [text[0]] + text[1..];
        assert Cleaned(typed)[1..] == Cleaned(typed[1..]);
      }
    }
  }

  lemma {:induction false} LettersRetyped(text: Bytes)
    requires forall i :: 0 <= i < |text| ==> Base32.IsLetter(text[i])
    ensures Retyped(text, text)
  {
    if text != [] {
      LettersRetyped(text[1..]);
    }
  }

  /** A secret is read back from its printed form, and from any retyping of it. */
  lemma ParseSecretOfPrinted(secret: Bytes, typed: Bytes)
    requires |secret| == 20
    ensures Retyped(Base32Of(secret), Base32Of(secret))
    ensures Retyped(typed, Base32Of(secret)) ==> ParseSecret(typed) == Ok(secret)
  {
    hide Base32.Encode, Base32.Decode;
    CleanedRetyped(typed, Base32Of(secret));
    Base32.DecodeEncoded(secret);
    Base32.EncodedIsLetters(secret);
    Base32.EncodedLength(secret);
    LettersRetyped(Base32Of(secret));
  }

  // ---- the code of a step

  /** A value in that many decimal digits, zeros in front, its higher digits cut off. */
  function Padded(v: nat, digits: nat): (s: string)
    ensures |s| == digits && forall c :: c in s ==> IsDigit(c)
  {
    if digits == 0 then "" else Padded(v / 10, digits - 1) + [Digit(v % 10)]
  }

  lemma NumberAppended(s: string, d: int)
    requires (forall c :: c in s ==> IsDigit(c)) && 0 <= d < 10
    ensures (forall c :: c in s + [Digit(d)] ==> IsDigit(c)) && Number(s + [Digit(d)]) == Number(s) * 10 + d
  {
    var t := s + [Digit(d)];
    assert t[..|t| - 1] == s;
  }

  lemma {:induction false} PaddedNumber(v: nat, digits: nat)
    requires v < Pow10(digits)
    ensures Number(Padded(v, digits)) == v
  {
    if digits > 0 {
      PaddedNumber(v / 10, digits - 1);
      NumberAppended(Padded(v / 10, digits - 1), v % 10);
    }
  }

  /** Four bytes, most significant first, with the top bit cleared. */
  function Window(sum: Bytes, offset: nat): (n: nat)
    requires offset + 4 <= |sum|
    ensures n < 0x8000_0000
  {
    var a: int, b: int, c: int, d: int := sum[offset], sum[offset + 1], sum[offset + 2], sum[offset + 3];
    (a * 0x100_0000 + b * 0x1_0000 + c * 0x100 + d) % 0x8000_0000
  }

  /** Dynamic truncation: the low four bits of the last byte choose the window. */
  function Truncate(sum: Bytes): (n: nat)
    requires |sum| == 20
    ensures n < 0x8000_0000
  {
    var offset := sum[19] % 16;
    Window(sum, offset)
  }

  function Code(mac: Mac, secret: Bytes, step: int): (code: Result<string, TotpError>)
    requires IsMac(mac)
    ensures code.Ok? <==> secret != [] && step >= 0
    ensures code.Ok? ==> |code.value| == DIGITS && forall c :: c in code.value ==> IsDigit(c)
  {
    if secret == [] then Err(BadSecret)
    else if step < 0 then Err(BeforeEpoch)
    else Ok(Padded(Truncate(mac(secret, Word(step))) % Pow10(DIGITS), DIGITS))
  }

  lemma PowersOfTen()
    ensures Pow10(0) == 1 && Pow10(3) == 1000 && Pow10(6) == 1000000 && Pow10(9) == 1000000000
  {
    assert Pow10(2) == 10 * Pow10(1);
    assert Pow10(4) == 10 * Pow10(3);
    assert Pow10(5) == 10 * Pow10(4);
    assert Pow10(7) == 10 * Pow10(6);
    assert Pow10(8) == 10 * Pow10(7);
  }

  lemma {:induction false} Pow10Grows(m: nat, n: nat)
    requires m <= n
    ensures Pow10(m) <= Pow10(n)
  {
    if m < n {
      Pow10Grows(m, n - 1);
    }
  }

  /** Ten to the n in 32-bit arithmetic, exact while it fits. */
  method PowerOfTen(n: nat) returns (result: nat)
    requires n <= 9
    ensures result == Pow10(n) < 0x1_0000_0000
  {
    result := 1;
    for i := 0 to n
      invariant result == Pow10(i)
    {
      Pow10Grows(i + 1, 9);
      PowersOfTen();
      result := result * 10 % 0x1_0000_0000;
    }
    Pow10Grows(n, 9);
    PowersOfTen();
  }

  method ComputeCode(mac: Mac, secret: Bytes, step: int) returns (code: Result<string, TotpError>)
    requires IsMac(mac)
    ensures code == Code(mac, secret, step)
  {
    hide Padded, Word;
    if secret == [] {
      return Err(BadSecret);
    }
    if step < 0 {
      return Err(BeforeEpoch);
    }
    var counter := Word(step);
    var sum := mac(secret, counter);
    var offset := sum[|sum| - 1] % 16;
    var truncated := Window(sum, offset);
    var modulus := PowerOfTen(DIGITS);
    code := Ok(Padded(truncated % modulus, DIGITS));
  }

  /** The code is the truncated value modulo a million, written in exactly six digits: it reads back as that number. */
  lemma CodeIsTruncatedValue(mac: Mac, secret: Bytes, step: nat)
    requires IsMac(mac) && secret != []
    ensures var code := Code(mac, secret, step);
            code.Ok? && |code.value| == 6 && Number(code.value) == Truncate(mac(secret, Word(step))) % 1000000
  {
    hide Word, Truncate;
    PowersOfTen();
    PaddedNumber(Truncate(mac(secret, Word(step))) % Pow10(DIGITS), DIGITS);
  }

  lemma NoneDenoted()
    ensures Denoted([]) == 0
  {
  }

  lemma FourBytes(s: Bytes)
    requires |s| == 4
    ensures var a: int, b: int, c: int, d: int := s[0], s[1], s[2], s[3];
            Denoted(s) == a * 0x100_0000 + b * 0x1_0000 + c * 0x100 + d
  {
    hide Denoted;
    NoneDenoted();
    assert s == [] + [s[0]] + [s[1]] + [s[2]] + [s[3]];
    DenotedAppended([], s[0]);
    DenotedAppended([] + [s[0]], s[1]);
    DenotedAppended([] + [s[0]] + [s[1]], s[2]);
    DenotedAppended([] + [s[0]] + [s[1]] + [s[2]], s[3]);
  }

  /**
   The code, byte by byte (section 5.3 of RFC 4226): the low half of the last byte of the hash of the counter says where
   four bytes are read, most significant first and without their top bit, and the code is their value modulo a million.
   */
  lemma CodeOfHash(mac: Mac, secret: Bytes, step: nat)
    requires IsMac(mac) && secret != [] && step < 0x1_0000_0000_0000_0000
    ensures Code(mac, secret, step).Ok?
    ensures exists counter: Bytes ::
              && |counter| == 8 && Denoted(counter) == step
              && var sum := mac(secret, counter);
                 var offset := sum[19] % 16;
                 Number(Code(mac, secret, step).value) == Denoted(sum[offset..offset + 4]) % 0x8000_0000 % 1000000
  {
    WordDenotes(step);
    var counter := Word(step);
    var sum := mac(secret, counter);
    var offset := sum[19] % 16;
    FourBytes(sum[offset..offset + 4]);
    CodeIsTruncatedValue(mac, secret, step);
    hide Code, Word;
    assert Truncate(sum) == Denoted(sum[offset..offset + 4]) % 0x8000_0000;
  }

  // ---- the submitted code

  predicate SixDigits(s: string) {
    |s| == DIGITS && forall i :: 0 <= i < |s| ==> IsDigit(s[i])
  }

  function NormalizeCode(submitted: string): (code: Result<string, TotpError>)
    ensures code.Ok? ==> SixDigits(code.value)
  {
    var cleaned := Without(' ', TrimSpace(IsBlank, submitted));
    if |cleaned| != DIGITS then Err(BadCode)
    else if exists i :: 0 <= i < |cleaned| && !IsDigit(cleaned[i]) then Err(BadCode)
    else Ok(cleaned)
  }

  /** The six digits are read through blank space around them and a gap between them, as an authenticator shows them. */
  lemma NormalizeShown(code: string, split: nat, before: string, after: string)
    requires SixDigits(code) && 0 < split < DIGITS && AllSpace(IsBlank, before) && AllSpace(IsBlank, after)
    ensures NormalizeCode(before + (code[..split] + " " + code[split..]) + after) == Ok(code)
    ensures NormalizeCode(before + code + after) == Ok(code)
  {
    hide TrimSpace, Without;
    WithoutItself(' ');
    var shown := code[..split] + " " + code[split..];
    TrimSpacePadded(IsBlank, before, shown, after);
    TrimSpacePadded(IsBlank, before, code, after);
    WithoutJoined(' ', code[..split] + " ", code[split..]);
    WithoutJoined(' ', code[..split], " ");
    WithoutAbsent(' ', code[..split]);
    WithoutAbsent(' ', code[split..]);
    WithoutAbsent(' ', code);
    assert Without(' ', code[..split] + " ") == code[..split] + "";
    assert Without(' ', shown) == code[..split] + "" + code[split..] == code;
    assert shown[0] == code[0] && shown[|shown| - 1] == code[DIGITS - 1];
  }

  // ---- verification

  /** Go's integer division, which rounds towards zero. */
  function Quotient(a: int, b: int): int
    requires b > 0
  {
    if a >= 0 then a / b else -(-a / b)
  }

  /** The counter of a moment, in seconds since the epoch. */
  function Step(unix: int): int {
    Quotient(unix, PERIOD)
  }

  /** A step is thirty seconds long, the first one beginning at the epoch; before it, division rounds towards it. */
  lemma StepSpans(unix: int)
    ensures unix >= 0 ==> 30 * Step(unix) <= unix < 30 * Step(unix) + 30
    ensures unix <= 0 ==> 30 * Step(unix) - 30 < unix <= 30 * Step(unix)
  {
  }

  /** A step shows the code that was submitted. */
  predicate Shows(mac: Mac, secret: Bytes, step: int, code: string)
    requires IsMac(mac)
  {
    Code(mac, secret, step) == Ok(code)
  }

  /** Some step of the window shows the code. */
  ghost predicate SomeStepShows(mac: Mac, secret: Bytes, low: int, high: int, code: string)
    requires IsMac(mac)
  {
    exists s :: low <= s <= high && Shows(mac, secret, s, code)
  }

  /** The latest step of the window that shows the code. */
  ghost predicate IsLatest(mac: Mac, secret: Bytes, low: int, high: int, code: string, step: int)
    requires IsMac(mac)
  {
    && low <= step <= high && Shows(mac, secret, step, code)
    && forall s :: step < s <= high ==> !Shows(mac, secret, s, code)
  }

  /** The submission is a code that some step of the window shows, and the window lies after the epoch. */
  ghost predicate Accepts(mac: Mac, secret: Bytes, submitted: string, unix: int, skewSteps: int)
    requires IsMac(mac)
  {
    secret != [] && 0 <= skewSteps <= MAX_SKEW_STEPS && NormalizeCode(submitted).Ok? && Step(unix) >= skewSteps
    && SomeStepShows(mac, secret, Step(unix) - skewSteps, Step(unix) + skewSteps, NormalizeCode(submitted).value)
  }

  /**
   Verification accepts exactly when the window lies after the epoch and some step in it shows the submitted code, and
   returns the latest such step. A window that reaches below step zero is refused whole, whatever its other steps show.
   */
  method Verify(mac: Mac, secret: Bytes, submitted: string, unix: int, skewSteps: int) returns (step: int, ok: bool)
    requires IsMac(mac)
    ensures ok <==> Accepts(mac, secret, submitted, unix, skewSteps)
    ensures ok ==> IsLatest(mac, secret, Step(unix) - skewSteps, Step(unix) + skewSteps,
                            NormalizeCode(submitted).value, step)
    ensures !ok ==> step == 0
  {
    hide Code, NormalizeCode, Step;
    if secret == [] || skewSteps < 0 || skewSteps > MAX_SKEW_STEPS {
      return 0, false;
    }
    var cleaned := NormalizeCode(submitted);
    if cleaned.Err? {
      return 0, false;
    }
    var current := Step(unix);
    var matched := false;
    var matchedStep := 0;
    var offset := -skewSteps;
    while offset <= skewSteps
      invariant -skewSteps <= offset <= skewSteps + 1
      invariant offset > -skewSteps ==> current >= skewSteps
      invariant matched <==> SomeStepShows(mac, secret, current - skewSteps, current + offset - 1, cleaned.value)
      invariant matched ==> IsLatest(mac, secret, current - skewSteps, current + offset - 1, cleaned.value, matchedStep)
      decreases skewSteps - offset
    {
      var candidate := ComputeCode(mac, secret, current + offset);
      if candidate.Err? {
        return 0, false;
      }
      if candidate.value == cleaned.value {
        assert Shows(mac, secret, current + offset, cleaned.value);
        matchedStep := current + offset;
        matched := true;
      }
      offset := offset + 1;
    }
    if !matched {
      return 0, false;
    }
    return matchedStep, true;
  }

  /**
   A code is accepted throughout the window around its step, at most two steps wide on either side, and by no window
   that reaches before the epoch.
   */
  lemma OwnCodeAccepted(mac: Mac, secret: Bytes, step: nat, unix: int, skewSteps: int)
    requires IsMac(mac) && secret != []
    requires Step(unix) - skewSteps <= step <= Step(unix) + skewSteps
    ensures Code(mac, secret, step).Ok?
    ensures Accepts(mac, secret, Code(mac, secret, step).value, unix, skewSteps)
            <==> 0 <= skewSteps <= 2 && Step(unix) >= skewSteps
  {
    hide Padded, Word, NormalizeCode, Truncate, Step;
    var code := Code(mac, secret, step).value;
    NormalizeShown(code, 3, "", "");
    assert "" + code + "" == code;
    assert Shows(mac, secret, step, code);
  }

  /**
   In the first half minute of the epoch the default skew of one step refuses even the code of the current step, which
   some step of the window does show.
   */
  lemma NearEpochRefused(mac: Mac, secret: Bytes)
    requires IsMac(mac) && secret != []
    ensures Step(0) == 0 && Code(mac, secret, 0).Ok?
    ensures var code := Code(mac, secret, 0).value;
            && NormalizeCode(code) == Ok(code) && SomeStepShows(mac, secret, -1, 1, code)
            && !Accepts(mac, secret, code, 0, 1)
  {
    hide Padded, Word, NormalizeCode, Truncate;
    var code := Code(mac, secret, 0).value;
    NormalizeShown(code, 3, "", "");
    assert "" + code + "" == code;
    assert Shows(mac, secret, 0, code);
  }
}
