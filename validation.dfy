/**
  The input guards at the top of `busca_cep`. Rust's `&str` is UTF-8: `is_empty`
  and `len` count bytes, while `chars()` walks Unicode scalar values. Dafny's
  `string` is a sequence of Unicode scalar values, so the byte length is
  modelled explicitly as the sum of each character's UTF-8 width.
 */
module Validation {
  import opened Wrappers
  import opened CepErrors

  const EmptyMessage: string := "CEP inválido. O CEP não pode ser vazio"
  const NonDigitMessage: string := "CEP inválido. O CEP deve conter apenas dígitos"
  const LengthMessage: string := "CEP inválido. O CEP deve conter 8 dígitos"

  /** The number of digits a postal code has. */
  const CepLength: nat := 8

  /**
    `char::to_digit(10)`: the character's code minus that of '0', computed with
    a wrapping 32-bit subtraction, is a digit when it is below the radix.
   */
  function ToDigit(c: char): (d: Option<nat>)
    ensures d.Some? <==> '0' <= c <= '9'
    ensures d.Some? ==> d.value < 10 && d.value == c as int - '0' as int
  {
    var wrapped := (c as int - '0' as int) % 0x1_0000_0000;
    if wrapped < 10 then Some(wrapped) else None
  }

  /** `char::is_digit(10)`: exactly the ASCII decimal digits. */
  predicate IsDigit(c: char)
    ensures IsDigit(c) <==> '0' <= c <= '9'
  {
    ToDigit(c).Some?
  }

  /** `cep.chars().all(|c| c.is_digit(10))`: every character is one of '0'..'9'. */
  predicate AllDigits(s: string)
    ensures AllDigits(s) <==> forall i :: 0 <= i < |s| ==> '0' <= s[i] <= '9'
  {
    forall i :: 0 <= i < |s| ==> IsDigit(s[i])
  }

  predicate IsAscii(c: char) {
    c as int < 0x80
  }

  predicate AllAscii(s: string) {
    forall i :: 0 <= i < |s| ==> IsAscii(s[i])
  }

  /** How many bytes UTF-8 spends on one Unicode scalar value. */
  function Utf8Width(c: char): (w: nat)
    ensures 1 <= w <= 4
    ensures w == 1 <==> IsAscii(c)
  {
    if c as int < 0x80 then 1
    else if c as int < 0x800 then 2
    else if c as int < 0x1_0000 then 3
    else 4
  }

  /**
    `str::len()`: the length of the UTF-8 encoding, in bytes. It is never below
    the character count, and it is zero, so that `str::is_empty()` holds,
    exactly for the string with no characters.
   */
  function ByteLen(s: string): (n: nat)
    ensures n >= |s|
    ensures n == 0 <==> s == []
  {
    if s == [] then 0 else Utf8Width(s[0]) + ByteLen(s[1..])
  }

  /** The byte length equals the character count exactly when every character is ASCII. */
  lemma {:induction false} ByteLenIsCharCount(s: string)
    ensures ByteLen(s) == |s| <==> AllAscii(s)
  {
    if s != [] {
      ByteLenIsCharCount(s[1..]);
      assert AllAscii(s) <==> IsAscii(s[0]) && AllAscii(s[1..]) by {
        if IsAscii(s[0]) && AllAscii(s[1..]) {
          forall i | 0 <= i < |s| ensures IsAscii(s[i]) {
            if i > 0 { assert s[i] == s[1..][i - 1]; }
          }
        }
      }
    }
  }

  /** Decimal digits are ASCII, so for an all-digit string `len()` is the character count. */
  lemma DigitsByteLen(s: string)
    requires AllDigits(s)
    ensures ByteLen(s) == |s|
  {
    ByteLenIsCharCount(s);
  }

  /** The accepted language, stated independently: exactly eight ASCII decimal digits. */
  predicate ValidCep(s: string) {
    |s| == CepLength && forall i :: 0 <= i < |s| ==> '0' <= s[i] <= '9'
  }

  /**
    The three ordered guards of `busca_cep`: empty, then non-digit, then length.
    Each rejection is an `InvalidInput` with its own message, and an input that
    breaks several rules gets the message of the first guard it fails.
   */
  function Validate(cep: string): (r: Result<(), CepError>)
    ensures r.Err? ==> r.error.InvalidInput?
    ensures |cep| == 0 ==> r == Err(InvalidInput(EmptyMessage))
    ensures |cep| > 0 && (exists i :: 0 <= i < |cep| && !('0' <= cep[i] <= '9')) ==>
              r == Err(InvalidInput(NonDigitMessage))
    ensures |cep| > 0 && (forall i :: 0 <= i < |cep| ==> '0' <= cep[i] <= '9') && |cep| != CepLength ==>
              r == Err(InvalidInput(LengthMessage))
    ensures r.Ok? <==> ValidCep(cep)
  {
    if ByteLen(cep) == 0 then
      Err(InvalidInput(EmptyMessage))
    else if !AllDigits(cep) then
      Err(InvalidInput(NonDigitMessage))
    else
      DigitsByteLen(cep);
      if ByteLen(cep) != CepLength then
        Err(InvalidInput(LengthMessage))
      else
        Ok(())
  }

  /** The digit guard runs before the length guard: "12a" is too short, yet gets the digit message. */
  lemma DigitGuardBeforeLengthGuard()
    ensures Validate("12a") == Err(InvalidInput(NonDigitMessage))
    ensures Validate("1234567") == Err(InvalidInput(LengthMessage))
    ensures Validate("01310000") == Ok(())
  {
    assert "12a"[2] == 'a';
  }

  /** Digits outside ASCII, such as the Arabic-Indic ones, are not digits to `is_digit(10)`. */
  lemma NonAsciiDigitRejected(cep: string)
    requires exists i :: 0 <= i < |cep| && !IsAscii(cep[i])
    ensures Validate(cep) == Err(InvalidInput(NonDigitMessage))
  {
    var i :| 0 <= i < |cep| && !IsAscii(cep[i]);
    assert !('0' <= cep[i] <= '9');
  }
}
