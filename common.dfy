/** Vocabulary shared by the assembler modules: optional values and results,
    the C fixed-width integer types, blank characters, and positional
    numerals in base 10 and base 16. */
module Common {

  datatype Option<+T> = None | Some(value: T)

  datatype Result<+T, +E> = Ok(value: T) | Err(error: E)

  const UINT8_MAX: int := 0xFF
  const UINT16_MAX: int := 0xFFFF
  const UINT32_MAX: int := 0xFFFF_FFFF

  type u8 = x: int | 0 <= x <= 0xFF
  type u16 = x: int | 0 <= x <= 0xFFFF
  type u32 = x: int | 0 <= x <= 0xFFFF_FFFF
  type i8 = x: int | -0x80 <= x <= 0x7F
  type i16 = x: int | -0x8000 <= x <= 0x7FFF

  /** The two radices the parsers read: decimal and `$`-prefixed hex. */
  type Base = b: nat | b == 10 || b == 16 witness 10

  /** A space or a tab: what the normalizer collapses and the error-line
      trimmer strips. */
  predicate IsBlank(c: char) {
    c == ' ' || c == '\t'
  }

  predicate AllBlank(s: string) {
    forall i :: 0 <= i < |s| ==> IsBlank(s[i])
  }

  /** The number of leading blanks of `s`: the prefix before it is all blank
      and the character at it, if any, is not. */
  function LeadingBlanks(s: string): (k: nat)
    ensures k <= |s|
    ensures AllBlank(s[..k])
    ensures k < |s| ==> !IsBlank(s[k])
    decreases |s|
  {
    if s != [] && IsBlank(s[0]) then 1 + LeadingBlanks(s[1..]) else 0
  }

  /** The index of the first character of `s` that is in `stops`, or `|s|`. */
  function FindFirst(s: string, stops: set<char>): (k: nat)
    ensures k <= |s|
    ensures forall j :: 0 <= j < k ==> s[j] !in stops
    ensures k < |s| ==> s[k] in stops
    decreases |s|
  {
    if s == [] || s[0] in stops then 0 else 1 + FindFirst(s[1..], stops)
  }

  /** Any index that satisfies the contract of `FindFirst` is its result. */
  lemma FindFirstUnique(s: string, stops: set<char>, k: nat)
    requires k <= |s|
    requires forall j :: 0 <= j < k ==> s[j] !in stops
    requires k < |s| ==> s[k] in stops
    ensures FindFirst(s, stops) == k
  {
  }

  /** The LCASE macro: ASCII upper-case letters become lower case, every
      other character is left alone. */
  function LowerChar(c: char): char {
    if 'A' <= c <= 'Z' then (c as int - 'A' as int + 'a' as int) as char else c
  }

  function Lower(s: string): (r: string)
    ensures |r| == |s|
    ensures forall i :: 0 <= i < |s| ==> r[i] == LowerChar(s[i])
  {
    seq(|s|, i requires 0 <= i < |s| => LowerChar(s[i]))
  }

  /** Digit characters: `0`-`9`, and for base 16 also the lower-case
      letters `a`-`f` (upper-case hex digits are not digits here). */
  predicate IsDigit(c: char, base: Base) {
    '0' <= c <= '9' || (base == 16 && 'a' <= c <= 'f')
  }

  predicate AllDigits(s: string, base: Base) {
    forall i :: 0 <= i < |s| ==> IsDigit(s[i], base)
  }

  function DigitValue(c: char, base: Base): (v: nat)
    requires IsDigit(c, base)
    ensures v < base
  {
    if '0' <= c <= '9' then c as int - '0' as int else 10 + (c as int - 'a' as int)
  }

  /** The positional value of a digit string, read left to right as the
      accumulator loops of the parsers read it. */
  function Value(s: string, base: Base): nat
    requires AllDigits(s, base)
    decreases |s|
  {
    if s == [] then 0 else Value(s[..|s| - 1], base) * base + DigitValue(s[|s| - 1], base)
  }

  function DigitChar(d: nat, base: Base): (c: char)
    requires d < base
    ensures IsDigit(c, base) && DigitValue(c, base) == d
  {
    if d < 10 then ('0' as int + d) as char else ('a' as int + (d - 10)) as char
  }

  /** The shortest numeral for `n`, as `%zu` prints a decimal number. */
  function Numeral(n: nat, base: Base): (s: string)
    ensures |s| >= 1 && AllDigits(s, base)
    ensures Value(s, base) == n
    decreases n
  {
    if n < base then [DigitChar(n, base)]
    else
      var p := Numeral(n / base, base);
      var s := p + [DigitChar(n % base, base)];
      assert s[..|s| - 1] == p;
      s
  }

  /** Reading a longer digit string never gives a smaller value, so the
      parsers' check of the running value against a bound is the same as a
      check of the final value. */
  lemma {:induction false} ValuePrefix(s: string, base: Base, j: nat)
    requires AllDigits(s, base) && j <= |s|
    ensures AllDigits(s[..j], base)
    ensures Value(s[..j], base) <= Value(s, base)
    decreases |s|
  {
    if j < |s| {
      var t := s[..|s| - 1];
      assert t[..j] == s[..j];
      ValuePrefix(t, base, j);
    } else {
      assert s[..j] == s;
    }
  }

  /** Appending one digit: the step of every accumulator loop. */
  lemma ValueSnoc(s: string, c: char, base: Base)
    requires AllDigits(s, base) && IsDigit(c, base)
    ensures AllDigits(s + [c], base)
    ensures Value(s + [c], base) == Value(s, base) * base + DigitValue(c, base)
  {
    assert (s + [c])[..|s|] == s;
  }
}
