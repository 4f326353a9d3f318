/** Decimal numbers as the source reads and writes them: `str::parse::<usize>`
    when converting the `line`/`col` captures, and `usize::to_string` when
    rendering a CSV record. A 64-bit target is assumed for `usize`. */
module Decimal {
  import opened Wrappers

  /** `usize::MAX` on a 64-bit target. */
  const UsizeMax: nat := 0xFFFF_FFFF_FFFF_FFFF

  predicate IsDigit(c: char) {
    '0' <= c <= '9'
  }

  predicate AllDigits(s: string) {
    forall i :: 0 <= i < |s| ==> IsDigit(s[i])
  }

  function DigitChar(d: nat): (c: char)
    requires d < 10
    ensures IsDigit(c)
  {
    ('0' as int + d) as char
  }

  /** The value of a string of decimal digits, most significant digit first;
      leading zeros are allowed. */
  function DigitsValue(s: string): nat
    requires AllDigits(s)
  {
    if s == [] then 0
    else DigitsValue(s[..|s| - 1]) * 10 + (s[|s| - 1] as int - '0' as int)
  }

  /** `usize::to_string`: the canonical decimal rendering, with no sign and no
      leading zero except for zero itself. */
  function NatToString(n: nat): (s: string)
    ensures |s| > 0 && AllDigits(s)
    ensures s[0] == '0' <==> n == 0
    decreases n
  {
    if n < 10 then [DigitChar(n)]
    else NatToString(n / 10) + [DigitChar(n % 10)]
  }

  /** `str::parse::<usize>`: an optional leading `+`, then at least one ASCII
      digit and nothing else; values above `usize::MAX` overflow. */
  function ParseUsize(s: string): (r: Option<nat>)
    ensures r.Some? ==> r.value <= UsizeMax
    ensures r.Some? ==> |s| > 0 && (s[0] == '+' || IsDigit(s[0]))
    ensures r.Some? ==>
      var d := if s[0] == '+' then s[1..] else s;
      |d| > 0 && AllDigits(d) && r.value == DigitsValue(d)
  {
    var digits := if |s| > 0 && s[0] == '+' then s[1..] else s;
    if |digits| == 0 || !AllDigits(digits) then None
    else if DigitsValue(digits) > UsizeMax then None
    else Some(DigitsValue(digits))
  }

  /** Rendering then reading a number gives the number back. */
  lemma {:induction false} DigitsValueOfNatToString(n: nat)
    ensures DigitsValue(NatToString(n)) == n
    decreases n
  {
    if n >= 10 {
      var t := NatToString(n / 10);
      var s := t + [DigitChar(n % 10)];
      assert s[..|s| - 1] == t;
      DigitsValueOfNatToString(n / 10);
    }
  }

  /** `parse::<usize>` inverts `to_string` on every `usize`, with or without
      an explicit `+` sign. */
  lemma ParseUsizeOfNatToString(n: nat)
    requires n <= UsizeMax
    ensures ParseUsize(NatToString(n)) == Some(n)
    ensures ParseUsize("+" + NatToString(n)) == Some(n)
  {
    DigitsValueOfNatToString(n);
    assert ("+" + NatToString(n))[1..] == NatToString(n);
  }

  /** Any character other than a digit rejects the text, except a `+` in
      first position. */
  lemma ParseUsizeRejects(s: string, i: nat)
    requires i < |s| && !IsDigit(s[i]) && !(i == 0 && s[0] == '+')
    ensures ParseUsize(s) == None
  {
  }

  /** Some inputs `parse::<usize>` rejects: empty text, a lone sign, a minus
      sign, and non-digits. */
  lemma ParseUsizeRejectsExamples()
    ensures ParseUsize("") == None
    ensures ParseUsize("+") == None
    ensures ParseUsize("-1") == None
    ensures ParseUsize("1a") == None
    ensures ParseUsize(" 1") == None
  {
  }

  /** Leading zeros and a plus sign are accepted. */
  lemma ParseUsizeAccepts()
    ensures ParseUsize("007") == Some(7)
    ensures ParseUsize("+33") == Some(33)
  {
    assert "007"[..2] == "00" && "00"[..1] == "0" && "0"[..0] == "";
    assert "+33"[1..] == "33" && "33"[..1] == "3" && "3"[..0] == "";
  }
}
