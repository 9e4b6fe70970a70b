/** Go's `strconv.Atoi` and `strconv.Itoa` on a 64-bit platform, where `int`
    is 64 bits wide. */
module Strconv {
  import opened Constants
  import opened Wrappers

  const MinInt64: int := -0x8000_0000_0000_0000
  const MaxInt64: int := 0x7FFF_FFFF_FFFF_FFFF

  predicate IsDigit(b: Byte) {
    '0' <= b <= '9'
  }

  /** A non-empty run of ASCII decimal digits. */
  predicate IsDecimal(s: Bytes) {
    |s| > 0 && forall k :: 0 <= k < |s| ==> IsDigit(s[k])
  }

  function DigitValue(b: Byte): (d: nat)
    requires IsDigit(b)
    ensures d < 10
  {
    b as int - '0' as int
  }

  function DigitByte(d: nat): (b: Byte)
    requires d < 10
    ensures IsDigit(b) && DigitValue(b) == d
  {
    ('0' as int + d) as char
  }

  /** The value of a run of decimal digits, most significant first. */
  function DecimalValue(s: Bytes): nat
    requires forall k :: 0 <= k < |s| ==> IsDigit(s[k])
    decreases |s|
  {
    if |s| == 0 then 0 else DecimalValue(s[..|s| - 1]) * 10 + DigitValue(s[|s| - 1])
  }

  /** The shortest decimal spelling of `n`: its digits read back as `n`. */
  function NatToDecimal(n: nat): (s: Bytes)
    ensures IsDecimal(s) && DecimalValue(s) == n
    decreases n
  {
    if n < 10 then [DigitByte(n)]
    else
      var s := NatToDecimal(n / 10) + [DigitByte(n % 10)];
      assert s[..|s| - 1] == NatToDecimal(n / 10);
      s
  }

  /** strconv.Atoi: an optional '+' or '-' followed by at least one decimal
      digit, leading zeros allowed, whose value fits in 64 bits; anything
      else is an error (None). Go reports a syntax error and a range error
      differently; both are errors here. */
  function Atoi(s: Bytes): (r: Option<int>)
    ensures r.Some? <==>
      (IsDecimal(s) && DecimalValue(s) <= MaxInt64) ||
      (|s| > 1 && s[0] == '+' && IsDecimal(s[1..]) && DecimalValue(s[1..]) <= MaxInt64) ||
      (|s| > 1 && s[0] == '-' && IsDecimal(s[1..]) && DecimalValue(s[1..]) <= -MinInt64)
    ensures r.Some? && IsDecimal(s) ==> r.value == DecimalValue(s)
    ensures r.Some? && !IsDecimal(s) ==>
      r.value == (if s[0] == '-' then -1 else 1) * DecimalValue(s[1..])
    ensures r.Some? ==> MinInt64 <= r.value <= MaxInt64
  {
    if |s| == 0 then None
    else
      var digits := if s[0] == '+' || s[0] == '-' then s[1..] else s;
      if !IsDecimal(digits) then None
      else
        var magnitude: int := DecimalValue(digits);
        var v: int := if s[0] == '-' then -magnitude else magnitude;
        if MinInt64 <= v <= MaxInt64 then Some(v) else None
  }

  /** A sign and leading zeros are accepted; a bare sign, an empty field
      and a trailing non-digit are not. */
  lemma AtoiSignAndLeadingZeros()
    ensures Atoi("+007") == Some(7) && Atoi("-0") == Some(0)
    ensures Atoi("+") == None && Atoi("") == None && Atoi("1a") == None
  {
    assert IsDecimal("007") && "007"[..2] == "00" && "00"[..1] == "0";
    assert DecimalValue("007") == 7;
    assert "+007"[1..] == "007" && "-0"[1..] == "0";
    assert !IsDigit("1a"[1]);
  }

  /** strconv.Itoa */
  function Itoa(n: int): (s: Bytes)
    ensures |s| > 0
    ensures forall k :: 0 <= k < |s| ==> IsDigit(s[k]) || s[k] == '-'
  {
    if n < 0 then "-" + NatToDecimal(-n) else NatToDecimal(n)
  }

  /** Itoa and Atoi are inverse on the 64-bit range. */
  lemma AtoiItoa(n: int)
    requires MinInt64 <= n <= MaxInt64
    ensures Atoi(Itoa(n)) == Some(n)
  {
    var s := Itoa(n);
    if n < 0 {
      assert s[1..] == NatToDecimal(-n);
    } else {
      assert IsDigit(s[0]);
    }
  }
}
