/** Decimal integers and UTF-8, as the RESP codec uses them: `to_string`, `parse::<i64>` and `from_utf8`. */
module Text {
  import opened Common

  const ZERO: Byte := 48
  const PLUS: Byte := 43
  const MINUS: Byte := 45

  const I64_MIN: int := -0x8000_0000_0000_0000
  const I64_MAX: int := 0x7fff_ffff_ffff_ffff

  predicate IsDigit(b: Byte) { ZERO <= b <= ZERO + 9 }

  /** From index `from` on there are only digits. */
  predicate AllDigits(s: Bytes, from: nat) { forall i :: from <= i < |s| ==> IsDigit(s[i]) }

  /** Decimal notation without leading zeros. */
  function Digits(n: nat): Bytes {
    if n < 10 then [ZERO + n] else Digits(n / 10) + [ZERO + n % 10]
  }

  function Print(n: int): Bytes {
    if n < 0 then [MINUS] + Digits(-n) else Digits(n)
  }

  /** The number written by the digits from index `from` up to `end`. */
  function Value(s: Bytes, from: nat, end: nat): nat
    requires from <= end <= |s| && AllDigits(s, from)
    decreases end
  {
    if from == end then 0 else Value(s, from, end - 1) * 10 + (s[end - 1] - ZERO)
  }

  /** Optional sign, then at least one digit, then a range check. */
  function ParseI64(s: Bytes): Option<int> {
    var signed := s != [] && (s[0] == PLUS || s[0] == MINUS);
    var from := if signed then 1 else 0;
    if from == |s| || !AllDigits(s, from) then None
    else
      var magnitude: int := Value(s, from, |s|);
      var n := if signed && s[0] == MINUS then -magnitude else magnitude;
      if I64_MIN <= n <= I64_MAX then Some(n) else None
  }

  lemma {:induction false} DigitsAreDigits(n: nat)
    ensures Digits(n) != [] && AllDigits(Digits(n), 0)
  {
    if n >= 10 { DigitsAreDigits(n / 10); }
  }

  lemma {:induction false} ValueOfPrefix(s: Bytes, t: Bytes, from: nat, end: nat, shift: nat)
    requires AllDigits(s, from) && AllDigits(t, from + shift) && from <= end <= |s| && end + shift <= |t|
    requires forall i :: from <= i < end ==> s[i] == t[i + shift]
    ensures Value(s, from, end) == Value(t, from + shift, end + shift)
    decreases end
  {
    if end > from { ValueOfPrefix(s, t, from, end - 1, shift); }
  }

  lemma {:induction false} DigitsRoundTrip(n: nat)
    ensures Digits(n) != [] && AllDigits(Digits(n), 0) && Value(Digits(n), 0, |Digits(n)|) == n
  {
    DigitsAreDigits(n);
    if n >= 10 {
      DigitsRoundTrip(n / 10);
      ValueOfPrefix(Digits(n / 10), Digits(n), 0, |Digits(n / 10)|, 0);
    } else {
      assert Value([ZERO + n], 0, 0) == 0;
    }
  }

  /** Printing and parsing an i64 is the identity. */
  lemma PrintRoundTrip(n: int)
    requires I64_MIN <= n <= I64_MAX
    ensures ParseI64(Print(n)) == Some(n)
  {
    if n < 0 {
      DigitsRoundTrip(-n);
      ParseNegated(Digits(-n));
    } else {
      DigitsRoundTrip(n);
      assert forall i :: 0 <= i < |Digits(n)| ==> IsDigit(Digits(n)[i]);
    }
  }

  lemma ParseNegated(d: Bytes)
    requires d != [] && AllDigits(d, 0) && Value(d, 0, |d|) <= -I64_MIN
    ensures ParseI64([MINUS] + d).Some? && ParseI64([MINUS] + d).value == 0 - Value(d, 0, |d|)
  {
    ShiftedValue(d, [MINUS] + d);
  }

  lemma ShiftedValue(d: Bytes, s: Bytes)
    requires AllDigits(d, 0) && |s| == |d| + 1 && forall i :: 0 <= i < |d| ==> d[i] == s[i + 1]
    ensures AllDigits(s, 1) && Value(s, 1, |s|) == Value(d, 0, |d|)
  {
    forall i | 1 <= i < |s| ensures IsDigit(s[i]) {
      assert s[i] == d[i - 1];
    }
    ValueOfPrefix(d, s, 0, |d|, 1);
  }

  predicate Continues(b: Byte) { 0x80 <= b <= 0xBF }

  /** The length of the well-formed UTF-8 sequence at index `i` (Unicode Standard, table 3-7), or 0 if there is none. */
  function Utf8Width(s: Bytes, i: nat): (n: nat)
    requires i < |s|
    ensures i + n <= |s|
  {
    var left := |s| - i;
    if s[i] <= 0x7F then 1
    else if left >= 2 && 0xC2 <= s[i] <= 0xDF && Continues(s[i + 1]) then 2
    else if left >= 3 && Continues(s[i + 2])
            && (|| (s[i] == 0xE0 && 0xA0 <= s[i + 1] <= 0xBF)
                || ((0xE1 <= s[i] <= 0xEC || 0xEE <= s[i] <= 0xEF) && Continues(s[i + 1]))
                || (s[i] == 0xED && 0x80 <= s[i + 1] <= 0x9F)) then 3
    else if left >= 4 && Continues(s[i + 2]) && Continues(s[i + 3])
            && (|| (s[i] == 0xF0 && 0x90 <= s[i + 1] <= 0xBF)
                || (0xF1 <= s[i] <= 0xF3 && Continues(s[i + 1]))
                || (s[i] == 0xF4 && 0x80 <= s[i + 1] <= 0x8F)) then 4
    else 0
  }

  predicate Utf8From(s: Bytes, i: nat)
    requires i <= |s|
    decreases |s| - i
  {
    i == |s| || (Utf8Width(s, i) > 0 && Utf8From(s, i + Utf8Width(s, i)))
  }

  /** Well-formed UTF-8. */
  predicate Utf8(s: Bytes) { Utf8From(s, 0) }

  lemma {:induction false} AsciiFrom(s: Bytes, i: nat)
    requires i <= |s| && forall j :: 0 <= j < |s| ==> s[j] <= 0x7F
    ensures Utf8From(s, i)
    decreases |s| - i
  {
    if i < |s| { AsciiFrom(s, i + 1); }
  }

  lemma AsciiIsUtf8(s: Bytes)
    requires forall j :: 0 <= j < |s| ==> s[j] <= 0x7F
    ensures Utf8(s)
  {
    AsciiFrom(s, 0);
  }

  lemma PrintedIsUtf8(n: int)
    ensures Utf8(Print(n))
    ensures forall i :: 0 <= i < |Print(n)| ==> Print(n)[i] == MINUS || IsDigit(Print(n)[i])
  {
    DigitsRoundTrip(if n < 0 then -n else n);
    AsciiIsUtf8(Print(n));
  }
}
