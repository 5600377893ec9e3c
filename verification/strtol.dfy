// libs/string.c, lines 203-259: strtol, and how it undoes the printing of numbers.

module StrTol {
  import opened Arith
  import opened PrintNum
  import opened PrintFmt

  /** The value of a digit or letter, and more than any base for other characters */
  function DigitValue(c: char): nat {
    if '0' <= c <= '9' then c as int - '0' as int
    else if 'a' <= c <= 'z' then c as int - 'a' as int + 10
    else if 'A' <= c <= 'Z' then c as int - 'A' as int + 10
    else 36
  }

  predicate SameRange(c: char, d: char) {
    '0' <= c <= d <= '9' || 'a' <= c <= d <= 'z' || 'A' <= c <= d <= 'Z'
  }

  /** The digits stand for 0 to 9, and letters, small or capital, for 10 to 35. */
  lemma DigitValues(c: char, d: char)
    ensures DigitValue('0') == 0 && DigitValue('9') == 9
    ensures DigitValue('a') == DigitValue('A') == 10 && DigitValue('z') == DigitValue('Z') == 35
    ensures SameRange(c, d) ==> DigitValue(d) - DigitValue(c) == d as int - c as int
    ensures !SameRange(c, c) <==> DigitValue(c) >= 36
  {
  }

  predicate IsDigitOf(c: char, base: nat) {
    DigitValue(c) < 36 && DigitValue(c) < base
  }

  /** The digits that s starts with: how many, and their value if v comes before them */
  function RunLength(s: string, base: nat): (n: nat)
    ensures n <= |s| && forall i :: 0 <= i < n ==> IsDigitOf(s[i], base)
    ensures n < |s| ==> !IsDigitOf(s[n], base)
  {
    if s == "" || !IsDigitOf(s[0], base) then 0 else 1 + RunLength(s[1..], base)
  }

  function RunValue(s: string, base: nat, v: nat): nat {
    if s == "" || !IsDigitOf(s[0], base) then v else RunValue(s[1..], base, v * base + DigitValue(s[0]))
  }

  predicate StartsBlank(s: string) {
    s != "" && (s[0] == ' ' || s[0] == '\t')
  }

  predicate StartsSign(s: string) {
    s != "" && (s[0] == '+' || s[0] == '-')
  }

  /** The base to read in, and the length of the prefix that says so */
  function BaseAndPrefix(s: string, base: nat): (r: (nat, nat))
    ensures r.1 <= |s|
  {
    if (base == 0 || base == 16) && At(s, 0) == '0' && At(s, 1) == 'x' then (16, 2)
    else if base == 0 && At(s, 0) == '0' then (8, 1)
    else if base == 0 then (10, 0)
    else (base, 0)
  }

  /** The number without a sign that s starts with, and where it ends */
  function Magnitude(s: string, base: nat): (nat, nat) {
    var (base', prefix) := BaseAndPrefix(s, base);
    (RunValue(s[prefix..], base', 0), prefix + RunLength(s[prefix..], base'))
  }

  /** The number that s starts with, and where it ends */
  function Unblanked(s: string, base: nat): (int, nat) {
    if StartsSign(s) then
      var (v, n) := Magnitude(s[1..], base);
      (Signed(v, s[0] == '-'), n + 1)
    else
      var (v, n) := Magnitude(s, base);
      (v, n)
  }

  /** The same behind blanks */
  function Reading(s: string, base: nat): (int, nat) {
    if StartsBlank(s) then
      var (v, n) := Reading(s[1..], base);
      (v, n + 1)
    else
      Unblanked(s, base)
  }

  function Signed(v: nat, neg: bool): int {
    var x: int := v;
    if neg then -x else x
  }

  const LONG_LIMIT := 0x8000_0000

  lemma {:induction false} RunValueGrows(s: string, base: nat, v: nat)
    requires base > 0
    ensures RunValue(s, base, v) >= v
  {
    if s != "" && IsDigitOf(s[0], base) {
      RunValueGrows(s[1..], base, v * base + DigitValue(s[0]));
      MulMono(1, base, v);
    }
  }

  /** From index i on, with v read before, the digits come to the value and end of a run. */
  ghost predicate RunsTo(s: string, i: nat, base: nat, v: nat, value: nat, end: nat) {
    i <= |s| && RunValue(s[i..], base, v) == value && i + RunLength(s[i..], base) == end
  }

  lemma RunStep(s: string, i: nat, base: nat, v: nat, value: nat, end: nat)
    requires RunsTo(s, i, base, v, value, end) && i < |s| && IsDigitOf(s[i], base)
    ensures RunsTo(s, i + 1, base, v * base + DigitValue(s[i]), value, end) && v * base + DigitValue(s[i]) <= value
  {
    assert s[i..][1..] == s[i + 1..];
    RunValueGrows(s[i + 1..], base, v * base + DigitValue(s[i]));
  }

  /** Line 251.  It does not leave the range of a long if the whole number fits. */
  method ReadDigit(s: string, i: nat, base: nat, v: nat, ghost value: nat, ghost end: nat) returns (v': nat)
    requires RunsTo(s, i, base, v, value, end) && i < |s| && IsDigitOf(s[i], base) && value < LONG_LIMIT
    ensures RunsTo(s, i + 1, base, v', value, end) && v' < LONG_LIMIT
  {
    RunStep(s, i, base, v, value, end);
    v' := v * base + DigitValue(s[i]);
  }

  /** Lines 232-253 */
  method ReadRun(s: string, i0: nat, base: nat) returns (val: nat, i: nat)
    requires i0 <= |s| && '\0' !in s && RunValue(s[i0..], base, 0) < LONG_LIMIT
    ensures val == RunValue(s[i0..], base, 0) && i == i0 + RunLength(s[i0..], base)
  {
    ghost var value, end := RunValue(s[i0..], base, 0), i0 + RunLength(s[i0..], base);
    val, i := 0, i0;
    while IsDigitOf(At(s, i), base)
      invariant RunsTo(s, i, base, val, value, end)
      decreases |s| - i
    {
      val := ReadDigit(s, i, base, val, value, end);
      i := i + 1;
    }
    RunStops(s[i..], base, val);
  }

  lemma RunStops(s: string, base: nat, v: nat)
    requires !IsDigitOf(At(s, 0), base)
    ensures RunValue(s, base, v) == v && RunLength(s, base) == 0
  {
  }

  /** Lines 208-211 */
  method SkipBlanks(s: string, ghost base: nat) returns (i: nat)
    ensures i <= |s| && !StartsBlank(s[i..])
    ensures Reading(s, base) == (Unblanked(s[i..], base).0, i + Unblanked(s[i..], base).1)
  {
    i := 0;
    assert s[0..] == s;
    while At(s, i) == ' ' || At(s, i) == '\t'
      invariant i <= |s| && Reading(s, base) == (Reading(s[i..], base).0, i + Reading(s[i..], base).1)
      decreases |s| - i
    {
      assert s[i..][1..] == s[i + 1..];
      i := i + 1;
    }
  }

  /** Lines 214-219, from index b on */
  method ReadSign(s: string, b: nat, ghost base: nat) returns (i: nat, neg: bool)
    requires b <= |s|
    ensures b <= i <= |s| &&
              Unblanked(s[b..], base) == (Signed(Magnitude(s[i..], base).0, neg), i - b + Magnitude(s[i..], base).1)
  {
    i, neg := b, false;
    if At(s, i) == '+' {
      i := i + 1;
      assert s[b..][1..] == s[i..];
    } else if At(s, i) == '-' {
      i, neg := i + 1, true;
      assert s[b..][1..] == s[i..];
    }
  }

  /** Lines 222-230, from index i0 on */
  method ReadPrefix(s: string, i0: nat, base0: nat) returns (i: nat, base: nat)
    requires i0 <= |s|
    ensures (base, i - i0) == BaseAndPrefix(s[i0..], base0) && i0 <= i <= |s|
  {
    i, base := i0, base0;
    assert At(s, i) == At(s[i0..], 0) && At(s, i + 1) == At(s[i0..], 1);
    if (base == 0 || base == 16) && At(s, i) == '0' && At(s, i + 1) == 'x' {
      i, base := i + 2, 16;
    } else if base == 0 && At(s, i) == '0' {
      i, base := i + 1, 8;
    } else if base == 0 {
      base := 10;
    }
  }

  /** Lines 222-253, from index i on */
  method ReadMagnitude(s: string, i: nat, base0: nat) returns (val: nat, end: nat)
    requires i <= |s| && '\0' !in s && Magnitude(s[i..], base0).0 < LONG_LIMIT
    ensures (val, end - i) == Magnitude(s[i..], base0)
  {
    var j, base := ReadPrefix(s, i, base0);
    assert s[j..] == s[i..][j - i..];
    val, end := ReadRun(s, j, base);
  }

  /** strtol, with *endptr as an index; the source does not detect overflow. */
  method Strtol(s: string, base0: nat) returns (val: int, end: nat)
    requires '\0' !in s && -LONG_LIMIT < Reading(s, base0).0 < LONG_LIMIT
    ensures (val, end) == Reading(s, base0)
  {
    hide RunValue, RunLength, Reading;
    var b := SkipBlanks(s, base0);
    var i, neg := ReadSign(s, b, base0);
    val, end := ReadMagnitude(s, i, base0);
    if neg {
      val := -val;
    }
  }

  // ---------- blanks and signs ----------

  /** Blanks and tabs are skipped. */
  lemma BlankReads(t: string, base: nat)
    ensures var (v, n) := Reading(t, base); Reading(" " + t, base) == Reading("\t" + t, base) == (v, n + 1)
  {
    hide Unblanked;
    assert (" " + t)[1..] == t && ("\t" + t)[1..] == t;
  }

  /** One sign may follow, and - negates what comes then. */
  lemma SignReads(t: string, base: nat)
    requires !StartsBlank(t) && !StartsSign(t)
    ensures var (v, n) := Reading(t, base);
            Reading("+" + t, base) == (v, n + 1) && Reading("-" + t, base) == (-v, n + 1)
  {
    hide Magnitude;
    assert ("+" + t)[1..] == t && ("-" + t)[1..] == t;
  }

  // ---------- round trips ----------

  predicate AllDigits(s: string, base: nat) {
    forall i :: 0 <= i < |s| ==> IsDigitOf(s[i], base)
  }

  lemma {:induction false} RunSnoc(s: string, c: char, base: nat, v: nat)
    requires AllDigits(s, base) && IsDigitOf(c, base)
    ensures RunValue(s + [c], base, v) == RunValue(s, base, v) * base + DigitValue(c)
    ensures RunLength(s + [c], base) == |s| + 1
  {
    var t := s + [c];
    if s == "" {
      assert t[1..] == "";
    } else {
      assert t[1..] == s[1..] + [c];
      RunSnoc(s[1..], c, base, v * base + DigitValue(s[0]));
    }
  }

  /** One more digit, and what is read is n. */
  lemma LastDigit(t: string, c: char, n: nat, base: nat)
    requires 2 <= base && AllDigits(t, base) && RunValue(t, base, 0) == n / base
    requires IsDigitOf(c, base) && DigitValue(c) == n % base
    ensures AllDigits(t + [c], base) && RunValue(t + [c], base, 0) == n && RunLength(t + [c], base) == |t + [c]|
  {
    RunSnoc(t, c, base, 0);
    Euclid(n, base);
  }

  lemma Euclid(n: nat, base: nat)
    requires base > 0
    ensures n / base * base + n % base == n
  {
  }

  /** Digits after zeros read as the number they are the digits of. */
  lemma {:induction false} ReadsDigits(z: int, n: nat, base: nat)
    requires 2 <= base <= 16
    ensures AllDigits(Repeat('0', z) + Digits(n, base), base)
    ensures RunValue(Repeat('0', z) + Digits(n, base), base, 0) == n
    ensures RunLength(Repeat('0', z) + Digits(n, base), base) == |Repeat('0', z) + Digits(n, base)|
    decreases n
  {
    var zeros := Repeat('0', z);
    if n < base {
      ZerosAreZero(z, base);
      ModUnique(n, base, 0, n);
      DigitRead(n);
      LastDigit(zeros, DIGITS[n], n, base);
    } else {
      Shrinks(n, base);
      ReadsDigits(z, n / base, base);
      DigitRead(n % base);
      LastDigit(zeros + Digits(n / base, base), DIGITS[n % base], n, base);
      Appended(zeros, Digits(n / base, base), [DIGITS[n % base]]);
    }
  }

  predicate HexDigit(c: char) {
    '0' <= c <= '9' || 'a' <= c <= 'f'
  }

  lemma DigitRead(d: nat)
    requires d < 16
    ensures DigitValue(DIGITS[d]) == d && HexDigit(DIGITS[d])
  {
  }

  lemma {:induction false} ZerosAreZero(z: int, base: nat)
    requires base > 0
    ensures RunValue(Repeat('0', z), base, 0) == 0 && AllDigits(Repeat('0', z), base)
  {
    if z > 0 {
      ZerosAreZero(z - 1, base);
    }
  }

  lemma {:induction false} DigitsPlain(n: nat, base: nat)
    requires 2 <= base <= 16
    ensures forall i :: 0 <= i < |Digits(n, base)| ==> HexDigit(Digits(n, base)[i])
  {
    DigitRead(n % base);
    if n < base {
      ModUnique(n, base, 0, n);
    } else {
      Shrinks(n, base);
      DigitsPlain(n / base, base);
    }
  }

  lemma MagnitudeIs(t: string, base: nat)
    requires BaseAndPrefix(t, base) == (base, 0)
    ensures Magnitude(t, base) == (RunValue(t, base, 0), RunLength(t, base))
  {
    assert t[0..] == t;
  }

  lemma NegatedReads(t: string, base: nat, v: nat, n: nat)
    requires Magnitude(t, base) == (v, n)
    ensures Reading("-" + t, base) == (Signed(v, true), n + 1)
  {
    assert ("-" + t)[1..] == t;
  }

  /** The digits of a number, zeros before them or not, are no sign, no blank and no prefix. */
  lemma DigitsStart(z: int, n: nat, base: nat)
    requires base == 8 || base == 10 || base == 16
    ensures var t := Repeat('0', z) + Digits(n, base);
            t != "" && HexDigit(t[0]) && BaseAndPrefix(t, base) == (base, 0)
  {
    var t := Repeat('0', z) + Digits(n, base);
    DigitsPlain(n, base);
    assert forall i :: 0 <= i < |t| ==> HexDigit(t[i]);
    assert |t| > 1 ==> HexDigit(t[1]);
  }

  lemma DigitsRead(z: int, n: nat, base: nat)
    requires base == 8 || base == 10 || base == 16
    ensures Magnitude(Repeat('0', z) + Digits(n, base), base) == (n, |Repeat('0', z) + Digits(n, base)|)
  {
    DigitsStart(z, n, base);
    ReadsDigits(z, n, base);
    MagnitudeIs(Repeat('0', z) + Digits(n, base), base);
  }

  lemma ReadZeroPadded(z: int, n: nat, base: nat)
    requires base == 8 || base == 10 || base == 16
    ensures Reading(Repeat('0', z) + Digits(n, base), base) == (n as int, |Repeat('0', z) + Digits(n, base)|)
  {
    DigitsStart(z, n, base);
    DigitsRead(z, n, base);
    PlainReads(Repeat('0', z) + Digits(n, base), base, n, |Repeat('0', z) + Digits(n, base)|);
  }

  lemma PlainReads(t: string, base: nat, v: nat, n: nat)
    requires t != "" && HexDigit(t[0]) && Magnitude(t, base) == (v, n)
    ensures Reading(t, base) == (v as int, n)
  {
    assert !StartsBlank(t) && !StartsSign(t);
  }

  lemma {:induction false} BehindBlanks(z: nat, s: string, base: nat, v: int, n: nat)
    requires Reading(s, base) == (v, n)
    ensures Reading(Repeat(' ', z) + s, base) == (v, z + n)
  {
    if z == 0 {
      assert Repeat(' ', z) + s == s;
    } else {
      BehindBlanks(z - 1, s, base, v, n);
      assert (Repeat(' ', z) + s)[1..] == Repeat(' ', z - 1) + s;
    }
  }

  lemma ReadBlankPadded(z: int, n: nat, base: nat)
    requires base == 8 || base == 10 || base == 16
    ensures Reading(Repeat(' ', z) + Digits(n, base), base) == (n as int, |Repeat(' ', z) + Digits(n, base)|)
  {
    hide Reading, Digits;
    ReadZeroPadded(0, n, base);
    assert Repeat('0', 0) + Digits(n, base) == Digits(n, base);
    BehindBlanks(if z > 0 then z else 0, Digits(n, base), base, n, |Digits(n, base)|);
    assert z <= 0 ==> Repeat(' ', z) == Repeat(' ', 0);
  }

  /** What printnum prints in base 8, 10 or 16 is read back if it is padded with zeros or
      blanks.  Padded with the '-' of that flag it is read back exactly if nothing is
      padded, but for the zero in two characters, "-0". */
  lemma RoundTrip(n: nat, base: nat, width: int, padc: char)
    requires (base == 8 || base == 10 || base == 16) && (padc == '0' || padc == ' ' || padc == '-')
    ensures Reading(NumText(n, base, width, padc), base) == (n as int, |NumText(n, base, width, padc)|)
            <==> padc != '-' || width <= |Digits(n, base)| || (n == 0 && width == 2)
  {
    hide Reading;
    var z := width - |Digits(n, base)|;
    if padc == '0' || z <= 0 {
      ReadZeroPadded(z, n, base);
      assert z <= 0 ==> Repeat(padc, z) == Repeat('0', z);
    } else if padc == ' ' {
      ReadBlankPadded(z, n, base);
    } else {
      ReadDashPadded(z, n, base);
    }
  }

  /** With '-' before the digits the first is a sign, and the next ends the reading. */
  lemma ReadDashPadded(z: nat, n: nat, base: nat)
    requires (base == 8 || base == 10 || base == 16) && z > 0
    ensures var text := Repeat('-', z) + Digits(n, base);
            Reading(text, base) == (n as int, |text|) <==> n == 0 && z + |Digits(n, base)| == 2
  {
    var t := Repeat('-', z - 1) + Digits(n, base);
    assert Repeat('-', z) + Digits(n, base) == "-" + t;
    if z == 1 {
      DashedReads(n, base, t);
      assert n == 0 ==> |t| == 1;
    } else {
      PaddingEnds(t, base);
    }
  }

  /** A '-' before the digits of n, and no other padding */
  lemma DashedReads(n: nat, base: nat, t: string)
    requires (base == 8 || base == 10 || base == 16) && t == Digits(n, base)
    ensures Reading("-" + t, base) == (-(n as int), |t| + 1)
  {
    hide Reading, Digits;
    DigitsRead(0, n, base);
    assert Repeat('0', 0) + t == t;
    NegatedReads(t, base, n, |t|);
  }

  /** A number below zero, with zeros between the sign and the digits or nothing */
  lemma NegativeReads(v: int, z: int, text: string)
    requires v < 0 && text == "-" + (Repeat('0', z) + Digits(-v, 10))
    ensures Reading(text, 10) == (v, |text|)
  {
    hide Reading, Digits;
    var t := Repeat('0', z) + Digits(-v, 10);
    DigitsRead(z, -v, 10);
    NegatedReads(t, 10, -v, |t|);
  }

  /** Blanks or a second '-' behind the sign end the reading at once. */
  lemma PaddingEnds(t: string, base: nat)
    requires t != "" && (t[0] == ' ' || t[0] == '-') && base > 0
    ensures Reading("-" + t, base) == (0, 1)
  {
    assert t[0..] == t;
    assert Magnitude(t, base) == (0, 0);
    NegatedReads(t, base, 0, 0);
  }

  /** What %d prints for a number of its width and padding is read back exactly if nothing
      is padded, or zeros are, or blanks and the number is not negative; "-0" is read back
      as well.  Blanks or '-' behind the sign end the reading, and a '-' before the digits
      is taken for a sign. */
  lemma SignedRoundTrip(v: int, e: Flags)
    requires e.padc == '0' || e.padc == ' ' || e.padc == '-'
    ensures Reading(IntText(v, e), 10) == (v, |IntText(v, e)|) <==>
            || e.width <= |Digits(if v < 0 then -v else v, 10)|
            || e.padc == '0' || (e.padc == ' ' && v >= 0) || (e.padc == '-' && v == 0 && e.width == 2)
  {
    if v >= 0 {
      RoundTrip(v, 10, e.width, e.padc);
    } else {
      NegativeRoundTrip(v, e, e.width - |Digits(-v, 10)|, IntText(v, e));
    }
  }

  lemma NegativeRoundTrip(v: int, e: Flags, z: int, text: string)
    requires (e.padc == '0' || e.padc == ' ' || e.padc == '-') && v < 0
    requires text == "-" + (Repeat(e.padc, z) + Digits(-v, 10))
    ensures Reading(text, 10) == (v, |text|) <==> e.padc == '0' || z <= 0
  {
    if e.padc == '0' || z <= 0 {
      assert Repeat(e.padc, z) == Repeat('0', z);
      NegativeReads(v, z, text);
    } else {
      PaddingEnds(Repeat(e.padc, z) + Digits(-v, 10), 10);
    }
  }

  /** The input %-2d of the number 5: "-5" is printed, and read as minus five. */
  lemma DashExample(e: Flags)
    requires e.padc == '-' && e.width == 2
    ensures IntText(5, e) == "-5" && Reading(IntText(5, e), 10) == (-5, 2)
  {
    assert Digits(5, 10) == "5" && Repeat('-', 1) == "-";
    DashedReads(5, 10, "5");
  }
}
