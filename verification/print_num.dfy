// libs/x86.h, lines 6-19, and libs/printfmt.c, lines 27-52 and 278-296: dividing a 64-bit
// number by a 32-bit one, and printing numbers into a buffer of limited size.

module PrintNum {
  import opened Arith

  const W64 := 0x1_0000_0000_0000_0000

  // ---------- do_div ----------

  /** divl: divides upper * 2^32 + low.  The processor faults if the quotient does not fit
      into 32 bits, which is what the requires excludes. */
  method Divl(upper: nat, low: nat, base: nat) returns (quot: nat, rem: nat)
    requires 0 < base < W32 && low < W32 && upper < base
    ensures upper * W32 + low == quot * base + rem && rem < base && quot < W32
  {
    var n := upper * W32 + low;
    quot, rem := n / base, n % base;
    QuotientBelow(n, base, W32);
  }

  lemma QuotientBelow(n: nat, d: nat, m: nat)
    requires d > 0 && n < d * m
    ensures n / d < m && n == (n / d) * d + n % d
  {
    var q := n / d;
    assert n == q * d + n % d;
    if q >= m {
      MulMono(m, q, d);
    }
  }

  /** do_div: n becomes its quotient by base, and the remainder is the result. */
  method DoDiv(n: nat, base: nat) returns (quotient: nat, mod: nat)
    requires n < W64 && 0 < base < W32
    ensures quotient == n / base && mod == n % base && quotient < W64
  {
    var low, high := n % W32, n / W32;
    var upper := high;
    if high != 0 {
      upper := high % base;
      high := high / base;
    }
    Halves(n, base);
    ghost var top := high;
    low, mod := Divl(upper, low, base);
    quotient := high * W32 + low;
    Combine(n, base, top, upper, low, mod);
  }

  lemma Halves(n: nat, base: nat)
    requires n < W64 && base > 0
    ensures n / W32 < W32 && n / W32 / base < W32
    ensures n / W32 == (n / W32 / base) * base + (n / W32) % base
  {
    var h := n / W32;
    assert h == (h / base) * base + h % base;
    MulMono(1, base, h / base);
  }

  lemma Combine(n: nat, base: nat, high: nat, upper: nat, low: nat, mod: nat)
    requires base > 0 && mod < base && high * base + upper == n / W32 && low < W32
    requires upper * W32 + n % W32 == low * base + mod
    ensures (high * W32 + low) == n / base && mod == n % base
  {
    var q := high * W32 + low;
    assert n == (n / W32) * W32 + n % W32;
    assert q * base == (high * base) * W32 + low * base;
    assert n == q * base + mod;
    ModUnique(n, base, q, mod);
  }

  // ---------- the text of a number ----------

  const DIGITS := "0123456789abcdef"

  /** The digits of n, the most significant first */
  function Digits(n: nat, base: nat): (s: string)
    requires 2 <= base <= 16
    ensures |s| > 0
  {
    if n < base then [DIGITS[n]] else Shrinks(n, base); Digits(n / base, base) + [DIGITS[n % base]]
  }

  lemma Shrinks(n: nat, base: nat)
    requires 2 <= base <= n
    ensures 0 < n / base < n
  {
    var q := n / base;
    assert n == q * base + n % base;
    if q >= n {
      MulMono(2, base, q);
    }
  }

  function Repeat(c: char, n: int): (s: string)
    ensures |s| == (if n > 0 then n else 0) && forall i :: 0 <= i < |s| ==> s[i] == c
  {
    if n <= 0 then "" else [c] + Repeat(c, n - 1)
  }

  /** A number in at least width characters, padded on the left */
  function NumText(n: nat, base: nat, width: int, padc: char): (s: string)
    requires 2 <= base <= 16
    ensures |s| == if width > |Digits(n, base)| then width else |Digits(n, base)|
  {
    Repeat(padc, width - |Digits(n, base)|) + Digits(n, base)
  }

  // ---------- printing ----------

  /** A sprintbuf; buf and ebuf are counted from the start of the array. */
  class SprintBuf {
    const str: array<char>
    const ebuf: nat
    var buf: nat
    var cnt: nat
    /** Everything put so far, and the array as it was. */
    ghost var all: string
    ghost const before: string

    ghost predicate Valid()
      reads this, str
    {
      && buf <= ebuf < str.Length == |before|
      && cnt == |all| && buf == Least(|all|, ebuf)
      && str[..buf] == all[..buf] && str[buf..] == before[buf..]
    }

    constructor (str: array<char>, size: nat)
      requires 0 < size <= str.Length
      ensures Valid() && all == "" && this.str == str && ebuf == size - 1 && before == str[..]
    {
      this.str, ebuf := str, size - 1;
      buf, cnt := 0, 0;
      all, before := "", str[..];
    }

    /** sprintputch */
    method Putch(ch: char)
      requires Valid()
      modifies this, str
      ensures Valid() && all == old(all) + [ch]
    {
      cnt := cnt + 1;
      if buf < ebuf {
        str[buf] := ch;
        buf := buf + 1;
      }
      all := all + [ch];
    }

    /** *b.buf = NUL */
    method Terminate()
      requires Valid()
      modifies str
      ensures Stored(str[..], before, ebuf + 1, all)
    {
      ghost var was := str[..];
      str[buf] := '\0';
      assert str[..] == was[buf := '\0'];
    }

    /** while (-- width > 0) putch(padc), and such */
    method PutMany(ch: char, n: int)
      requires Valid()
      modifies this, str
      ensures Valid() && all == old(all) + Repeat(ch, n)
    {
      var k := n;
      ghost var all0 := all;
      while k > 0
        invariant Valid() && all + Repeat(ch, k) == all0 + Repeat(ch, n)
      {
        RepeatSplit(all, ch, k);
        Putch(ch);
        k := k - 1;
      }
    }

    /** printnum */
    method PrintNum(num: nat, base: nat, width: int, padc: char)
      requires Valid() && num < W64 && 2 <= base <= 16
      modifies this, str
      ensures Valid() && all == old(all) + NumText(num, base, width, padc)
      decreases num
    {
      ghost var all0 := all;
      var result, mod := DoDiv(num, base);
      if num >= base {
        Shrinks(num, base);
        PrintNum(result, base, width - 1, padc);
      } else {
        ModUnique(num, base, 0, num);
        PutMany(padc, width - 1);
      }
      Putch(DIGITS[mod]);
      NumTextStep(all0, num, base, width, padc);
    }
  }

  lemma RepeatSplit(s: string, c: char, n: int)
    requires n > 0
    ensures s + Repeat(c, n) == s + [c] + Repeat(c, n - 1)
  {
  }

  /** The text of a number is that of its quotient and one more digit. */
  lemma NumTextStep(s: string, n: nat, base: nat, width: int, padc: char)
    requires 2 <= base <= 16
    ensures n % base < base
    ensures n >= base ==>
              s + NumText(n, base, width, padc) == s + NumText(n / base, base, width - 1, padc) + [DIGITS[n % base]]
    ensures n < base ==> s + NumText(n, base, width, padc) == s + Repeat(padc, width - 1) + [DIGITS[n % base]]
  {
    if n < base {
      ModUnique(n, base, 0, n);
    } else {
      Shrinks(n, base);
    }
  }

  /** The first size - 1 characters of the text, all of it if it is shorter, and a NUL; the
      rest of the array is as it was. */
  ghost predicate Stored(now: string, before: string, size: nat, text: string)
    requires size > 0
  {
    var n := Least(|text|, size - 1);
    && |now| == |before| && n < |now| && now[..n] == text[..n] && now[n] == '\0' && now[n + 1..] == before[n + 1..]
  }

  function Least(a: int, b: int): int {
    if a < b then a else b
  }
}
