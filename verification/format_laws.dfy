// libs/printfmt.c and libs/string.c together: what whole escape sequences print, and what
// strtol makes of that.

module FormatLaws {
  import opened Arith
  import opened PrintNum
  import opened PrintFmt
  import opened StrTol
  import opened Options

  // ---------- reading an escape sequence ----------

  /** A width or precision as it is written in a format; 0 is not written. */
  function Written(w: nat): string {
    if w == 0 then "" else Digits(w, 10)
  }

  lemma {:induction false} FirstDigit(n: nat)
    requires n > 0
    ensures '1' <= Digits(n, 10)[0] <= '9'
  {
    if n < 10 {
      assert Digits(n, 10) == [DIGITS[n]];
    } else {
      Shrinks(n, 10);
      FirstDigit(n / 10);
    }
  }

  lemma DecimalDigit(c: char)
    ensures IsDigitOf(c, 10) <==> IsDigit(c)
    ensures IsDigit(c) ==> DigitValue(c) == DigitOf(c)
  {
  }

  /** vprintfmt and strtol read decimal digits alike. */
  lemma {:induction false} SameDigits(s: string, i: nat, v: nat)
    requires i <= |s|
    ensures DigitsEnd(s, i) == i + RunLength(s[i..], 10)
    ensures DigitsValue(s, i, v) == RunValue(s[i..], 10, v)
    decreases |s| - i
  {
    if i < |s| {
      DecimalDigit(s[i]);
      assert s[i..][1..] == s[i + 1..];
      if IsDigit(s[i]) {
        SameDigits(s, i + 1, v * 10 + DigitOf(s[i]));
      }
    }
  }

  lemma {:induction false} RunUpTo(a: string, b: string, v: nat)
    requires AllDigits(a, 10) && (b == "" || !IsDigitOf(b[0], 10))
    ensures RunLength(a + b, 10) == |a| == RunLength(a, 10) && RunValue(a + b, 10, v) == RunValue(a, 10, v)
  {
    if a == "" {
      assert a + b == b;
    } else {
      assert (a + b)[1..] == a[1..] + b;
      RunUpTo(a[1..], b, v * 10 + DigitValue(a[0]));
    }
  }

  /** The number n in a format, from index i on, with something else behind it */
  lemma NumberInFormat(fmt: string, i: nat, n: nat)
    requires n > 0 && i + |Digits(n, 10)| < |fmt| && fmt[i..i + |Digits(n, 10)|] == Digits(n, 10)
    requires !IsDigit(fmt[i + |Digits(n, 10)|])
    ensures '1' <= fmt[i] <= '9' && DigitsEnd(fmt, i) == i + |Digits(n, 10)| && DigitsValue(fmt, i, 0) == n
  {
    hide Digits, RunValue, RunLength;
    var j := i + |Digits(n, 10)|;
    FirstDigit(n);
    assert fmt[i] == Digits(n, 10)[0];
    SameDigits(fmt, i, 0);
    assert fmt[i..] == Digits(n, 10) + fmt[j..];
    ReadsDigits(0, n, 10);
    assert Repeat('0', 0) + Digits(n, 10) == Digits(n, 10);
    DecimalDigit(fmt[j]);
    RunUpTo(Digits(n, 10), fmt[j..], 0);
  }

  /** A padding flag, or none */
  predicate IsPad(pad: string) {
    pad == "" || pad == "0" || pad == "-"
  }

  function PadOf(pad: string): char
    requires IsPad(pad)
  {
    if pad == "" then ' ' else pad[0]
  }

  predicate Plain(ch: char) {
    ch !in "-0123456789*.#l"
  }

  /** The flags, the width w, l's and the conversion: %, pad, w, ls times l, ch */
  function Sequence(pad: string, w: nat, ls: nat, ch: char): string {
    "%" + pad + Written(w) + Repeat('l', ls) + [ch]
  }

  function FlagsOf(pad: string, w: nat, ls: nat): Flags
    requires IsPad(pad)
  {
    Flags(PadOf(pad), if w == 0 then -1 else w, -1, ls, false)
  }

  lemma ParsePad(fmt: string, pad: string, args: seq<Arg>, k: nat)
    requires IsPad(pad) && 1 + |pad| <= |fmt| && fmt[1..1 + |pad|] == pad
    ensures Parse(fmt, 1, NOFLAGS, args, k) == Parse(fmt, 1 + |pad|, NOFLAGS.(padc := PadOf(pad)), args, k)
  {
    if pad != "" {
      assert fmt[1] == pad[0];
    }
  }

  lemma ParseWidth(fmt: string, i: nat, e: Flags, w: nat, args: seq<Arg>, k: nat)
    requires i + |Written(w)| < |fmt| && fmt[i..i + |Written(w)|] == Written(w) && e.width < 0 && e.precision == -1
    requires !IsDigit(fmt[i + |Written(w)|])
    ensures Parse(fmt, i, e, args, k) == Parse(fmt, i + |Written(w)|, if w == 0 then e else e.(width := w), args, k)
  {
    if w > 0 {
      hide Digits, DigitsEnd, DigitsValue;
      NumberInFormat(fmt, i, w);
    }
  }

  lemma {:induction false} ParseLs(fmt: string, i: nat, e: Flags, ls: nat, args: seq<Arg>, k: nat)
    requires i + ls <= |fmt| && forall j :: i <= j < i + ls ==> fmt[j] == 'l'
    ensures Parse(fmt, i, e, args, k) == Parse(fmt, i + ls, e.(lflag := e.lflag + ls), args, k)
    decreases ls
  {
    if ls > 0 {
      ParseLs(fmt, i + 1, e.(lflag := e.lflag + 1), ls - 1, args, k);
    }
  }

  lemma ParseSequence(pad: string, w: nat, ls: nat, ch: char, args: seq<Arg>)
    requires IsPad(pad) && Plain(ch)
    ensures var fmt := Sequence(pad, w, ls, ch);
            Parse(fmt, 1, NOFLAGS, args, 0) == Escape(ch, FlagsOf(pad, w, ls), |fmt|, 0)
  {
    hide Parse, Written;
    var fmt := Sequence(pad, w, ls, ch);
    var i := 1 + |pad|;
    var j := i + |Written(w)|;
    assert fmt[1..i] == pad && fmt[i..j] == Written(w);
    assert forall l :: j <= l < j + ls ==> fmt[l] == 'l';
    assert fmt[j + ls] == ch && |fmt| == j + ls + 1;
    ParsePad(fmt, pad, args, 0);
    ParseWidth(fmt, i, NOFLAGS.(padc := PadOf(pad)), w, args, 0);
    var e := NOFLAGS.(padc := PadOf(pad));
    var e' := if w == 0 then e else e.(width := w);
    ParseLs(fmt, j, e', ls, args, 0);
    ParseEnd(fmt, j + ls, e'.(lflag := ls), args, 0);
  }

  lemma ParseEnd(fmt: string, i: nat, e: Flags, args: seq<Arg>, k: nat)
    requires i < |fmt| && Plain(fmt[i])
    ensures Parse(fmt, i, e, args, k) == Escape(fmt[i], e, i + 1, k)
  {
  }

  /** A format that is one escape sequence prints what its conversion does. */
  lemma OneSequence(fmt: string, ch: char, e: Flags, args: seq<Arg>, k: nat)
    requires fmt != "" && fmt[0] == '%' && Known(ch) && Parse(fmt, 1, NOFLAGS, args, 0) == Escape(ch, e, |fmt|, k)
    requires Render(ch, e, args, k).Piece?
    ensures Format(fmt, 0, args, 0) == Some(Render(ch, e, args, k).text)
  {
    hide Parse, Render;
    var p := Render(ch, e, args, k);
    assert Format(fmt, |fmt|, args, p.k) == Some("");
    assert p.text + "" == p.text;
  }

  /** Other characters than the flags, the digits and the nine conversions print the whole
      sequence literally. */
  lemma SequenceIsLiteral(pad: string, w: nat, ls: nat, ch: char, args: seq<Arg>)
    requires IsPad(pad) && ch !in "-0123456789*.#l" && ch !in "cesduopx%" && ch != '\0'
    ensures Format(Sequence(pad, w, ls, ch), 0, args, 0) == Some(Sequence(pad, w, ls, ch))
  {
    hide Parse, Format, Written;
    var fmt := Sequence(pad, w, ls, ch);
    ParseSequence(pad, w, ls, ch, args);
    NoNul(w);
    UnknownIsLiteral(fmt, 0, args, 0);
    assert fmt[0..|fmt|] == fmt;
    NothingLeft(fmt, args);
  }

  lemma NothingLeft(fmt: string, args: seq<Arg>)
    ensures Prefix(fmt, Format(fmt, |fmt|, args, 0)) == Some(fmt)
  {
    assert fmt + "" == fmt;
  }

  lemma NoNul(w: nat)
    ensures '\0' !in Written(w)
  {
    if w > 0 {
      DigitsPlain(w, 10);
    }
  }

  // ---------- numbers ----------

  /** The argument that a conversion with ls l's takes for n */
  function NumberArg(n: nat, ls: nat): Arg {
    if ls < 2 then Word(n) else Quad(n)
  }

  function ArgLimit(ls: nat): int {
    if ls < 2 then W32 else W64
  }

  /** %x prints in base 16, %u in base 10 and %o in base 8, with flags and a width. */
  lemma UnsignedPrints(pad: string, w: nat, ls: nat, n: nat)
    requires IsPad(pad) && n < ArgLimit(ls)
    ensures Format(Sequence(pad, w, ls, 'x'), 0, [NumberArg(n, ls)], 0) == Some(NumText(n, 16, w, PadOf(pad)))
    ensures Format(Sequence(pad, w, ls, 'u'), 0, [NumberArg(n, ls)], 0) == Some(NumText(n, 10, w, PadOf(pad)))
    ensures Format(Sequence(pad, w, ls, 'o'), 0, [NumberArg(n, ls)], 0) == Some(NumText(n, 8, w, PadOf(pad)))
  {
    UnsignedPrint(pad, w, ls, 'x', 16, n);
    UnsignedPrint(pad, w, ls, 'u', 10, n);
    UnsignedPrint(pad, w, ls, 'o', 8, n);
  }

  lemma UnsignedPrint(pad: string, w: nat, ls: nat, ch: char, base: nat, n: nat)
    requires IsPad(pad) && n < ArgLimit(ls)
    requires (ch == 'x' && base == 16) || (ch == 'u' && base == 10) || (ch == 'o' && base == 8)
    ensures Format(Sequence(pad, w, ls, ch), 0, [NumberArg(n, ls)], 0) == Some(NumText(n, base, w, PadOf(pad)))
  {
    hide Parse, Format, Digits;
    var args, e := [NumberArg(n, ls)], FlagsOf(pad, w, ls);
    ParseSequence(pad, w, ls, ch, args);
    NoWidth(n, base, w, PadOf(pad));
    OneSequence(Sequence(pad, w, ls, ch), ch, e, args, 0);
  }

  /** No width is like width 0. */
  lemma NoWidth(n: nat, base: nat, w: nat, padc: char)
    requires 2 <= base <= 16
    ensures NumText(n, base, if w == 0 then -1 else w, padc) == NumText(n, base, w, padc)
  {
  }

  /** What %x, %u and %o print with blanks or zeros is read back in base 16, 10 or 8. */
  lemma UnsignedReads(pad: string, w: nat, ls: nat, n: nat)
    requires (pad == "" || pad == "0") && n < ArgLimit(ls)
    ensures ReadsBack(Format(Sequence(pad, w, ls, 'x'), 0, [NumberArg(n, ls)], 0), 16, n)
    ensures ReadsBack(Format(Sequence(pad, w, ls, 'u'), 0, [NumberArg(n, ls)], 0), 10, n)
    ensures ReadsBack(Format(Sequence(pad, w, ls, 'o'), 0, [NumberArg(n, ls)], 0), 8, n)
  {
    hide Format, Reading, NumText;
    UnsignedPrints(pad, w, ls, n);
    RoundTrip(n, 16, w, PadOf(pad));
    RoundTrip(n, 10, w, PadOf(pad));
    RoundTrip(n, 8, w, PadOf(pad));
  }

  predicate ReadsBack(text: Option<string>, base: nat, n: int) {
    text.Some? && Reading(text.value, base) == (n, |text.value|)
  }

  /** The two's complement of v, as the argument for it */
  function SignedArg(v: int, ls: nat): Arg
    requires -ArgLimit(ls) < 2 * v < ArgLimit(ls)
  {
    NumberArg(if v < 0 then v + ArgLimit(ls) else v, ls)
  }

  /** %d prints a sign and digits in base 10; what it prints is read back exactly on the
      condition of SignedRoundTrip. */
  lemma SignedReads(pad: string, w: nat, ls: nat, v: int)
    requires IsPad(pad) && -ArgLimit(ls) < 2 * v < ArgLimit(ls)
    ensures ReadsBack(Format(Sequence(pad, w, ls, 'd'), 0, [SignedArg(v, ls)], 0), 10, v) <==>
              || w <= |Digits(if v < 0 then -v else v, 10)|
              || pad == "0" || (pad == "" && v >= 0) || (pad == "-" && v == 0 && w == 2)
  {
    hide Parse, Format, Digits, Reading;
    var args, e := [SignedArg(v, ls)], FlagsOf(pad, w, ls);
    ParseSequence(pad, w, ls, 'd', args);
    OneSequence(Sequence(pad, w, ls, 'd'), 'd', e, args, 0);
    SignedRoundTrip(v, e);
  }

  /** %p prints 0x and the digits in base 16, which strtol reads in base 16 and in base 0. */
  lemma PointerReads(n: nat)
    requires n < W32
    ensures Format(Sequence("", 0, 0, 'p'), 0, [Word(n)], 0) == Some("0x" + Digits(n, 16))
    ensures Reading("0x" + Digits(n, 16), 16) == Reading("0x" + Digits(n, 16), 0) == (n as int, |Digits(n, 16)| + 2)
  {
    hide Parse, Format, Digits, Reading;
    ParseSequence("", 0, 0, 'p', [Word(n)]);
    OneSequence(Sequence("", 0, 0, 'p'), 'p', FlagsOf("", 0, 0), [Word(n)], 0);
    assert NumText(n, 16, -1, ' ') == Digits(n, 16);
    PrefixedReads(n);
  }

  /** Base 0: 0x before digits in base 16, 0 before those in base 8, and none in base 10. */
  lemma PrefixedReads(n: nat)
    ensures Reading("0x" + Digits(n, 16), 16) == Reading("0x" + Digits(n, 16), 0) == (n as int, |Digits(n, 16)| + 2)
    ensures Reading("0" + Digits(n, 8), 0) == (n as int, |Digits(n, 8)| + 1)
    ensures Reading(Digits(n, 10), 0) == (n as int, |Digits(n, 10)|)
  {
    hide Digits, Reading;
    PrefixReads("0x", n, 16, 16);
    PrefixReads("0x", n, 16, 0);
    PrefixReads("0", n, 8, 0);
    if n == 0 {
      ZeroReads();
    } else {
      PrefixReads("", n, 10, 0);
      assert "" + Digits(n, 10) == Digits(n, 10);
    }
  }

  lemma ZeroReads()
    ensures Reading(Digits(0, 10), 0) == (0, |Digits(0, 10)|)
  {
    assert Digits(0, 10) == "0";
    assert Magnitude("0", 0) == (0, 1);
  }

  lemma PrefixReads(prefix: string, n: nat, base: nat, base0: nat)
    requires 2 <= base <= 16 && (base0 == 0 || (base0 == 16 && prefix == "0x"))
    requires (prefix == "0x" && base == 16) || (prefix == "0" && base == 8) || (prefix == "" && base == 10 && n > 0)
    ensures Reading(prefix + Digits(n, base), base0) == (n as int, |Digits(n, base)| + |prefix|)
  {
    hide Digits, RunValue, RunLength, Reading;
    var t := prefix + Digits(n, base);
    assert t[|prefix|..] == Digits(n, base) && |Digits(n, base)| > 0;
    DigitsPlain(n, base);
    assert HexDigit(Digits(n, base)[0]);
    if n > 0 && base == 10 {
      FirstDigit(n);
    }
    ReadsDigits(0, n, base);
    assert Repeat('0', 0) + Digits(n, base) == Digits(n, base);
    assert t[0] == (if prefix == "" then Digits(n, base)[0] else '0');
    assert prefix == "0" ==> t[1] == Digits(n, base)[0];
    assert prefix == "0x" ==> t[1] == 'x';
    assert prefix == "" && |t| > 1 ==> t[1] == Digits(n, base)[1];
    assert BaseAndPrefix(t, base0) == (base, |prefix|);
    PlainReads(t, base0, n, |t|);
  }

  // ---------- strings and characters ----------

  /** The text s in at least w characters: with the flag - blanks come behind it, otherwise
      blanks or zeros before it. */
  function Padded(pad: string, w: nat, s: string): string
    requires IsPad(pad)
  {
    if pad == "-" then s + Repeat(' ', w - |s|) else Repeat(PadOf(pad), w - |s|) + s
  }

  lemma ShownAll(s: string)
    ensures Shown(s, false) == s
  {
  }

  lemma StringTextIs(s: string, pad: string, w: int, precision: int, t: string)
    requires IsPad(pad) && t == (if precision < 0 then s else s[..Least(|s|, precision)])
    ensures StringText(s, Flags(PadOf(pad), w, precision, 0, false)) == Padded(pad, if w > 0 then w else 0, t)
  {
    hide Shown, Repeat;
    var e := Flags(PadOf(pad), w, precision, 0, false);
    assert s[..Taken(s, e)] == t;
    ShownAll(t);
    assert Padded(pad, if w > 0 then w else 0, t) == LeftPad(e, |t|) + t + RightPad(e, |t|) by {
      assert w <= 0 ==> Repeat(PadOf(pad), w - |t|) == Repeat(PadOf(pad), 0 - |t|) == "";
      assert w <= 0 ==> Repeat(' ', w - |t|) == Repeat(' ', 0 - |t|) == "";
    }
  }

  /** %s prints the string, in at least w characters. */
  lemma StringPrints(pad: string, w: nat, s: string)
    requires IsPad(pad)
    ensures Format(Sequence(pad, w, 0, 's'), 0, [Text(s)], 0) == Some(Padded(pad, w, s))
    ensures Format(Sequence(pad, w, 0, 's'), 0, [Null], 0) == Some(Padded(pad, w, "(null)"))
  {
    hide Parse, Format, StringText, Padded;
    ParseSequence(pad, w, 0, 's', [Text(s)]);
    ParseSequence(pad, w, 0, 's', [Null]);
    StringTextIs(s, pad, FlagsOf(pad, w, 0).width, -1, s);
    StringTextIs("(null)", pad, FlagsOf(pad, w, 0).width, -1, "(null)");
    OneSequence(Sequence(pad, w, 0, 's'), 's', FlagsOf(pad, w, 0), [Text(s)], 0);
    OneSequence(Sequence(pad, w, 0, 's'), 's', FlagsOf(pad, w, 0), [Null], 0);
  }

  /** %, pad, w, a dot, the precision p and s */
  function Shortened(pad: string, w: nat, p: nat): string {
    "%" + pad + Written(w) + "." + Written(p) + "s"
  }

  /** With a precision p it prints at most the first p characters. */
  lemma ShortenedPrints(pad: string, w: nat, p: nat, s: string)
    requires IsPad(pad) && p > 0
    ensures Format(Shortened(pad, w, p), 0, [Text(s)], 0) == Some(Padded(pad, w, s[..Least(|s|, p)]))
  {
    hide Parse, Format, StringText, Padded;
    ParseShortened(pad, w, p, [Text(s)]);
    StringTextIs(s, pad, w, p, s[..Least(|s|, p)]);
    OneSequence(Shortened(pad, w, p), 's', Flags(PadOf(pad), w, p, 0, false), [Text(s)], 0);
  }

  lemma ParseShortened(pad: string, w: nat, p: nat, args: seq<Arg>)
    requires IsPad(pad) && p > 0
    ensures var fmt := Shortened(pad, w, p);
            Parse(fmt, 1, NOFLAGS, args, 0) == Escape('s', Flags(PadOf(pad), w, p, 0, false), |fmt|, 0)
  {
    hide Parse, Written;
    ShortenedParts(pad, Written(w), Written(p), Shortened(pad, w, p));
    ParseParts(Shortened(pad, w, p), 1 + |pad|, 1 + |pad| + |Written(w)|, pad, w, p, args);
  }

  lemma ParseParts(fmt: string, i: nat, j: nat, pad: string, w: nat, p: nat, args: seq<Arg>)
    requires IsPad(pad) && p > 0 && i == 1 + |pad| && j == i + |Written(w)| && |fmt| == j + |Written(p)| + 2
    requires fmt[1..i] == pad && fmt[i..j] == Written(w) && fmt[j] == '.'
    requires fmt[j + 1..j + 1 + |Written(p)|] == Written(p) && fmt[j + 1 + |Written(p)|] == 's'
    ensures Parse(fmt, 1, NOFLAGS, args, 0) == Escape('s', Flags(PadOf(pad), w, p, 0, false), |fmt|, 0)
  {
    hide Parse, Written;
    var e := NOFLAGS.(padc := PadOf(pad));
    ParsePad(fmt, pad, args, 0);
    ParseWidth(fmt, i, e, w, args, 0);
    ParseDot(fmt, j, if w == 0 then e else e.(width := w), args, 0);
    ParsePrecision(fmt, j + 1, e.(width := w), p, args, 0);
    ParseEnd(fmt, j + 1 + |Written(p)|, e.(width := w, precision := p), args, 0);
  }

  lemma ShortenedParts(a: string, b: string, c: string, fmt: string)
    requires fmt == "%" + a + b + "." + c + "s"
    ensures var i := 1 + |a|; var j := i + |b|; var k := j + 1 + |c|;
            && |fmt| == k + 1 && fmt[1..i] == a && fmt[i..j] == b && fmt[j] == '.'
            && fmt[j + 1..k] == c && fmt[k] == 's'
  {
  }

  lemma ParseDot(fmt: string, i: nat, e: Flags, args: seq<Arg>, k: nat)
    requires i < |fmt| && fmt[i] == '.'
    ensures Parse(fmt, i, e, args, k) == Parse(fmt, i + 1, if e.width < 0 then e.(width := 0) else e, args, k)
  {
  }

  lemma ParsePrecision(fmt: string, i: nat, e: Flags, p: nat, args: seq<Arg>, k: nat)
    requires p > 0 && i + |Written(p)| < |fmt| && fmt[i..i + |Written(p)|] == Written(p) && e.width >= 0
    requires !IsDigit(fmt[i + |Written(p)|])
    ensures Parse(fmt, i, e, args, k) == Parse(fmt, i + |Written(p)|, e.(precision := p), args, k)
  {
    hide Digits, DigitsEnd, DigitsValue;
    NumberInFormat(fmt, i, p);
  }

  /** Stars take the width and the precision from the arguments. */
  lemma StarsPrint(f: string, g: string, w: int, p: nat, n: nat, s: string)
    requires f == "%*d" && g == "%.*s" && -(W32 as int) < 2 * w < W32 && 2 * p < W32 && 2 * n < W32
    ensures Format(f, 0, [SignedArg(w, 0), Word(n)], 0) == Some(NumText(n, 10, w, ' '))
    ensures Format(g, 0, [Word(p), Text(s)], 0) == Some(s[..Least(|s|, p)])
  {
    hide Format, Digits, StringText;
    var a, b := [SignedArg(w, 0), Word(n)], [Word(p), Text(s)];
    assert Parse(f, 2, NOFLAGS.(width := w), a, 1) == Escape('d', NOFLAGS.(width := w), 3, 1);
    assert Parse(f, 1, NOFLAGS, a, 0) == Escape('d', NOFLAGS.(width := w), 3, 1);
    OneSequence(f, 'd', NOFLAGS.(width := w), a, 1);
    var e := NOFLAGS.(width := 0, precision := p);
    assert Parse(g, 3, e, b, 1) == Escape('s', e, 4, 1);
    assert Parse(g, 2, NOFLAGS.(width := 0), b, 0) == Escape('s', e, 4, 1);
    assert Parse(g, 1, NOFLAGS, b, 0) == Escape('s', e, 4, 1);
    StringTextIs(s, "", 0, p, s[..Least(|s|, p)]);
    OneSequence(g, 's', e, b, 1);
    assert Padded("", 0, s[..Least(|s|, p)]) == s[..Least(|s|, p)];
  }

  /** The flag # shows what is not printable as a question mark; %c prints the low byte of
      its argument, and %% a percent sign. */
  lemma CharactersPrint(f: string, g: string, h: string, s: string, n: nat)
    requires f == "%#s" && g == "%c" && h == "%%" && n < W32
    ensures var r := Format(f, 0, [Text(s)], 0);
            && r.Some? && |r.value| == |s|
            && forall i :: 0 <= i < |s| ==> r.value[i] == if ' ' <= s[i] <= '~' then s[i] else '?'
    ensures Format(g, 0, [Word(n)], 0) == Some([(n % 256) as char]) && Format(h, 0, [], 0) == Some("%")
  {
    hide Format;
    var e := NOFLAGS.(alt := true);
    assert Parse(f, 2, e, [Text(s)], 0) == Escape('s', e, 3, 0);
    OneSequence(f, 's', e, [Text(s)], 0);
    assert s[..|s|] == s && StringText(s, e) == "" + Shown(s, true) + "";
    assert Parse(g, 1, NOFLAGS, [Word(n)], 0) == Escape('c', NOFLAGS, 2, 0);
    OneSequence(g, 'c', NOFLAGS, [Word(n)], 0);
    assert Parse(h, 1, NOFLAGS, [], 0) == Escape('%', NOFLAGS, 2, 0);
    OneSequence(h, '%', NOFLAGS, [], 0);
  }

  /** %e prints the name of an error, whichever its sign, or its number if it has no name. */
  lemma ErrorsPrint(f: string, err: int)
    requires f == "%e" && -(W32 as int) < 2 * err < W32
    ensures var v := if err < 0 then -err else err;
            Format(f, 0, [SignedArg(err, 0)], 0) == Some(
              if v == 1 then "unspecified error"
              else if v == 2 then "bad process"
              else if v == 3 then "invalid parameter"
              else if v == 4 then "out of memory"
              else if v == 5 then "out of processes"
              else if v == 6 then "segmentation fault"
              else "error " + Digits(v, 10))
  {
    hide Format, Digits;
    assert Parse(f, 1, NOFLAGS, [SignedArg(err, 0)], 0) == Escape('e', NOFLAGS, 2, 0);
    OneSequence(f, 'e', NOFLAGS, [SignedArg(err, 0)], 0);
  }
}
