// libs/printfmt.c, lines 54-276 and 298-339: formatted printing.  A string is its
// characters without the terminating NUL; arguments are typed.

module PrintFmt {
  import opened Arith
  import opened PrintNum
  import opened Options

  /** An argument of 32 bits, one of 64 bits, or a string, which may be NULL. */
  datatype Arg = Word(w: nat) | Quad(q: nat) | Text(s: string) | Null

  const E_INVAL := 3
  const MAXERROR := 6

  function ErrorString(err: nat): string
    requires 0 < err <= MAXERROR
  {
    ["unspecified error", "bad process", "invalid parameter", "out of memory", "out of processes",
        "segmentation fault"][err - 1]
  }

  // ---------- what a format means ----------

  /** The character at index i; a string ends with a NUL. */
  function At(s: string, i: nat): char {
    if i < |s| then s[i] else '\0'
  }

  predicate IsDigit(c: char) {
    '0' <= c <= '9'
  }

  function DigitOf(c: char): nat
    requires IsDigit(c)
  {
    c as int - '0' as int
  }

  /** The index behind the decimal digits from i on, and their value, v coming before them */
  function DigitsEnd(s: string, i: nat): (j: nat)
    ensures j >= i && (i <= |s| ==> j <= |s|) && !IsDigit(At(s, j))
    decreases |s| - i
  {
    if IsDigit(At(s, i)) then DigitsEnd(s, i + 1) else i
  }

  function DigitsValue(s: string, i: nat, v: nat): nat
    decreases |s| - i
  {
    if IsDigit(At(s, i)) then DigitsValue(s, i + 1, v * 10 + DigitOf(At(s, i))) else v
  }

  /** va_arg: the k-th argument as an unsigned or signed number of 32 or 64 bits, if it is
      of that kind */
  function Unsigned(args: seq<Arg>, k: nat, lflag: nat): (r: Option<nat>)
    ensures r.Some? ==> r.value < W64
  {
    if k >= |args| then None
    else match args[k]
         case Word(w) => if lflag < 2 && w < W32 then Some(w) else None
         case Quad(q) => if lflag >= 2 && q < W64 then Some(q) else None
         case _ => None
  }

  function Signed(args: seq<Arg>, k: nat, lflag: nat): (r: Option<int>)
    ensures r.Some? ==> -W64 < 2 * r.value < W64
  {
    var limit := if lflag < 2 then W32 else W64;
    match Unsigned(args, k, lflag)
    case None => None
    case Some(x) => if 2 * x < limit then Some(x) else if 2 * x == W64 then None else Some(x - limit)
  }

  /** What the characters between % and the conversion set */
  datatype Flags = Flags(padc: char, width: int, precision: int, lflag: nat, alt: bool)

  const NOFLAGS := Flags(' ', -1, -1, 0, false)

  /** A number in the format is the width, and the precision if there is a width already. */
  function WithNumber(e: Flags, v: int): Flags {
    if e.width < 0 then e.(width := v, precision := -1) else e.(precision := v)
  }

  /** A conversion: its flags, and the indices behind it in the format and the arguments. */
  datatype Escape = Escape(ch: char, e: Flags, next: nat, k: nat) | NoArg

  /** The escape sequence that goes on at i */
  function Parse(fmt: string, i: nat, e: Flags, args: seq<Arg>, k: nat): (r: Escape)
    requires i <= |fmt|
    ensures r.Escape? ==> i < r.next <= |fmt| + 1 && r.ch == At(fmt, r.next - 1)
    ensures r.Escape? ==> forall j :: i <= j < r.next - 1 ==> At(fmt, j) != '%'
    decreases |fmt| - i
  {
    var ch := At(fmt, i);
    if ch == '-' || ch == '0' then Parse(fmt, i + 1, e.(padc := ch), args, k)
    else if IsDigit(ch) then
      var j := DigitsEnd(fmt, i);
      NoPercent(fmt, i);
      Parse(fmt, j, WithNumber(e, DigitsValue(fmt, i, 0)), args, k)
    else if ch == '*' then
      match Signed(args, k, 0)
      case None => NoArg
      case Some(v) => Parse(fmt, i + 1, WithNumber(e, v), args, k + 1)
    else if ch == '.' then Parse(fmt, i + 1, if e.width < 0 then e.(width := 0) else e, args, k)
    else if ch == '#' then Parse(fmt, i + 1, e.(alt := true), args, k)
    else if ch == 'l' then Parse(fmt, i + 1, e.(lflag := e.lflag + 1), args, k)
    else Escape(ch, e, i + 1, k)
  }

  lemma {:induction false} NoPercent(fmt: string, i: nat)
    requires i <= |fmt|
    ensures forall j :: i <= j < DigitsEnd(fmt, i) ==> At(fmt, j) != '%'
    ensures IsDigit(At(fmt, i)) ==> DigitsEnd(fmt, i) > i
    decreases |fmt| - i
  {
    if IsDigit(At(fmt, i)) {
      NoPercent(fmt, i + 1);
    }
  }

  /** The conversions that there are */
  predicate Known(ch: char) {
    ch in "cesduopx%"
  }

  datatype Piece = Piece(text: string, k: nat) | Undefined

  /** A string conversion: at most precision characters of p, in at least width characters;
      the padding goes to the right if padc is '-', and then is blank. */
  function StringText(p: string, e: Flags): string {
    var n := Taken(p, e);
    LeftPad(e, n) + Shown(p[..n], e.alt) + RightPad(e, n)
  }

  function Taken(p: string, e: Flags): (n: nat)
    ensures n <= |p|
  {
    if e.precision >= 0 then Least(|p|, e.precision) else |p|
  }

  function LeftPad(e: Flags, n: nat): string {
    if e.padc == '-' then "" else Repeat(e.padc, e.width - n)
  }

  function RightPad(e: Flags, n: nat): string {
    if e.padc == '-' then Repeat(' ', e.width - n) else ""
  }

  predicate Unprintable(ch: char) {
    ch < ' ' || ch > '~'
  }

  function Shown(p: string, alt: bool): (s: string)
    ensures |s| == |p| && forall i :: 0 <= i < |p| ==> s[i] == if alt && Unprintable(p[i]) then '?' else p[i]
  {
    if p == "" then "" else [if alt && Unprintable(p[0]) then '?' else p[0]] + Shown(p[1..], alt)
  }

  lemma ShownNext(s: string, p: string, n: nat, alt: bool)
    requires n < |p|
    ensures s + Shown(p[..n + 1], alt) == s + Shown(p[..n], alt) + [if alt && Unprintable(p[n]) then '?' else p[n]]
  {
    assert Shown(p[..n + 1], alt) == Shown(p[..n], alt) + [if alt && Unprintable(p[n]) then '?' else p[n]];
  }

  function ErrorText(err: nat): string {
    if err > MAXERROR || err == 0 then "error " + Digits(err, 10) else ErrorString(err)
  }

  function IntText(v: int, e: Flags): string {
    if v < 0 then "-" + NumText(-v, 10, e.width, e.padc) else NumText(v, 10, e.width, e.padc)
  }

  function BaseOf(ch: char): (b: nat)
    ensures 2 <= b <= 16
  {
    if ch == 'o' then 8 else if ch == 'u' then 10 else 16
  }

  /** What a conversion puts, and the number of the next argument */
  function Render(ch: char, e: Flags, args: seq<Arg>, k: nat): Piece
    requires Known(ch)
  {
    match ch
    case '%' => Piece("%", k)
    case 'c' =>
      (match Unsigned(args, k, 0)
       case None => Undefined
       case Some(w) => Piece([(w % 256) as char], k + 1))
    case 'e' =>
      (match Signed(args, k, 0)
       case None => Undefined
       case Some(v) => if 2 * v == -W32 then Undefined else Piece(ErrorText(if v < 0 then -v else v), k + 1))
    case 's' =>
      if k >= |args| then Undefined
      else (match args[k]
            case Text(s) => Piece(StringText(s, e), k + 1)
            case Null => Piece(StringText("(null)", e), k + 1)
            case _ => Undefined)
    case 'd' =>
      (match Signed(args, k, e.lflag)
       case None => Undefined
       case Some(v) => Piece(IntText(v, e), k + 1))
    case 'p' =>
      (match Unsigned(args, k, 0)
       case None => Undefined
       case Some(w) => Piece("0x" + NumText(w, 16, e.width, e.padc), k + 1))
    case _ =>
      (match Unsigned(args, k, e.lflag)
       case None => Undefined
       case Some(x) => Piece(NumText(x, BaseOf(ch), e.width, e.padc), k + 1))
  }

  /** What the format prints from index i on, unless an argument is missing or unfit.  An
      escape sequence with an unknown conversion prints its %, and goes on behind it. */
  function Format(fmt: string, i: nat, args: seq<Arg>, k: nat): Option<string>
    decreases |fmt| - i
  {
    if i >= |fmt| then Some("")
    else if fmt[i] != '%' then Prefix([fmt[i]], Format(fmt, i + 1, args, k))
    else
      match Parse(fmt, i + 1, NOFLAGS, args, k)
      case NoArg => None
      case Escape(ch, e, next, k') =>
        if !Known(ch) then Prefix("%", Format(fmt, i + 1, args, k'))
        else
          match Render(ch, e, args, k')
          case Undefined => None
          case Piece(text, k'') => Prefix(text, Format(fmt, next, args, k''))
  }

  function Prefix(s: string, r: Option<string>): Option<string> {
    if r.Some? then Some(s + r.value) else None
  }

  lemma PrefixTwice(s: string, t: string, r: Option<string>)
    ensures Prefix(s, Prefix(t, r)) == Prefix(s + t, r)
  {
    if r.Some? {
      assert s + (t + r.value) == s + t + r.value;
    }
  }

  lemma PrefixNothing(r: Option<string>)
    ensures Prefix("", r) == r
  {
    if r.Some? {
      assert "" + r.value == r.value;
    }
  }

  lemma Appended(s: string, t: string, u: string)
    ensures s + t + u == s + (t + u)
  {
  }

  // ---------- vprintfmt ----------

  /** Lines 151-157, for the number whose first digit is at i */
  method ReadNumber(fmt: string, i: nat) returns (v: nat, j: nat)
    requires IsDigit(At(fmt, i))
    ensures v == DigitsValue(fmt, i, 0) && j == DigitsEnd(fmt, i)
  {
    v, j := 0, i;
    var ch := At(fmt, j);
    while IsDigit(ch)
      invariant ch == At(fmt, j) && (IsDigit(ch) ==> j < |fmt|)
      invariant DigitsValue(fmt, j, v) == DigitsValue(fmt, i, 0) && DigitsEnd(fmt, j) == DigitsEnd(fmt, i)
      decreases |fmt| - j
    {
      v := v * 10 + DigitOf(ch);
      j := j + 1;
      ch := At(fmt, j);
    }
  }

  /** Lines 131-181, from the character behind the % at i0 - 1 on */
  method ReadEscape(fmt: string, i0: nat, args: seq<Arg>, k0: nat) returns (r: Escape)
    requires i0 <= |fmt|
    ensures r == Parse(fmt, i0, NOFLAGS, args, k0)
  {
    var i, k, e := i0, k0, NOFLAGS;
    var ch := At(fmt, i);
    while ch in "-0123456789*.#l"
      invariant i <= |fmt| && ch == At(fmt, i) && Parse(fmt, i, e, args, k) == Parse(fmt, i0, NOFLAGS, args, k0)
      decreases |fmt| - i
    {
      if ch == '-' || ch == '0' {
        e := e.(padc := ch);
        i := i + 1;
      } else if IsDigit(ch) {
        NoPercent(fmt, i);
        var v, j := ReadNumber(fmt, i);
        e := WithNumber(e, v);
        i := j;
      } else if ch == '*' {
        match Signed(args, k, 0)
        case None => return NoArg;
        case Some(v) =>
          e := WithNumber(e, v);
          k := k + 1;
          i := i + 1;
      } else if ch == '.' {
        if e.width < 0 {
          e := e.(width := 0);
        }
        i := i + 1;
      } else if ch == '#' {
        e := e.(alt := true);
        i := i + 1;
      } else {
        e := e.(lflag := e.lflag + 1);
        i := i + 1;
      }
      ch := At(fmt, i);
    }
    r := Escape(ch, e, i + 1, k);
  }

  /** strnlen, of libs/string.c */
  method StrNLen(s: string, len: nat) returns (cnt: nat)
    requires '\0' !in s
    ensures cnt == Least(|s|, len)
  {
    cnt := 0;
    while cnt < len && At(s, cnt) != '\0'
      invariant cnt <= |s| && cnt <= len
    {
      cnt := cnt + 1;
    }
  }

  method PutString(b: SprintBuf, s: string)
    requires b.Valid()
    modifies b, b.str
    ensures b.Valid() && b.all == old(b.all) + s
  {
    var i := 0;
    while i < |s|
      invariant b.Valid() && i <= |s| && b.all == old(b.all) + s[..i]
    {
      b.Putch(s[i]);
      i := i + 1;
    }
  }

  /** Lines 212-219: the characters of p, and how many they are */
  method PutShown(b: SprintBuf, p: string, precision0: int, alt: bool) returns (n: nat)
    requires b.Valid() && '\0' !in p
    modifies b, b.str
    ensures b.Valid() && n == if precision0 >= 0 then Least(|p|, precision0) else |p|
    ensures b.all == old(b.all) + Shown(p[..n], alt)
  {
    var precision := precision0;
    n := 0;
    while At(p, n) != '\0' && (precision < 0 || precision - 1 >= 0)
      invariant b.Valid() && n <= |p| && b.all == old(b.all) + Shown(p[..n], alt)
      invariant if precision0 >= 0 then precision == precision0 - n && n <= precision0 else precision == precision0
      decreases |p| - n
    {
      ShownNext(old(b.all), p, n, alt);
      var ch := p[n];
      if precision >= 0 {
        precision := precision - 1;
      }
      if alt && Unprintable(ch) {
        b.Putch('?');
      } else {
        b.Putch(ch);
      }
      n := n + 1;
    }
  }

  /** Lines 207-211, and the width that is left.  A negative precision, taken as a size_t,
      exceeds any length. */
  method PutLeftPad(b: SprintBuf, p: string, e: Flags) returns (width: int)
    requires b.Valid() && '\0' !in p
    modifies b, b.str
    ensures b.Valid() && b.all == old(b.all) + LeftPad(e, Taken(p, e))
    ensures if e.padc == '-' then width == e.width else width <= 0
  {
    width := e.width;
    if width > 0 && e.padc != '-' {
      var len := StrNLen(p, if e.precision < 0 then |p| else e.precision);
      b.PutMany(e.padc, width - len);
      width := if width > len then 0 else width - len;
    }
  }

  /** Lines 207-222 */
  method PutText(b: SprintBuf, p: string, e: Flags)
    requires b.Valid() && '\0' !in p
    modifies b, b.str
    ensures b.Valid() && b.all == old(b.all) + StringText(p, e)
  {
    ghost var s := b.all;
    var width := PutLeftPad(b, p, e);
    var n := PutShown(b, p, e.precision, e.alt);
    b.PutMany(' ', width - n);
    Pieces(s, LeftPad(e, n), Shown(p[..n], e.alt), RightPad(e, n));
  }

  lemma Pieces(s: string, t: string, u: string, v: string)
    ensures s + t + u + v == s + (t + u + v)
  {
  }

  /** The strings among the arguments end with their first NUL. */
  ghost predicate Strings(args: seq<Arg>) {
    forall k :: 0 <= k < |args| && args[k].Text? ==> '\0' !in args[k].s
  }

  lemma NoPadding(n: nat)
    ensures NumText(n, 10, -1, ' ') == Digits(n, 10)
  {
    assert Repeat(' ', -1 - |Digits(n, 10)|) == "";
  }

  /** Lines 189-200.  The calls of printfmt there put what ErrorText says, see ErrorFormats. */
  method PutError(b: SprintBuf, v: int)
    requires b.Valid() && -W32 < 2 * v < W32
    modifies b, b.str
    ensures b.Valid() && b.all == old(b.all) + ErrorText(if v < 0 then -v else v)
  {
    var err := if v < 0 then -v else v;
    ghost var all0 := b.all;
    if err > MAXERROR || err == 0 {
      PutString(b, "error ");
      b.PrintNum(err, 10, -1, ' ');
      NoPadding(err);
      Appended(all0, "error ", Digits(err, 10));
    } else {
      PutString(b, ErrorString(err));
    }
  }

  /** Lines 226-233 and 260 */
  method PutInt(b: SprintBuf, v: int, e: Flags)
    requires b.Valid() && -W64 < 2 * v < W64
    modifies b, b.str
    ensures b.Valid() && b.all == old(b.all) + IntText(v, e)
  {
    var num := v;
    if num < 0 {
      b.Putch('-');
      num := -num;
    }
    b.PrintNum(num, 10, e.width, e.padc);
  }

  /** Lines 183-266: puts what the conversion is for; false if an argument is unfit. */
  method Convert(b: SprintBuf, ch: char, e: Flags, args: seq<Arg>, k: nat) returns (ok: bool, k': nat)
    requires b.Valid() && Known(ch) && Strings(args)
    modifies b, b.str
    ensures b.Valid()
    ensures match Render(ch, e, args, k)
            case Undefined => !ok
            case Piece(text, next) => ok && k' == next && b.all == old(b.all) + text
  {
    hide NumText, StringText, ErrorText, IntText, BaseOf;
    ok, k' := true, k + 1;
    match ch
    case '%' =>
      b.Putch('%');
      k' := k;
    case 'c' =>
      match Unsigned(args, k, 0) {
        case None => ok := false;
        case Some(w) => b.Putch((w % 256) as char);
      }
    case 'e' =>
      match Signed(args, k, 0) {
        case None => ok := false;
        case Some(v) =>
          ok := 2 * v != -W32;
          if ok {
            PutError(b, v);
          }
      }
    case 's' =>
      if k < |args| && args[k].Text? {
        PutText(b, args[k].s, e);
      } else if k < |args| && args[k].Null? {
        PutText(b, "(null)", e);
      } else {
        ok := false;
      }
    case 'd' =>
      match Signed(args, k, e.lflag) {
        case None => ok := false;
        case Some(v) => PutInt(b, v, e);
      }
    case 'p' =>
      match Unsigned(args, k, 0) {
        case None => ok := false;
        case Some(w) =>
          PutString(b, "0x");
          b.PrintNum(w, 16, e.width, e.padc);
      }
    case _ =>
      match Unsigned(args, k, e.lflag) {
        case None => ok := false;
        case Some(x) => b.PrintNum(x, BaseOf(ch), e.width, e.padc);
      }
  }

  /** What has been put is the part of the format up to index i. */
  ghost predicate DoneTo(fmt: string, args: seq<Arg>, done: string, i: nat, k: nat) {
    i <= |fmt| && Format(fmt, 0, args, 0) == Prefix(done, Format(fmt, i, args, k))
  }

  /** Lines 124-129 */
  method PutPlain(b: SprintBuf, fmt: string, i0: nat, ghost args: seq<Arg>, ghost k: nat, ghost all0: string,
      ghost done0: string)
      returns (i: nat, ghost done: string)
    requires b.Valid() && '\0' !in fmt && DoneTo(fmt, args, done0, i0, k) && b.all == all0 + done0
    modifies b, b.str
    ensures b.Valid() && i >= i0 && DoneTo(fmt, args, done, i, k) && (i < |fmt| ==> fmt[i] == '%')
    ensures b.all == all0 + done
  {
    i, done := i0, done0;
    while At(fmt, i) != '%' && At(fmt, i) != '\0'
      invariant b.Valid() && i0 <= i && DoneTo(fmt, args, done, i, k) && b.all == all0 + done
      decreases |fmt| - i
    {
      b.Putch(fmt[i]);
      PrefixTwice(done, [fmt[i]], Format(fmt, i + 1, args, k));
      done := done + [fmt[i]];
      i := i + 1;
    }
  }

  /** The piece that a conversion puts, and the format behind it */
  ghost predicate Converted(fmt: string, args: seq<Arg>, done: string, r: Escape, p: Piece)
    requires r.Escape?
  {
    if p.Undefined? then Format(fmt, 0, args, 0) == None else DoneTo(fmt, args, done + p.text, r.next, p.k)
  }

  lemma EscapeStep(fmt: string, args: seq<Arg>, done: string, i: nat, k: nat, r: Escape)
    requires '\0' !in fmt && DoneTo(fmt, args, done, i, k) && i < |fmt| && fmt[i] == '%'
    requires r == Parse(fmt, i + 1, NOFLAGS, args, k)
    ensures r.NoArg? ==> Format(fmt, 0, args, 0) == None
    ensures r.Escape? && Known(r.ch) ==> Converted(fmt, args, done, r, Render(r.ch, r.e, args, r.k))
    ensures r.Escape? && !Known(r.ch) ==> DoneTo(fmt, args, done + "%", i + 1, r.k)
  {
    if r.Escape? {
      if !Known(r.ch) {
        PrefixTwice(done, "%", Format(fmt, i + 1, args, r.k));
      } else if Render(r.ch, r.e, args, r.k).Piece? {
        var p := Render(r.ch, r.e, args, r.k);
        PrefixTwice(done, p.text, Format(fmt, r.next, args, p.k));
      }
    }
  }

  /** Line 271: back to the character behind the % at i0 */
  method Rewind(fmt: string, i0: nat, next: nat) returns (i: nat)
    requires i0 < |fmt| && fmt[i0] == '%' && i0 + 1 < next && forall j :: i0 + 1 <= j < next - 1 ==> At(fmt, j) != '%'
    ensures i == i0 + 1
  {
    i := next - 1;
    while At(fmt, i - 1) != '%'
      invariant i0 < i < next
      decreases i
    {
      i := i - 1;
    }
  }

  /** Lines 131-274, for the escape sequence at i0 */
  method PutEscape(b: SprintBuf, fmt: string, i0: nat, args: seq<Arg>, k0: nat, ghost all0: string, ghost done0: string)
      returns (ok: bool, i: nat, k: nat, ghost done: string)
    requires b.Valid() && '\0' !in fmt && Strings(args) && DoneTo(fmt, args, done0, i0, k0) && b.all == all0 + done0
    requires i0 < |fmt| && fmt[i0] == '%'
    modifies b, b.str
    ensures b.Valid() && (ok ==> i > i0 && DoneTo(fmt, args, done, i, k) && b.all == all0 + done)
    ensures !ok ==> Format(fmt, 0, args, 0) == None
  {
    ok, i, k, done := true, i0, k0, done0;
    var r := ReadEscape(fmt, i0 + 1, args, k0);
    EscapeStep(fmt, args, done0, i0, k0, r);
    if r.NoArg? {
      ok := false;
    } else if Known(r.ch) {
      ghost var piece := Render(r.ch, r.e, args, r.k);
      ok, k := Convert(b, r.ch, r.e, args, r.k);
      if ok {
        i := r.next;
        Appended(all0, done, piece.text);
        done := done + piece.text;
      }
    } else {
      b.Putch('%');
      i := Rewind(fmt, i0, r.next);
      Appended(all0, done, "%");
      k, done := r.k, done + "%";
    }
  }

  /** vprintfmt; it stops where an argument is missing or unfit. */
  method VPrintFmt(b: SprintBuf, fmt: string, args: seq<Arg>) returns (ok: bool)
    requires b.Valid() && '\0' !in fmt && Strings(args)
    modifies b, b.str
    ensures b.Valid() && (ok <==> Format(fmt, 0, args, 0).Some?)
    ensures ok ==> b.all == old(b.all) + Format(fmt, 0, args, 0).value
  {
    ghost var all0, done := b.all, "";
    var i, k := 0, 0;
    PrefixNothing(Format(fmt, 0, args, 0));
    while true
      invariant b.Valid() && DoneTo(fmt, args, done, i, k) && b.all == all0 + done
      decreases |fmt| - i
    {
      i, done := PutPlain(b, fmt, i, args, k, all0, done);
      if i == |fmt| {
        return true;
      }
      ok, i, k, done := PutEscape(b, fmt, i, args, k, all0, done);
      if !ok {
        return;
      }
    }
  }

  /** vsnprintf.  size is that of the array from str on. */
  method VSnprintf(str: array?<char>, size: nat, fmt: string, args: seq<Arg>) returns (ok: bool, r: int)
    requires str != null ==> size <= str.Length
    requires '\0' !in fmt && Strings(args)
    modifies str
    ensures str == null || size == 0 ==> ok && r == -E_INVAL && (str != null ==> str[..] == old(str[..]))
    ensures str != null && size > 0 ==> (ok <==> Format(fmt, 0, args, 0).Some?)
    ensures str != null && size > 0 && ok ==>
              Stored(str[..], old(str[..]), size, Format(fmt, 0, args, 0).value) && r == |Format(fmt, 0, args, 0).value|
  {
    if str == null || size == 0 {
      return true, -E_INVAL;
    }
    var b := new SprintBuf(str, size);
    ok := VPrintFmt(b, fmt, args);
    r := b.cnt;
    if ok {
      b.Terminate();
    }
  }

  // ---------- what the formats promise ----------

  /** Characters other than % stand for themselves. */
  lemma {:induction false} PlainText(fmt: string, i: nat, j: nat, args: seq<Arg>, k: nat)
    requires i <= j <= |fmt| && forall l :: i <= l < j ==> fmt[l] != '%'
    ensures Format(fmt, i, args, k) == Prefix(fmt[i..j], Format(fmt, j, args, k))
    decreases j - i
  {
    if i == j {
      PrefixNothing(Format(fmt, j, args, k));
    } else {
      PlainText(fmt, i + 1, j, args, k);
      PrefixTwice([fmt[i]], fmt[i + 1..j], Format(fmt, j, args, k));
      assert [fmt[i]] + fmt[i + 1..j] == fmt[i..j];
    }
  }

  /** An escape sequence with an unknown conversion is printed literally, from its % to that
      conversion, or to the end of the format; it has used up arguments for its stars. */
  lemma UnknownIsLiteral(fmt: string, i: nat, args: seq<Arg>, k: nat)
    requires '\0' !in fmt && i < |fmt| && fmt[i] == '%'
    requires var r := Parse(fmt, i + 1, NOFLAGS, args, k); r.Escape? && r.ch !in "cesduopx%"
    ensures var r := Parse(fmt, i + 1, NOFLAGS, args, k); var end := if r.next <= |fmt| then r.next else |fmt|;
            i < end && Format(fmt, i, args, k) == Prefix(fmt[i..end], Format(fmt, end, args, r.k))
  {
    var r := Parse(fmt, i + 1, NOFLAGS, args, k);
    var end := if r.next <= |fmt| then r.next else |fmt|;
    assert forall l :: i + 1 <= l < end ==> fmt[l] == At(fmt, l) != '%';
    PlainText(fmt, i + 1, end, args, r.k);
    PrefixTwice("%", fmt[i + 1..end], Format(fmt, end, args, r.k));
    assert "%" + fmt[i + 1..end] == fmt[i..end];
  }

  /** What the two calls of printfmt in lines 195 and 198 print */
  lemma ErrorFormats(err: nat, p: string)
    requires 2 * err < W32
    ensures Format("error %d", 0, [Word(err)], 0) == Some("error " + Digits(err, 10))
    ensures Format("%s", 0, [Text(p)], 0) == Some(p)
  {
    ErrorNumber("error %d", [Word(err)], err);
    StringItself("%s", [Text(p)], p);
  }

  lemma ErrorNumber(f: string, args: seq<Arg>, err: nat)
    requires f == "error %d" && args == [Word(err)] && 2 * err < W32
    ensures Format(f, 0, args, 0) == Some("error " + Digits(err, 10))
  {
    PlainText(f, 0, 6, args, 0);
    assert f[0..6] == "error ";
    assert Parse(f, 7, NOFLAGS, args, 0) == Escape('d', NOFLAGS, 8, 0);
    assert Format(f, 6, args, 0) == Prefix(NumText(err, 10, -1, ' '), Format(f, 8, args, 1));
    assert NumText(err, 10, -1, ' ') + "" == Digits(err, 10);
  }

  lemma StringItself(f: string, args: seq<Arg>, p: string)
    requires f == "%s" && args == [Text(p)]
    ensures Format(f, 0, args, 0) == Some(p)
  {
    assert Parse(f, 1, NOFLAGS, args, 0) == Escape('s', NOFLAGS, 2, 0);
    assert Format(f, 0, args, 0) == Prefix(StringText(p, NOFLAGS), Format(f, 2, args, 1));
    assert StringText(p, NOFLAGS) + "" == p by {
      assert p[..|p|] == p;
      assert Shown(p, false) == p;
    }
  }
}
