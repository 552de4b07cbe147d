/** kservice.c: the text rt_vsnprintf produces, without regard to the buffer. */
module FormatText {
  import opened Words
  import opened Sequences

  /** Characters of a format string, which ends in NUL. */
  function At(fmt: string, i: int): char
    requires 0 <= i
  {
    if i < |fmt| then fmt[i] else '\0'
  }

  predicate IsDigit(c: char) {
    '0' <= c <= '9'
  }

  datatype Flags = Flags(left: bool, plus: bool, space: bool, special: bool, zeropad: bool)

  datatype Arg = Number(value: int) | Text(text: string) | NullText

  /** The next argument as a number; a missing or textual one reads as 0, where the program's behaviour is undefined. */
  function NumberAt(args: seq<Arg>, k: int): int {
    if 0 <= k < |args| && args[k].Number? then args[k].value else 0
  }

  function TextAt(args: seq<Arg>, k: int): string {
    if 0 <= k < |args| && args[k].Text? then args[k].text else "(NULL)"
  }

  /** The flag characters from position i on, and where they end. */
  function FlagsFrom(fmt: string, i: int, f: Flags): (Flags, int)
    requires 0 <= i
    decreases |fmt| - i
  {
    match At(fmt, i)
    case '-' => FlagsFrom(fmt, i + 1, f.(left := true))
    case '+' => FlagsFrom(fmt, i + 1, f.(plus := true))
    case ' ' => FlagsFrom(fmt, i + 1, f.(space := true))
    case '#' => FlagsFrom(fmt, i + 1, f.(special := true))
    case '0' => FlagsFrom(fmt, i + 1, f.(zeropad := true))
    case _ => (f, i)
  }

  /** skip_atoi from position i on, with n read so far. */
  function NumberFrom(fmt: string, i: int, n: int): (int, int)
    requires 0 <= i
    decreases |fmt| - i
  {
    if IsDigit(At(fmt, i)) then NumberFrom(fmt, i + 1, n * 10 + (At(fmt, i) as int - '0' as int)) else (n, i)
  }

  lemma {:induction false} FlagsEnd(fmt: string, i: int, f: Flags)
    requires 0 <= i <= |fmt|
    ensures i <= FlagsFrom(fmt, i, f).1 <= |fmt|
    decreases |fmt| - i
  {
    if At(fmt, i) == '-' { FlagsEnd(fmt, i + 1, f.(left := true)); }
    else if At(fmt, i) == '+' { FlagsEnd(fmt, i + 1, f.(plus := true)); }
    else if At(fmt, i) == ' ' { FlagsEnd(fmt, i + 1, f.(space := true)); }
    else if At(fmt, i) == '#' { FlagsEnd(fmt, i + 1, f.(special := true)); }
    else if At(fmt, i) == '0' { FlagsEnd(fmt, i + 1, f.(zeropad := true)); }
  }

  lemma {:induction false} NumberEnd(fmt: string, i: int, n: int)
    requires 0 <= i <= |fmt|
    ensures i <= NumberFrom(fmt, i, n).1 <= |fmt|
    decreases |fmt| - i
  {
    if IsDigit(At(fmt, i)) {
      NumberEnd(fmt, i + 1, n * 10 + (At(fmt, i) as int - '0' as int));
    }
  }

  /**
   * A directive after its '%': flags, width, precision, qualifier and conversion, and how far format and arguments
   * are used.
   */
  datatype Directive = Directive(flags: Flags, width: int, precision: int, qualifier: char, conv: char, next: int,
      arg: int)

  /** Width: digits, or '*' for the next argument. */
  function WidthFrom(fmt: string, i: int, f: Flags, args: seq<Arg>, k: int): (Flags, int, int, int)
    requires 0 <= i
  {
    if IsDigit(At(fmt, i)) then var (n, j) := NumberFrom(fmt, i, 0); (f, n, j, k)
    else if At(fmt, i) == '*' then
      var w := NumberAt(args, k);
      if w < 0 then (f.(left := true), -w, i + 1, k + 1) else (f, w, i + 1, k + 1)
    else (f, -1, i, k)
  }

  /** Precision: '.', then digits or '*' or nothing. */
  function PrecisionFrom(fmt: string, i: int, args: seq<Arg>, k: int): (int, int, int)
    requires 0 <= i
  {
    if At(fmt, i) != '.' then (-1, i, k)
    else if IsDigit(At(fmt, i + 1)) then var (n, j) := NumberFrom(fmt, i + 1, 0); (n, j, k)
    else if At(fmt, i + 1) == '*' then (Max(NumberAt(args, k), 0), i + 2, k + 1)
    else (0, i + 1, k)
  }

  lemma WidthEnd(fmt: string, i: int, f: Flags, args: seq<Arg>, k: int)
    requires 0 <= i <= |fmt|
    ensures i <= WidthFrom(fmt, i, f, args, k).2 <= |fmt|
  {
    NumberEnd(fmt, i, 0);
  }

  lemma PrecisionEnd(fmt: string, i: int, args: seq<Arg>, k: int)
    requires 0 <= i <= |fmt|
    ensures i <= PrecisionFrom(fmt, i, args, k).1 <= |fmt|
  {
    if At(fmt, i) == '.' {
      NumberEnd(fmt, i + 1, 0);
    }
  }

  /** The directive whose '%' is at position i. */
  function Parse(fmt: string, i: int, args: seq<Arg>, k: int): (d: Directive)
    requires 0 <= i < |fmt|
    ensures i < d.next <= |fmt|
  {
    var (f0, i0) := FlagsFrom(fmt, i + 1, Flags(false, false, false, false, false));
    FlagsEnd(fmt, i + 1, Flags(false, false, false, false, false));
    var (f1, width, i1, k1) := WidthFrom(fmt, i0, f0, args, k);
    WidthEnd(fmt, i0, f0, args, k);
    var (precision, i2, k2) := PrecisionFrom(fmt, i1, args, k1);
    PrecisionEnd(fmt, i1, args, k1);
    var q := if At(fmt, i2) == 'h' || At(fmt, i2) == 'l' then At(fmt, i2) else '\0';
    var i3 := if q != '\0' then i2 + 1 else i2;
    Directive(f1, width, precision, q, At(fmt, i3), if i3 < |fmt| then i3 + 1 else |fmt|, k2)
  }

  function Times(c: char, n: int): string {
    seq(Max(n, 0), i => c)
  }

  function Digit(n: int, large: bool): char
    requires 0 <= n < 16
  {
    if large then "0123456789ABCDEF"[n] else "0123456789abcdef"[n]
  }

  /** divide: base 10, and 16 for every other base. */
  function Base(base: int): int {
    if base == 10 then 10 else 16
  }

  /** The digits of n in radix b, least significant first; none for 0. */
  function Radix(n: int, b: int, large: bool): string
    requires 0 <= n && (b == 8 || b == 10 || b == 16)
    decreases n
  {
    if n == 0 then "" else [Digit(n % b, large)] + Radix(n / b, b, large)
  }

  /** The digits print_number collects. */
  function Digits(n: int, base: int, large: bool): string
    requires 0 <= n
  {
    Radix(n, Base(base), large)
  }

  /** The sign in front of a number. */
  function Sign(n: int, signed: bool, f: Flags): string {
    if !signed then "" else if n < 0 then "-" else if f.plus then "+" else if f.space then " " else ""
  }

  /** The sign, with the fill before or behind it when the number is to stand on the right. */
  function Front(sign: string, fill: int, f: Flags): string {
    if f.left then sign else if f.zeropad then sign + Times('0', fill) else Times(' ', fill) + sign
  }

  /**
   * Sign, zeros up to the precision and digits, filled up to the width on one side; digits come least significant
   * first.
   */
  function Layout(digits: string, sign: string, width: int, precision: int, f: Flags): string {
    var fill := width - Max(|digits|, precision) - |sign|;
    Front(sign, fill, f) + Times('0', precision - |digits|) + (if precision == 0 then "" else Reversed(digits))
    + (if f.left then Times(' ', fill) else "")
  }

  /** The digits of a number's magnitude, a single 0 included. */
  function NumberDigits(n: int, base: int, signed: bool, large: bool): string {
    var magnitude := if signed && n < 0 then -n else n % WORD;
    if magnitude == 0 then "0" else Digits(magnitude, base, large)
  }

  /** What print_number prints. */
  function NumberText(n: int, base: int, width: int, precision: int, f: Flags, signed: bool, large: bool): string {
    Layout(NumberDigits(n, base, signed, large), Sign(n, signed, f), width, precision, f)
  }

  /** A number argument cut to its qualifier: 16 or 32 bits, signed or not. */
  function Cut(v: int, qualifier: char, signed: bool): int {
    if qualifier == 'h' then (if signed then (v + 0x8000) % 0x1_0000 - 0x8000 else v % 0x1_0000)
    else if signed then (v + 0x8000_0000) % WORD - 0x8000_0000 else v % WORD
  }

  /** The bytes a conversion of text prints: cut by a positive precision, filled up to the width. */
  function StringText(s: string, width: int, precision: int, left: bool): string {
    var len := if 0 < precision < |s| then precision else |s|;
    if left then s[..len] + Times(' ', width - len) else Times(' ', width - len) + s[..len]
  }

  /** What one directive prints, and the arguments used after it. */
  function Piece(d: Directive, args: seq<Arg>): (string, int) {
    var f := d.flags;
    match d.conv
    case 'c' =>
      var c := [(NumberAt(args, d.arg) % 256) as char];
      (if f.left then c + Times(' ', d.width - 1) else Times(' ', d.width - 1) + c, d.arg + 1)
    case 's' => (StringText(TextAt(args, d.arg), d.width, d.precision, f.left), d.arg + 1)
    case 'p' =>
      var w := if d.width == -1 then 8 else d.width;
      var g := if d.width == -1 then f.(zeropad := true) else f;
      (NumberText(Cut(NumberAt(args, d.arg), '\0', false), 16, w, d.precision, g, false, false), d.arg + 1)
    case '%' => ("%", d.arg)
    case 'o' => (NumberText(Cut(NumberAt(args, d.arg), d.qualifier, false), 8, d.width, d.precision, f, false, false),
        d.arg + 1)
    case 'X' => (NumberText(Cut(NumberAt(args, d.arg), d.qualifier, false), 16, d.width, d.precision, f, false, true),
        d.arg + 1)
    case 'x' => (NumberText(Cut(NumberAt(args, d.arg), d.qualifier, false), 16, d.width, d.precision, f, false, false),
        d.arg + 1)
    case 'd' => (NumberText(Cut(NumberAt(args, d.arg), d.qualifier, true), 10, d.width, d.precision, f, true, false),
        d.arg + 1)
    case 'i' => (NumberText(Cut(NumberAt(args, d.arg), d.qualifier, true), 10, d.width, d.precision, f, true, false),
        d.arg + 1)
    case 'u' => (NumberText(Cut(NumberAt(args, d.arg), d.qualifier, false), 10, d.width, d.precision, f, false, false),
        d.arg + 1)
    case '\0' => ("%", d.arg)
    case _ => (['%', d.conv], d.arg)
  }

  /** The unbounded text from position i of the format on, with the arguments from k on. */
  function TextFrom(fmt: string, i: int, args: seq<Arg>, k: int): string
    requires 0 <= i <= |fmt|
    decreases |fmt| - i
  {
    if i == |fmt| then ""
    else if fmt[i] != '%' then [fmt[i]] + TextFrom(fmt, i + 1, args, k)
    else
      var d := Parse(fmt, i, args, k);
      Piece(d, args).0 + TextFrom(fmt, d.next, args, Piece(d, args).1)
  }

  function Formatted(fmt: string, args: seq<Arg>): string {
    TextFrom(fmt, 0, args, 0)
  }

  function ValueOf(s: string, base: int): int {
    if s == "" then 0 else DigitValue(s[0]) + base * ValueOf(s[1..], base)
  }

  function DigitValue(c: char): int {
    if '0' <= c <= '9' then c as int - '0' as int
    else if 'a' <= c <= 'f' then c as int - 'a' as int + 10
    else if 'A' <= c <= 'F' then c as int - 'A' as int + 10
    else 0
  }

  lemma DigitRead(n: int, large: bool)
    requires 0 <= n < 16
    ensures DigitValue(Digit(n, large)) == n
  {
  }

  lemma RadixStep(n: int, b: int, large: bool)
    requires 0 < n && (b == 8 || b == 10 || b == 16)
    ensures Radix(n, b, large) == [Digit(n % b, large)] + Radix(n / b, b, large)
    ensures Radix(n, b, large)[1..] == Radix(n / b, b, large) && n == b * (n / b) + n % b && 0 <= n / b < n
  {
    DivStep(n, b);
  }

  lemma DivStep(n: int, b: int)
    requires 0 < n && (b == 8 || b == 10 || b == 16)
    ensures n == b * (n / b) + n % b && 0 <= n / b < n && 0 <= n % b < b
  {
    if b == 8 {
    } else if b == 10 {
    }
  }

  /** Digits spell the number they were made from. */
  lemma {:induction false} RadixSpells(n: int, b: int, large: bool)
    requires 0 <= n && (b == 8 || b == 10 || b == 16)
    ensures ValueOf(Radix(n, b, large), b) == n
    decreases n
  {
    if n > 0 {
      RadixStep(n, b, large);
      RadixSpells(n / b, b, large);
      DigitRead(n % b, large);
    }
  }

  /** d characters hold a number below the d-th power of the base, or of 10 in both bases. */
  lemma {:induction false} RadixFits(n: int, b: int, large: bool, power: int, d: nat)
    requires (b == 10 || b == 16) && (power == 10 || power == b) && 0 <= n < Power(power, d)
    ensures |Radix(n, b, large)| <= d
    decreases d
  {
    if n > 0 {
      RadixStep(n, b, large);
      if d > 0 {
        var rest := Power(power, d - 1);
        assert if power == 10 then n < 10 * rest else n < 16 * rest;
        assert n / b < rest;
        RadixFits(n / b, b, large, power, d - 1);
      }
    }
  }

  function Power(b: int, d: nat): int {
    if d == 0 then 1 else b * Power(b, d - 1)
  }

  lemma {:induction false} ReadSmaller(n: int)
    requires 0 <= n
    ensures ValueOf(Radix(n, 16, false), 8) <= n
    ensures n >= 16 ==> ValueOf(Radix(n, 16, false), 8) < n
    decreases n
  {
    if n > 0 {
      RadixStep(n, 16, false);
      ReadSmaller(n / 16);
      DigitRead(n % 16, false);
    }
  }

  /** %o prints the octal digits of a number exactly when it is below 8: divide knows no base 8. */
  lemma OctalOnlyBelowEight(n: int)
    requires 0 <= n
    ensures Digits(n, 8, false) == Radix(n, 8, false) <==> n < 8
  {
    RadixSpells(n, 8, false);
    ReadSmaller(n);
    if 0 < n < 16 {
      RadixStep(n, 16, false);
      RadixStep(n, 8, false);
      assert n / 16 == 0 && Radix(0, 16, false) == "";
      if n < 8 {
        assert n / 8 == 0 && Radix(0, 8, false) == "";
      } else {
        assert n / 8 == 1;
        RadixStep(1, 8, false);
        assert |Radix(n, 16, false)| == 1 && |Radix(n, 8, false)| == 2;
      }
    }
  }

  /**
   * A width is filled exactly, unless the number itself is longer; a precision of 0 leaves out the room of the
   * digits.
   */
  lemma NumberWidth(n: int, base: int, width: int, precision: int, f: Flags, signed: bool, large: bool)
    ensures var digits := NumberDigits(n, base, signed, large);
            |NumberText(n, base, width, precision, f, signed, large)|
            == Max(width, Max(|digits|, precision) + |Sign(n, signed, f)|) - (if precision == 0 then |digits| else 0)
  {
    hide NumberDigits, Reversed;
  }

  lemma DigitsShow(n: int, base: int, signed: bool, large: bool)
    ensures |NumberDigits(n, base, signed, large)| >= 1
  {
    var m := if signed && n < 0 then -n else n % WORD;
    if m > 0 {
      RadixStep(m, Base(base), large);
    }
  }

  /** %d without flags, width and precision: a sign if negative, then digits that spell the magnitude. */
  lemma PlainDecimal(n: int)
    requires -0x8000_0000 <= n < 0x8000_0000
    ensures var digits := NumberDigits(n, 10, true, false);
            && NumberText(n, 10, -1, -1, Flags(false, false, false, false, false), true, false)
               == (if n < 0 then "-" else "") + Reversed(digits)
            && ValueOf(digits, 10) == if n < 0 then -n else n
  {
    var m := if n < 0 then -n else n;
    RadixSpells(m, 10, false);
    assert n >= 0 ==> n % WORD == n;
    DigitRead(0, false);
    assert ValueOf("0", 10) == 0;
    hide Radix, Reversed;
  }

  /** A character that is neither flag, digit, star, point nor qualifier. */
  predicate Letter(c: char) {
    c !in "-+ #0.*hl" && !IsDigit(c) && c != '%'
  }

  const NO_FLAGS: Flags := Flags(false, false, false, false, false)

  lemma ParseAt(fmt: string, i: int, c: char, args: seq<Arg>, k: int)
    requires 0 <= i && i + 1 < |fmt| && fmt[i + 1] == c && Letter(c)
    ensures Parse(fmt, i, args, k) == Directive(NO_FLAGS, -1, -1, '\0', c, i + 2, k)
  {
    assert FlagsFrom(fmt, i + 1, NO_FLAGS) == (NO_FLAGS, i + 1);
  }

  lemma ParseLetter(c: char, args: seq<Arg>)
    requires Letter(c)
    ensures Parse(['%', c], 0, args, 0) == Directive(NO_FLAGS, -1, -1, '\0', c, 2, 0)
    ensures Formatted(['%', c], args) == Piece(Directive(NO_FLAGS, -1, -1, '\0', c, 2, 0), args).0
  {
    hide Piece;
    var fmt := ['%', c];
    ParseAt(fmt, 0, c, args, 0);
    var p := Piece(Parse(fmt, 0, args, 0), args);
    assert TextFrom(fmt, 2, args, p.1) == "";
    assert p.0 + "" == p.0;
  }

  /** A text is the shortest spelling of n in a base with the digits of an alphabet. */
  ghost predicate Spells(t: string, base: int, alphabet: string, n: int) {
    t != "" && (forall c :: c in t ==> c in alphabet) && (|t| > 1 ==> t[0] != '0') && ValueOf(Reversed(t), base) == n
  }

  function Alphabet(base: int, large: bool): string {
    if base == 10 then "0123456789" else if large then "0123456789ABCDEF" else "0123456789abcdef"
  }

  lemma DigitIn(n: int, base: int, large: bool)
    requires 0 <= n < base && (base == 10 || base == 16)
    ensures Digit(n, large) in Alphabet(base, large) && (Digit(n, large) == '0' <==> n == 0)
  {
    assert Alphabet(base, large)[n] == Digit(n, large);
  }

  lemma {:induction false} RadixDigits(n: int, base: int, large: bool)
    requires 0 < n && (base == 10 || base == 16)
    ensures var r := Radix(n, base, large);
            r != "" && (forall c :: c in r ==> c in Alphabet(base, large)) && r[|r| - 1] != '0'
    decreases n
  {
    RadixStep(n, base, large);
    DivStep(n, base);
    DigitIn(n % base, base, large);
    if n / base > 0 {
      RadixDigits(n / base, base, large);
    } else {
      assert Radix(0, base, large) == "";
    }
  }

  lemma ReversedTwice(s: string)
    ensures Reversed(Reversed(s)) == s
    ensures forall c :: c in Reversed(s) <==> c in s
  {
    forall i | 0 <= i < |s| ensures Reversed(Reversed(s))[i] == s[i] && Reversed(s)[i] == s[|s| - 1 - i] {
      ReversedAt(Reversed(s), i);
      ReversedAt(s, |s| - 1 - i);
      ReversedAt(s, i);
    }
    forall c | c in s ensures c in Reversed(s) {
      var i :| 0 <= i < |s| && s[i] == c;
      assert Reversed(s)[|s| - 1 - i] == c;
    }
    forall c | c in Reversed(s) ensures c in s {
      var i :| 0 <= i < |s| && Reversed(s)[i] == c;
      ReversedAt(s, i);
    }
  }

  lemma DigitsSpell(n: int, base: int, signed: bool, large: bool)
    requires base == 10 || base == 16
    ensures Spells(Reversed(NumberDigits(n, base, signed, large)), base, Alphabet(base, large),
                   if signed && n < 0 then -n else n % WORD)
  {
    var m, d := if signed && n < 0 then -n else n % WORD, NumberDigits(n, base, signed, large);
    ReversedTwice(d);
    if m == 0 {
      DigitRead(0, large);
      assert d == "0" && ValueOf("0", base) == DigitValue('0') + base * ValueOf("", base);
      DigitIn(0, base, large);
    } else {
      RadixDigits(m, base, large);
      RadixSpells(m, base, large);
      ReversedAt(d, 0);
    }
  }

  lemma PlainNumber(n: int, base: int, signed: bool, large: bool)
    ensures NumberText(n, base, -1, -1, NO_FLAGS, signed, large)
            == (if signed && n < 0 then "-" else "") + Reversed(NumberDigits(n, base, signed, large))
  {
    hide NumberDigits, Reversed;
    DigitsShow(n, base, signed, large);
  }

  lemma ShowsNumber(n: int, base: int, signed: bool, large: bool)
    requires (base == 10 || base == 16) && n < WORD && (signed || 0 <= n)
    ensures var t, alphabet := NumberText(n, base, -1, -1, NO_FLAGS, signed, large), Alphabet(base, large);
            if n < 0 then t != "" && t[0] == '-' && Spells(t[1..], base, alphabet, -n) else Spells(t, base, alphabet, n)
  {
    hide NumberText, NumberDigits, Reversed, Spells, Alphabet;
    var d := Reversed(NumberDigits(n, base, signed, large));
    PlainNumber(n, base, signed, large);
    DigitsSpell(n, base, signed, large);
    if n < 0 {
      assert ("-" + d)[1..] == d;
    } else {
      assert n % WORD == n && "" + d == d;
    }
  }

  /** %u, %x and %X print the 32-bit value without sign: in decimal, in small and in capital hexadecimal digits. */
  lemma UnsignedConversions(v: int)
    ensures Spells(Formatted("%u", [Number(v)]), 10, "0123456789", v % WORD)
    ensures Spells(Formatted("%x", [Number(v)]), 16, "0123456789abcdef", v % WORD)
    ensures Spells(Formatted("%X", [Number(v)]), 16, "0123456789ABCDEF", v % WORD)
  {
    hide Formatted, NumberText, Spells;
    var args, n := [Number(v)], v % WORD;
    ParseLetter('u', args);
    ParseLetter('x', args);
    ParseLetter('X', args);
    ShowsNumber(n, 10, false, false);
    ShowsNumber(n, 16, false, false);
    ShowsNumber(n, 16, false, true);
  }

  /** %o prints what %x prints. */
  lemma OctalIsHexadecimal(v: int)
    ensures Formatted("%o", [Number(v)]) == Formatted("%x", [Number(v)])
  {
    hide Formatted, Reversed;
    ParseLetter('o', [Number(v)]);
    ParseLetter('x', [Number(v)]);
  }

  /** %d and %i print the 32-bit value as a signed decimal. */
  lemma SignedConversions(v: int, c: char)
    requires c == 'd' || c == 'i'
    ensures var t, n := Formatted(['%', c], [Number(v)]), (v + 0x8000_0000) % WORD - 0x8000_0000;
            if n < 0 then t != "" && t[0] == '-' && Spells(t[1..], 10, "0123456789", -n)
                else Spells(t, 10, "0123456789", n)
  {
    hide Formatted, NumberText, Spells;
    var args, n := [Number(v)], (v + 0x8000_0000) % WORD - 0x8000_0000;
    ParseLetter(c, args);
    ShowsNumber(n, 10, true, false);
  }

  /** Conversions take their arguments in order, and what each prints does not depend on the other. */
  lemma ArgumentsInOrder(b: char, c: char, x: Arg, y: Arg)
    requires b in "diuoxXcs" && c in "diuoxXcs"
    ensures Formatted(['%', b, '%', c], [x, y]) == Formatted(['%', b], [x]) + Formatted(['%', c], [y])
  {
    var fmt, args := ['%', b, '%', c], [x, y];
    ParseLetter(b, [x]);
    ParseLetter(c, [y]);
    ParseAt(fmt, 0, b, args, 0);
    ParseAt(fmt, 2, c, args, 1);
    var d, e := Directive(NO_FLAGS, -1, -1, '\0', b, 2, 0), Directive(NO_FLAGS, -1, -1, '\0', c, 4, 1);
    OneArgument(d, args, d, [x]);
    OneArgument(e, args, e.(next := 2, arg := 0), [y]);
    hide Piece, Parse;
    assert TextFrom(fmt, 4, args, Piece(e, args).1) == "";
    assert TextFrom(fmt, 2, args, 1) == Piece(e, args).0;
  }

  /** What a conversion prints depends on its own argument only. */
  lemma OneArgument(d: Directive, args: seq<Arg>, e: Directive, brgs: seq<Arg>)
    requires d.conv in "diuoxXcs" && e == d.(next := e.next, arg := e.arg)
    requires 0 <= d.arg < |args| && 0 <= e.arg < |brgs| && args[d.arg] == brgs[e.arg]
    ensures Piece(d, args).0 == Piece(e, brgs).0 && Piece(d, args).1 == d.arg + 1
  {
    hide NumberText, StringText;
  }

  /** %c prints one character, %s a text as it is, and %% a percent sign. */
  lemma TextConversions(v: int, s: string)
    ensures Formatted("%c", [Number(v)]) == [(v % 256) as char]
    ensures Formatted("%s", [Text(s)]) == s && Formatted("%s", [NullText]) == "(NULL)"
    ensures Formatted("%%", []) == "%"
  {
    ParseLetter('c', [Number(v)]);
    ParseLetter('s', [Text(s)]);
    ParseLetter('s', [NullText]);
    assert Times(' ', -2) == "" && Times(' ', -1 - |s|) == "" && Times(' ', -7) == "";
    assert s[..|s|] == s;
    var fmt := "%%";
    assert At(fmt, 1) == '%' && FlagsFrom(fmt, 1, NO_FLAGS) == (NO_FLAGS, 1);
    assert TextFrom(fmt, 2, [], 0) == "";
  }

  /** The flags are those of the flag characters passed over, up to the first other character. */
  lemma {:induction false} FlagsMeaning(fmt: string, i: int, f: Flags)
    requires 0 <= i <= |fmt|
    ensures var (g, j) := FlagsFrom(fmt, i, f);
            && i <= j <= |fmt| && At(fmt, j) !in "-+ #0" && (forall k :: i <= k < j ==> fmt[k] in "-+ #0")
            && (g.left <==> f.left || '-' in fmt[i..j]) && (g.plus <==> f.plus || '+' in fmt[i..j])
            && (g.space <==> f.space || ' ' in fmt[i..j]) && (g.special <==> f.special || '#' in fmt[i..j])
            && (g.zeropad <==> f.zeropad || '0' in fmt[i..j])
    decreases |fmt| - i
  {
    FlagsEnd(fmt, i, f);
    var c := At(fmt, i);
    if c in "-+ #0" {
      var f1 := if c == '-' then f.(left := true) else if c == '+' then f.(plus := true)
                else if c == ' ' then f.(space := true) else if c == '#' then f.(special := true)
                else f.(zeropad := true);
      FlagsMeaning(fmt, i + 1, f1);
      var j := FlagsFrom(fmt, i, f).1;
      assert FlagsFrom(fmt, i, f) == FlagsFrom(fmt, i + 1, f1);
      assert fmt[i..j] == [fmt[i]] + fmt[i + 1..j];
    } else {
      assert FlagsFrom(fmt, i, f) == (f, i);
    }
  }

  /** The number a row of decimal digits writes, most significant first. */
  function Decimal(s: string): int {
    if s == "" then 0 else Decimal(s[..|s| - 1]) * 10 + (s[|s| - 1] as int - '0' as int)
  }

  /** Width and precision are the decimal numbers the format spells, up to the first character that is no digit. */
  lemma {:induction false} NumberMeaning(fmt: string, a: int, i: int)
    requires 0 <= a <= i <= |fmt| && (forall k :: a <= k < i ==> IsDigit(fmt[k]))
    ensures var (n, j) := NumberFrom(fmt, i, Decimal(fmt[a..i]));
            && i <= j <= |fmt| && n == Decimal(fmt[a..j]) && !IsDigit(At(fmt, j))
            && forall k :: a <= k < j ==> IsDigit(fmt[k])
    decreases |fmt| - i
  {
    if IsDigit(At(fmt, i)) {
      assert fmt[a..i + 1][..i - a] == fmt[a..i];
      NumberMeaning(fmt, a, i + 1);
    }
  }

  /** Width: the decimal number in the format, or the next argument, whose minus sign asks for the left; else -1. */
  lemma WidthMeaning(fmt: string, i: int, f: Flags, args: seq<Arg>, k: int)
    requires 0 <= i <= |fmt|
    ensures var (g, w, j, k') := WidthFrom(fmt, i, f, args, k);
            if IsDigit(At(fmt, i)) then
              && g == f && k' == k && i < j <= |fmt| && w == Decimal(fmt[i..j]) && !IsDigit(At(fmt, j))
              && forall x :: i <= x < j ==> IsDigit(fmt[x])
            else if At(fmt, i) == '*' then
              && j == i + 1 && k' == k + 1 && g == f.(left := g.left)
              && ((w == NumberAt(args, k) >= 0 && g == f) || (w == -NumberAt(args, k) > 0 && g.left))
            else g == f && w == -1 && j == i && k' == k
  {
    assert fmt[i..i] == "";
    NumberMeaning(fmt, i, i);
  }

  /** Precision: none, the decimal number behind the point, the next argument if it is not negative, or else 0. */
  lemma PrecisionMeaning(fmt: string, i: int, args: seq<Arg>, k: int)
    requires 0 <= i <= |fmt|
    ensures var (p, j, k') := PrecisionFrom(fmt, i, args, k);
            if At(fmt, i) != '.' then p == -1 && j == i && k' == k
            else if IsDigit(At(fmt, i + 1)) then
              k' == k && i + 1 < j <= |fmt| && p == Decimal(fmt[i + 1..j]) && !IsDigit(At(fmt, j))
            else if At(fmt, i + 1) == '*' then
              j == i + 2 && k' == k + 1 && (p == NumberAt(args, k) >= 0 || p == 0 > NumberAt(args, k))
            else p == 0 && j == i + 1 && k' == k
  {
    if At(fmt, i) == '.' {
      assert fmt[i + 1..i + 1] == "";
      NumberMeaning(fmt, i + 1, i + 1);
    }
  }

  /** Flags, width, point, precision, qualifier and letter written one after the other are read back as they are. */
  lemma DirectiveRead(fmt: string, i: int, w: int, p: int, b: int, args: seq<Arg>, k: int)
    requires 0 <= i < w < p < b - 1 && b < |fmt| && (forall x :: i < x < w ==> fmt[x] in "-+ #0")
    requires fmt[w] != '0' && fmt[p] == '.' && forall x :: w <= x < b && x != p ==> IsDigit(fmt[x])
    requires Letter(fmt[b]) || ((fmt[b] == 'h' || fmt[b] == 'l') && b + 1 < |fmt|)
    ensures var flags, end := fmt[i + 1..w], if Letter(fmt[b]) then b else b + 1;
            Parse(fmt, i, args, k)
            == Directive(Flags('-' in flags, '+' in flags, ' ' in flags, '#' in flags, '0' in flags),
                         Decimal(fmt[w..p]), Decimal(fmt[p + 1..b]), if end == b then '\0' else fmt[b],
                         fmt[end], end + 1, k)
  {
    FlagsMeaning(fmt, i + 1, NO_FLAGS);
    ReadRun(fmt, w, p);
    ReadRun(fmt, p + 1, b);
    hide NumberFrom, Decimal, FlagsFrom;
    assert IsDigit(fmt[w]);
  }

  lemma ReadRun(fmt: string, a: int, b: int)
    requires 0 <= a <= b < |fmt| && (forall x :: a <= x < b ==> IsDigit(fmt[x])) && !IsDigit(fmt[b])
    ensures NumberFrom(fmt, a, 0) == (Decimal(fmt[a..b]), b)
  {
    NumberMeaning(fmt, a, a);
    assert fmt[a..a] == "";
  }

  /** An argument is cut to the 16 bits of 'h', or to 32: the one value of that range that agrees in those bits. */
  lemma CutMeaning(v: int, qualifier: char, signed: bool)
    ensures var c, m := Cut(v, qualifier, signed), if qualifier == 'h' then 0x1_0000 else WORD;
            && (v - c) % m == 0
            && if signed then -m <= 2 * c < m else 0 <= c < m
  {
    var bias := if !signed then 0 else if qualifier == 'h' then 0x8000 else 0x8000_0000;
    if qualifier == 'h' {
      assert v - Cut(v, qualifier, signed) == 0x1_0000 * ((v + bias) / 0x1_0000);
    } else {
      assert v - Cut(v, qualifier, signed) == WORD * ((v + bias) / WORD);
    }
    Multiples((v + bias) / 0x1_0000, (v + bias) / WORD);
  }

  lemma Multiples(q: int, r: int)
    ensures 0x1_0000 * q % 0x1_0000 == 0 && WORD * r % WORD == 0
  {
  }

  /** The sign in front, and on which side of it and of the digits a width is filled with what. */
  lemma NumberPlaced(n: int, base: int, width: int, f: Flags, signed: bool, large: bool)
    ensures var d := Reversed(NumberDigits(n, base, signed, large));
            var plus := if f.plus then "+" else if f.space then " " else "";
            var sign := if !signed then "" else if n < 0 then "-" else plus;
            var fill := Max(width - |d| - |sign|, 0);
            NumberText(n, base, width, -1, f, signed, large)
            == if f.left then sign + d + Times(' ', fill)
               else if f.zeropad then sign + Times('0', fill) + d
               else Times(' ', fill) + sign + d
  {
    hide NumberDigits, Reversed;
    DigitsShow(n, base, signed, large);
  }

  /** A text is cut by a positive precision, and filled with spaces on the right or on the left. */
  lemma StringPlaced(s: string, width: int, precision: int, left: bool)
    ensures var shown, t := if 0 < precision < |s| then s[..precision] else s, StringText(s, width, precision, left);
            && |t| == Max(width, |shown|)
            && (if left then t[..|shown|] == shown && forall i :: |shown| <= i < |t| ==> t[i] == ' '
                else t[|t| - |shown|..] == shown && forall i :: 0 <= i < |t| - |shown| ==> t[i] == ' ')
  {
  }

  /** The letters of the number conversions. */
  predicate NumberLetter(c: char) {
    c == 'd' || c == 'i' || c == 'u' || c == 'o' || c == 'x' || c == 'X'
  }

  /** Where the digits begin in what a number conversion prints without width. */
  function SignLength(t: string): (n: int) {
    if t != "" && (t[0] == '-' || t[0] == '+' || t[0] == ' ') then 1 else 0
  }

  function BaseOf(c: char): int {
    if c == 'o' then 8 else if c == 'x' || c == 'X' then 16 else 10
  }

  predicate SignedLetter(c: char) {
    c == 'd' || c == 'i'
  }

  function NumberOf(d: Directive, args: seq<Arg>): int {
    Cut(NumberAt(args, d.arg), d.qualifier, SignedLetter(d.conv))
  }

  /** Sign, zeros and digits of a number conversion, unfilled. */
  function Bare(n: int, c: char, precision: int, f: Flags): (r: (string, string)) {
    var digits := NumberDigits(n, BaseOf(c), SignedLetter(c), c == 'X');
    (Sign(n, SignedLetter(c), f),
     Times('0', precision - |digits|) + if precision == 0 then "" else Reversed(digits))
  }

  function DigitsOf(n: int, c: char): string {
    NumberDigits(n, BaseOf(c), SignedLetter(c), c == 'X')
  }

  predicate IsSign(c: char) {
    c == '-' || c == '+' || c == ' '
  }

  lemma SignSplit(sign: string, body: string)
    requires |sign| <= 1 && (sign != "" ==> IsSign(sign[0])) && (sign == "" ==> body == "" || !IsSign(body[0]))
    ensures SignLength(sign + body) == |sign| && (sign + body)[..|sign|] == sign && (sign + body)[|sign|..] == body
  {
  }

  lemma DigitsNoSign(n: int, c: char)
    requires NumberLetter(c)
    ensures var d := Reversed(DigitsOf(n, c)); |d| == |DigitsOf(n, c)| >= 1 && !IsSign(d[0])
  {
    var base := if BaseOf(c) == 10 then 10 else 16;
    assert DigitsOf(n, c) == NumberDigits(n, base, SignedLetter(c), c == 'X') by { hide Reversed; }
    hide NumberDigits, Reversed;
    DigitsSpell(n, base, SignedLetter(c), c == 'X');
    var d := Reversed(DigitsOf(n, c));
    assert d[0] in d && d[0] in Alphabet(base, c == 'X');
  }

  lemma BareParts(n: int, c: char, precision: int, f: Flags)
    requires NumberLetter(c)
    ensures var (sign, body) := Bare(n, c, precision, f);
            && SignLength(sign + body) == |sign| && (sign + body)[..|sign|] == sign && (sign + body)[|sign|..] == body
            && |body| == if precision == 0 then 0 else Max(|DigitsOf(n, c)|, precision)
  {
    DigitsNoSign(n, c);
    hide NumberDigits, Reversed;
    var (sign, body) := Bare(n, c, precision, f);
    assert body == Times('0', precision - |DigitsOf(n, c)|) + if precision == 0 then "" else Reversed(DigitsOf(n, c));
    SignSplit(sign, body);
  }

  /** A text and its fill, on the side the flags ask for. */
  function Filled(sign: string, body: string, fill: int, f: Flags): string {
    if f.left then sign + body + Times(' ', fill)
    else if f.zeropad then sign + Times('0', fill) + body
    else Times(' ', fill) + sign + body
  }

  lemma PieceBare(d: Directive, args: seq<Arg>)
    requires NumberLetter(d.conv)
    ensures var (sign, body) := Bare(NumberOf(d, args), d.conv, d.precision, d.flags);
            var fill := d.width - Max(|DigitsOf(NumberOf(d, args), d.conv)|, d.precision) - |sign|;
            Piece(d, args) == (Filled(sign, body, fill, d.flags), d.arg + 1)
  {
    hide NumberDigits, Reversed, Cut, Sign, Times;
    var digits := DigitsOf(NumberOf(d, args), d.conv);
    var (sign, body) := Bare(NumberOf(d, args), d.conv, d.precision, d.flags);
    var fill := d.width - Max(|digits|, d.precision) - |sign|;
    assert Piece(d, args) == (Layout(digits, sign, d.width, d.precision, d.flags), d.arg + 1);
    var zeros, shown := Times('0', d.precision - |digits|), if d.precision == 0 then "" else Reversed(digits);
    assert body == zeros + shown;
    var behind := if d.flags.left then Times(' ', fill) else "";
    assert Layout(digits, sign, d.width, d.precision, d.flags) == Front(sign, fill, d.flags) + zeros + shown + behind;
    var front := Front(sign, fill, d.flags);
    assert front + zeros + shown + behind == front + body + behind;
    assert !d.flags.left ==> front + body + behind == front + body;
  }

  /** A width only fills: the text printed without it stands left or right of spaces, or around zeros. */
  lemma WidthOnlyFills(d: Directive, args: seq<Arg>)
    requires (NumberLetter(d.conv) && d.precision != 0) || d.conv == 's' || d.conv == 'c'
    ensures var (t, k), u := Piece(d, args), Piece(d.(width := -1), args).0;
            var fill, n := Max(d.width - |u|, 0), SignLength(u);
            && k == d.arg + 1
            && t == if d.flags.left then u + Times(' ', fill)
                    else if d.flags.zeropad && NumberLetter(d.conv) then u[..n] + Times('0', fill) + u[n..]
                    else Times(' ', fill) + u
  {
    if NumberLetter(d.conv) {
      NumberWidthFills(d, args);
    } else {
      assert Times(' ', -2) == "";
    }
  }

  lemma NumberWidthFills(d: Directive, args: seq<Arg>)
    requires NumberLetter(d.conv) && d.precision != 0
    ensures var (t, k), u := Piece(d, args), Piece(d.(width := -1), args).0;
            var fill, n := Max(d.width - |u|, 0), SignLength(u);
            && k == d.arg + 1
            && t == if d.flags.left then u + Times(' ', fill)
                    else if d.flags.zeropad then u[..n] + Times('0', fill) + u[n..]
                    else Times(' ', fill) + u
  {
    hide Piece, Bare, DigitsOf, SignLength;
    var n := NumberOf(d, args);
    var (sign, body) := Bare(n, d.conv, d.precision, d.flags);
    PieceBare(d, args);
    PieceBare(d.(width := -1), args);
    BareParts(n, d.conv, d.precision, d.flags);
    assert sign + body + "" == sign + body && sign + "" == sign && "" + sign + body == sign + body;
  }

  /** A precision alone: zeros between the sign and the digits of a number, no digit at all for 0; a text is cut. */
  lemma PrecisionAlone(d: Directive, args: seq<Arg>)
    requires d.width == -1 && d.precision >= 0 && (NumberLetter(d.conv) || d.conv == 's')
    ensures var t, u := Piece(d, args).0, Piece(d.(precision := -1), args).0;
            var n := SignLength(u);
            t == if d.conv == 's' then (if 0 < d.precision < |u| then u[..d.precision] else u)
                 else if d.precision == 0 then u[..n]
                 else u[..n] + Times('0', d.precision - (|u| - n)) + u[n..]
  {
    if NumberLetter(d.conv) {
      NumberPrecision(d, args);
    }
  }

  lemma NumberPrecision(d: Directive, args: seq<Arg>)
    requires d.width == -1 && d.precision >= 0 && NumberLetter(d.conv)
    ensures var t, u := Piece(d, args).0, Piece(d.(precision := -1), args).0;
            var n := SignLength(u);
            t == if d.precision == 0 then u[..n] else u[..n] + Times('0', d.precision - (|u| - n)) + u[n..]
  {
    hide Piece, Bare, DigitsOf, Reversed, SignLength, NumberOf, Sign;
    var n := NumberOf(d, args);
    assert NumberOf(d.(precision := -1), args) == n by { SameNumber(d, args); }
    var (sign, body) := Bare(n, d.conv, d.precision, d.flags);
    Unfilled(d, args);
    Unfilled(d.(precision := -1), args);
    BareShown(n, d.conv, d.precision, d.flags);
    BareShown(n, d.conv, -1, d.flags);
    BareParts(n, d.conv, d.precision, d.flags);
    BareParts(n, d.conv, -1, d.flags);
    var shown := Reversed(DigitsOf(n, d.conv));
    assert Piece(d, args).0 == sign + body;
    assert Piece(d.(precision := -1), args).0 == sign + shown;
    if d.precision == 0 {
      assert sign + body == sign;
    } else {
      assert sign + body == sign + Times('0', d.precision - |DigitsOf(n, d.conv)|) + shown;
    }
  }

  lemma SameNumber(d: Directive, args: seq<Arg>)
    ensures NumberOf(d.(precision := -1), args) == NumberOf(d, args)
  {
  }

  lemma BareShown(n: int, c: char, precision: int, f: Flags)
    ensures var digits := DigitsOf(n, c);
            Bare(n, c, precision, f)
            == (Sign(n, SignedLetter(c), f),
                if precision == 0 then ""
                else if precision < 0 then Reversed(digits)
                else Times('0', precision - |digits|) + Reversed(digits))
  {
    hide NumberDigits, Reversed, Sign;
    var digits := DigitsOf(n, c);
    var zeros := Times('0', precision - |digits|);
    if precision <= 0 {
      assert zeros == "" && zeros + "" == "" && zeros + Reversed(digits) == Reversed(digits);
    }
    assert Bare(n, c, precision, f).1 == zeros + if precision == 0 then "" else Reversed(digits);
  }

  /** A plus or space flag shows in front of a signed number that is not negative, and nowhere else. */
  lemma SignAlone(d: Directive, args: seq<Arg>)
    requires d.width == -1 && d.precision == -1 && NumberLetter(d.conv)
    ensures var t, u := Piece(d, args).0, Piece(d.(flags := NO_FLAGS), args).0;
            var shown := (d.conv == 'd' || d.conv == 'i') && SignLength(u) == 0;
            t == (if shown && d.flags.plus then "+" else if shown && d.flags.space then " " else "") + u
  {
    hide Piece, Bare, DigitsOf, Reversed, Cut, SignLength;
    var n, plain := NumberOf(d, args), d.(flags := NO_FLAGS);
    var shown := Reversed(DigitsOf(n, d.conv));
    Unfilled(d, args);
    Unfilled(plain, args);
    BareShown(n, d.conv, -1, d.flags);
    BareShown(n, d.conv, -1, NO_FLAGS);
    BareParts(n, d.conv, -1, NO_FLAGS);
    assert "" + shown == shown;
  }

  lemma Unfilled(d: Directive, args: seq<Arg>)
    requires NumberLetter(d.conv) && d.width == -1
    ensures var (sign, body) := Bare(NumberOf(d, args), d.conv, d.precision, d.flags); Piece(d, args).0 == sign + body
  {
    hide Piece, Bare, DigitsOf, NumberOf;
    var (sign, body) := Bare(NumberOf(d, args), d.conv, d.precision, d.flags);
    PieceBare(d, args);
    assert sign + body + "" == sign + body && sign + "" == sign && "" + sign + body == sign + body;
  }

  /** A qualifier prints the argument as the conversion without it would print the value cut to 16 or 32 bits. */
  lemma QualifierAlone(d: Directive, v: int, args: seq<Arg>)
    requires NumberLetter(d.conv) && args == [Number(v)] && d.arg == 0
    ensures var c := Cut(v, d.qualifier, d.conv == 'd' || d.conv == 'i');
            Piece(d, args).0 == Piece(d.(qualifier := '\0'), [Number(c)]).0
  {
    var signed := SignedLetter(d.conv);
    var c := Cut(v, d.qualifier, signed);
    assert Cut(c, '\0', signed) == c by { CutMeaning(v, d.qualifier, signed); }
    hide NumberText, Cut;
  }

  /** A pointer is printed as an unsigned hexadecimal number, of eight digits if no width says otherwise. */
  lemma PointerConversion(v: int, args: seq<Arg>)
    requires args == [Number(v)]
    ensures |Formatted("%p", args)| == 8
    ensures Formatted("%p", args) == Formatted("%08x", args)
  {
    ParseLetter('p', args);
    ParseZeroEight(args);
    hide Formatted, Piece, NumberText;
    PointerPiece(v);
    PointerDigits(v);
  }

  lemma PointerPiece(v: int)
    ensures var f := NO_FLAGS.(zeropad := true);
            var t := NumberText(v % WORD, 16, 8, -1, f, false, false);
            && Piece(Directive(NO_FLAGS, -1, -1, '\0', 'p', 2, 0), [Number(v)]).0 == t
            && Piece(Directive(f, 8, -1, '\0', 'x', 4, 0), [Number(v)]).0 == t
  {
    hide NumberText;
  }

  lemma PointerDigits(v: int)
    ensures |NumberText(v % WORD, 16, 8, -1, NO_FLAGS.(zeropad := true), false, false)| == 8
  {
    hide NumberText, Radix;
    NumberWidth(v % WORD, 16, 8, -1, NO_FLAGS.(zeropad := true), false, false);
    RadixFits(v % WORD, 16, false, 16, 8) by {
      assert Power(16, 8) == WORD;
    }
  }

  lemma ParseZeroEight(args: seq<Arg>)
    ensures var d := Directive(NO_FLAGS.(zeropad := true), 8, -1, '\0', 'x', 4, 0);
            Formatted("%08x", args) == Piece(d, args).0
  {
    hide Piece;
    var fmt := "%08x";
    assert At(fmt, 1) == '0' && At(fmt, 2) == '8' && At(fmt, 3) == 'x';
    assert FlagsFrom(fmt, 2, NO_FLAGS.(zeropad := true)) == (NO_FLAGS.(zeropad := true), 2);
    assert FlagsFrom(fmt, 1, NO_FLAGS) == (NO_FLAGS.(zeropad := true), 2);
    assert NumberFrom(fmt, 3, 8) == (8, 3);
    assert NumberFrom(fmt, 2, 0) == (8, 3);
    var p := Piece(Parse(fmt, 0, args, 0), args);
    assert Parse(fmt, 0, args, 0) == Directive(NO_FLAGS.(zeropad := true), 8, -1, '\0', 'x', 4, 0);
    assert TextFrom(fmt, 4, args, p.1) == "";
    assert p.0 + "" == p.0;
  }

  /** A format without '%' prints itself. */
  lemma {:induction false} PlainFormat(fmt: string, i: int, args: seq<Arg>, k: int)
    requires 0 <= i <= |fmt| && '%' !in fmt
    ensures TextFrom(fmt, i, args, k) == fmt[i..]
    decreases |fmt| - i
  {
    if i < |fmt| {
      PlainFormat(fmt, i + 1, args, k);
      assert fmt[i] in fmt;
      assert fmt[i..] == [fmt[i]] + fmt[i + 1..];
    }
  }

  /** The digits stand behind sign, fill and zeros in every text whose precision is not 0. */
  lemma DigitsShown(n: int, base: int, width: int, precision: int, f: Flags, signed: bool, large: bool)
    requires precision != 0
    ensures var digits, text := NumberDigits(n, base, signed, large),
            NumberText(n, base, width, precision, f, signed, large);
            var behind := if f.left then Max(width - Max(|digits|, precision) - |Sign(n, signed, f)|, 0) else 0;
            && |digits| + behind <= |text|
            && text[|text| - behind - |digits|..|text| - behind] == Reversed(digits)
  {
    hide NumberDigits, Reversed;
    var digits, sign := NumberDigits(n, base, signed, large), Sign(n, signed, f);
    var fill := width - Max(|digits|, precision) - |sign|;
    var front := Front(sign, fill, f) + Times('0', precision - |digits|);
    var behind := if f.left then Times(' ', fill) else "";
    assert NumberText(n, base, width, precision, f, signed, large) == front + Reversed(digits) + behind;
  }

  /**
   * A precision no longer than the digits makes no difference exactly if it is not 0: a precision of 0 leaves the
   * sign and the fill alone, for every number and not only for zero.
   */
  lemma ZeroPrecisionShowsNothing(n: int, base: int, width: int, precision: int, f: Flags, signed: bool, large: bool)
    requires precision <= |NumberDigits(n, base, signed, large)|
    ensures NumberText(n, base, width, precision, f, signed, large) == NumberText(n, base, width, -1, f, signed, large)
            <==> precision != 0
    ensures var sign := Sign(n, signed, f);
            var fill := width - |NumberDigits(n, base, signed, large)| - |sign|;
            precision == 0 ==> NumberText(n, base, width, precision, f, signed, large)
                               == Front(sign, fill, f) + (if f.left then Times(' ', fill) else "")
  {
    hide NumberDigits, Reversed;
    DigitsShow(n, base, signed, large);
    NumberWidth(n, base, width, precision, f, signed, large);
    NumberWidth(n, base, width, -1, f, signed, large);
  }
}

/** kservice.c: print_number and rt_vsnprintf, writing into a buffer that may be too small. */
module FormatImpl {
  import opened Words
  import opened Sequences
  import opened FormatText

  /** The output cursor: characters beyond `end` are counted and dropped. */
  class Writer {
    const buf: array<char>
    const end: int
    var str: int
    ghost const was: seq<char>
    ghost var text: string

    /** The cells of the buffer hold the text so far, cut at end, and what was there before. */
    ghost predicate Valid()
      reads this, buf
    {
      && 0 <= end <= buf.Length == |was| && str == |text|
      && forall i :: 0 <= i < buf.Length ==> buf[i] == if i < str && i < end then text[i] else was[i]
    }

    constructor (buf: array<char>, size: int)
      requires 0 <= size <= buf.Length
      ensures Valid() && text == "" && this.buf == buf && end == size && was == buf[..]
    {
      this.buf, end, str := buf, size, 0;
      was, text := buf[..], "";
    }

    /** `if (str < end) *str = c; ++ str;`. */
    method Put(c: char)
      requires Valid()
      modifies this`str, this`text, buf
      ensures Valid() && text == old(text) + [c]
    {
      if str < end {
        buf[str] := c;
      }
      str := str + 1;
      text := text + [c];
    }

    /** `while (size-- > 0)` around a put: afterwards size is negative. */
    method Fill(c: char, size: int) returns (rest: int)
      requires Valid()
      modifies this`str, this`text, buf
      ensures Valid() && text == old(text) + Times(c, size) && rest == (if size > 0 then 0 else size) - 1
    {
      rest := size;
      ghost var n := 0;
      while rest > 0
        invariant Valid() && 0 <= n && rest == size - n && (size >= 0 ==> rest >= 0) && (size < 0 ==> n == 0)
        invariant text == old(text) + Times(c, n)
      {
        Put(c);
        rest := rest - 1;
        n := n + 1;
        assert Times(c, n) == Times(c, n - 1) + [c];
      }
      assert Times(c, n) == Times(c, size);
      rest := rest - 1;
    }

    /** The first n characters of s. */
    method PutAll(s: string, n: int)
      requires Valid() && 0 <= n <= |s|
      modifies this`str, this`text, buf
      ensures Valid() && text == old(text) + s[..n]
    {
      var i := 0;
      while i < n
        invariant 0 <= i <= n && Valid() && text == old(text) + s[..i]
      {
        Put(s[i]);
        i := i + 1;
        assert s[..i] == s[..i - 1] + [s[i - 1]];
      }
    }

    /** print_number; num is a 32-bit long. */
    method PrintNumber(num: int, base: int, s: int, precision: int, f: Flags, signed: bool, large: bool)
      requires Valid() && -0x8000_0000 <= num < 0x8000_0000
      modifies this`str, this`text, buf
      ensures Valid()
              && text == old(text)
                  + NumberText(if signed then num else num % WORD, base, s, precision, f, signed, large)
    {
      hide Digits, Layout;
      var n, sign := num, "";
      if signed {
        if n < 0 {
          sign := "-";
          n := if n == -0x8000_0000 then n else -n;
        } else if f.plus {
          sign := "+";
        } else if f.space {
          sign := " ";
        }
      }
      var tmp := CollectDigits(n % WORD, base, large);
      PrintDigits(tmp, sign, s, precision, f);
    }

    /** Padding before the digits, and the sign; what is left of the width goes behind. */
    method PadFront(sign: string, size: int, f: Flags) returns (rest: int)
      requires Valid() && |sign| <= 1
      modifies this`str, this`text, buf
      ensures Valid() && text == old(text) + Front(sign, size - |sign|, f)
      ensures Times(' ', rest) == if f.left then Times(' ', size - |sign|) else ""
    {
      hide Valid, Times;
      rest := size;
      TimesNone(rest);
      if !f.zeropad && !f.left {
        if sign != "" && rest > 0 {
          rest := rest - 1;
        }
        TimesNone(rest);
        TimesNone(size - |sign|);
        rest := Fill(' ', rest);
      }
      PutSign(sign);
      rest := rest - |sign|;
      TimesNone(rest);
      if !f.left {
        rest := Fill(if f.zeropad then '0' else ' ', rest);
        TimesNone(rest);
      }
    }

    /** The part of print_number behind the conversion of the digits. */
    method PrintDigits(tmp: string, sign: string, s: int, precision: int, f: Flags)
      requires Valid() && |sign| <= 1
      modifies this`str, this`text, buf
      ensures Valid() && text == old(text) + Layout(tmp, sign, s, precision, f)
    {
      hide Valid, Times, Reversed, Front;
      var prec := if |tmp| > precision then |tmp| else precision;
      var size := PadFront(sign, s - prec, f);
      var rest := Fill('0', prec - |tmp|);
      TimesMax(precision, |tmp|);
      if precision != 0 {
        PutReversed(tmp);
      }
      size := Fill(' ', size);
    }

    method PutSign(sign: string)
      requires Valid() && |sign| <= 1
      modifies this`str, this`text, buf
      ensures Valid() && text == old(text) + sign
    {
      if sign != "" {
        Put(sign[0]);
      }
    }

    /** The digits of tmp, last first. */
    method PutReversed(tmp: string)
      requires Valid()
      modifies this`str, this`text, buf
      ensures Valid() && text == old(text) + Reversed(tmp)
    {
      var i := |tmp|;
      assert tmp[..i] == tmp;
      while i > 0
        invariant 0 <= i <= |tmp| && Valid() && text + Reversed(tmp[..i]) == old(text) + Reversed(tmp)
      {
        ReversedLast(tmp[..i]);
        assert tmp[..i][..i - 1] == tmp[..i - 1];
        i := i - 1;
        Put(tmp[i]);
      }
    }

    /** `%c`: the loops around the character count the width down first. */
    method PrintChar(c: char, width: int, left: bool)
      requires Valid()
      modifies this`str, this`text, buf
      ensures Valid() && text == old(text) + if left then [c] + Times(' ', width - 1) else Times(' ', width - 1) + [c]
    {
      hide Valid, Times;
      var w := width;
      if !left {
        w := Fill(' ', w - 1);
        TimesNone(w);
        TimesNone(w - 1);
      }
      Put(c);
      w := Fill(' ', w - 1);
    }

    /** `%s`. */
    method PrintString(s: string, width: int, precision: int, left: bool)
      requires Valid()
      modifies this`str, this`text, buf
      ensures Valid() && text == old(text) + StringText(s, width, precision, left)
    {
      hide Valid, Times;
      var len := |s|;
      if precision > 0 && len > precision {
        len := precision;
      }
      var w := width - len;
      if !left {
        w := Fill(' ', w);
        TimesNone(w);
      }
      PutAll(s, len);
      w := Fill(' ', w);
    }

    /** The switch of rt_vsnprintf on one directive. */
    method PrintDirective(d: Directive, args: seq<Arg>) returns (k: int)
      requires Valid()
      modifies this`str, this`text, buf
      ensures Valid() && text == old(text) + Piece(d, args).0 && k == Piece(d, args).1
    {
      hide Valid, NumberText, StringText, Times;
      var f := d.flags;
      k := d.arg + 1;
      var v := NumberAt(args, d.arg);
      match d.conv {
        case 'c' => PrintChar((v % 256) as char, d.width, f.left);
        case 's' => PrintString(TextAt(args, d.arg), d.width, d.precision, f.left);
        case 'p' =>
          var w, g := d.width, f;
          if w == -1 {
            w := 8;
            g := f.(zeropad := true);
          }
          PrintCut(v, '\0', 16, w, d.precision, g, false, false);
        case '%' => Put('%'); k := d.arg;
        case 'o' => PrintCut(v, d.qualifier, 8, d.width, d.precision, f, false, false);
        case 'X' => PrintCut(v, d.qualifier, 16, d.width, d.precision, f, false, true);
        case 'x' => PrintCut(v, d.qualifier, 16, d.width, d.precision, f, false, false);
        case 'd' => PrintCut(v, d.qualifier, 10, d.width, d.precision, f, true, false);
        case 'i' => PrintCut(v, d.qualifier, 10, d.width, d.precision, f, true, false);
        case 'u' => PrintCut(v, d.qualifier, 10, d.width, d.precision, f, false, false);
        case _ =>
          Put('%');
          if d.conv != '\0' {
            Put(d.conv);
          }
          k := d.arg;
      }
    }

    /** The argument is cut to its qualifier and passed on as a 32-bit long. */
    method PrintCut(v: int, qualifier: char, base: int, width: int, precision: int, f: Flags, signed: bool, large: bool)
      requires Valid()
      modifies this`str, this`text, buf
      ensures Valid()
              && text == old(text) + NumberText(Cut(v, qualifier, signed), base, width, precision, f, signed, large)
    {
      hide Valid, NumberText;
      var num := Cut(v, qualifier, signed);
      CutRange(v, qualifier, signed);
      var long := if num < 0x8000_0000 then num else num - WORD;
      PrintNumber(long, base, width, precision, f, signed, large);
    }
  }

  lemma CutRange(v: int, qualifier: char, signed: bool)
    ensures var num := Cut(v, qualifier, signed);
            && (signed ==> -0x8000_0000 <= num < 0x8000_0000) && (!signed ==> 0 <= num < WORD)
            && (!signed ==> (if num < 0x8000_0000 then num else num - WORD) % WORD == num)
  {
  }

  /** The loop over the flag characters. */
  method ParseFlags(fmt: string, i: int) returns (f: Flags, j: int)
    requires 0 <= i <= |fmt|
    ensures (f, j) == FlagsFrom(fmt, i, Flags(false, false, false, false, false)) && i <= j <= |fmt|
  {
    f, j := Flags(false, false, false, false, false), i;
    while true
      invariant i <= j <= |fmt| && FlagsFrom(fmt, j, f) == FlagsFrom(fmt, i, Flags(false, false, false, false, false))
      decreases |fmt| - j
    {
      var c := At(fmt, j);
      if c == '-' {
        f := f.(left := true);
      } else if c == '+' {
        f := f.(plus := true);
      } else if c == ' ' {
        f := f.(space := true);
      } else if c == '#' {
        f := f.(special := true);
      } else if c == '0' {
        f := f.(zeropad := true);
      } else {
        return;
      }
      j := j + 1;
    }
  }

  /** skip_atoi. */
  method SkipAtoi(fmt: string, i: int) returns (n: int, j: int)
    requires 0 <= i <= |fmt|
    ensures (n, j) == NumberFrom(fmt, i, 0) && i <= j <= |fmt| && n >= 0
  {
    n, j := 0, i;
    while IsDigit(At(fmt, j))
      invariant i <= j <= |fmt| && n >= 0 && NumberFrom(fmt, j, n) == NumberFrom(fmt, i, 0)
      decreases |fmt| - j
    {
      n := n * 10 + (At(fmt, j) as int - '0' as int);
      j := j + 1;
    }
  }

  /** Flags, width, precision, qualifier and conversion behind the '%' at position i. */
  method ParseDirective(fmt: string, i: int, args: seq<Arg>, k: int) returns (d: Directive)
    requires 0 <= i < |fmt|
    ensures d == Parse(fmt, i, args, k)
  {
    hide FlagsFrom, NumberFrom;
    var f, j := ParseFlags(fmt, i + 1);
    var a := k;
    var width := -1;
    if IsDigit(At(fmt, j)) {
      width, j := SkipAtoi(fmt, j);
    } else if At(fmt, j) == '*' {
      j := j + 1;
      width := NumberAt(args, a);
      a := a + 1;
      if width < 0 {
        width := -width;
        f := f.(left := true);
      }
    }
    var precision := -1;
    if At(fmt, j) == '.' {
      j := j + 1;
      if IsDigit(At(fmt, j)) {
        precision, j := SkipAtoi(fmt, j);
      } else if At(fmt, j) == '*' {
        j := j + 1;
        precision := NumberAt(args, a);
        a := a + 1;
      }
      if precision < 0 {
        precision := 0;
      }
    }
    var qualifier := '\0';
    if At(fmt, j) == 'h' || At(fmt, j) == 'l' {
      qualifier := At(fmt, j);
      j := j + 1;
    }
    d := Directive(f, width, precision, qualifier, At(fmt, j), if j < |fmt| then j + 1 else |fmt|, a);
  }

  /** The loop of rt_vsnprintf over the format. */
  method PrintFormat(w: Writer, fmt: string, args: seq<Arg>)
    requires w.Valid() && w.text == ""
    modifies w`str, w`text, w.buf
    ensures w.Valid() && w.text == Formatted(fmt, args)
  {
    hide Parse, Piece;
    var i, k := 0, 0;
    while i < |fmt|
      invariant 0 <= i <= |fmt| && w.Valid() && w.text + TextFrom(fmt, i, args, k) == Formatted(fmt, args)
      decreases |fmt| - i
    {
      ghost var before := w.text;
      if fmt[i] != '%' {
        w.Put(fmt[i]);
        assert before + ([fmt[i]] + TextFrom(fmt, i + 1, args, k)) == w.text + TextFrom(fmt, i + 1, args, k);
        i := i + 1;
      } else {
        var d := ParseDirective(fmt, i, args, k);
        ghost var k0 := k;
        k := w.PrintDirective(d, args);
        assert TextFrom(fmt, i, args, k0) == Piece(d, args).0 + TextFrom(fmt, d.next, args, k);
        assert before + (Piece(d, args).0 + TextFrom(fmt, d.next, args, k)) == w.text + TextFrom(fmt, d.next, args, k);
        i := d.next;
      }
    }
  }

  /**
   * rt_vsnprintf: the first size - 1 characters of the unbounded text and a NUL; the result does not depend on
   * size.
   */
  method VsnPrintf(buf: array<char>, size: int, fmt: string, args: seq<Arg>) returns (n: int)
    requires 0 <= size <= buf.Length
    modifies buf
    ensures n == |Formatted(fmt, args)|
    ensures size > 0 ==> var m := Min(n, size - 1);
                         buf[..m] == Formatted(fmt, args)[..m] && buf[m] == '\0' && buf[m + 1..] == old(buf[m + 1..])
    ensures size == 0 ==> buf[..] == old(buf[..])
  {
    hide Formatted;
    var w := new Writer(buf, size);
    PrintFormat(w, fmt, args);
    if size > 0 {
      if w.str < size {
        buf[w.str] := '\0';
      } else {
        buf[size - 1] := '\0';
      }
    }
    return w.str;
  }

  lemma TimesNone(n: int)
    ensures n <= 0 ==> Times(' ', n) == "" && Times('0', n) == ""
  {
  }

  lemma TimesMax(p: int, n: int)
    requires n >= 0
    ensures Times('0', (if n > p then n else p) - n) == Times('0', p - n)
  {
  }

  lemma {:induction false} ReversedLast(s: string)
    requires s != ""
    ensures Reversed(s) == [s[|s| - 1]] + Reversed(s[..|s| - 1])
    decreases |s|
  {
    if |s| > 1 {
      ReversedLast(s[1..]);
      assert s[1..][..|s| - 2] == s[..|s| - 1][1..];
    }
  }

  /** The loop of print_number that fills tmp, an array of 16 characters. */
  method CollectDigits(n: int, base: int, large: bool) returns (tmp: string)
    requires 0 <= n < WORD
    ensures tmp == (if n == 0 then "0" else Digits(n, base, large)) && |tmp| <= 16
  {
    if n == 0 {
      return "0";
    }
    tmp := "";
    var rest := n;
    RadixFits(n, Base(base), large, 10, 10) by {
      assert Power(10, 10) == 10_000_000_000;
    }
    while rest != 0
      invariant 0 <= rest && tmp + Radix(rest, Base(base), large) == Radix(n, Base(base), large)
      decreases rest
    {
      RadixStep(rest, Base(base), large);
      tmp := tmp + [Digit(rest % Base(base), large)];
      rest := rest / Base(base);
    }
  }
}
