/** The formatted output of the bare-metal runtime: a vsnprintf without a divide instruction.

  A C string is modelled by its characters before the terminating NUL, a pointer into it by the
  rest of the string from there on, and the variable arguments by the sequence of those not yet
  fetched. Numbers are those of a 32-bit target. */
module Vsnprintf {

  const HEX_CHARS := "0123456789ABCDEF"

  datatype Arg = Unsigned(n: nat) | Signed(i: int) | Text(s: string) | Character(c: char)

  // ----- numbers -----

  /** Quotient and remainder by 10, by subtraction only. */
  method DivMod10(n: nat) returns (q: nat, r: nat)
    ensures q == n / 10 && r == n % 10
  {
    q, r := 0, n;
    while r >= 1000
      invariant n == 10 * q + r
    {
      r := r - 1000;
      q := q + 100;
    }
    while r >= 100
      invariant n == 10 * q + r
    {
      r := r - 100;
      q := q + 10;
    }
    while r >= 10
      invariant n == 10 * q + r
    {
      r := r - 10;
      q := q + 1;
    }
  }

  /** The digits of n in base 10 or 16, most significant first. */
  function Digits(n: nat, base: nat): (r: string)
    requires base == 10 || base == 16
    ensures r != ""
  {
    if n < base then [HEX_CHARS[n]] else Digits(n / base, base) + [HEX_CHARS[n % base]]
  }

  function DigitValue(c: char): nat {
    if '0' <= c <= '9' then (c - '0') as nat else if 'A' <= c <= 'F' then (c - 'A') as nat + 10 else 0
  }

  function Value(s: string, base: nat): nat {
    if s == "" then 0 else Value(s[..|s| - 1], base) * base + DigitValue(s[|s| - 1])
  }

  lemma DigitRoundTrip(d: nat)
    requires d < 16
    ensures DigitValue(HEX_CHARS[d]) == d && (d > 0 ==> HEX_CHARS[d] != '0')
    ensures d < 10 ==> HEX_CHARS[d] == '0' + d as char
  {
  }

  /** Reading the digits of a number gives it back, and only zero starts with a zero. */
  lemma {:induction false} NumberRoundTrip(n: nat, base: nat)
    requires base == 10 || base == 16
    ensures Value(Digits(n, base), base) == n
    ensures n > 0 ==> Digits(n, base)[0] != '0'
  {
    DigitRoundTrip(n % base);
    if n < base {
      assert Digits(n, base)[..0] == "";
    } else {
      NumberRoundTrip(n / base, base);
      var s := Digits(n / base, base);
      assert Digits(n, base)[..|s|] == s;
    }
  }

  function Power(base: nat, k: nat): nat { if k == 0 then 1 else base * Power(base, k - 1) }

  /** A number below the k-th power of the base has at most k digits. */
  lemma {:induction false} DigitCount(n: nat, base: nat, k: nat)
    requires (base == 10 || base == 16) && k > 0 && n < Power(base, k)
    ensures |Digits(n, base)| <= k
  {
    if n < base {
    } else {
      DigitCount(n / base, base, k - 1);
    }
  }

  /** 32-bit numbers have at most 10 decimal and 8 hexadecimal digits: with a sign, fewer than the 20
      bytes of scratch. */
  lemma ScratchSuffices(n: nat, base: nat)
    requires (base == 10 || base == 16) && n < 0x1_0000_0000
    ensures |Digits(n, base)| <= if base == 10 then 10 else 8
  {
    assert Power(10, 10) == 10_000_000_000 by {
      assert Power(10, 5) == 100_000;
    }
    assert Power(16, 8) == 0x1_0000_0000 by {
      assert Power(16, 4) == 0x1_0000;
    }
    DigitCount(n, base, if base == 10 then 10 else 8);
  }

  function Reversed(s: string): (r: string)
    ensures |r| == |s|
    ensures forall k :: 0 <= k < |s| ==> r[k] == s[|s| - 1 - k]
  {
    seq(|s|, k requires 0 <= k < |s| => s[|s| - 1 - k])
  }

  method Reverse(buf: array<char>, i: nat)
    requires i <= buf.Length
    modifies buf
    ensures buf[..i] == Reversed(old(buf[..i]))
  {
    var j := 0;
    while j < i / 2
      invariant j <= i / 2
      invariant forall k :: 0 <= k < j ==> buf[k] == old(buf[i - 1 - k]) && buf[i - 1 - k] == old(buf[k])
      invariant forall k :: j <= k < i - j ==> buf[k] == old(buf[k])
    {
      var temp := buf[j];
      buf[j] := buf[i - 1 - j];
      buf[i - 1 - j] := temp;
      j := j + 1;
    }
  }

  lemma ReversedSnoc(s: string, c: char)
    ensures Reversed(s + [c]) == [c] + Reversed(s)
  {
  }

  /** The digits still to be produced, before those already produced in reverse. */
  function Remaining(val: nat, base: nat): string
    requires base == 10 || base == 16
  {
    if val > 0 then Digits(val, base) else ""
  }

  lemma NextDigit(val: nat, base: nat, produced: string)
    requires (base == 10 || base == 16) && val > 0
    ensures Remaining(val, base) + Reversed(produced) ==
            Remaining(val / base, base) + Reversed(produced + [HEX_CHARS[val % base]])
  {
    ReversedSnoc(produced, HEX_CHARS[val % base]);
  }

  /** The decimal text of n, after a minus sign if asked for, in the scratch buffer. */
  method DecimalText(buf: array<char>, n: nat, negative: bool) returns (i: nat)
    requires buf.Length == 20 && n < 0x1_0000_0000 && (negative ==> n > 0)
    modifies buf
    ensures i <= 20 && buf[..i] == (if negative then "-" else "") + Digits(n, 10)
  {
    hide Digits, Reversed;
    ScratchSuffices(n, 10);
    i := 0;
    if n == 0 {
      DigitsOfZero(10);
      buf[0] := '0';
      return 1;
    }
    var val: nat := n;
    assert buf[..0] == "" && Reversed("") == "";
    while val > 0
      invariant i <= |Digits(n, 10)| && (val > 0 ==> i < |Digits(n, 10)|)
      invariant Digits(n, 10) == Remaining(val, 10) + Reversed(buf[..i])
    {
      var rem: nat;
      ghost var produced := buf[..i];
      NextDigit(val, 10, produced);
      DigitRoundTrip(val % 10);
      val, rem := DivMod10(val);
      buf[i] := '0' + rem as char;
      i := i + 1;
      assert buf[..i] == produced + ['0' + rem as char];
    }
    ghost var produced := buf[..i];
    if negative {
      ReversedSnoc(produced, '-');
      buf[i] := '-';
      i := i + 1;
      assert buf[..i] == produced + ['-'];
    }
    Reverse(buf, i);
  }

  lemma DigitsOfZero(base: nat)
    requires base == 10 || base == 16
    ensures Digits(0, base) == "0"
  {
  }

  method HexText(buf: array<char>, n: nat) returns (i: nat)
    requires buf.Length == 20 && n < 0x1_0000_0000
    modifies buf
    ensures i <= 20 && buf[..i] == Digits(n, 16)
  {
    hide Digits, Reversed;
    ScratchSuffices(n, 16);
    i := 0;
    if n == 0 {
      DigitsOfZero(16);
      buf[0] := '0';
      return 1;
    }
    var val: nat := n;
    assert buf[..0] == "" && Reversed("") == "";
    while val > 0
      invariant i <= |Digits(n, 16)| && (val > 0 ==> i < |Digits(n, 16)|)
      invariant Digits(n, 16) == Remaining(val, 16) + Reversed(buf[..i])
    {
      ghost var produced := buf[..i];
      NextDigit(val, 16, produced);
      var c := HEX_CHARS[val % 16];
      buf[i] := c;
      i := i + 1;
      val := val / 16;
      assert buf[..i] == produced + [c];
    }
    Reverse(buf, i);
  }

  // ----- the untruncated rendering -----

  /** What a conversion specifier, after its width, stands for. */
  datatype Conversion = AsUnsigned | AsSigned | AsHex | AsText | AsCharacter | Copied(c: char) | Silent

  predicate IsDigit(c: char) { '0' <= c <= '9' }

  /** The number at the start of a format, continuing one already read, and what follows it. */
  function SkipWidth(format: string, width: nat): (r: (nat, string))
    ensures |r.1| <= |format|
  {
    if format != "" && IsDigit(format[0]) then SkipWidth(format[1..], width * 10 + (format[0] - '0') as nat)
    else (width, format)
  }

  /** A conversion specifier, of one or two characters, comes first; a C string holds no NUL. */
  predicate Specifies(spec: string) {
    spec != "" && spec[0] != '\0' && (spec[0] == 'l' ==> |spec| > 1 && spec[1] != '\0')
  }

  /** The long forms differ from the short ones in that anything but u, x and X is dropped. */
  function ConversionOf(spec: string): Conversion
    requires Specifies(spec)
  {
    if spec[0] == 'l' then
      (if spec[1] == 'u' then AsUnsigned else if spec[1] == 'x' || spec[1] == 'X' then AsHex else Silent)
    else if spec[0] == 'u' then AsUnsigned
    else if spec[0] == 'd' then AsSigned
    else if spec[0] == 'x' || spec[0] == 'X' then AsHex
    else if spec[0] == 's' then AsText
    else if spec[0] == 'c' then AsCharacter
    else Copied(spec[0])
  }

  function After(spec: string): (r: string)
    requires Specifies(spec)
    ensures |r| < |spec|
  {
    if spec[0] == 'l' then spec[2..] else spec[1..]
  }

  /** The next argument is there and is one the conversion can fetch. */
  predicate Accepts(c: Conversion, args: seq<Arg>) {
    match c
    case Copied(_) => true
    case Silent => true
    case AsUnsigned => args != [] && args[0].Unsigned? && args[0].n < 0x1_0000_0000
    case AsHex => args != [] && args[0].Unsigned? && args[0].n < 0x1_0000_0000
    case AsSigned => args != [] && args[0].Signed? && -0x8000_0000 < args[0].i < 0x8000_0000
    case AsText => args != [] && args[0].Text? && '\0' !in args[0].s
    case AsCharacter => args != [] && args[0].Character?
  }

  function Fetched(c: Conversion): nat { if c.Copied? || c.Silent? then 0 else 1 }

  function Zeros(n: nat): string { seq(n, _ => '0') }

  /** The text of one conversion. Only hexadecimal numbers heed the width, by leading zeros. */
  function Piece(c: Conversion, width: nat, args: seq<Arg>): string
    requires Accepts(c, args)
  {
    match c
    case AsUnsigned => Digits(args[0].n, 10)
    case AsSigned => if args[0].i < 0 then "-" + Digits(-args[0].i, 10) else Digits(args[0].i, 10)
    case AsHex =>
      var digits := Digits(args[0].n, 16);
      (if width > |digits| then Zeros(width - |digits|) else "") + digits
    case AsText => args[0].s
    case AsCharacter => [args[0].c]
    case Copied(x) => [x]
    case Silent => ""
  }

  /** The format ends neither in a width nor in an l, widths are ints, and the arguments match. A percent
      sign at the very end is dropped, but in a complete format there is none. */
  predicate WellFormed(format: string, args: seq<Arg>, complete: bool := false)
    decreases |format|
  {
    if format == "" then true
    else if format[0] != '%' then format[0] != '\0' && WellFormed(format[1..], args, complete)
    else if |format| == 1 then !complete
    else
      var (width, spec) := SkipWidth(format[1..], 0);
      && width < 0x8000_0000 && Specifies(spec)
      && Accepts(ConversionOf(spec), args)
      && WellFormed(After(spec), args[Fetched(ConversionOf(spec))..], complete)
  }

  function Render(format: string, args: seq<Arg>): string
    requires WellFormed(format, args)
    decreases |format|
  {
    if format == "" then ""
    else if format[0] != '%' then [format[0]] + Render(format[1..], args)
    else if |format| == 1 then ""
    else
      var (width, spec) := SkipWidth(format[1..], 0);
      var c := ConversionOf(spec);
      Piece(c, width, args) + Render(After(spec), args[Fetched(c)..])
  }

  // ----- writing with truncation -----

  function Min(a: nat, b: nat): nat { if a <= b then a else b }

  /** The buffer holds as much of a text as fits before the last byte, and is otherwise untouched. */
  ghost predicate Holds(now: seq<char>, before: seq<char>, size: nat, written: nat, text: string) {
    && 1 <= size <= |before|
    && written == Min(size - 1, |text|)
    && now == text[..written] + before[written..]
  }

  method Put(str: array<char>, size: nat, written: nat, c: char, ghost before: seq<char>, ghost text: string)
    returns (w: nat)
    requires Holds(str[..], before, size, written, text)
    modifies str
    ensures Holds(str[..], before, size, w, text + [c])
  {
    w := written;
    if w < size - 1 {
      str[w] := c;
      w := w + 1;
    }
  }

  /** The loops that copy a string, or the digits in the scratch buffer, while there is room. */
  method PutAll(str: array<char>, size: nat, written: nat, s: string, ghost before: seq<char>, ghost text: string)
    returns (w: nat)
    requires Holds(str[..], before, size, written, text)
    modifies str
    ensures Holds(str[..], before, size, w, text + s)
  {
    w := written;
    var j := 0;
    assert text + s[..0] == text;
    while j < |s| && w < size - 1
      invariant j <= |s| && Holds(str[..], before, size, w, text + s[..j])
    {
      assert text + s[..j + 1] == text + s[..j] + [s[j]];
      w := Put(str, size, w, s[j], before, text + s[..j]);
      j := j + 1;
    }
    if j < |s| {
      Full(str[..], before, size, w, text + s[..j], s[j..]);
    }
    assert text + s[..j] + s[j..] == text + s;
  }

  /** Once the buffer is full, further text changes nothing. */
  lemma Full(now: seq<char>, before: seq<char>, size: nat, written: nat, text: string, more: string)
    requires Holds(now, before, size, written, text) && written >= size - 1
    ensures Holds(now, before, size, written, text + more)
  {
    assert (text + more)[..written] == text[..written];
  }

  method PutZeros(str: array<char>, size: nat, written: nat, n: nat, ghost before: seq<char>, ghost text: string)
    returns (w: nat)
    requires Holds(str[..], before, size, written, text)
    modifies str
    ensures Holds(str[..], before, size, w, text + Zeros(n))
  {
    w := written;
    var padding: nat := n;
    assert text + Zeros(0) == text;
    while padding > 0 && w < size - 1
      invariant padding <= n && Holds(str[..], before, size, w, text + Zeros(n - padding))
    {
      assert text + Zeros(n - padding) + ['0'] == text + Zeros(n - padding + 1);
      w := Put(str, size, w, '0', before, text + Zeros(n - padding));
      padding := padding - 1;
    }
    if padding > 0 {
      Full(str[..], before, size, w, text + Zeros(n - padding), Zeros(padding));
    }
    assert text + Zeros(n - padding) + Zeros(padding) == text + Zeros(n);
  }

  method PutNumber(str: array<char>, size: nat, written: nat, n: nat, negative: bool, ghost before: seq<char>,
                   ghost text: string)
    returns (w: nat)
    requires Holds(str[..], before, size, written, text)
    requires n < 0x1_0000_0000 && (negative ==> n > 0)
    modifies str
    ensures Holds(str[..], before, size, w, text + ((if negative then "-" else "") + Digits(n, 10)))
  {
    hide Holds, Digits;
    var buf := new char[20];
    var i := DecimalText(buf, n, negative);
    w := PutAll(str, size, written, buf[..i], before, text);
  }

  method PutHex(str: array<char>, size: nat, written: nat, n: nat, width: nat, ghost before: seq<char>,
                ghost text: string)
    returns (w: nat)
    requires Holds(str[..], before, size, written, text) && n < 0x1_0000_0000
    modifies str
    ensures Holds(str[..], before, size, w, text + Piece(AsHex, width, [Unsigned(n)]))
  {
    hide Holds, Digits;
    var buf := new char[20];
    var i := HexText(buf, n);
    w := written;
    ghost var padded := text;
    if width > i {
      w := PutZeros(str, size, w, width - i, before, text);
      padded := text + Zeros(width - i);
    }
    w := PutAll(str, size, w, buf[..i], before, padded);
    assert padded + buf[..i] == text + Piece(AsHex, width, [Unsigned(n)]);
  }

  method Convert(str: array<char>, size: nat, written: nat, spec: string, width: nat, args: seq<Arg>,
                 ghost before: seq<char>, ghost text: string)
    returns (w: nat, rest: string, ap: seq<Arg>)
    requires Holds(str[..], before, size, written, text)
    requires Specifies(spec) && Accepts(ConversionOf(spec), args)
    modifies str
    ensures Holds(str[..], before, size, w, text + Piece(ConversionOf(spec), width, args))
    ensures rest == After(spec) && ap == args[Fetched(ConversionOf(spec))..]
  {
    hide Holds, Digits;
    w, rest, ap := written, spec, args;
    ghost var piece := Piece(ConversionOf(spec), width, args);
    match rest[0]
    case 'l' =>
      rest := rest[1..];
      if rest[0] == 'u' {
        w := PutNumber(str, size, w, ap[0].n, false, before, text);
        assert "" + Digits(args[0].n, 10) == Digits(args[0].n, 10);
        ap := ap[1..];
      } else if rest[0] == 'X' || rest[0] == 'x' {
        w := PutHex(str, size, w, ap[0].n, width, before, text);
        ap := ap[1..];
      } else {
        assert text + piece == text;
      }
      rest := rest[1..];
    case 's' =>
      w := PutAll(str, size, w, ap[0].s, before, text);
      rest, ap := rest[1..], ap[1..];
    case 'c' =>
      w := Put(str, size, w, ap[0].c, before, text);
      rest, ap := rest[1..], ap[1..];
    case 'd' =>
      var val := ap[0].i;
      w := PutNumber(str, size, w, if val < 0 then -val else val, val < 0, before, text);
      assert "" + Digits(if val < 0 then -val else val, 10) == Digits(if val < 0 then -val else val, 10);
      rest, ap := rest[1..], ap[1..];
    case 'u' =>
      w := PutNumber(str, size, w, ap[0].n, false, before, text);
      assert "" + Digits(args[0].n, 10) == Digits(args[0].n, 10);
      rest, ap := rest[1..], ap[1..];
    case 'X' =>
      w := PutHex(str, size, w, ap[0].n, width, before, text);
      rest, ap := rest[1..], ap[1..];
    case 'x' =>
      w := PutHex(str, size, w, ap[0].n, width, before, text);
      rest, ap := rest[1..], ap[1..];
    case c =>
      w := Put(str, size, w, c, before, text);
      rest := rest[1..];
  }

  /** The digits between a percent sign and its specifier. */
  method ReadWidth(format: string) returns (width: nat, rest: string)
    ensures (width, rest) == SkipWidth(format, 0)
  {
    width, rest := 0, format;
    while rest != "" && IsDigit(rest[0])
      invariant SkipWidth(rest, width) == SkipWidth(format, 0)
      decreases |rest|
    {
      width := width * 10 + (rest[0] - '0') as nat;
      rest := rest[1..];
    }
  }

  /** One directive of a format, or one character of it, and what is left. */
  lemma NextPiece(format: string, args: seq<Arg>)
    requires WellFormed(format, args) && format != ""
    ensures format[0] != '%' ==>
              WellFormed(format[1..], args) && Render(format, args) == [format[0]] + Render(format[1..], args)
    ensures format == "%" ==> Render(format, args) == ""
    ensures format[0] == '%' && |format| > 1 ==>
              var (width, spec) := SkipWidth(format[1..], 0);
              && Specifies(spec) && |After(spec)| < |format|
              && Accepts(ConversionOf(spec), args)
              && WellFormed(After(spec), args[Fetched(ConversionOf(spec))..])
              && Render(format, args) == Piece(ConversionOf(spec), width, args)
                                         + Render(After(spec), args[Fetched(ConversionOf(spec))..])
  {
    hide Digits, SkipWidth;
  }

  lemma Joined(whole: string, text: string, piece: string, rest: string, old_rest: string)
    requires whole == text + old_rest && old_rest == piece + rest
    ensures whole == text + piece + rest
  {
  }

  /** The refinement theorem: for every well-formed format, the buffer gets as much of the rendering as
      fits before the NUL that ends it, and the number of characters written is returned. */
  method Vsnprintf(str: array<char>, size: nat, format: string, args: seq<Arg>) returns (written: nat)
    requires 1 <= size <= str.Length && WellFormed(format, args)
    modifies str
    ensures var text := Render(format, args);
            && written == Min(size - 1, |text|)
            && str[..] == text[..written] + ['\0'] + old(str[..])[written + 1..]
  {
    hide Render, WellFormed;
    ghost var before := str[..];
    written := Body(str, size, format, args);
    Ended(str[..], before, size, written, Render(format, args));
    ghost var now := str[..];
    str[written] := '\0';
    assert str[..] == now[written := '\0'];
  }

  lemma Ended(now: seq<char>, before: seq<char>, size: nat, written: nat, text: string)
    requires Holds(now, before, size, written, text)
    ensures |now| == |before| && written < size && written <= |text|
    ensures now[written := '\0'] == text[..written] + ['\0'] + before[written + 1..]
  {
  }

  /** All but the final NUL. */
  method Body(str: array<char>, size: nat, format: string, args: seq<Arg>) returns (written: nat)
    requires 1 <= size <= str.Length && WellFormed(format, args)
    modifies str
    ensures Holds(str[..], old(str[..]), size, written, Render(format, args))
  {
    hide WellFormed, Render, Digits, Piece, Holds, SkipWidth, ConversionOf, After, Accepts;
    written := 0;
    ghost var before := str[..];
    ghost var text := "";
    NothingYet(before, size);
    ghost var whole := Render(format, args);
    assert whole == text + whole;
    var fmt, ap := format, args;
    while fmt != "" && written < size - 1
      invariant WellFormed(fmt, ap) && whole == text + Render(fmt, ap)
      invariant Holds(str[..], before, size, written, text)
      decreases |fmt|
    {
      NextPiece(fmt, ap);
      ghost var remaining := Render(fmt, ap);
      if fmt[0] != '%' {
        written := Put(str, size, written, fmt[0], before, text);
        Joined(whole, text, [fmt[0]], Render(fmt[1..], ap), remaining);
        text, fmt := text + [fmt[0]], fmt[1..];
      } else if |fmt| == 1 {
        assert fmt == "%" && text + "" == text;
        return;
      } else {
        var width, spec := ReadWidth(fmt[1..]);
        ghost var piece := Piece(ConversionOf(spec), width, ap);
        written, fmt, ap := Convert(str, size, written, spec, width, ap, before, text);
        Joined(whole, text, piece, Render(fmt, ap), remaining);
        text := text + piece;
      }
    }
    Stopped(str[..], before, size, written, text, fmt, ap);
  }

  lemma NothingYet(before: seq<char>, size: nat)
    requires 1 <= size <= |before|
    ensures Holds(before, before, size, 0, "")
  {
    assert before == ""[..0] + before[0..];
  }

  lemma Stopped(now: seq<char>, before: seq<char>, size: nat, written: nat, text: string, fmt: string, ap: seq<Arg>)
    requires WellFormed(fmt, ap) && Holds(now, before, size, written, text) && (fmt == "" || written >= size - 1)
    ensures Holds(now, before, size, written, text + Render(fmt, ap))
  {
    if fmt == "" {
      assert text + "" == text;
    } else {
      Full(now, before, size, written, text, Render(fmt, ap));
    }
  }

  /** printf sends to the UART at most the first 1023 characters of the rendering. */
  method Printf(format: string, args: seq<Arg>) returns (sent: string, result: nat)
    requires WellFormed(format, args)
    ensures var text := Render(format, args);
            result == Min(1023, |text|) && sent == text[..result]
  {
    hide Render, WellFormed;
    var buffer := new char[1024];
    result := Vsnprintf(buffer, 1024, format, args);
    sent := buffer[..result];
  }

  lemma {:induction false} LeadingZeros(k: nat, s: string, base: nat)
    ensures Value(Zeros(k) + s, base) == Value(s, base)
  {
    if s != "" {
      assert (Zeros(k) + s)[..k + |s| - 1] == Zeros(k) + s[..|s| - 1];
      LeadingZeros(k, s[..|s| - 1], base);
    } else {
      assert Zeros(k) + s == Zeros(k);
      ZerosAreZero(k, base);
    }
  }

  lemma {:induction false} ZerosAreZero(k: nat, base: nat)
    ensures Value(Zeros(k), base) == 0
  {
    if k == 0 {
    } else {
      assert Zeros(k)[..k - 1] == Zeros(k - 1);
      ZerosAreZero(k - 1, base);
    }
  }

  /** A hexadecimal conversion is as wide as asked for, or as the number needs, and reads as the number;
      without a width it has no leading zero. */
  lemma HexPiece(n: nat, width: nat)
    requires n < 0x1_0000_0000
    ensures var p := Piece(AsHex, width, [Unsigned(n)]);
            && Value(p, 16) == n
            && |p| == (if width > |Digits(n, 16)| then width else |Digits(n, 16)|)
            && (width == 0 && n > 0 ==> p[0] != '0')
  {
    hide Digits, Value;
    NumberRoundTrip(n, 16);
    var digits := Digits(n, 16);
    if width > |digits| {
      LeadingZeros(width - |digits|, digits, 16);
    } else {
      assert "" + digits == digits;
    }
  }

  /** Without a width a hexadecimal conversion has the eight digits that the comment promises exactly for
      the numbers that need them; zero has one. */
  lemma EightDigitsIff(n: nat)
    requires n < 0x1_0000_0000
    ensures |Piece(AsHex, 0, [Unsigned(n)])| == 8 <==> n >= 0x1000_0000
    ensures Piece(AsHex, 0, [Unsigned(0)]) == "0"
  {
    hide Digits;
    DigitsOfZero(16);
    ScratchSuffices(n, 16);
    assert Power(16, 7) == 0x1000_0000 by {
      assert Power(16, 4) == 0x1_0000;
    }
    if n >= 0x1000_0000 {
      AtLeast(n, 16, 8);
    } else {
      DigitCount(n, 16, 7);
    }
  }

  /** A number of at least a power of the base has more digits than the power. */
  lemma {:induction false} AtLeast(n: nat, base: nat, k: nat)
    requires (base == 10 || base == 16) && k > 0 && n >= Power(base, k - 1)
    ensures |Digits(n, base)| >= k
  {
    if k == 1 {
    } else {
      PositivePower(base, k - 2);
      Quotiented(n, base, Power(base, k - 2));
      AtLeast(n / base, base, k - 1);
    }
  }

  lemma {:induction false} PositivePower(base: nat, k: nat)
    requires base > 0
    ensures Power(base, k) > 0
  {
    if k == 0 {
    } else {
      PositivePower(base, k - 1);
    }
  }

  lemma Quotiented(n: nat, base: nat, p: nat)
    requires (base == 10 || base == 16) && n >= base * p
    ensures n / base >= p && (p > 0 ==> n >= base)
  {
    if base == 10 {
      assert n >= 10 * p;
    } else {
      assert n >= 16 * p;
    }
  }

  /** A width changes the text of a conversion exactly if that is hexadecimal and shorter. */
  lemma WidthHeededIff(c: Conversion, width: nat, args: seq<Arg>)
    requires Accepts(c, args)
    ensures Piece(c, width, args) != Piece(c, 0, args) <==> c.AsHex? && width > |Digits(args[0].n, 16)|
  {
    hide Digits;
    if c.AsHex? {
      var digits := Digits(args[0].n, 16);
      assert "" + digits == digits;
      assert width > |digits| ==> |Zeros(width - |digits|) + digits| == width;
    }
  }

  /** The conversion of a format that starts with a long form. */
  lemma LongForm(c: char, rest: string, args: seq<Arg>)
    requires c != '\0'
    ensures var format, conversion := "%l" + [c] + rest, ConversionOf("l" + [c]);
            && (WellFormed(format, args) <==>
                Accepts(conversion, args) && WellFormed(rest, args[Fetched(conversion)..]))
            && (WellFormed(format, args) ==>
                Render(format, args) == Piece(conversion, 0, args) + Render(rest, args[Fetched(conversion)..]))
  {
    hide Digits, Accepts, Piece;
    var format, spec := "%l" + [c] + rest, "l" + [c] + rest;
    assert format[1..] == spec && spec[2..] == rest;
    assert SkipWidth(spec, 0) == (0, spec);
    assert ConversionOf(spec) == ConversionOf("l" + [c]);
  }

  ghost predicate IsDropped(c: char) {
    forall rest, args :: WellFormed(rest, args) ==>
      WellFormed("%l" + [c] + rest, args) && Render("%l" + [c] + rest, args) == Render(rest, args)
  }

  /** A long form is dropped silently, whatever follows it, exactly if it is none of the three known. */
  lemma LongDroppedIff(c: char)
    requires c != '\0'
    ensures IsDropped(c) <==> c != 'u' && c != 'x' && c != 'X'
  {
    hide WellFormed, Render;
    if c == 'u' || c == 'x' || c == 'X' {
      EmptyFormat("");
      LongForm(c, "", []);
      assert !WellFormed("%l" + [c] + "", []);
    } else {
      forall rest: string, args: seq<Arg> | WellFormed(rest, args)
        ensures WellFormed("%l" + [c] + rest, args) && Render("%l" + [c] + rest, args) == Render(rest, args)
      {
        LongForm(c, rest, args);
        assert "" + Render(rest, args) == Render(rest, args);
        assert args[0..] == args;
      }
    }
  }

  /** A text with its percent signs doubled. */
  function Escaped(s: string): string {
    if s == "" then "" else (if s[0] == '%' then "%%" else [s[0]]) + Escaped(s[1..])
  }

  lemma PercentSpec(rest: string)
    ensures var spec := "%" + rest;
            SkipWidth(spec, 0) == (0, spec) && ConversionOf(spec) == Copied('%') && After(spec) == rest
  {
  }

  lemma PercentPiece()
    ensures Piece(Copied('%'), 0, []) == "%"
  {
  }

  lemma PercentStep(rest: string)
    requires WellFormed(rest, [])
    ensures WellFormed("%%" + rest, []) && Render("%%" + rest, []) == "%" + Render(rest, [])
  {
    hide Digits, Piece, SkipWidth, ConversionOf, After;
    var format := "%%" + rest;
    assert format[0] == '%' && format[1..] == "%" + rest;
    PercentSpec(rest);
    PercentPiece();
    var none: seq<Arg> := [];
    assert none[Fetched(Copied('%'))..] == none;
  }

  lemma LiteralStep(c: char, rest: string)
    requires WellFormed(rest, []) && c != '%' && c != '\0'
    ensures WellFormed([c] + rest, []) && Render([c] + rest, []) == [c] + Render(rest, [])
  {
    assert ([c] + rest)[1..] == rest;
  }

  /** Any text can be printed: as a format, with its percent signs doubled, it renders as itself. */
  lemma {:induction false} EscapedText(s: string)
    requires '\0' !in s
    ensures WellFormed(Escaped(s), []) && Render(Escaped(s), []) == s
  {
    hide WellFormed, Render;
    if s == "" {
      EmptyFormat(Escaped(s));
    } else {
      EscapedText(s[1..]);
      if s[0] == '%' {
        PercentStep(Escaped(s[1..]));
      } else {
        LiteralStep(s[0], Escaped(s[1..]));
      }
    }
  }

  lemma EmptyFormat(format: string)
    requires format == ""
    ensures WellFormed(format, []) && Render(format, []) == ""
  {
  }

  // ----- what each directive prints -----

  /** The characters of the digits. */
  lemma DigitCharacter(d: nat)
    requires d < 16
    ensures HEX_CHARS[d] == if d < 10 then '0' + d as char else 'A' + (d - 10) as char
  {
  }

  /** Only the digits 0 to 9 are read as a width. */
  lemma DigitsRead(c: char)
    ensures IsDigit(c) <==> c in "0123456789"
  {
  }

  lemma OneDigitRead(k: nat, width: nat, rest: string)
    requires k < 10
    ensures SkipWidth([HEX_CHARS[k]] + rest, width) == SkipWidth(rest, width * 10 + k)
  {
    var s := [HEX_CHARS[k]] + rest;
    DigitCharacter(k);
    assert s[0] == '0' + k as char && s[1..] == rest;
  }

  /** Reading a width goes through the digits of a number and ends up with the number. */
  lemma {:induction false} WidthOfDigits(w: nat, rest: string)
    ensures SkipWidth(Digits(w, 10) + rest, 0) == SkipWidth(rest, w)
  {
    hide SkipWidth;
    if w < 10 {
      OneDigitRead(w, 0, rest);
      assert Digits(w, 10) == [HEX_CHARS[w]];
    } else {
      var d := [HEX_CHARS[w % 10]];
      WidthOfDigits(w / 10, d + rest);
      OneDigitRead(w % 10, w / 10, rest);
      assert Digits(w, 10) + rest == Digits(w / 10, 10) + (d + rest);
    }
  }

  /** The width of a directive is its decimal number, after any zeros. */
  lemma WidthRead(w: nat, rest: string)
    requires rest != "" && rest[0] !in "0123456789"
    ensures SkipWidth(Digits(w, 10) + rest, 0) == (w, rest) == SkipWidth("0" + Digits(w, 10) + rest, 0)
    ensures SkipWidth(rest, 0) == (0, rest)
  {
    hide Digits, IsDigit;
    DigitsRead(rest[0]);
    DigitsRead('0');
    WidthOfDigits(w, rest);
    var s := "0" + Digits(w, 10) + rest;
    assert s[0] == '0' && s[1..] == Digits(w, 10) + rest;
  }

  lemma OneDirective(width: string, w: nat, spec: string, args: seq<Arg>)
    requires spec != "" && Specifies(spec) && After(spec) == "" && w < 0x8000_0000
    requires SkipWidth(width + spec, 0) == (w, spec) && Accepts(ConversionOf(spec), args)
    ensures WellFormed("%" + width + spec, args)
    ensures Render("%" + width + spec, args) == Piece(ConversionOf(spec), w, args)
  {
    hide Digits, SkipWidth, Piece, Accepts, ConversionOf, After, Specifies;
    var format := "%" + width + spec;
    assert format[0] == '%' && format[1..] == width + spec;
    PieceConcat(ConversionOf(spec), w, args, []);
    var left := args[Fetched(ConversionOf(spec))..];
    assert WellFormed("", left) && Render("", left) == "";
    assert Piece(ConversionOf(spec), w, args) + "" == Piece(ConversionOf(spec), w, args);
  }

  lemma NoWidth(spec: string)
    requires spec != "" && spec[0] !in "0123456789"
    ensures SkipWidth("" + spec, 0) == (0, spec)
  {
    hide Digits;
    assert "" + spec == spec;
    WidthRead(0, spec);
  }

  /** The decimal directives. */
  lemma DecimalPrinted(n: nat, i: int)
    requires n < 0x1_0000_0000 && -0x8000_0000 < i < 0x8000_0000
    ensures WellFormed("%u", [Unsigned(n)]) && Render("%u", [Unsigned(n)]) == Digits(n, 10)
    ensures WellFormed("%lu", [Unsigned(n)]) && Render("%lu", [Unsigned(n)]) == Digits(n, 10)
    ensures WellFormed("%d", [Signed(i)])
    ensures i >= 0 ==> Render("%d", [Signed(i)]) == Digits(i, 10)
    ensures i < 0 ==> Render("%d", [Signed(i)]) == "-" + Digits(-i, 10)
  {
    hide Digits, WellFormed, Render, SkipWidth;
    NoWidth("u");
    NoWidth("lu");
    NoWidth("d");
    OneDirective("", 0, "u", [Unsigned(n)]);
    OneDirective("", 0, "lu", [Unsigned(n)]);
    OneDirective("", 0, "d", [Signed(i)]);
    assert "%" + "" + "u" == "%u" && "%" + "" + "lu" == "%lu" && "%" + "" + "d" == "%d";
  }

  /** The hexadecimal directives, with any width: the digits, after as many zeros as are missing. */
  lemma HexPrinted(n: nat, w: nat)
    requires n < 0x1_0000_0000 && w < 0x8000_0000
    ensures var d := Digits(n, 16);
            var text := (if w > |d| then seq(w - |d|, _ => '0') else "") + d;
            && WellFormed("%" + Digits(w, 10) + "x", [Unsigned(n)])
            && Render("%" + Digits(w, 10) + "x", [Unsigned(n)]) == text
            && WellFormed("%" + Digits(w, 10) + "X", [Unsigned(n)])
            && Render("%" + Digits(w, 10) + "X", [Unsigned(n)]) == text
            && WellFormed("%" + Digits(w, 10) + "lx", [Unsigned(n)])
            && Render("%" + Digits(w, 10) + "lx", [Unsigned(n)]) == text
  {
    hide Digits, WellFormed, Render, SkipWidth;
    WidthRead(w, "x");
    WidthRead(w, "X");
    WidthRead(w, "lx");
    OneDirective(Digits(w, 10), w, "x", [Unsigned(n)]);
    OneDirective(Digits(w, 10), w, "X", [Unsigned(n)]);
    OneDirective(Digits(w, 10), w, "lx", [Unsigned(n)]);
  }

  /** The directives for texts and characters; any other character stands for itself. */
  lemma TextPrinted(s: string, c: char)
    requires '\0' !in s
    ensures WellFormed("%s", [Text(s)]) && Render("%s", [Text(s)]) == s
    ensures WellFormed("%c", [Character(c)]) && Render("%c", [Character(c)]) == [c]
    ensures c != '\0' && c !in "0123456789udxXscl" ==> WellFormed("%" + [c], []) && Render("%" + [c], []) == [c]
  {
    hide Digits, WellFormed, Render, SkipWidth;
    NoWidth("s");
    NoWidth("c");
    OneDirective("", 0, "s", [Text(s)]);
    OneDirective("", 0, "c", [Character(c)]);
    assert "%" + "" + "s" == "%s" && "%" + "" + "c" == "%c";
    if c != '\0' && c !in "0123456789udxXscl" {
      NoWidth([c]);
      OtherCharacter(c);
      OneDirective("", 0, [c], []);
      assert "%" + "" + [c] == "%" + [c];
    }
  }

  lemma OtherCharacter(c: char)
    requires c != '\0' && c !in "udxXscl"
    ensures ConversionOf([c]) == Copied(c)
  {
    assert c != 'l' && c != 'u' && c != 'd' && c != 'x' && c != 'X' && c != 's' && c != 'c';
  }

  // ----- formats in parts -----

  lemma {:induction false} SkipWidthConcat(f: string, width: nat, g: string)
    requires SkipWidth(f, width).1 != ""
    ensures var (w, spec) := SkipWidth(f, width);
            SkipWidth(f + g, width) == (w, spec + g)
  {
    if f == "" || !IsDigit(f[0]) {
    } else {
      assert (f + g)[1..] == f[1..] + g;
      SkipWidthConcat(f[1..], width * 10 + (f[0] - '0') as nat, g);
    }
  }

  lemma SpecConcat(spec: string, g: string)
    requires Specifies(spec)
    ensures ConversionOf(spec + g) == ConversionOf(spec) && After(spec + g) == After(spec) + g
  {
  }

  lemma PieceConcat(c: Conversion, width: nat, a: seq<Arg>, b: seq<Arg>)
    requires Accepts(c, a)
    ensures Fetched(c) <= |a| && Accepts(c, a + b) && Piece(c, width, a + b) == Piece(c, width, a)
    ensures (a + b)[Fetched(c)..] == a[Fetched(c)..] + b
  {
    hide Digits, Zeros;
  }

  /** A format in two parts, the first of which is complete, renders as its parts do, the second with the
      arguments that the first has left. */
  lemma {:induction false} RenderConcat(f: string, a: seq<Arg>, g: string, b: seq<Arg>)
    requires WellFormed(f, a, true) && WellFormed(g, Left(f, a) + b)
    ensures WellFormed(f, a) && WellFormed(f + g, a + b)
    ensures Render(f + g, a + b) == Render(f, a) + Render(g, Left(f, a) + b)
    decreases |f|
  {
    hide Digits, Piece, ConversionOf, After, Accepts, SkipWidth;
    if f == "" {
      assert f + g == g && "" + Render(g, a + b) == Render(g, a + b);
    } else if f[0] != '%' {
      assert (f + g)[1..] == f[1..] + g;
      RenderConcat(f[1..], a, g, b);
    } else {
      var (width, spec) := SkipWidth(f[1..], 0);
      var c := ConversionOf(spec);
      assert (f + g)[1..] == f[1..] + g;
      SkipWidthConcat(f[1..], 0, g);
      SpecConcat(spec, g);
      PieceConcat(c, width, a, b);
      RenderConcat(After(spec), a[Fetched(c)..], g, b);
    }
  }

  /** The arguments that a format does not fetch. */
  function Left(format: string, args: seq<Arg>): seq<Arg>
    requires WellFormed(format, args, true)
    decreases |format|
  {
    if format == "" then args
    else if format[0] != '%' then Left(format[1..], args)
    else
      var spec := SkipWidth(format[1..], 0).1;
      Left(After(spec), args[Fetched(ConversionOf(spec))..])
  }
}
