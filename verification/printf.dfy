/** Formatted console output: the format-scanning loop. A format string is its characters up to, and
    not including, the terminator; reading the character just past them reads the terminator. */
module Printf {
  import opened Wrappers
  import opened Digits
  import opened Debug

  const NUL: char := 0 as char
  const MAX_WIDTH: nat := 256

  /** What va_arg finds: a word of 64 bits, or a pointer to a string (NULL is None). */
  datatype Arg = Word(value: nat) | Text(text: Option<string>)

  // ----- One directive -----

  /** The length modifiers. An int takes the low half of a word; all others take the whole. */
  datatype Length = Int | Long | LongLong | Size | IntMax | PtrDiff | Ptr

  /** A directive, from its first flag on: the index of its conversion character is `at`. */
  datatype Directive = Directive(flags: bv8, width: nat, length: Length, conv: char, at: nat)

  predicate InString(fmt: string, i: nat) {
    i <= |fmt|
  }

  function CharAt(fmt: string, i: nat): char
    requires InString(fmt, i)
  {
    if i < |fmt| then fmt[i] else NUL
  }

  predicate IsFormat(fmt: string) {
    NUL !in fmt
  }

  function FlagOf(c: char): bv8 {
    match c
    case '-' => LEFT_ALIGN
    case '+' => PLUS_FOR_POSITIVE
    case ' ' => SPACE_FOR_POSITIVE
    case '0' => PREPEND_ZEROES
    case '\'' => THOUSANDS_GROUPING
    case '#' => SPECIAL_HASH
    case _ => 0
  }

  /** The flags after one more character of a directive. */
  function WithFlag(flags: bv8, c: char): bv8 {
    flags | FlagOf(c)
  }

  predicate IsDigit(c: char) {
    '0' <= c <= '9'
  }

  function DigitOf(c: char): nat
    requires IsDigit(c)
  {
    (c as int) - ('0' as int)
  }

  /** The flags from index i on, added to those seen, and the index of the first character that adds
      none: one that is no flag, or a flag for the second time. */
  ghost function FlagsFrom(fmt: string, i: nat, flags: bv8): (r: (bv8, nat))
    requires InString(fmt, i)
    ensures i <= r.1 && InString(fmt, r.1)
    decreases |fmt| - i
  {
    if i == |fmt| || WithFlag(flags, fmt[i]) == flags then (flags, i)
    else FlagsFrom(fmt, i + 1, WithFlag(flags, fmt[i]))
  }

  /** The decimal number from index i on, continuing `width`, and the index after it. */
  ghost function WidthFrom(fmt: string, i: nat, width: nat): (r: (nat, nat))
    requires InString(fmt, i)
    ensures i <= r.1 && InString(fmt, r.1)
    decreases |fmt| - i
  {
    if i < |fmt| && IsDigit(fmt[i]) then WidthFrom(fmt, i + 1, width * 10 + DigitOf(fmt[i])) else (width, i)
  }

  /** The length modifier at index i, and the index after it. */
  function LengthAt(fmt: string, i: nat): (r: (Length, nat))
    requires InString(fmt, i)
    ensures i <= r.1 && InString(fmt, r.1)
  {
    if i == |fmt| then (Int, i)
    else match fmt[i]
      case 'h' => (Int, if CharAt(fmt, i + 1) == 'h' then i + 2 else i + 1)
      case 'l' => if CharAt(fmt, i + 1) == 'l' then (LongLong, i + 2) else (Long, i + 1)
      case 'z' => (Size, i + 1)
      case 'j' => (IntMax, i + 1)
      case 't' => (PtrDiff, i + 1)
      case 'p' => (Ptr, i)
      case 's' => (Ptr, i)
      case _ => (Int, i)
  }

  /** The directive whose '%' is at index i. */
  ghost function DirectiveAt(fmt: string, i: nat): (d: Directive)
    requires i < |fmt|
    ensures i < d.at && InString(fmt, d.at) && d.conv == CharAt(fmt, d.at) && d.width <= MAX_WIDTH
  {
    var flags := FlagsFrom(fmt, i + 1, 0);
    var width := WidthFrom(fmt, flags.1, 0);
    var length := LengthAt(fmt, width.1);
    Directive(flags.0, if width.0 > MAX_WIDTH then MAX_WIDTH else width.0, length.0, CharAt(fmt, length.1), length.1)
  }

  // ----- What a directive prints -----

  predicate IsInteger(conv: char) {
    conv in "diuxXocp"
  }

  /** The value an integer conversion prints, as a uintmax_t. */
  function ValueOf(d: Directive, word: nat): (v: nat)
    requires word < WORD
    ensures v < WORD
  {
    if d.conv == 'p' || d.length != Int then word
    else
      var low := word % 0x1_0000_0000;
      if (d.conv == 'd' || d.conv == 'i') && low >= 0x8000_0000 then low + (WORD - 0x1_0000_0000) else low
  }

  function BaseOf(conv: char): nat {
    if conv in "xXp" then 16 else if conv == 'o' then 8 else 10
  }

  function IsSigned(conv: char): bool {
    conv in "di"
  }

  function IsUpper(conv: char): bool {
    conv in "Xp"
  }

  /** The argument is of the kind the conversion takes. */
  predicate Fits(conv: char, arg: Arg) {
    && (IsInteger(conv) ==> arg.Word? && arg.value < WORD)
    && (conv == 's' ==> arg.Text?)
  }

  predicate TakesArg(conv: char) {
    IsInteger(conv) || conv == 's'
  }

  ghost function IntegerText(d: Directive, word: nat): (s: string)
    requires IsInteger(d.conv) && d.conv != 'c' && word < WORD
  {
    var v, base := ValueOf(d, word), BaseOf(d.conv);
    Framed(v, d.flags, d.width, base, IsSigned(d.conv), IsUpper(d.conv),
           Spell(Printed(Magnitude(v, IsSigned(d.conv)), base), IsUpper(d.conv)))
  }

  /** The characters of a '#' prefix, which the returned count leaves out. */
  ghost function PrefixLength(d: Directive): nat {
    if IsInteger(d.conv) && d.conv != 'c' then |PrefixText(d.flags, BaseOf(d.conv), IsUpper(d.conv))| else 0
  }

  ghost function DirectiveText(d: Directive, arg: Arg): (s: string)
    requires Fits(d.conv, arg)
  {
    if d.conv == '%' then "%"
    else if d.conv == 'c' then [(ValueOf(d, arg.value) % 256) as char]
    else if IsInteger(d.conv) then IntegerText(d, arg.value)
    else if d.conv == 's' then (if arg.text.None? then "(null)" else arg.text.value)
    else ""
  }

  /** An int argument is printed as the int it is: the low half of the word, sign and all. */
  lemma IntIsSignExtended(d: Directive, word: nat)
    requires IsSigned(d.conv) && d.length == Int && word < WORD
    ensures Signed(ValueOf(d, word)) ==
            var low: int := word % 0x1_0000_0000; if low < 0x8000_0000 then low else low - 0x1_0000_0000
  {
  }

  /** Integer conversions spell the numeral of their value, in base ten, sixteen or eight: always for
      d, i, x, X and p; for u below 10^19; for o below 2^63. */
  lemma ConversionsAreExact(d: Directive, word: nat)
    requires IsInteger(d.conv) && d.conv != 'c' && word < WORD
    requires d.conv == 'u' ==> ValueOf(d, word) < 10_000_000_000_000_000_000
    requires d.conv == 'o' ==> ValueOf(d, word) < WORD / 2
    ensures var v, base, upper := ValueOf(d, word), BaseOf(d.conv), IsUpper(d.conv);
            var ds := Numeral(Magnitude(v, IsSigned(d.conv)), base);
            && AreDigits(ds, 16) && Parse(ds, base) == Magnitude(v, IsSigned(d.conv))
            && IntegerText(d, word) == Framed(v, d.flags, d.width, base, IsSigned(d.conv), upper, Spell(ds, upper))
  {
    UsualNumbersAreExact(ValueOf(d, word), BaseOf(d.conv), IsSigned(d.conv));
    ParseNumeral(Magnitude(ValueOf(d, word), IsSigned(d.conv)), BaseOf(d.conv));
  }

  /** What is returned for one directive: the code of '%' instead of 1 for a percent sign, and the
      characters of an integer without those of a '#' prefix. */
  ghost function DirectiveCount(d: Directive, arg: Arg): int
    requires Fits(d.conv, arg)
  {
    if d.conv == '%' then '%' as int else |DirectiveText(d, arg)| - PrefixLength(d)
  }

  // ----- What a format prints -----

  const NO_ARG: Arg := Text(None)

  /** The argument the next directive looks at; a directive that takes none does not look. */
  function NextArg(d: Directive, args: seq<Arg>): Arg
    requires TakesArg(d.conv) ==> args != []
  {
    if TakesArg(d.conv) then args[0] else NO_ARG
  }

  function RestArgs(d: Directive, args: seq<Arg>): seq<Arg>
    requires TakesArg(d.conv) ==> args != []
  {
    if TakesArg(d.conv) then args[1..] else args
  }

  /** From index i on, every conversion finds an argument of its kind. */
  ghost predicate WellTyped(fmt: string, i: nat, args: seq<Arg>)
    decreases |fmt| + 1 - i
  {
    if i >= |fmt| then true
    else if fmt[i] != '%' then WellTyped(fmt, i + 1, args)
    else
      var d := DirectiveAt(fmt, i);
      (TakesArg(d.conv) ==> args != []) && Fits(d.conv, NextArg(d, args)) && WellTyped(fmt, d.at + 1, RestArgs(d, args))
  }

  /** The text printed from index i on. */
  ghost function Formatted(fmt: string, i: nat, args: seq<Arg>): string
    requires WellTyped(fmt, i, args)
    decreases |fmt| + 1 - i
  {
    if i >= |fmt| then ""
    else if fmt[i] != '%' then [fmt[i]] + Formatted(fmt, i + 1, args)
    else
      var d := DirectiveAt(fmt, i);
      DirectiveText(d, NextArg(d, args)) + Formatted(fmt, d.at + 1, RestArgs(d, args))
  }

  ghost function Returned(fmt: string, i: nat, args: seq<Arg>): int
    requires WellTyped(fmt, i, args)
    decreases |fmt| + 1 - i
  {
    if i >= |fmt| then 0
    else if fmt[i] != '%' then 1 + Returned(fmt, i + 1, args)
    else
      var d := DirectiveAt(fmt, i);
      DirectiveCount(d, NextArg(d, args)) + Returned(fmt, d.at + 1, RestArgs(d, args))
  }

  /** How many directives from index i on print a percent sign. */
  ghost function Percents(fmt: string, i: nat): nat
    decreases |fmt| + 1 - i
  {
    if i >= |fmt| then 0
    else if fmt[i] != '%' then Percents(fmt, i + 1)
    else
      var d := DirectiveAt(fmt, i);
      (if d.conv == '%' then 1 else 0) + Percents(fmt, d.at + 1)
  }

  /** How many characters of '#' prefixes the directives from index i on print. */
  ghost function Prefixes(fmt: string, i: nat): nat
    decreases |fmt| + 1 - i
  {
    if i >= |fmt| then 0
    else if fmt[i] != '%' then Prefixes(fmt, i + 1)
    else
      var d := DirectiveAt(fmt, i);
      PrefixLength(d) + Prefixes(fmt, d.at + 1)
  }

  /** The count returned is the number of characters printed, but for two slips: every percent sign
      counts as 37, and the characters of '#' prefixes do not count. */
  lemma {:induction false} ReturnedIsLength(fmt: string, i: nat, args: seq<Arg>)
    requires WellTyped(fmt, i, args)
    ensures Returned(fmt, i, args) == |Formatted(fmt, i, args)| + 36 * Percents(fmt, i) - Prefixes(fmt, i)
    decreases |fmt| + 1 - i
  {
    if i < |fmt| {
      if fmt[i] != '%' {
        ReturnedIsLength(fmt, i + 1, args);
      } else {
        var d := DirectiveAt(fmt, i);
        ReturnedIsLength(fmt, d.at + 1, RestArgs(d, args));
      }
    }
  }

  lemma {:induction false} FlagsNeedHash(fmt: string, i: nat, flags: bv8)
    requires InString(fmt, i) && '#' !in fmt && !Set(flags, SPECIAL_HASH)
    ensures !Set(FlagsFrom(fmt, i, flags).0, SPECIAL_HASH)
    decreases |fmt| - i
  {
    if !(i == |fmt| || WithFlag(flags, fmt[i]) == flags) {
      assert fmt[i] != '#';
      FlagsNeedHash(fmt, i + 1, WithFlag(flags, fmt[i]));
    }
  }

  lemma {:induction false} PrefixesNeedHash(fmt: string, i: nat)
    requires '#' !in fmt
    ensures Prefixes(fmt, i) == 0
    decreases |fmt| + 1 - i
  {
    if i < |fmt| {
      if fmt[i] != '%' {
        PrefixesNeedHash(fmt, i + 1);
      } else {
        FlagsNeedHash(fmt, i + 1, 0);
        PrefixesNeedHash(fmt, DirectiveAt(fmt, i).at + 1);
      }
    }
  }

  /** The count is exact precisely when the slips cancel out; without '#' in the format, precisely when
      no percent sign is printed. */
  lemma CountIsExact(fmt: string, args: seq<Arg>)
    requires WellTyped(fmt, 0, args)
    ensures Returned(fmt, 0, args) == |Formatted(fmt, 0, args)| <==> 36 * Percents(fmt, 0) == Prefixes(fmt, 0)
    ensures '#' !in fmt ==> (Returned(fmt, 0, args) == |Formatted(fmt, 0, args)| <==> Percents(fmt, 0) == 0)
  {
    ReturnedIsLength(fmt, 0, args);
    if '#' !in fmt {
      PrefixesNeedHash(fmt, 0);
    }
  }

  /** A format without directives prints itself. */
  lemma {:induction false} PlainTextIsPrinted(fmt: string, i: nat)
    requires '%' !in fmt && i <= |fmt|
    ensures WellTyped(fmt, i, []) && Formatted(fmt, i, []) == fmt[i..] && Returned(fmt, i, []) == |fmt| - i
    decreases |fmt| - i
  {
    if i < |fmt| {
      assert fmt[i] != '%';
      PlainTextIsPrinted(fmt, i + 1);
    }
  }

  // ----- The loop -----

  /** The do-while loop over the flags of the directive whose '%' is at `start`. */
  method ScanFlags(fmt: string, start: nat) returns (flags: bv8, i: nat)
    requires start < |fmt|
    ensures (flags, i) == FlagsFrom(fmt, start + 1, 0)
  {
    flags, i := 0, start;
    var more := true;
    while more
      invariant more ==> i < |fmt| && FlagsFrom(fmt, i + 1, flags) == FlagsFrom(fmt, start + 1, 0)
      invariant !more ==> (flags, i) == FlagsFrom(fmt, start + 1, 0)
      invariant InString(fmt, i)
      decreases |fmt| - i, more
    {
      i := i + 1;
      var prevflags := flags;
      flags := WithFlag(flags, CharAt(fmt, i));
      more := flags != prevflags;
    }
  }

  method ScanWidth(fmt: string, start: nat) returns (width: nat, i: nat)
    requires InString(fmt, start)
    ensures (width, i) == WidthFrom(fmt, start, 0)
  {
    width, i := 0, start;
    while IsDigit(CharAt(fmt, i))
      invariant InString(fmt, i) && WidthFrom(fmt, i, width) == WidthFrom(fmt, start, 0)
      decreases |fmt| - i
    {
      width := width * 10 + DigitOf(CharAt(fmt, i));
      i := i + 1;
    }
  }

  method ScanDirective(fmt: string, start: nat) returns (d: Directive)
    requires start < |fmt|
    ensures d == DirectiveAt(fmt, start)
  {
    var flags, i := ScanFlags(fmt, start);
    var width, j := ScanWidth(fmt, i);
    if width > MAX_WIDTH {
      width := MAX_WIDTH;
    }
    var length := LengthAt(fmt, j);
    d := Directive(flags, width, length.0, CharAt(fmt, length.1), length.1);
  }

  /** debug_print. */
  method PutString(console: Console, s: string) returns (chars: nat)
    modifies console
    ensures console.output == old(console.output) + s && chars == |s|
  {
    var i := 0;
    while i < |s|
      invariant 0 <= i <= |s| && console.output == old(console.output) + s[..i]
    {
      console.PutChar(s[i]);
      i := i + 1;
    }
    return |s|;
  }

  /** The last switch of debug_vprintf. */
  method PutDirective(console: Console, d: Directive, arg: Arg) returns (chars: int)
    requires Fits(d.conv, arg)
    modifies console
    ensures console.output == old(console.output) + DirectiveText(d, arg) && chars == DirectiveCount(d, arg)
  {
    if d.conv == '%' {
      console.PutChar('%');
      chars := '%' as int;
    } else if d.conv == 'c' {
      chars := 1;
      console.PutChar((ValueOf(d, arg.value) % 256) as char);
    } else if IsInteger(d.conv) {
      chars := console.PrintInt(ValueOf(d, arg.value), d.flags, d.width, BaseOf(d.conv), IsSigned(d.conv),
          IsUpper(d.conv));
    } else if d.conv == 's' {
      if arg.text.None? {
        chars := PutString(console, "(null)");
      } else {
        chars := PutString(console, arg.text.value);
      }
    } else {
      chars := 0;
    }
  }

  lemma NextDirective(fmt: string, i: nat, args: seq<Arg>, d: Directive)
    requires i < |fmt| && fmt[i] == '%' && d == DirectiveAt(fmt, i) && WellTyped(fmt, i, args)
    ensures (TakesArg(d.conv) ==> args != []) && Fits(d.conv, NextArg(d, args))
    ensures WellTyped(fmt, d.at + 1, RestArgs(d, args))
    ensures Formatted(fmt, i, args) == DirectiveText(d, NextArg(d, args)) + Formatted(fmt, d.at + 1, RestArgs(d, args))
    ensures Returned(fmt, i, args) == DirectiveCount(d, NextArg(d, args)) + Returned(fmt, d.at + 1, RestArgs(d, args))
  {
  }

  /** One directive: scanned, given its argument, and printed. */
  method PutNext(console: Console, fmt: string, i: nat, args: seq<Arg>) returns (chars: int, next: nat, rest: seq<Arg>)
    requires i < |fmt| && fmt[i] == '%' && WellTyped(fmt, i, args)
    modifies console
    ensures i < next <= |fmt| + 1 && WellTyped(fmt, next, rest)
    ensures console.output + Formatted(fmt, next, rest) == old(console.output) + Formatted(fmt, i, args)
    ensures chars + Returned(fmt, next, rest) == Returned(fmt, i, args)
  {
    hide DirectiveAt, DirectiveText, DirectiveCount, Fits, TakesArg, WellTyped, Formatted, Returned, NextArg, RestArgs;
    var d := ScanDirective(fmt, i);
    NextDirective(fmt, i, args, d);
    var arg := NextArg(d, args);
    rest := RestArgs(d, args);
    ghost var before, text, tail := console.output, DirectiveText(d, arg), Formatted(fmt, d.at + 1, rest);
    chars := PutDirective(console, d, arg);
    assert console.output + tail == before + (text + tail);
    next := d.at + 1;
  }

  /** debug_vprintf. No character past the terminator is ever read. */
  method Vprintf(console: Console, fmt: string, args: seq<Arg>) returns (chars: int)
    requires IsFormat(fmt) && WellTyped(fmt, 0, args)
    modifies console
    ensures console.output == old(console.output) + Formatted(fmt, 0, args) && chars == Returned(fmt, 0, args)
  {
    hide DirectiveAt, DirectiveText, DirectiveCount, Fits, TakesArg;
    chars := 0;
    var i: nat, rest := 0, args;
    while i < |fmt|
      invariant WellTyped(fmt, i, rest)
      invariant console.output + Formatted(fmt, i, rest) == old(console.output) + Formatted(fmt, 0, args)
      invariant chars + Returned(fmt, i, rest) == Returned(fmt, 0, args)
      decreases |fmt| + 1 - i
    {
      if fmt[i] != '%' {
        console.PutChar(fmt[i]);
        chars := chars + 1;
        i := i + 1;
      } else {
        var n;
        n, i, rest := PutNext(console, fmt, i, rest);
        chars := chars + n;
      }
    }
  }
}
