/** What printf prints, read back character by character: independent of how it is computed. */
module Output {
  import opened Wrappers
  import opened Digits
  import opened Debug
  import opened Printf
  import opened Directives

  // ----- A reader of numbers -----

  /** The digit a character stands for, by its character code, or -1. */
  function CharValue(c: char): int {
    if 48 <= c as int <= 57 then c as int - 48
    else if 97 <= c as int <= 102 then c as int - 87
    else if 65 <= c as int <= 70 then c as int - 55
    else -1
  }

  /** The number in a text: its digits, from left to right; anything else is passed over. */
  ghost function ReadNumber(s: string, base: nat): nat {
    if s == "" then 0
    else
      var front, v := ReadNumber(s[..|s| - 1], base), CharValue(s[|s| - 1]);
      if v < 0 then front else base * front + v
  }

  /** A minus sign in front negates. */
  ghost function ReadSigned(s: string, base: nat): int {
    var m: int := ReadNumber(s, base);
    if s != "" && s[0] == '-' then -m else m
  }

  ghost predicate IsDigitText(s: string, base: nat, upper: bool) {
    forall i: nat :: i < |s| ==> IsDigitChar(s[i], base, upper)
  }

  predicate IsDigitChar(c: char, base: nat, upper: bool) {
    0 <= CharValue(c) < base && if upper then !('a' <= c <= 'f') else !('A' <= c <= 'F')
  }

  /** The text is the numeral of m: digits of the base, in one case, without leading zeros. */
  ghost predicate Spells(s: string, m: nat, base: nat, upper: bool) {
    && s != "" && IsDigitText(s, base, upper) && (|s| > 1 ==> s[0] != '0') && ReadNumber(s, base) == m
  }

  lemma CharOfDigit(d: nat, base: nat, upper: bool)
    requires d < base <= 16
    ensures CharValue(DigitChar(d, upper)) == d && IsDigitChar(DigitChar(d, upper), base, upper)
    ensures DigitChar(d, upper) == '0' ==> d == 0
  {
  }

  lemma {:induction false} SpellingReads(ds: seq<nat>, base: nat, upper: bool)
    requires base <= 16 && AreDigits(ds, base)
    ensures AreDigits(ds, 16) && ReadNumber(Spell(ds, upper), base) == Parse(ds, base)
    ensures IsDigitText(Spell(ds, upper), base, upper)
  {
    var s := Spell(ds, upper);
    forall i: nat | i < |s|
      ensures IsDigitChar(s[i], base, upper)
    {
      CharOfDigit(ds[i], base, upper);
    }
    if ds != [] {
      var k := |ds| - 1;
      SpellingReads(ds[..k], base, upper);
      assert s[..k] == Spell(ds[..k], upper);
      CharOfDigit(ds[k], base, upper);
    }
  }

  /** What is printed for a magnitude is its numeral in characters. */
  lemma NumeralSpells(m: nat, base: nat, upper: bool)
    requires 2 <= base <= 16
    ensures AreDigits(Numeral(m, base), 16) && Spells(Spell(Numeral(m, base), upper), m, base, upper)
  {
    var ds := Numeral(m, base);
    SpellingReads(ds, base, upper);
    ParseNumeral(m, base);
    CharOfDigit(ds[0], base, upper);
  }

  lemma TimesGrows(b: nat, x: nat)
    requires 2 <= b
    ensures 2 * x <= b * x && (x == 0 ==> b * x == 0)
  {
  }

  lemma {:induction false} LeadingDigitCounts(s: string, base: nat, upper: bool)
    requires 2 <= base && s != "" && IsDigitText(s, base, upper) && s[0] != '0'
    ensures ReadNumber(s, base) >= if |s| > 1 then base else 1
  {
    assert IsDigitChar(s[0], base, upper) && IsDigitChar(s[|s| - 1], base, upper);
    var front := s[..|s| - 1];
    if |s| > 1 {
      LeadingDigitCounts(front, base, upper);
      TimesGrows(base, ReadNumber(front, base));
      AtLeastOnce(base, ReadNumber(front, base));
    } else {
      assert front == "";
    }
  }

  lemma AtLeastOnce(b: nat, x: nat)
    requires 1 <= x
    ensures b <= b * x
  {
  }

  lemma CharsDiffer(c: char, c': char, base: nat, upper: bool)
    requires IsDigitChar(c, base, upper) && IsDigitChar(c', base, upper) && CharValue(c) == CharValue(c')
    ensures c == c'
  {
  }

  lemma LastCharReads(s: string, base: nat, upper: bool)
    requires s != "" && IsDigitText(s, base, upper)
    ensures var k := |s| - 1;
            && IsDigitChar(s[k], base, upper) && IsDigitText(s[..k], base, upper) && 0 <= CharValue(s[k]) < base
            && ReadNumber(s, base) == base * ReadNumber(s[..k], base) + CharValue(s[k])
  {
    assert IsDigitChar(s[|s| - 1], base, upper);
  }

  lemma OneCharReads(s: string, m: nat, base: nat, upper: bool)
    requires 2 <= base && Spells(s, m, base, upper)
    ensures s != "" && (|s| == 1 <==> m < base)
    ensures |s| == 1 ==> IsDigitChar(s[0], base, upper) && CharValue(s[0]) == m
  {
    hide IsDigitChar, IsDigitText, CharValue;
    LastCharReads(s, base, upper);
    if |s| > 1 {
      LeadingDigitCounts(s, base, upper);
    } else {
      assert s[..0] == "";
    }
  }

  lemma FrontSpells(s: string, m: nat, base: nat, upper: bool)
    requires 2 <= base && Spells(s, m, base, upper) && |s| > 1
    ensures var k := |s| - 1;
            && IsDigitChar(s[k], base, upper) && CharValue(s[k]) == m % base && Spells(s[..k], m / base, base, upper)
  {
    hide IsDigitChar, IsDigitText, CharValue, ReadNumber;
    var k := |s| - 1;
    LastCharReads(s, base, upper);
    DivMod(CharValue(s[k]), base, ReadNumber(s[..k], base));
  }

  /** A number has one numeral: what an integer directive prints is determined. */
  lemma {:induction false} OneSpelling(s: string, s': string, m: nat, base: nat, upper: bool)
    requires 2 <= base && Spells(s, m, base, upper) && Spells(s', m, base, upper)
    ensures s == s'
    decreases |s|
  {
    hide Spells, ReadNumber, CharValue, IsDigitChar;
    OneCharReads(s, m, base, upper);
    OneCharReads(s', m, base, upper);
    var k, k' := |s| - 1, |s'| - 1;
    if k > 0 {
      FrontSpells(s, m, base, upper);
      FrontSpells(s', m, base, upper);
      OneSpelling(s[..k], s'[..k'], m / base, base, upper);
    }
    CharsDiffer(s[k], s'[k'], base, upper);
    assert s == s[..k] + [s[k]] && s' == s'[..k'] + [s'[k']];
  }

  ghost function Backwards(s: string): string {
    if s == "" then "" else Backwards(s[1..]) + [s[0]]
  }

  lemma {:induction false} MirrorReads(ds: seq<nat>, base: nat, upper: bool)
    requires base <= 16 && AreDigits(ds, base)
    ensures AreDigits(ds, 16) && ReadNumber(Backwards(Spell(ds, upper)), base) == Mirror(ds, base)
  {
    assert AreDigits(ds, 16);
    if ds != [] {
      var s := Spell(ds, upper);
      MirrorReads(ds[1..], base, upper);
      assert s[1..] == Spell(ds[1..], upper);
      CharOfDigit(ds[0], base, upper);
      var back := Backwards(s[1..]) + [s[0]];
      assert back[..|back| - 1] == Backwards(s[1..]);
    }
  }

  /** What reaches the console for a numeral of m: as many digits, those of the numeral read from right to
      left and cut down to 64 bits. They denote m only if nothing had to be cut off, and then they are the
      numeral. */
  ghost predicate ReachesAs(numeral: string, digits: string, m: nat, base: nat, upper: bool) {
    var back := ReadNumber(Backwards(numeral), base);
    && |digits| == |numeral| && IsDigitText(digits, base, upper)
    && ReadNumber(Backwards(digits), base) == back % 0x1_0000_0000_0000_0000
    && (ReadNumber(digits, base) == m <==> back < 0x1_0000_0000_0000_0000)
    && (back < 0x1_0000_0000_0000_0000 ==> digits == numeral)
  }

  lemma PrintedReaches(m: nat, base: nat, upper: bool)
    requires 2 <= base <= 16 && m < 0x1_0000_0000_0000_0000
    ensures AreDigits(Numeral(m, base), 16)
    ensures ReachesAs(Spell(Numeral(m, base), upper), Spell(Printed(m, base), upper), m, base, upper)
  {
    hide Numeral, ReadNumber, Backwards, Mirror, Parse, Peel, IsDigitText;
    var ds, w := Numeral(m, base), Mirror(Numeral(m, base), base) % WORD;
    MirrorReads(ds, base, upper);
    PeelDigits(w, base, |ds|);
    SpellingReads(Printed(m, base), base, upper);
    MirrorReads(Printed(m, base), base, upper);
    MirrorBound(ds, base);
    MirrorPeel(w, base, |ds|);
    PrintIsExact(m, base, false);
  }

  /** Numerals that end in a zero are printed right. */
  lemma TailZeroFits(numeral: string, m: nat, base: nat, upper: bool)
    requires 2 <= base <= 16 && Spells(numeral, m, base, upper) && m < 0x1_0000_0000_0000_0000 && m % base == 0
    ensures ReadNumber(Backwards(numeral), base) < 0x1_0000_0000_0000_0000
  {
    hide Numeral, ReadNumber, Backwards, Mirror, Spells;
    var ds := Numeral(m, base);
    NumeralSpells(m, base, upper);
    OneSpelling(numeral, Spell(ds, upper), m, base, upper);
    MirrorReads(ds, base, upper);
    TailZeroMirror(m, base);
  }

  // ----- Sign, prefix and padding -----

  ghost predicate IsPad(pad: string, c: char, width: int, n: nat) {
    |pad| == (if width > n then width - n else 0) && forall i: nat :: i < |pad| ==> pad[i] == c
  }

  /** The text around a body of digits: the sign, the prefix, and the padding on one side. */
  ghost predicate IsFramed(s: string, first: string, prefix: string, body: string, c: char, width: int, left: bool) {
    exists pad: string :: IsPad(pad, c, width, |body|) && s == first + prefix + if left then body + pad else pad + body
  }

  /** debug_print_int in plain numbers: bit 63 of a signed argument makes it negative, bits 1 and 2 of the
      flags ask for a plus or a space, bit 3 for zeros as padding, bit 5 for a prefix, bit 0 for padding on
      the right. */
  lemma FrameInNumbers(n: nat, flags: bv8, width: int, base: nat, sign: bool, upper: bool, body: string)
    requires n < 0x1_0000_0000_0000_0000
    ensures var negative := sign && n >= 0x8000_0000_0000_0000;
            var first := if negative then "-" else if flags & 2 != 0 then "+" else if flags & 4 != 0 then " " else "";
            var prefix := if flags & 32 == 0 then "" else if base == 8 then "0" else if base != 16 then ""
                          else if upper then "0X" else "0x";
            && IsFramed(Framed(n, flags, width, base, sign, upper, body), first, prefix, body,
                        if flags & 8 != 0 then '0' else ' ', width, flags & 1 != 0)
            && Magnitude(n, sign) == if negative then 0x1_0000_0000_0000_0000 - n else n
  {
    var pad := Padding(flags, width, |body|);
    assert IsPad(pad, if flags & 8 != 0 then '0' else ' ', width, |body|);
  }

  // ----- Integer directives -----

  /** The value an integer directive is about: for d and i signed, and for no length, h and hh of 32 bits. */
  ghost function Denoted(conv: char, length: string, word: nat): int {
    var low: int := word % 0x1_0000_0000;
    if conv == 'p' then word
    else if conv == 'd' || conv == 'i' then
      if length == "" || length == "h" || length == "hh" then (if low < 0x8000_0000 then low else low - 0x1_0000_0000)
      else if word < 0x8000_0000_0000_0000 then word else word - 0x1_0000_0000_0000_0000
    else if length == "" || length == "h" || length == "hh" then low else word
  }

  function ConvBase(conv: char): nat {
    match conv
    case 'x' => 16
    case 'X' => 16
    case 'p' => 16
    case 'o' => 8
    case _ => 10
  }

  ghost function FirstOf(d: Source, value: int): string {
    if value < 0 then "-" else if '+' in d.flags then "+" else if ' ' in d.flags then " " else ""
  }

  ghost function PrefixOf(d: Source): string {
    if '#' !in d.flags then ""
    else if d.conv == 'o' then "0"
    else if d.conv == 'x' then "0x"
    else if d.conv == 'X' || d.conv == 'p' then "0X"
    else ""
  }

  ghost function WidthOf(d: Source): nat {
    var w := ReadNumber(d.width, 10);
    if w > 256 then 256 else w
  }

  predicate IsIntegerConv(c: char) {
    c == 'd' || c == 'i' || c == 'u' || c == 'x' || c == 'X' || c == 'o' || c == 'p'
  }

  /** Values that debug_print_int gets right. */
  predicate InRange(conv: char, value: int) {
    (conv == 'u' ==> value < 10_000_000_000_000_000_000) && (conv == 'o' ==> value < 0x8000_0000_0000_0000)
  }

  lemma {:induction false} WidthReads(ws: string)
    requires AllDigits(ws)
    ensures NumberOf(ws) == ReadNumber(ws, 10)
  {
    if ws == "" {
      assert NumberOf(ws) == Parse([], 10);
    } else {
      NumberSnoc(ws);
      WidthReads(ws[..|ws| - 1]);
    }
  }

  /** A flag character in the directive is that bit in the flags. */
  lemma FlagIsSet(fs: string, c: char, b: bv8)
    requires (forall j: nat :: j < |fs| ==> IsFlag(fs[j])) && FlagOf(c) == b && IsBit(b)
    ensures FlagBits(fs) & b != 0 <==> c in fs
  {
    FlagBitsHold(fs, c);
    OrKeeps(FlagBits(fs), b);
  }

  lemma OrKeeps(flags: bv8, b: bv8)
    requires IsBit(b)
    ensures flags | b == flags <==> flags & b != 0
  {
  }

  lemma FlagsAreSet(fs: string)
    requires forall j: nat :: j < |fs| ==> IsFlag(fs[j])
    ensures (FlagBits(fs) & 1 != 0 <==> '-' in fs) && (FlagBits(fs) & 2 != 0 <==> '+' in fs)
    ensures (FlagBits(fs) & 4 != 0 <==> ' ' in fs) && (FlagBits(fs) & 8 != 0 <==> '0' in fs)
    ensures FlagBits(fs) & 32 != 0 <==> '#' in fs
  {
    hide FlagBits, IsFlag;
    FlagIsSet(fs, '-', 1);
    FlagIsSet(fs, '+', 2);
    FlagIsSet(fs, ' ', 4);
    FlagIsSet(fs, '0', 8);
    FlagIsSet(fs, '#', 32);
  }

  /** The directives of the language, in plain characters. */
  lemma DirectivesAre(d: Source)
    ensures d.Valid() <==>
            && (forall j: nat :: j < |d.flags| ==> d.flags[j] in "-+ 0'#" && d.flags[j] !in d.flags[..j])
            && (forall j: nat :: j < |d.width| ==> '0' <= d.width[j] <= '9') && (d.width != "" ==> d.width[0] != '0')
            && d.length in {"", "h", "hh", "l", "ll", "z", "j", "t"} && d.conv in "diuxXocps%"
  {
    hide IsFlag;
    forall c: char
      ensures IsFlag(c) <==> c in "-+ 0'#"
    {
      FlagsAre(c);
    }
    ConversionsAre(d.conv);
  }

  lemma FlagsAre(c: char)
    ensures IsFlag(c) <==> c in "-+ 0'#"
  {
  }

  lemma ConversionsAre(c: char)
    ensures IsConversion(c) <==> c in "diuxXocps%"
  {
  }

  /** The 64-bit word that debug_print_int gets, and its magnitude. */
  lemma ValueInNumbers(d: Source, word: nat, at: nat)
    requires d.WellFormed() && IsIntegerConv(d.conv) && word < 0x1_0000_0000_0000_0000
    ensures var v, value := ValueOf(d.Meaning(at), word), Denoted(d.conv, d.length, word);
            && v < 0x1_0000_0000_0000_0000 && (IsSigned(d.conv) <==> d.conv == 'd' || d.conv == 'i')
            && (IsSigned(d.conv) && v >= 0x8000_0000_0000_0000 <==> value < 0)
            && v == if value < 0 then value + 0x1_0000_0000_0000_0000 else value
  {
    hide FlagBits, NumberOf;
  }

  lemma ConvInNumbers(conv: char)
    requires IsIntegerConv(conv)
    ensures IsInteger(conv) && conv != 'c' && BaseOf(conv) == ConvBase(conv)
    ensures IsUpper(conv) <==> IsCapital(conv)
  {
  }

  /** What an integer directive prints, for any argument. With the numeral of the value in the base of the
      conversion, capital for X and p, and what of it reaches the console: the sign, or what + or space ask
      for; the prefix # asks for; the digits, and up to the width (at most 256) padding, zeros if 0 is among
      the flags, on the right if - is. */
  lemma IntegerPrints(d: Source, word: nat)
    requires d.Valid() && IsIntegerConv(d.conv) && word < 0x1_0000_0000_0000_0000
    ensures Fits(d.conv, Word(word))
    ensures exists numeral: string, digits: string :: PrintsWith(d, word, MeaningText(d, Word(word)), numeral, digits)
  {
    hide FlagBits, NumberOf, Spell, Printed, Numeral, Framed, IsFramed, Spells, AllDigits, IsFlag, DistinctFlags,
         ValueOf, Denoted, IsUpper, BaseOf, IsSigned, Magnitude, ReadNumber, ReachesAs;
    var m := d.Meaning(0);
    var v, upper, base := ValueOf(m, word), IsCapital(d.conv), ConvBase(d.conv);
    ConvInNumbers(d.conv);
    ValueInNumbers(d, word, 0);
    FlagsAreSet(d.flags);
    WidthReads(d.width);
    var a := Magnitude(v, IsSigned(d.conv));
    PrintedReaches(a, base, upper);
    var numeral, digits := Spell(Numeral(a, base), upper), Spell(Printed(a, base), upper);
    FrameInNumbers(v, m.flags, m.width, base, IsSigned(d.conv), upper, digits);
    NumeralSpells(a, base, upper);
    assert PrintsWith(d, word, MeaningText(d, Word(word)), numeral, digits);
  }

  predicate IsCapital(conv: char) {
    conv == 'X' || conv == 'p'
  }

  ghost function Distance(value: int): nat {
    if value < 0 then -value else value
  }

  ghost predicate PrintsWith(d: Source, word: nat, s: string, numeral: string, digits: string) {
    var value := Denoted(d.conv, d.length, word);
    && Spells(numeral, Distance(value), ConvBase(d.conv), IsCapital(d.conv))
    && ReachesAs(numeral, digits, Distance(value), ConvBase(d.conv), IsCapital(d.conv))
    && IsFramed(s, FirstOf(d, value), PrefixOf(d), digits, if '0' in d.flags then '0' else ' ', WidthOf(d),
                '-' in d.flags)
  }

  /** For d, i, x, X and p, for u below 10^19 and for o below 2^63, it is the numeral that is printed. */
  lemma UsualValuesReach(d: Source, word: nat, s: string, numeral: string, digits: string)
    requires d.Valid() && IsIntegerConv(d.conv) && word < 0x1_0000_0000_0000_0000
    requires PrintsWith(d, word, s, numeral, digits) && InRange(d.conv, Denoted(d.conv, d.length, word))
    ensures ReadNumber(Backwards(numeral), ConvBase(d.conv)) < 0x1_0000_0000_0000_0000 && digits == numeral
  {
    hide Numeral, Printed, ReadNumber, Backwards, Mirror, Spells, Denoted, ValueOf, FlagBits, NumberOf, IsFramed;
    var v, upper, base := ValueOf(d.Meaning(0), word), IsCapital(d.conv), ConvBase(d.conv);
    ConvInNumbers(d.conv);
    ValueInNumbers(d, word, 0);
    var a := Magnitude(v, IsSigned(d.conv));
    UsualNumbersAreExact(v, base, IsSigned(d.conv));
    NumeralSpells(a, base, upper);
    OneSpelling(numeral, Spell(Numeral(a, base), upper), a, base, upper);
    MirrorReads(Numeral(a, base), base, upper);
    PrintIsExact(a, base, false);
  }

  // ----- Reading it back -----

  /** What reads as nothing may stand in front. */
  lemma {:induction false} ReadBehind(a: string, b: string, base: nat)
    requires ReadNumber(a, base) == 0
    ensures ReadNumber(a + b, base) == ReadNumber(b, base)
  {
    if b == "" {
      assert a + b == a;
    } else {
      assert (a + b)[..|a + b| - 1] == a + b[..|b| - 1];
      ReadBehind(a, b[..|b| - 1], base);
    }
  }

  lemma {:induction false} ReadPad(a: string, pad: string, c: char, base: nat)
    requires 2 <= base && (c == ' ' || c == '0') && forall i: nat :: i < |pad| ==> pad[i] == c
    ensures ReadNumber(pad, base) == 0
    ensures ReadNumber(a + pad, base) == ReadNumber(a, base) <==> c == ' ' || pad == "" || ReadNumber(a, base) == 0
    ensures ReadNumber(a, base) <= ReadNumber(a + pad, base)
    ensures if c == ' ' then ReadNumber(a + pad, base) == ReadNumber(a, base)
            else pad != "" ==> ReadNumber(a + pad, base) % base == 0
  {
    if pad == "" {
      assert a + pad == a;
    } else {
      var front := pad[..|pad| - 1];
      ReadPad(a, front, c, base);
      assert (a + pad)[..|a + pad| - 1] == a + front && (a + pad)[|a + pad| - 1] == c;
      assert ReadNumber(a + pad, base) == if c == ' ' then ReadNumber(a + front, base)
                                          else base * ReadNumber(a + front, base);
      TimesGrows(base, ReadNumber(a + front, base));
      DivMod(0, base, ReadNumber(a + front, base));
    }
  }

  lemma FrontReadsNothing(d: Source, value: int, base: nat)
    ensures ReadNumber(FirstOf(d, value) + PrefixOf(d), base) == 0
  {
    assert ReadNumber("", base) == 0;
    var p := PrefixOf(d);
    if p == "0x" || p == "0X" {
      assert p[..1] == "0" && "0"[..0] == "";
      assert ReadNumber("0", base) == 0;
    } else if p == "0" {
      assert p[..0] == "";
    }
    var f := FirstOf(d, value);
    if f != "" {
      assert f[..0] == "" && CharValue(f[0]) < 0;
    }
    ReadBehind(f, p, base);
  }

  lemma BodyReads(pad: string, c: char, digits: string, left: bool, numeral: string, m: nat, base: nat, upper: bool)
    requires 2 <= base <= 16 && (c == ' ' || c == '0') && forall i: nat :: i < |pad| ==> pad[i] == c
    requires Spells(numeral, m, base, upper) && ReachesAs(numeral, digits, m, base, upper)
    requires m < 0x1_0000_0000_0000_0000
    ensures ReadNumber(if left then digits + pad else pad + digits, base) == m <==>
            && ReadNumber(Backwards(numeral), base) < 0x1_0000_0000_0000_0000
            && (!left || c == ' ' || pad == "" || m == 0)
  {
    hide ReadNumber, Backwards, IsDigitText, Spells;
    ReadPad(digits, pad, c, base);
    ReadBehind(pad, digits, base);
    if m % base == 0 {
      TailZeroFits(numeral, m, base, upper);
    }
  }

  /** The text of an integer directive, read back, denotes the value, if and only if the numeral of it, read
      from right to left, denotes a number that fits 64 bits, and no zeros were padded on its right; and it
      begins with a minus sign if and only if the value is negative. */
  lemma ReadsBack(d: Source, word: nat, s: string, numeral: string, digits: string)
    requires d.Valid() && IsIntegerConv(d.conv) && word < 0x1_0000_0000_0000_0000
    requires PrintsWith(d, word, s, numeral, digits)
    ensures var value, base := Denoted(d.conv, d.length, word), ConvBase(d.conv);
            && (ReadSigned(s, base) == value <==>
                && ReadNumber(Backwards(numeral), base) < 0x1_0000_0000_0000_0000
                && (value == 0 || !('-' in d.flags && '0' in d.flags) || WidthOf(d) <= |numeral|))
            && (s != "" && s[0] == '-' <==> value < 0)
  {
    hide Denoted, Spells, ReadNumber, WidthOf, FirstOf, PrefixOf, CharValue, IsDigitText, ReachesAs, Backwards;
    var value, base := Denoted(d.conv, d.length, word), ConvBase(d.conv);
    var c, left := if '0' in d.flags then '0' else ' ', '-' in d.flags;
    var first, prefix := FirstOf(d, value), PrefixOf(d);
    var pad: string :| IsPad(pad, c, WidthOf(d), |digits|)
      && s == first + prefix + if left then digits + pad else pad + digits;
    var body := if left then digits + pad else pad + digits;
    DenotedFits(d.conv, d.length, word);
    DigitsInFront(numeral, digits, Distance(value), base, IsCapital(d.conv));
    FrontReadsNothing(d, value, base);
    ReadBehind(first + prefix, body, base);
    BodyReads(pad, c, digits, left, numeral, Distance(value), base, IsCapital(d.conv));
    FrontIsSign(d, value, s, body);
  }

  lemma DenotedFits(conv: char, length: string, word: nat)
    requires word < 0x1_0000_0000_0000_0000
    ensures Distance(Denoted(conv, length, word)) < 0x1_0000_0000_0000_0000
  {
  }

  lemma DigitsInFront(numeral: string, digits: string, m: nat, base: nat, upper: bool)
    requires Spells(numeral, m, base, upper) && ReachesAs(numeral, digits, m, base, upper)
    ensures |digits| == |numeral| && digits != "" && digits[0] != '-'
  {
    hide ReadNumber, Backwards;
    assert IsDigitChar(digits[0], base, upper);
  }

  lemma FrontIsSign(d: Source, value: int, s: string, body: string)
    requires s == FirstOf(d, value) + PrefixOf(d) + body && body != "" && body[0] != '-'
    ensures s != "" && s[0] == '-' <==> value < 0
  {
    hide ReadNumber;
  }

  /** Zeros on the right make another number of it: `%-03d` of 5 prints 500. */
  lemma RightZerosGoWrong()
    ensures var d := Source("-0", "3", "", 'd'); d.Valid() && MeaningText(d, Word(5)) == "500"
  {
    hide MeaningText, ReadNumber, IsFramed, Spells, Source.Meaning, ReachesAs;
    var d := Source("-0", "3", "", 'd');
    assert DistinctFlags("-0") && AllDigits("3");
    IntegerPrints(d, 5);
    var numeral: string, digits: string :| PrintsWith(d, 5, MeaningText(d, Word(5)), numeral, digits);
    SmallNumbers();
    OneSpelling(numeral, "5", 5, 10, false);
    UsualValuesReach(d, 5, MeaningText(d, Word(5)), numeral, digits);
    PaddedFive(MeaningText(d, Word(5)));
  }

  lemma SmallNumbers()
    ensures ReadNumber("3", 10) == 3 && Spells("5", 5, 10, false)
  {
    assert "3"[..0] == "" && "5"[..0] == "";
  }

  lemma PaddedFive(s: string)
    requires IsFramed(s, "", "", "5", '0', 3, true)
    ensures s == "500"
  {
    var pad: string :| IsPad(pad, '0', 3, |"5"|) && s == "" + "" + ("5" + pad);
    assert pad == "00";
  }

  // ----- The other directives -----

  /** c prints one character, the low byte of its argument; s prints its string, or (null). */
  lemma OthersPrint(d: Source, word: nat, text: Option<string>)
    requires d.Valid() && word < 0x1_0000_0000_0000_0000
    ensures d.conv == 'c' ==> Fits('c', Word(word)) && MeaningText(d, Word(word)) == [(word % 256) as char]
    ensures d.conv == 's' ==>
        && Fits('s', Text(text)) && MeaningText(d, Text(text)) == match text case None => "(null)" case Some(s) => s
    ensures d.conv == '%' ==> MeaningText(d, NO_ARG) == "%" && MeaningCount(d, NO_ARG) == 37
  {
    hide FlagBits, NumberOf;
    LowByte(word);
  }

  lemma LowByte(word: nat)
    ensures word % 0x1_0000_0000 % 256 == word % 256
  {
  }

  /** What is counted for a directive that takes an argument leaves out the prefix. */
  lemma CountInNumbers(d: Source, arg: Arg)
    requires d.Valid() && d.conv != '%' && Fits(d.conv, arg)
    ensures MeaningCount(d, arg) == |MeaningText(d, arg)| - |PrefixOf(d)|
  {
    hide FlagBits, NumberOf, DirectiveText, DistinctFlags;
    FlagsAreSet(d.flags);
  }

  // ----- Whole formats -----

  /** A format, piece by piece: plain text, a percent sign, or a directive with the argument meant for it. */
  datatype Piece = Plain(text: string) | Percent(d: Source) | Conversion(d: Source, arg: Arg)

  ghost predicate Good(p: Piece) {
    match p
    case Plain(text) => '%' !in text
    case Percent(d) => d.Valid() && d.conv == '%'
    case Conversion(d, arg) => d.Valid() && d.conv != '%' && Fits(d.conv, arg)
  }

  ghost predicate AllGood(ps: seq<Piece>) {
    forall i: nat :: i < |ps| ==> Good(ps[i])
  }

  ghost function FormatOf(ps: seq<Piece>): string {
    if ps == [] then "" else (if ps[0].Plain? then ps[0].text else ps[0].d.Text()) + FormatOf(ps[1..])
  }

  /** The arguments in the order of their directives. */
  ghost function ArgsOf(ps: seq<Piece>): seq<Arg> {
    if ps == [] then [] else (if ps[0].Conversion? then [ps[0].arg] else []) + ArgsOf(ps[1..])
  }

  ghost function OutputOf(ps: seq<Piece>): string
    requires AllGood(ps)
  {
    if ps == [] then ""
    else
      assert Good(ps[0]);
      (match ps[0]
       case Plain(text) => text
       case Percent(_) => "%"
       case Conversion(d, arg) => MeaningText(d, arg)) + OutputOf(ps[1..])
  }

  /** The characters printed, but 37 for a percent sign and none for the prefixes. */
  ghost function CountOf(ps: seq<Piece>): int
    requires AllGood(ps)
  {
    if ps == [] then 0
    else
      assert Good(ps[0]);
      (match ps[0]
       case Plain(text) => |text|
       case Percent(_) => 37
       case Conversion(d, arg) => |MeaningText(d, arg)| - |PrefixOf(d)|) + CountOf(ps[1..])
  }

  /** A format prints its pieces in order, each directive with its own argument, and the count returned is
      the sum over the pieces. */
  lemma {:induction false} FormatPrints(ps: seq<Piece>)
    requires AllGood(ps)
    ensures WellTyped(FormatOf(ps), 0, ArgsOf(ps))
    ensures Formatted(FormatOf(ps), 0, ArgsOf(ps)) == OutputOf(ps)
    ensures Returned(FormatOf(ps), 0, ArgsOf(ps)) == CountOf(ps)
  {
    hide WellTyped, Formatted, Returned, MeaningText, MeaningCount, Source.Text;
    if ps == [] {
      AtEnd("", 0, []);
    } else {
      assert Good(ps[0]);
      var rest := ps[1..];
      FormatPrints(rest);
      PiecePrints(ps[0], FormatOf(rest), ArgsOf(rest));
    }
  }

  lemma PiecePrints(p: Piece, after: string, args: seq<Arg>)
    requires Good(p) && WellTyped(after, 0, args)
    ensures var fmt := (if p.Plain? then p.text else p.d.Text()) + after;
            var all := (if p.Conversion? then [p.arg] else []) + args;
            && WellTyped(fmt, 0, all)
            && Formatted(fmt, 0, all) == (match p
                                          case Plain(text) => text
                                          case Percent(_) => "%"
                                          case Conversion(d, arg) => MeaningText(d, arg)) + Formatted(after, 0, args)
            && Returned(fmt, 0, all) == (match p
                                         case Plain(text) => |text|
                                         case Percent(_) => 37
                                         case Conversion(d, arg) => |MeaningText(d, arg)| - |PrefixOf(d)|)
                                        + Returned(after, 0, args)
  {
    hide WellTyped, Formatted, Returned, MeaningText, MeaningCount, PrefixOf, Source.Text;
    match p
    case Plain(text) =>
      PlainPrefix(text, after, 0, args);
      assert text[0..] == text && [] + args == args;
    case Percent(d) =>
      assert [] + args == args;
      OthersPrint(d, 0, None);
      DirectiveThenRest(d, after, args);
    case Conversion(d, arg) =>
      assert ([arg] + args)[1..] == args;
      CountInNumbers(d, arg);
      DirectiveThenRest(d, after, [arg] + args);
  }
}
