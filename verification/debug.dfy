/** Kernel console output: integers in bases up to sixteen. */
module Debug {
  import opened Digits

  const LEFT_ALIGN: bv8 := 1
  const PLUS_FOR_POSITIVE: bv8 := 2
  const SPACE_FOR_POSITIVE: bv8 := 4
  const PREPEND_ZEROES: bv8 := 8
  const THOUSANDS_GROUPING: bv8 := 16
  const SPECIAL_HASH: bv8 := 32

  const DIGITS_LOWER: string := "0123456789abcdef"
  const DIGITS_UPPER: string := "0123456789ABCDEF"

  predicate Set(flags: bv8, flag: bv8) {
    flags & flag != 0
  }

  // ----- What is printed -----

  /** A uintmax_t seen as an intmax_t. */
  function Signed(n: nat): int {
    if n < WORD / 2 then n else n - WORD
  }

  /** What the digits stand for: n, or the distance of a negative n from zero. */
  function Magnitude(n: nat, sign: bool): (m: nat)
    requires n < WORD
    ensures m < WORD && (sign ==> m <= WORD / 2)
    ensures sign ==> m == Signed(n) || m == -Signed(n)
    ensures !sign ==> m == n
  {
    if sign && Signed(n) < 0 then WORD - n else n
  }

  function SignText(n: nat, flags: bv8, sign: bool): (s: string)
    ensures |s| <= 1
  {
    if sign && Signed(n) < 0 then "-"
    else if Set(flags, PLUS_FOR_POSITIVE) then "+"
    else if Set(flags, SPACE_FOR_POSITIVE) then " "
    else ""
  }

  function PrefixText(flags: bv8, base: nat, upper: bool): (s: string)
    ensures |s| <= 2
  {
    if base == 8 && Set(flags, SPECIAL_HASH) then "0"
    else if base == 16 && Set(flags, SPECIAL_HASH) then (if upper then "0X" else "0x")
    else ""
  }

  function Padding(flags: bv8, width: int, dcount: nat): (s: string)
    ensures |s| == if width > dcount then width - dcount else 0
  {
    if width > dcount then seq(width - dcount, _ => if Set(flags, PREPEND_ZEROES) then '0' else ' ') else ""
  }

  function DigitChar(d: nat, upper: bool): char
    requires d < 16
  {
    if upper then DIGITS_UPPER[d] else DIGITS_LOWER[d]
  }

  ghost function Spell(ds: seq<nat>, upper: bool): (s: string)
    requires AreDigits(ds, 16)
    ensures |s| == |ds|
  {
    seq(|ds|, i requires 0 <= i < |ds| => DigitChar(ds[i], upper))
  }

  /** Different digits have different characters, so a spelling determines its digits. */
  lemma SpellInjective(ds: seq<nat>, ds': seq<nat>, upper: bool)
    requires AreDigits(ds, 16) && AreDigits(ds', 16) && Spell(ds, upper) == Spell(ds', upper)
    ensures ds == ds'
  {
    assert |ds| == |ds'|;
    forall i: nat | i < |ds|
      ensures ds[i] == ds'[i]
    {
      assert Spell(ds, upper)[i] == Spell(ds', upper)[i];
      CharInjective(ds[i], ds'[i], upper);
    }
  }

  lemma CharInjective(d: nat, e: nat, upper: bool)
    requires d < 16 && e < 16 && DigitChar(d, upper) == DigitChar(e, upper)
    ensures d == e
  {
  }

  ghost function Body(flags: bv8, width: int, body: string): (s: string)
    ensures |s| == if width > |body| then width else |body|
  {
    var pad := Padding(flags, width, |body|);
    if Set(flags, LEFT_ALIGN) then body + pad else pad + body
  }

  /** Sign, prefix and padding around a body of digits. */
  ghost function Framed(n: nat, flags: bv8, width: int, base: nat, sign: bool, upper: bool, body: string): (s: string)
    ensures |s| == |SignText(n, flags, sign)| + |PrefixText(flags, base, upper)|
                   + (if width > |body| then width else |body|)
  {
    SignText(n, flags, sign) + PrefixText(flags, base, upper) + Body(flags, width, body)
  }

  /** The digits that reach the console: those peeled off the mirror image of the numeral after it
      has been cut down to a word. */
  ghost function Printed(m: nat, base: nat): (ds: seq<nat>)
    requires 2 <= base <= 16
    ensures AreDigits(ds, 16) && |ds| == |Numeral(m, base)|
  {
    var ds := Peel(Mirror(Numeral(m, base), base) % WORD, base, |Numeral(m, base)|);
    PeelDigits(Mirror(Numeral(m, base), base) % WORD, base, |Numeral(m, base)|);
    ds
  }

  lemma {:induction false} PeelDigits(x: nat, b: nat, count: nat)
    requires 2 <= b
    ensures AreDigits(Peel(x, b, count), b)
    decreases count
  {
    if count > 0 {
      PeelDigits(x / b, b, count - 1);
      var ds := Peel(x, b, count);
      forall i: nat | i < |ds|
        ensures ds[i] < b
      {
        assert i > 0 ==> ds[i] == Peel(x / b, b, count - 1)[i - 1];
      }
    }
  }

  /** debug_print_int is exact precisely when the number read backwards still fits a word: then the
      digits printed are the numeral of the magnitude, trailing zeros included, and parse back to it;
      otherwise what is printed is wrong. */
  lemma PrintIsExact(n: nat, base: nat, sign: bool)
    requires 2 <= base <= 16 && n < WORD
    ensures var m := Magnitude(n, sign);
            && (Printed(m, base) == Numeral(m, base) <==> Mirror(Numeral(m, base), base) < WORD)
            && (Parse(Printed(m, base), base) == m <==> Mirror(Numeral(m, base), base) < WORD)
  {
    var m := Magnitude(n, sign);
    var ds, ds' := Numeral(m, base), Printed(m, base);
    PeelWord(ds, base);
    ParseNumeral(m, base);
    PeelDigits(Mirror(ds, base) % WORD, base, |ds|);
    if Parse(ds', base) == m {
      ParseInjective(ds, ds', base);
    }
  }

  /** The same of the characters that reach the console, in either case. */
  lemma TextIsExact(n: nat, base: nat, sign: bool, upper: bool)
    requires 2 <= base <= 16 && n < WORD
    ensures var m := Magnitude(n, sign);
            Spell(Printed(m, base), upper) == Spell(Numeral(m, base), upper) <==> Mirror(Numeral(m, base), base) < WORD
  {
    var m := Magnitude(n, sign);
    PrintIsExact(n, base, sign);
    if Spell(Printed(m, base), upper) == Spell(Numeral(m, base), upper) {
      SpellInjective(Printed(m, base), Numeral(m, base), upper);
    }
  }

  lemma {:induction false} ParseInjective(ds: seq<nat>, ds': seq<nat>, b: nat)
    requires 2 <= b && AreDigits(ds, b) && AreDigits(ds', b) && |ds| == |ds'| && Parse(ds, b) == Parse(ds', b)
    ensures ds == ds'
  {
    if ds != [] {
      var k := |ds| - 1;
      DivMod(ds[k], b, Parse(ds[..k], b));
      DivMod(ds'[k], b, Parse(ds'[..k], b));
      ParseInjective(ds[..k], ds'[..k], b);
      assert ds == ds[..k] + [ds[k]] && ds' == ds'[..k] + [ds'[k]];
    }
  }

  /** The calls debug_vprintf makes are exact for every 64-bit value in base 16, every signed decimal,
      unsigned decimals below 10^19 and octals below 2^63. */
  lemma UsualNumbersAreExact(n: nat, base: nat, sign: bool)
    requires n < WORD
    requires base == 16 || (base == 10 && (sign || n < 10_000_000_000_000_000_000)) || (base == 8 && !sign
        && n < WORD / 2)
    ensures Printed(Magnitude(n, sign), base) == Numeral(Magnitude(n, sign), base)
  {
    WordPowers();
    MirrorFits(Magnitude(n, sign), base, if base == 16 then 16 else if base == 10 then 19 else 21);
    PrintIsExact(n, base, sign);
  }

  /** Every 20-digit decimal whose last digit is 2 or more is printed wrong. */
  lemma LongDecimalsAreWrong(n: nat)
    requires 10_000_000_000_000_000_000 <= n < WORD && 2 <= n % 10
    ensures Parse(Printed(n, 10), 10) != n
  {
    hide Numeral, Mirror, Pow, Printed, Parse, AreDigits;
    var ds := Numeral(n, 10);
    WordPowers();
    LastDigit(n, 10);
    NumeralLong(n, 10, 19);
    MirrorAtLeast(ds, 10);
    PowGrows(10, 19, |ds| - 1);
    MulMonotone(Pow(10, |ds| - 1), 2, ds[|ds| - 1]);
    PrintIsExact(n, 10, false);
  }

  // ----- The console -----

  class Console {
    /** Everything sent to the serial port so far. */
    ghost var output: string

    constructor ()
      ensures output == ""
    {
      output := "";
    }

    method PutChar(c: char)
      modifies this
      ensures output == old(output) + [c]
    {
      output := output + [c];
    }

    /** Padding characters, one at a time. */
    method Pad(flags: bv8, width: int, dcount: nat) returns (chars: nat)
      modifies this
      ensures output == old(output) + Padding(flags, width, dcount) && chars == |Padding(flags, width, dcount)|
    {
      chars := 0;
      ghost var pad := Padding(flags, width, dcount);
      if width - dcount > 0 {
        var i := 0;
        while i < width - dcount
          invariant 0 <= i <= width - dcount && chars == i
          invariant output == old(output) + pad[..i]
        {
          PutChar(if Set(flags, PREPEND_ZEROES) then '0' else ' ');
          assert pad[..i + 1] == pad[..i] + [pad[i]];
          chars, i := chars + 1, i + 1;
        }
        assert pad[..i] == pad;
      }
    }

    /** The digits of revn, lowest first. */
    method PutDigits(revn: nat, base: nat, dcount: nat, upper: bool)
      requires 2 <= base <= 16
      modifies this
      ensures AreDigits(Peel(revn, base, dcount), 16)
      ensures output == old(output) + Spell(Peel(revn, base, dcount), upper)
    {
      PeelDigits(revn, base, dcount);
      ghost var ds := Peel(revn, base, dcount);
      var i, rest: nat := 0, revn;
      while i < dcount
        invariant 0 <= i <= dcount && Peel(rest, base, dcount - i) == ds[i..]
        invariant output == old(output) + Spell(ds, upper)[..i]
      {
        assert ds[i] == ds[i..][0] == rest % base;
        DivPositive(rest, base);
        PutChar(DigitChar(rest % base, upper));
        assert Spell(ds, upper)[..i + 1] == Spell(ds, upper)[..i] + [DigitChar(ds[i], upper)];
        assert ds[i + 1..] == ds[i..][1..];
        rest, i := rest / base, i + 1;
      }
      assert Spell(ds, upper)[..i] == Spell(ds, upper);
    }

    method PutSign(n: nat, flags: bv8, sign: bool) returns (chars: nat)
      modifies this
      ensures output == old(output) + SignText(n, flags, sign) && chars == |SignText(n, flags, sign)|
    {
      chars := 0;
      if Signed(n) < 0 && sign {
        PutChar('-');
        chars := chars + 1;
      } else if Set(flags, PLUS_FOR_POSITIVE) {
        PutChar('+');
        chars := chars + 1;
      } else if Set(flags, SPACE_FOR_POSITIVE) {
        PutChar(' ');
        chars := chars + 1;
      }
    }

    method PutPrefix(flags: bv8, base: nat, upper: bool)
      modifies this
      ensures output == old(output) + PrefixText(flags, base, upper)
    {
      if base == 8 && Set(flags, SPECIAL_HASH) {
        PutChar('0');
      } else if base == 16 && Set(flags, SPECIAL_HASH) {
        PutChar('0');
        PutChar(if upper then 'X' else 'x');
      }
    }

    /** The digits, with the padding on the side the flags ask for. */
    method PutBody(flags: bv8, width: int, base: nat, upper: bool, revn: nat, dcount: nat) returns (chars: nat)
      requires 2 <= base <= 16
      modifies this
      ensures AreDigits(Peel(revn, base, dcount), 16)
      ensures output == old(output) + Body(flags, width, Spell(Peel(revn, base, dcount), upper))
      ensures chars == |output| - |old(output)|
    {
      hide Padding, Spell, Peel, Set;
      PeelDigits(revn, base, dcount);
      var padded;
      if Set(flags, LEFT_ALIGN) {
        PutDigits(revn, base, dcount, upper);
        padded := Pad(flags, width, dcount);
      } else {
        padded := Pad(flags, width, dcount);
        PutDigits(revn, base, dcount, upper);
      }
      chars := padded + dcount;
    }

    /** debug_print_int. The returned count leaves out the characters of a '#' prefix. */
    method PrintInt(n: nat, flags: bv8, width: int, base: nat, sign: bool, upper: bool) returns (chars: nat)
      requires n < WORD && 2 <= base
      modifies this
      ensures base > 16 ==> output == old(output) && chars == 0
      ensures base <= 16 ==>
          var ds := Printed(Magnitude(n, sign), base);
          && output == old(output) + Framed(n, flags, width, base, sign, upper, Spell(ds, upper))
          && chars == |output| - |old(output)| - |PrefixText(flags, base, upper)|
    {
      hide Numeral, Mirror, Peel, SignText, PrefixText, Body, Spell;
      if base > 16 {
        return 0;
      }
      var m := if Signed(n) < 0 && sign then WORD - n else n;
      var revn, dcount := Reverse(m, base);
      chars := PutSign(n, flags, sign);
      PutPrefix(flags, base, upper);
      var rest := PutBody(flags, width, base, upper, revn, dcount);
      chars := chars + rest;
    }
  }
}
