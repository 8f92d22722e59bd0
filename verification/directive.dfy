/** The directives a format can contain: what the scanner of debug_vprintf makes of directives written
    as the language of formats has them, where it goes wrong, and how a format splits at a directive. */
module Directives {
  import opened Digits
  import opened Debug
  import opened Printf

  // ----- Flags -----

  predicate IsFlag(c: char) {
    FlagOf(c) != 0
  }

  /** Flags, none of them twice. */
  ghost predicate DistinctFlags(fs: string) {
    forall j: nat :: j < |fs| ==> IsFlag(fs[j]) && fs[j] !in fs[..j]
  }

  ghost function FlagBits(fs: string): bv8 {
    if fs == "" then 0 else WithFlag(FlagBits(fs[..|fs| - 1]), fs[|fs| - 1])
  }

  /** Adding a flag's bit adds that flag and no other. */
  lemma FlagBitsAreApart(flags: bv8, c: char, d: char)
    requires IsFlag(c) && IsFlag(d)
    ensures WithFlag(WithFlag(flags, c), d) == WithFlag(flags, c) <==> WithFlag(flags, d) == flags || c == d
  {
    hide FlagOf, IsBit;
    FlagIsBit(c);
    FlagIsBit(d);
    BitsAreApart(flags, FlagOf(c), FlagOf(d));
  }

  lemma FlagIsBit(c: char)
    requires IsFlag(c)
    ensures IsBit(FlagOf(c)) && (forall d: char :: FlagOf(d) == FlagOf(c) ==> d == c)
  {
  }

  predicate IsBit(b: bv8) {
    b == 1 || b == 2 || b == 4 || b == 8 || b == 16 || b == 32
  }

  lemma BitsAreApart(flags: bv8, b: bv8, d: bv8)
    requires IsBit(b) && IsBit(d)
    ensures (flags | b) | d == flags | b <==> flags | d == flags || b == d
  {
  }

  /** The bits of a string of flags are those of the flags in it. */
  lemma {:induction false} FlagBitsHold(fs: string, c: char)
    requires (forall j: nat :: j < |fs| ==> IsFlag(fs[j])) && IsFlag(c)
    ensures WithFlag(FlagBits(fs), c) == FlagBits(fs) <==> c in fs
  {
    if fs == "" {
      assert 0 | FlagOf(c) == FlagOf(c);
    } else {
      FlagBitsHold(fs[..|fs| - 1], c);
      FlagBitsAreApart(FlagBits(fs[..|fs| - 1]), fs[|fs| - 1], c);
    }
  }

  /** The flag scan, after it has read the distinct flags fs from index i on. */
  lemma {:induction false} FlagsRead(fmt: string, i: nat, fs: string)
    requires i + |fs| <= |fmt| && fmt[i..i + |fs|] == fs && DistinctFlags(fs)
    ensures FlagsFrom(fmt, i, 0) == FlagsFrom(fmt, i + |fs|, FlagBits(fs))
    decreases |fs|
  {
    hide WithFlag, FlagOf;
    if fs != "" {
      var k := |fs| - 1;
      assert fmt[i..i + k] == fs[..k];
      FlagsRead(fmt, i, fs[..k]);
      FlagsStep(fmt, i + k, fs[..k]);
      assert fmt[i..i + |fs|][k] == fmt[i + k];
    }
  }

  /** One step of the flag scan, in terms of the characters read so far. */
  lemma FlagsStep(fmt: string, k: nat, seen: string)
    requires k < |fmt| && DistinctFlags(seen)
    ensures FlagsFrom(fmt, k, FlagBits(seen)) ==
            if IsFlag(fmt[k]) && fmt[k] !in seen then FlagsFrom(fmt, k + 1, WithFlag(FlagBits(seen), fmt[k]))
            else (FlagBits(seen), k)
  {
    if IsFlag(fmt[k]) {
      FlagBitsHold(seen, fmt[k]);
    } else {
      NoFlagNoBit(FlagBits(seen), fmt[k]);
    }
  }

  lemma NoFlagNoBit(flags: bv8, c: char)
    requires !IsFlag(c)
    ensures WithFlag(flags, c) == flags
  {
    assert flags | 0 == flags;
  }

  /** Where the flag scan ends: the characters read are distinct flags, and it ends on a flag exactly if
      that flag was read before. */
  lemma {:induction false} FlagScanEnds(fmt: string, i: nat, k: nat)
    requires i <= k <= |fmt| && DistinctFlags(fmt[i..k])
    ensures var r := FlagsFrom(fmt, k, FlagBits(fmt[i..k]));
            && k <= r.1 <= |fmt| && DistinctFlags(fmt[i..r.1]) && r.0 == FlagBits(fmt[i..r.1])
            && (r.1 < |fmt| ==> (IsFlag(fmt[r.1]) <==> fmt[r.1] in fmt[i..r.1]))
    decreases |fmt| - k
  {
    if k < |fmt| {
      FlagsStep(fmt, k, fmt[i..k]);
      OnlyFlags(fmt[i..k], fmt[k]);
      hide WithFlag, FlagBits, DistinctFlags, FlagsFrom, IsFlag;
      if IsFlag(fmt[k]) && fmt[k] !in fmt[i..k] {
        OneMoreFlag(fmt, i, k);
        FlagScanEnds(fmt, i, k + 1);
      }
    }
  }

  lemma OnlyFlags(seen: string, c: char)
    requires DistinctFlags(seen)
    ensures c in seen ==> IsFlag(c)
  {
  }

  lemma OneMoreFlag(fmt: string, i: nat, k: nat)
    requires i <= k < |fmt| && DistinctFlags(fmt[i..k]) && IsFlag(fmt[k]) && fmt[k] !in fmt[i..k]
    ensures DistinctFlags(fmt[i..k + 1]) && FlagBits(fmt[i..k + 1]) == WithFlag(FlagBits(fmt[i..k]), fmt[k])
  {
    var fs := fmt[i..k + 1];
    assert fs[..|fs| - 1] == fmt[i..k];
    forall j: nat | j < |fs|
      ensures IsFlag(fs[j]) && fs[j] !in fs[..j]
    {
      assert j < k - i ==> fs[..j] == fmt[i..k][..j] && fs[j] == fmt[i..k][j];
      assert j == k - i ==> fs[..j] == fmt[i..k];
    }
  }

  // ----- Width and length -----

  ghost predicate AllDigits(ws: string) {
    forall j: nat :: j < |ws| ==> IsDigit(ws[j])
  }

  /** The number a string of digits denotes in base ten. */
  ghost function NumberOf(ws: string): nat
    requires AllDigits(ws)
  {
    Parse(seq(|ws|, j requires 0 <= j < |ws| => DigitOf(ws[j])), 10)
  }

  lemma NumberSnoc(ws: string)
    requires AllDigits(ws) && 0 < |ws|
    ensures AllDigits(ws[..|ws| - 1]) && NumberOf(ws) == NumberOf(ws[..|ws| - 1]) * 10 + DigitOf(ws[|ws| - 1])
  {
    var ds := seq(|ws|, j requires 0 <= j < |ws| => DigitOf(ws[j]));
    var front := ws[..|ws| - 1];
    assert ds[..|ds| - 1] == seq(|front|, j requires 0 <= j < |front| => DigitOf(front[j]));
  }

  lemma {:induction false} WidthRead(fmt: string, i: nat, ws: string)
    requires i + |ws| <= |fmt| && fmt[i..i + |ws|] == ws && AllDigits(ws)
    ensures WidthFrom(fmt, i, 0) == WidthFrom(fmt, i + |ws|, NumberOf(ws))
    decreases |ws|
  {
    if ws != "" {
      var k := |ws| - 1;
      assert fmt[i..i + k] == ws[..k];
      WidthRead(fmt, i, ws[..k]);
      NumberSnoc(ws);
      assert fmt[i..i + |ws|][k] == fmt[i + k];
    }
  }

  predicate IsLengthText(ls: string) {
    ls in {"", "h", "hh", "l", "ll", "z", "j", "t"}
  }

  /** What a length modifier means before the conversion c. */
  function LengthOf(ls: string, c: char): Length
    requires IsLengthText(ls)
  {
    if ls == "l" then Long
    else if ls == "ll" then LongLong
    else if ls == "z" then Size
    else if ls == "j" then IntMax
    else if ls == "t" then PtrDiff
    else if ls == "" && (c == 'p' || c == 's') then Ptr
    else Int
  }

  predicate IsConversion(c: char) {
    TakesArg(c) || c == '%'
  }

  lemma LengthRead(fmt: string, i: nat, ls: string, c: char)
    requires i + |ls| < |fmt| && fmt[i..i + |ls|] == ls && fmt[i + |ls|] == c
    requires IsLengthText(ls) && IsConversion(c)
    ensures LengthAt(fmt, i) == (LengthOf(ls, c), i + |ls|)
  {
    assert |ls| > 0 ==> fmt[i..i + |ls|][0] == fmt[i];
    assert |ls| > 1 ==> fmt[i..i + |ls|][1] == fmt[i + 1];
  }

  // ----- Whole directives -----

  /** A directive as a format writes it. */
  datatype Source = Source(flags: string, width: string, length: string, conv: char) {
    /** Flags of any kind in any number; a width does not begin with 0, which would be a flag. */
    ghost predicate WellFormed() {
      && (forall j: nat :: j < |flags| ==> IsFlag(flags[j]))
      && AllDigits(width) && (width != "" ==> width[0] != '0') && IsLengthText(length) && IsConversion(conv)
    }

    /** No flag twice. */
    ghost predicate Valid() {
      WellFormed() && DistinctFlags(flags)
    }

    function Text(): (s: string)
      ensures |s| == |flags| + |width| + |length| + 2
    {
      "%" + flags + width + length + [conv]
    }

    ghost function Meaning(at: nat): Directive
      requires WellFormed()
    {
      Directive(FlagBits(flags), if NumberOf(width) > MAX_WIDTH then MAX_WIDTH else NumberOf(width),
                LengthOf(length, conv), conv, at)
    }
  }

  /** The directive d is written in the format from index i on. */
  ghost predicate WrittenAt(fmt: string, i: nat, d: Source) {
    var j := i + 1 + |d.flags|;
    var k := j + |d.width|;
    var l := k + |d.length|;
    && l < |fmt| && fmt[i] == '%' && fmt[i + 1..j] == d.flags && fmt[j..k] == d.width && fmt[k..l] == d.length
    && fmt[l] == d.conv
  }

  lemma AfterFlags(fmt: string, i: nat, d: Source)
    requires WrittenAt(fmt, i, d) && d.WellFormed()
    ensures !IsFlag(fmt[i + 1 + |d.flags|]) && !IsDigit(fmt[i + 1 + |d.flags| + |d.width|])
  {
    var j := i + 1 + |d.flags|;
    var k := j + |d.width|;
    var l := k + |d.length|;
    assert d.width != "" ==> fmt[j] == fmt[j..k][0];
    assert d.length != "" ==> fmt[k] == fmt[k..l][0];
  }

  lemma FlagsOf(fmt: string, i: nat, d: Source)
    requires WrittenAt(fmt, i, d) && d.Valid()
    ensures FlagsFrom(fmt, i + 1, 0) == (FlagBits(d.flags), i + 1 + |d.flags|)
  {
    var j := i + 1 + |d.flags|;
    AfterFlags(fmt, i, d);
    FlagsRead(fmt, i + 1, d.flags);
    FlagsStop(fmt, j, FlagBits(d.flags));
  }

  lemma WidthOf(fmt: string, i: nat, d: Source)
    requires WrittenAt(fmt, i, d) && d.Valid()
    ensures var j := i + 1 + |d.flags|; WidthFrom(fmt, j, 0) == (NumberOf(d.width), j + |d.width|)
  {
    AfterFlags(fmt, i, d);
    WidthRead(fmt, i + 1 + |d.flags|, d.width);
  }

  /** A directive, from its parts. */
  lemma FromParts(fmt: string, i: nat, flags: (bv8, nat), width: (nat, nat), length: (Length, nat))
    requires i < |fmt| && InString(fmt, flags.1) && InString(fmt, width.1)
    requires FlagsFrom(fmt, i + 1, 0) == flags && WidthFrom(fmt, flags.1, 0) == width
    requires LengthAt(fmt, width.1) == length
    ensures var d := DirectiveAt(fmt, i);
            && d.flags == flags.0 && d.width == (if width.0 > MAX_WIDTH then MAX_WIDTH else width.0)
            && d.length == length.0 && d.at == length.1
  {
    hide FlagsFrom, WidthFrom, LengthAt;
  }

  lemma ScanAt(fmt: string, i: nat, d: Source)
    requires WrittenAt(fmt, i, d) && d.Valid()
    ensures DirectiveAt(fmt, i) == d.Meaning(i + |d.Text()| - 1)
  {
    hide FlagsFrom, WidthFrom, LengthAt, FlagBits, LengthOf, NumberOf, DistinctFlags, IsFlag, DirectiveAt;
    var j := i + 1 + |d.flags|;
    var k := j + |d.width|;
    FlagsOf(fmt, i, d);
    WidthOf(fmt, i, d);
    LengthRead(fmt, k, d.length, d.conv);
    FromParts(fmt, i, (FlagBits(d.flags), j), (NumberOf(d.width), k), (LengthOf(d.length, d.conv), k + |d.length|));
  }

  lemma TextParts(d: Source)
    ensures var t, j, k := d.Text(), 1 + |d.flags|, 1 + |d.flags| + |d.width|;
            && t[0] == '%' && t[1..j] == d.flags && t[j..k] == d.width && t[k..|t| - 1] == d.length
            && t[|t| - 1] == d.conv
  {
  }

  lemma TextIsWritten(before: string, d: Source, after: string)
    ensures WrittenAt(before + d.Text() + after, |before|, d)
  {
    hide Source.Text;
    var t, j, k := d.Text(), 1 + |d.flags|, 1 + |d.flags| + |d.width|;
    TextParts(d);
    PartOfMiddle(before, t, after, 0, 1);
    PartOfMiddle(before, t, after, 1, j);
    PartOfMiddle(before, t, after, j, k);
    PartOfMiddle(before, t, after, k, |t| - 1);
    PartOfMiddle(before, t, after, |t| - 1, |t|);
  }

  lemma PartOfMiddle(before: string, t: string, after: string, j: nat, k: nat)
    requires j <= k <= |t|
    ensures (before + t + after)[|before| + j..|before| + k] == t[j..k]
    ensures j < k ==> (before + t + after)[|before| + j] == t[j]
  {
  }

  /** Scanning a directive reads back the flags, the width, the length and the conversion it was written
      with, and ends on the conversion, whatever is before and after it. */
  lemma ScanReadsBack(before: string, d: Source, after: string)
    requires d.Valid()
    ensures DirectiveAt(before + d.Text() + after, |before|) == d.Meaning(|before| + |d.Text()| - 1)
  {
    TextIsWritten(before, d, after);
    ScanAt(before + d.Text() + after, |before|, d);
  }

  lemma FlagsStop(fmt: string, j: nat, flags: bv8)
    requires j < |fmt| && !IsFlag(fmt[j])
    ensures FlagsFrom(fmt, j, flags) == (flags, j)
  {
    assert flags | 0 == flags;
  }

  // ----- Repeated flags -----

  /** The first flag at index k or later that stands earlier in the string already. */
  ghost function FirstRepeat(fs: string, k: nat): (r: nat)
    requires k <= |fs|
    ensures k <= r <= |fs|
    decreases |fs| - k
  {
    if k == |fs| || fs[k] in fs[..k] then k else FirstRepeat(fs, k + 1)
  }

  lemma {:induction false} BeforeRepeat(fs: string, k: nat)
    requires k <= |fs| && DistinctFlags(fs[..k]) && forall j: nat :: j < |fs| ==> IsFlag(fs[j])
    ensures var r := FirstRepeat(fs, k); DistinctFlags(fs[..r]) && (r < |fs| ==> fs[r] in fs[..r])
    decreases |fs| - k
  {
    if k < |fs| && fs[k] !in fs[..k] {
      assert fs[0..k] == fs[..k] && fs[0..k + 1] == fs[..k + 1];
      OneMoreFlag(fs, 0, k);
      BeforeRepeat(fs, k + 1);
    }
  }

  /** The index after the zeros that stand at index k and on. */
  ghost function SkipZeros(fs: string, k: nat): (r: nat)
    requires k <= |fs|
    ensures k <= r <= |fs| && (r < |fs| ==> fs[r] != '0') && forall j: nat :: k <= j < r ==> fs[j] == '0'
    decreases |fs| - k
  {
    if k == |fs| || fs[k] != '0' then k else SkipZeros(fs, k + 1)
  }

  /** Where the row of flags breaks off: the first repeated flag and the zeros behind it are read as
      digits of the width. */
  ghost function BreaksOff(fs: string): (r: nat)
    ensures FirstRepeat(fs, 0) <= r <= |fs| && (r < |fs| ==> fs[r] != '0')
    ensures forall j: nat :: FirstRepeat(fs, 0) <= j < r ==> fs[j] == '0'
  {
    SkipZeros(fs, FirstRepeat(fs, 0))
  }

  /** The string fs is written in the format at index i. */
  ghost predicate HasAt(fmt: string, i: nat, fs: string) {
    i + |fs| < |fmt| && fmt[i..i + |fs|] == fs
  }

  lemma PartAt(fmt: string, i: nat, fs: string, k: nat, r: nat)
    requires HasAt(fmt, i, fs) && k <= r <= |fs|
    ensures fmt[i + k..i + r] == fs[k..r] && fmt[i..i + k] == fs[..k] && (r < |fs| ==> fmt[i + r] == fs[r])
  {
    forall j: nat | j < |fs|
      ensures fs[j] == fmt[i + j]
    {
      assert fmt[i..i + |fs|][j] == fmt[i + j];
    }
  }

  /** Distinct flags with something behind them that is no flag, or one of them. */
  lemma ScanDistinct(fmt: string, i: nat, seen: string)
    requires i + |seen| < |fmt| && fmt[i..i + |seen|] == seen && DistinctFlags(seen)
    requires IsFlag(fmt[i + |seen|]) ==> fmt[i + |seen|] in seen
    ensures FlagsFrom(fmt, i, 0) == (FlagBits(seen), i + |seen|)
  {
    hide IsFlag, FlagBits, FlagsFrom, WithFlag, DistinctFlags;
    FlagsRead(fmt, i, seen);
    FlagsStep(fmt, i + |seen|, seen);
  }

  /** The flag scan reads the flags up to the first repeated one. */
  lemma ScanToRepeat(fmt: string, i: nat, fs: string)
    requires HasAt(fmt, i, fs) && (forall j: nat :: j < |fs| ==> IsFlag(fs[j])) && !IsFlag(fmt[i + |fs|])
    ensures var k := FirstRepeat(fs, 0); FlagsFrom(fmt, i, 0) == (FlagBits(fs[..k]), i + k)
  {
    hide IsFlag, FlagBits, FlagsFrom, WithFlag, DistinctFlags, FirstRepeat;
    var k := FirstRepeat(fs, 0);
    NoFlagsAreDistinct();
    assert fs[..0] == "";
    BeforeRepeat(fs, 0);
    PartAt(fmt, i, fs, k, k);
    ScanDistinct(fmt, i, fs[..k]);
  }

  /** The width scan goes over the zeros behind it. */
  lemma ScanToBreak(fmt: string, i: nat, fs: string)
    requires HasAt(fmt, i, fs)
    ensures WidthFrom(fmt, i + FirstRepeat(fs, 0), 0) == WidthFrom(fmt, i + BreaksOff(fs), 0)
  {
    hide WidthFrom, NumberOf, AllDigits, BreaksOff, FirstRepeat;
    var k, r := FirstRepeat(fs, 0), BreaksOff(fs);
    PartAt(fmt, i, fs, k, r);
    ZerosAreZero(fs[k..r]);
    WidthRead(fmt, i + k, fs[k..r]);
  }

  lemma NoFlagsAreDistinct()
    ensures DistinctFlags("")
  {
  }

  lemma {:induction false} ZerosAreZero(ws: string)
    requires forall j: nat :: j < |ws| ==> ws[j] == '0'
    ensures AllDigits(ws) && NumberOf(ws) == 0
  {
    if ws != "" {
      ZerosAreZero(ws[..|ws| - 1]);
      NumberSnoc(ws);
    }
  }

  /** Flags that stand earlier already add nothing. */
  lemma {:induction false} RepeatsAddNothing(fs: string, k: nat, n: nat)
    requires k <= n <= |fs| && forall j: nat :: j < |fs| ==> IsFlag(fs[j])
    requires forall j: nat :: k <= j < n ==> fs[j] in fs[..k]
    ensures FlagBits(fs[..n]) == FlagBits(fs[..k])
  {
    hide IsFlag, WithFlag;
    if k < n {
      RepeatsAddNothing(fs, k, n - 1);
      assert fs[..n][..n - 1] == fs[..n - 1];
      assert fs[n - 1] in fs[..n - 1] by {
        var j: nat :| j < k && fs[..k][j] == fs[n - 1];
        assert fs[..n - 1][j] == fs[n - 1];
      }
      FlagBitsHold(fs[..n - 1], fs[n - 1]);
    }
  }

  /** If the row of flags does not break off, the flags up to the first repeated one are all there are. */
  lemma WholeRow(fs: string)
    requires BreaksOff(fs) == |fs| && forall j: nat :: j < |fs| ==> IsFlag(fs[j])
    ensures FlagBits(fs[..FirstRepeat(fs, 0)]) == FlagBits(fs)
  {
    hide IsFlag, FlagBits, DistinctFlags, BreaksOff;
    var k := FirstRepeat(fs, 0);
    NoFlagsAreDistinct();
    assert fs[..0] == "" && fs[..|fs|] == fs;
    BeforeRepeat(fs, 0);
    RepeatsAddNothing(fs, k, |fs|);
  }

  /** The directive is written in the format from index i on, with flags of any kind in any number. */
  ghost predicate LooselyWritten(fmt: string, i: nat, d: Source) {
    WrittenAt(fmt, i, d) && d.WellFormed() && !IsFlag(fmt[i + 1 + |d.flags|])
  }

  lemma WholeFlags(fmt: string, i: nat, d: Source)
    requires LooselyWritten(fmt, i, d) && BreaksOff(d.flags) == |d.flags|
    ensures DirectiveAt(fmt, i) == d.Meaning(i + |d.Text()| - 1)
  {
    hide IsFlag, FlagBits, FlagsFrom, WidthFrom, LengthAt, WithFlag, NumberOf, AllDigits, DistinctFlags, BreaksOff,
         FirstRepeat, DirectiveAt, LengthOf, Source.Text, IsConversion, IsLengthText;
    var k, j := i + 1 + FirstRepeat(d.flags, 0), i + 1 + |d.flags|;
    AfterFlags(fmt, i, d);
    WholeRow(d.flags);
    ScanToRepeat(fmt, i + 1, d.flags);
    ScanToBreak(fmt, i + 1, d.flags);
    WidthEnds(fmt, j, d.width);
    LengthRead(fmt, j + |d.width|, d.length, d.conv);
    FromParts(fmt, i, FlagsFrom(fmt, i + 1, 0), WidthFrom(fmt, k, 0), LengthAt(fmt, j + |d.width|));
  }

  lemma BrokenFlags(fmt: string, i: nat, d: Source)
    requires LooselyWritten(fmt, i, d) && BreaksOff(d.flags) < |d.flags|
    ensures var r, found := BreaksOff(d.flags), DirectiveAt(fmt, i);
            && found.conv == d.flags[r] && found.at == i + 1 + r
            && !TakesArg(found.conv) && DirectiveText(found, NO_ARG) == ""
  {
    hide IsFlag, FlagBits, FlagsFrom, WidthFrom, LengthAt, WithFlag, NumberOf, AllDigits, DistinctFlags, BreaksOff,
         FirstRepeat, DirectiveAt, LengthOf, DirectiveText, IsConversion, IsLengthText;
    var k, r := i + 1 + FirstRepeat(d.flags, 0), BreaksOff(d.flags);
    ScanToRepeat(fmt, i + 1, d.flags);
    ScanToBreak(fmt, i + 1, d.flags);
    PartAt(fmt, i + 1, d.flags, r, r);
    FlagIsNothingElse(fmt, i + 1 + r);
    FromParts(fmt, i, FlagsFrom(fmt, i + 1, 0), WidthFrom(fmt, k, 0), LengthAt(fmt, i + 1 + r));
  }

  /** Flags of any kind in any number, a width, a length and a conversion, at index i. The scan reads
      back all of it exactly if the row of flags does not break off, or breaks off in zeros only.
      Otherwise the directive ends on the flag where the row breaks off, which it takes for the
      conversion: it prints nothing and takes no argument. */
  lemma RepeatedFlags(fmt: string, i: nat, d: Source)
    requires WrittenAt(fmt, i, d) && d.WellFormed()
    ensures var r, found := BreaksOff(d.flags), DirectiveAt(fmt, i);
            && (r == |d.flags| <==> found == d.Meaning(i + |d.Text()| - 1))
            && (r < |d.flags| ==>
                  found.conv == d.flags[r] && found.at == i + 1 + r
                  && !TakesArg(found.conv) && DirectiveText(found, NO_ARG) == "")
  {
    AfterFlags(fmt, i, d);
    if BreaksOff(d.flags) == |d.flags| {
      WholeFlags(fmt, i, d);
    } else {
      BrokenFlags(fmt, i, d);
    }
  }

  lemma WidthEnds(fmt: string, j: nat, ws: string)
    requires j + |ws| < |fmt| && fmt[j..j + |ws|] == ws && AllDigits(ws) && !IsDigit(fmt[j + |ws|])
    ensures WidthFrom(fmt, j, 0) == (NumberOf(ws), j + |ws|)
  {
    WidthRead(fmt, j, ws);
  }

  /** A flag other than 0 is no digit, no length and no conversion. */
  lemma FlagIsNothingElse(fmt: string, at: nat)
    requires at < |fmt| && IsFlag(fmt[at]) && fmt[at] != '0'
    ensures WidthFrom(fmt, at, 0) == (0, at) && LengthAt(fmt, at) == (Int, at) && !TakesArg(fmt[at])
    ensures forall d: Directive :: d.conv == fmt[at] ==> DirectiveText(d, NO_ARG) == ""
  {
  }

  /** A directive with a repeated flag that goes wrong: it prints nothing, the rest of it is printed as
      text, and the argument that was meant for it is left for the next directive. */
  lemma MinusMinusGoesWrong(args: seq<Arg>)
    ensures WellTyped("%--5d", 0, args) && Formatted("%--5d", 0, args) == "5d"
  {
    hide DirectiveAt;
    var fmt := "%--5d";
    var d := Source("--", "5", "", 'd');
    assert fmt[1..3] == "--" && fmt[3..4] == "5" && fmt[4..4] == "";
    assert FirstRepeat("--", 1) == 1 && FirstRepeat("--", 0) == 1;
    RepeatedFlags(fmt, 0, d);
    AtDirective(fmt, 0, args, DirectiveAt(fmt, 0));
    AtPlain(fmt, 3, args);
    AtPlain(fmt, 4, args);
    AtEnd(fmt, 5, args);
  }

  // ----- Splitting a format -----

  lemma {:induction false} FlagsShift(p: string, s: string, i: nat, flags: bv8)
    requires i <= |s|
    ensures FlagsFrom(p + s, |p| + i, flags) ==
            (FlagsFrom(s, i, flags).0, |p| + FlagsFrom(s, i, flags).1)
    decreases |s| - i
  {
    hide WithFlag;
    if i < |s| && WithFlag(flags, s[i]) != flags {
      FlagsShift(p, s, i + 1, WithFlag(flags, s[i]));
    }
  }

  lemma {:induction false} WidthShift(p: string, s: string, i: nat, width: nat)
    requires i <= |s|
    ensures WidthFrom(p + s, |p| + i, width) == (WidthFrom(s, i, width).0, |p| + WidthFrom(s, i, width).1)
    decreases |s| - i
  {
    if i < |s| && IsDigit(s[i]) {
      WidthShift(p, s, i + 1, width * 10 + DigitOf(s[i]));
    }
  }

  /** What stands before a directive does not matter to it. */
  lemma DirectiveShift(p: string, s: string, i: nat)
    requires i < |s|
    ensures DirectiveAt(p + s, |p| + i) == DirectiveAt(s, i).(at := |p| + DirectiveAt(s, i).at)
  {
    hide FlagsFrom, WidthFrom;
    FlagsShift(p, s, i + 1, 0);
    WidthShift(p, s, FlagsFrom(s, i + 1, 0).1, 0);
  }

  /** The shape of Formatted and WellTyped at a directive. */
  lemma AtDirective(fmt: string, i: nat, args: seq<Arg>, d: Directive)
    requires i < |fmt| && fmt[i] == '%' && d == DirectiveAt(fmt, i)
    ensures WellTyped(fmt, i, args) <==>
            (TakesArg(d.conv) ==> args != []) && Fits(d.conv, NextArg(d, args))
            && WellTyped(fmt, d.at + 1, RestArgs(d, args))
    ensures WellTyped(fmt, i, args) ==>
        && Formatted(fmt, i, args) == DirectiveText(d, NextArg(d, args)) + Formatted(fmt, d.at + 1, RestArgs(d, args))
        && Returned(fmt, i, args) == DirectiveCount(d, NextArg(d, args)) + Returned(fmt, d.at + 1, RestArgs(d, args))
  {
    hide DirectiveAt, DirectiveText, DirectiveCount, Fits, TakesArg, NextArg, RestArgs;
  }

  lemma AtPlain(fmt: string, i: nat, args: seq<Arg>)
    requires i < |fmt| && fmt[i] != '%'
    ensures WellTyped(fmt, i, args) <==> WellTyped(fmt, i + 1, args)
    ensures WellTyped(fmt, i, args) ==>
        && Formatted(fmt, i, args) == [fmt[i]] + Formatted(fmt, i + 1, args)
        && Returned(fmt, i, args) == 1 + Returned(fmt, i + 1, args)
  {
    hide DirectiveAt, DirectiveText, DirectiveCount, Fits, TakesArg, NextArg, RestArgs;
  }

  lemma AtEnd(fmt: string, i: nat, args: seq<Arg>)
    requires |fmt| <= i
    ensures WellTyped(fmt, i, args) && Formatted(fmt, i, args) == "" && Returned(fmt, i, args) == 0
  {
  }

  /** Where a directive ends plays no part in what it prints. */
  lemma TextIgnoresPlace(d: Directive, at: nat, arg: Arg)
    requires Fits(d.conv, arg)
    ensures DirectiveText(d.(at := at), arg) == DirectiveText(d, arg)
    ensures DirectiveCount(d.(at := at), arg) == DirectiveCount(d, arg)
  {
    hide Framed, Spell, Printed, Magnitude, BaseOf, IsSigned, IsUpper, IsInteger;
  }

  lemma {:induction false} FormattedShift(p: string, s: string, i: nat, args: seq<Arg>)
    ensures WellTyped(p + s, |p| + i, args) <==> WellTyped(s, i, args)
    ensures WellTyped(s, i, args) ==>
        && Formatted(p + s, |p| + i, args) == Formatted(s, i, args)
        && Returned(p + s, |p| + i, args) == Returned(s, i, args)
    decreases |s| + 1 - i
  {
    hide DirectiveAt, DirectiveText, DirectiveCount, WellTyped, Formatted, Returned, Fits, TakesArg, NextArg, RestArgs;
    if i >= |s| {
      AtEnd(s, i, args);
      AtEnd(p + s, |p| + i, args);
    } else if s[i] != '%' {
      AtPlain(s, i, args);
      AtPlain(p + s, |p| + i, args);
      FormattedShift(p, s, i + 1, args);
    } else {
      DirectiveShift(p, s, i);
      var d, d' := DirectiveAt(s, i), DirectiveAt(p + s, |p| + i);
      AtDirective(s, i, args, d);
      AtDirective(p + s, |p| + i, args, d');
      if TakesArg(d.conv) ==> args != [] {
        SameArgs(d, d', args);
        FormattedShift(p, s, d.at + 1, RestArgs(d, args));
        if Fits(d.conv, NextArg(d, args)) {
          TextIgnoresPlace(d, d'.at, NextArg(d, args));
        }
      }
    }
  }

  lemma SameArgs(d: Directive, d': Directive, args: seq<Arg>)
    requires d'.conv == d.conv && (TakesArg(d.conv) ==> args != [])
    ensures NextArg(d', args) == NextArg(d, args) && RestArgs(d', args) == RestArgs(d, args)
  {
  }

  lemma {:induction false} PlainPrefix(p: string, s: string, k: nat, args: seq<Arg>)
    requires '%' !in p && k <= |p|
    ensures WellTyped(p + s, k, args) <==> WellTyped(s, 0, args)
    ensures WellTyped(s, 0, args) ==>
        && Formatted(p + s, k, args) == p[k..] + Formatted(s, 0, args)
        && Returned(p + s, k, args) == |p| - k + Returned(s, 0, args)
    decreases |p| - k
  {
    hide WellTyped, Formatted, Returned;
    if k < |p| {
      assert p[k] != '%' && p[k..] == [p[k]] + p[k + 1..];
      AtPlain(p + s, k, args);
      PlainPrefix(p, s, k + 1, args);
    } else {
      FormattedShift(p, s, 0, args);
    }
  }

  /** What a directive prints depends on what it means and not on where it stands. */
  ghost function MeaningText(d: Source, arg: Arg): string
    requires d.Valid() && Fits(d.conv, arg)
  {
    DirectiveText(d.Meaning(0), arg)
  }

  ghost function MeaningCount(d: Source, arg: Arg): int
    requires d.Valid() && Fits(d.conv, arg)
  {
    DirectiveCount(d.Meaning(0), arg)
  }

  lemma DirectiveThenRest(d: Source, after: string, args: seq<Arg>)
    requires d.Valid() && (TakesArg(d.conv) ==> args != [])
    requires Fits(d.conv, NextArg(d.Meaning(0), args)) && WellTyped(after, 0, RestArgs(d.Meaning(0), args))
    ensures WellTyped(d.Text() + after, 0, args)
    ensures Formatted(d.Text() + after, 0, args) ==
            MeaningText(d, NextArg(d.Meaning(0), args)) + Formatted(after, 0, RestArgs(d.Meaning(0), args))
    ensures Returned(d.Text() + after, 0, args) ==
            MeaningCount(d, NextArg(d.Meaning(0), args)) + Returned(after, 0, RestArgs(d.Meaning(0), args))
  {
    hide WellTyped, Formatted, Returned, DirectiveCount, DirectiveText, Fits, TakesArg, DirectiveAt;
    var m := d.Meaning(|d.Text()| - 1);
    ScanReadsBack("", d, after);
    assert "" + d.Text() + after == d.Text() + after;
    assert (d.Text() + after)[0] == '%';
    AtDirective(d.Text() + after, 0, args, m);
    FormattedShift(d.Text(), after, 0, RestArgs(m, args));
    TextIgnoresPlace(m, 0, NextArg(m, args));
  }

  /** Plain text, a directive, and the rest of a format print the text, what the directive prints, and
      what the rest prints with the remaining arguments. */
  lemma FormatSplits(before: string, d: Source, after: string, args: seq<Arg>)
    requires '%' !in before && d.Valid() && (TakesArg(d.conv) ==> args != [])
    requires Fits(d.conv, NextArg(d.Meaning(0), args)) && WellTyped(after, 0, RestArgs(d.Meaning(0), args))
    ensures WellTyped(before + (d.Text() + after), 0, args)
    ensures Formatted(before + (d.Text() + after), 0, args) ==
            before + (MeaningText(d, NextArg(d.Meaning(0), args)) + Formatted(after, 0, RestArgs(d.Meaning(0), args)))
  {
    hide Formatted, WellTyped, MeaningText;
    DirectiveThenRest(d, after, args);
    PlainPrefix(before, d.Text() + after, 0, args);
    assert before[0..] == before;
  }
}
