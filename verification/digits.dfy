/** Numerals and the reversal of their digits in a 64-bit word. */
module Digits {

  /** One more than the largest uintmax_t. */
  const WORD: nat := 0x1_0000_0000_0000_0000

  ghost function Pow(b: nat, e: nat): nat {
    if e == 0 then 1 else b * Pow(b, e - 1)
  }

  // ----- Division -----

  lemma MulMonotone(a: int, x: int, y: int)
    requires 0 <= a && x <= y
    ensures a * x <= a * y
  {
  }

  /** Cutting the last digit off. */
  lemma Shorter(n: nat, b: nat)
    requires 2 <= b <= n
    ensures 0 < n / b < n && n == b * (n / b) + n % b
  {
  }

  lemma DivSmaller(x: nat, b: nat, p: nat)
    requires 0 < b && x < b * p
    ensures 0 <= x / b < p
  {
  }

  lemma DivIdentity(x: nat, b: nat)
    requires 0 < b
    ensures x % b + b * (x / b) == x
  {
  }

  lemma DivMod(d: nat, b: nat, x: nat)
    requires d < b
    ensures (d + b * x) % b == d && (d + b * x) / b == x
  {
    var n := d + b * x;
    var q, r := n / b, n % b;
    assert n == b * q + r && 0 <= r < b;
    if q < x {
      MulMonotone(b, q + 1, x);
    } else if x < q {
      MulMonotone(b, x + 1, q);
    }
  }

  lemma PushBound(d: nat, b: nat, x: nat, p: nat)
    requires d < b && x < p
    ensures d + b * x < b * p
  {
    MulMonotone(b, x + 1, p);
  }

  // ----- Numerals -----

  /** Every element is a digit of the base. */
  ghost predicate AreDigits(ds: seq<nat>, b: nat) {
    forall i: nat :: i < |ds| ==> ds[i] < b
  }

  /** The number a numeral denotes, most significant digit first. */
  ghost function Parse(ds: seq<nat>, b: nat): nat {
    if ds == [] then 0 else Parse(ds[..|ds| - 1], b) * b + ds[|ds| - 1]
  }

  /** The number the numeral denotes when it is read backwards. */
  ghost function Mirror(ds: seq<nat>, b: nat): nat {
    if ds == [] then 0 else ds[0] + b * Mirror(ds[1..], b)
  }

  /** The numeral of n, without leading zeros; zero has one digit. */
  ghost function Numeral(n: nat, b: nat): (ds: seq<nat>)
    requires 2 <= b
    ensures 0 < |ds| && AreDigits(ds, b) && (1 < |ds| ==> ds[0] != 0)
    decreases n
  {
    if n < b then [n]
    else
      Shorter(n, b);
      Numeral(n / b, b) + [n % b]
  }

  lemma ParsePush(ds: seq<nat>, b: nat, d: nat)
    ensures Parse(ds + [d], b) == b * Parse(ds, b) + d
  {
  }

  lemma {:induction false} ParseNumeral(n: nat, b: nat)
    requires 2 <= b
    ensures Parse(Numeral(n, b), b) == n
    decreases n
  {
    if n < b {
      assert Parse([n][..0], b) == 0;
    } else {
      Shorter(n, b);
      ParseNumeral(n / b, b);
      ParsePush(Numeral(n / b, b), b, n % b);
    }
  }

  /** The digits peeled off the low end of x, in the order in which they are peeled. */
  ghost function Peel(x: nat, b: nat, count: nat): (ds: seq<nat>)
    requires 2 <= b
    ensures |ds| == count
    decreases count
  {
    if count == 0 then [] else [x % b] + Peel(x / b, b, count - 1)
  }

  lemma {:induction false} PeelMirror(ds: seq<nat>, b: nat)
    requires 2 <= b && AreDigits(ds, b)
    ensures Peel(Mirror(ds, b), b, |ds|) == ds
  {
    if ds != [] {
      DivMod(ds[0], b, Mirror(ds[1..], b));
      PeelMirror(ds[1..], b);
    }
  }

  lemma {:induction false} MirrorPeel(x: nat, b: nat, count: nat)
    requires 2 <= b && x < Pow(b, count)
    ensures Mirror(Peel(x, b, count), b) == x
    decreases count
  {
    if count > 0 {
      DivSmaller(x, b, Pow(b, count - 1));
      MirrorPeel(x / b, b, count - 1);
      assert Peel(x, b, count)[1..] == Peel(x / b, b, count - 1);
      DivIdentity(x, b);
    }
  }

  lemma {:induction false} MirrorBound(ds: seq<nat>, b: nat)
    requires 2 <= b && AreDigits(ds, b)
    ensures Mirror(ds, b) < Pow(b, |ds|)
  {
    if ds != [] {
      MirrorBound(ds[1..], b);
      PushBound(ds[0], b, Mirror(ds[1..], b), Pow(b, |ds| - 1));
    }
  }

  /** Peeling the mirror image, cut down to a word, gives the numeral back exactly when the mirror
      image fits the word. */
  lemma PeelWord(ds: seq<nat>, b: nat)
    requires 2 <= b && AreDigits(ds, b)
    ensures Peel(Mirror(ds, b) % WORD, b, |ds|) == ds <==> Mirror(ds, b) < WORD
  {
    hide Mirror, Peel, Pow, AreDigits;
    var w := Mirror(ds, b) % WORD;
    PeelMirror(ds, b);
    MirrorBound(ds, b);
    MirrorPeel(w, b, |ds|);
  }

  lemma {:induction false} NumeralLength(n: nat, b: nat, e: nat)
    requires 2 <= b && 0 < e && n < Pow(b, e)
    ensures |Numeral(n, b)| <= e
    decreases e
  {
    if n >= b {
      Shorter(n, b);
      DivSmaller(n, b, Pow(b, e - 1));
      NumeralLength(n / b, b, e - 1);
    }
  }

  lemma {:induction false} PowGrows(b: nat, d: nat, e: nat)
    requires 2 <= b && d <= e
    ensures 0 < Pow(b, d) <= Pow(b, e)
    decreases e
  {
    if d < e {
      PowGrows(b, d, e - 1);
      MulMonotone(Pow(b, e - 1), 1, b);
    } else if d > 0 {
      PowGrows(b, d - 1, e - 1);
    }
  }

  /** Where base^e fits the word, every number below base^e is mirrored within the word. */
  lemma MirrorFits(n: nat, b: nat, e: nat)
    requires 2 <= b && 0 < e && n < Pow(b, e) <= WORD
    ensures Mirror(Numeral(n, b), b) < WORD
  {
    NumeralLength(n, b, e);
    MirrorBound(Numeral(n, b), b);
    PowGrows(b, |Numeral(n, b)|, e);
  }

  lemma {:induction false} NumeralLong(n: nat, b: nat, e: nat)
    requires 2 <= b && Pow(b, e) <= n
    ensures e < |Numeral(n, b)|
    decreases e
  {
    if e > 0 {
      PowGrows(b, 0, e - 1);
      MulMonotone(b, 1, Pow(b, e - 1));
      Shorter(n, b);
      DivAtLeast(n, b, Pow(b, e - 1));
      NumeralLong(n / b, b, e - 1);
    }
  }

  lemma LastDigit(n: nat, b: nat)
    requires 2 <= b
    ensures Numeral(n, b)[|Numeral(n, b)| - 1] == n % b
  {
  }

  lemma DivAtLeast(x: nat, b: nat, p: nat)
    requires 0 < b && b * p <= x
    ensures p <= x / b
  {
    var q := x / b;
    assert x == b * q + x % b;
    if q < p {
      MulMonotone(b, q + 1, p);
    }
  }

  /** The last digit of a numeral is the first of its mirror image. */
  lemma {:induction false} MirrorAtLeast(ds: seq<nat>, b: nat)
    requires 0 < |ds|
    ensures ds[|ds| - 1] * Pow(b, |ds| - 1) <= Mirror(ds, b)
  {
    if |ds| > 1 {
      MirrorAtLeast(ds[1..], b);
      var d, p := ds[|ds| - 1], Pow(b, |ds| - 2);
      MulMonotone(b, d * p, Mirror(ds[1..], b));
      assert b * (d * p) == d * (b * p);
    } else {
      assert Pow(b, 0) == 1;
    }
  }

  lemma {:induction false} PowSum(b: nat, d: nat, e: nat)
    ensures Pow(b, d + e) == Pow(b, d) * Pow(b, e)
  {
    if d > 0 {
      PowSum(b, d - 1, e);
      assert b * (Pow(b, d - 1) * Pow(b, e)) == (b * Pow(b, d - 1)) * Pow(b, e);
    } else {
      assert Pow(b, 0) == 1;
    }
  }

  lemma {:induction false} NumeralShort(n: nat, b: nat)
    requires 2 <= b && 0 < n
    ensures Pow(b, |Numeral(n, b)| - 1) <= n
    decreases n
  {
    if n >= b {
      Shorter(n, b);
      DivAtLeast(n, b, 1);
      NumeralShort(n / b, b);
      DivIdentity(n, b);
      MulMonotone(b, Pow(b, |Numeral(n / b, b)| - 1), n / b);
    }
  }

  lemma {:induction false} MirrorZeroTail(ds: seq<nat>, b: nat)
    ensures Mirror(ds + [0], b) == Mirror(ds, b)
  {
    if ds != [] {
      assert (ds + [0])[1..] == ds[1..] + [0];
      MirrorZeroTail(ds[1..], b);
    }
  }

  /** A trailing zero becomes a leading one, so the mirror image of such a number is shorter. */
  lemma TailZeroMirror(n: nat, b: nat)
    requires 2 <= b && n % b == 0 && n < WORD
    ensures Mirror(Numeral(n, b), b) < WORD
  {
    if n < b {
      NumeralLength(n, b, 1);
    } else {
      Shorter(n, b);
      MirrorZeroTail(Numeral(n / b, b), b);
      MirrorBound(Numeral(n / b, b), b);
      NumeralShort(n, b);
    }
  }

  lemma WordPowers()
    ensures Pow(16, 16) == WORD && Pow(8, 21) == 0x8000_0000_0000_0000
    ensures Pow(10, 19) == 10_000_000_000_000_000_000
  {
    assert Pow(16, 2) == 256;
    PowSum(16, 2, 2);
    PowSum(16, 4, 4);
    PowSum(16, 8, 8);
    assert Pow(8, 2) == 64 && Pow(8, 1) == 8;
    PowSum(8, 2, 2);
    PowSum(8, 4, 4);
    PowSum(8, 8, 8);
    PowSum(8, 16, 4);
    PowSum(8, 20, 1);
    assert Pow(10, 2) == 100 && Pow(10, 1) == 10;
    PowSum(10, 2, 2);
    PowSum(10, 4, 4);
    PowSum(10, 8, 8);
    PowSum(10, 16, 2);
    PowSum(10, 18, 1);
  }

  // ----- The reversal as the code does it -----

  /** revn *= base, revn += d, on uintmax_t. */
  function Push(revn: nat, b: nat, d: nat): nat {
    ((revn * b) % WORD + d) % WORD
  }

  lemma WordStep(x: nat, b: nat, d: nat)
    ensures Push(x % WORD, b, d) == (d + b * x) % WORD
  {
    var q, r := x / WORD, x % WORD;
    assert x == WORD * q + r;
    assert b * x == WORD * (q * b) + r * b;
    var q', r' := (r * b) / WORD, (r * b) % WORD;
    assert d + b * x == (r' + d) + WORD * (q * b + q');
    ModWord(r' + d, q * b + q');
  }

  lemma ModWord(a: nat, k: nat)
    ensures (a + WORD * k) % WORD == a % WORD
  {
  }

  /** One step of the reversal: the last digit of what is left of the numeral moves to the mirror
      image of what has been seen. */
  lemma MirrorStep(ds: seq<nat>, b: nat, j: nat)
    requires j < |ds|
    ensures Mirror(ds[j..], b) == ds[j] + b * Mirror(ds[j + 1..], b)
  {
  }

  lemma DivPositive(n: nat, b: nat)
    requires 2 <= b
    ensures 0 <= n / b && 0 <= n % b < b && (n / b == 0) == (n < b)
  {
  }

  /** The last digit of a numeral, and the numeral without it. */
  lemma NumeralStep(n: nat, b: nat, ds: seq<nat>, j: nat)
    requires 2 <= b && j < |ds| && Numeral(n, b) == ds[..j + 1]
    ensures ds[j] == n % b && 0 <= n / b && (n / b == 0) == (j == 0)
    ensures n / b != 0 ==> Numeral(n / b, b) == ds[..j]
  {
    DivPositive(n, b);
    assert ds[..j + 1][j] == ds[j] && ds[..j + 1][..j] == ds[..j];
  }

  /** n mirrored by the loop of debug_print_int: the digit count, and the word left behind. */
  method Reverse(n: nat, b: nat) returns (revn: nat, dcount: nat)
    requires 2 <= b <= 16 && n < WORD
    ensures dcount == |Numeral(n, b)| && revn == Mirror(Numeral(n, b), b) % WORD
  {
    hide Push, Numeral;
    ghost var ds := Numeral(n, b);
    var rest: nat := n;
    revn, dcount := 0, 0;
    var more := true;
    while more
      invariant 0 <= dcount <= |ds| && revn == Mirror(ds[|ds| - dcount..], b) % WORD
      invariant more ==> dcount < |ds| && Numeral(rest, b) == ds[..|ds| - dcount]
      invariant !more ==> dcount == |ds|
      decreases |ds| - dcount, more
    {
      ghost var j := |ds| - dcount - 1;
      NumeralStep(rest, b, ds, j);
      MirrorStep(ds, b, j);
      WordStep(Mirror(ds[j + 1..], b), b, ds[j]);
      dcount := dcount + 1;
      revn := Push(revn, b, rest % b);
      rest := rest / b;
      more := rest != 0;
    }
    assert ds[0..] == ds;
  }
}
