/**
 Numerals in any radix: the digits of a number, the characters kern/lib/kernel_binfuncs.c
 prints for them, and a reader that is defined on its own.
 */
module Numerals {
  import opened Words
  import opened Quotients

  /** A C `char`, signed and eight bits wide. */
  type Char = c: int | -128 <= c < 128

  function ToChar(x: int): Char { (x + 128) % 256 - 128 }

  const ZERO_CHAR: Char := 48
  const MINUS: Char := 45

  /** The character for a remainder, computed in a `char` as the original does. */
  function DigitChar(r: nat): Char {
    var rem := ToChar(r);
    if 0 <= rem <= 9 then rem + 48
    else if rem < 35 then ToChar(rem - 10 + 97)
    else ToChar(rem - 36 + 65)
  }

  /** The digit a character stands for: 0-9, a-y, then '@' for 35 and the characters from 'A' on. */
  function ReadDigit(c: Char): int {
    if 48 <= c <= 57 then c - 48
    else if 97 <= c <= 121 then c - 87
    else c - 29
  }

  // ----- digits, lowest first

  function Digits(val: nat, radix: nat): (ds: seq<nat>)
    requires radix >= 2
    ensures forall i :: 0 <= i < |ds| ==> ds[i] < radix
    ensures val > 0 ==> |ds| > 0 && ds[|ds| - 1] != 0
    decreases val
  {
    if val == 0 then []
    else
      DivSmaller(val, radix);
      [val % radix] + Digits(val / radix, radix)
  }

  lemma DivSmaller(val: nat, radix: nat)
    requires radix >= 2 && val > 0
    ensures 0 <= val / radix < val && 0 <= val % radix < radix
    ensures val == radix * (val / radix) + val % radix
    ensures val / radix == 0 ==> val % radix == val
  {
    var q := val / radix;
    assert radix * q == q * (radix - 1) + q;
    if q >= val {
      MulAtLeast(q, radix - 1);
    }
  }

  function Pow(b: nat, n: nat): (p: nat)
    ensures b > 0 ==> p > 0
  {
    if n == 0 then 1 else b * Pow(b, n - 1)
  }

  /** The number of digits is the smallest that the value allows. */
  lemma {:induction false} DigitCount(val: nat, radix: nat)
    requires radix >= 2 && val > 0
    ensures |Digits(val, radix)| > 0
    ensures Pow(radix, |Digits(val, radix)| - 1) <= val < Pow(radix, |Digits(val, radix)|)
    decreases val
  {
    DivSmaller(val, radix);
    var q, n := val / radix, |Digits(val / radix, radix)|;
    assert |Digits(val, radix)| == n + 1;
    assert Pow(radix, n + 1) == radix * Pow(radix, n);
    if q > 0 {
      DigitCount(q, radix);
      assert Pow(radix, n) == radix * Pow(radix, n - 1);
      Scale(radix, Pow(radix, n - 1), q, val % radix, Pow(radix, n));
    } else {
      assert n == 0 && Pow(radix, 0) == 1;
    }
  }

  lemma Scale(radix: nat, low: nat, q: nat, r: nat, high: nat)
    requires low <= q < high && r < radix
    ensures radix * low <= radix * q + r < radix * high
  {
    assert radix * (q - low) == radix * q - radix * low;
    MulAtLeast(radix, high - q);
    assert radix * (high - q) == radix * high - radix * q;
  }

  lemma {:induction false} PowMonotone(b: nat, m: nat, n: nat)
    requires b > 0 && m <= n
    ensures Pow(b, m) <= Pow(b, n)
    decreases n
  {
    if m < n {
      PowMonotone(b, m, n - 1);
      MulAtLeast(Pow(b, n - 1), b);
    }
  }

  lemma DigitsAtMost(val: nat, radix: nat, n: nat)
    requires radix >= 2 && val < Pow(radix, n)
    ensures |Digits(val, radix)| <= n
  {
    if val > 0 {
      DigitCount(val, radix);
      if |Digits(val, radix)| > n {
        PowMonotone(radix, n, |Digits(val, radix)| - 1);
      }
    }
  }

  // ----- the printed text

  function Reverse<T>(s: seq<T>): (r: seq<T>)
    ensures |r| == |s| && forall i :: 0 <= i < |s| ==> r[i] == s[|s| - 1 - i]
  {
    seq(|s|, i requires 0 <= i < |s| => s[|s| - 1 - i])
  }

  function Chars(ds: seq<nat>): (cs: seq<Char>)
    ensures |cs| == |ds|
  {
    seq(|ds|, i requires 0 <= i < |ds| => DigitChar(ds[i]))
  }

  /** The characters internalItoaBaseChange prints. */
  function Text(val: nat, radix: nat): (t: seq<Char>)
    requires radix >= 2
    ensures |t| > 0
  {
    if val == 0 then [ZERO_CHAR] else Reverse(Chars(Digits(val, radix)))
  }

  /** The characters internalSignedItoa prints. */
  function SignedText(val: int): (t: seq<Char>)
    ensures |t| > 0
  {
    if val >= 0 then Text(val, 10) else [MINUS] + Text(-val, 10)
  }

  /** Reading a numeral from the left. */
  function Read(t: seq<Char>, radix: nat): int
    decreases |t|
  {
    if t == [] then 0 else Read(t[..|t| - 1], radix) * radix + ReadDigit(t[|t| - 1])
  }

  function ReadSigned(t: seq<Char>): int {
    if |t| > 0 && t[0] == MINUS then -Read(t[1..], 10) else Read(t, 10)
  }

  /** The characters of the digits below 68 are read back, and none of them is a minus sign. */
  lemma DigitCharReads(r: nat)
    requires r < 68
    ensures ReadDigit(DigitChar(r)) == r && DigitChar(r) != MINUS && DigitChar(r) != 0
    ensures DigitChar(r) == ZERO_CHAR <==> r == 0
  {
  }

  /** The value of a sequence of digits, lowest first. */
  function Value(ds: seq<nat>, radix: nat): nat {
    if ds == [] then 0 else ds[0] + radix * Value(ds[1..], radix)
  }

  lemma {:induction false} DigitsValue(val: nat, radix: nat)
    requires radix >= 2
    ensures Value(Digits(val, radix), radix) == val
    decreases val
  {
    if val > 0 {
      DivSmaller(val, radix);
      DigitsValue(val / radix, radix);
      assert Digits(val, radix)[1..] == Digits(val / radix, radix);
    }
  }

  lemma {:induction false} ReadChars(ds: seq<nat>, radix: nat)
    requires forall i :: 0 <= i < |ds| ==> ds[i] < 68
    ensures Read(Reverse(Chars(ds)), radix) == Value(ds, radix)
    decreases |ds|
  {
    if ds != [] {
      ReadChars(ds[1..], radix);
      ReverseCons(ds[0], ds[1..]);
      assert [ds[0]] + ds[1..] == ds;
      ReadAppend(Reverse(Chars(ds[1..])), DigitChar(ds[0]), radix);
      DigitCharReads(ds[0]);
    }
  }

  lemma ReverseCons(d: nat, ds: seq<nat>)
    ensures Reverse(Chars([d] + ds)) == Reverse(Chars(ds)) + [DigitChar(d)]
  {
    var a, b := Reverse(Chars([d] + ds)), Reverse(Chars(ds)) + [DigitChar(d)];
    assert |a| == |b|;
    forall i | 0 <= i < |a|
      ensures a[i] == b[i]
    {
      assert a[i] == DigitChar(([d] + ds)[|ds| - i]);
    }
  }

  lemma ReadAppend(t: seq<Char>, c: Char, radix: nat)
    ensures Read(t + [c], radix) == Read(t, radix) * radix + ReadDigit(c)
  {
    assert (t + [c])[..|t + [c]| - 1] == t;
  }

  /** Round trip in every radix from 2 to 68. */
  lemma TextReads(val: nat, radix: nat)
    requires 2 <= radix <= 68
    ensures Read(Text(val, radix), radix) == val
  {
    if val > 0 {
      ReadChars(Digits(val, radix), radix);
      DigitsValue(val, radix);
    } else {
      assert [ZERO_CHAR][..0] == [];
    }
  }

  /** No leading zero, and the minimal number of characters. */
  lemma TextMinimal(val: nat, radix: nat)
    requires 2 <= radix <= 68 && val > 0
    ensures Text(val, radix)[0] != ZERO_CHAR
    ensures |Text(val, radix)| == |Digits(val, radix)|
    ensures Pow(radix, |Text(val, radix)| - 1) <= val < Pow(radix, |Text(val, radix)|)
  {
    DigitCount(val, radix);
    FirstChar(Digits(val, radix), radix);
  }

  lemma FirstChar(ds: seq<nat>, radix: nat)
    requires radix <= 68 && |ds| > 0 && ds[|ds| - 1] != 0 && forall i :: 0 <= i < |ds| ==> ds[i] < radix
    ensures Reverse(Chars(ds))[0] != ZERO_CHAR && Reverse(Chars(ds))[0] != MINUS
  {
    DigitCharReads(ds[|ds| - 1]);
  }

  /** Round trip of signed decimals; a negative one begins with '-', character 45. */
  lemma SignedTextReads(val: int)
    ensures ReadSigned(SignedText(val)) == val
    ensures SignedText(val)[0] == 45 <==> val < 0
  {
    if val >= 0 {
      TextReads(val, 10);
      if val > 0 {
        FirstChar(Digits(val, 10), 10);
      }
    } else {
      TextReads(-val, 10);
      assert ([MINUS] + Text(-val, 10))[1..] == Text(-val, 10);
    }
  }

  /** Different numbers print differently. */
  ghost predicate Injective(radix: nat)
    requires radix >= 2
  {
    forall v: u64, w: u64 :: Text(v, radix) == Text(w, radix) ==> v == w
  }

  /**
   The source warns of radixes above 62.  The texts of different numbers differ exactly up to
   radix 68: from 69 on, the digits 10 and 68 are both printed as 'a'.
   */
  lemma InjectiveExactly(radix: nat)
    requires 2 <= radix < 256
    ensures Injective(radix) <==> radix <= 68
  {
    if radix <= 68 {
      forall v: u64, w: u64 | Text(v, radix) == Text(w, radix)
        ensures v == w
      {
        TextReads(v, radix);
        TextReads(w, radix);
      }
    } else {
      SingleDigit(10, radix);
      SingleDigit(68, radix);
      assert Text(10, radix) == Text(68, radix);
    }
  }

  lemma SingleDigit(val: nat, radix: nat)
    requires radix >= 2 && 0 < val < radix
    ensures Text(val, radix) == [DigitChar(val)]
  {
    QuotientUnique(val, radix, 0, val);
    assert Digits(val, radix) == [val];
  }

  // ----- buffer sizes

  lemma Powers()
    ensures Pow(10, 19) == 10_000_000_000_000_000_000
    ensures Pow(10, 20) == 100_000_000_000_000_000_000
    ensures Pow(16, 16) == 0x1_0000_0000_0000_0000
  {
    assert Pow(10, 5) == 100_000;
    assert Pow(10, 10) == 10_000_000_000;
    assert Pow(10, 15) == 1_000_000_000_000_000;
    assert Pow(16, 4) == 0x1_0000;
    assert Pow(16, 8) == 0x1_0000_0000;
    assert Pow(16, 12) == 0x1_0000_0000_0000;
  }

  /** Every conversion fits the buffer KiPrintFmt gives it, with its NUL. */
  lemma TextsFit(u: u64, i: i64)
    ensures |Text(u, 10)| + 1 <= 22
    ensures |Text(u, 16)| + 1 <= 17
    ensures |SignedText(i)| + 1 <= 21
  {
    Powers();
    DigitsAtMost(u, 10, 20);
    DigitsAtMost(u, 16, 16);
    var a: int := i;
    DigitsAtMost(if a >= 0 then a else -a, 10, 19);
  }
}
