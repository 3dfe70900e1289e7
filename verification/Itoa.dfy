/**
 The in-place number printing of kern/lib/kernel_binfuncs.c: digits are written lowest first
 into the caller's buffer, which is then reversed and ended with a NUL.
 */
module Itoa {
  import opened Words
  import opened Quotients
  import opened Numerals

  /** What a caller finds in a buffer after a conversion: the text, a NUL, and the rest untouched. */
  ghost predicate Holds(buf: seq<Char>, text: seq<Char>, before: seq<Char>) {
    && |buf| == |before| && |text| < |buf|
    && buf[..|text|] == text && buf[|text|] == 0 && buf[|text| + 1..] == before[|text| + 1..]
  }

  /** The reversal loop. */
  method ReverseBuffer(buf: array<Char>, len: nat)
    requires len <= buf.Length
    modifies buf
    ensures buf[..len] == Reverse(old(buf[..len]))
    ensures forall i :: len <= i < buf.Length ==> buf[i] == old(buf[i])
  {
    var i := 0;
    while i < len / 2
      invariant 0 <= i <= len / 2
      invariant forall k :: 0 <= k < i ==> buf[k] == old(buf[len - 1 - k]) && buf[len - 1 - k] == old(buf[k])
      invariant forall k :: i <= k < len - i ==> buf[k] == old(buf[k])
      invariant forall k :: len <= k < buf.Length ==> buf[k] == old(buf[k])
    {
      var tmp := buf[i];
      buf[i] := buf[len - i - 1];
      buf[len - i - 1] := tmp;
      i := i + 1;
    }
  }

  /** The end of both conversions: the text is flipped and terminated. */
  method Finish(buf: array<Char>, len: nat, ghost before: seq<Char>)
    requires len < buf.Length == |before| && buf[len + 1..] == before[len + 1..]
    modifies buf
    ensures Holds(buf[..], Reverse(old(buf[..len])), before)
  {
    ghost var rest := buf[len + 1..];
    ReverseBuffer(buf, len);
    ghost var text := buf[..len];
    assert buf[len + 1..] == rest;
    buf[len] := 0;
    assert buf[..len] == text && buf[len + 1..] == rest;
  }

  /** The digits of `val` from position `k` on are the digits of what is left of it. */
  lemma DigitsTail(val: nat, radix: nat, left: nat, k: nat)
    requires radix >= 2 && left > 0 && k <= |Digits(val, radix)|
    requires Digits(val, radix)[k..] == Digits(left, radix)
    ensures k < |Digits(val, radix)| && Digits(val, radix)[k] == left % radix
    ensures Digits(val, radix)[k + 1..] == Digits(left / radix, radix)
    ensures 0 <= left / radix < left
  {
    DivSmaller(left, radix);
    var ds := Digits(val, radix);
    assert Digits(left, radix) == [left % radix] + Digits(left / radix, radix);
    assert ds[k] == ds[k..][0];
    assert ds[k + 1..] == ds[k..][1..];
  }

  /** The characters of the first `len` digits have been written and nothing else. */
  ghost predicate Written(buf: seq<Char>, before: seq<Char>, ds: seq<nat>, len: nat) {
    && |buf| == |before| && len <= |ds| < |buf|
    && (forall i :: 0 <= i < len ==> buf[i] == DigitChar(ds[i]))
    && (forall i :: len <= i < |buf| ==> buf[i] == before[i])
  }

  method PutDigit(buf: array<Char>, len: nat, c: Char, ghost before: seq<Char>, ghost ds: seq<nat>)
    requires Written(buf[..], before, ds, len) && len < |ds| && c == DigitChar(ds[len])
    modifies buf
    ensures Written(buf[..], before, ds, len + 1)
  {
    buf[len] := c;
  }

  /** The digit loop: writes the characters of the digits, lowest first. */
  method WriteDigits(val: u64, buf: array<Char>, radix: u8) returns (len: nat)
    requires radix >= 2 && |Digits(val, radix)| < buf.Length
    modifies buf
    ensures len == |Digits(val, radix)|
    ensures buf[..len] == Chars(Digits(val, radix))
    ensures forall i :: len <= i < buf.Length ==> buf[i] == old(buf[i])
  {
    ghost var ds := Digits(val, radix);
    len := 0;
    var left: nat := val;
    while left != 0
      invariant 0 <= left && Written(buf[..], old(buf[..]), ds, len) && ds[len..] == Digits(left, radix)
      decreases left
    {
      DigitsTail(val, radix, left, len);
      PutDigit(buf, len, DigitChar(left % radix), old(buf[..]), ds);
      len := len + 1;
      left := left / radix;
    }
    assert len == |ds|;
  }

  method ItoaNonzero(val: u64, buf: array<Char>, radix: u8)
    requires radix >= 2 && |Digits(val, radix)| < buf.Length
    modifies buf
    ensures Holds(buf[..], Reverse(Chars(Digits(val, radix))), old(buf[..]))
  {
    ghost var before := buf[..];
    var len := WriteDigits(val, buf, radix);
    assert buf[len + 1..] == before[len + 1..];
    Finish(buf, len, before);
  }

  /** internalItoaBaseChange, for any radix the loop ends with. */
  method ItoaBaseChange(val: u64, buf: array<Char>, radix: u8)
    requires radix >= 2 && |Text(val, radix)| < buf.Length
    modifies buf
    ensures Holds(buf[..], Text(val, radix), old(buf[..]))
  {
    if val == 0 {
      buf[0] := 48;
      buf[1] := 0;
      return;
    }
    ItoaNonzero(val, buf, radix);
  }

  lemma SmallDigit(d: nat)
    requires d < 10
    ensures ToChar(d) + 48 == DigitChar(d)
  {
  }

  /** Passing an unsigned value through a signed variable loses nothing. */
  lemma ThroughSigned(u: u64)
    ensures Wrap64(Signed64(u)) == u && (Signed64(u) != 0 <==> u != 0)
  {
  }

  /**
   The digit loop of internalSignedItoa: the division is unsigned because `base` is, so it also
   works for the minimum, whose negation wraps to itself.
   */
  method WriteMagnitude(val: i64, buf: array<Char>, base: u64, ghost magnitude: u64) returns (len: nat)
    requires 2 <= base <= 10
    requires val < 0 && magnitude == 0 - val as int && |Digits(magnitude, base)| < buf.Length
    modifies buf
    ensures len == |Digits(magnitude, base)|
    ensures buf[..len] == Chars(Digits(magnitude, base))
    ensures forall i :: len <= i < buf.Length ==> buf[i] == old(buf[i])
  {
    ghost var ds := Digits(magnitude, base);
    len := 0;
    ThroughSigned(magnitude);
    var overzero: i64 := Signed64(Wrap64(0 - val as int));
    ghost var rest: u64 := magnitude;
    while overzero != 0
      invariant overzero == Signed64(rest)
      invariant Written(buf[..], old(buf[..]), ds, len) && ds[len..] == Digits(rest, base)
      decreases rest
    {
      ThroughSigned(rest);
      var left := Wrap64(overzero);
      DigitsTail(magnitude, base, left, len);
      SmallDigit(ds[len]);
      PutDigit(buf, len, ToChar(left % base) + 48, old(buf[..]), ds);
      len := len + 1;
      overzero, rest := Signed64(left / base), left / base;
    }
    ThroughSigned(rest);
  }

  method SignedNegative(val: i64, buf: array<Char>, base: u64, ghost magnitude: u64)
    requires 2 <= base <= 10
    requires val < 0 && magnitude == 0 - val as int && |Digits(magnitude, base)| + 1 < buf.Length
    modifies buf
    ensures Holds(buf[..], [MINUS] + Reverse(Chars(Digits(magnitude, base))), old(buf[..]))
  {
    ghost var before, ds := buf[..], Digits(magnitude, base);
    var len := WriteMagnitude(val, buf, base, magnitude);
    buf[len] := MINUS;
    len := len + 1;
    assert buf[..len] == Chars(ds) + [MINUS];
    assert Reverse(Chars(ds) + [MINUS]) == [MINUS] + Reverse(Chars(ds));
    assert buf[len + 1..] == before[len + 1..];
    Finish(buf, len, before);
  }

  /** internalSignedItoa */
  method SignedItoa(val: i64, buf: array<Char>)
    requires |SignedText(val)| < buf.Length
    modifies buf
    ensures Holds(buf[..], SignedText(val), old(buf[..]))
  {
    if val >= 0 {
      ItoaBaseChange(val, buf, 10);
    } else {
      SignedNegative(val, buf, 10, 0 - val as int);
    }
  }

  /** KiItoa: the signed parameter is reinterpreted as the unsigned value it came from. */
  method KiItoa(input: i64, result: array<Char>)
    requires |Text(Wrap64(input), 10)| < result.Length
    modifies result
    ensures Holds(result[..], Text(Wrap64(input), 10), old(result[..]))
  {
    ItoaBaseChange(Wrap64(input), result, 10);
  }
}
