/** KiPrintFmt (kern/lib/kernel_printfuncs.c:132-256) and KiPrint: the loops of the original. */
module PrintFmt {
  import opened Words
  import opened Numerals
  import opened Itoa
  import opened Formats
  import opened Tokens

  /** KiPrint on the characters in `m`, which hold a NUL. */
  method KiPrint(m: seq<Char>) returns (events: seq<Event>)
    requires 0 in m
    ensures events == Puts(CString(m))
  {
    // KiGetStringLength
    var length := 0;
    while m[length] != 0
      invariant 0 <= length < |m| && 0 !in m[..length]
      decreases |m| - length
    {
      length := length + 1;
    }
    CStringLength(m, length);
    events := [];
    for i := 0 to length
      invariant events == Puts(m[..i])
    {
      events := events + [Put(m[i])];
      assert Puts(m[..i + 1]) == Puts(m[..i]) + [Put(m[i])];
    }
  }

  lemma CStringLength(m: seq<Char>, n: nat)
    requires n < |m| && 0 !in m[..n] && m[n] == 0
    ensures CString(m) == m[..n]
  {
    if n > 0 {
      assert m[0] == m[..n][0];
      assert m[1..][..n - 1] == m[..n][1..];
      CStringLength(m[1..], n - 1);
    }
  }

  lemma HeldText(buf: seq<Char>, text: seq<Char>, before: seq<Char>)
    requires Holds(buf, text, before) && 0 !in text
    ensures 0 in buf && CString(buf) == text
  {
    assert buf[|text|] == 0;
    CStringLength(buf, |text|);
  }

  lemma TextHasNoNul(val: nat, radix: nat)
    requires 2 <= radix <= 68
    ensures 0 !in Text(val, radix)
  {
    var t := Text(val, radix);
    forall i | 0 <= i < |t|
      ensures t[i] != 0
    {
      if val > 0 {
        DigitCharReads(Digits(val, radix)[|t| - 1 - i]);
      }
    }
  }

  /** A number directive: the conversion into a buffer of the size the original gives it, then KiPrint. */
  method PrintNumber(c: Char, w: u64) returns (events: seq<Event>)
    requires IsNumber(c)
    ensures events == Puts(NumberText(c, w))
  {
    var size := if c == 105 || c == 108 then 21 else if c == 117 then 22 else 17;
    var buf := new Char[size](_ => 0);
    ghost var before, text := buf[..], NumberText(c, w);
    TextsFit(w, if c == 105 then Signed32(w) else Signed64(w));
    if c == 105 {
      SignedItoa(Signed32(w), buf);
    } else if c == 108 {
      SignedItoa(Signed64(w), buf);
    } else if c == 117 {
      ThroughSigned(w);
      KiItoa(Signed64(w), buf);
    } else {
      ItoaBaseChange(w, buf, 16);
    }
    NumberTextHasNoNul(c, w);
    HeldText(buf[..], text, before);
    events := KiPrint(buf[..]);
  }

  lemma NumberTextHasNoNul(c: Char, w: u64)
    requires IsNumber(c)
    ensures 0 !in NumberText(c, w)
  {
    var v := if c == 105 then Signed32(w) else Signed64(w);
    TextHasNoNul(if v >= 0 then v else -v, 10);
    TextHasNoNul(w, 10);
    TextHasNoNul(w, 16);
  }

  /** The body of the loop, for the character `cur` before `next`. */
  method ScanOne(cur: Char, next: Char, up: bool, args: seq<Arg>) returns (step: Step)
    requires forall a :: a in args && a.Str? ==> 0 in a.text
    ensures step == StepOf(cur, next, up, args)
  {
    if cur == PERCENT && !up {
      return Go([], false, true, args);
    } else if up {
      var events, left, skip := [], args, false;
      if cur == 115 {
        if left == [] || left[0].Word? {
          return Stop(WrongArgument);
        }
        if left[0].Str? {
          events := KiPrint(left[0].text);
        }
        left := left[1..];
      } else if IsNumber(cur) {
        if left == [] || !left[0].Word? {
          return Stop(WrongArgument);
        }
        events := PrintNumber(cur, left[0].word);
        left := left[1..];
      } else if cur == PERCENT {
        events := [Put(PERCENT)];
      } else if IsDigit(cur) {
        if next == 0 {
          // the loop's own step now leaves the NUL behind
          return Stop(ReadPastNul);
        }
        skip := true;
        events := PrintRepeated(cur, RepeatCount(next));
      }
      return Go(events, skip, false, left);
    } else {
      return Go(PlainEvents(cur), false, false, args);
    }
  }

  /**
   KiPrintFmt prints the tokens of its format one after the other, each with the argument it
   fetches, and stops where the original would misbehave.
   */
  method KiPrintFmt(fmt: seq<Char>, args: seq<Arg>) returns (out: Output)
    requires 0 in fmt
    requires forall a :: a in args && a.Str? ==> 0 in a.text
    ensures out == Render(CString(fmt), false, args)
    ensures out == Printed(Parse(CString(fmt)), args)
  {
    RenderPrints(CString(fmt), args);
    out := Scan(fmt, args);
  }

  /** What the step at position `index` adds to the events before it. */
  lemma RenderNext(f: seq<Char>, index: nat, up: bool, args: seq<Arg>, events: seq<Event>)
    requires index < |f| && 0 !in f
    ensures var o := Before(events, Render(f[index..], up, args));
            match StepOf(f[index], if index + 1 < |f| then f[index + 1] else 0, up, args)
            case Stop(end) => o == Output(events, end)
            case Go(more, skip, up', args') =>
              && (skip ==> index + 2 <= |f|)
              && o == Before(events + more, Render(f[if skip then index + 2 else index + 1..], up', args'))
  {
    var rest := f[index..];
    assert rest[0] == f[index] && rest[1..] == f[index + 1..];
    assert |rest| > 1 ==> rest[1] == f[index + 1] && rest[2..] == f[index + 2..];
    var step := StepOf(f[index], if index + 1 < |f| then f[index + 1] else 0, up, args);
    if step.Go? {
      BeforeTwice(events, step.events, Render(f[if step.skip then index + 2 else index + 1..], step.up, step.args));
    }
  }

  /** The loop of KiPrintFmt. */
  method Scan(fmt: seq<Char>, args: seq<Arg>) returns (out: Output)
    requires 0 in fmt
    requires forall a :: a in args && a.Str? ==> 0 in a.text
    ensures out == Render(CString(fmt), false, args)
  {
    ghost var f := CString(fmt);
    FirstNul(fmt);
    var up, index, events, left := false, 0, [], args;
    assert f[0..] == f;
    while fmt[index] != 0
      invariant 0 <= index <= |f|
      invariant forall a :: a in left && a.Str? ==> 0 in a.text
      invariant Render(f, false, args) == Before(events, Render(f[index..], up, left))
      decreases |f| - index
    {
      assert f[index] == fmt[index] && (if index + 1 < |f| then f[index + 1] else 0) == fmt[index + 1];
      var step := ScanOne(fmt[index], fmt[index + 1], up, left);
      RenderNext(f, index, up, left, events);
      if step.Stop? {
        return Output(events, step.end);
      }
      events, up, left := events + step.events, step.up, step.args;
      index := index + if step.skip then 2 else 1;
    }
    return Output(events, Finished(left));
  }

  lemma FirstNul(m: seq<Char>)
    requires 0 in m
    ensures |CString(m)| < |m| && m[|CString(m)|] == 0
  {
    assert m[..|m|] == m;
  }

  /** The loop of a repeat directive. */
  method PrintRepeated(c: Char, count: u8) returns (events: seq<Event>)
    ensures events == Repeat(Direct(c), count)
  {
    events := [];
    for i := 0 to count
      invariant events == Repeat(Direct(c), i)
    {
      events := events + [Direct(c)];
    }
  }
}
