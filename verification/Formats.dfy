/**
 Formats of KiPrintFmt (kern/lib/kernel_printfuncs.c:132-256) and the scanner that reads them
 character by character, with one bit of state; `Render` is all its steps together.
 */
module Formats {
  import opened Words
  import opened Numerals

  // the characters the scanner knows
  const PERCENT: Char := 37
  const SPACE: Char := 32
  const NEWLINE: Char := 10
  const TAB: Char := 9

  /** A variadic argument: a pointer to a string, a null pointer, or a 64-bit word. */
  datatype Arg = Str(text: seq<Char>) | NullStr | Word(word: u64)

  /** Output: a character through the firmware table, one straight to the VGA console, or a new line. */
  datatype Event = Put(c: Char) | Direct(c: Char) | NewLine

  /** How a scan ends; reading past the NUL and fetching a wrong argument are undefined in the original. */
  datatype End = Finished(rest: seq<Arg>) | ReadPastNul | WrongArgument

  datatype Output = Output(events: seq<Event>, end: End)

  function Before(events: seq<Event>, o: Output): Output { o.(events := events + o.events) }

  lemma BeforeTwice(a: seq<Event>, b: seq<Event>, o: Output)
    ensures Before(a, Before(b, o)) == Before(a + b, o)
  {
    assert a + (b + o.events) == a + b + o.events;
  }

  function Puts(t: seq<Char>): (es: seq<Event>)
    ensures |es| == |t|
  {
    seq(|t|, i requires 0 <= i < |t| => Put(t[i]))
  }

  function Repeat(e: Event, n: nat): seq<Event> { seq(n, _ => e) }

  /** The repeat count is the next character's distance from '0', as an unsigned byte. */
  function RepeatCount(c: Char): u8 {
    var distance: int := c;
    (distance - 48) % 256
  }

  predicate IsNumber(c: Char) { c == 105 || c == 108 || c == 117 || c == 120 }  // i l u x

  predicate IsDigit(c: Char) { 48 <= c <= 57 }

  /** The low 32 bits of a word as a signed number. */
  function Signed32(w: u64): int {
    var low := w % 0x1_0000_0000;
    if low < 0x8000_0000 then low else low - 0x1_0000_0000
  }

  /** The text of a number directive. */
  function NumberText(c: Char, w: u64): seq<Char>
    requires IsNumber(c)
  {
    if c == 105 then SignedText(Signed32(w))
    else if c == 108 then SignedText(Signed64(w))
    else if c == 117 then Text(w, 10)
    else Text(w, 16)
  }

  /** What one character does: the scan stops, or prints and goes on, perhaps skipping the next character. */
  datatype Step = Stop(end: End) | Go(events: seq<Event>, skip: bool, up: bool, args: seq<Arg>)

  /** The step for character `c` before `next`; `up` says that a percent sign was just read. */
  function StepOf(c: Char, next: Char, up: bool, args: seq<Arg>): Step {
    if !up then
      if c == PERCENT then Go([], false, true, args) else Go(PlainEvents(c), false, false, args)
    else if c == 115 then  // s
      if args == [] || args[0].Word? then Stop(WrongArgument)
      else Go(StringEvents(args[0]), false, false, args[1..])
    else if IsNumber(c) then
      if args == [] || !args[0].Word? then Stop(WrongArgument)
      else Go(Puts(NumberText(c, args[0].word)), false, false, args[1..])
    else if c == PERCENT then Go([Put(PERCENT)], false, false, args)
    else if IsDigit(c) then
      if next == 0 then Stop(ReadPastNul) else Go(Repeat(Direct(c), RepeatCount(next)), true, false, args)
    else Go([], false, false, args)
  }

  /** The meaning of a format `f`, given without its NUL. */
  function Render(f: seq<Char>, up: bool, args: seq<Arg>): Output
    decreases |f|
  {
    if f == [] then Output([], Finished(args))
    else
      match StepOf(f[0], if |f| > 1 then f[1] else 0, up, args)
      case Stop(end) => Output([], end)
      case Go(events, skip, up', args') =>
        Before(events, Render(if skip && |f| > 1 then f[2..] else f[1..], up', args'))
  }

  /** A character outside a directive. */
  function PlainEvents(c: Char): seq<Event> {
    if c >= SPACE then [Put(c)]
    else if c == NEWLINE then [NewLine]
    else if c == TAB then Repeat(Put(SPACE), 8)
    else []
  }

  function StringEvents(a: Arg): seq<Event>
    requires !a.Word?
  {
    if a.Str? then Puts(CString(a.text)) else []
  }

  /** The characters of a C string: those before the first NUL. */
  function CString(m: seq<Char>): (s: seq<Char>)
    ensures |s| <= |m| && s == m[..|s|] && 0 !in s && (|s| < |m| ==> m[|s|] == 0)
  {
    if m == [] || m[0] == 0 then [] else [m[0]] + CString(m[1..])
  }

  // ----- what the meaning says

  /** Whether a scan runs into the NUL inside a repeat directive. */
  predicate Dangling(f: seq<Char>, up: bool)
    decreases |f|
  {
    if f == [] then false
    else if !up then Dangling(f[1..], f[0] == PERCENT)
    else if 48 <= f[0] <= 57 then |f| == 1 || Dangling(f[2..], false)
    else Dangling(f[1..], false)
  }

  /** The letters s, i, l, u and x. */
  predicate TakesArgument(c: Char) { c == 115 || c == 105 || c == 108 || c == 117 || c == 120 }

  /** The number of arguments a format fetches. */
  function Directives(f: seq<Char>, up: bool): nat
    decreases |f|
  {
    if f == [] then 0
    else if !up then Directives(f[1..], f[0] == PERCENT)
    else if TakesArgument(f[0]) then 1 + Directives(f[1..], false)
    else if 48 <= f[0] <= 57 then (if |f| == 1 then 0 else Directives(f[2..], false))
    else Directives(f[1..], false)
  }

  /** The kinds of the arguments a format fetches, in order: true for a string. */
  function Kinds(f: seq<Char>, up: bool): (ks: seq<bool>)
    ensures |ks| == Directives(f, up)
    decreases |f|
  {
    if f == [] then []
    else if !up then Kinds(f[1..], f[0] == PERCENT)
    else if TakesArgument(f[0]) then [f[0] == 115] + Kinds(f[1..], false)
    else if 48 <= f[0] <= 57 then (if |f| == 1 then [] else Kinds(f[2..], false))
    else Kinds(f[1..], false)
  }

  predicate Matches(ks: seq<bool>, args: seq<Arg>) {
    |ks| <= |args| && forall i :: 0 <= i < |ks| ==> ks[i] == !args[i].Word?
  }

  lemma FetchEnd(f: seq<Char>, args: seq<Arg>)
    requires f != [] && TakesArgument(f[0])
    requires args != [] && args[0].Word? == (f[0] != 115)
    ensures Render(f, true, args).end == Render(f[1..], false, args[1..]).end
  {
  }

  lemma PlainEnd(f: seq<Char>, args: seq<Arg>)
    requires f != []
    ensures Render(f, false, args).end == Render(f[1..], f[0] == PERCENT, args).end
  {
  }

  lemma OtherEnd(f: seq<Char>, args: seq<Arg>)
    requires f != [] && 0 !in f && !TakesArgument(f[0])
    ensures Render(f, true, args).end ==
            if !(48 <= f[0] <= 57) then Render(f[1..], false, args).end
            else if |f| == 1 then ReadPastNul else Render(f[2..], false, args).end
  {
  }

  lemma MatchesTail(ks: seq<bool>, args: seq<Arg>)
    requires ks != [] && Matches(ks, args)
    ensures Matches(ks[1..], args[1..])
  {
    forall i | 0 <= i < |ks| - 1
      ensures ks[1..][i] == !args[1..][i].Word?
    {
      assert ks[i + 1] == !args[i + 1].Word?;
    }
  }

  /**
   With arguments of the right kinds a format fetches one argument per %s %i %l %u %x, in order,
   and none otherwise; it reads past its NUL exactly when it is dangling.
   */
  lemma {:induction false} ArgumentsConsumed(f: seq<Char>, up: bool, args: seq<Arg>)
    requires 0 !in f && Matches(Kinds(f, up), args)
    ensures Render(f, up, args).end == if Dangling(f, up) then ReadPastNul else Finished(args[Directives(f, up)..])
    decreases |f|
  {
    if f == [] {
    } else if !up {
      PlainEnd(f, args);
      ArgumentsConsumed(f[1..], f[0] == PERCENT, args);
    } else if TakesArgument(f[0]) {
      FetchConsumed(f, args);
    } else {
      OtherEnd(f, args);
      if !IsDigit(f[0]) {
        ArgumentsConsumed(f[1..], false, args);
      } else if |f| > 1 {
        ArgumentsConsumed(f[2..], false, args);
      }
    }
  }

  lemma {:induction false} FetchConsumed(f: seq<Char>, args: seq<Arg>)
    requires f != [] && TakesArgument(f[0])
    requires 0 !in f && Matches(Kinds(f, true), args)
    ensures Render(f, true, args).end ==
            if Dangling(f, true) then ReadPastNul else Finished(args[Directives(f, true)..])
    decreases |f|, 0
  {
    var ks := Kinds(f, true);
    assert ks[0] == (f[0] == 115);
    FetchEnd(f, args);
    MatchesTail(ks, args);
    assert ks[1..] == Kinds(f[1..], false);
    ArgumentsConsumed(f[1..], false, args[1..]);
    assert args[1..][Directives(f[1..], false)..] == args[Directives(f, true)..];
  }

  /** Only a format whose last two characters are a percent sign and a digit can read past its NUL. */
  lemma {:induction false} DanglingEnds(f: seq<Char>, up: bool)
    requires Dangling(f, up)
    ensures |f| > 0 && 48 <= f[|f| - 1] <= 57
    ensures |f| == 1 ==> up
    ensures |f| >= 2 ==> f[|f| - 2] == 37
    decreases |f|
  {
    if !up {
      DanglingEnds(f[1..], f[0] == PERCENT);
    } else if IsDigit(f[0]) {
      if |f| > 1 {
        DanglingEnds(f[2..], false);
      }
    } else {
      DanglingEnds(f[1..], false);
    }
  }

  /** Text without percent signs and control characters is printed as it stands. */
  lemma {:induction false} PlainText(f: seq<Char>, args: seq<Arg>)
    requires forall i :: 0 <= i < |f| ==> f[i] >= 32 && f[i] != 37
    ensures Render(f, false, args) == Output(Puts(f), Finished(args))
    decreases |f|
  {
    if f != [] {
      PlainText(f[1..], args);
      assert Puts(f) == [Put(f[0])] + Puts(f[1..]);
    }
  }

  /** What a number directive prints is read back as its argument. */
  lemma NumbersReadBack(c: Char, w: u64)
    requires IsNumber(c)
    ensures c == 105 ==> ReadSigned(NumberText(c, w)) == Signed32(w)
    ensures c == 108 ==> ReadSigned(NumberText(c, w)) == Signed64(w)
    ensures c == 117 ==> Read(NumberText(c, w), 10) == w
    ensures c == 120 ==> Read(NumberText(c, w), 16) == w
  {
    SignedTextReads(Signed32(w));
    SignedTextReads(Signed64(w));
    TextReads(w, 10);
    TextReads(w, 16);
  }
}
