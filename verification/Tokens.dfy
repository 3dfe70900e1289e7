/**
 What a format means, without the scanner: a sequence of tokens, each of which prints its events
 with the argument it fetches.  Every format is the text of exactly one such sequence.
 */
module Tokens {
  import opened Words
  import opened Numerals
  import opened Formats

  datatype Token =
    | Literal(c: Char)
    | Percent                               // %%
    | String                                // %s
    | Number(c: Char)                       // %i %l %u %x
    | Repeated(digit: Char, count: Char)    // %, a digit, and the character that gives the count
    | Other(c: Char)                        // % and a character that means nothing
  {
    predicate Valid() {
      match this
      case Literal(c) => c != PERCENT && c != 0
      case Percent => true
      case String => true
      case Number(c) => TakesArgument(c) && c != 115
      case Repeated(d, n) => 48 <= d <= 57 && n != 0
      case Other(c) => c != 0 && c != PERCENT && !TakesArgument(c) && !(48 <= c <= 57)
    }

    function Text(): seq<Char> {
      match this
      case Literal(c) => [c]
      case Percent => [PERCENT, PERCENT]
      case String => [PERCENT, 115]
      case Number(c) => [PERCENT, c]
      case Repeated(d, n) => [PERCENT, d, n]
      case Other(c) => [PERCENT, c]
    }

    /** The number of arguments fetched, and whether the next argument has the right kind. */
    function Fetches(): nat { if String? || Number? then 1 else 0 }

    predicate Fits(args: seq<Arg>) {
      && (String? ==> args != [] && !args[0].Word?)
      && (Number? ==> args != [] && args[0].Word?)
    }

    /** What the token prints. */
    function Events(args: seq<Arg>): seq<Event>
      requires Valid() && Fits(args)
    {
      match this
      case Literal(c) => PlainEvents(c)
      case Percent => [Put(PERCENT)]
      case String => if args[0].Str? then Puts(CString(args[0].text)) else []
      case Number(c) => Puts(NumberText(c, args[0].word))
      case Repeated(d, n) => Repeat(Direct(d), RepeatCount(n))
      case Other(_) => []
    }
  }

  /** A format can end inside a directive: after the percent sign, or after a digit. */
  datatype Tail = Closed | OpenPercent | OpenRepeat(digit: Char) {
    predicate Valid() { OpenRepeat? ==> 48 <= digit <= 57 }

    function Text(): seq<Char> {
      match this
      case Closed => []
      case OpenPercent => [PERCENT]
      case OpenRepeat(d) => [PERCENT, d]
    }
  }

  datatype Format = Format(tokens: seq<Token>, tail: Tail) {
    predicate Valid() { tail.Valid() && forall t :: t in tokens ==> t.Valid() }

    function Rest(): Format
      requires tokens != []
    {
      Format(tokens[1..], tail)
    }
  }

  /** The text of a format. */
  function Unparse(f: Format): seq<Char>
    decreases |f.tokens|
  {
    if f.tokens == [] then f.tail.Text() else f.tokens[0].Text() + Unparse(f.Rest())
  }

  function First(t: Token, f: Format): Format { Format([t] + f.tokens, f.tail) }

  /** The token of a percent sign and a character other than a digit. */
  function Directive(c: Char): Token {
    if c == 115 then String else if TakesArgument(c) then Number(c) else if c == PERCENT then Percent else Other(c)
  }

  function Parse(s: seq<Char>): (f: Format)
    ensures 0 !in s ==> f.Valid()
    decreases |s|
  {
    if s == [] then Format([], Closed)
    else if s[0] != PERCENT then First(Literal(s[0]), Parse(s[1..]))
    else if |s| == 1 then Format([], OpenPercent)
    else if !(48 <= s[1] <= 57) then First(Directive(s[1]), Parse(s[2..]))
    else if |s| == 2 then Format([], OpenRepeat(s[1]))
    else First(Repeated(s[1], s[2]), Parse(s[3..]))
  }

  /** What a format prints: its tokens in order, up to the first that finds no fitting argument. */
  function Printed(f: Format, args: seq<Arg>): Output
    requires f.Valid()
    decreases |f.tokens|
  {
    if f.tokens == [] then Output([], if f.tail.OpenRepeat? then ReadPastNul else Finished(args))
    else if !f.tokens[0].Fits(args) then Output([], WrongArgument)
    else Before(f.tokens[0].Events(args), Printed(f.Rest(), args[f.tokens[0].Fetches()..]))
  }

  // ----- formats and their texts

  lemma UnparseFirst(t: Token, f: Format)
    ensures Unparse(First(t, f)) == t.Text() + Unparse(f)
  {
    assert First(t, f).Rest() == f;
  }

  /** Every text without a NUL is the text of the format it is parsed into. */
  lemma {:induction false} ParseUnparse(s: seq<Char>)
    requires 0 !in s
    ensures Unparse(Parse(s)) == s
    decreases |s|
  {
    if s == [] {
    } else if s[0] != PERCENT {
      ParseUnparse(s[1..]);
      UnparseFirst(Literal(s[0]), Parse(s[1..]));
    } else if |s| == 1 {
    } else if !IsDigit(s[1]) {
      ParseUnparse(s[2..]);
      UnparseFirst(Directive(s[1]), Parse(s[2..]));
    } else if |s| > 2 {
      ParseUnparse(s[3..]);
      UnparseFirst(Repeated(s[1], s[2]), Parse(s[3..]));
    }
  }

  lemma ParseToken(t: Token, s: seq<Char>)
    requires t.Valid()
    ensures Parse(t.Text() + s) == First(t, Parse(s))
  {
    var text := t.Text() + s;
    assert text[|t.Text()|..] == s;
    match t {
      case Literal(c) => assert text[0] == c;
      case Repeated(d, n) => assert text[0] == PERCENT && text[1] == d && text[2] == n;
      case _ => assert text[0] == PERCENT && text[1] == t.Text()[1] && Directive(text[1]) == t;
    }
  }

  /** And of no other: different formats have different texts. */
  lemma {:induction false} UnparseParse(f: Format)
    requires f.Valid()
    ensures Parse(Unparse(f)) == f
    decreases |f.tokens|
  {
    if f.tokens != [] {
      UnparseParse(f.Rest());
      ParseToken(f.tokens[0], Unparse(f.Rest()));
      assert [f.tokens[0]] + f.tokens[1..] == f.tokens;
    }
  }

  // ----- the scanner prints the tokens

  lemma RenderUp(c: Char, s: seq<Char>, args: seq<Arg>)
    ensures Render([PERCENT, c] + s, false, args) == Render([c] + s, true, args)
  {
    var text := [PERCENT, c] + s;
    assert text[1..] == [c] + s;
    assert Render(text, false, args) == Before([], Render(text[1..], true, args));
  }

  lemma RenderRepeated(t: Token, s: seq<Char>, args: seq<Arg>)
    requires t.Valid() && t.Repeated?
    ensures Render(t.Text() + s, false, args) == Before(t.Events(args), Render(s, false, args))
  {
    var text := [t.digit] + ([t.count] + s);
    assert t.Text() + s == [PERCENT, t.digit] + ([t.count] + s);
    RenderUp(t.digit, [t.count] + s, args);
    assert text[0] == t.digit && text[1] == t.count && text[2..] == s;
  }

  lemma RenderDirective(t: Token, s: seq<Char>, args: seq<Arg>)
    requires t.Valid() && !t.Literal? && !t.Repeated?
    ensures Render(t.Text() + s, false, args) ==
            if t.Fits(args) then Before(t.Events(args), Render(s, false, args[t.Fetches()..]))
            else Output([], WrongArgument)
  {
    var c := t.Text()[1];
    var text := [c] + s;
    assert t.Text() == [PERCENT, c];
    RenderUp(c, s, args);
    assert text[0] == c && text[1..] == s;
  }

  /** The scanner on a token and what follows it. */
  lemma RenderToken(t: Token, s: seq<Char>, args: seq<Arg>)
    requires t.Valid()
    ensures Render(t.Text() + s, false, args) ==
            if t.Fits(args) then Before(t.Events(args), Render(s, false, args[t.Fetches()..]))
            else Output([], WrongArgument)
  {
    if t.Literal? {
      assert (t.Text() + s)[1..] == s;
    } else if t.Repeated? {
      RenderRepeated(t, s, args);
    } else {
      RenderDirective(t, s, args);
    }
  }

  lemma RenderTail(tail: Tail, args: seq<Arg>)
    requires tail.Valid()
    ensures Render(tail.Text(), false, args) == Printed(Format([], tail), args)
  {
    if tail.OpenPercent? {
      assert [PERCENT][1..] == [];
      assert Render([], true, args) == Output([], Finished(args));
    } else if tail.OpenRepeat? {
      RenderUp(tail.digit, [], args);
      assert [PERCENT, tail.digit] + [] == [PERCENT, tail.digit] && [tail.digit] + [] == [tail.digit];
    }
  }

  /** The scanner on the text of a format prints its tokens. */
  lemma {:induction false} RenderUnparsed(f: Format, args: seq<Arg>)
    requires f.Valid()
    ensures Render(Unparse(f), false, args) == Printed(f, args)
    decreases |f.tokens|
  {
    if f.tokens == [] {
      RenderTail(f.tail, args);
    } else {
      var t := f.tokens[0];
      RenderToken(t, Unparse(f.Rest()), args);
      if t.Fits(args) {
        RenderUnparsed(f.Rest(), args[t.Fetches()..]);
      }
    }
  }

  /** So the scanner prints the tokens of every format. */
  lemma RenderPrints(s: seq<Char>, args: seq<Arg>)
    requires 0 !in s
    ensures Render(s, false, args) == Printed(Parse(s), args)
  {
    ParseUnparse(s);
    RenderUnparsed(Parse(s), args);
  }

  // ----- in closed form

  /** The number of arguments the first `k` tokens fetch. */
  function Fetched(ts: seq<Token>, k: nat): nat
    requires k <= |ts|
  {
    if k == 0 then 0 else Fetched(ts, k - 1) + ts[k - 1].Fetches()
  }

  /** Token `k` finds an argument of its kind behind those fetched before it. */
  predicate FitsAt(ts: seq<Token>, args: seq<Arg>, k: nat)
    requires k < |ts|
  {
    Fetched(ts, k) <= |args| && ts[k].Fits(args[Fetched(ts, k)..])
  }

  predicate AllFit(ts: seq<Token>, args: seq<Arg>) {
    Fetched(ts, |ts|) <= |args| && forall k :: 0 <= k < |ts| ==> FitsAt(ts, args, k)
  }

  /** The events of each token. */
  function EventsOf(ts: seq<Token>, args: seq<Arg>): (es: seq<seq<Event>>)
    requires AllFit(ts, args) && forall t :: t in ts ==> t.Valid()
    ensures |es| == |ts|
  {
    seq(|ts|, k requires 0 <= k < |ts| && ts[k].Valid() && FitsAt(ts, args, k) => ts[k].Events(args[Fetched(ts, k)..]))
  }

  function Concat(es: seq<seq<Event>>): seq<Event> {
    if es == [] then [] else es[0] + Concat(es[1..])
  }

  lemma {:induction false} FetchedRest(ts: seq<Token>, k: nat)
    requires k < |ts|
    ensures Fetched(ts, k + 1) == ts[0].Fetches() + Fetched(ts[1..], k)
  {
    if k > 0 {
      FetchedRest(ts, k - 1);
    } else {
      assert Fetched(ts, 1) == Fetched(ts, 0) + ts[0].Fetches();
    }
  }

  lemma FitsAtRest(ts: seq<Token>, args: seq<Arg>, k: nat)
    requires k + 1 < |ts| && ts[0].Fits(args)
    ensures FitsAt(ts, args, k + 1) <==> FitsAt(ts[1..], args[ts[0].Fetches()..], k)
  {
    var n := ts[0].Fetches();
    FetchedRest(ts, k);
    if Fetched(ts, k + 1) <= |args| {
      assert args[n..][Fetched(ts[1..], k)..] == args[Fetched(ts, k + 1)..];
    }
  }

  lemma FitsRest(ts: seq<Token>, args: seq<Arg>)
    requires ts != [] && ts[0].Fits(args)
    ensures AllFit(ts, args) <==> AllFit(ts[1..], args[ts[0].Fetches()..])
  {
    var us, left := ts[1..], args[ts[0].Fetches()..];
    FetchedRest(ts, |us|);
    assert args[0..] == args && FitsAt(ts, args, 0);
    forall k | 0 <= k < |us|
      ensures FitsAt(ts, args, k + 1) <==> FitsAt(us, left, k)
    {
      FitsAtRest(ts, args, k);
    }
    if AllFit(us, left) {
      forall k | 0 <= k < |ts|
        ensures FitsAt(ts, args, k)
      {
        assert k > 0 ==> FitsAt(us, left, k - 1);
      }
    }
  }

  /** A format stops at a wrong argument exactly when some token finds none of its kind. */
  lemma {:induction false} WrongExactly(f: Format, args: seq<Arg>)
    requires f.Valid()
    ensures Printed(f, args).end == WrongArgument <==> !AllFit(f.tokens, args)
    decreases |f.tokens|
  {
    if f.tokens != [] {
      var t := f.tokens[0];
      if t.Fits(args) {
        FitsRest(f.tokens, args);
        WrongExactly(f.Rest(), args[t.Fetches()..]);
      } else {
        assert args[0..] == args && !FitsAt(f.tokens, args, 0);
      }
    }
  }

  /** What the tokens from `k` on print with the arguments left for them. */
  function PrintedAt(f: Format, args: seq<Arg>, k: nat): Output
    requires f.Valid() && k <= |f.tokens| && Fetched(f.tokens, k) <= |args|
  {
    Printed(Format(f.tokens[k..], f.tail), args[Fetched(f.tokens, k)..])
  }

  lemma PrintedNext(f: Format, args: seq<Arg>, k: nat)
    requires f.Valid() && k < |f.tokens| && FitsAt(f.tokens, args, k)
    ensures Fetched(f.tokens, k + 1) <= |args|
    ensures PrintedAt(f, args, k) ==
            Before(f.tokens[k].Events(args[Fetched(f.tokens, k)..]), PrintedAt(f, args, k + 1))
  {
    var here, left, t := Format(f.tokens[k..], f.tail), args[Fetched(f.tokens, k)..], f.tokens[k];
    assert here.Rest() == Format(f.tokens[k + 1..], f.tail);
    assert left[t.Fetches()..] == args[Fetched(f.tokens, k + 1)..];
  }

  /** Outputs each of which puts its events before the next. */
  lemma {:induction false} Chained(os: seq<Output>, es: seq<seq<Event>>)
    requires |os| == |es| + 1 && forall k :: 0 <= k < |es| ==> os[k] == Before(es[k], os[k + 1])
    ensures os[0] == Before(Concat(es), os[|es|])
    decreases |es|
  {
    if es != [] {
      var os', es' := os[1..], es[1..];
      assert forall k :: 0 <= k < |es'| ==> os'[k] == os[k + 1] && es'[k] == es[k + 1];
      Chained(os', es');
      BeforeTwice(es[0], Concat(es'), os[|es|]);
    }
  }

  /**
   With fitting arguments the output is the concatenation of what the tokens print, token `k` with
   the argument behind those fetched before it; what is left over is untouched, and the NUL is
   passed exactly by a format that ends in a percent sign and a digit.
   */
  lemma PrintedInOrder(f: Format, args: seq<Arg>)
    requires f.Valid() && AllFit(f.tokens, args)
    ensures Printed(f, args) ==
            Output(Concat(EventsOf(f.tokens, args)),
                   if f.tail.OpenRepeat? then ReadPastNul else Finished(args[Fetched(f.tokens, |f.tokens|)..]))
  {
    var n := |f.tokens|;
    forall k | 0 <= k < n
      ensures Fetched(f.tokens, k) <= |args|
    {
      assert FitsAt(f.tokens, args, k);
    }
    var os := seq(n + 1, k requires 0 <= k <= n && Fetched(f.tokens, k) <= |args| => PrintedAt(f, args, k));
    forall k | 0 <= k < n
      ensures os[k] == Before(EventsOf(f.tokens, args)[k], os[k + 1])
    {
      assert FitsAt(f.tokens, args, k);
      PrintedNext(f, args, k);
    }
    Chained(os, EventsOf(f.tokens, args));
    assert f.tokens[0..] == f.tokens && args[0..] == args;
  }

  /** The format "%5" is read past its NUL. */
  lemma PercentFive(args: seq<Arg>)
    ensures Render([PERCENT, 53], false, args) == Output([], ReadPastNul)
  {
    RenderPrints([PERCENT, 53], args);
  }

  // ----- letter by letter, with the characters' codes

  /** %s prints the characters of a string before its NUL, and nothing for a null pointer. */
  lemma LetterS(text: seq<Char>, s: seq<Char>, args: seq<Arg>)
    ensures Render([37, 115] + s, false, [Str(text)] + args) == Before(Puts(CString(text)), Render(s, false, args))
    ensures Render([37, 115] + s, false, [NullStr] + args) == Before([], Render(s, false, args))
  {
    RenderToken(String, s, [Str(text)] + args);
    RenderToken(String, s, [NullStr] + args);
  }

  /** %i prints the signed number with the low 32 bits of the argument. */
  lemma LetterI(w: u64, v: int, s: seq<Char>, args: seq<Arg>)
    requires -0x8000_0000 <= v < 0x8000_0000 && (w - v) % 0x1_0000_0000 == 0
    ensures Render([37, 105] + s, false, [Word(w)] + args) == Before(Puts(SignedText(v)), Render(s, false, args))
  {
    assert Signed32(w) == v;
    RenderToken(Number(105), s, [Word(w)] + args);
  }

  /** %l prints the signed number with the same 64 bits. */
  lemma LetterL(w: u64, v: int, s: seq<Char>, args: seq<Arg>)
    requires -0x8000_0000_0000_0000 <= v < 0x8000_0000_0000_0000 && (w - v) % 0x1_0000_0000_0000_0000 == 0
    ensures Render([37, 108] + s, false, [Word(w)] + args) == Before(Puts(SignedText(v)), Render(s, false, args))
  {
    assert Signed64(w) == v;
    RenderToken(Number(108), s, [Word(w)] + args);
  }

  /** %u prints the argument in decimal, %x in hexadecimal. */
  lemma LettersUX(w: u64, s: seq<Char>, args: seq<Arg>)
    ensures Render([37, 117] + s, false, [Word(w)] + args) == Before(Puts(Text(w, 10)), Render(s, false, args))
    ensures Render([37, 120] + s, false, [Word(w)] + args) == Before(Puts(Text(w, 16)), Render(s, false, args))
  {
    RenderToken(Number(117), s, [Word(w)] + args);
    RenderToken(Number(120), s, [Word(w)] + args);
  }

  /** No other letter fetches an argument or prints; a second percent sign prints one. */
  lemma OtherLetters(c: Char, s: seq<Char>, args: seq<Arg>)
    requires c != 0 && c !in [115, 105, 108, 117, 120] && !(48 <= c <= 57)
    ensures Render([37, c] + s, false, args) == Before(if c == 37 then [Put(37)] else [], Render(s, false, args))
  {
    RenderToken(if c == 37 then Percent else Other(c), s, args);
  }

  /** A digit is repeated as often as the next character is away from '0', modulo 256. */
  lemma RepeatedDigit(d: Char, n: Char, k: nat, s: seq<Char>, args: seq<Arg>)
    requires 48 <= d <= 57 && n != 0 && k < 256 && (n as int - 48 - k) % 256 == 0
    ensures Render([37, d, n] + s, false, args) == Before(seq(k, _ => Direct(d)), Render(s, false, args))
  {
    assert RepeatCount(n) == k;
    RenderToken(Repeated(d, n), s, args);
  }

  /** Outside a directive: printing characters, a new line, a tab of eight spaces, and nothing for the rest. */
  lemma PlainCharacter(c: Char, s: seq<Char>, args: seq<Arg>)
    requires c != 0 && c != 37
    ensures Render([c] + s, false, args) ==
            Before(if c >= 32 then [Put(c)] else if c == 10 then [NewLine] else if c == 9 then seq(8, _ => Put(32)) else [],
                   Render(s, false, args))
  {
    RenderToken(Literal(c), s, args);
  }

  /** So %lu, as the boot messages use it, prints the number and a letter u. */
  lemma LuPrintsU(w: u64, v: int, s: seq<Char>, args: seq<Arg>)
    requires -0x8000_0000_0000_0000 <= v < 0x8000_0000_0000_0000 && (w - v) % 0x1_0000_0000_0000_0000 == 0
    ensures Render([37, 108, 117] + s, false, [Word(w)] + args) ==
            Before(Puts(SignedText(v)) + [Put(117)], Render(s, false, args))
  {
    assert [37, 108, 117] + s == [37, 108] + ([117] + s);
    LetterL(w, v, [117] + s, args);
    PlainCharacter(117, s, args);
    BeforeTwice(Puts(SignedText(v)), [Put(117)], Render(s, false, args));
  }

  /** %i of 0xFFFFFFFF prints "-1". */
  lemma MinusOne(args: seq<Arg>)
    ensures Render([37, 105], false, [Word(0xFFFF_FFFF)] + args) == Output([Put(45), Put(49)], Finished(args))
  {
    assert [37, 105] + [] == [37, 105];
    LetterI(0xFFFF_FFFF, -1, [], args);
    SingleDigit(1, 10);
    assert SignedText(-1) == [45, 49];
    assert Puts([45, 49]) == [Put(45), Put(49)];
  }
}
