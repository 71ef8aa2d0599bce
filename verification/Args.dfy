/** Argument lists: words, of which only the last argument may be longer (src/ircmsg/args.rs). */
module Arguments {
  import opened Strings
  import opened Splitters

  datatype Args = Args(words: seq<Bytes>, long: Option<Bytes>)

  /** The invariant of the `Args` type: what is stored as long does not pass for a word. */
  ghost predicate ValidArgs(a: Args) {
    && (forall i | 0 <= i < |a.words| :: Is(Arg, a.words[i]))
    && (a.long.Some? ==> Is(Line, a.long.value) && !Is(Arg, a.long.value))
  }

  /** `add_impl`: a line that passes for a word becomes one and displaces a long last argument. */
  function Add(a: Args, s: Bytes): Args {
    if Is(Arg, s) then Args(a.words + [s], None) else Args(a.words, Some(s))
  }

  function ArgBytes(words: seq<Bytes>): Bytes {
    if words == [] then [] else [SP] + words[0] + ArgBytes(words[1..])
  }

  /** The argument list on the wire. */
  function ArgsText(a: Args): Bytes {
    ArgBytes(a.words) + if a.long.Some? then [SP, COLON] + a.long.value else []
  }

  function Cons(w: Bytes, a: Args): Args {
    Args([w] + a.words, a.long)
  }

  /** One round of the parser's loop: no more arguments, the rest of the line after a colon, or
      a word and what follows it. */
  datatype Round = Done | Trailing(line: Bytes) | Next(word: Bytes, rest: Bytes)

  function ArgRound(s: Bytes): (r: Round)
    ensures r.Next? ==> |r.word| >= 1 && |r.rest| + |r.word| <= |s|
  {
    var t := SkipWhitespace(s);
    match PeekStringOf(t, Arg, false)
    case Ok(arg) => Next(arg, t[|arg|..])
    case Err(e) => if e == Colon then Trailing(t[1..]) else Done
  }

  function ParseArgs(s: Bytes): Args
    decreases |s|
  {
    match ArgRound(s)
    case Done => Args([], None)
    case Trailing(line) => Add(Args([], None), line)
    case Next(word, rest) => Cons(word, ParseArgs(rest))
  }

  function LenBytes(a: Args): nat {
    WordBytes(a.words) + if a.long.Some? then |a.long.value| + 1 else 0
  }

  function WordBytes(words: seq<Bytes>): nat {
    if words == [] then 0 else WordBytes(words[..|words| - 1]) + |words[|words| - 1]| + 1
  }

  // ---------------------------------------------------------------------------
  // The loops

  method AfterColon(splitter: Splitter) returns (line: Bytes)
    requires splitter.Valid()
    modifies splitter
    ensures splitter.Valid()
    ensures line == if old(splitter.Rest()) == [] then [] else old(splitter.Rest())[1..]
  {
    var _ := splitter.NextByte();
    line := splitter.TakeRest();
  }

  method TakeArg(splitter: Splitter) returns (r: Result<Bytes>)
    requires splitter.Valid()
    modifies splitter
    ensures splitter.Valid()
    ensures var t := SkipWhitespace(old(splitter.Rest()));
            && r == PeekStringOf(t, Arg, false)
            && splitter.Rest() == if r.Ok? then t[|r.value|..] else t
  {
    splitter.ConsumeWhitespace();
    r := splitter.String(Arg, false);
  }

  method NextArg(splitter: Splitter) returns (r: Round)
    requires splitter.Valid()
    modifies splitter
    ensures splitter.Valid()
    ensures r == ArgRound(old(splitter.Rest()))
    ensures r.Next? ==> splitter.Rest() == r.rest
  {
    var arg := TakeArg(splitter);
    if arg.Ok? {
      r := Next(arg.value, splitter.Rest());
    } else if arg.error == Colon {
      var line := AfterColon(splitter);
      r := Trailing(line);
    } else {
      r := Done;
    }
  }

  method ReadArgs(line: Bytes) returns (r: Args)
    ensures r == ParseArgs(line)
  {
    var splitter := new Splitter(line);
    var words: seq<Bytes> := [];
    var long: Option<Bytes> := None;
    AppendNothing(ParseArgs(line));
    var more := true;
    while more
      invariant splitter.Valid()
      invariant more ==> long == None
      invariant ParseArgs(line) ==
                if more then Append(words, ParseArgs(splitter.Rest())) else Args(words, long)
      decreases more, |splitter.Rest()|
    {
      ghost var s := splitter.Rest();
      var round := NextArg(splitter);
      ParseArgsRound(words, s, round);
      match round {
        case Done =>
          more := false;
        case Trailing(rest) =>
          var added := Add(Args(words, long), rest);
          words, long := added.words, added.long;
          more := false;
        case Next(word, _) =>
          words := words + [word];
      }
    }
    r := Args(words, long);
  }

  function Append(words: seq<Bytes>, a: Args): Args {
    Args(words + a.words, a.long)
  }

  lemma {:induction false} AppendNothing(a: Args)
    ensures Append([], a) == a
  {
    assert [] + a.words == a.words;
  }

  lemma {:induction false} AppendCons(words: seq<Bytes>, w: Bytes, a: Args)
    ensures Append(words, Cons(w, a)) == Append(words + [w], a)
  {
    assert words + ([w] + a.words) == words + [w] + a.words;
  }

  lemma {:induction false} AppendAdd(words: seq<Bytes>, line: Bytes)
    ensures Append(words, Add(Args([], None), line)) == Add(Args(words, None), line)
  {
    assert words + ([] + [line]) == words + [line] && words + [] == words;
  }

  lemma {:induction false} ParseArgsRound(words: seq<Bytes>, s: Bytes, round: Round)
    requires round == ArgRound(s)
    ensures round.Done? ==> Append(words, ParseArgs(s)) == Args(words, None)
    ensures round.Trailing? ==> Append(words, ParseArgs(s)) == Add(Args(words, None), round.line)
    ensures round.Next? ==>
              Append(words, ParseArgs(s)) == Append(words + [round.word], ParseArgs(round.rest))
  {
    match round {
      case Done => assert words + [] == words;
      case Trailing(line) => AppendAdd(words, line);
      case Next(word, rest) => AppendCons(words, word, ParseArgs(rest));
    }
  }

  method CountBytes(a: Args) returns (count: nat)
    ensures count == LenBytes(a)
  {
    count := 0;
    for i := 0 to |a.words|
      invariant count == WordBytes(a.words[..i])
    {
      assert a.words[..i + 1][..i] == a.words[..i];
      count := count + (|a.words[i]| + 1);
    }
    assert a.words[..|a.words|] == a.words;
    if a.long.Some? { count := count + (|a.long.value| + 1); }
  }

  method WriteArgs(a: Args, w: Bytes) returns (out: Bytes)
    ensures out == w + ArgsText(a)
  {
    out := w;
    var leading := if a.long.Some? || a.words == [] then a.words else a.words[..|a.words| - 1];
    for i := 0 to |leading|
      invariant out == w + ArgBytes(leading[..i])
    {
      ArgBytesSnoc(leading[..i], leading[i]);
      assert leading[..i + 1] == leading[..i] + [leading[i]];
      out := out + [SP];
      out := out + leading[i];
    }
    assert leading[..|leading|] == leading;
    if a.long.Some? {
      out := out + [SP, COLON];
      out := out + a.long.value;
    } else if a.words != [] {
      var last := a.words[|a.words| - 1];
      ArgBytesSnoc(leading, last);
      assert a.words == leading + [last];
      out := out + [SP];
      out := out + last;
    }
  }

  lemma {:induction false} ArgBytesSnoc(words: seq<Bytes>, w: Bytes)
    ensures ArgBytes(words + [w]) == ArgBytes(words) + [SP] + w
    decreases |words|
  {
    if words == [] {
      assert words + [w] == [w] && [w][1..] == [];
    } else {
      assert (words + [w])[1..] == words[1..] + [w];
      ArgBytesSnoc(words[1..], w);
    }
  }

  // ---------------------------------------------------------------------------
  // Properties

  /** Lengths: the pessimistic count exceeds the written length by one exactly when there are
      arguments and the last one is not long. */
  lemma {:induction false} ArgBytesLen(words: seq<Bytes>)
    ensures |ArgBytes(words)| == WordBytes(words)
    decreases |words|
  {
    if words != [] {
      var w := words[|words| - 1];
      ArgBytesLen(words[..|words| - 1]);
      ArgBytesSnoc(words[..|words| - 1], w);
      assert words == words[..|words| - 1] + [w];
    }
  }

  /** How a round starts, by the first byte after the whitespace. */
  lemma {:induction false} RoundByFirstByte(s: Bytes)
    requires Is(Line, s)
    ensures var t := SkipWhitespace(s);
            && (ArgRound(s).Done? <==> t == [])
            && (ArgRound(s).Trailing? <==> t != [] && t[0] == COLON)
            && (ArgRound(s).Trailing? ==> ArgRound(s).line == t[1..])
            && (ArgRound(s).Next? ==> ArgRound(s).rest == t[|ArgRound(s).word|..])
            && (ArgRound(s).Next? && ArgRound(s).rest != [] ==> ArgRound(s).rest[0] == SP)
  {
    var t := SkipWhitespace(s);
    var k := |s| - |t|;
    var n := Find(t, Outside(Arg));
    if t != [] {
      assert t[0] == s[k];
      assert n > 0 && t[..n][0] == t[0];
      if n < |t| { assert t[n] == s[k + n]; }
    }
  }

  lemma {:induction false} LineSuffix(s: Bytes, n: nat)
    requires Is(Line, s) && n <= |s|
    ensures Is(Line, s[n..]) && Is(Line, s[..n])
  {
  }

  /** Each round leaves lines behind. */
  lemma {:induction false} RoundOfLine(s: Bytes)
    requires Is(Line, s)
    ensures ArgRound(s).Trailing? ==> Is(Line, ArgRound(s).line)
    ensures ArgRound(s).Next? ==> Is(Arg, ArgRound(s).word) && Is(Line, ArgRound(s).rest)
  {
    var t := SkipWhitespace(s);
    LineSuffix(s, |s| - |t|);
    match ArgRound(s) {
      case Done =>
      case Trailing(line) => LineSuffix(t, 1);
      case Next(word, rest) => LineSuffix(t, |word|);
    }
  }

  lemma {:induction false} ConsValid(w: Bytes, a: Args)
    requires Is(Arg, w) && ValidArgs(a)
    ensures ValidArgs(Cons(w, a))
  {
  }

  lemma {:induction false} AddValid(a: Args, s: Bytes)
    requires ValidArgs(a) && Is(Line, s)
    ensures ValidArgs(Add(a, s))
  {
  }

  /** Whatever is parsed satisfies the invariant of the type. */
  lemma {:induction false} ParseArgsValid(s: Bytes)
    requires Is(Line, s)
    ensures ValidArgs(ParseArgs(s))
    decreases |s|
  {
    RoundOfLine(s);
    match ArgRound(s) {
      case Done =>
      case Trailing(line) => AddValid(Args([], None), line);
      case Next(word, rest) =>
        ParseArgsValid(rest);
        ConsValid(word, ParseArgs(rest));
    }
  }

  /** Bytes an argument list takes on the wire. */
  function Weight(a: Args): nat {
    |ArgsText(a)|
  }

  lemma {:induction false} WeightCons(w: Bytes, a: Args)
    ensures Weight(Cons(w, a)) == |w| + 1 + Weight(a)
  {
    assert ([w] + a.words)[1..] == a.words;
  }

  /** A parsed list never takes more bytes than it was parsed from, and fewer if the text starts
      with more than one byte of whitespace. */
  lemma {:induction false} ParseArgsWeight(s: Bytes)
    requires Is(Line, s) && (s != [] ==> IsWhitespace(s[0]))
    ensures Weight(ParseArgs(s)) <= |s|
    ensures |s| >= 2 && IsWhitespace(s[1]) ==> Weight(ParseArgs(s)) < |s|
    decreases |s|
  {
    var t := SkipWhitespace(s);
    var n := Find(s, NonSpace);
    LineSuffix(s, n);
    RoundByFirstByte(s);
    match ArgRound(s) {
      case Done =>
      case Trailing(line) => WeightTrailing(line);
      case Next(word, rest) =>
        LineSuffix(t, |word|);
        ParseArgsWeight(rest);
        WeightCons(word, ParseArgs(rest));
    }
  }

  lemma {:induction false} WeightTrailing(line: Bytes)
    ensures Weight(Add(Args([], None), line)) <= |line| + 2
  {
    assert [] + [line] == [line] && [line][1..] == [];
    assert ArgBytes([line]) == [SP] + line;
  }

  /** No word starts with a byte that `consume_whitespace` would strip (a tab or a form feed). */
  predicate NoLeadingBlank(words: seq<Bytes>) {
    forall i | 0 <= i < |words| :: words[i] != [] && !IsWhitespace(words[i][0])
  }

  lemma {:induction false} RoundOfWord(w: Bytes, more: Bytes)
    requires Is(Arg, w) && !IsWhitespace(w[0])
    requires more == [] || more[0] == SP
    ensures ArgRound([SP] + w + more) == Next(w, more)
  {
    var t := w + more;
    var s := [SP] + w + more;
    assert s == [SP] + t && t[0] == w[0];
    FindAppend([SP], t, NonSpace);
    assert s[1..] == t;
    FindAppend(w, more, Outside(Arg));
    assert t[..|w|] == w && t[|w|..] == more;
  }

  lemma {:induction false} RoundOfLong(l: Bytes)
    ensures ArgRound([SP, COLON] + l) == Trailing(l)
  {
    var t := [COLON] + l;
    assert [SP, COLON] + l == [SP] + t;
    FindAppend([SP], t, NonSpace);
    assert ([SP] + t)[1..] == t && t[1..] == l;
    var n := Find(t, Outside(Arg));
    assert n > 0 && t[..n][0] == COLON;
  }

  lemma {:induction false} ArgsTextIsLine(a: Args)
    requires ValidArgs(a)
    ensures Is(Line, ArgsText(a))
    ensures ArgsText(a) != [] ==> ArgsText(a)[0] == SP
    decreases |a.words|
  {
    if a.words != [] {
      var a' := Args(a.words[1..], a.long);
      ArgsTextIsLine(a');
      assert ArgsText(a) == [SP] + a.words[0] + ArgsText(a');
    }
  }

  lemma {:induction false} ArgsTextCons(w: Bytes, a: Args)
    ensures ArgsText(Cons(w, a)) == [SP] + w + ArgsText(a)
  {
    assert ([w] + a.words)[1..] == a.words;
  }

  /** The part of the round trip that follows a first word. */
  lemma {:induction false} RoundTripCons(w: Bytes, a: Args)
    requires Is(Arg, w) && ValidArgs(a)
    ensures !IsWhitespace(w[0]) ==> ParseArgs(ArgsText(Cons(w, a))) == Cons(w, ParseArgs(ArgsText(a)))
    ensures IsWhitespace(w[0]) ==> ParseArgs(ArgsText(Cons(w, a))) != Cons(w, a)
  {
    ArgsTextCons(w, a);
    ConsValid(w, a);
    ArgsTextIsLine(a);
    ArgsTextIsLine(Cons(w, a));
    if IsWhitespace(w[0]) {
      assert ArgsText(Cons(w, a))[1] == w[0];
      ParseArgsWeight(ArgsText(Cons(w, a)));
    } else {
      RoundOfWord(w, ArgsText(a));
    }
  }

  lemma {:induction false} RoundTripNoWords(a: Args)
    requires ValidArgs(a) && a.words == []
    ensures ParseArgs(ArgsText(a)) == a
  {
    if a.long.Some? {
      var l := a.long.value;
      RoundOfLong(l);
      assert ArgsText(a) == [SP, COLON] + l;
      assert Add(Args([], None), l) == a;
    } else {
      RoundByFirstByte([]);
      assert ArgsText(a) == [];
    }
  }

  /** A written argument list parses back to itself if and only if no word starts with a tab or a
      form feed. */
  lemma {:induction false} ArgsRoundTripIff(a: Args)
    requires ValidArgs(a)
    ensures ParseArgs(ArgsText(a)) == a <==> NoLeadingBlank(a.words)
    decreases |a.words|
  {
    if a.words == [] {
      RoundTripNoWords(a);
    } else {
      var w, a' := a.words[0], Args(a.words[1..], a.long);
      assert a == Cons(w, a');
      RoundTripCons(w, a');
      if !IsWhitespace(w[0]) {
        ArgsRoundTripIff(a');
        ConsInjective(w, ParseArgs(ArgsText(a')), a');
        BlankFree(a.words);
      }
    }
  }

  lemma {:induction false} ConsInjective(w: Bytes, x: Args, y: Args)
    ensures Cons(w, x) == Cons(w, y) <==> x == y
  {
    assert ([w] + x.words)[1..] == x.words && ([w] + y.words)[1..] == y.words;
  }

  lemma {:induction false} BlankFree(words: seq<Bytes>)
    requires words != [] && words[0] != [] && !IsWhitespace(words[0][0])
    ensures NoLeadingBlank(words) <==> NoLeadingBlank(words[1..])
  {
    if NoLeadingBlank(words[1..]) {
      forall i | 0 <= i < |words|
        ensures words[i] != [] && !IsWhitespace(words[i][0])
      {
        if i > 0 { assert words[i] == words[1..][i - 1]; }
      }
    }
  }

  /** Blanks in front of an argument do not matter. */
  lemma {:induction false} ExtraBlankIgnored(b: byte, s: Bytes)
    requires IsWhitespace(b)
    ensures ParseArgs([b] + s) == ParseArgs(s)
  {
    assert ([b] + s)[1..] == s;
    assert SkipWhitespace([b] + s) == SkipWhitespace(s) by {
      var n := Find(s, NonSpace);
      assert Find([b] + s, NonSpace) == n + 1 && ([b] + s)[n + 1..] == s[n..];
    }
  }

  /** Only the last word may start with a blank. */
  predicate BlanksLast(words: seq<Bytes>) {
    words == [] || NoLeadingBlank(words[..|words| - 1])
  }

  /** No word is parsed with a blank in front, except a last one that was written after a colon. */
  lemma {:induction false} ParsedLeadingBlank(s: Bytes)
    ensures BlanksLast(ParseArgs(s).words)
    decreases |s|
  {
    if ArgRound(s).Next? {
      NextRest(s);
      ParsedLeadingBlank(ArgRound(s).rest);
      BlankOnlyLast(ArgRound(s).word, ParseArgs(ArgRound(s).rest).words);
    } else {
      FewWords(s);
    }
  }

  lemma {:induction false} FewWords(s: Bytes)
    requires !ArgRound(s).Next?
    ensures BlanksLast(ParseArgs(s).words)
  {
    assert |ParseArgs(s).words| <= 1;
  }

  lemma {:induction false} NextRest(s: Bytes)
    requires ArgRound(s).Next?
    ensures |ArgRound(s).rest| < |s|
    ensures ArgRound(s).word != [] && !IsWhitespace(ArgRound(s).word[0])
    ensures ParseArgs(s).words == [ArgRound(s).word] + ParseArgs(ArgRound(s).rest).words
  {
    var t := SkipWhitespace(s);
    assert ArgRound(s).word <= t;
  }

  lemma {:induction false} BlankOnlyLast(w: Bytes, more: seq<Bytes>)
    requires w != [] && !IsWhitespace(w[0]) && BlanksLast(more)
    ensures BlanksLast([w] + more)
  {
    if more == [] {
      assert ([w] + more)[..0] == [];
    } else {
      assert ([w] + more)[..|more|] == [w] + more[..|more| - 1];
    }
  }
}
