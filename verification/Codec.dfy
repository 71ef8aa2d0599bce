/** Whole messages on the wire (src/ircmsg/codec.rs, with the message types of
    src/ircmsg/client.rs and src/ircmsg/server.rs). */
module Codec {
  import opened Strings
  import opened Splitters
  import opened FlatMaps
  import opened Escape
  import opened Tags
  import opened Sources
  import opened Arguments

  /** An alphabetic command or a three-digit reply code. */
  datatype Kind = Numeric(text: Bytes) | Command(text: Bytes)

  datatype ClientMsg = ClientMsg(tags: seq<Tag>, cmd: Bytes, args: Args)

  datatype ServerMsg = ServerMsg(tags: seq<Tag>, source: Option<Source>, kind: Kind, args: Args)

  predicate IsNumeric(s: Bytes) {
    |s| == 3 && IsDigit(s[0]) && IsDigit(s[1]) && IsDigit(s[2])
  }

  ghost predicate ValidKind(k: Kind) {
    if k.Numeric? then IsNumeric(k.text) else Is(Cmd, k.text)
  }

  ghost predicate ValidClient(m: ClientMsg) {
    ValidTags(m.tags) && Is(Cmd, m.cmd) && ValidArgs(m.args)
  }

  ghost predicate ValidServer(m: ServerMsg) {
    && ValidTags(m.tags) && ValidKind(m.kind) && ValidArgs(m.args)
    && (m.source.Some? ==> ValidSource(m.source.value))
  }

  // ---------------------------------------------------------------------------
  // Parsing

  /** What precedes the arguments, and the text of the arguments. */
  datatype Head<+S> = Head(tags: seq<Tag>, source: Option<S>, kind: Bytes, rest: Bytes)

  /** The next word of the line and what follows it. */
  function NextWord(s: Bytes): (r: (Bytes, Bytes))
    ensures |r.0| + |r.1| <= |s|
  {
    var t := SkipWhitespace(s);
    var n := Find(t, Outside(Word));
    (t[..n], t[n..])
  }

  function ParseHead<S>(s: Bytes, expectTags: bool, expectSource: bool, tags: seq<Tag>,
                        source: Option<S>, parseSource: Bytes -> Outcome<S>): Outcome<Head<S>>
    decreases |s|
  {
    var (word, rest) := NextWord(s);
    if word == [] then Bad(InvalidKind(Empty))
    else if word[0] == AT && expectTags then
      match ParseTags(word[1..])
      case None => Diverges
      case Some(found) => ParseHead(rest, false, expectSource, found, source, parseSource)
    else if word[0] == COLON && expectSource then
      match parseSource(word[1..])
      case Good(found) => ParseHead(rest, false, false, tags, Some(found), parseSource)
      case Bad(e) => Bad(e)
      case Diverges => Diverges
    else Good(Head(tags, source, word, rest))
  }

  function FirstBad(s: Bytes, t: StrType): Option<byte> {
    var n := Find(s, Outside(t));
    if n < |s| then Some(s[n]) else None
  }

  function ParseCommand(w: Bytes): Outcome<Bytes> {
    var n := FirstNonAlpha(w);
    if n < |w| then Bad(InvalidKind(Byte(w[n]))) else Good(Uppercase(w))
  }

  function FirstNonAlpha(w: Bytes): (n: nat)
    ensures n <= |w| && (n < |w| ==> !IsAlpha(w[n]))
    ensures forall i | 0 <= i < n :: IsAlpha(w[i])
  {
    if w == [] || !IsAlpha(w[0]) then 0 else 1 + FirstNonAlpha(w[1..])
  }

  function Uppercase(w: Bytes): Bytes {
    seq(|w|, i requires 0 <= i < |w| => ToUpper(w[i]))
  }

  function ParseKind(w: Bytes): Outcome<Kind> {
    if IsNumeric(w) then Good(Numeric(w))
    else
      match ParseCommand(w)
      case Good(c) => Good(Command(c))
      case Bad(e) => Bad(e)
      case Diverges => Diverges
  }

  function IgnoreSource(s: Bytes): Outcome<()> {
    Good(())
  }

  function ParseServer(line: Bytes): Outcome<ServerMsg> {
    match FirstBad(line, Line)
    case Some(b) => Bad(InvalidLine(Byte(b)))
    case None => ServerFrom(ParseHead(line, true, true, [], None, ParseSource))
  }

  function ServerFrom(head: Outcome<Head<Source>>): Outcome<ServerMsg> {
    match head
    case Bad(e) => Bad(e)
    case Diverges => Diverges
    case Good(h) =>
      match ParseKind(h.kind)
      case Bad(e) => Bad(e)
      case Diverges => Diverges
      case Good(kind) => Good(ServerMsg(h.tags, h.source, kind, ParseArgs(h.rest)))
  }

  function ParseClient(line: Bytes): Outcome<ClientMsg> {
    match FirstBad(line, Line)
    case Some(b) => Bad(InvalidLine(Byte(b)))
    case None =>
      match ParseHead(line, true, true, [], None, IgnoreSource)
      case Bad(e) => Bad(e)
      case Diverges => Diverges
      case Good(h) =>
        match ParseCommand(h.kind)
        case Bad(e) => Bad(e)
        case Diverges => Diverges
        case Good(cmd) => Good(ClientMsg(h.tags, cmd, ParseArgs(h.rest)))
  }

  /** The first word of the line holds tags with a colon in key position. */
  predicate HangsOn(line: Bytes) {
    var word := NextWord(line).0;
    FirstBad(line, Line).None? && word != [] && word[0] == AT && ColonInKeyPosition(word[1..])
  }

  lemma {:induction false} FirstWordIsWord(s: Bytes)
    ensures Is(Word, NextWord(s).0)
  {
  }

  lemma {:induction false} PastTags<S>(s: Bytes, expectSource: bool, tags: seq<Tag>, source: Option<S>,
                                       parseSource: Bytes -> Outcome<S>)
    requires forall w :: !parseSource(w).Diverges?
    ensures !ParseHead(s, false, expectSource, tags, source, parseSource).Diverges?
    decreases |s|, expectSource
  {
    var (word, rest) := NextWord(s);
    if word != [] && word[0] == COLON && expectSource && parseSource(word[1..]).Good? {
      PastTags(rest, false, tags, Some(parseSource(word[1..]).value), parseSource);
    }
  }

  lemma {:induction false} HeadHangsIff<S>(line: Bytes, parseSource: Bytes -> Outcome<S>)
    requires forall w :: !parseSource(w).Diverges?
    requires FirstBad(line, Line).None?
    ensures ParseHead(line, true, true, [], None, parseSource).Diverges? <==> HangsOn(line)
  {
    var (word, rest) := NextWord(line);
    FirstWordIsWord(line);
    if word != [] && word[0] == AT {
      assert Is(Word, word[1..]);
      ParseReturnsIff(word[1..]);
      var found := ParseTags(word[1..]);
      if found.Some? { PastTags(rest, true, found.value, None, parseSource); }
    } else if word != [] && word[0] == COLON && parseSource(word[1..]).Good? {
      PastTags(rest, false, [], Some(parseSource(word[1..]).value), parseSource);
    }
  }

  /** Parsing a server's message never ends if and only if the first word of its line starts with
      `@` and has a colon in key position after that. */
  lemma {:induction false} ServerHangsIff(line: Bytes)
    ensures ParseServer(line).Diverges? <==> HangsOn(line)
  {
    forall w ensures !ParseSource(w).Diverges? { }
    if FirstBad(line, Line).None? { HeadHangsIff(line, ParseSource); }
  }

  lemma {:induction false} ClientHangsIff(line: Bytes)
    ensures ParseClient(line).Diverges? <==> HangsOn(line)
  {
    if FirstBad(line, Line).None? { HeadHangsIff(line, IgnoreSource); }
  }

  /** The parser's loop over a splitter, with its two expectation flags. */
  method ReadHead<S>(splitter: Splitter, parseSource: Bytes -> Outcome<S>)
    returns (r: Outcome<Head<S>>)
    requires splitter.Valid()
    modifies splitter
    ensures splitter.Valid()
    ensures r == ParseHead(old(splitter.Rest()), true, true, [], None, parseSource)
    ensures r.Good? ==> splitter.Rest() == r.value.rest
  {
    var tags: seq<Tag> := [];
    var source: Option<S> := None;
    var expectTags, expectSource := true, true;
    ghost var whole := splitter.Rest();
    while true
      invariant splitter.Valid()
      invariant ParseHead(whole, true, true, [], None, parseSource) ==
                ParseHead(splitter.Rest(), expectTags, expectSource, tags, source, parseSource)
      decreases |splitter.Rest()|
    {
      var word := TakeWord(splitter);
      if word == [] { return Bad(InvalidKind(Empty)); }
      if word[0] == AT && expectTags {
        expectTags := false;
        var found := ParseTagList(word[1..]);
        if found.None? { return Diverges; }
        tags := found.value;
      } else if word[0] == COLON && expectSource {
        expectTags, expectSource := false, false;
        match parseSource(word[1..]) {
          case Good(found) => source := Some(found);
          case Bad(e) => return Bad(e);
          case Diverges => return Diverges;
        }
      } else {
        return Good(Head(tags, source, word, splitter.Rest()));
      }
    }
  }

  method TakeWord(splitter: Splitter) returns (word: Bytes)
    requires splitter.Valid()
    modifies splitter
    ensures splitter.Valid() && (word, splitter.Rest()) == NextWord(old(splitter.Rest()))
  {
    splitter.ConsumeWhitespace();
    word := splitter.NextWord();
  }

  method ReadServer(line: Bytes) returns (r: Outcome<ServerMsg>)
    ensures r == ParseServer(line)
  {
    var bad := FirstBad(line, Line);
    if bad.Some? { return Bad(InvalidLine(Byte(bad.value))); }
    var splitter := new Splitter(line);
    var head := ReadHead(splitter, ParseSource);
    if head.Bad? { return Bad(head.error); }
    if head.Diverges? { return Diverges; }
    var kind := ParseKind(head.value.kind);
    if kind.Bad? { return Bad(kind.error); }
    if kind.Diverges? { return Diverges; }
    var rest := splitter.TakeRest();
    var args := ReadArgs(rest);
    r := Good(ServerMsg(head.value.tags, head.value.source, kind.value, args));
  }

  method ReadClient(line: Bytes) returns (r: Outcome<ClientMsg>)
    ensures r == ParseClient(line)
  {
    var bad := FirstBad(line, Line);
    if bad.Some? { return Bad(InvalidLine(Byte(bad.value))); }
    var splitter := new Splitter(line);
    var head := ReadHead(splitter, IgnoreSource);
    if head.Bad? { return Bad(head.error); }
    if head.Diverges? { return Diverges; }
    var cmd := ParseCommand(head.value.kind);
    if cmd.Bad? { return Bad(cmd.error); }
    if cmd.Diverges? { return Diverges; }
    var rest := splitter.TakeRest();
    var args := ReadArgs(rest);
    r := Good(ClientMsg(head.value.tags, cmd.value, args));
  }

  // ---------------------------------------------------------------------------
  // Writing

  function TagsText(tags: seq<Tag>): Bytes {
    if tags == [] then [] else TagBytes(AT, tags) + [SP]
  }

  function PrefixText(source: Option<Source>): Bytes {
    match source
    case None => []
    case Some(src) => [COLON] + SourceText(src) + [SP]
  }

  /** A message on the wire, without its line terminator. */
  function Wire(tags: seq<Tag>, source: Option<Source>, kind: Bytes, args: Args): Bytes {
    TagsText(tags) + PrefixText(source) + kind + ArgsText(args)
  }

  function ServerText(m: ServerMsg): Bytes {
    Wire(m.tags, m.source, m.kind.text, m.args)
  }

  function ClientText(m: ClientMsg): Bytes {
    Wire(m.tags, None, m.cmd, m.args)
  }

  method WriteTagsPart(tags: seq<Tag>, w: Bytes) returns (out: Bytes)
    ensures out == w + TagsText(tags)
  {
    out := w;
    if tags != [] {
      out := WriteTags(tags, out);
      out := out + [SP];
    }
  }

  method WritePrefix(source: Option<Source>, w: Bytes) returns (out: Bytes)
    ensures out == w + PrefixText(source)
  {
    out := w;
    if source.Some? {
      out := out + [COLON];
      out := WriteSource(source.value, out);
      out := out + [SP];
    }
  }

  method WriteTo(tags: seq<Tag>, source: Option<Source>, kind: Bytes, args: Args, w: Bytes)
    returns (out: Bytes)
    ensures out == w + Wire(tags, source, kind, args)
  {
    out := WriteTagsPart(tags, w);
    out := WritePrefix(source, out);
    out := out + kind;
    out := WriteArgs(args, out);
    var a, b, tail := TagsText(tags), PrefixText(source), ArgsText(args);
    Assoc(w, a, b);
    Assoc(w, a + b, kind);
    Assoc(w, a + b + kind, tail);
  }

  // ---------------------------------------------------------------------------
  // Round trips

  lemma {:induction false} NextWordOf(lead: Bytes, word: Bytes, more: Bytes)
    requires lead == [] || lead == [SP]
    requires Is(Word, word) && word != [] && !IsWhitespace(word[0])
    requires more == [] || more[0] == SP
    ensures NextWord(lead + word + more) == (word, more)
  {
    var t := word + more;
    assert lead + word + more == lead + t && t[0] == word[0];
    FindAppend(lead, t, NonSpace);
    assert (lead + t)[|lead|..] == t;
    FindAppend(word, more, Outside(Word));
    assert t[..|word|] == word && t[|word|..] == more;
  }

  /** A kind word ends the head. */
  lemma {:induction false} HeadAtKind<S>(lead: Bytes, kind: Bytes, more: Bytes, expectTags: bool, expectSource: bool,
                      tags: seq<Tag>, source: Option<S>, parseSource: Bytes -> Outcome<S>)
    requires lead == [] || lead == [SP]
    requires Is(Word, kind) && kind != [] && !IsWhitespace(kind[0])
    requires (kind[0] == AT ==> !expectTags) && (kind[0] == COLON ==> !expectSource)
    requires more == [] || more[0] == SP
    ensures ParseHead(lead + kind + more, expectTags, expectSource, tags, source, parseSource) ==
            Good(Head(tags, source, kind, more))
  {
    NextWordOf(lead, kind, more);
  }

  function AfterSource<S>(found: Outcome<S>, tags: seq<Tag>, kind: Bytes, more: Bytes): Outcome<Head<S>> {
    match found
    case Good(src) => Good(Head(tags, Some(src), kind, more))
    case Bad(e) => Bad(e)
    case Diverges => Diverges
  }

  /** A source, then the kind word. */
  lemma {:induction false} HeadAtSource<S>(lead: Bytes, src: Bytes, kind: Bytes, more: Bytes, expectTags: bool,
                        tags: seq<Tag>, parseSource: Bytes -> Outcome<S>)
    requires lead == [] || lead == [SP]
    requires Is(Word, src)
    requires Is(Word, kind) && kind != [] && !IsWhitespace(kind[0])
    requires more == [] || more[0] == SP
    ensures ParseHead(lead + ([COLON] + src) + ([SP] + kind + more), expectTags, true, tags, None, parseSource) ==
            AfterSource(parseSource(src), tags, kind, more)
  {
    var word, rest := [COLON] + src, [SP] + kind + more;
    ColonWord(src);
    NextWordOf(lead, word, rest);
    SourceStep(lead + word + rest, word, rest, expectTags, tags, parseSource);
    if parseSource(src).Good? {
      HeadAtKind([SP], kind, more, false, false, tags, Some(parseSource(src).value), parseSource);
    }
  }

  lemma {:induction false} ColonWord(src: Bytes)
    requires Is(Word, src)
    ensures Is(Word, [COLON] + src) && ([COLON] + src)[1..] == src
  {
  }

  /** One round of the loop on a word that starts with a colon. */
  lemma {:induction false} SourceStep<S>(s: Bytes, word: Bytes, rest: Bytes, expectTags: bool, tags: seq<Tag>,
                                         parseSource: Bytes -> Outcome<S>)
    requires NextWord(s) == (word, rest) && word != [] && word[0] == COLON
    ensures ParseHead(s, expectTags, true, tags, None, parseSource) ==
            match parseSource(word[1..])
            case Good(found) => ParseHead(rest, false, false, tags, Some(found), parseSource)
            case Bad(e) => Bad(e)
            case Diverges => Diverges
  {
  }

  /** Tags, then the rest of the head. */
  lemma {:induction false} HeadAtTags<S>(tags: seq<Tag>, more: Bytes, parseSource: Bytes -> Outcome<S>)
    requires ValidTags(tags) && tags != []
    requires more == [] || more[0] == SP
    ensures ParseTags(AfterByte(TagBytes(AT, tags))).Some?
    ensures ParseHead(TagBytes(AT, tags) + more, true, true, [], None, parseSource) ==
            ParseHead(more, false, true, ParseTags(AfterByte(TagBytes(AT, tags))).value, None, parseSource)
  {
    var word := TagBytes(AT, tags);
    TagBytesIsWord(AT, tags);
    TagsRoundTripIff(tags);
    NextWordOf([], word, more);
    assert [] + word + more == word + more;
  }

  /** A line with the text of a source that need not be one. */
  function LineOf(tags: seq<Tag>, src: Option<Bytes>, kind: Bytes, args: Args): Bytes {
    TagsText(tags) + SourcePart(src) + kind + ArgsText(args)
  }

  function SourcePart(src: Option<Bytes>): Bytes {
    match src
    case None => []
    case Some(text) => [COLON] + text + [SP]
  }

  /** The word is not taken for tags or a source. */
  predicate EndsHead(kind: Bytes, tags: seq<Tag>, src: Option<Bytes>) {
    && kind != [] && !IsWhitespace(kind[0])
    && (kind[0] == AT ==> tags != [] || src.Some?) && (kind[0] == COLON ==> src.Some?)
  }

  ghost predicate LineParts(tags: seq<Tag>, src: Option<Bytes>, kind: Bytes, args: Args) {
    ValidTags(tags) && (src.Some? ==> Is(Word, src.value)) && Is(Word, kind) && ValidArgs(args)
  }

  /** The head of any such line, whatever is done with the source. */
  lemma {:induction false} HeadOfLine<S>(tags: seq<Tag>, src: Option<Bytes>, kind: Bytes, args: Args,
                      parseSource: Bytes -> Outcome<S>)
    requires LineParts(tags, src, kind, args) && EndsHead(kind, tags, src)
    ensures ParseTags(AfterByte(TagBytes(AT, tags))).Some?
    ensures ParseHead(LineOf(tags, src, kind, args), true, true, [], None, parseSource) ==
            var back := ParseTags(AfterByte(TagBytes(AT, tags))).value;
            if src.None? then Good(Head(back, None, kind, ArgsText(args)))
            else AfterSource(parseSource(src.value), back, kind, ArgsText(args))
  {
    TagsRoundTripIff(tags);
    ArgsTextIsLine(args);
    LineShape(tags, src, kind, args);
    var tail := ArgsText(args);
    var lead := Lead(tags);
    var back := ParseTags(AfterByte(TagBytes(AT, tags))).value;
    if src.Some? {
      HeadAtSource(lead, src.value, kind, tail, tags == [], back, parseSource);
    } else {
      HeadAtKind(lead, kind, tail, tags == [], true, back, None, parseSource);
    }
    if tags == [] {
      assert back == [] by { assert FromVec<Bytes>([]) == []; }
    } else {
      HeadAtTags(tags, AfterTags(tags, src, kind, args), parseSource);
    }
  }

  /** The head of any written message. */
  lemma {:induction false} HeadOfWire<S>(tags: seq<Tag>, source: Option<Source>, kind: Bytes, args: Args,
                      parseSource: Bytes -> Outcome<S>)
    requires ValidTags(tags) && ValidArgs(args) && (source.Some? ==> ValidSource(source.value))
    requires Is(Word, kind) && kind != [] && (IsAlpha(kind[0]) || IsDigit(kind[0]))
    ensures ParseTags(AfterByte(TagBytes(AT, tags))).Some?
    ensures ParseHead(Wire(tags, source, kind, args), true, true, [], None, parseSource) ==
            var back := ParseTags(AfterByte(TagBytes(AT, tags))).value;
            if source.None? then Good(Head(back, None, kind, ArgsText(args)))
            else AfterSource(parseSource(SourceText(source.value)), back, kind, ArgsText(args))
  {
    if source.Some? { SourceTextIsWord(source.value); }
    HeadOfLine(tags, if source.Some? then Some(SourceText(source.value)) else None, kind, args, parseSource);
  }

  function Lead(tags: seq<Tag>): Bytes {
    if tags == [] then [] else [SP]
  }

  /** What follows the tags, with the space that separates them from it. */
  function AfterTags(tags: seq<Tag>, src: Option<Bytes>, kind: Bytes, args: Args): Bytes {
    match src
    case None => Lead(tags) + kind + ArgsText(args)
    case Some(text) => Lead(tags) + ([COLON] + text) + ([SP] + kind + ArgsText(args))
  }

  lemma {:induction false} LineShape(tags: seq<Tag>, src: Option<Bytes>, kind: Bytes, args: Args)
    ensures LineOf(tags, src, kind, args) ==
            if tags == [] then AfterTags(tags, src, kind, args)
            else TagBytes(AT, tags) + AfterTags(tags, src, kind, args)
  {
    var t, tail := TagBytes(AT, tags), ArgsText(args);
    if src.Some? {
      var c := [COLON] + src.value;
      SourceShape(t, c, kind, tail);
    } else {
      Assoc(t, [SP], kind);
      Assoc(t, [SP] + kind, tail);
      assert t + [SP] + [] == t + [SP];
      assert [] + [] + kind + tail == [] + kind + tail;
    }
  }

  lemma {:induction false} SourceShape(t: Bytes, c: Bytes, kind: Bytes, tail: Bytes)
    ensures (t + [SP]) + (c + [SP]) + kind + tail == t + ([SP] + c + ([SP] + kind + tail))
    ensures [] + (c + [SP]) + kind + tail == [] + c + ([SP] + kind + tail)
  {
  }

  lemma {:induction false} WireIsLine(tags: seq<Tag>, source: Option<Source>, kind: Bytes, args: Args)
    requires ValidTags(tags) && ValidArgs(args) && (source.Some? ==> ValidSource(source.value))
    requires Is(Word, kind)
    ensures Is(Line, Wire(tags, source, kind, args))
    ensures FirstBad(Wire(tags, source, kind, args), Line).None?
    ensures kind != [] ==> Wire(tags, source, kind, args) != []
  {
    if source.Some? { SourceTextIsWord(source.value); }
    LineOfIsLine(tags, if source.Some? then Some(SourceText(source.value)) else None, kind, args);
  }

  lemma {:induction false} LineOfIsLine(tags: seq<Tag>, src: Option<Bytes>, kind: Bytes, args: Args)
    requires LineParts(tags, src, kind, args)
    ensures Is(Line, LineOf(tags, src, kind, args))
    ensures FirstBad(LineOf(tags, src, kind, args), Line).None?
  {
    TagBytesIsWord(AT, tags);
    ArgsTextIsLine(args);
    if src.Some? {
      JoinLines([COLON], src.value);
      JoinLines([COLON] + src.value, [SP]);
    }
    JoinLines(TagBytes(AT, tags), [SP]);
    JoinLines(TagsText(tags), SourcePart(src));
    JoinLines(TagsText(tags) + SourcePart(src), kind);
    JoinLines(TagsText(tags) + SourcePart(src) + kind, ArgsText(args));
  }

  lemma {:induction false} JoinLines(a: Bytes, b: Bytes)
    requires Is(Line, a) && Is(Line, b)
    ensures Is(Line, a + b)
  {
  }

  lemma {:induction false} CommandRoundTrip(c: Bytes)
    requires Is(Cmd, c)
    ensures ParseCommand(c) == Good(c) && !IsNumeric(c)
    ensures Is(Word, c) && IsUpper(c[0])
  {
    assert IsUpper(c[0]);
    assert Uppercase(c) == c;
  }

  lemma {:induction false} KindRoundTrip(k: Kind)
    requires ValidKind(k)
    ensures ParseKind(k.text) == Good(k)
    ensures Is(Word, k.text) && k.text != [] && (IsUpper(k.text[0]) || IsDigit(k.text[0]))
  {
    if k.Command? { CommandRoundTrip(k.text); }
  }

  predicate TagsSurvive(tags: seq<Tag>) {
    forall i | 0 <= i < |tags| :: SurvivesEscaping(tags[i].value)
  }

  predicate HostPresent(source: Option<Source>) {
    source.Some? && source.value.userhost.Some? ==> source.value.userhost.value.host != []
  }

  /** The central promise, with its exact domain: a server message, once written, parses back to
      the same message if and only if its tag values survive escaping, its host (if any) is not
      empty and no word argument starts with a tab or a form feed. */
  lemma {:induction false} ServerRoundTripIff(m: ServerMsg)
    requires ValidServer(m)
    ensures ParseServer(ServerText(m)) == Good(m) <==>
            TagsSurvive(m.tags) && HostPresent(m.source) && NoLeadingBlank(m.args.words)
    ensures !HostPresent(m.source) ==> ParseServer(ServerText(m)) == Bad(InvalidHost(Empty))
  {
    KindRoundTrip(m.kind);
    WireIsLine(m.tags, m.source, m.kind.text, m.args);
    HeadOfWire(m.tags, m.source, m.kind.text, m.args, ParseSource);
    TagsRoundTripIff(m.tags);
    ArgsRoundTripIff(m.args);
    if m.source.Some? { SourceRoundTripIff(m.source.value); }
  }

  /** The same for client messages, which are written without a source. */
  lemma {:induction false} ClientRoundTripIff(m: ClientMsg)
    requires ValidClient(m)
    ensures ParseClient(ClientText(m)) == Good(m) <==>
            TagsSurvive(m.tags) && NoLeadingBlank(m.args.words)
  {
    CommandRoundTrip(m.cmd);
    WireIsLine(m.tags, None, m.cmd, m.args);
    HeadOfWire(m.tags, None, m.cmd, m.args, IgnoreSource);
    TagsRoundTripIff(m.tags);
    ArgsRoundTripIff(m.args);
  }

  // ---------------------------------------------------------------------------
  // Space left

  /** `bytes_left`: 512 bytes less the terminator, less a pessimistic size. */
  function BytesLeft(kind: Bytes, source: Option<Source>, args: Args): int {
    var size := |kind| + (if source.Some? then 2 + SourceLen(source.value) else 0);
    510 - if args.words == [] && args.long.None? then size else size + LenBytes(args) + 1
  }

  /** The count is the written length without tags, plus one exactly when there are arguments and
      the last one is not long. */
  lemma {:induction false} BytesLeftExact(kind: Bytes, source: Option<Source>, args: Args)
    requires source.Some? ==> ValidSource(source.value)
    ensures 510 - BytesLeft(kind, source, args) ==
            |Wire([], source, kind, args)| + if args.words != [] && args.long.None? then 1 else 0
  {
    ArgBytesLen(args.words);
    if source.Some? { SourceTextIsWord(source.value); }
  }

  method SpaceLeft(kind: Bytes, source: Option<Source>, args: Args) returns (left: int)
    ensures left == BytesLeft(kind, source, args)
  {
    var size := |kind|;
    if source.Some? { size := size + 2 + SourceLen(source.value); }
    if !(args.words == [] && args.long.None?) {
      var count := CountBytes(args);
      size := size + count + 1;
    }
    left := 510 - size;
  }

  // ---------------------------------------------------------------------------
  // What is parsed

  lemma {:induction false} NextWordParts(s: Bytes)
    requires Is(Line, s)
    ensures Is(Word, NextWord(s).0) && Is(Line, NextWord(s).1)
    ensures NextWord(s).0 != [] ==> Is(Word, NextWord(s).0[1..])
  {
    FirstWordIsWord(s);
    var t := SkipWhitespace(s);
    var n := Find(t, Outside(Word));
    assert forall i | 0 <= i < |t[n..]| :: t[n..][i] == s[|s| - |t| + n + i];
  }

  /** Whatever head is read: its tags are valid, its kind is a word, the rest is a line, and its
      source is one that `parseSource` makes of a word. */
  lemma {:induction false} HeadValid<S>(s: Bytes, expectTags: bool, expectSource: bool, tags: seq<Tag>,
                                        source: Option<S>, parseSource: Bytes -> Outcome<S>, ok: S -> bool)
    requires Is(Line, s) && ValidTags(tags) && (source.Some? ==> ok(source.value))
    requires forall w | Is(Word, w) && parseSource(w).Good? :: ok(parseSource(w).value)
    ensures var r := ParseHead(s, expectTags, expectSource, tags, source, parseSource);
            r.Good? ==>
              && ValidTags(r.value.tags) && (r.value.source.Some? ==> ok(r.value.source.value))
              && Is(Word, r.value.kind) && r.value.kind != [] && Is(Line, r.value.rest)
    decreases |s|
  {
    var (word, rest) := NextWord(s);
    NextWordParts(s);
    if word == [] {
    } else if word[0] == AT && expectTags {
      ParsedTagsValid(word[1..]);
      if ParseTags(word[1..]).Some? {
        HeadValid(rest, false, expectSource, ParseTags(word[1..]).value, source, parseSource, ok);
      }
    } else if word[0] == COLON && expectSource {
      var found := parseSource(word[1..]);
      if found.Good? { HeadValid(rest, false, false, tags, Some(found.value), parseSource, ok); }
    }
  }

  lemma {:induction false} UppercaseIsCmd(w: Bytes)
    requires w != [] && forall i | 0 <= i < |w| :: IsAlpha(w[i])
    ensures Is(Cmd, Uppercase(w))
  {
  }

  lemma {:induction false} ParsedKindValid(w: Bytes)
    requires w != []
    ensures ParseKind(w).Good? ==> ValidKind(ParseKind(w).value)
    ensures ParseCommand(w).Good? ==> Is(Cmd, ParseCommand(w).value)
  {
    if ParseCommand(w).Good? { UppercaseIsCmd(w); }
  }

  ghost predicate FullSource(src: Source) {
    ValidSource(src) && HostPresent(Some(src))
  }

  lemma {:induction false} NoLine(line: Bytes)
    requires FirstBad(line, Line).None?
    ensures Is(Line, line)
  {
  }

  /** Whatever a client receives and parses satisfies the invariants of all types: tags strictly
      sorted by key, a numeric or an upper-case command, arguments classified as stored. */
  lemma {:induction false} ParsedServerValid(line: Bytes)
    ensures ParseServer(line).Good? ==>
              ValidServer(ParseServer(line).value) && HostPresent(ParseServer(line).value.source)
  {
    if ParseServer(line).Good? {
      NoLine(line);
      var ok := src => FullSource(src);
      forall w | Is(Word, w) && ParseSource(w).Good? ensures ok(ParseSource(w).value) { ParsedSourceText(w); }
      HeadValid(line, true, true, [], None, ParseSource, ok);
      var head := ParseHead(line, true, true, [], None, ParseSource).value;
      ParsedKindValid(head.kind);
      ParseArgsValid(head.rest);
    }
  }

  lemma {:induction false} ParsedClientValid(line: Bytes)
    ensures ParseClient(line).Good? ==> ValidClient(ParseClient(line).value)
  {
    if ParseClient(line).Good? {
      NoLine(line);
      HeadValid(line, true, true, [], None, IgnoreSource, _ => true);
      var head := ParseHead(line, true, true, [], None, IgnoreSource).value;
      ParsedKindValid(head.kind);
      ParseArgsValid(head.rest);
    }
  }

  /** A message that was received can be sent on and comes back the same if and only if its tag
      values survive escaping and no word argument starts with a blank. */
  lemma {:induction false} ForwardedServerIff(line: Bytes)
    requires ParseServer(line).Good?
    ensures var m := ParseServer(line).value;
            ParseServer(ServerText(m)) == Good(m) <==> TagsSurvive(m.tags) && NoLeadingBlank(m.args.words)
  {
    ParsedServerValid(line);
    ServerRoundTripIff(ParseServer(line).value);
  }

  predicate Letters(w: Bytes) {
    w != [] && forall i | 0 <= i < |w| :: IsAlpha(w[i])
  }

  /** Heads that differ in the case of the command make the same message. */
  lemma {:induction false} SameFromHeads(tags: seq<Tag>, found: Option<Outcome<Source>>, w: Bytes, w': Bytes, rest: Bytes)
    requires Letters(w) && Letters(w') && Uppercase(w) == Uppercase(w')
    ensures var head := (k: Bytes) =>
              if found.Some? then AfterSource(found.value, tags, k, rest) else Good(Head(tags, None, k, rest));
            ServerFrom(head(w)) == ServerFrom(head(w'))
  {
    LetterWord(w);
    LetterWord(w');
  }

  /** The case of a command does not matter. */
  lemma {:induction false} ServerCaseIgnored(tags: seq<Tag>, source: Option<Source>, w: Bytes, w': Bytes, args: Args)
    requires ValidTags(tags) && ValidArgs(args) && (source.Some? ==> ValidSource(source.value))
    requires Letters(w) && Letters(w') && Uppercase(w) == Uppercase(w')
    ensures ParseServer(Wire(tags, source, w, args)) == ParseServer(Wire(tags, source, w', args))
  {
    LetterWord(w);
    LetterWord(w');
    WireIsLine(tags, source, w, args);
    WireIsLine(tags, source, w', args);
    HeadOfWire(tags, source, w, args, ParseSource);
    HeadOfWire(tags, source, w', args, ParseSource);
    var found := if source.Some? then Some(ParseSource(SourceText(source.value))) else None;
    SameFromHeads(ParseTags(AfterByte(TagBytes(AT, tags))).value, found, w, w', ArgsText(args));
  }

  lemma {:induction false} ClientCaseIgnored(tags: seq<Tag>, source: Option<Source>, w: Bytes, w': Bytes, args: Args)
    requires ValidTags(tags) && ValidArgs(args) && (source.Some? ==> ValidSource(source.value))
    requires Letters(w) && Letters(w') && Uppercase(w) == Uppercase(w')
    ensures ParseClient(Wire(tags, source, w, args)) == ParseClient(Wire(tags, source, w', args))
  {
    LetterWord(w);
    LetterWord(w');
    WireIsLine(tags, source, w, args);
    WireIsLine(tags, source, w', args);
    HeadOfWire(tags, source, w, args, IgnoreSource);
    HeadOfWire(tags, source, w', args, IgnoreSource);
  }

  lemma {:induction false} LetterWord(w: Bytes)
    requires Letters(w)
    ensures Is(Word, w) && IsAlpha(w[0]) && !IsNumeric(w) && ParseCommand(w) == Good(Uppercase(w))
  {
  }

  lemma {:induction false} NextWordCut(s: Bytes) returns (blank: Bytes)
    ensures s == blank + NextWord(s).0 + NextWord(s).1
  {
    var t := SkipWhitespace(s);
    var n := Find(t, Outside(Word));
    blank := s[..|s| - |t|];
    assert t == t[..n] + t[n..] && s == blank + t;
    Assoc(blank, t[..n], t[n..]);
  }

  /** The kind that is read stands in the line, right before the text of the arguments. */
  lemma {:induction false} HeadStandsInLine<S>(s: Bytes, expectTags: bool, expectSource: bool, tags: seq<Tag>,
                                               source: Option<S>, parseSource: Bytes -> Outcome<S>)
    returns (before: Bytes)
    ensures var r := ParseHead(s, expectTags, expectSource, tags, source, parseSource);
            r.Good? ==> r.value.kind != [] && s == before + r.value.kind + r.value.rest
    decreases |s|
  {
    var (word, rest) := NextWord(s);
    before := NextWordCut(s);
    if word != [] {
      var more: Bytes := [];
      if word[0] == AT && expectTags {
        if ParseTags(word[1..]).Some? {
          more := HeadStandsInLine(rest, false, expectSource, ParseTags(word[1..]).value, source, parseSource);
        }
        before := FurtherOn(before, word, rest, more);
      } else if word[0] == COLON && expectSource {
        if parseSource(word[1..]).Good? {
          more := HeadStandsInLine(rest, false, false, tags, Some(parseSource(word[1..]).value), parseSource);
        }
        before := FurtherOn(before, word, rest, more);
      }
    }
  }

  lemma {:induction false} FurtherOn(blank: Bytes, word: Bytes, rest: Bytes, more: Bytes) returns (before: Bytes)
    ensures before == blank + word + more
    ensures forall k: Bytes, r: Bytes | rest == more + k + r :: blank + word + rest == before + k + r
  {
    before := blank + word + more;
    forall k: Bytes, r: Bytes | rest == more + k + r ensures blank + word + rest == before + k + r {
      Assoc(blank + word, more, k);
      Assoc(blank + word, more + k, r);
    }
  }

  // ---------------------------------------------------------------------------
  // Errors, and what decides

  lemma {:induction false} FirstBadIs(s: Bytes)
    ensures forall b :: FirstBad(s, Line) == Some(b) <==> FirstSuch(s, c => BreaksLine(c), b)
  {
    var n := Find(s, Outside(Line));
    forall b | FirstSuch(s, c => BreaksLine(c), b) ensures FirstBad(s, Line) == Some(b) {
      var i :| 0 <= i < |s| && s[i] == b && forall j | 0 <= j < i :: !BreaksLine(s[j]);
      assert i == n;
    }
  }

  /** Of itself the head is refused only for want of a kind. */
  lemma {:induction false} HeadErrors<S>(s: Bytes, expectTags: bool, expectSource: bool, tags: seq<Tag>,
                                         source: Option<S>, parseSource: Bytes -> Outcome<S>)
    requires forall w :: parseSource(w).Bad? ==> !parseSource(w).error.InvalidLine?
    ensures var r := ParseHead(s, expectTags, expectSource, tags, source, parseSource);
            r.Bad? ==> !r.error.InvalidLine?
    decreases |s|
  {
    var (word, rest) := NextWord(s);
    if word != [] && word[0] == AT && expectTags {
      if ParseTags(word[1..]).Some? {
        HeadErrors(rest, false, expectSource, ParseTags(word[1..]).value, source, parseSource);
      }
    } else if word != [] && word[0] == COLON && expectSource && parseSource(word[1..]).Good? {
      HeadErrors(rest, false, false, tags, Some(parseSource(word[1..]).value), parseSource);
    }
  }

  lemma {:induction false} SourceErrors(w: Bytes)
    ensures ParseSource(w).Bad? ==> !ParseSource(w).error.InvalidLine?
  {
  }

  lemma {:induction false} FromErrors(head: Outcome<Head<Source>>)
    requires head.Bad? ==> !head.error.InvalidLine?
    ensures ServerFrom(head).Bad? ==> !ServerFrom(head).error.InvalidLine?
  {
  }

  lemma {:induction false} ServerIs(line: Bytes, head: Outcome<Head<Source>>)
    requires FirstBad(line, Line).None? && ParseHead(line, true, true, [], None, ParseSource) == head
    ensures ParseServer(line) == ServerFrom(head)
  {
  }

  lemma {:induction false} ServerErrors(line: Bytes)
    requires FirstBad(line, Line).None? && ParseServer(line).Bad?
    ensures !ParseServer(line).error.InvalidLine?
  {
    forall w ensures ParseSource(w).Bad? ==> !ParseSource(w).error.InvalidLine? { SourceErrors(w); }
    HeadErrors(line, true, true, [], None, ParseSource);
    var head := ParseHead(line, true, true, [], None, ParseSource);
    ServerIs(line, head);
    FromErrors(head);
  }

  lemma {:induction false} ClientErrors(line: Bytes)
    requires FirstBad(line, Line).None? && ParseClient(line).Bad?
    ensures !ParseClient(line).error.InvalidLine?
  {
    HeadErrors(line, true, true, [], None, IgnoreSource);
  }

  /** A byte that no line may hold, and nothing else, is reported as such, and it is the first one. */
  lemma {:induction false} LineErrors(line: Bytes, b: byte)
    ensures var bad := FirstSuch(line, c => BreaksLine(c), b);
            && (ParseServer(line) == Bad(InvalidLine(Byte(b))) <==> bad)
            && (ParseClient(line) == Bad(InvalidLine(Byte(b))) <==> bad)
  {
    FirstBadIs(line);
    if FirstBad(line, Line).None? {
      if ParseServer(line).Bad? { ServerErrors(line); }
      if ParseClient(line).Bad? { ClientErrors(line); }
    }
  }

  lemma {:induction false} KindDecides(w: Bytes)
    requires w != []
    ensures ParseCommand(w).Good? <==> Letters(w)
    ensures forall b :: ParseCommand(w) == Bad(InvalidKind(Byte(b))) <==> FirstSuch(w, c => !IsAlpha(c), b)
    ensures Letters(w) ==> ParseCommand(w) == Good(Uppercase(w)) && !IsNumeric(w)
  {
    var n := FirstNonAlpha(w);
    forall b | FirstSuch(w, c => !IsAlpha(c), b) ensures ParseCommand(w) == Bad(InvalidKind(Byte(b))) {
      var i :| 0 <= i < |w| && w[i] == b && forall j | 0 <= j < i :: IsAlpha(w[j]);
      assert i == n;
    }
  }

  /** What is made of a head whose source is `found`. */
  ghost predicate DecidedBy(r: Outcome<ServerMsg>, found: Option<Outcome<Source>>, w: Bytes, b: byte) {
    if found.Some? && found.value.Bad? then r == Bad(found.value.error)
    else
      && (r == Bad(InvalidKind(Byte(b))) <==> !IsNumeric(w) && FirstSuch(w, c => !IsAlpha(c), b))
      && (r.Good? <==> IsNumeric(w) || Letters(w))
      && (r.Good? ==>
            && r.value.kind == (if IsNumeric(w) then Numeric(w) else Command(Uppercase(w)))
            && found == if r.value.source.Some? then Some(Good(r.value.source.value)) else None)
  }

  lemma {:induction false} HeadDecides(tags: seq<Tag>, found: Option<Outcome<Source>>, w: Bytes, rest: Bytes, b: byte)
    requires w != [] && (found.Some? ==> !found.value.Diverges?)
    ensures var head := if found.Some? then AfterSource(found.value, tags, w, rest) else Good(Head(tags, None, w, rest));
            DecidedBy(ServerFrom(head), found, w, b)
  {
    KindDecides(w);
  }

  lemma {:induction false} SourceReturns(w: Bytes)
    ensures !ParseSource(w).Diverges?
  {
  }

  function Read(src: Option<Bytes>): Option<Outcome<Source>> {
    match src
    case None => None
    case Some(text) => Some(ParseSource(text))
  }

  /** A server's line is refused for its source if that does not parse; else for the first byte of
      its kind that is not a letter, unless that is a numeric; else it is a message with that source
      and that kind, a command in upper case. */
  lemma {:induction false} ServerLineDecided(tags: seq<Tag>, src: Option<Bytes>, w: Bytes, args: Args, b: byte)
    requires LineParts(tags, src, w, args) && EndsHead(w, tags, src)
    ensures DecidedBy(ParseServer(LineOf(tags, src, w, args)), Read(src), w, b)
  {
    LineOfIsLine(tags, src, w, args);
    var line := LineOf(tags, src, w, args);
    var head := ParseHead(line, true, true, [], None, ParseSource);
    HeadOfLine(tags, src, w, args, ParseSource);
    ServerIs(line, head);
    if src.Some? { SourceReturns(src.value); }
    HeadDecides(ParseTags(AfterByte(TagBytes(AT, tags))).value, Read(src), w, ArgsText(args), b);
  }

  /** A client's line may name any source: it is read as the line without it. */
  lemma {:induction false} ClientIgnoresSource(tags: seq<Tag>, src: Bytes, w: Bytes, args: Args)
    requires LineParts(tags, Some(src), w, args) && EndsHead(w, [], None)
    ensures ParseClient(LineOf(tags, Some(src), w, args)) == ParseClient(LineOf(tags, None, w, args))
  {
    LineOfIsLine(tags, Some(src), w, args);
    LineOfIsLine(tags, None, w, args);
    HeadOfLine(tags, Some(src), w, args, IgnoreSource);
    HeadOfLine(tags, None, w, args, IgnoreSource);
  }

  /** It is refused exactly for the first byte of its command that is not a letter. */
  lemma {:induction false} ClientLineDecided(tags: seq<Tag>, src: Option<Bytes>, w: Bytes, args: Args, b: byte)
    requires LineParts(tags, src, w, args) && EndsHead(w, tags, src)
    ensures var r := ParseClient(LineOf(tags, src, w, args));
            && (r == Bad(InvalidKind(Byte(b))) <==> FirstSuch(w, c => !IsAlpha(c), b))
            && (r.Good? <==> Letters(w))
            && (r.Good? ==> r.value.cmd == Uppercase(w))
  {
    LineOfIsLine(tags, src, w, args);
    HeadOfLine(tags, src, w, args, IgnoreSource);
    KindDecides(w);
  }

  /** A line of blanks alone has no kind. */
  lemma {:induction false} BlankLineRefused(line: Bytes)
    requires forall i | 0 <= i < |line| :: IsWhitespace(line[i]) && !BreaksLine(line[i])
    ensures ParseServer(line) == Bad(InvalidKind(Empty)) && ParseClient(line) == Bad(InvalidKind(Empty))
  {
    assert SkipWhitespace(line) == [];
  }

  /** Neither has a line of nothing but tags. */
  lemma {:induction false} TagsAloneRefused(tags: seq<Tag>)
    requires ValidTags(tags) && tags != []
    ensures ParseServer(TagBytes(AT, tags)) == Bad(InvalidKind(Empty))
    ensures ParseClient(TagBytes(AT, tags)) == Bad(InvalidKind(Empty))
  {
    var line := TagBytes(AT, tags);
    TagBytesIsWord(AT, tags);
    WordIsLine(line);
    HeadIsTags(tags, ParseSource);
    HeadIsTags(tags, IgnoreSource);
    ServerIs(line, Bad(InvalidKind(Empty)));
  }

  lemma {:induction false} WordIsLine(w: Bytes)
    requires Is(Word, w)
    ensures FirstBad(w, Line).None?
  {
  }

  lemma {:induction false} HeadIsTags<S>(tags: seq<Tag>, parseSource: Bytes -> Outcome<S>)
    requires ValidTags(tags) && tags != []
    ensures ParseHead(TagBytes(AT, tags), true, true, [], None, parseSource) == Bad(InvalidKind(Empty))
  {
    HeadAtTags(tags, [], parseSource);
    var word := TagBytes(AT, tags);
    assert word + [] == word;
    assert NextWord([]).0 == [];
  }
}
