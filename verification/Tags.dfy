/** Message tags on the wire (src/ircmsg/tags.rs). */
module Tags {
  import opened Strings
  import opened Splitters
  import opened FlatMaps
  import opened Escape

  type Tag = Entry<Bytes>

  /** The invariant of the `Tags` type. */
  ghost predicate ValidTags(t: seq<Tag>) {
    && StrictlySorted(t)
    && forall i | 0 <= i < |t| :: Is(Key, t[i].key) && Is(NoNul, t[i].value)
  }

  // ---------------------------------------------------------------------------
  // Writing

  function TagText(e: Tag): Bytes {
    if e.value == [] then e.key else e.key + [EQ] + Escaped(e.value)
  }

  /** The tags, each introduced by its prefix byte. */
  function TagBytes(prefix: byte, t: seq<Tag>): Bytes
    decreases |t|
  {
    if t == [] then [] else [prefix] + TagText(t[0]) + TagBytes(SEMI, t[1..])
  }

  method WriteTag(prefix: byte, e: Tag, w: Bytes) returns (out: Bytes)
    ensures out == w + ([prefix] + TagText(e))
  {
    out := w + [prefix] + e.key;
    if e.value != [] {
      var escaped := EscapeValue(e.value);
      out := out + [EQ] + escaped;
    }
  }

  method WriteTags(t: seq<Tag>, w: Bytes) returns (out: Bytes)
    ensures out == w + TagBytes(AT, t)
  {
    out := w;
    var prefix := AT;
    var i := 0;
    assert t[0..] == t;
    while i < |t|
      invariant 0 <= i <= |t|
      invariant w + TagBytes(AT, t) == out + TagBytes(prefix, t[i..])
    {
      TagBytesStep(prefix, t, i, out);
      out := WriteTag(prefix, t[i], out);
      prefix := SEMI;
      i := i + 1;
    }
  }

  lemma {:induction false} TagBytesStep(prefix: byte, t: seq<Tag>, i: nat, out: Bytes)
    requires i < |t|
    ensures out + TagBytes(prefix, t[i..]) ==
            out + ([prefix] + TagText(t[i])) + TagBytes(SEMI, t[i + 1..])
  {
    assert t[i..][1..] == t[i + 1..];
  }

  // ---------------------------------------------------------------------------
  // Parsing

  /** One round of the parser's loop over what is left of the tag list. */
  datatype Round = Unmoved | Skipped(rest: Bytes) | Pair(tag: Tag, rest: Bytes)

  function AfterByte(s: Bytes): Bytes {
    if s == [] then [] else s[1..]
  }

  function TagRound(s: Bytes): (r: Round)
    requires s != []
    ensures r.Skipped? ==> |r.rest| < |s|
    ensures r.Pair? ==> |r.rest| < |s|
  {
    match PeekStringOf(s, Key, false)
    case Err(_) =>
      var n := Find(s, Inside(Key));
      if n == 0 then Unmoved else Skipped(s[n..])
    case Ok(key) =>
      var (value, rest) := ValueOf(s[|key|..]);
      Pair(Entry(key, value), rest)
  }

  /** The value that follows a key, and what follows the separator after it. */
  function ValueOf(r: Bytes): (v: (Bytes, Bytes))
    ensures |v.1| <= |r|
  {
    if r != [] && r[0] == EQ then
      var n := Find(r[1..], At(SEMI));
      (Unescaped(r[1..][..n]), AfterByte(r[1..][n..]))
    else
      ([], AfterByte(r))
  }

  /** The tags in the order given, or `None` if the loop reaches a point that it never leaves: a
      round that consumes nothing repeats itself for ever. */
  function ParsePairs(s: Bytes): Option<seq<Tag>>
    decreases |s|
  {
    if s == [] then Some([])
    else
      match TagRound(s)
      case Unmoved => None
      case Skipped(rest) => ParsePairs(rest)
      case Pair(tag, rest) =>
        match ParsePairs(rest)
        case None => None
        case Some(tags) => Some([tag] + tags)
  }

  function ParseTags(s: Bytes): Option<seq<Tag>> {
    match ParsePairs(s)
    case None => None
    case Some(pairs) => Some(FromVec(pairs))
  }

  function Prepend(done: seq<Tag>, more: Option<seq<Tag>>): Option<seq<Tag>> {
    match more
    case None => None
    case Some(tags) => Some(done + tags)
  }

  lemma {:induction false} PrependNothing(more: Option<seq<Tag>>)
    ensures Prepend([], more) == more
  {
    if more.Some? { assert [] + more.value == more.value; }
  }

  lemma {:induction false} PrependPair(done: seq<Tag>, s: Bytes)
    requires s != [] && TagRound(s).Pair?
    ensures ParsePairs(s) == Prepend([TagRound(s).tag], ParsePairs(TagRound(s).rest))
    ensures Prepend(done, ParsePairs(s)) ==
            Prepend(done + [TagRound(s).tag], ParsePairs(TagRound(s).rest))
  {
    PrependTwice(done, TagRound(s).tag, ParsePairs(TagRound(s).rest));
  }

  lemma {:induction false} PrependTwice(done: seq<Tag>, tag: Tag, more: Option<seq<Tag>>)
    ensures Prepend(done, Prepend([tag], more)) == Prepend(done + [tag], more)
  {
    if more.Some? { assert done + ([tag] + more.value) == done + [tag] + more.value; }
  }

  /** Everything up to `b`, with the end of the view saved and restored around it. */
  method TakeUntil(splitter: Splitter, b: byte) returns (r: Bytes)
    requires splitter.Valid()
    modifies splitter
    ensures splitter.Valid() && splitter.end == old(splitter.end)
    ensures var n := Find(old(splitter.Rest()), At(b));
            r == old(splitter.Rest())[..n] && splitter.Rest() == old(splitter.Rest())[n..]
  {
    var saved := splitter.SaveEnd();
    splitter.UntilByteEq(b);
    r := splitter.TakeRest();
    splitter.RestoreEnd(saved);
  }

  /** One round of the loop. */
  method ReadRound(splitter: Splitter) returns (r: Round)
    requires splitter.Valid() && splitter.end == |splitter.str| && splitter.Rest() != []
    modifies splitter
    ensures splitter.Valid() && splitter.end == old(splitter.end)
    ensures r == TagRound(old(splitter.Rest()))
    ensures splitter.Rest() == if r.Unmoved? then old(splitter.Rest()) else r.rest
  {
    var before := splitter.start;
    var key := splitter.String(Key, false);
    match key {
      case Err(_) =>
        splitter.ConsumeInvalid(Key);
        r := if splitter.start == before then Unmoved else Skipped(splitter.Rest());
      case Ok(key) =>
        var value := ReadValue(splitter);
        r := Pair(Entry(key, value), splitter.Rest());
    }
  }

  /** What follows a key: a value after an equals sign, or none, and a separator in either case. */
  method ReadValue(splitter: Splitter) returns (value: Bytes)
    requires splitter.Valid() && splitter.end == |splitter.str|
    modifies splitter
    ensures splitter.Valid() && splitter.end == old(splitter.end)
    ensures (value, splitter.Rest()) == ValueOf(old(splitter.Rest()))
  {
    value := [];
    var b := splitter.NextByte();
    if b == Some(EQ) {
      var raw := TakeUntil(splitter, SEMI);
      b := splitter.NextByte();
      value := UnescapeValue(raw);
    }
  }

  method ParseTagList(word: Bytes) returns (r: Option<seq<Tag>>)
    ensures r == ParseTags(word)
  {
    if word == [] {
      assert FromVec<Bytes>([]) == [];
      return Some([]);
    }
    var splitter := new Splitter(word);
    var tags: seq<Tag> := [];
    PrependNothing(ParsePairs(word));
    while !splitter.IsEmpty()
      invariant splitter.Valid() && splitter.end == |splitter.str|
      invariant ParsePairs(word) == Prepend(tags, ParsePairs(splitter.Rest()))
      decreases |splitter.Rest()|
    {
      ghost var s := splitter.Rest();
      var round := ReadRound(splitter);
      match round {
        case Unmoved => return None;
        case Skipped(_) =>
        case Pair(tag, _) =>
          PrependPair(tags, s);
          tags := tags + [tag];
      }
    }
    assert tags + [] == tags;
    r := Some(FromVec(tags));
  }

  // ---------------------------------------------------------------------------
  // When the parser returns

  /** The first byte of a `;`-separated segment, leading `=` aside, is a colon. */
  predicate ColonAfterEquals(seg: Bytes) {
    seg != [] && (seg[0] == COLON || (seg[0] == EQ && ColonAfterEquals(seg[1..])))
  }

  /** Some `;`-separated segment of the tag list has a colon where its key should start. */
  predicate ColonInKeyPosition(s: Bytes)
    decreases |s|
  {
    var n := Find(s, At(SEMI));
    ColonAfterEquals(s[..n]) || (n < |s| && ColonInKeyPosition(s[n + 1..]))
  }

  lemma {:induction false} ColonSkip(s: Bytes)
    requires s != [] && (s[0] == SEMI || s[0] == EQ)
    ensures ColonInKeyPosition(s) <==> ColonInKeyPosition(s[1..])
  {
    var n := Find(s, At(SEMI));
    if s[0] == EQ {
      assert n == 1 + Find(s[1..], At(SEMI));
      assert s[..n][1..] == s[1..][..n - 1];
      if n < |s| { assert s[1..][n..] == s[n + 1..]; }
    } else {
      assert s[..0] == [];
    }
  }

  lemma {:induction false} ColonSkipRun(s: Bytes, n: nat)
    requires n <= |s|
    requires forall i | 0 <= i < n :: s[i] == SEMI || s[i] == EQ
    ensures ColonInKeyPosition(s) <==> ColonInKeyPosition(s[n..])
    decreases n
  {
    if n > 0 {
      ColonSkip(s);
      ColonSkipRun(s[1..], n - 1);
      assert s[1..][n - 1..] == s[n..];
    }
  }

  /** Which round the first byte leads to. */
  lemma {:induction false} RoundByFirstByte(s: Bytes)
    requires s != [] && Is(Word, s)
    ensures TagRound(s).Unmoved? <==> s[0] == COLON
    ensures TagRound(s).Skipped? <==> s[0] == SEMI || s[0] == EQ
  {
    var n := Find(s, Outside(Key));
    if n > 0 { assert s[..n][0] == s[0]; }
  }

  lemma {:induction false} FindSplit(s: Bytes, k: nat, p: Stop)
    requires k <= |s|
    requires forall i | 0 <= i < k :: !p.Holds(s[i])
    ensures Find(s, p) == k + Find(s[k..], p)
  {
    var n := k + Find(s[k..], p);
    assert forall i | k <= i < n :: s[i] == s[k..][i - k];
    assert n < |s| ==> s[n] == s[k..][n - k];
    assert s == s[..n] + s[n..];
    FindAppend(s[..n], s[n..], p);
  }

  /** Where the segment that starts with a key ends, and what is left there. */
  lemma {:induction false} SegmentEnd(s: Bytes, k: nat, n: nat)
    requires Is(Word, s) && k == Find(s, Outside(Key)) && n == Find(s, At(SEMI))
    ensures k < |s| && s[k] == EQ ==> s[k + 1..][Find(s[k + 1..], At(SEMI))..] == s[n..]
    ensures k == |s| || s[k] != EQ ==> n == k
  {
    FindSplit(s, k, At(SEMI));
    if k < |s| && s[k] == EQ {
      FindSplit(s, k + 1, At(SEMI));
    } else {
      assert k < |s| ==> s[k..][0] == s[k];
    }
  }

  lemma {:induction false} PairRest(s: Bytes, k: nat)
    requires s != [] && Is(Word, s) && TagRound(s).Pair?
    requires k == Find(s, Outside(Key))
    ensures k < |s| && s[k] == EQ ==>
              TagRound(s).rest == AfterByte(s[k + 1..][Find(s[k + 1..], At(SEMI))..])
    ensures k == |s| || s[k] == SEMI || s[k] == EQ
    ensures k == |s| || s[k] == SEMI ==> TagRound(s).rest == AfterByte(s[k..])
  {
    assert |s[..k]| == k;
    if k < |s| { assert s[k..][0] == s[k] && s[k..][1..] == s[k + 1..]; }
  }

  /** A complete tag takes its whole segment. */
  lemma {:induction false} PairTakesSegment(s: Bytes)
    requires s != [] && Is(Word, s) && TagRound(s).Pair?
    ensures TagRound(s).rest == AfterByte(s[Find(s, At(SEMI))..])
  {
    var k := Find(s, Outside(Key));
    PairRest(s, k);
    SegmentEnd(s, k, Find(s, At(SEMI)));
  }

  /** The tag parser returns if and only if no segment has a colon in key position. */
  lemma {:induction false} ParseReturnsIff(s: Bytes)
    requires Is(Word, s)
    ensures ParsePairs(s).None? <==> ColonInKeyPosition(s)
    decreases |s|
  {
    if s == [] {
      assert Find(s, At(SEMI)) == 0;
    } else {
      RoundByFirstByte(s);
      var n := Find(s, At(SEMI));
      match TagRound(s) {
        case Unmoved =>
          assert s[..n] != [] && s[..n][0] == COLON;
        case Skipped(rest) =>
          var k := Find(s, Inside(Key));
          ColonSkipRun(s, k);
          ParseReturnsIff(rest);
        case Pair(tag, rest) =>
          PairTakesSegment(s);
          ParseReturnsIff(rest);
          assert !ColonAfterEquals(s[..n]);
          if n == |s| { assert Find([], At(SEMI)) == 0; }
      }
    }
  }

  /** A colon as the whole tag list keeps the parser where it is. */
  lemma {:induction false} ColonAloneNeverReturns()
    ensures ParseTags([COLON]).None?
  {
    RoundByFirstByte([COLON]);
  }

  // ---------------------------------------------------------------------------
  // Writing and parsing back

  /** What parsing makes of written tags: every value goes through `escape` and `unescape`. */
  function Reparsed(t: seq<Tag>): seq<Tag> {
    if t == [] then [] else [Entry(t[0].key, Unescaped(Escaped(t[0].value)))] + Reparsed(t[1..])
  }

  lemma {:induction false} ReparsedKeys(t: seq<Tag>)
    ensures |Reparsed(t)| == |t|
    ensures forall i | 0 <= i < |t| ::
              Reparsed(t)[i] == Entry(t[i].key, Unescaped(Escaped(t[i].value)))
    decreases |t|
  {
    if t != [] { ReparsedKeys(t[1..]); }
  }

  /** One tag, followed by nothing or by a separator. */
  lemma {:induction false} RoundOfWritten(e: Tag, more: Bytes)
    requires Is(Key, e.key) && Is(NoNul, e.value)
    requires more == [] || more[0] == SEMI
    ensures TagText(e) + more != []
    ensures TagRound(TagText(e) + more) ==
            Pair(Entry(e.key, Unescaped(Escaped(e.value))), AfterByte(more))
  {
    EscapedIsWord(e.value);
    if e.value == [] {
      BareKey(e.key, more);
      assert TagText(e) == e.key;
    } else {
      KeyAndValue(e.key, Escaped(e.value), more);
      assert TagText(e) == e.key + [EQ] + Escaped(e.value);
    }
  }

  lemma {:induction false} BareKey(key: Bytes, more: Bytes)
    requires Is(Key, key) && (more == [] || more[0] == SEMI)
    ensures key + more != [] && TagRound(key + more) == Pair(Entry(key, []), AfterByte(more))
    ensures Unescaped(Escaped([])) == []
  {
    var s := key + more;
    FindAppend(key, more, Outside(Key));
    assert s[..|key|] == key && s[|key|..] == more;
  }

  lemma {:induction false} KeyAndValue(key: Bytes, raw: Bytes, more: Bytes)
    requires Is(Key, key) && (more == [] || more[0] == SEMI) && SEMI !in raw
    ensures var s := key + [EQ] + raw + more;
            s != [] && TagRound(s) == Pair(Entry(key, Unescaped(raw)), AfterByte(more))
  {
    var s, tail := key + [EQ] + raw + more, raw + more;
    assert s == key + ([EQ] + tail);
    FindAppend(key, [EQ] + tail, Outside(Key));
    assert s[..|key|] == key && s[|key|..] == [EQ] + tail && ([EQ] + tail)[1..] == tail;
    FindAppend(raw, more, At(SEMI));
    assert tail[..|raw|] == raw && tail[|raw|..] == more;
  }

  lemma {:induction false} AfterPrefix(prefix: byte, t: seq<Tag>)
    requires t != []
    ensures AfterByte(TagBytes(prefix, t)) == TagText(t[0]) + TagBytes(SEMI, t[1..])
  {
  }

  lemma {:induction false} ParseWritten(prefix: byte, t: seq<Tag>)
    requires forall i | 0 <= i < |t| :: Is(Key, t[i].key) && Is(NoNul, t[i].value)
    ensures ParsePairs(AfterByte(TagBytes(prefix, t))) == Some(Reparsed(t))
    decreases |t|
  {
    if t != [] {
      var more := TagBytes(SEMI, t[1..]);
      AfterPrefix(prefix, t);
      RoundOfWritten(t[0], more);
      PrependPair([], TagText(t[0]) + more);
      ParseWritten(SEMI, t[1..]);
    }
  }

  /** Written tags parse back to the same tags if and only if every value survives escaping. */
  lemma {:induction false} TagsRoundTripIff(t: seq<Tag>)
    requires ValidTags(t)
    ensures ParseTags(AfterByte(TagBytes(AT, t))).Some?
    ensures ParseTags(AfterByte(TagBytes(AT, t))) == Some(t) <==>
            forall i | 0 <= i < |t| :: SurvivesEscaping(t[i].value)
  {
    ParseWritten(AT, t);
    ReparsedKeys(t);
    var r := Reparsed(t);
    assert StrictlySorted(r);
    FromVecIdentity(r);
    forall i | 0 <= i < |t|
      ensures r[i] == t[i] <==> SurvivesEscaping(t[i].value)
    {
      UnescapeInvertsEscapeIff(t[i].value);
    }
    if forall i | 0 <= i < |t| :: SurvivesEscaping(t[i].value) {
      assert r == t;
    }
  }

  lemma {:induction false} TagBytesIsWord(prefix: byte, t: seq<Tag>)
    requires forall i | 0 <= i < |t| :: Is(Key, t[i].key) && Is(NoNul, t[i].value)
    requires !BreaksWord(prefix)
    ensures Is(Word, TagBytes(prefix, t))
    decreases |t|
  {
    if t != [] {
      EscapedIsWord(t[0].value);
      TagBytesIsWord(SEMI, t[1..]);
    }
  }

  // ---------------------------------------------------------------------------
  // Tags as they come

  /** Whatever order tags are written in, and however often a key is repeated, they come back
      strictly sorted with the last value for each key, as far as the values survive escaping. */
  lemma {:induction false} AnyOrderComesSorted(t: seq<Tag>)
    requires forall i | 0 <= i < |t| :: Is(Key, t[i].key) && Is(NoNul, t[i].value)
    ensures var r := ParseTags(AfterByte(TagBytes(AT, t)));
            && r.Some? && StrictlySorted(r.value) && ToMap(r.value) == ToMap(Reparsed(t))
            && ((forall i | 0 <= i < |t| :: SurvivesEscaping(t[i].value)) ==> ToMap(r.value) == ToMap(t))
  {
    ParseWritten(AT, t);
    FromVecIsMap(Reparsed(t));
    if forall i | 0 <= i < |t| :: SurvivesEscaping(t[i].value) { ReparsedSame(t); }
  }

  lemma {:induction false} ReparsedSame(t: seq<Tag>)
    requires forall i | 0 <= i < |t| :: SurvivesEscaping(t[i].value)
    ensures Reparsed(t) == t
  {
    ReparsedKeys(t);
    forall i | 0 <= i < |t| ensures Reparsed(t)[i] == t[i] {
      UnescapeInvertsEscapeIff(t[i].value);
    }
  }

  predicate ValidTag(e: Tag) {
    Is(Key, e.key) && Is(NoNul, e.value)
  }

  lemma {:induction false} ScanNoNul(esc: bool, s: Bytes)
    requires Is(NoNul, s)
    ensures Is(NoNul, Scan(esc, s))
    decreases |s|
  {
    if s != [] {
      ScanNoNul(!esc && s[0] == BACKSLASH, s[1..]);
    }
  }

  lemma {:induction false} UnescapedNoNul(s: Bytes)
    requires Is(NoNul, s)
    ensures Is(NoNul, Unescaped(s))
  {
    var i := FirstBackslash(s);
    if i < |s| {
      ScanNoNul(false, s[i + 1..]);
    }
  }

  lemma {:induction false} WordParts(s: Bytes, n: nat)
    requires Is(Word, s) && n <= |s|
    ensures Is(Word, s[..n]) && Is(Word, s[n..]) && Is(NoNul, s[..n])
  {
  }

  lemma {:induction false} RoundValid(s: Bytes)
    requires s != [] && Is(Word, s)
    ensures var round := TagRound(s);
            && (!round.Unmoved? ==> Is(Word, round.rest))
            && (round.Pair? ==> ValidTag(round.tag))
  {
    match PeekStringOf(s, Key, false) {
      case Err(_) => WordParts(s, Find(s, Inside(Key)));
      case Ok(key) =>
        WordParts(s, |key|);
        ValueValid(s[|key|..]);
    }
  }

  lemma {:induction false} ValueValid(r: Bytes)
    requires Is(Word, r)
    ensures Is(NoNul, ValueOf(r).0) && Is(Word, ValueOf(r).1)
  {
    if r != [] {
      WordParts(r, 1);
      if r[0] == EQ {
        var v := r[1..];
        var n := Find(v, At(SEMI));
        WordParts(v, n);
        UnescapedNoNul(v[..n]);
        if v[n..] != [] { WordParts(v[n..], 1); }
      }
    }
  }

  predicate AllValid(t: seq<Tag>) {
    forall i | 0 <= i < |t| :: ValidTag(t[i])
  }

  lemma {:induction false} AllValidCons(e: Tag, t: seq<Tag>)
    requires ValidTag(e) && AllValid(t)
    ensures AllValid([e] + t)
  {
  }

  lemma {:induction false} PairsValid(s: Bytes)
    requires Is(Word, s)
    ensures ParsePairs(s).Some? ==> AllValid(ParsePairs(s).value)
    decreases |s|
  {
    if s != [] {
      RoundValid(s);
      match TagRound(s) {
        case Unmoved =>
        case Skipped(rest) => PairsValid(rest);
        case Pair(tag, rest) =>
          PairsValid(rest);
          if ParsePairs(rest).Some? { AllValidCons(tag, ParsePairs(rest).value); }
      }
    }
  }

  /** Whatever is parsed satisfies the invariant of the type. */
  lemma {:induction false} ParsedTagsValid(s: Bytes)
    requires Is(Word, s)
    ensures ParseTags(s).Some? ==> ValidTags(ParseTags(s).value)
  {
    PairsValid(s);
    if ParsePairs(s).Some? {
      var pairs := ParsePairs(s).value;
      var r := FromVec(pairs);
      FromVecIsMap(pairs);
      forall i | 0 <= i < |r| ensures ValidTag(r[i]) {
        FromVecIsFrom(pairs, i);
      }
    }
  }

  lemma {:induction false} FromVecIsFrom(v: seq<Tag>, i: nat)
    requires i < |FromVec(v)|
    ensures FromVec(v)[i] in v
  {
    var r := FromVec(v);
    FromVecIsMap(v);
    StrictlySortedDistinct(r);
    ToMapDistinct(r);
    ToMapFrom(v, r[i].key);
  }

  /** Empty segments and stray equals signs in front of a tag do not matter. */
  lemma {:induction false} StrayBytesIgnored(b: byte, s: Bytes)
    requires b == SEMI || b == EQ
    ensures ParsePairs([b] + s) == ParsePairs(s)
    decreases |s|
  {
    var t := [b] + s;
    var n := Find(s, Inside(Key));
    assert t[1..] == s && Find(t, Inside(Key)) == n + 1 && t[n + 1..] == s[n..];
    assert Find(t, Outside(Key)) == 0 && t[..0] == [];
    assert TagRound(t) == Skipped(s[n..]);
    if n == 0 {
      assert s[0..] == s;
    } else {
      assert Find(s, Outside(Key)) == 0 && s[..0] == [];
      assert TagRound(s) == Skipped(s[n..]);
    }
  }
}
