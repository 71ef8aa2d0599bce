/** Capability lists: packing requests into messages and reading the server's lists
    (src/client/cap.rs). */
module CapLists {
  import opened Strings
  import opened Splitters
  import opened Sources
  import opened Arguments
  import opened Codec

  const CAP: Bytes := [67, 65, 80]
  const REQ: Bytes := [82, 69, 81]
  const STAR: Bytes := [42]

  predicate AreKeys(ks: seq<Bytes>) {
    forall i | 0 <= i < |ks| :: Is(Key, ks[i])
  }

  /** Texts separated by single spaces. */
  function Join(ks: seq<Bytes>): Bytes {
    if ks == [] then []
    else if |ks| == 1 then ks[0]
    else Join(ks[..|ks| - 1]) + [SP] + ks[|ks| - 1]
  }

  // ---------------------------------------------------------------------------
  // Requesting

  /** The room for a list: what is left beside the command, less what the reply has in addition. */
  function Room(client: Option<Bytes>, server: Option<Source>): nat {
    var left := BytesLeft(CAP, server, Args([REQ], None)) - 4 - if client.Some? then |client.value| else 1;
    if left < 0 then 0 else left
  }

  /** How the capabilities are spread over messages, `cur` being the list under construction. */
  function Pack(cur: seq<Bytes>, ks: seq<Bytes>, room: nat): seq<seq<Bytes>>
    decreases |ks|
  {
    if ks == [] then [cur]
    else if cur == [] || |Join(cur)| + |ks[0]| < room then Pack(cur + [ks[0]], ks[1..], room)
    else [cur] + Pack([ks[0]], ks[1..], room)
  }

  /** The message that asks for the capabilities in `list`. */
  function ReqMsg(list: Bytes): ClientMsg {
    ClientMsg([], CAP, Add(Args([REQ], None), list))
  }

  function ReqMsgs(lists: seq<seq<Bytes>>): seq<ClientMsg> {
    if lists == [] then [] else [ReqMsg(Join(lists[0]))] + ReqMsgs(lists[1..])
  }

  lemma {:induction false} JoinSnoc(cur: seq<Bytes>, k: Bytes)
    ensures Join(cur + [k]) == if cur == [] then k else Join(cur) + [SP] + k
  {
    assert (cur + [k])[..|cur|] == cur;
  }

  lemma {:induction false} KeyNotEmpty(ks: seq<Bytes>, i: nat)
    requires AreKeys(ks) && i < |ks|
    ensures ks[i] != []
  {
  }

  /** One round of the loop: the capability joins the list, or the list goes out. */
  lemma {:induction false} PackStep(cur: seq<Bytes>, caps: seq<Bytes>, i: nat, room: nat)
    requires i < |caps|
    ensures var now, later := Pack(cur, caps[i..], room), caps[i + 1..];
            if cur == [] || |Join(cur)| + |caps[i]| < room then
              ReqMsgs(now) == ReqMsgs(Pack(cur + [caps[i]], later, room))
            else
              ReqMsgs(now) == [ReqMsg(Join(cur))] + ReqMsgs(Pack([caps[i]], later, room))
  {
    assert caps[i..][0] == caps[i] && caps[i..][1..] == caps[i + 1..];
    var next := Pack([caps[i]], caps[i + 1..], room);
    assert ([cur] + next)[1..] == next;
  }

  lemma {:induction false} PackEnd(cur: seq<Bytes>, room: nat)
    ensures ReqMsgs(Pack(cur, [], room)) == [ReqMsg(Join(cur))]
  {
    assert [cur][1..] == [];
  }

  /** The loop of `req`. */
  method Req(caps: seq<Bytes>, client: Option<Bytes>, server: Option<Source>) returns (sent: seq<ClientMsg>)
    requires AreKeys(caps)
    ensures sent == ReqMsgs(Pack([], caps, Room(client, server)))
  {
    var room := Room(client, server);
    sent := [];
    var text: Bytes := [];
    ghost var cur: seq<Bytes> := [];
    var i := 0;
    ghost var goal := ReqMsgs(Pack([], caps, room));
    assert caps[0..] == caps && [] + goal == goal;
    while i < |caps|
      invariant 0 <= i <= |caps|
      invariant text == Join(cur) && (text == [] <==> cur == [])
      invariant sent + ReqMsgs(Pack(cur, caps[i..], room)) == goal
    {
      var cap := caps[i];
      KeyNotEmpty(caps, i);
      PackStep(cur, caps, i, room);
      if |text| + |cap| < room {
        JoinSnoc(cur, cap);
        if text != [] { text := text + [SP]; }
        text := text + cap;
        cur := cur + [cap];
      } else {
        if text != [] {
          Assoc(sent, [ReqMsg(Join(cur))], ReqMsgs(Pack([cap], caps[i + 1..], room)));
          sent := sent + [ReqMsg(text)];
        } else {
          assert cur + [cap] == [cap];
        }
        text := cap;
        cur := [cap];
      }
      i := i + 1;
    }
    assert caps[i..] == [];
    PackEnd(cur, room);
    sent := sent + [ReqMsg(text)];
  }

  function Flatten(lists: seq<seq<Bytes>>): seq<Bytes> {
    if lists == [] then [] else lists[0] + Flatten(lists[1..])
  }

  lemma {:induction false} FlattenCons(l: seq<Bytes>, lists: seq<seq<Bytes>>)
    ensures Flatten([l] + lists) == l + Flatten(lists)
  {
    assert ([l] + lists)[1..] == lists;
  }

  /** The lists sent, one after another, are exactly the capabilities asked for. */
  lemma {:induction false} PackKeepsAll(cur: seq<Bytes>, ks: seq<Bytes>, room: nat)
    ensures Flatten(Pack(cur, ks, room)) == cur + ks
    decreases |ks|
  {
    if ks == [] {
      FlattenCons(cur, []);
      assert Pack(cur, ks, room) == [cur] + [];
    } else if cur == [] || |Join(cur)| + |ks[0]| < room {
      PackKeepsAll(cur + [ks[0]], ks[1..], room);
      assert cur + [ks[0]] + ks[1..] == cur + ks;
    } else {
      PackKeepsAll([ks[0]], ks[1..], room);
      FlattenCons(cur, Pack([ks[0]], ks[1..], room));
      assert [ks[0]] + ks[1..] == ks;
    }
  }

  /** A list of more than one capability keeps to the room there is. */
  predicate Fits(l: seq<Bytes>, room: nat) {
    |l| > 1 ==> |Join(l)| <= room
  }

  lemma {:induction false} PackFits(cur: seq<Bytes>, ks: seq<Bytes>, room: nat)
    requires Fits(cur, room)
    ensures forall l | l in Pack(cur, ks, room) :: Fits(l, room)
    decreases |ks|
  {
    if ks == [] {
    } else if cur == [] || |Join(cur)| + |ks[0]| < room {
      JoinSnoc(cur, ks[0]);
      PackFits(cur + [ks[0]], ks[1..], room);
    } else {
      PackFits([ks[0]], ks[1..], room);
    }
  }

  /** No message is cut short: the first capability of the next one would not have fitted. */
  predicate Tight(l: seq<Bytes>, next: seq<Bytes>, room: nat) {
    l != [] && next != [] && |Join(l)| + |next[0]| >= room
  }

  ghost predicate Greedy(lists: seq<seq<Bytes>>, room: nat) {
    forall i, j | 0 <= i < j < |lists| && j == i + 1 :: Tight(lists[i], lists[j], room)
  }

  lemma {:induction false} PackGreedy(cur: seq<Bytes>, ks: seq<Bytes>, room: nat)
    ensures var p := Pack(cur, ks, room);
            && Greedy(p, room) && p != []
            && (cur != [] ==> p[0] != [] && p[0][0] == cur[0])
    decreases |ks|
  {
    if ks == [] {
    } else if cur == [] || |Join(cur)| + |ks[0]| < room {
      PackGreedy(cur + [ks[0]], ks[1..], room);
    } else {
      PackGreedy([ks[0]], ks[1..], room);
      var rest := Pack([ks[0]], ks[1..], room);
      forall i, j | 0 <= i < j < |rest| + 1 && j == i + 1
        ensures Tight(([cur] + rest)[i], ([cur] + rest)[j], room)
      {
        if i > 0 { assert Tight(rest[i - 1], rest[j - 1], room); }
      }
    }
  }

  /** A server's answer to one request, naming its whole list. */
  function Reply(server: Source, client: Option<Bytes>, verdict: Bytes, l: seq<Bytes>): Bytes {
    Wire([], Some(server), CAP, Args([if client.Some? then client.value else STAR, verdict], Some(Join(l))))
  }

  /** With a known server, the answer (ACK or NAK, three letters) to any message that carries more
      than one capability fits in a line of 510 bytes, with two bytes to spare. */
  lemma {:induction false} ReplyFits(caps: seq<Bytes>, client: Option<Bytes>, server: Source, verdict: Bytes, l: seq<Bytes>)
    requires ValidSource(server) && |verdict| == 3
    requires l in Pack([], caps, Room(client, Some(server))) && |l| > 1
    ensures |Reply(server, client, verdict, l)| <= 508
  {
    var room := Room(client, Some(server));
    PackFits([], caps, room);
    assert Fits(l, room);
    var who := if client.Some? then client.value else STAR;
    ReplyLength(server, who, verdict, l);
    RoomExact(client, Some(server));
    if room == 0 { JoinLonger(l); }
  }

  lemma {:induction false} JoinLonger(l: seq<Bytes>)
    requires |l| > 1
    ensures |Join(l)| > 0
  {
  }

  /** The room is what 496 bytes, or 498 without a known server, leave beside the names of server
      and client. */
  lemma {:induction false} RoomExact(client: Option<Bytes>, server: Option<Source>)
    ensures var name := if client.Some? then |client.value| else 1;
            var r := (if server.Some? then 496 - SourceLen(server.value) else 498) - name;
            Room(client, server) == if r < 0 then 0 else r
  {
    var a := Args([REQ], None);
    assert WordBytes(a.words[..0]) == 0;
    assert LenBytes(a) == 4;
  }

  lemma {:induction false} ReplyLength(server: Source, who: Bytes, verdict: Bytes, l: seq<Bytes>)
    requires ValidSource(server) && |verdict| == 3
    ensures |Wire([], Some(server), CAP, Args([who, verdict], Some(Join(l))))|
            == SourceLen(server) + |who| + |Join(l)| + 12
  {
    var args := Args([who, verdict], Some(Join(l)));
    BytesLeftExact(CAP, Some(server), args);
    assert args.words[..1] == [who] && [who][..0] == [];
    assert WordBytes([who]) == |who| + 1;
  }

  // ---------------------------------------------------------------------------
  // Reading

  datatype Cap = Cap(key: Bytes, value: Bytes)

  predicate IsCap(c: Cap) {
    Is(Key, c.key) && Is(Word, c.value)
  }

  /** A capability as a server lists it. */
  function CapText(c: Cap): Bytes {
    if c.value == [] then c.key else c.key + [EQ] + c.value
  }

  /** What one word of a list stands for, if it is a capability this library can represent. */
  function ReadCap(w: Bytes): seq<Cap> {
    match PeekStringOf(w, Key, false)
    case Err(_) => []
    case Ok(key) =>
      var rest := w[|key|..];
      if rest == [] then [Cap(key, [])]
      else if rest[0] == EQ then [Cap(key, rest[1..])]
      else []
  }

  /** The capabilities in a list, in order. On a line every round takes something away; only a NUL
      byte, which no line holds, would stop the reading. */
  function ReadCaps(s: Bytes): seq<Cap>
    decreases |s|
  {
    if s == [] || |NextWord(s).1| >= |s| then []
    else ReadCap(NextWord(s).0) + ReadCaps(NextWord(s).1)
  }

  lemma {:induction false} NextWordProgress(s: Bytes)
    requires Is(Line, s) && s != []
    ensures |NextWord(s).1| < |s| && Is(Line, NextWord(s).1)
  {
    var t := SkipWhitespace(s);
    var n := Find(t, Outside(Word));
    assert t != [] ==> n > 0;
    assert forall i | 0 <= i < |t[n..]| :: t[n..][i] == s[|s| - |t| + n + i];
  }

  function CapMap(cs: seq<Cap>): map<Bytes, Bytes> {
    if cs == [] then map[] else CapMap(cs[..|cs| - 1])[cs[|cs| - 1].key := cs[|cs| - 1].value]
  }

  /** The body of the loop of `ServerMsgArgs::parse` for one word. */
  method ParseWord(word: Bytes) returns (c: Option<Cap>)
    ensures ReadCap(word) == if c.Some? then [c.value] else []
  {
    var splitter := new Splitter(word);
    var key := splitter.String(Key, false);
    if key.Err? { return None; }
    var sep := splitter.NextByte();
    if sep == None { return Some(Cap(key.value, [])); }
    if sep != Some(EQ) { return None; }
    var value := splitter.TakeRest();
    c := Some(Cap(key.value, value));
  }

  /** The loop of `ServerMsgArgs::parse` over the last argument. */
  method ParseCaps(last: Bytes) returns (caps: map<Bytes, Bytes>)
    requires Is(Line, last)
    ensures caps == CapMap(ReadCaps(last))
  {
    caps := map[];
    var splitter := new Splitter(last);
    ghost var read: seq<Cap> := [];
    assert read + ReadCaps(last) == ReadCaps(last);
    while !splitter.IsEmpty()
      invariant splitter.Valid() && Is(Line, splitter.Rest())
      invariant read + ReadCaps(splitter.Rest()) == ReadCaps(last) && caps == CapMap(read)
      decreases |splitter.Rest()|
    {
      ReadStep(read, splitter.Rest());
      var word := TakeWord(splitter);
      var c := ParseWord(word);
      EnterOne(read, c);
      if c.Some? { caps := caps[c.value.key := c.value.value]; }
      read := read + ReadCap(word);
    }
    assert read + [] == read;
  }

  lemma {:induction false} ReadStep(read: seq<Cap>, s: Bytes)
    requires Is(Line, s) && s != []
    ensures var (w, rest) := NextWord(s);
            && |rest| < |s| && Is(Line, rest)
            && read + ReadCap(w) + ReadCaps(rest) == read + ReadCaps(s)
  {
    NextWordProgress(s);
    var (w, rest) := NextWord(s);
    assert ReadCaps(s) == ReadCap(w) + ReadCaps(rest);
    Assoc(read, ReadCap(w), ReadCaps(rest));
  }

  lemma {:induction false} EnterOne(read: seq<Cap>, c: Option<Cap>)
    ensures CapMap(read + if c.Some? then [c.value] else [])
            == if c.Some? then CapMap(read)[c.value.key := c.value.value] else CapMap(read)
  {
    if c.Some? {
      assert (read + [c.value])[..|read|] == read;
    } else {
      assert read + [] == read;
    }
  }

  // ---------------------------------------------------------------------------
  // Reading back what was listed

  function Texts(cs: seq<Cap>): seq<Bytes> {
    seq(|cs|, i requires 0 <= i < |cs| => CapText(cs[i]))
  }

  predicate NoLeadingBlanks(cs: seq<Cap>) {
    forall i | 0 <= i < |cs| :: cs[i].key != [] ==> !IsWhitespace(cs[i].key[0])
  }

  /** The list as it is read, front to back. */
  function ListText(cs: seq<Cap>): Bytes {
    if cs == [] then []
    else CapText(cs[0]) + if |cs| == 1 then [] else [SP] + ListText(cs[1..])
  }

  lemma {:induction false} ListIsJoined(cs: seq<Cap>)
    ensures ListText(cs) == Join(Texts(cs))
    decreases |cs|
  {
    if |cs| > 1 {
      var init, last := cs[..|cs| - 1], cs[|cs| - 1];
      ListSnoc(init, last);
      ListIsJoined(init);
      assert Texts(cs)[..|cs| - 1] == Texts(init);
      assert init + [last] == cs;
    }
  }

  lemma {:induction false} ListSnoc(cs: seq<Cap>, c: Cap)
    requires cs != []
    ensures ListText(cs + [c]) == ListText(cs) + [SP] + CapText(c)
    decreases |cs|
  {
    assert (cs + [c])[1..] == cs[1..] + [c];
    if |cs| == 1 {
      assert cs[1..] + [c] == [c];
    } else {
      ListSnoc(cs[1..], c);
    }
  }

  /** One capability reads back from its own text. */
  lemma {:induction false} ReadCapText(c: Cap)
    requires IsCap(c)
    ensures ReadCap(CapText(c)) == [c]
    ensures CapText(c) != [] && Is(Word, CapText(c)) && CapText(c)[0] == c.key[0]
  {
    var rest := if c.value == [] then [] else [EQ] + c.value;
    assert CapText(c) == c.key + rest;
    PeekKey(c.key, rest);
    assert c.value != [] ==> rest[1..] == c.value;
    KeyIsWord(c.key);
    WordsAppend(c.key, rest);
  }

  /** A key is found in front of nothing or an equals sign. */
  lemma {:induction false} PeekKey(key: Bytes, rest: Bytes)
    requires Is(Key, key) && (rest != [] ==> rest[0] == EQ)
    ensures PeekStringOf(key + rest, Key, false) == Ok(key) && (key + rest)[|key|..] == rest
  {
    FindAppend(key, rest, Outside(Key));
    assert (key + rest)[..|key|] == key;
  }

  lemma {:induction false} KeyIsWord(k: Bytes)
    requires Is(Key, k)
    ensures Is(Word, k)
  {
  }

  lemma {:induction false} WordsAppend(a: Bytes, b: Bytes)
    requires Is(Word, a) && Is(Word, b)
    ensures Is(Word, a + b)
  {
  }

  lemma {:induction false} StartsUnblank(s: Bytes)
    requires s != [] && !IsWhitespace(s[0])
    ensures SkipWhitespace(s) == s && SkipWhitespace([SP] + s) == s
  {
    FindAppend([SP], s, NonSpace);
    FindAppend([], s, NonSpace);
    assert [] + s == s;
    assert ([SP] + s)[1..] == s;
  }

  lemma {:induction false} FirstWordOf(w: Bytes, more: Bytes)
    requires Is(Word, w) && w != [] && !IsWhitespace(w[0])
    requires more != [] ==> more[0] == SP
    ensures NextWord(w + more) == (w, more)
  {
    assert (w + more)[0] == w[0];
    StartsUnblank(w + more);
    FindAppend(w, more, Outside(Word));
    assert (w + more)[..|w|] == w && (w + more)[|w|..] == more;
  }

  /** Reading a word that starts with no blank, and what follows it after a space. */
  lemma {:induction false} ReadWord(w: Bytes, more: Bytes)
    requires Is(Word, w) && w != [] && !IsWhitespace(w[0])
    requires more != [] ==> more[0] == SP
    ensures ReadCaps(w + more) == ReadCap(w) + ReadCaps(more)
  {
    FirstWordOf(w, more);
  }

  /** A space in front of a list does not matter. */
  lemma {:induction false} SkipSpace(s: Bytes)
    requires s != [] && !IsWhitespace(s[0]) && |NextWord(s).1| < |s|
    ensures ReadCaps([SP] + s) == ReadCaps(s)
  {
    StartsUnblank(s);
    assert NextWord([SP] + s) == NextWord(s);
  }

  lemma {:induction false} ListIsLine(cs: seq<Cap>)
    requires forall i | 0 <= i < |cs| :: IsCap(cs[i])
    ensures Is(Line, ListText(cs))
    ensures cs != [] ==> ListText(cs) != [] && cs[0].key != [] && ListText(cs)[0] == cs[0].key[0]
    decreases |cs|
  {
    if cs != [] {
      ReadCapText(cs[0]);
      ListIsLine(cs[1..]);
      var a, b := CapText(cs[0]), if |cs| == 1 then [] else [SP] + ListText(cs[1..]);
      assert forall i | 0 <= i < |b| :: !IsInvalid(Line, b[i]);
      assert forall i | 0 <= i < |a| :: !IsInvalid(Line, a[i]);
      assert ListText(cs) == a + b;
    }
  }

  lemma {:induction false} ReadList(cs: seq<Cap>)
    requires forall i | 0 <= i < |cs| :: IsCap(cs[i])
    requires NoLeadingBlanks(cs)
    ensures ReadCaps(ListText(cs)) == cs
    decreases |cs|
  {
    if cs != [] {
      var rest := cs[1..];
      ReadCapText(cs[0]);
      assert cs == [cs[0]] + rest;
      if rest == [] {
        assert ListText(cs) == CapText(cs[0]) + [];
        ReadWord(CapText(cs[0]), []);
      } else {
        ReadList(rest);
        ListIsLine(rest);
        assert rest[0] == cs[1];
        NextWordProgress(ListText(rest));
        ReadWord(CapText(cs[0]), [SP] + ListText(rest));
        SkipSpace(ListText(rest));
      }
    }
  }

  lemma {:induction false} ReadCapKey(w: Bytes)
    ensures |ReadCap(w)| <= 1
    ensures ReadCap(w) != [] ==> w != [] && ReadCap(w)[0].key != [] && ReadCap(w)[0].key[0] == w[0]
  {
    var key := PeekStringOf(w, Key, false);
    if key.Ok? {
      assert Is(Key, key.value) && key.value != [] && key.value[0] == w[0];
    }
  }

  /** No capability is ever read with a blank in front. */
  lemma {:induction false} ReadsNoLeadingBlanks(s: Bytes)
    ensures NoLeadingBlanks(ReadCaps(s))
    decreases |s|
  {
    if s != [] && |NextWord(s).1| < |s| {
      FirstUnblank(s);
      ReadsNoLeadingBlanks(NextWord(s).1);
      BlanksAppend(ReadCap(NextWord(s).0), ReadCaps(NextWord(s).1));
    }
  }

  lemma {:induction false} FirstUnblank(s: Bytes)
    ensures NoLeadingBlanks(ReadCap(NextWord(s).0))
  {
    var w := NextWord(s).0;
    CutUnblank(s);
    ReadCapKey(w);
    var cs := ReadCap(w);
    assert |cs| <= 1;
  }

  lemma {:induction false} CutUnblank(s: Bytes)
    ensures var w := NextWord(s).0;
            w != [] ==> !IsWhitespace(w[0])
  {
  }

  lemma {:induction false} BlanksAppend(a: seq<Cap>, b: seq<Cap>)
    requires NoLeadingBlanks(a) && NoLeadingBlanks(b)
    ensures NoLeadingBlanks(a + b)
  {
  }

  /** A list of capabilities reads back, in order and with the same values, if and only if no name
      starts with a tab or form feed. */
  lemma {:induction false} ListRoundTripIff(cs: seq<Cap>)
    requires forall i | 0 <= i < |cs| :: IsCap(cs[i])
    ensures Is(Line, Join(Texts(cs)))
    ensures ReadCaps(Join(Texts(cs))) == cs <==> NoLeadingBlanks(cs)
  {
    ListIsJoined(cs);
    ListIsLine(cs);
    ReadsNoLeadingBlanks(ListText(cs));
    if NoLeadingBlanks(cs) { ReadList(cs); }
  }

  /** An answer that names the capabilities of one request is read as naming exactly those. */
  lemma {:induction false} EchoNames(l: seq<Bytes>)
    requires AreKeys(l) && forall i | 0 <= i < |l| :: !IsWhitespace(l[i][0])
    ensures Is(Line, Join(l)) && forall k :: k in CapMap(ReadCaps(Join(l))) <==> k in l
  {
    NamesReadBack(l);
    BareTexts(l);
    CapMapKeys(Bare(l));
  }

  /** Capabilities without values. */
  function Bare(l: seq<Bytes>): seq<Cap> {
    seq(|l|, i requires 0 <= i < |l| => Cap(l[i], []))
  }

  lemma {:induction false} BareTexts(l: seq<Bytes>)
    ensures Texts(Bare(l)) == l
    ensures AreKeys(l) ==> forall i | 0 <= i < |l| :: IsCap(Bare(l)[i])
    ensures forall k :: k in l <==> exists i :: 0 <= i < |Bare(l)| && Bare(l)[i].key == k
  {
    assert forall i | 0 <= i < |l| :: Bare(l)[i].key == l[i];
  }

  lemma {:induction false} CapMapKeys(cs: seq<Cap>)
    ensures forall k :: k in CapMap(cs) <==> exists i :: 0 <= i < |cs| && cs[i].key == k
    decreases |cs|
  {
    if cs != [] { CapMapKeys(cs[..|cs| - 1]); }
  }

  // ---------------------------------------------------------------------------
  // What a request says

  function LastArg(a: Args): Bytes {
    if a.long.Some? then a.long.value else if a.words == [] then [] else a.words[|a.words| - 1]
  }

  /** The list of a request names exactly the capabilities asked for, as far as none of them starts
      with a blank. */
  lemma {:induction false} RequestNames(l: seq<Bytes>)
    requires AreKeys(l) && forall i | 0 <= i < |l| :: !IsWhitespace(l[i][0])
    ensures ReadCaps(LastArg(ReqMsg(Join(l)).args)) == Bare(l)
  {
    NamesReadBack(l);
    RequestArgs(Join(l));
  }

  lemma {:induction false} NamesReadBack(l: seq<Bytes>)
    requires AreKeys(l) && forall i | 0 <= i < |l| :: !IsWhitespace(l[i][0])
    ensures var list := Join(l);
            Is(Line, list) && (list != [] ==> !IsWhitespace(list[0])) && ReadCaps(list) == Bare(l)
  {
    BareTexts(l);
    BareUnblank(l);
    ListRoundTripIff(Bare(l));
    JoinStart(l);
  }

  lemma {:induction false} BareUnblank(l: seq<Bytes>)
    requires AreKeys(l) && forall i | 0 <= i < |l| :: !IsWhitespace(l[i][0])
    ensures NoLeadingBlanks(Bare(l))
  {
  }

  /** A request comes back from its written form as the command CAP with REQ and its list. */
  lemma {:induction false} RequestComesBack(list: Bytes)
    requires Is(Line, list) && (list != [] ==> !IsWhitespace(list[0]))
    ensures var m := ReqMsg(list);
            && ParseClient(ClientText(m)) == Good(m) && m.cmd == CAP
            && |m.args.words| >= 1 && m.args.words[0] == REQ && LastArg(m.args) == list
  {
    var m := ReqMsg(list);
    assert Is(Cmd, CAP) && Is(Arg, REQ);
    RequestArgs(list);
    ClientRoundTripIff(m);
  }

  lemma {:induction false} RequestArgs(list: Bytes)
    requires Is(Line, list) && (list != [] ==> !IsWhitespace(list[0]))
    ensures var a := Add(Args([REQ], None), list);
            && ValidArgs(a) && NoLeadingBlank(a.words) && LastArg(a) == list
            && |a.words| >= 1 && a.words[0] == REQ
  {
    assert Is(Arg, REQ) && !IsWhitespace(REQ[0]);
  }

  lemma {:induction false} JoinStart(l: seq<Bytes>)
    requires AreKeys(l)
    ensures l != [] ==> Join(l) != [] && Join(l)[0] == l[0][0]
    decreases |l|
  {
    if |l| > 1 { JoinStart(l[..|l| - 1]); }
  }

  /** A word of a list that stands for a capability: a name, or a name, an equals sign and a value. */
  ghost predicate SpellsCap(w: Bytes) {
    exists key, value :: Is(Key, key) && Spells(w, key, value)
  }

  predicate Spells(w: Bytes, key: Bytes, value: Bytes) {
    w == key || w == key + ([EQ] + value)
  }

  /** Any other word is skipped. */
  lemma {:induction false} ReadCapIff(w: Bytes)
    requires Is(Word, w)
    ensures |ReadCap(w)| <= 1
    ensures ReadCap(w) != [] <==> SpellsCap(w)
  {
    ReadCapKey(w);
    var key := PeekStringOf(w, Key, false);
    if ReadCap(w) != [] {
      var rest := w[|key.value|..];
      assert w == key.value + rest;
      assert rest != [] ==> rest == [EQ] + rest[1..];
      assert Spells(w, key.value, if rest == [] then [] else rest[1..]);
    }
    if SpellsCap(w) {
      var k, v :| Is(Key, k) && Spells(w, k, v);
      var rest := if w == k then [] else [EQ] + v;
      PeekKey(k, rest);
      assert w == k + rest;
    }
  }
}
