/** Reading messages off a byte stream that arrives in pieces (the `read_msg!` and `read_buf!`
    macros of src/ircmsg/codec.rs). */
module Stream {
  import opened Strings
  import opened Sources
  import opened Arguments
  import opened Codec

  /** What the transport delivers next: a byte, or a time-out between two chunks. The end of the
      sequence is the end of the stream. */
  datatype Event = Data(b: byte) | Timeout

  function BytesOf(es: seq<Event>): Bytes {
    if es == [] then []
    else (if es[0].Data? then [es[0].b] else []) + BytesOf(es[1..])
  }

  /** What one `read_until(LF)` of at most `limit` bytes takes, and whether a time-out cut it short. */
  datatype Taken = Taken(bytes: Bytes, rest: seq<Event>, timedOut: bool)

  function ReadUntil(es: seq<Event>, limit: nat): (r: Taken)
    ensures |r.rest| + |r.bytes| <= |es|
    ensures r.timedOut ==> |r.rest| < |es|
  {
    if limit == 0 || es == [] then Taken([], es, false)
    else
      match es[0]
      case Timeout => Taken([], es[1..], true)
      case Data(b) =>
        if b == LF then Taken([b], es[1..], false)
        else
          var r := ReadUntil(es[1..], limit - 1);
          Taken([b] + r.bytes, r.rest, r.timedOut)
  }

  /** What one round of a call takes: nothing if the buffer is full. */
  function Piece(buf: Bytes, es: seq<Event>, limit: nat): (r: Taken)
    ensures |r.rest| + |r.bytes| <= |es|
    ensures r.timedOut ==> |r.rest| < |es|
  {
    if |buf| < limit then ReadUntil(es, limit - |buf|) else Taken([], es, false)
  }

  /** What the buffer holds once its trailing line terminators are stripped. */
  datatype Scanned = Exhausted | Whole(line: Bytes) | Fault(error: ParseError, left: Bytes)

  function ScanEnd(buf: Bytes, foundNewline: bool): (r: Scanned)
    ensures r.Whole? ==> |r.line| <= |buf|
  {
    if buf == [] then Exhausted
    else
      var c, init := buf[|buf| - 1], buf[..|buf| - 1];
      if c == LF then ScanEnd(init, true)
      else if c == CR && foundNewline then ScanEnd(init, true)
      else if c == CR || c == NUL then Fault(InvalidLine(Byte(c)), buf)
      else if foundNewline then Whole(buf)
      else Fault(TooLong, buf)
  }

  datatype ReadResult<+M> = Message(msg: M) | TimedOut | EndOfStream | Malformed(error: ParseError) | Hangs

  /** Result of one read call, with the buffer and the stream it leaves behind. */
  datatype Call<+M> = Call(result: ReadResult<M>, buf: Bytes, es: seq<Event>)

  function Parsed<M>(o: Outcome<M>): ReadResult<M> {
    match o
    case Good(m) => Message(m)
    case Bad(e) => Malformed(e)
    case Diverges => Hangs
  }

  function ReadCall<M>(buf: Bytes, es: seq<Event>, limit: nat, parse: Bytes -> Outcome<M>): (r: Call<M>)
    requires limit > 0
    ensures r.result.Message? || r.result.TimedOut? ==>
              |r.es| < |es| || (|r.es| == |es| && |r.buf| < |buf|)
    decreases |es|, |buf|
  {
    var t := Piece(buf, es, limit);
    var full := buf + t.bytes;
    if t.timedOut then Call(TimedOut, full, t.rest)
    else if |buf| < limit && t.bytes == [] then Call(EndOfStream, full, t.rest)
    else
      match ScanEnd(full, false)
      case Exhausted => ReadCall([], t.rest, limit, parse)
      case Fault(e, left) => Call(Malformed(e), left, t.rest)
      case Whole(line) => Call(Parsed(parse(line)), [], t.rest)
  }

  /** The line that a read call hands to the parser, if it comes to that. */
  function LineRead(buf: Bytes, es: seq<Event>, limit: nat): Option<Bytes>
    requires limit > 0
    decreases |es|, |buf|
  {
    var t := Piece(buf, es, limit);
    var full := buf + t.bytes;
    if t.timedOut || (|buf| < limit && t.bytes == []) then None
    else
      match ScanEnd(full, false)
      case Exhausted => LineRead([], t.rest, limit)
      case Fault(_, _) => None
      case Whole(line) => Some(line)
  }

  lemma {:induction false} CallParsesLine<M>(buf: Bytes, es: seq<Event>, limit: nat, parse: Bytes -> Outcome<M>)
    requires limit > 0
    ensures ReadCall(buf, es, limit, parse).result.Hangs? <==>
            LineRead(buf, es, limit).Some? && parse(LineRead(buf, es, limit).value).Diverges?
    decreases |es|, |buf|
  {
    var t := Piece(buf, es, limit);
    var full := buf + t.bytes;
    if !t.timedOut && !(|buf| < limit && t.bytes == []) && ScanEnd(full, false).Exhausted? {
      CallParsesLine([], t.rest, limit, parse);
    }
  }

  /** A read call never returns if and only if the line it has taken off the stream starts with
      tags that have a colon in key position. */
  lemma {:induction false} ReadHangsIff(buf: Bytes, es: seq<Event>, limit: nat)
    requires limit > 0
    ensures var hangs := LineRead(buf, es, limit).Some? && HangsOn(LineRead(buf, es, limit).value);
            && (ReadCall(buf, es, limit, ParseServer).result.Hangs? <==> hangs)
            && (ReadCall(buf, es, limit, ParseClient).result.Hangs? <==> hangs)
  {
    CallParsesLine(buf, es, limit, ParseServer);
    CallParsesLine(buf, es, limit, ParseClient);
    if LineRead(buf, es, limit).Some? {
      ServerHangsIff(LineRead(buf, es, limit).value);
      ClientHangsIff(LineRead(buf, es, limit).value);
    }
  }

  /** The reader's buffer survives from call to call; the stream is consumed. */
  class Reader {
    var buf: Bytes
    var es: seq<Event>

    constructor (stream: seq<Event>)
      ensures buf == [] && es == stream
    {
      buf, es := [], stream;
    }

    /** Strips the line terminators at the end of the buffer and looks at what is there. */
    method StripEnd() returns (r: Scanned)
      modifies this`buf
      ensures r == ScanEnd(old(buf), false)
      ensures buf == match r
                     case Exhausted => []
                     case Whole(line) => line
                     case Fault(_, left) => left
    {
      var foundNewline := false;
      while buf != []
        invariant ScanEnd(old(buf), false) == ScanEnd(buf, foundNewline)
        decreases |buf|
      {
        var c := buf[|buf| - 1];
        if c == LF {
          foundNewline := true;
          buf := buf[..|buf| - 1];
        } else if c == CR && foundNewline {
          buf := buf[..|buf| - 1];
        } else if c == CR || c == NUL {
          return Fault(InvalidLine(Byte(c)), buf);
        } else if foundNewline {
          return Whole(buf);
        } else {
          return Fault(TooLong, buf);
        }
      }
      r := Exhausted;
    }

    method Read<M>(limit: nat, parse: Bytes -> Outcome<M>) returns (r: ReadResult<M>)
      requires limit > 0
      modifies this
      ensures Call(r, buf, es) == ReadCall(old(buf), old(es), limit, parse)
    {
      while true
        invariant ReadCall(old(buf), old(es), limit, parse) == ReadCall(buf, es, limit, parse)
        decreases |es|, |buf|
      {
        if |buf| < limit {
          var t := ReadUntil(es, limit - |buf|);
          buf, es := buf + t.bytes, t.rest;
          if t.timedOut { return TimedOut; }
          if t.bytes == [] { return EndOfStream; }
        } else {
          assert buf + [] == buf;
        }
        var scanned := StripEnd();
        match scanned {
          case Exhausted =>
          case Fault(e, _) => return Malformed(e);
          case Whole(line) =>
            r := Parsed(parse(line));
            buf := [];
            return;
        }
      }
    }
  }

  /** A reader that keeps its buffer and tries again after every time-out until the stream ends:
      the messages in order, or `None` if a call fails. */
  function ReadAll<M>(buf: Bytes, es: seq<Event>, limit: nat, parse: Bytes -> Outcome<M>): Option<seq<M>>
    requires limit > 0
    decreases |es|, |buf|
  {
    var c := ReadCall(buf, es, limit, parse);
    match c.result
    case Message(m) =>
      (match ReadAll(c.buf, c.es, limit, parse)
       case None => None
       case Some(ms) => Some([m] + ms))
    case TimedOut => ReadAll(c.buf, c.es, limit, parse)
    case EndOfStream => Some([])
    case Malformed(_) => None
    case Hangs => None
  }

  // ---------------------------------------------------------------------------
  // Every way of cutting the stream gives the messages that were sent

  /** A message text that can be sent as one line and parses back. */
  ghost predicate Sendable<M>(text: Bytes, m: M, limit: nat, parse: Bytes -> Outcome<M>) {
    text != [] && Is(Line, text) && |text| + 2 <= limit && parse(text) == Good(m)
  }

  /** The texts as sent, each with its line terminator. */
  function Sent(texts: seq<Bytes>): Bytes {
    if texts == [] then [] else texts[0] + [CR, LF] + Sent(texts[1..])
  }

  lemma {:induction false} ScanLine(text: Bytes)
    requires text != [] && Is(Line, text)
    ensures ScanEnd(text + [CR, LF], false) == Whole(text)
  {
    var full := text + [CR, LF];
    assert full[..|full| - 1] == text + [CR];
    assert (text + [CR])[..|text|] == text;
    assert !IsInvalid(Line, text[|text| - 1]);
    assert ScanEnd(text, true) == Whole(text);
    assert ScanEnd(text + [CR], true) == Whole(text);
  }

  /** Reading towards the end of a line stops there or at a time-out before it. */
  lemma {:induction false} ReadTowardsLF(es: seq<Event>, needed: Bytes, more: Bytes, limit: nat)
    requires BytesOf(es) == needed + more
    requires needed != [] && needed[|needed| - 1] == LF
    requires forall i | 0 <= i < |needed| - 1 :: needed[i] != LF
    requires |needed| <= limit
    ensures var t := ReadUntil(es, limit);
            if t.timedOut then
              |t.bytes| < |needed| && t.bytes == needed[..|t.bytes|] &&
              BytesOf(t.rest) == needed[|t.bytes|..] + more
            else t.bytes == needed && BytesOf(t.rest) == more
    decreases |es|
  {
    assert needed + more != [];
    if es == [] {
      assert false;
    } else if es[0].Timeout? {
      assert BytesOf(es) == [] + BytesOf(es[1..]);
      assert needed[..0] == [] && needed[0..] == needed;
    } else {
      var b := es[0].b;
      assert BytesOf(es) == [b] + BytesOf(es[1..]);
      assert (needed + more)[0] == needed[0] == b;
      assert BytesOf(es[1..]) == (needed + more)[1..] == needed[1..] + more;
      if b == LF {
        assert |needed| == 1;
        assert needed == [LF] && needed[1..] + more == more;
      } else {
        assert needed == [b] + needed[1..];
        ReadTowardsLF(es[1..], needed[1..], more, limit - 1);
        var r := ReadUntil(es[1..], limit - 1);
        if r.timedOut { TakeTail(needed, |r.bytes|); }
      }
    }
  }

  lemma {:induction false} TakeTail(needed: Bytes, k: nat)
    requires needed != [] && k <= |needed| - 1
    ensures [needed[0]] + needed[1..][..k] == needed[..k + 1]
    ensures needed[1..][k..] == needed[k + 1..]
  {
  }

  /** One call on a buffer that holds the beginning of a line. */
  lemma {:induction false} CallOnLine<M>(buf: Bytes, es: seq<Event>, text: Bytes, m: M, more: Bytes, limit: nat,
                      parse: Bytes -> Outcome<M>)
    requires limit > 0 && Sendable(text, m, limit, parse)
    requires |buf| < |text| + 2 && buf == (text + [CR, LF])[..|buf|]
    requires buf + BytesOf(es) == text + [CR, LF] + more
    ensures var c := ReadCall(buf, es, limit, parse);
            || (c.result == Message(m) && c.buf == [] && BytesOf(c.es) == more)
            || (&& c.result == TimedOut && |c.buf| < |text| + 2
                && c.buf == (text + [CR, LF])[..|c.buf|]
                && c.buf + BytesOf(c.es) == text + [CR, LF] + more)
  {
    var line := text + [CR, LF];
    var needed := line[|buf|..];
    assert line == buf + needed;
    SuffixAfter(buf, BytesOf(es), needed, more);
    OneLF(text, |buf|);
    ReadTowardsLF(es, needed, more, limit - |buf|);
    var t := ReadUntil(es, limit - |buf|);
    if t.timedOut {
      PartialLine(buf, needed, more, |t.bytes|);
      CallTimesOut(buf, es, limit, parse);
    } else {
      ScanLine(text);
      CallFinds(buf, es, text, limit, parse);
    }
  }

  lemma {:induction false} CallTimesOut<M>(buf: Bytes, es: seq<Event>, limit: nat, parse: Bytes -> Outcome<M>)
    requires |buf| < limit && ReadUntil(es, limit - |buf|).timedOut
    ensures var t := ReadUntil(es, limit - |buf|);
            ReadCall(buf, es, limit, parse) == Call(TimedOut, buf + t.bytes, t.rest)
  {
  }

  lemma {:induction false} CallFinds<M>(buf: Bytes, es: seq<Event>, text: Bytes, limit: nat, parse: Bytes -> Outcome<M>)
    requires |buf| < limit
    requires var t := ReadUntil(es, limit - |buf|);
             !t.timedOut && t.bytes != [] && ScanEnd(buf + t.bytes, false) == Whole(text)
    ensures ReadCall(buf, es, limit, parse)
            == Call(Parsed(parse(text)), [], ReadUntil(es, limit - |buf|).rest)
  {
  }

  /** A line feed ends the line and occurs nowhere else in it. */
  lemma {:induction false} OneLF(text: Bytes, k: nat)
    requires Is(Line, text) && k < |text| + 2
    ensures var needed := (text + [CR, LF])[k..];
            && needed[|needed| - 1] == LF
            && forall i | 0 <= i < |needed| - 1 :: needed[i] != LF
  {
    var line := text + [CR, LF];
    forall i | 0 <= i < |line[k..]| - 1 ensures line[k..][i] != LF {
      assert line[k..][i] == line[k + i];
      assert k + i < |text| ==> !IsInvalid(Line, text[k + i]);
    }
  }

  lemma {:induction false} PartialLine(buf: Bytes, needed: Bytes, more: Bytes, k: nat)
    requires k <= |needed|
    ensures buf + needed[..k] == (buf + needed)[..|buf| + k]
    ensures buf + needed[..k] + (needed[k..] + more) == buf + needed + more
  {
    assert needed == needed[..k] + needed[k..];
  }

  lemma {:induction false} SuffixAfter(buf: Bytes, rest: Bytes, needed: Bytes, more: Bytes)
    requires buf + rest == buf + needed + more
    ensures rest == needed + more
  {
    assert (buf + rest)[|buf|..] == rest;
    assert (buf + needed + more)[|buf|..] == needed + more;
  }

  lemma {:induction false} NothingLeft<M>(es: seq<Event>, limit: nat, parse: Bytes -> Outcome<M>)
    requires limit > 0 && BytesOf(es) == []
    ensures ReadAll([], es, limit, parse) == Some([])
    decreases |es|
  {
    if es != [] {
      assert es[0].Timeout?;
      assert BytesOf(es[1..]) == [];
      assert ReadCall([], es, limit, parse) == Call(TimedOut, [], es[1..]);
      NothingLeft(es[1..], limit, parse);
    }
  }

  ghost predicate AllSendable<M>(texts: seq<Bytes>, ms: seq<M>, limit: nat, parse: Bytes -> Outcome<M>) {
    |texts| == |ms| && forall i | 0 <= i < |ms| :: Sendable(texts[i], ms[i], limit, parse)
  }

  /** Whatever part of the first line has arrived, and however the rest is cut by time-outs. */
  lemma {:induction false} ReadAllFrom<M>(buf: Bytes, es: seq<Event>, texts: seq<Bytes>, ms: seq<M>,
                                          limit: nat, parse: Bytes -> Outcome<M>)
    requires limit > 0 && AllSendable(texts, ms, limit, parse)
    requires buf + BytesOf(es) == Sent(texts)
    requires if texts == [] then buf == []
             else |buf| < |texts[0]| + 2 && buf == (texts[0] + [CR, LF])[..|buf|]
    ensures ReadAll(buf, es, limit, parse) == Some(ms)
    decreases |es|, |texts|
  {
    if texts == [] {
      assert buf + BytesOf(es) == BytesOf(es);
      NothingLeft(es, limit, parse);
    } else {
      var more := Sent(texts[1..]);
      CallOnLine(buf, es, texts[0], ms[0], more, limit, parse);
      var c := ReadCall(buf, es, limit, parse);
      if c.result.Message? {
        assert [] + BytesOf(c.es) == more;
        if texts[1..] != [] { assert (texts[1] + [CR, LF])[..0] == []; }
        ReadAllFrom([], c.es, texts[1..], ms[1..], limit, parse);
        assert ms == [ms[0]] + ms[1..];
      } else {
        ReadAllFrom(c.buf, c.es, texts, ms, limit, parse);
      }
    }
  }

  const SERVER_MAX_LEN := 8703
  const CLIENT_MAX_LEN := 4608

  function ServerTexts(ms: seq<ServerMsg>): seq<Bytes> {
    seq(|ms|, i requires 0 <= i < |ms| => ServerText(ms[i]))
  }

  function ClientTexts(ms: seq<ClientMsg>): seq<Bytes> {
    seq(|ms|, i requires 0 <= i < |ms| => ClientText(ms[i]))
  }

  /** A server message within the domain of the round trip, and not too long. */
  ghost predicate FitServer(m: ServerMsg) {
    && ValidServer(m) && |ServerText(m)| + 2 <= SERVER_MAX_LEN
    && TagsSurvive(m.tags) && HostPresent(m.source) && NoLeadingBlank(m.args.words)
  }

  ghost predicate FitClient(m: ClientMsg) {
    && ValidClient(m) && |ClientText(m)| + 2 <= CLIENT_MAX_LEN
    && TagsSurvive(m.tags) && NoLeadingBlank(m.args.words)
  }

  lemma {:induction false} ServerSendable(m: ServerMsg)
    requires FitServer(m)
    ensures Sendable(ServerText(m), m, SERVER_MAX_LEN, ParseServer)
  {
    ServerRoundTripIff(m);
    KindRoundTrip(m.kind);
    WireIsLine(m.tags, m.source, m.kind.text, m.args);
  }

  lemma {:induction false} ClientSendable(m: ClientMsg)
    requires FitClient(m)
    ensures Sendable(ClientText(m), m, CLIENT_MAX_LEN, ParseClient)
  {
    ClientRoundTripIff(m);
    CommandRoundTrip(m.cmd);
    WireIsLine(m.tags, None, m.cmd, m.args);
  }

  lemma {:induction false} ReadAllFromStart<M>(es: seq<Event>, texts: seq<Bytes>, ms: seq<M>, limit: nat,
                            parse: Bytes -> Outcome<M>)
    requires limit > 0 && AllSendable(texts, ms, limit, parse)
    requires BytesOf(es) == Sent(texts)
    ensures ReadAll([], es, limit, parse) == Some(ms)
  {
    assert [] + BytesOf(es) == BytesOf(es);
    if texts != [] { assert (texts[0] + [CR, LF])[..0] == []; }
    ReadAllFrom([], es, texts, ms, limit, parse);
  }

  /** Messages sent by a server reach a client's reader one by one, in order and unchanged,
      however time-outs cut the stream. */
  lemma {:induction false} ServerStreamIsReadBack(ms: seq<ServerMsg>, es: seq<Event>)
    requires forall i | 0 <= i < |ms| :: FitServer(ms[i])
    requires BytesOf(es) == Sent(ServerTexts(ms))
    ensures ReadAll([], es, SERVER_MAX_LEN, ParseServer) == Some(ms)
  {
    forall i | 0 <= i < |ms|
      ensures Sendable(ServerTexts(ms)[i], ms[i], SERVER_MAX_LEN, ParseServer)
    {
      ServerSendable(ms[i]);
    }
    ReadAllFromStart(es, ServerTexts(ms), ms, SERVER_MAX_LEN, ParseServer);
  }

  lemma {:induction false} ClientStreamIsReadBack(ms: seq<ClientMsg>, es: seq<Event>)
    requires forall i | 0 <= i < |ms| :: FitClient(ms[i])
    requires BytesOf(es) == Sent(ClientTexts(ms))
    ensures ReadAll([], es, CLIENT_MAX_LEN, ParseClient) == Some(ms)
  {
    forall i | 0 <= i < |ms|
      ensures Sendable(ClientTexts(ms)[i], ms[i], CLIENT_MAX_LEN, ParseClient)
    {
      ClientSendable(ms[i]);
    }
    ReadAllFromStart(es, ClientTexts(ms), ms, CLIENT_MAX_LEN, ParseClient);
  }

  // ---------------------------------------------------------------------------
  // What a call takes off the stream, and what it makes of it

  predicate AllEnds(s: Bytes) {
    forall i | 0 <= i < |s| :: s[i] == CR || s[i] == LF
  }

  predicate EndsIn(s: Bytes, b: byte) {
    s != [] && s[|s| - 1] == b
  }

  /** The last byte is an ordinary one. */
  predicate EndsPlain(s: Bytes) {
    s != [] && !BreaksLine(s[|s| - 1])
  }

  /** `line`, which ends in an ordinary byte, and then line ends, the last of them a line feed. */
  predicate IsLine(full: Bytes, line: Bytes) {
    EndsPlain(line) && line <= full && AllEnds(full[|line|..]) && EndsIn(full[|line|..], LF)
  }

  /** `left`, which ends in a NUL, and then nothing, or line ends of which the last is a line feed. */
  predicate IsCutByNul(full: Bytes, left: Bytes) {
    left <= full && EndsIn(left, NUL) && AllEnds(full[|left|..]) && (left == full || EndsIn(full, LF))
  }

  lemma {:induction false} AllEndsSnoc(s: Bytes)
    requires s != [] && AllEnds(s[..|s| - 1]) && (s[|s| - 1] == CR || s[|s| - 1] == LF)
    ensures AllEnds(s)
  {
    assert forall i | 0 <= i < |s| - 1 :: s[i] == s[..|s| - 1][i];
  }

  /** What the scan says is so. */
  lemma {:induction false} ScanSound(buf: Bytes, found: bool)
    ensures match ScanEnd(buf, found)
            case Exhausted => AllEnds(buf) && (found || buf == [] || EndsIn(buf, LF))
            case Whole(line) =>
              && EndsPlain(line) && line <= buf && AllEnds(buf[|line|..])
              && (found || EndsIn(buf[|line|..], LF))
            case Fault(e, left) =>
              || (e == TooLong && !found && EndsPlain(buf) && left == buf)
              || (e == InvalidLine(Byte(CR)) && !found && EndsIn(buf, CR) && left == buf)
              || (e == InvalidLine(Byte(NUL)) && NulThenEnds(buf, left, found))
    decreases |buf|
  {
    if buf != [] {
      var c, init := buf[|buf| - 1], buf[..|buf| - 1];
      assert buf == init + [c];
      if c == LF || (c == CR && found) {
        ScanSound(init, true);
        ScanSoundStep(buf, found);
      } else {
        ScanStops(buf, found);
      }
    }
  }

  predicate NulThenEnds(buf: Bytes, left: Bytes, found: bool) {
    && left <= buf && EndsIn(left, NUL) && AllEnds(buf[|left|..])
    && (found || left == buf || EndsIn(buf, LF))
  }

  lemma {:induction false} ScanSoundStep(buf: Bytes, found: bool)
    requires buf != [] && (buf[|buf| - 1] == LF || (buf[|buf| - 1] == CR && found))
    ensures var init := buf[..|buf| - 1];
            && (AllEnds(init) ==> AllEnds(buf))
            && (forall line | line <= init && AllEnds(init[|line|..]) ::
                  line <= buf && AllEnds(buf[|line|..]) && (found || EndsIn(buf[|line|..], LF)))
            && (forall left | NulThenEnds(init, left, true) :: NulThenEnds(buf, left, found))
  {
    var init := buf[..|buf| - 1];
    if AllEnds(init) { AllEndsSnoc(buf); }
    forall line | line <= init && AllEnds(init[|line|..])
      ensures line <= buf && AllEnds(buf[|line|..]) && (found || EndsIn(buf[|line|..], LF))
    {
      LongerTail(buf, |line|);
    }
    forall left | NulThenEnds(init, left, true) ensures NulThenEnds(buf, left, found) {
      LongerTail(buf, |left|);
    }
  }

  lemma {:induction false} LongerTail(buf: Bytes, k: nat)
    requires k < |buf| && AllEnds(buf[..|buf| - 1][k..]) && (buf[|buf| - 1] == CR || buf[|buf| - 1] == LF)
    ensures AllEnds(buf[k..]) && buf[k..][|buf[k..]| - 1] == buf[|buf| - 1]
  {
    var t := buf[k..];
    assert t[..|t| - 1] == buf[..|buf| - 1][k..];
    AllEndsSnoc(t);
  }

  /** Where the scan stops at once. */
  lemma {:induction false} ScanStops(buf: Bytes, found: bool)
    requires buf != [] && buf[|buf| - 1] != LF && !(buf[|buf| - 1] == CR && found)
    ensures var c := buf[|buf| - 1];
            ScanEnd(buf, found) == if c == CR || c == NUL then Fault(InvalidLine(Byte(c)), buf)
                                   else if found then Whole(buf) else Fault(TooLong, buf)
    ensures buf[|buf| - 1] == NUL ==> NulThenEnds(buf, buf, found)
    ensures buf[|buf|..] == []
  {
  }

  /** A terminated line is found. */
  lemma {:induction false} ScanFinds(line: Bytes, t: Bytes, found: bool)
    requires EndsPlain(line) && AllEnds(t) && (found || EndsIn(t, LF))
    ensures ScanEnd(line + t, found) == Whole(line)
    decreases |t|
  {
    if t == [] {
      assert line + t == line;
    } else {
      var n := |t| - 1;
      assert (line + t)[..|line + t| - 1] == line + t[..n];
      ScanFinds(line, t[..n], true);
    }
  }

  lemma {:induction false} ScanExhausts(t: Bytes, found: bool)
    requires AllEnds(t) && (found || t == [] || EndsIn(t, LF))
    ensures ScanEnd(t, found).Exhausted?
    decreases |t|
  {
    if t != [] { ScanExhausts(t[..|t| - 1], true); }
  }

  /** A NUL is found behind line ends, which are gone then. */
  lemma {:induction false} ScanCut(left: Bytes, t: Bytes, found: bool)
    requires EndsIn(left, NUL) && AllEnds(t) && (found || t == [] || EndsIn(t, LF))
    ensures ScanEnd(left + t, found) == Fault(InvalidLine(Byte(NUL)), left)
    decreases |t|
  {
    if t == [] {
      assert left + t == left;
    } else {
      var n := |t| - 1;
      assert (left + t)[..|left + t| - 1] == left + t[..n];
      ScanCut(left, t[..n], true);
    }
  }

  /** The scan in terms of bytes. */
  lemma {:induction false} ScanIs(buf: Bytes)
    ensures ScanEnd(buf, false).Exhausted? <==> AllEnds(buf) && (buf == [] || EndsIn(buf, LF))
    ensures forall line :: ScanEnd(buf, false) == Whole(line) <==> IsLine(buf, line)
    ensures ScanEnd(buf, false) == Fault(TooLong, buf) <==> EndsPlain(buf)
    ensures ScanEnd(buf, false) == Fault(InvalidLine(Byte(CR)), buf) <==> EndsIn(buf, CR)
    ensures forall left :: ScanEnd(buf, false) == Fault(InvalidLine(Byte(NUL)), left) <==> IsCutByNul(buf, left)
    ensures var r := ScanEnd(buf, false);
            r.Fault? ==>
              || (r.error in [TooLong, InvalidLine(Byte(CR))] && r.left == buf)
              || r.error == InvalidLine(Byte(NUL))
  {
    ScanSound(buf, false);
    forall line | IsLine(buf, line) ensures ScanEnd(buf, false) == Whole(line) {
      assert buf == line + buf[|line|..];
      ScanFinds(line, buf[|line|..], false);
    }
    if AllEnds(buf) && (buf == [] || EndsIn(buf, LF)) { ScanExhausts(buf, false); }
    if EndsPlain(buf) || EndsIn(buf, CR) { ScanStops(buf, false); }
    forall left | IsCutByNul(buf, left) ensures ScanEnd(buf, false) == Fault(InvalidLine(Byte(NUL)), left) {
      assert buf == left + buf[|left|..];
      ScanCut(left, buf[|left|..], false);
    }
  }

  /** One read takes a piece of the stream with no line feed but at its end, and goes on to that,
      to its limit, to a time-out or to the end of the stream. */
  lemma {:induction false} ReadUntilTakes(es: seq<Event>, limit: nat)
    ensures var t := ReadUntil(es, limit);
            && BytesOf(es) == t.bytes + BytesOf(t.rest) && |t.bytes| <= limit
            && (forall i | 0 <= i < |t.bytes| - 1 :: t.bytes[i] != LF)
            && (t.timedOut ==> !EndsIn(t.bytes, LF))
            && (t.timedOut || EndsIn(t.bytes, LF) || |t.bytes| == limit || t.rest == [])
    decreases |es|
  {
    if limit > 0 && es != [] {
      var tail := BytesOf(es[1..]);
      match es[0] {
        case Timeout => assert BytesOf(es) == [] + tail;
        case Data(b) =>
          assert BytesOf(es) == [b] + tail;
          if b != LF {
            ReadUntilTakes(es[1..], limit - 1);
            var t := ReadUntil(es[1..], limit - 1);
            assert [b] + (t.bytes + BytesOf(t.rest)) == [b] + t.bytes + BytesOf(t.rest);
            assert forall i | 0 < i < |t.bytes| + 1 :: ([b] + t.bytes)[i] == t.bytes[i - 1];
          }
      }
    }
  }

  /** What a call takes, the buffer included: first blank lines, which it skips, and then the piece
      that decides. A line goes to the parser exactly if that piece is a line with its line feed;
      the reader itself finds the line too long exactly if the piece ends in an ordinary byte. A
      time-out or the end of the stream leaves the piece in the buffer, and so do the reader's own
      errors, but for line ends behind a NUL. */
  ghost predicate CallSpec<M>(buf: Bytes, es: seq<Event>, limit: nat, parse: Bytes -> Outcome<M>,
                              blank: Bytes, taken: Bytes)
    requires limit > 0
  {
    var c := ReadCall(buf, es, limit, parse);
    Takes(buf, es, limit, c.es, blank, taken) && Decided(taken, c, LineRead(buf, es, limit), parse)
  }

  ghost predicate Takes(buf: Bytes, es: seq<Event>, limit: nat, rest: seq<Event>, blank: Bytes, taken: Bytes) {
    && buf + BytesOf(es) == blank + taken + BytesOf(rest) && AllEnds(blank)
    && (|taken| <= limit || taken == buf)
  }

  ghost predicate Decided<M>(taken: Bytes, c: Call<M>, line: Option<Bytes>, parse: Bytes -> Outcome<M>) {
    if c.result.TimedOut? then line.None? && c.buf == taken
    else if c.result.EndOfStream? then line.None? && c.buf == taken && c.es == []
    else
      && (forall l :: line == Some(l) <==> IsLine(taken, l))
      && if line.Some? then c.result == Parsed(parse(line.value)) && c.buf == [] else Faulty(taken, c)
  }

  /** The reader's own errors, with what each leaves in the buffer. */
  ghost predicate Faulty<M>(taken: Bytes, c: Call<M>) {
    && (c.result == Malformed(TooLong) <==> EndsPlain(taken))
    && (c.result == Malformed(InvalidLine(Byte(CR))) <==> EndsIn(taken, CR))
    && (if EndsPlain(taken) || EndsIn(taken, CR) then c.buf == taken
        else c.result == Malformed(InvalidLine(Byte(NUL))) && IsCutByNul(taken, c.buf))
  }

  /** One round: what it takes and what it makes of it. */
  lemma {:induction false} RoundTakes(buf: Bytes, es: seq<Event>, limit: nat)
    requires limit > 0
    ensures var t := Piece(buf, es, limit);
            && buf + BytesOf(es) == buf + t.bytes + BytesOf(t.rest)
            && (|buf + t.bytes| <= limit || buf + t.bytes == buf)
            && (|buf| < limit && !t.timedOut && t.bytes == [] ==> t.rest == [])
  {
    if |buf| < limit {
      ReadUntilTakes(es, limit - |buf|);
      var t := ReadUntil(es, limit - |buf|);
      Assoc(buf, t.bytes, BytesOf(t.rest));
    } else {
      assert buf + [] == buf;
    }
  }

  lemma {:induction false} CallTakes<M>(buf: Bytes, es: seq<Event>, limit: nat, parse: Bytes -> Outcome<M>)
    returns (blank: Bytes, taken: Bytes)
    requires limit > 0
    ensures CallSpec(buf, es, limit, parse, blank, taken)
    decreases |es|, |buf|
  {
    if Skips(buf, es, limit) {
      var rest := Piece(buf, es, limit).rest;
      blank, taken := CallTakes([], rest, limit, parse);
      SameCall(buf, es, limit, parse);
      blank := SkipsBlank(buf, es, limit, ReadCall([], rest, limit, parse).es, blank, taken);
    } else {
      blank, taken := [], buf + Piece(buf, es, limit).bytes;
      CallDecides(buf, es, limit, parse);
    }
  }

  /** A round that comes to nothing but line ends. */
  ghost predicate Skips(buf: Bytes, es: seq<Event>, limit: nat)
    requires limit > 0
  {
    var t := Piece(buf, es, limit);
    && !t.timedOut && !(|buf| < limit && t.bytes == [])
    && ScanEnd(buf + t.bytes, false).Exhausted?
  }

  lemma {:induction false} SameCall<M>(buf: Bytes, es: seq<Event>, limit: nat, parse: Bytes -> Outcome<M>)
    requires limit > 0 && Skips(buf, es, limit)
    ensures var rest := Piece(buf, es, limit).rest;
            && ReadCall(buf, es, limit, parse) == ReadCall([], rest, limit, parse)
            && LineRead(buf, es, limit) == LineRead([], rest, limit)
  {
  }

  lemma {:induction false} SkipsBlank(buf: Bytes, es: seq<Event>, limit: nat, left: seq<Event>,
                                      more: Bytes, taken: Bytes) returns (blank: Bytes)
    requires limit > 0 && Skips(buf, es, limit)
    requires Takes([], Piece(buf, es, limit).rest, limit, left, more, taken)
    ensures Takes(buf, es, limit, left, blank, taken)
  {
    blank := buf + Piece(buf, es, limit).bytes + more;
    Assoc(more, taken, BytesOf(left));
    BlankTaken(buf, es, limit, more, taken + BytesOf(left));
    Assoc(blank, taken, BytesOf(left));
  }

  lemma {:induction false} BlankTaken(buf: Bytes, es: seq<Event>, limit: nat, more: Bytes, after: Bytes)
    requires limit > 0 && Skips(buf, es, limit) && AllEnds(more)
    requires [] + BytesOf(Piece(buf, es, limit).rest) == more + after
    ensures var blank := buf + Piece(buf, es, limit).bytes + more;
            AllEnds(blank) && buf + BytesOf(es) == blank + after
  {
    var full, rest := buf + Piece(buf, es, limit).bytes, BytesOf(Piece(buf, es, limit).rest);
    RoundTakes(buf, es, limit);
    ScanIs(full);
    assert [] + rest == rest;
    Assoc(full, more, after);
  }

  lemma {:induction false} CallDecides<M>(buf: Bytes, es: seq<Event>, limit: nat, parse: Bytes -> Outcome<M>)
    requires limit > 0
    requires var t := Piece(buf, es, limit);
             t.timedOut || (|buf| < limit && t.bytes == []) || !ScanEnd(buf + t.bytes, false).Exhausted?
    ensures CallSpec(buf, es, limit, parse, [], buf + Piece(buf, es, limit).bytes)
  {
    var t := Piece(buf, es, limit);
    var full := buf + t.bytes;
    RoundTakes(buf, es, limit);
    assert [] + full == full;
    if !t.timedOut && !(|buf| < limit && t.bytes == []) {
      ScanDecides(buf, es, limit, parse);
    }
  }

  lemma {:induction false} ScanDecides<M>(buf: Bytes, es: seq<Event>, limit: nat, parse: Bytes -> Outcome<M>)
    requires limit > 0
    requires var t := Piece(buf, es, limit);
             && !t.timedOut && !(|buf| < limit && t.bytes == [])
             && !ScanEnd(buf + t.bytes, false).Exhausted?
    ensures Decided(buf + Piece(buf, es, limit).bytes, ReadCall(buf, es, limit, parse), LineRead(buf, es, limit), parse)
  {
    var full := buf + Piece(buf, es, limit).bytes;
    ScanIs(full);
    match ScanEnd(full, false) {
      case Whole(line) => NeverEnds(parse, line);
      case Fault(_, _) =>
    }
  }

  /** What the parser says is not a time-out or the end of the stream. */
  lemma {:induction false} NeverEnds<M>(parse: Bytes -> Outcome<M>, line: Bytes)
    ensures !Parsed(parse(line)).TimedOut? && !Parsed(parse(line)).EndOfStream?
  {
  }

  /** A call hands a line to the parser only if what it took ends in a line feed. */
  lemma {:induction false} ParsesOnlyTerminated<M>(buf: Bytes, es: seq<Event>, limit: nat, parse: Bytes -> Outcome<M>)
    returns (before: Bytes, line: Bytes, ends: Bytes)
    requires limit > 0 && (ReadCall(buf, es, limit, parse).result.Message? || ReadCall(buf, es, limit, parse).result.Hangs?)
    ensures var c := ReadCall(buf, es, limit, parse);
            && buf + BytesOf(es) == before + line + ends + BytesOf(c.es)
            && AllEnds(before) && AllEnds(ends) && EndsIn(ends, LF) && EndsPlain(line)
            && c.result == Parsed(parse(line))
  {
    var taken;
    before, taken := CallTakes(buf, es, limit, parse);
    line := LineRead(buf, es, limit).value;
    ends := taken[|line|..];
    assert taken == line + ends;
    Assoc(before, line, ends);
  }

  /** A call takes nothing off the stream and finds the line in the buffer too long. */
  predicate Refuses<M>(buf: Bytes, es: seq<Event>, limit: nat, parse: Bytes -> Outcome<M>)
    requires limit > 0
  {
    ReadCall(buf, es, limit, parse) == Call(Malformed(TooLong), buf, es)
  }

  /** A line found too long blocks the reader for ever, whatever the stream holds, if and only if it
      fills the buffer. */
  lemma {:induction false} StuckIffFull<M>(buf: Bytes, limit: nat, parse: Bytes -> Outcome<M>)
    requires limit > 0 && EndsPlain(buf)
    ensures (forall es :: Refuses(buf, es, limit, parse)) <==> |buf| >= limit
  {
    ScanStops(buf, false);
    if |buf| < limit {
      ScanFinds(buf, [LF], false);
      assert !Refuses(buf, [Data(LF)], limit, parse);
    } else {
      assert buf + [] == buf;
    }
  }
}
