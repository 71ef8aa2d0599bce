/** SASL authentication with a queue of authenticators (src/client/auth/handler.rs and
    src/client/auth.rs). */
module Sasl {

  import opened Strings
  import opened Base64Chunks

  type Name = string

  /** An authenticator: the name of its mechanism and its place in the configured list. */
  datatype Logic = Logic(name: Name, place: nat)

  /** The size of a full chunk. */
  const CHUNK: nat := 400

  /** What becomes of a challenge once it is complete: the base64 engine cannot decode it, or the
      current authenticator's logic fails to reply or replies in a number of chunks. */
  datatype Verdict = Undecodable | ReplyFails | Replies(chunks: nat)

  /** The server messages the handler distinguishes. */
  datatype Msg =
    | Authenticate(chunk: Option<Bytes>, verdict: Verdict)
    | Rejected            // 902, 904
    | TooLong             // 905
    | Aborted             // 906
    | Mechanisms(names: set<Name>) // 908
    | LoggedIn            // 900, 903, 907
    | Other

  /** What the handler sends. */
  datatype Out = Start(name: Name) | Data(count: nat) | Abort

  datatype Failure = Broken(what: Name) | Unsupported | Fail

  datatype Result = Continue | Success | Failed(f: Failure)

  /** `buf` is what the decoder has collected of a challenge. */
  datatype State = State(queue: seq<Logic>, logic: Logic, buf: Bytes)

  datatype Step = Step(st: State, sent: seq<Out>, result: Result)

  /** `SaslQueue::retain`, order kept. */
  function Retain(q: seq<Logic>, keep: Name -> bool): seq<Logic> {
    if q == [] then []
    else (if keep(q[0].name) then [q[0]] else []) + Retain(q[1..], keep)
  }

  /** The challenge is complete: the chunk is not full, or there is none. */
  predicate Completes(msg: Msg) {
    msg.Authenticate? && (msg.chunk.None? || |msg.chunk.value| < CHUNK)
  }

  /** A complete challenge; the decoder has been emptied. */
  function Answer(st: State, verdict: Verdict): Step {
    match verdict
    case Undecodable => Step(st, [Abort], Failed(Broken("base64")))
    case Replies(n) => Step(st, [Data(n)], Continue)
    case ReplyFails =>
      var name := st.logic.name;
      var q := Retain(st.queue, n => n != name);
      if q == [] then Step(st.(queue := []), [Abort], Failed(Broken(name)))
      else Step(st.(queue := q[1..], logic := q[0]), [Abort], Continue)
  }

  /** One server message. */
  function HandleStep(st: State, msg: Msg): Step {
    match msg
    case Authenticate(chunk, verdict) =>
      if Completes(msg) then Answer(st.(buf := []), verdict)
      else Step(st.(buf := st.buf + chunk.value), [], Continue)
    case Rejected =>
      if st.queue == [] then Step(st, [], Failed(Fail))
      else Step(st.(queue := st.queue[1..], logic := st.queue[0]), [Start(st.queue[0].name)], Continue)
    case TooLong => Step(st, [], Failed(Broken("counting")))
    case Aborted => Step(st, [Start(st.logic.name)], Continue)
    case Mechanisms(names) =>
      var q := Retain(st.queue, n => n in names);
      Step(st.(queue := q), [],
           if q == [] && st.logic.name !in names then Failed(Unsupported) else Continue)
    case LoggedIn => Step(st, [], Success)
    case Other => Step(st, [], Continue)
  }

  class Handler {
    var queue: seq<Logic>
    var logic: Logic
    const decoder: ChunkDecoder

    ghost predicate Valid()
    {
      decoder.max == CHUNK
    }

    function Now(): State
      reads this, decoder
    {
      State(queue, logic, decoder.buf)
    }

    constructor (logic: Logic, queue: seq<Logic>)
      ensures Valid() && fresh(decoder) && Now() == State(queue, logic, [])
    {
      this.logic, this.queue := logic, queue;
      decoder := new ChunkDecoder(CHUNK);
    }

    /** A handler in the middle of its work. */
    constructor At(st: State)
      ensures Valid() && fresh(decoder) && Now() == st
    {
      logic, queue := st.logic, st.queue;
      decoder := new ChunkDecoder(CHUNK);
      new;
      decoder.buf := st.buf;
    }

    method RetainInQueue(keep: Name -> bool)
      modifies this`queue
      ensures queue == Retain(old(queue), keep)
    {
      var kept: seq<Logic> := [];
      var i := 0;
      assert queue[0..] == queue && kept + Retain(queue, keep) == Retain(queue, keep);
      while i < |queue|
        invariant 0 <= i <= |queue|
        invariant kept + Retain(queue[i..], keep) == Retain(queue, keep)
        invariant queue == old(queue)
      {
        assert queue[i..][1..] == queue[i + 1..];
        ghost var rest := Retain(queue[i + 1..], keep);
        assert kept + ([queue[i]] + rest) == kept + [queue[i]] + rest && kept + ([] + rest) == kept + rest;
        if keep(queue[i].name) { kept := kept + [queue[i]]; }
        i := i + 1;
      }
      assert kept + [] == kept;
      queue := kept;
    }

    /** `retain`: `Some(true)` if another authenticator has to take over, `Some(false)` if none is
        left. */
    method RetainSupported(keep: Name -> bool) returns (r: Option<bool>)
      modifies this`queue, this`logic
      ensures r.None? <==> keep(old(logic).name)
      ensures r.None? ==> logic == old(logic) && queue == Retain(old(queue), keep)
      ensures r == Some(true) ==> [logic] + queue == Retain(old(queue), keep)
      ensures r == Some(false) ==> Retain(old(queue), keep) == [] && queue == [] && logic == old(logic)
    {
      RetainInQueue(keep);
      if keep(logic.name) { return None; }
      if queue == [] { return Some(false); }
      logic, queue := queue[0], queue[1..];
      return Some(true);
    }

    /** What follows a complete challenge. */
    method React(verdict: Verdict) returns (sent: seq<Out>, result: Result)
      modifies this`queue, this`logic
      ensures Step(Now(), sent, result) == Answer(old(Now()), verdict)
    {
      sent, result := [Abort], Continue;
      match verdict {
        case Undecodable => result := Failed(Broken("base64"));
        case Replies(n) => sent := [Data(n)];
        case ReplyFails =>
          var name := logic.name;
          RetainInQueue(n => n != name);
          if queue == [] {
            result := Failed(Broken(name));
          } else {
            logic, queue := queue[0], queue[1..];
          }
      }
    }

    method HandleMsg(msg: Msg) returns (sent: seq<Out>, result: Result)
      requires Valid()
      modifies this, decoder
      ensures Step(Now(), sent, result) == HandleStep(old(Now()), msg)
    {
      sent, result := [], Continue;
      match msg {
        case Authenticate(chunk, verdict) =>
          var complete := true;
          if chunk.Some? {
            var text := decoder.AddChunk(chunk.value);
            complete := text.Some?;
          } else {
            decoder.buf := [];
          }
          if complete { sent, result := React(verdict); }
        case Rejected =>
          if queue == [] {
            result := Failed(Fail);
          } else {
            logic, queue := queue[0], queue[1..];
            sent := [Start(logic.name)];
          }
        case TooLong =>
          result := Failed(Broken("counting"));
        case Aborted =>
          sent := [Start(logic.name)];
        case Mechanisms(names) =>
          RetainInQueue(n => n in names);
          if queue == [] && logic.name !in names { result := Failed(Unsupported); }
        case LoggedIn =>
          result := Success;
        case Other =>
      }
    }
  }

  // ---------------------------------------------------------------------------
  // Runs: messages are handled as long as the handler asks for more

  ghost predicate IsRun(st: State, msgs: seq<Msg>)
    decreases |msgs|
  {
    msgs == [] || (HandleStep(st, msgs[0]).result.Continue? && IsRun(HandleStep(st, msgs[0]).st, msgs[1..]))
  }

  function Final(st: State, msgs: seq<Msg>): State
    decreases |msgs|
  {
    if msgs == [] then st else Final(HandleStep(st, msgs[0]).st, msgs[1..])
  }

  /** A complete challenge to which the authenticator fails to reply. */
  predicate FailsReply(msg: Msg) {
    Completes(msg) && msg.verdict.ReplyFails?
  }

  /** The handler turns to another authenticator. */
  predicate Switches(st: State, msg: Msg) {
    HandleStep(st, msg).result.Continue? && (msg.Rejected? || FailsReply(msg))
  }

  /** The authenticators turned to during the run, in order. */
  function Tried(st: State, msgs: seq<Msg>): seq<Logic>
    decreases |msgs|
  {
    if msgs == [] then []
    else
      var st' := HandleStep(st, msgs[0]).st;
      (if Switches(st, msgs[0]) then [st'.logic] else []) + Tried(st', msgs[1..])
  }

  /** `a` results from `b` by leaving elements out. */
  predicate Subsequence<T(==)>(a: seq<T>, b: seq<T>)
    decreases |b|
  {
    a == [] || (b != [] && (if a[0] == b[0] then Subsequence(a[1..], b[1..]) else Subsequence(a, b[1..])))
  }

  lemma {:induction false} SubsequenceRefl<T>(a: seq<T>)
    ensures Subsequence(a, a)
    decreases |a|
  {
    if a != [] { SubsequenceRefl(a[1..]); }
  }

  lemma {:induction false} SubsequenceDrop<T>(a: seq<T>, b: seq<T>)
    requires a != [] && Subsequence(a, b)
    ensures Subsequence(a[1..], b)
    decreases |b|
  {
    if a[0] == b[0] {
      if a[1..] != [] && a[1] == b[0] {
        SubsequenceDrop(a[1..], b[1..]);
        assert a[1..][1..] == a[2..];
      }
    } else {
      SubsequenceDrop(a, b[1..]);
      if a[1..] != [] && a[1] == b[0] {
        SubsequenceDrop(a[1..], b[1..]);
      }
    }
  }

  lemma {:induction false} SubsequenceSkip<T>(a: seq<T>, b: seq<T>)
    requires b != [] && Subsequence(a, b[1..])
    ensures Subsequence(a, b)
  {
    if a != [] && a[0] == b[0] { SubsequenceDrop(a, b[1..]); }
  }

  lemma {:induction false} SubsequenceTrans<T>(a: seq<T>, b: seq<T>, c: seq<T>)
    requires Subsequence(a, b) && Subsequence(b, c)
    ensures Subsequence(a, c)
    decreases |b| + |c|
  {
    if a != [] {
      if b[0] == c[0] {
        if a[0] == b[0] {
          SubsequenceTrans(a[1..], b[1..], c[1..]);
        } else {
          SubsequenceTrans(a, b[1..], c[1..]);
          SubsequenceSkip(a, c);
        }
      } else {
        SubsequenceTrans(a, b, c[1..]);
        SubsequenceSkip(a, c);
      }
    }
  }

  lemma {:induction false} RetainIsSubsequence(q: seq<Logic>, keep: Name -> bool)
    ensures Subsequence(Retain(q, keep), q)
    ensures forall l | l in Retain(q, keep) :: keep(l.name)
    ensures |Retain(q, keep)| <= |q|
    decreases |q|
  {
    if q != [] {
      RetainIsSubsequence(q[1..], keep);
      var r := Retain(q[1..], keep);
      if keep(q[0].name) {
        assert ([q[0]] + r)[1..] == r;
      } else {
        assert [] + r == r;
        SubsequenceSkip(r, q);
      }
    }
  }

  lemma {:induction false} SubsequenceMember<T>(a: seq<T>, b: seq<T>, x: T)
    requires Subsequence(a, b) && x in a
    ensures x in b
    decreases |b|
  {
    if a[0] == b[0] {
      if x != a[0] { SubsequenceMember(a[1..], b[1..], x); }
    } else {
      SubsequenceMember(a, b[1..], x);
    }
  }

  /** The queue only loses elements, and a switch takes the new authenticator from its front. */
  lemma {:induction false} StepShrinks(st: State, msg: Msg)
    ensures var st' := HandleStep(st, msg).st;
            if Switches(st, msg) then Subsequence([st'.logic] + st'.queue, st.queue) && |st'.queue| < |st.queue|
            else Subsequence(st'.queue, st.queue) && st'.logic == st.logic
  {
    var st' := HandleStep(st, msg).st;
    SubsequenceRefl(st.queue);
    match msg {
      case Authenticate(_, _) =>
        var name := st.logic.name;
        RetainIsSubsequence(st.queue, n => n != name);
        if Switches(st, msg) {
          var q := Retain(st.queue, n => n != name);
          assert [st'.logic] + st'.queue == q;
        }
      case Rejected =>
        if st.queue != [] { assert [st'.logic] + st'.queue == st.queue; }
      case Mechanisms(names) =>
        RetainIsSubsequence(st.queue, n => n in names);
      case _ =>
    }
  }

  /** The authenticators tried one after another, and those still waiting after them, form a
      subsequence of the queue the run started with. */
  lemma {:induction false} TriedInOrder(st: State, msgs: seq<Msg>)
    ensures Subsequence(Tried(st, msgs) + Final(st, msgs).queue, st.queue)
    decreases |msgs|
  {
    if msgs == [] {
      assert [] + st.queue == st.queue;
      SubsequenceRefl(st.queue);
    } else {
      var st' := HandleStep(st, msgs[0]).st;
      var later := Tried(st', msgs[1..]) + Final(st', msgs[1..]).queue;
      TriedInOrder(st', msgs[1..]);
      StepShrinks(st, msgs[0]);
      if Switches(st, msgs[0]) {
        var front := [st'.logic] + later;
        assert Tried(st, msgs) + Final(st, msgs).queue == front;
        assert front[1..] == later && ([st'.logic] + st'.queue)[1..] == st'.queue;
        SubsequenceTrans(front, [st'.logic] + st'.queue, st.queue);
      } else {
        assert Tried(st, msgs) + Final(st, msgs).queue == later;
        SubsequenceTrans(later, st'.queue, st.queue);
      }
    }
  }

  /** The reasons other than its turn to take an authenticator out of the queue: it goes by the name
      of a mechanism whose reply has just failed, or the server's list of mechanisms lacks it. */
  predicate RuledOut(st: State, msg: Msg, l: Logic) {
    || (FailsReply(msg) && l.name == st.logic.name)
    || (msg.Mechanisms? && l.name !in msg.names)
  }

  predicate EverRuledOut(st: State, msgs: seq<Msg>, l: Logic)
    decreases |msgs|
  {
    msgs != [] && (RuledOut(st, msgs[0], l) || EverRuledOut(HandleStep(st, msgs[0]).st, msgs[1..], l))
  }

  lemma {:induction false} RetainKeeps(q: seq<Logic>, keep: Name -> bool, l: Logic)
    ensures l in Retain(q, keep) <==> l in q && keep(l.name)
    decreases |q|
  {
    if q != [] { RetainKeeps(q[1..], keep, l); }
  }

  lemma {:induction false} StepKeepsWaiting(st: State, msg: Msg, l: Logic)
    requires l in st.queue && !RuledOut(st, msg, l)
    ensures var st' := HandleStep(st, msg).st;
            l in st'.queue || (Switches(st, msg) && l == st'.logic)
  {
    match msg {
      case Authenticate(_, _) =>
        var name := st.logic.name;
        RetainKeeps(st.queue, n => n != name, l);
      case Mechanisms(names) =>
        RetainKeeps(st.queue, n => n in names, l);
      case _ =>
    }
  }

  /** Over every run an authenticator leaves the queue only by being tried, or by being ruled out. */
  lemma {:induction false} NoneForgotten(st: State, msgs: seq<Msg>, l: Logic)
    requires l in st.queue
    ensures l in Final(st, msgs).queue || l in Tried(st, msgs) || EverRuledOut(st, msgs, l)
    decreases |msgs|
  {
    if msgs != [] && !RuledOut(st, msgs[0], l) {
      var st' := HandleStep(st, msgs[0]).st;
      StepKeepsWaiting(st, msgs[0], l);
      if l in st'.queue { NoneForgotten(st', msgs[1..], l); }
    }
  }

  /** After a list of mechanisms exactly those on it are still waiting, and over every run after it
      nothing else is turned to. */
  lemma {:induction false} UnlistedNotTried(st: State, names: set<Name>, msgs: seq<Msg>, l: Logic)
    ensures var st' := HandleStep(st, Mechanisms(names)).st;
            && (l in st'.queue <==> l in st.queue && l.name in names)
            && (l in Tried(st', msgs) || l in Final(st', msgs).queue ==> l.name in names)
  {
    var st' := HandleStep(st, Mechanisms(names)).st;
    RetainKeeps(st.queue, n => n in names, l);
    TriedInOrder(st', msgs);
    var later := Tried(st', msgs) + Final(st', msgs).queue;
    if l in later { SubsequenceMember(later, st'.queue, l); }
  }

  /** A mechanism whose reply failed is never turned to again under that name. */
  lemma {:induction false} FailedNameNotTriedAgain(st: State, msgs: seq<Msg>, l: Logic)
    requires msgs != [] && FailsReply(msgs[0])
    requires l in Tried(st, msgs) || l in Final(st, msgs).queue
    requires Switches(st, msgs[0])
    ensures l.name != st.logic.name
  {
    var name := st.logic.name;
    var q := Retain(st.queue, n => n != name);
    RetainIsSubsequence(st.queue, n => n != name);
    var st' := HandleStep(st, msgs[0]).st;
    TriedInOrder(st', msgs[1..]);
    var later := Tried(st', msgs[1..]) + Final(st', msgs[1..]).queue;
    if l != st'.logic {
      assert l in later;
      SubsequenceMember(later, st'.queue, l);
    }
    assert l in q;
  }

  /** When authentication is reported as failed or unsupported, no authenticator remains in the
      queue; it is given up as broken with one still waiting only on undecodable base64 or on a
      complaint about length. */
  lemma {:induction false} GivesUpOnlyAtTheEnd(st: State, msg: Msg)
    ensures var s := HandleStep(st, msg);
            && (s.result == Failed(Fail) || s.result == Failed(Unsupported) ==> s.st.queue == [])
            && (s.result.Failed? && s.st.queue != [] <==>
                  st.queue != [] && (msg.TooLong? || (Completes(msg) && msg.verdict.Undecodable?)))
            && (s.result == Failed(Unsupported) ==> msg.Mechanisms? && s.st.logic.name !in msg.names)
  {
  }

  // ---------------------------------------------------------------------------
  // What the decoder holds

  /** Whether the server is in the middle of a challenge after the messages, having been in the
      middle of one before them or not: the last AUTHENTICATE did not complete it. */
  predicate MidChallenge(before: bool, msgs: seq<Msg>)
    decreases |msgs|
  {
    if msgs == [] then before
    else MidChallenge(if msgs[0].Authenticate? then !Completes(msgs[0]) else before, msgs[1..])
  }

  lemma {:induction false} HoldsUnfinished(st: State, msgs: seq<Msg>)
    ensures Final(st, msgs).buf != [] <==> MidChallenge(st.buf != [], msgs)
    decreases |msgs|
  {
    if msgs != [] { HoldsUnfinished(HandleStep(st, msgs[0]).st, msgs[1..]); }
  }

  /** Nothing but a complete challenge empties the decoder. An authenticator turned to in the course
      of a run therefore starts with an empty decoder unless, and only unless, a rejection has cut a
      challenge short. */
  lemma {:induction false} StartsCleanIff(logic: Logic, queue: seq<Logic>, msgs: seq<Msg>, msg: Msg)
    requires Switches(Final(State(queue, logic, []), msgs), msg)
    ensures HandleStep(Final(State(queue, logic, []), msgs), msg).st.buf == [] <==>
            !(msg.Rejected? && MidChallenge(false, msgs))
  {
    HoldsUnfinished(State(queue, logic, []), msgs);
  }

  /** The text handed to the base64 engine, if the message completes a challenge. */
  function Decoded(st: State, msg: Msg): Option<Bytes>
    requires msg.Authenticate?
  {
    if msg.chunk.None? then Some(st.buf) else Add(st.buf, CHUNK, msg.chunk.value).1
  }

  /** A full chunk, then a rejection: the empty challenge to the next authenticator is decoded as
      the chunk meant for the one before it. */
  lemma {:induction false} LeftoverIsDecoded(a: Logic, b: Logic, chunk: Bytes, v: Verdict)
    requires |chunk| == CHUNK
    ensures var msgs := [Authenticate(Some(chunk), v), Rejected];
            var st := Final(State([b], a, []), msgs);
            && IsRun(State([b], a, []), msgs) && st.logic == b
            && Decoded(st, Authenticate(Some(LONE_PLUS), v)) == Some(chunk)
  {
    var st0, full := State([b], a, []), Authenticate(Some(chunk), v);
    var msgs := [full, Rejected];
    assert [] + chunk == chunk;
    var st1 := State([b], a, chunk);
    assert HandleStep(st0, full) == Step(st1, [], Continue);
    assert msgs[1..] == [Rejected] && [Rejected][1..] == [];
    var st2 := State([], b, chunk);
    assert HandleStep(st1, Rejected) == Step(st2, [Start(b.name)], Continue);
    assert IsRun(st2, []) && IsRun(st1, [Rejected]) && Final(st1, [Rejected]) == st2;
  }

  // ---------------------------------------------------------------------------
  // What a step answers

  /** Authentication succeeds exactly on 900, 903 and 907. */
  lemma {:induction false} SucceedsExactly(st: State, msg: Msg)
    ensures HandleStep(st, msg).result.Success? <==> msg.LoggedIn?
  {
  }

  /** Each failure, exactly. */
  lemma {:induction false} FailsExactly(st: State, msg: Msg)
    ensures var r := HandleStep(st, msg).result;
            && (r == Failed(Fail) <==> msg.Rejected? && st.queue == [])
            && (r == Failed(Unsupported) <==>
                  msg.Mechanisms? && forall l | l in [st.logic] + st.queue :: l.name !in msg.names)
            && ((r.Failed? && r.f.Broken?) <==>
                  || msg.TooLong? || (Completes(msg) && msg.verdict.Undecodable?)
                  || (FailsReply(msg) && forall l | l in st.queue :: l.name == st.logic.name))
  {
    if msg.Mechanisms? {
      EmptiedIff(st.queue, n => n in msg.names);
    } else if FailsReply(msg) {
      var name := st.logic.name;
      EmptiedIff(st.queue, n => n != name);
    }
  }

  lemma {:induction false} EmptiedIff(q: seq<Logic>, keep: Name -> bool)
    ensures Retain(q, keep) == [] <==> forall l | l in q :: !keep(l.name)
    decreases |q|
  {
    if q != [] {
      EmptiedIff(q[1..], keep);
      assert forall l :: l in q <==> l == q[0] || l in q[1..];
    }
  }

  /** Each message sent, exactly: the reply to a complete challenge, an abort where there is none,
      and the name of the authenticator at hand after a rejection or an acknowledged abort. */
  lemma {:induction false} SendsExactly(st: State, msg: Msg)
    ensures var s := HandleStep(st, msg);
            && |s.sent| <= 1
            && (forall n :: Data(n) in s.sent <==> Completes(msg) && msg.verdict == Replies(n))
            && (Abort in s.sent <==> Completes(msg) && !msg.verdict.Replies?)
            && (forall name :: Start(name) in s.sent <==>
                  && name == s.st.logic.name
                  && (msg.Aborted? || (msg.Rejected? && st.queue != [])))
  {
  }

  /** What the server was told last: a mechanism by name, or that authentication is aborted. */
  function Told(told: Option<Name>, sent: seq<Out>): Option<Name>
    decreases |sent|
  {
    if sent == [] then told
    else Told(match sent[0]
              case Start(name) => Some(name)
              case Abort => None
              case Data(_) => told, sent[1..])
  }

  function ToldAfter(told: Option<Name>, st: State, msgs: seq<Msg>): Option<Name>
    decreases |msgs|
  {
    if msgs == [] then told
    else ToldAfter(Told(told, HandleStep(st, msgs[0]).sent), HandleStep(st, msgs[0]).st, msgs[1..])
  }

  lemma {:induction false} ToldOne(told: Option<Name>, o: Out)
    ensures Told(told, [o]) == match o
                               case Start(name) => Some(name)
                               case Abort => None
                               case Data(_) => told
  {
    assert [o][1..] == [];
  }

  /** Over every run, the server has been told the authenticator at hand, unless an abort is still
      to be acknowledged. */
  lemma {:induction false} CurrentIsTold(st: State, msgs: seq<Msg>, told: Option<Name>)
    requires IsRun(st, msgs) && (told.Some? ==> told.value == st.logic.name)
    ensures var now := ToldAfter(told, st, msgs);
            now.Some? ==> now.value == Final(st, msgs).logic.name
    decreases |msgs|
  {
    if msgs != [] {
      var s := HandleStep(st, msgs[0]);
      if s.sent != [] { ToldOne(told, s.sent[0]); }
      CurrentIsTold(s.st, msgs[1..], Told(told, s.sent));
    }
  }

  lemma {:induction false} FinalSnoc(st: State, msgs: seq<Msg>, msg: Msg)
    requires IsRun(st, msgs)
    ensures Final(st, msgs + [msg]) == HandleStep(Final(st, msgs), msg).st
    ensures IsRun(st, msgs + [msg]) <==> HandleStep(Final(st, msgs), msg).result.Continue?
    decreases |msgs|
  {
    if msgs == [] {
      assert msgs + [msg] == [msg] && [msg][1..] == [];
      assert Final(st, [msg]) == Final(HandleStep(st, msg).st, []);
    } else {
      assert (msgs + [msg])[1..] == msgs[1..] + [msg];
      FinalSnoc(HandleStep(st, msgs[0]).st, msgs[1..], msg);
    }
  }
}
