/** Connection registration (src/client/register/handler.rs): capability negotiation, SASL and
    the welcome burst, as one step per server message. */
module Register {

  import Sasl
  import opened Strings
  import FlatMaps
  import FlatMapGuards

  type Key = Bytes

  const SASL: Key := [115, 97, 115, 108]
  const STS: Key := [115, 116, 115]

  /** A capability the server named: its value, and whether it has been acknowledged. */
  datatype Cap = Cap(value: string, enabled: bool)

  type Caps = map<Key, Cap>

  /** The capabilities of one CAP message with their values. */
  type Named = map<Key, string>

  datatype CapMsg =
    | LS(last: bool, named: Named)
    | NEW(named: Named)
    | ACK(named: Named)
    | NAK(named: Named)
    | DEL(named: Named)
    | LIST
    | Malformed

  /** The server messages the handler distinguishes. What lies outside the handler comes with the
      message: the next nick of the nick generator, and whether an address parses. */
  datatype Msg =
    | Ping
    | Welcome                          // 001
    | Greeting                         // 002, 003
    | MyInfo                           // 004
    | ISupport                         // 005
    | Redirect                         // 010
    | MotdEnd                          // 376, 422
    | NickRefused(next: Option<string>) // 432, 433, 436
    | NoAccess                         // 464, 465
    | LoggedIn(account: Option<string>, parses: bool) // 900
    | LoggedOut(parses: bool)          // 901
    | SaslRejected                     // 902, 904
    | SaslSuccess                      // 903
    | SaslTooLong                      // 905
    | SaslAborted                      // 906
    | SaslAlready                      // 907
    | SaslMechs(names: set<string>)    // 908
    | Authenticate(chunk: Option<Bytes>, verdict: Sasl.Verdict)
    | CAP(cap: CapMsg)
    | Error                            // ERROR, FAIL and every other error numeric
    | Other

  datatype Out =
    | Pong
    | ChangeNick(nick: string)
    | CapReq(caps: set<Key>)           // the burst that cap::req makes of the set
    | CapEnd
    | Auth(out: Sasl.Out)

  datatype Problem =
    | NoLogin | NoNicks | NoAccessGiven | Broken
    | MissingCaps(missing: set<Key>) | ServerError

  /** What a step comes to. `Crash` is a panic of the capability map. */
  datatype Outcome = Continue | Done(account: Option<string>) | Fail(problem: Problem) | Crash

  datatype Phase =
    | Lost                             // the placeholder the original calls Broken
    | Req(auths: seq<Sasl.Logic>)
    | Ack(pending: set<Key>, auths: seq<Sasl.Logic>)
    | InSasl(sasl: Sasl.State)
    | AtCapEnd
    | AwaitWelcome
    | AwaitEnd

  /** `require` is the caller's choice of capabilities among those available, `mechs` the
      mechanisms that a value of the sasl capability lists. */
  datatype Config = Config(needsAuth: bool, require: set<Key> -> set<Key>, mechs: string -> set<string>)

  datatype State = State(phase: Phase, account: Option<string>, caps: Caps)

  datatype Step = Step(st: State, sent: seq<Out>, outcome: Outcome)

  // ---------------------------------------------------------------------------
  // The capability map

  /** `try_insert` of every named capability. */
  function Offer(caps: Caps, named: Named): Caps {
    (map k | k in named :: Cap(named[k], false)) + caps
  }

  /** `insert_or_update` of every named capability: a known one keeps its value. */
  function Enable(caps: Caps, named: Named): Caps {
    caps + (map k | k in named :: Cap(if k in caps then caps[k].value else named[k], true))
  }

  lemma {:induction false} OfferOneMore(caps: Caps, named: Named, k: Key, v: string)
    requires k !in named
    ensures Offer(caps, named[k := v]) ==
            if k in caps then Offer(caps, named) else Offer(caps, named)[k := Cap(v, false)]
  {
  }

  lemma {:induction false} EnableOneMore(caps: Caps, named: Named, k: Key, v: string)
    requires k !in named
    ensures Enable(caps, named[k := v]) ==
            Enable(caps, named)[k := Cap(if k in caps then caps[k].value else v, true)]
  {
  }

  // ---------------------------------------------------------------------------
  // Parts of a step

  /** What the SASL handler makes of a message. */
  function SaslView(msg: Msg): Sasl.Msg {
    match msg
    case Authenticate(chunk, verdict) => Sasl.Authenticate(chunk, verdict)
    case SaslRejected => Sasl.Rejected
    case SaslTooLong => Sasl.TooLong
    case SaslAborted => Sasl.Aborted
    case SaslMechs(names) => Sasl.Mechanisms(names)
    case LoggedIn(_, _) => Sasl.LoggedIn
    case SaslSuccess => Sasl.LoggedIn
    case SaslAlready => Sasl.LoggedIn
    case _ => Sasl.Other
  }

  function Wrap(outs: seq<Sasl.Out>): seq<Out> {
    seq(|outs|, i requires 0 <= i < |outs| => Auth(outs[i]))
  }

  /** The SASL handler sees every message while it is active; any end of it ends negotiation. */
  function SaslPart(ph: Phase, msg: Msg): (Phase, seq<Out>) {
    if !ph.InSasl? then (ph, [])
    else
      var s := Sasl.HandleStep(ph.sasl, SaslView(msg));
      (if s.result.Continue? then InSasl(s.st) else AtCapEnd, Wrap(s.sent))
  }

  /** `HandlerState::ack` for an ACK. */
  function AckPart(ph: Phase, keys: set<Key>): (Phase, seq<Out>) {
    if !ph.Ack? then (ph, [])
    else
      var pending := ph.pending - keys;
      if pending != {} then (Ack(pending, ph.auths), [])
      else if ph.auths == [] then (AtCapEnd, [])
      else (InSasl(Sasl.State(ph.auths[1..], ph.auths[0], [])), [Auth(Sasl.Start(ph.auths[0].name))])
  }

  /** `HandlerState::ack` for a NAK or DEL: naming a pending capability is an error. */
  function OnRefusal(st: State, keys: set<Key>): Step {
    if st.phase.Ack? && st.phase.pending * keys != {} then
      Step(st, [], Fail(MissingCaps(st.phase.pending * keys)))
    else
      var (ph, sent) := AckPart(st.phase, {});
      Step(st.(phase := ph), sent, Continue)
  }

  /** The authenticators left once the server's list of mechanisms is known. */
  function Usable(cfg: Config, caps: Caps, auths: seq<Sasl.Logic>): seq<Sasl.Logic> {
    if SASL !in caps then []
    else
      var mechs := cfg.mechs(caps[SASL].value);
      Sasl.Retain(auths, n => n in mechs)
  }

  /** The last line of a CAP LS reply, the capabilities already entered. */
  function LastLs(cfg: Config, st: State): Step {
    if !st.phase.Req? then Step(st, [], Continue)
    else
      var auths := Usable(cfg, st.caps, st.phase.auths);
      var lost := st.(phase := Lost);
      var wanted := cfg.require(st.caps.Keys) + (if auths != [] then {SASL} else {});
      if auths == [] && cfg.needsAuth then Step(lost, [], Fail(NoLogin))
      else if wanted - st.caps.Keys != {} then Step(lost, [], Fail(MissingCaps(wanted - st.caps.Keys)))
      else if wanted - {STS} == {} then Step(st.(phase := AtCapEnd), [], Continue)
      else Step(st.(phase := Ack(wanted - {STS}, auths)), [CapReq(wanted - {STS})], Continue)
  }

  /** Removing a second key from an open capability map panics. */
  predicate TwoPresent(caps: Caps, named: Named) {
    exists a, b | a in named && b in named :: a != b && a in caps && b in caps
  }

  function OnCap(cfg: Config, st: State, cap: CapMsg): Step {
    match cap
    case LS(last, named) =>
      var st' := st.(caps := Offer(st.caps, named));
      if last then LastLs(cfg, st') else Step(st', [], Continue)
    case NEW(named) => Step(st.(caps := Offer(st.caps, named)), [], Continue)
    case ACK(named) =>
      var (ph, sent) := AckPart(st.phase, named.Keys);
      Step(st.(phase := ph, caps := Enable(st.caps, named)), sent, Continue)
    case NAK(named) =>
      OnRefusal(st, named.Keys)
    case DEL(named) =>
      if TwoPresent(st.caps, named) then Step(st, [], Crash)
      else OnRefusal(st.(caps := st.caps - named.Keys), named.Keys)
    case LIST => Step(st, [], Fail(Broken))
    case Malformed => Step(st, [], Fail(Broken))
  }

  function OnMsg(cfg: Config, st: State, msg: Msg, inSasl: bool): Step {
    if (msg.Welcome? || msg.Greeting? || msg.MyInfo?) && cfg.needsAuth && st.account.None? then
      Step(st, [], Fail(NoLogin))
    else
      match msg
      case Welcome => Step(st.(phase := AwaitEnd), [], Continue)
      case MyInfo => Step(st, [], if st.phase.AwaitEnd? then Continue else Fail(Broken))
      case ISupport => Step(st, [], if st.phase.AwaitEnd? then Continue else Fail(ServerError))
      case Redirect => Step(st, [], Fail(ServerError))
      case MotdEnd =>
        if st.phase.AwaitEnd? then Step(State(AwaitEnd, None, map[]), [], Done(st.account))
        else Step(st, [], Fail(Broken))
      case NickRefused(None) => Step(st, [], Fail(NoNicks))
      case NickRefused(Some(n)) => Step(st, [ChangeNick(n)], Continue)
      case NoAccess => Step(st, [], Fail(NoAccessGiven))
      case LoggedIn(account, parses) =>
        if account.None? then Step(st, [], Continue)
        else Step(st.(account := account), [], if parses then Continue else Fail(Broken))
      case LoggedOut(parses) =>
        Step(st.(account := None), [], if parses then Continue else Fail(Broken))
      case SaslRejected => Step(st, [], if inSasl then Continue else Fail(ServerError))
      case SaslTooLong => Step(st, [], if inSasl then Continue else Fail(ServerError))
      case SaslAborted => Step(st, [], if inSasl then Continue else Fail(ServerError))
      case SaslAlready => Step(st, [], if inSasl then Continue else Fail(ServerError))
      case CAP(cap) => OnCap(cfg, st, cap)
      case Error => Step(st, [], Fail(ServerError))
      case _ => Step(st, [], Continue)
  }

  /** Negotiation that has ended is closed with CAP END, unless a login is still missing. */
  function Close(cfg: Config, s: Step): Step {
    if s.outcome.Fail? || s.outcome.Crash? || !s.st.phase.AtCapEnd? then s
    else if cfg.needsAuth && s.st.account.None? then s.(outcome := Fail(NoLogin))
    else s.(st := s.st.(phase := AwaitWelcome), sent := s.sent + [CapEnd])
  }

  /** One server message. */
  function HandleStep(cfg: Config, st: State, msg: Msg): Step {
    if msg.Ping? then Step(st, [Pong], Continue)
    else
      var (ph, sent) := SaslPart(st.phase, msg);
      var s := OnMsg(cfg, st.(phase := ph), msg, st.phase.InSasl?);
      Close(cfg, s.(sent := sent + s.sent))
  }

  // ---------------------------------------------------------------------------
  // What an observer of the connection can tell

  /** Everything here is computed from the messages received and sent, never from the handler's
      own state. */
  datatype History = History(
    known: set<Key>,      // named by LS, NEW or ACK and not deleted since
    offered: set<Key>,    // what was known when the request went out
    requested: set<Key>,
    acked: set<Key>,      // named by an ACK after the request
    reqs: nat,            // CAP REQ bursts sent
    ends: nat,            // CAP ENDs sent
    account: Option<string>, // of the last 900, unless a 901 followed
    welcomed: bool,       // a 001 came
    loggedOut: bool)      // a 901 came after the last 001

  const START: History := History({}, {}, {}, {}, 0, 0, None, false, false)

  function KnownAfter(known: set<Key>, msg: Msg): set<Key> {
    if !msg.CAP? then known
    else match msg.cap
      case LS(_, named) => known + named.Keys
      case NEW(named) => known + named.Keys
      case ACK(named) => known + named.Keys
      case DEL(named) => known - named.Keys
      case _ => known
  }

  function AckedBy(msg: Msg): set<Key> {
    if msg.CAP? && msg.cap.ACK? then msg.cap.named.Keys else {}
  }

  function RequestedIn(sent: seq<Out>): set<Key> {
    if sent == [] then {}
    else (if sent[0].CapReq? then sent[0].caps else {}) + RequestedIn(sent[1..])
  }

  function CountReqs(sent: seq<Out>): nat {
    if sent == [] then 0 else (if sent[0].CapReq? then 1 else 0) + CountReqs(sent[1..])
  }

  function CountEnds(sent: seq<Out>): nat {
    if sent == [] then 0 else (if sent[0].CapEnd? then 1 else 0) + CountEnds(sent[1..])
  }

  function AccountAfter(account: Option<string>, msg: Msg): Option<string> {
    if msg.LoggedIn? && msg.account.Some? then msg.account
    else if msg.LoggedOut? then None
    else account
  }

  function Observe(h: History, msg: Msg, sent: seq<Out>): History {
    var known := KnownAfter(h.known, msg);
    History(
      known,
      if CountReqs(sent) > 0 then known else h.offered,
      h.requested + RequestedIn(sent),
      if h.reqs > 0 then h.acked + AckedBy(msg) else h.acked,
      h.reqs + CountReqs(sent),
      h.ends + CountEnds(sent),
      AccountAfter(h.account, msg),
      h.welcomed || msg.Welcome?,
      !msg.Welcome? && (h.loggedOut || msg.LoggedOut?))
  }

  // ---------------------------------------------------------------------------
  // What every step keeps

  /** The place of a phase in the order of registration. */
  function Rank(ph: Phase): int {
    match ph
    case Lost => -1
    case Req(_) => 0
    case Ack(_, _) => 1
    case InSasl(_) => 2
    case AtCapEnd => 3
    case AwaitWelcome => 4
    case AwaitEnd => 5
  }

  /** What the history says of the phase the handler is in. Within a step it may be AtCapEnd. */
  ghost predicate PhaseFits(ph: Phase, h: History) {
    match ph
    case Lost => false
    case AtCapEnd => h.reqs <= 1 && h.ends == 0 && !h.welcomed
    case Req(_) => h.reqs == 0 && h.ends == 0 && !h.welcomed
    case Ack(pending, auths) =>
      && h.reqs == 1 && h.ends == 0 && !h.welcomed
      && pending != {} && pending == h.requested - h.acked
      && (auths != [] ==> SASL in h.requested)
    case InSasl(_) =>
      && h.reqs == 1 && h.ends == 0 && !h.welcomed
      && h.requested <= h.acked && SASL in h.requested
    case AwaitWelcome => h.reqs <= 1 && h.ends == 1 && !h.welcomed
    case AwaitEnd => h.reqs <= 1 && h.ends <= 1 && h.welcomed
  }

  /** What holds within a step. */
  ghost predicate Within(cfg: Config, st: State, h: History) {
    && PhaseFits(st.phase, h)
    && st.caps.Keys == h.known
    && st.account == h.account
    && h.requested <= h.offered && STS !in h.requested
    && (h.reqs == 0 ==> h.requested == {} && h.acked == {})
    && (cfg.needsAuth && st.phase.AwaitEnd? && !h.loggedOut ==> st.account.Some?)
  }

  /** What holds between steps. */
  ghost predicate Inv(cfg: Config, st: State, h: History) {
    Within(cfg, st, h) && !st.phase.AtCapEnd?
  }

  /** What was sent holds only SASL messages. */
  predicate OnlyAuth(sent: seq<Out>) {
    forall i | 0 <= i < |sent| :: sent[i].Auth?
  }

  lemma {:induction false} CountsAppend(a: seq<Out>, b: seq<Out>)
    ensures CountReqs(a + b) == CountReqs(a) + CountReqs(b)
    ensures CountEnds(a + b) == CountEnds(a) + CountEnds(b)
    ensures RequestedIn(a + b) == RequestedIn(a) + RequestedIn(b)
    decreases |a|
  {
    if a == [] {
      assert a + b == b;
    } else {
      assert (a + b)[1..] == a[1..] + b && (a + b)[0] == a[0];
      CountsAppend(a[1..], b);
    }
  }

  lemma {:induction false} AuthCountsNothing(a: seq<Out>)
    requires OnlyAuth(a)
    ensures CountReqs(a) == 0 && CountEnds(a) == 0 && RequestedIn(a) == {}
    decreases |a|
  {
    if a != [] { AuthCountsNothing(a[1..]); }
  }

  lemma {:induction false} CountsOne(o: Out)
    ensures CountReqs([o]) == if o.CapReq? then 1 else 0
    ensures CountEnds([o]) == if o.CapEnd? then 1 else 0
    ensures RequestedIn([o]) == if o.CapReq? then o.caps else {}
  {
    assert [o][1..] == [];
  }

  /** SASL messages in front leave no trace in the history, CAP END at the end one. */
  lemma {:induction false} ObserveParts(h: History, msg: Msg, auth: seq<Out>, sent: seq<Out>)
    requires OnlyAuth(auth)
    ensures Observe(h, msg, auth + sent) == Observe(h, msg, sent)
    ensures var h' := Observe(h, msg, sent);
            Observe(h, msg, sent + [CapEnd]) == h'.(ends := h'.ends + 1)
  {
    AuthCountsNothing(auth);
    CountsAppend(auth, sent);
    CountsAppend(sent, [CapEnd]);
    CountsOne(CapEnd);
  }

  lemma {:induction false} SaslPartKeeps(ph: Phase, msg: Msg, h: History)
    requires PhaseFits(ph, h) && !ph.AtCapEnd?
    ensures var (ph', sent) := SaslPart(ph, msg);
            && PhaseFits(ph', h) && OnlyAuth(sent)
            && Rank(ph) <= Rank(ph')
            && (ph'.AwaitEnd? <==> ph.AwaitEnd?)
            && (ph'.AtCapEnd? ==> !msg.Welcome? && !msg.CAP?)
  {
  }

  lemma {:induction false} LastLsKeeps(cfg: Config, st: State, h: History, msg: Msg)
    requires Within(cfg, st, h.(known := st.caps.Keys)) && !st.phase.AtCapEnd?
    requires msg.CAP? && msg.cap.LS? && KnownAfter(h.known, msg) == st.caps.Keys
    ensures var s := LastLs(cfg, st);
            s.outcome.Continue? ==> Within(cfg, s.st, Observe(h, msg, s.sent)) && Rank(st.phase) <= Rank(s.st.phase)
  {
    var s := LastLs(cfg, st);
    if s.outcome.Continue? && s.sent != [] {
      CountsOne(s.sent[0]);
    }
  }

  lemma {:induction false} AckKeeps(cfg: Config, st: State, h: History, named: Named)
    requires Within(cfg, st, h) && !st.phase.AtCapEnd?
    ensures var s := OnCap(cfg, st, ACK(named));
            Within(cfg, s.st, Observe(h, CAP(ACK(named)), s.sent)) && Rank(st.phase) <= Rank(s.st.phase)
  {
    var s := OnCap(cfg, st, ACK(named));
    if s.sent != [] { CountsOne(s.sent[0]); }
    assert s.st.caps.Keys == h.known + named.Keys;
  }

  lemma {:induction false} OnCapKeeps(cfg: Config, st: State, h: History, cap: CapMsg)
    requires Within(cfg, st, h) && !st.phase.AtCapEnd?
    ensures var s := OnCap(cfg, st, cap);
            s.outcome.Continue? ==>
              Within(cfg, s.st, Observe(h, CAP(cap), s.sent)) && Rank(st.phase) <= Rank(s.st.phase)
  {
    var s := OnCap(cfg, st, cap);
    match cap {
      case LS(last, named) =>
        assert Offer(st.caps, named).Keys == h.known + named.Keys;
        if last { LastLsKeeps(cfg, st.(caps := Offer(st.caps, named)), h, CAP(cap)); }
      case NEW(named) =>
        assert Offer(st.caps, named).Keys == h.known + named.Keys;
      case ACK(named) => AckKeeps(cfg, st, h, named);
      case DEL(named) =>
        assert (st.caps - named.Keys).Keys == h.known - named.Keys;
      case _ =>
    }
  }

  lemma {:induction false} OnMsgKeeps(cfg: Config, st: State, h: History, msg: Msg, inSasl: bool)
    requires Within(cfg, st, h) && !msg.Ping?
    requires st.phase.AtCapEnd? ==> !msg.Welcome? && !msg.CAP?
    ensures var s := OnMsg(cfg, st, msg, inSasl);
            s.outcome.Continue? ==>
              && Within(cfg, s.st, Observe(h, msg, s.sent)) && Rank(st.phase) <= Rank(s.st.phase)
  {
    var s := OnMsg(cfg, st, msg, inSasl);
    if msg.CAP? {
      OnCapKeeps(cfg, st, h, msg.cap);
    } else if s.outcome.Continue? && s.sent != [] {
      CountsOne(s.sent[0]);
    }
  }

  lemma {:induction false} CloseKeeps(cfg: Config, s: Step, h: History, msg: Msg, auth: seq<Out>)
    requires OnlyAuth(auth)
    requires s.outcome.Continue? ==> Within(cfg, s.st, Observe(h, msg, s.sent))
    ensures var c := Close(cfg, s.(sent := auth + s.sent));
            c.outcome.Continue? ==>
              && s.outcome.Continue? && Rank(s.st.phase) <= Rank(c.st.phase)
              && Inv(cfg, c.st, Observe(h, msg, c.sent))
  {
    ObserveParts(h, msg, auth, s.sent);
    ObserveParts(h, msg, auth, auth + s.sent);
  }

  /** Every step that asks for more keeps the invariant, which rules out the phases AtCapEnd and
      Lost, and never moves back. */
  lemma {:induction false} StepKeeps(cfg: Config, st: State, h: History, msg: Msg)
    requires Inv(cfg, st, h)
    ensures var s := HandleStep(cfg, st, msg);
            s.outcome.Continue? ==>
              Inv(cfg, s.st, Observe(h, msg, s.sent)) && Rank(st.phase) <= Rank(s.st.phase)
  {
    if msg.Ping? {
      CountsOne(Pong);
    } else {
      var (ph, auth) := SaslPart(st.phase, msg);
      SaslPartKeeps(st.phase, msg, h);
      var mid := st.(phase := ph);
      OnMsgKeeps(cfg, mid, h, msg, st.phase.InSasl?);
      CloseKeeps(cfg, OnMsg(cfg, mid, msg, st.phase.InSasl?), h, msg, auth);
    }
  }

  // ---------------------------------------------------------------------------
  // Whole runs

  /** The handler as it starts. */
  function Initial(auths: seq<Sasl.Logic>): State {
    State(Req(auths), None, map[])
  }

  /** State and history after the messages, if the handler asked for more after each of them. */
  function After(cfg: Config, st: State, h: History, msgs: seq<Msg>): Option<(State, History)>
    decreases |msgs|
  {
    if msgs == [] then Some((st, h))
    else
      var s := HandleStep(cfg, st, msgs[0]);
      if s.outcome.Continue? then After(cfg, s.st, Observe(h, msgs[0], s.sent), msgs[1..]) else None
  }

  /** Whatever the server sends, registration only moves forward: Req, Ack, Sasl, AwaitWelcome,
      AwaitEnd. */
  lemma {:induction false} RunKeeps(cfg: Config, st: State, h: History, msgs: seq<Msg>)
    requires Inv(cfg, st, h)
    ensures var r := After(cfg, st, h, msgs);
            r.Some? ==> Inv(cfg, r.value.0, r.value.1) && Rank(st.phase) <= Rank(r.value.0.phase)
    decreases |msgs|
  {
    if msgs != [] {
      var s := HandleStep(cfg, st, msgs[0]);
      StepKeeps(cfg, st, h, msgs[0]);
      if s.outcome.Continue? { RunKeeps(cfg, s.st, Observe(h, msgs[0], s.sent), msgs[1..]); }
    }
  }

  /** The handling proper never sends CAP END, and a request only when it goes on to wait for the
      answer. */
  lemma {:induction false} BodySends(cfg: Config, st: State, msg: Msg, inSasl: bool)
    ensures var s := OnMsg(cfg, st, msg, inSasl);
            CountEnds(s.sent) == 0 && (CountReqs(s.sent) > 0 ==> s.outcome.Continue? && s.st.phase.Ack?)
  {
    var s := OnMsg(cfg, st, msg, inSasl);
    if s.sent != [] { CountsOne(s.sent[0]); }
  }

  lemma {:induction false} CloseSends(cfg: Config, s: Step, auth: seq<Out>)
    requires OnlyAuth(auth) && CountEnds(s.sent) == 0
    requires CountReqs(s.sent) > 0 ==> s.outcome.Continue? && s.st.phase.Ack?
    ensures var c := Close(cfg, s.(sent := auth + s.sent));
            && (CountReqs(c.sent) > 0 || CountEnds(c.sent) > 0 ==> !c.outcome.Fail? && !c.outcome.Crash?)
            && (CountEnds(c.sent) > 0 ==> c.st.phase.AwaitWelcome? && (cfg.needsAuth ==> c.st.account.Some?))
            && (CountReqs(c.sent) > 0 ==> c.outcome.Continue?)
  {
    AuthCountsNothing(auth);
    CountsAppend(auth, s.sent);
    CountsAppend(auth + s.sent, [CapEnd]);
    CountsOne(CapEnd);
  }

  /** A step that ends registration in failure sends neither a request nor CAP END, and CAP END
      is not sent while a needed login is missing. */
  lemma {:induction false} StepSends(cfg: Config, st: State, msg: Msg)
    ensures var s := HandleStep(cfg, st, msg);
            && (s.outcome.Fail? || s.outcome.Crash? ==> CountReqs(s.sent) == 0 && CountEnds(s.sent) == 0)
            && (CountEnds(s.sent) > 0 ==> s.st.phase.AwaitWelcome? && (cfg.needsAuth ==> s.st.account.Some?))
            && (CountReqs(s.sent) > 0 ==> s.outcome.Continue?)
  {
    if msg.Ping? {
      CountsOne(Pong);
    } else {
      var (ph, auth) := SaslPart(st.phase, msg);
      var mid := st.(phase := ph);
      BodySends(cfg, mid, msg, st.phase.InSasl?);
      CloseSends(cfg, OnMsg(cfg, mid, msg, st.phase.InSasl?), auth);
    }
  }

  /** Registration is done only at the end of the message of the day in AwaitEnd. */
  lemma {:induction false} DoneExactly(cfg: Config, st: State, msg: Msg)
    requires !st.phase.AtCapEnd?
    ensures var s := HandleStep(cfg, st, msg);
            && (s.outcome.Done? <==> msg.MotdEnd? && st.phase.AwaitEnd?)
            && (s.outcome.Done? ==> s.outcome.account == st.account && s.sent == [])
  {
  }

  lemma {:induction false} OnceMore(cfg: Config, st: State, h: History, msg: Msg)
    requires Inv(cfg, st, h)
    ensures var h' := Observe(h, msg, HandleStep(cfg, st, msg).sent);
            h'.reqs <= 1 && h'.ends <= 1 && (h'.ends > h.ends ==> !h.welcomed)
  {
    StepKeeps(cfg, st, h, msg);
    StepSends(cfg, st, msg);
    DoneExactly(cfg, st, msg);
    var s := HandleStep(cfg, st, msg);
    if s.outcome.Continue? {
      var h' := Observe(h, msg, s.sent);
      assert Inv(cfg, s.st, h');
    }
  }

  /** At any point of any run, the step under way included: at most one CAP REQ burst and at most
      one CAP END were sent, `sts` was not requested, and nothing but what the server had named. */
  lemma {:induction false} NegotiatesOnce(cfg: Config, auths: seq<Sasl.Logic>, msgs: seq<Msg>, msg: Msg)
    requires After(cfg, Initial(auths), START, msgs).Some?
    ensures var (st, h) := After(cfg, Initial(auths), START, msgs).value;
            var h' := Observe(h, msg, HandleStep(cfg, st, msg).sent);
            && !st.phase.Lost? && !st.phase.AtCapEnd?
            && h'.reqs <= 1 && h'.ends <= 1
            && h.requested <= h.offered && STS !in h.requested
            && (h'.ends > h.ends ==> !h.welcomed)
  {
    RunKeeps(cfg, Initial(auths), START, msgs);
    var (st, h) := After(cfg, Initial(auths), START, msgs).value;
    OnceMore(cfg, st, h, msg);
  }

  /** While acknowledgements are awaited, those pending are exactly the requested capabilities not
      acknowledged yet, and there is one; SASL begins only once `sasl` itself has been both. */
  lemma {:induction false} PendingIsExact(cfg: Config, auths: seq<Sasl.Logic>, msgs: seq<Msg>)
    requires After(cfg, Initial(auths), START, msgs).Some?
    ensures var (st, h) := After(cfg, Initial(auths), START, msgs).value;
            && (st.phase.Ack? ==> st.phase.pending != {} && st.phase.pending == h.requested - h.acked)
            && (st.phase.InSasl? ==> SASL in h.requested && h.requested <= h.acked)
  {
    RunKeeps(cfg, Initial(auths), START, msgs);
  }

  /** However the server spreads its acknowledgements over messages, the handler stops waiting
      exactly with the one that completes them; a refusal of a pending capability ends the run,
      and any other refusal changes nothing. */
  lemma {:induction false} AckedExactly(cfg: Config, auths: seq<Sasl.Logic>, msgs: seq<Msg>, named: Named)
    requires After(cfg, Initial(auths), START, msgs).Some?
    requires After(cfg, Initial(auths), START, msgs).value.0.phase.Ack?
    ensures var (st, h) := After(cfg, Initial(auths), START, msgs).value;
            var acked := HandleStep(cfg, st, CAP(ACK(named)));
            var refused := HandleStep(cfg, st, CAP(NAK(named)));
            && (acked.st.phase.Ack? <==> !(h.requested <= h.acked + named.Keys))
            && (refused.outcome.Fail? <==> !(h.requested * named.Keys <= h.acked))
            && (!refused.outcome.Fail? ==> refused == Step(st, [], Continue))
  {
    RunKeeps(cfg, Initial(auths), START, msgs);
    var (st, h) := After(cfg, Initial(auths), START, msgs).value;
    AckStepExact(cfg, st, named);
    SetFacts(h.requested, h.acked, named.Keys);
  }

  lemma {:induction false} AckStepExact(cfg: Config, st: State, named: Named)
    requires st.phase.Ack? && st.phase.pending != {}
    ensures var acked := HandleStep(cfg, st, CAP(ACK(named)));
            acked.st.phase.Ack? <==> st.phase.pending - named.Keys != {}
    ensures var refused := HandleStep(cfg, st, CAP(NAK(named)));
            if st.phase.pending * named.Keys != {} then refused.outcome.Fail?
            else refused == Step(st, [], Continue)
  {
    assert st.phase.pending - {} == st.phase.pending;
    var none: seq<Out> := [];
    assert none + none == none;
  }

  lemma {:induction false} SetFacts(requested: set<Key>, acked: set<Key>, keys: set<Key>)
    ensures (requested - acked) - keys == {} <==> requested <= acked + keys
    ensures (requested - acked) * keys == {} <==> requested * keys <= acked
  {
    if !(requested <= acked + keys) {
      var k :| k in requested && k !in acked + keys;
      assert k in (requested - acked) - keys;
    }
    if !(requested * keys <= acked) {
      var k :| k in requested * keys && k !in acked;
      assert k in (requested - acked) * keys;
    }
  }

  /** Registration is reported only after a 001, with the account of the last 900 unless a 901
      followed it; if a login is needed and no 901 came after the 001, there is an account. */
  lemma {:induction false} SuccessAfterWelcome(cfg: Config, auths: seq<Sasl.Logic>, msgs: seq<Msg>, msg: Msg)
    requires After(cfg, Initial(auths), START, msgs).Some?
    requires HandleStep(cfg, After(cfg, Initial(auths), START, msgs).value.0, msg).outcome.Done?
    ensures var (st, h) := After(cfg, Initial(auths), START, msgs).value;
            var account := HandleStep(cfg, st, msg).outcome.account;
            && msg.MotdEnd? && h.welcomed && account == h.account
            && (cfg.needsAuth && !h.loggedOut ==> account.Some?)
  {
    RunKeeps(cfg, Initial(auths), START, msgs);
    DoneExactly(cfg, After(cfg, Initial(auths), START, msgs).value.0, msg);
  }

  /** With a login needed, no step sends CAP END or answers a 001 with anything but an error while
      there is no account, whatever state the handler is in. */
  lemma {:induction false} NoEndWithoutLogin(cfg: Config, st: State, msg: Msg)
    requires cfg.needsAuth
    ensures var s := HandleStep(cfg, st, msg);
            && (CountEnds(s.sent) > 0 ==> s.st.account.Some?)
            && (s.outcome.Continue? && s.st.phase.AwaitEnd? && !st.phase.AwaitEnd? ==> s.st.account.Some?)
            && (msg.Welcome? && st.account.None? ==> s.outcome == Fail(NoLogin))
  {
    StepSends(cfg, st, msg);
  }

  // ---------------------------------------------------------------------------
  // Asking for a login

  /** The configuration `Register::handler` makes of a caller's wish to fail without a login: the
      wish counts only if there is no authenticator. */
  function Made(wish: bool, auths: seq<Sasl.Logic>, require: set<Key> -> set<Key>,
                mechs: string -> set<string>): Config {
    Config(wish && auths == [], require, mechs)
  }

  /** The run completes without an account although no 901 came after the 001. */
  ghost predicate CompletesBare(cfg: Config, auths: seq<Sasl.Logic>, msgs: seq<Msg>, msg: Msg) {
    var r := After(cfg, Initial(auths), START, msgs);
    r.Some? && !r.value.1.loggedOut && HandleStep(cfg, r.value.0, msg).outcome == Done(None)
  }

  /** The wish for a login is honoured, whatever the server sends, if and only if it counts. */
  lemma {:induction false} LoginEnforcedIff(wish: bool, auths: seq<Sasl.Logic>, require: set<Key> -> set<Key>,
                         mechs: string -> set<string>)
    ensures var cfg := Made(wish, auths, require, mechs);
            (forall msgs, msg :: !CompletesBare(cfg, auths, msgs, msg)) <==> wish && auths == []
  {
    var cfg := Made(wish, auths, require, mechs);
    if cfg.needsAuth {
      forall msgs, msg ensures !CompletesBare(cfg, auths, msgs, msg) {
        NotBare(cfg, auths, msgs, msg);
      }
    } else {
      WelcomeAndDone(cfg, auths);
    }
  }

  lemma {:induction false} NotBare(cfg: Config, auths: seq<Sasl.Logic>, msgs: seq<Msg>, msg: Msg)
    requires cfg.needsAuth
    ensures !CompletesBare(cfg, auths, msgs, msg)
  {
    var r := After(cfg, Initial(auths), START, msgs);
    if r.Some? && HandleStep(cfg, r.value.0, msg).outcome.Done? {
      SuccessAfterWelcome(cfg, auths, msgs, msg);
    }
  }

  /** The shortest complete run: a 001 and the end of the message of the day. */
  lemma {:induction false} WelcomeAndDone(cfg: Config, auths: seq<Sasl.Logic>)
    requires !cfg.needsAuth
    ensures CompletesBare(cfg, auths, [Welcome], MotdEnd)
  {
    AfterWelcome(cfg, auths);
    BareAt(cfg, auths, [Welcome], State(AwaitEnd, None, map[]), Observe(START, Welcome, []));
  }

  lemma {:induction false} BareAt(cfg: Config, auths: seq<Sasl.Logic>, msgs: seq<Msg>, st: State, h: History)
    requires After(cfg, Initial(auths), START, msgs) == Some((st, h)) && !h.loggedOut
    requires st.phase.AwaitEnd? && st.account.None?
    ensures CompletesBare(cfg, auths, msgs, MotdEnd)
  {
    DoneExactly(cfg, st, MotdEnd);
  }

  lemma {:induction false} AfterWelcome(cfg: Config, auths: seq<Sasl.Logic>)
    requires !cfg.needsAuth
    ensures After(cfg, Initial(auths), START, [Welcome])
            == Some((State(AwaitEnd, None, map[]), Observe(START, Welcome, [])))
  {
    WelcomeStep(cfg, auths);
    AfterOne(cfg, Initial(auths), START, Welcome);
  }

  lemma {:induction false} WelcomeStep(cfg: Config, auths: seq<Sasl.Logic>)
    requires !cfg.needsAuth
    ensures HandleStep(cfg, Initial(auths), Welcome) == Step(State(AwaitEnd, None, map[]), [], Continue)
  {
  }

  lemma {:induction false} AfterOne(cfg: Config, st: State, h: History, msg: Msg)
    ensures var s := HandleStep(cfg, st, msg);
            s.outcome.Continue? ==> After(cfg, st, h, [msg]) == Some((s.st, Observe(h, msg, s.sent)))
  {
    assert [msg][1..] == [];
  }

  /** Where a login is needed and there is no authenticator, the end of the server's capability list
      always ends registration. */
  lemma {:induction false} NoAuthenticatorNoList(cfg: Config, st: State, h: History, msgs: seq<Msg>, named: Named)
    requires cfg.needsAuth && (st.phase.Req? ==> st.phase.auths == [])
    ensures var r := After(cfg, st, h, msgs);
            r.Some? && r.value.0.phase.Req? ==>
              HandleStep(cfg, r.value.0, CAP(LS(true, named))).outcome == Fail(NoLogin)
    decreases |msgs|
  {
    if msgs == [] {
      ListWithoutAuths(cfg, st, named);
    } else {
      var s := HandleStep(cfg, st, msgs[0]);
      if s.outcome.Continue? {
        ReqStays(cfg, st, msgs[0]);
        NoAuthenticatorNoList(cfg, s.st, Observe(h, msgs[0], s.sent), msgs[1..], named);
      }
    }
  }

  /** So where the wish counts, it lets no registration get beyond the list. */
  lemma {:induction false} WishEndsAtList(require: set<Key> -> set<Key>, mechs: string -> set<string>,
                                          msgs: seq<Msg>, named: Named)
    ensures var cfg := Made(true, [], require, mechs);
            var r := After(cfg, Initial([]), START, msgs);
            r.Some? && r.value.0.phase.Req? ==>
              HandleStep(cfg, r.value.0, CAP(LS(true, named))).outcome == Fail(NoLogin)
  {
    NoAuthenticatorNoList(Made(true, [], require, mechs), Initial([]), START, msgs, named);
  }

  lemma {:induction false} ListWithoutAuths(cfg: Config, st: State, named: Named)
    requires cfg.needsAuth && st.phase.Req? ==> st.phase.auths == []
    ensures cfg.needsAuth && st.phase.Req? ==>
              HandleStep(cfg, st, CAP(LS(true, named))).outcome == Fail(NoLogin)
  {
  }

  lemma {:induction false} ReqStays(cfg: Config, st: State, msg: Msg)
    ensures var ph := HandleStep(cfg, st, msg).st.phase;
            ph.Req? ==> ph == st.phase
  {
  }

  // ---------------------------------------------------------------------------
  // The capability map as it is kept: a vector under an edit guard

  /** The capabilities of a CAP LS or NEW go in as one session of `try_insert`. */
  lemma {:induction false} OfferIsSession(closed: seq<FlatMaps.Entry<Cap>>, named: Named,
                                          es: seq<FlatMaps.Entry<Cap>>, r: seq<FlatMaps.Entry<Cap>>)
    requires FlatMaps.StrictlySorted(closed) && FlatMaps.DistinctKeys(es)
    requires FlatMaps.ToMap(es) == map k | k in named :: Cap(named[k], false)
    requires FlatMapGuards.Dropped(FlatMapGuards.TrySession(FlatMapGuards.State(closed, |closed|), es), r)
    ensures FlatMaps.StrictlySorted(r) && FlatMaps.ToMap(r) == Offer(FlatMaps.ToMap(closed), named)
  {
    FlatMapGuards.TrySessionAdds(closed, es, r);
  }

  /** Those of an ACK go in as one session of updates that keep the value and set the flag. */
  lemma {:induction false} EnableIsSession(closed: seq<FlatMaps.Entry<Cap>>, named: Named,
                                           es: seq<FlatMaps.Entry<Cap>>, r: seq<FlatMaps.Entry<Cap>>,
                                           flag: (Cap, Cap) -> Cap)
    requires FlatMaps.StrictlySorted(closed) && FlatMaps.DistinctKeys(es)
    requires FlatMaps.ToMap(es) == map k | k in named :: Cap(named[k], true)
    requires forall was, now :: flag(was, now) == Cap(was.value, now.enabled)
    requires FlatMapGuards.Dropped(FlatMapGuards.UpdateSession(FlatMapGuards.State(closed, |closed|), es, flag), r)
    ensures FlatMaps.StrictlySorted(r) && FlatMaps.ToMap(r) == Enable(FlatMaps.ToMap(closed), named)
  {
    FlatMapGuards.UpdateSessionIsMerge(closed, es, flag, r);
    FlatMapGuards.MergedAtOnce(FlatMaps.ToMap(closed), es, flag);
  }

  /** Those of a CAP DEL come out in one session, in ascending order. It panics exactly if two of
      them are there, and is map removal otherwise. */
  lemma {:induction false} DelIsSession(closed: seq<FlatMaps.Entry<Cap>>, named: Named, ks: seq<Key>,
                                        r: seq<FlatMaps.Entry<Cap>>)
    requires FlatMaps.StrictlySorted(closed) && FlatMapGuards.Ascending(ks)
    requires FlatMapGuards.Keys(ks) == named.Keys
    ensures var out := FlatMapGuards.RemoveAll(FlatMapGuards.State(closed, |closed|), ks);
            && (out.None? <==> TwoPresent(FlatMaps.ToMap(closed), named))
            && (out.Some? && FlatMapGuards.Dropped(out.value, r) ==>
                  FlatMaps.StrictlySorted(r) && FlatMaps.ToMap(r) == FlatMaps.ToMap(closed) - named.Keys)
  {
    FlatMapGuards.RemoveAllPanicsIff(closed, ks);
    TwoPresentAlike(closed, named, ks);
    var out := FlatMapGuards.RemoveAll(FlatMapGuards.State(closed, |closed|), ks);
    if out.Some? && FlatMapGuards.Dropped(out.value, r) { FlatMapGuards.RemoveAllExact(closed, ks, r); }
  }

  lemma {:induction false} TwoPresentAlike(closed: seq<FlatMaps.Entry<Cap>>, named: Named, ks: seq<Key>)
    requires FlatMapGuards.Ascending(ks) && FlatMapGuards.Keys(ks) == named.Keys
    ensures FlatMapGuards.TwoPresent(closed, ks) <==> TwoPresent(FlatMaps.ToMap(closed), named)
  {
    var m := FlatMaps.ToMap(closed);
    FlatMaps.ToMapKeys(closed);
    assert forall k :: FlatMapGuards.Present(closed, k) <==> k in m;
    if FlatMapGuards.TwoPresent(closed, ks) {
      var i, j :| 0 <= i < j < |ks| && FlatMapGuards.Present(closed, ks[i]) && FlatMapGuards.Present(closed, ks[j]);
      LtIrreflexive(ks[i]);
      assert ks[i] in FlatMapGuards.Keys(ks) && ks[j] in FlatMapGuards.Keys(ks);
      assert ks[i] in named && ks[j] in named && ks[i] != ks[j];
    }
    if TwoPresent(m, named) {
      var a, b :| a in named && b in named && a != b && a in m && b in m;
      assert a in FlatMapGuards.Keys(ks) && b in FlatMapGuards.Keys(ks);
      var i :| 0 <= i < |ks| && ks[i] == a;
      var j :| 0 <= j < |ks| && ks[j] == b;
      assert FlatMapGuards.Present(closed, ks[i]) && FlatMapGuards.Present(closed, ks[j]);
      if i < j {
        assert FlatMapGuards.TwoPresent(closed, ks);
      } else {
        assert j < i;
      }
    }
  }

  // ---------------------------------------------------------------------------
  // The handler itself

  class Handler {
    const cfg: Config
    var phase: Phase
    var account: Option<string>
    var caps: Caps

    function Now(): State
      reads this
    {
      State(phase, account, caps)
    }

    constructor (cfg: Config, auths: seq<Sasl.Logic>)
      ensures this.cfg == cfg && Now() == Initial(auths)
    {
      this.cfg, phase, account, caps := cfg, Req(auths), None, map[];
    }

    method TryInsertAll(named: Named)
      modifies this`caps
      ensures caps == Offer(old(caps), named)
    {
      var rest := named.Keys;
      while rest != {}
        invariant rest <= named.Keys
        invariant caps == Offer(old(caps), named - rest)
      {
        var k :| k in rest;
        OfferOneMore(old(caps), named - rest, k, named[k]);
        assert named - (rest - {k}) == (named - rest)[k := named[k]];
        if k !in caps { caps := caps[k := Cap(named[k], false)]; }
        rest := rest - {k};
      }
      assert named - rest == named;
    }

    method EnableAll(named: Named)
      modifies this`caps
      ensures caps == Enable(old(caps), named)
    {
      var rest := named.Keys;
      while rest != {}
        invariant rest <= named.Keys
        invariant caps == Enable(old(caps), named - rest)
      {
        var k :| k in rest;
        caps := caps[k := Cap(if k in caps then caps[k].value else named[k], true)];
        EnableOneMore(old(caps), named - rest, k, named[k]);
        assert named - (rest - {k}) == (named - rest)[k := named[k]];
        rest := rest - {k};
      }
      assert named - rest == named;
    }

    /** `HandlerState::ack`. */
    method Acked(ack: bool, keys: set<Key>) returns (sent: seq<Out>, missing: set<Key>)
      modifies this`phase
      ensures if ack then (phase, sent) == AckPart(old(phase), keys) && missing == {}
              else var s := OnRefusal(old(Now()), keys);
                   && phase == s.st.phase && sent == s.sent
                   && s.outcome == if missing != {} then Fail(MissingCaps(missing)) else Continue
    {
      sent, missing := [], {};
      if phase.Ack? {
        var pending, auths := phase.pending, phase.auths;
        if ack {
          pending := pending - keys;
        } else {
          missing := pending * keys;
          if missing != {} { return; }
        }
        if pending == {} {
          if auths != [] {
            sent := [Auth(Sasl.Start(auths[0].name))];
            phase := InSasl(Sasl.State(auths[1..], auths[0], []));
          } else {
            phase := AtCapEnd;
          }
        } else {
          phase := Ack(pending, auths);
        }
      }
    }
  
    /** The last line of a CAP LS reply. */
    method LastOffer() returns (sent: seq<Out>, outcome: Outcome)
      modifies this`phase
      ensures Step(Now(), sent, outcome) == LastLs(cfg, old(Now()))
    {
      sent, outcome := [], Continue;
      if !phase.Req? { return; }
      var auths := Usable(cfg, caps, phase.auths);
      phase := Lost;
      var avail := caps.Keys;
      var reqs := cfg.require(avail);
      assert reqs + {} == reqs;
      if auths != [] {
        reqs := reqs + {SASL};
      } else if cfg.needsAuth {
        outcome := Fail(NoLogin);
        return;
      }
      var diff := reqs - avail;
      if diff != {} {
        outcome := Fail(MissingCaps(diff));
        return;
      }
      reqs := reqs - {STS};
      if reqs == {} {
        phase := AtCapEnd;
      } else {
        sent := [CapReq(reqs)];
        phase := Ack(reqs, auths);
      }
    }

    method HandleCap(cap: CapMsg) returns (sent: seq<Out>, outcome: Outcome)
      modifies this
      ensures outcome == OnCap(cfg, old(Now()), cap).outcome
      ensures !outcome.Crash? ==> Step(Now(), sent, outcome) == OnCap(cfg, old(Now()), cap)
    {
      sent, outcome := [], Continue;
      match cap {
        case LS(last, named) =>
          TryInsertAll(named);
          if last { sent, outcome := LastOffer(); }
        case NEW(named) =>
          TryInsertAll(named);
        case ACK(named) =>
          var missing;
          sent, missing := Acked(true, named.Keys);
          EnableAll(named);
        case NAK(named) =>
          var missing;
          sent, missing := Acked(false, named.Keys);
          if missing != {} { outcome := Fail(MissingCaps(missing)); }
        case DEL(named) =>
          if TwoPresent(caps, named) { outcome := Crash; return; }
          caps := caps - named.Keys;
          var missing;
          sent, missing := Acked(false, named.Keys);
          if missing != {} { outcome := Fail(MissingCaps(missing)); }
        case LIST => outcome := Fail(Broken);
        case Malformed => outcome := Fail(Broken);
      }
    }

    method RunSasl(msg: Msg) returns (sent: seq<Out>)
      modifies this`phase
      ensures (phase, sent) == SaslPart(old(phase), msg)
    {
      sent := [];
      if phase.InSasl? {
        var sasl := new Sasl.Handler.At(phase.sasl);
        var outs, result := sasl.HandleMsg(SaslView(msg));
        sent := Wrap(outs);
        phase := if result.Continue? then InSasl(sasl.Now()) else AtCapEnd;
      }
    }

    /** The match on the message's kind. */
    method Dispatch(msg: Msg, ignoreSasl: bool) returns (sent: seq<Out>, outcome: Outcome)
      modifies this
      ensures outcome == OnMsg(cfg, old(Now()), msg, ignoreSasl).outcome
      ensures !outcome.Crash? ==> Step(Now(), sent, outcome) == OnMsg(cfg, old(Now()), msg, ignoreSasl)
    {
      sent, outcome := [], Continue;
      if (msg.Welcome? || msg.Greeting? || msg.MyInfo?) && cfg.needsAuth && account.None? {
        return [], Fail(NoLogin);
      }
      match msg {
        case Welcome => phase := AwaitEnd;
        case MyInfo => if !phase.AwaitEnd? { outcome := Fail(Broken); }
        case ISupport => if !phase.AwaitEnd? { outcome := Fail(ServerError); }
        case Redirect => outcome := Fail(ServerError);
        case MotdEnd =>
          if phase.AwaitEnd? {
            outcome := Done(account);
            account, caps := None, map[];
          } else {
            outcome := Fail(Broken);
          }
        case NickRefused(next) =>
          if next.Some? { sent := [ChangeNick(next.value)]; } else { outcome := Fail(NoNicks); }
        case NoAccess => outcome := Fail(NoAccessGiven);
        case LoggedIn(named, parses) =>
          if named.Some? {
            account := named;
            if !parses { outcome := Fail(Broken); }
          }
        case LoggedOut(parses) =>
          account := None;
          if !parses { outcome := Fail(Broken); }
        case SaslRejected => if !ignoreSasl { outcome := Fail(ServerError); }
        case SaslTooLong => if !ignoreSasl { outcome := Fail(ServerError); }
        case SaslAborted => if !ignoreSasl { outcome := Fail(ServerError); }
        case SaslAlready => if !ignoreSasl { outcome := Fail(ServerError); }
        case CAP(cap) => sent, outcome := HandleCap(cap);
        case Error => outcome := Fail(ServerError);
        case _ =>
      }
    }

    method HandleMsg(msg: Msg) returns (sent: seq<Out>, outcome: Outcome)
      modifies this
      ensures outcome == HandleStep(cfg, old(Now()), msg).outcome
      ensures !outcome.Crash? ==> Step(Now(), sent, outcome) == HandleStep(cfg, old(Now()), msg)
    {
      if msg.Ping? { return [Pong], Continue; }
      var ignoreSasl := phase.InSasl?;
      var auth := RunSasl(msg);
      sent, outcome := Dispatch(msg, ignoreSasl);
      sent := auth + sent;
      if outcome.Fail? || outcome.Crash? { return; }
      if phase.AtCapEnd? {
        if cfg.needsAuth && account.None? { return sent, Fail(NoLogin); }
        sent := sent + [CapEnd];
        phase := AwaitWelcome;
      }
    }
  }
}
