/** What registration asks for and answers, over whole runs (src/client/register/handler.rs). The
    laws here are stated over what the server named and what was sent, beside the order of phases
    that `Register` is about. */
module Negotiation {
  import Sasl
  import opened Strings
  import opened Register

  /** The values of the capabilities known, each as first named. */
  type Values = map<Key, string>

  function ValuesOf(caps: Caps): Values {
    map k | k in caps :: caps[k].value
  }

  // ---------------------------------------------------------------------------
  // What is wanted of an offer

  /** The server offers the mechanism of the authenticator. */
  predicate CanUse(cfg: Config, offered: Values, l: Sasl.Logic) {
    SASL in offered && l.name in cfg.mechs(offered[SASL])
  }

  predicate AnyUsable(cfg: Config, offered: Values, auths: seq<Sasl.Logic>) {
    exists i :: 0 <= i < |auths| && CanUse(cfg, offered, auths[i])
  }

  /** What the caller requires of the offer, and `sasl` if an authenticator can be used. */
  function Wanted(cfg: Config, offered: Values, auths: seq<Sasl.Logic>): set<Key> {
    cfg.require(offered.Keys) + if AnyUsable(cfg, offered, auths) then {SASL} else {}
  }

  lemma {:induction false} UsableMembers(cfg: Config, caps: Caps, auths: seq<Sasl.Logic>, l: Sasl.Logic)
    ensures l in Usable(cfg, caps, auths) <==> l in auths && CanUse(cfg, ValuesOf(caps), l)
  {
    if SASL in caps {
      var mechs := cfg.mechs(caps[SASL].value);
      Sasl.RetainKeeps(auths, n => n in mechs, l);
    }
  }

  /** The authenticators kept are those that can be used, in order. */
  lemma {:induction false} UsableIs(cfg: Config, caps: Caps, auths: seq<Sasl.Logic>)
    ensures var u := Usable(cfg, caps, auths);
            && Sasl.Subsequence(u, auths)
            && (forall l :: l in u <==> l in auths && CanUse(cfg, ValuesOf(caps), l))
            && (u != [] <==> AnyUsable(cfg, ValuesOf(caps), auths))
  {
    var u := Usable(cfg, caps, auths);
    if SASL in caps {
      var mechs := cfg.mechs(caps[SASL].value);
      Sasl.RetainIsSubsequence(auths, n => n in mechs);
    }
    forall l ensures l in u <==> l in auths && CanUse(cfg, ValuesOf(caps), l) {
      UsableMembers(cfg, caps, auths, l);
    }
    if u != [] {
      assert u[0] in u;
      var i :| 0 <= i < |auths| && auths[i] == u[0];
    }
    if AnyUsable(cfg, ValuesOf(caps), auths) {
      var i :| 0 <= i < |auths| && CanUse(cfg, ValuesOf(caps), auths[i]);
      assert auths[i] in u;
    }
  }

  lemma {:induction false} OfferValues(caps: Caps, named: Named)
    ensures ValuesOf(Offer(caps, named)) == named + ValuesOf(caps)
    ensures ValuesOf(Enable(caps, named)) == named + ValuesOf(caps)
  {
  }

  /** What the end of the capability list comes to. */
  ghost predicate ListAnswer(cfg: Config, st: State, auths: seq<Sasl.Logic>, offered: Values, s: Step) {
    var wanted := Wanted(cfg, offered, auths);
    if cfg.needsAuth && !AnyUsable(cfg, offered, auths) then s.outcome == Fail(NoLogin) && s.sent == []
    else if wanted - offered.Keys != {} then
      s.outcome == Fail(MissingCaps(wanted - offered.Keys)) && s.sent == []
    else if wanted - {STS} == {} then
      s.outcome == Continue && s.sent == [CapEnd] && s.st.phase == AwaitWelcome
    else
      && s.outcome == Continue && s.sent == [CapReq(wanted - {STS})]
      && s.st.phase.Ack? && s.st.phase.pending == wanted - {STS}
      && Sasl.Subsequence(s.st.phase.auths, auths)
      && forall l :: l in s.st.phase.auths <==> l in auths && CanUse(cfg, offered, l)
  }

  /** The end of the list, exactly: a needed login that cannot be had, or something wanted that is
      not offered, ends registration; otherwise all that is wanted, `sts` aside, is requested, or
      negotiation ends if that is nothing. */
  lemma {:induction false} ListStep(cfg: Config, st: State, auths: seq<Sasl.Logic>, named: Named)
    requires st.phase == Req(auths)
    ensures ListAnswer(cfg, st, auths, named + ValuesOf(st.caps), HandleStep(cfg, st, CAP(LS(true, named))))
  {
    var caps := Offer(st.caps, named);
    OfferValues(st.caps, named);
    UsableIs(cfg, caps, auths);
    assert caps.Keys == (named + ValuesOf(st.caps)).Keys;
    ListStepCloses(cfg, st, named);
  }

  lemma {:induction false} ListStepCloses(cfg: Config, st: State, named: Named)
    requires st.phase.Req?
    ensures var s := LastLs(cfg, st.(caps := Offer(st.caps, named)));
            HandleStep(cfg, st, CAP(LS(true, named))) == Close(cfg, s)
  {
    var s := LastLs(cfg, st.(caps := Offer(st.caps, named)));
    assert [] + s.sent == s.sent;
  }

  // ---------------------------------------------------------------------------
  // Runs, and what an observer can tell of them

  /** Computed from the messages received and sent, like `Register.History`. */
  datatype Record = Record(
    values: Values,       // of the capabilities known now
    listed: bool,         // the end of a capability list came
    offered: Values,      // what was known when it first came
    spoken: bool,         // an AUTHENTICATE went out
    heard: seq<Sasl.Msg>) // what came after that, in the terms of the SASL handler

  const BLANK: Record := Record(map[], false, map[], false, [])

  predicate EndsList(msg: Msg) {
    msg.CAP? && msg.cap.LS? && msg.cap.last
  }

  function ValuesAfter(values: Values, msg: Msg): Values {
    if !msg.CAP? then values
    else match msg.cap
      case LS(_, named) => named + values
      case NEW(named) => named + values
      case ACK(named) => named + values
      case DEL(named) => values - named.Keys
      case _ => values
  }

  predicate Speaks(sent: seq<Out>) {
    exists i :: 0 <= i < |sent| && sent[i].Auth?
  }

  function Note(r: Record, msg: Msg, sent: seq<Out>): Record {
    var values := ValuesAfter(r.values, msg);
    Record(
      values,
      r.listed || EndsList(msg),
      if !r.listed && EndsList(msg) then values else r.offered,
      r.spoken || Speaks(sent),
      if r.spoken && !msg.Ping? then r.heard + [SaslView(msg)] else r.heard)
  }

  /** State, history and record after the messages, if the handler asked for more after each. */
  function Run(cfg: Config, st: State, h: History, r: Record, msgs: seq<Msg>): Option<(State, History, Record)>
    decreases |msgs|
  {
    if msgs == [] then Some((st, h, r))
    else
      var s := HandleStep(cfg, st, msgs[0]);
      if s.outcome.Continue? then
        Run(cfg, s.st, Observe(h, msgs[0], s.sent), Note(r, msgs[0], s.sent), msgs[1..])
      else None
  }

  /** The SASL handler as it starts on the authenticators that can be used. */
  function First(u: seq<Sasl.Logic>): Sasl.State
    requires u != []
  {
    Sasl.State(u[1..], u[0], [])
  }

  ghost predicate Chosen(cfg: Config, offered: Values, auths: seq<Sasl.Logic>, u: seq<Sasl.Logic>) {
    && Sasl.Subsequence(u, auths)
    && forall l :: l in u <==> l in auths && CanUse(cfg, offered, l)
  }

  /** SASL has gone from its start through all that was heard since. */
  ghost predicate SaslSoFar(cfg: Config, auths: seq<Sasl.Logic>, r: Record, sasl: Sasl.State) {
    exists u :: && u != [] && Chosen(cfg, r.offered, auths, u)
                && Sasl.IsRun(First(u), r.heard) && sasl == Sasl.Final(First(u), r.heard)
  }

  /** What was asked for is what was wanted of the offer. */
  ghost predicate AskedFor(cfg: Config, auths: seq<Sasl.Logic>, h: History, r: Record) {
    var wanted := Wanted(cfg, r.offered, auths) - {STS};
    && (h.reqs > 0 ==> r.listed && h.requested == wanted && wanted != {})
    && (h.ends > 0 && h.reqs == 0 ==> r.listed && wanted == {})
  }

  ghost predicate PhaseKnows(cfg: Config, auths: seq<Sasl.Logic>, ph: Phase, r: Record) {
    match ph
    case Req(a) => a == auths && !r.listed && !r.spoken && r.heard == []
    case Ack(_, u) => Chosen(cfg, r.offered, auths, u) && !r.spoken && r.heard == [] && r.listed
    case InSasl(sasl) => SaslSoFar(cfg, auths, r, sasl) && r.spoken && r.listed
    case AwaitWelcome => r.listed
    case _ => true
  }

  ghost predicate Knows(cfg: Config, auths: seq<Sasl.Logic>, st: State, h: History, r: Record) {
    && ValuesOf(st.caps) == r.values
    && PhaseKnows(cfg, auths, st.phase, r)
    && AskedFor(cfg, auths, h, r)
  }

  // ---------------------------------------------------------------------------
  // Every step keeps it

  lemma {:induction false} ValuesKept(cfg: Config, st: State, r: Record, msg: Msg)
    requires ValuesOf(st.caps) == r.values
    ensures var s := HandleStep(cfg, st, msg);
            s.outcome.Continue? ==> ValuesOf(s.st.caps) == ValuesAfter(r.values, msg)
  {
    CapsAfter(cfg, st, msg);
    if msg.CAP? {
      match msg.cap {
        case LS(_, named) => OfferValues(st.caps, named);
        case NEW(named) => OfferValues(st.caps, named);
        case ACK(named) => OfferValues(st.caps, named);
        case DEL(named) => assert ValuesOf(st.caps - named.Keys) == ValuesOf(st.caps) - named.Keys;
        case _ =>
      }
    }
  }

  function EnteredBy(caps: Caps, msg: Msg): Caps {
    if !msg.CAP? then caps
    else match msg.cap
      case LS(_, named) => Offer(caps, named)
      case NEW(named) => Offer(caps, named)
      case ACK(named) => Enable(caps, named)
      case DEL(named) => caps - named.Keys
      case _ => caps
  }

  lemma {:induction false} CapsAfter(cfg: Config, st: State, msg: Msg)
    ensures var s := HandleStep(cfg, st, msg);
            s.outcome.Continue? ==> s.st.caps == EnteredBy(st.caps, msg)
  {
    if !msg.Ping? {
      var (ph, sent) := SaslPart(st.phase, msg);
      CapsOfBody(cfg, st.(phase := ph), msg, st.phase.InSasl?);
    }
  }

  lemma {:induction false} CapsOfBody(cfg: Config, st: State, msg: Msg, inSasl: bool)
    ensures var s := OnMsg(cfg, st, msg, inSasl);
            s.outcome.Continue? ==> s.st.caps == EnteredBy(st.caps, msg)
  {
    if msg.CAP? { CapsOfCap(cfg, st, msg); }
  }

  lemma {:induction false} CapsOfCap(cfg: Config, st: State, msg: Msg)
    requires msg.CAP?
    ensures var s := OnCap(cfg, st, msg.cap);
            s.outcome.Continue? ==> s.st.caps == EnteredBy(st.caps, msg)
  {
  }

  /** A step that sends neither a request nor CAP END. */
  predicate Quiet(sent: seq<Out>) {
    CountReqs(sent) == 0 && CountEnds(sent) == 0 && RequestedIn(sent) == {}
  }

  lemma {:induction false} QuietOne(sent: seq<Out>)
    requires |sent| <= 1 && forall i | 0 <= i < |sent| :: !sent[i].CapReq? && !sent[i].CapEnd?
    ensures Quiet(sent)
  {
    if sent != [] {
      assert sent == [sent[0]];
      CountsOne(sent[0]);
    }
  }

  /** Outside SASL a step sends what its handling proper sends, and CAP END if that ends
      negotiation. */
  lemma {:induction false} NotInSasl(cfg: Config, st: State, msg: Msg)
    requires !st.phase.InSasl? && !msg.Ping?
    ensures HandleStep(cfg, st, msg) == Close(cfg, OnMsg(cfg, st, msg, false))
  {
    var s := OnMsg(cfg, st, msg, false);
    assert [] + s.sent == s.sent;
  }

  /** Where a step from Req can lead. */
  lemma {:induction false} FromReq(cfg: Config, st: State, msg: Msg)
    requires st.phase.Req? && !EndsList(msg)
    ensures var s := HandleStep(cfg, st, msg);
            s.outcome.Continue? ==>
              && s.st.phase == (if msg.Welcome? then AwaitEnd else st.phase)
              && !Speaks(s.sent) && Quiet(s.sent)
  {
    if msg.Ping? {
      QuietOne([Pong]);
    } else {
      NotInSasl(cfg, st, msg);
      Meanwhile(cfg, st, msg);
      QuietOne(OnMsg(cfg, st, msg, false).sent);
    }
  }

  /** Outside the turning points nothing is asked for and the phase stays. */
  lemma {:induction false} Meanwhile(cfg: Config, st: State, msg: Msg)
    requires !msg.Ping? && !st.phase.InSasl? && !st.phase.Ack? && !(st.phase.Req? && EndsList(msg))
    ensures var s := OnMsg(cfg, st, msg, false);
            && |s.sent| <= 1 && (forall i | 0 <= i < |s.sent| :: s.sent[i].ChangeNick?)
            && (s.outcome.Continue? ==> s.st.phase == if msg.Welcome? then AwaitEnd else st.phase)
  {
    if msg.CAP? { CapMeanwhile(cfg, st, msg.cap); }
  }

  lemma {:induction false} CapMeanwhile(cfg: Config, st: State, cap: CapMsg)
    requires !st.phase.Ack? && !(st.phase.Req? && EndsList(CAP(cap)))
    ensures var s := OnCap(cfg, st, cap);
            s.sent == [] && (s.outcome.Continue? ==> s.st.phase == st.phase)
  {
  }

  predicate CompletesAck(st: State, msg: Msg)
    requires st.phase.Ack?
  {
    msg.CAP? && msg.cap.ACK? && st.phase.pending - msg.cap.named.Keys == {}
  }

  /** Where a step from Ack can lead: on with the acknowledgement that completes the set, to the
      welcome, or nowhere. */
  lemma {:induction false} FromAck(cfg: Config, st: State, msg: Msg)
    requires st.phase.Ack? && st.phase.pending != {}
    ensures var s, u := HandleStep(cfg, st, msg), st.phase.auths;
            s.outcome.Continue? ==>
              if msg.Welcome? then s.st.phase == AwaitEnd && s.sent == []
              else if !CompletesAck(st, msg) then
                s.st.phase.Ack? && s.st.phase.auths == u && Quiet(s.sent) && !Speaks(s.sent)
              else if u == [] then s.st.phase == AwaitWelcome && s.sent == [CapEnd]
              else s.st.phase == InSasl(First(u)) && s.sent == [Auth(Sasl.Start(u[0].name))]
  {
    var s := HandleStep(cfg, st, msg);
    if !msg.Ping? { NotInSasl(cfg, st, msg); }
    if s.outcome.Continue? && !CompletesAck(st, msg) {
      if msg.CAP? { AckMeanwhile(cfg, st, msg.cap); }
      QuietOne(s.sent);
    }
  }

  lemma {:induction false} AckMeanwhile(cfg: Config, st: State, cap: CapMsg)
    requires st.phase.Ack? && st.phase.pending != {} && !CompletesAck(st, CAP(cap))
    ensures var s := OnCap(cfg, st, cap);
            s.outcome.Continue? ==> s.st.phase.Ack? && s.st.phase.auths == st.phase.auths && s.sent == []
  {
    assert st.phase.pending - {} == st.phase.pending;
  }

  lemma {:induction false} WrapOnlyAuth(outs: seq<Sasl.Out>)
    ensures OnlyAuth(Wrap(outs)) && Quiet(Wrap(outs))
  {
    AuthCountsNothing(Wrap(outs));
  }

  /** In Sasl a step sends what the SASL handler sends, what the handling proper sends, and CAP END
      if the SASL handler has come to an end. */
  lemma {:induction false} InSaslStep(cfg: Config, st: State, msg: Msg)
    requires st.phase.InSasl? && !msg.Ping?
    ensures var r := Sasl.HandleStep(st.phase.sasl, SaslView(msg));
            var ph := if r.result.Continue? then InSasl(r.st) else AtCapEnd;
            var s := OnMsg(cfg, st.(phase := ph), msg, true);
            HandleStep(cfg, st, msg) == Close(cfg, s.(sent := Wrap(r.sent) + s.sent))
  {
  }

  /** Where a step from Sasl can lead: as far as the SASL handler goes on, it goes on, and its end,
      successful or not, is the end of negotiation. */
  lemma {:induction false} FromSasl(cfg: Config, st: State, msg: Msg)
    requires st.phase.InSasl? && !msg.Ping?
    ensures var s, r := HandleStep(cfg, st, msg), Sasl.HandleStep(st.phase.sasl, SaslView(msg));
            s.outcome.Continue? ==>
              if msg.Welcome? then s.st.phase == AwaitEnd && Quiet(s.sent)
              else if r.result.Continue? then s.st.phase == InSasl(r.st) && Quiet(s.sent)
              else s.st.phase == AwaitWelcome && CountReqs(s.sent) == 0 && CountEnds(s.sent) == 1
                   && RequestedIn(s.sent) == {}
  {
    var r := Sasl.HandleStep(st.phase.sasl, SaslView(msg));
    var ph := if r.result.Continue? then InSasl(r.st) else AtCapEnd;
    var s := OnMsg(cfg, st.(phase := ph), msg, true);
    InSaslStep(cfg, st, msg);
    WrapOnlyAuth(r.sent);
    if s.outcome.Continue? {
      SaslMeanwhile(cfg, st.(phase := ph), msg);
      CountsAppend(Wrap(r.sent), s.sent);
      CountsAppend(Wrap(r.sent) + s.sent, [CapEnd]);
      CountsOne(CapEnd);
    }
  }

  lemma {:induction false} SaslMeanwhile(cfg: Config, st: State, msg: Msg)
    requires (st.phase.InSasl? || st.phase.AtCapEnd?) && !msg.Ping?
    ensures var s := OnMsg(cfg, st, msg, true);
            s.outcome.Continue? ==>
              s.st.phase == (if msg.Welcome? then AwaitEnd else st.phase) && Quiet(s.sent)
  {
    var s := OnMsg(cfg, st, msg, true);
    if s.outcome.Continue? { QuietOne(s.sent); }
  }

  /** After negotiation nothing is asked for any more. */
  lemma {:induction false} FromLate(cfg: Config, st: State, msg: Msg)
    requires st.phase.AwaitWelcome? || st.phase.AwaitEnd?
    ensures var s := HandleStep(cfg, st, msg);
            s.outcome.Continue? ==>
              (s.st.phase == st.phase || s.st.phase == AwaitEnd) && Quiet(s.sent)
  {
    if msg.Ping? {
      QuietOne([Pong]);
    } else {
      NotInSasl(cfg, st, msg);
      Meanwhile(cfg, st, msg);
      QuietOne(OnMsg(cfg, st, msg, false).sent);
    }
  }

  /** Asking for nothing changes nothing of what was asked for. */
  lemma {:induction false} QuietKeepsAsked(cfg: Config, auths: seq<Sasl.Logic>, h: History, r: Record,
                                           msg: Msg, sent: seq<Out>)
    requires AskedFor(cfg, auths, h, r) && RequestedIn(sent) == {} && CountReqs(sent) == 0
    requires r.listed || (h.reqs == 0 && h.ends == 0)
    requires CountEnds(sent) == 0 || h.reqs > 0
    ensures AskedFor(cfg, auths, Observe(h, msg, sent), Note(r, msg, sent))
  {
  }

  lemma {:induction false} KeptFromReq(cfg: Config, auths: seq<Sasl.Logic>, st: State, h: History, r: Record, msg: Msg)
    requires Inv(cfg, st, h) && Knows(cfg, auths, st, h, r) && st.phase.Req?
    ensures var s := HandleStep(cfg, st, msg);
            s.outcome.Continue? ==>
              && PhaseKnows(cfg, auths, s.st.phase, Note(r, msg, s.sent))
              && AskedFor(cfg, auths, Observe(h, msg, s.sent), Note(r, msg, s.sent))
  {
    var s := HandleStep(cfg, st, msg);
    if EndsList(msg) {
      ListStep(cfg, st, auths, msg.cap.named);
      if s.outcome.Continue? { CountsOne(s.sent[0]); }
    } else {
      FromReq(cfg, st, msg);
      if s.outcome.Continue? { QuietKeepsAsked(cfg, auths, h, r, msg, s.sent); }
    }
  }

  lemma {:induction false} KeptFromAck(cfg: Config, auths: seq<Sasl.Logic>, st: State, h: History, r: Record, msg: Msg)
    requires Inv(cfg, st, h) && Knows(cfg, auths, st, h, r) && st.phase.Ack?
    ensures var s := HandleStep(cfg, st, msg);
            s.outcome.Continue? ==>
              && PhaseKnows(cfg, auths, s.st.phase, Note(r, msg, s.sent))
              && AskedFor(cfg, auths, Observe(h, msg, s.sent), Note(r, msg, s.sent))
  {
    var s, u := HandleStep(cfg, st, msg), st.phase.auths;
    FromAck(cfg, st, msg);
    if s.outcome.Continue? {
      if s.sent != [] && |s.sent| == 1 { CountsOne(s.sent[0]); }
      QuietKeepsAsked(cfg, auths, h, r, msg, s.sent);
      if s.st.phase.InSasl? {
        assert s.sent[0].Auth?;
        StartsSasl(cfg, auths, Note(r, msg, s.sent), u);
      }
    }
  }

  lemma {:induction false} StartsSasl(cfg: Config, auths: seq<Sasl.Logic>, r: Record, u: seq<Sasl.Logic>)
    requires u != [] && Chosen(cfg, r.offered, auths, u) && r.heard == []
    ensures SaslSoFar(cfg, auths, r, First(u))
  {
    assert Sasl.IsRun(First(u), []) && Sasl.Final(First(u), []) == First(u);
  }

  lemma {:induction false} KeptFromSasl(cfg: Config, auths: seq<Sasl.Logic>, st: State, h: History, r: Record, msg: Msg)
    requires Inv(cfg, st, h) && Knows(cfg, auths, st, h, r) && st.phase.InSasl? && !msg.Ping?
    ensures var s := HandleStep(cfg, st, msg);
            s.outcome.Continue? ==>
              && PhaseKnows(cfg, auths, s.st.phase, Note(r, msg, s.sent))
              && AskedFor(cfg, auths, Observe(h, msg, s.sent), Note(r, msg, s.sent))
  {
    var s := HandleStep(cfg, st, msg);
    FromSasl(cfg, st, msg);
    if s.outcome.Continue? {
      QuietKeepsAsked(cfg, auths, h, r, msg, s.sent);
      if s.st.phase.InSasl? { SaslGoesOn(cfg, auths, r, Note(r, msg, s.sent), st.phase.sasl, SaslView(msg)); }
    }
  }

  lemma {:induction false} SaslGoesOn(cfg: Config, auths: seq<Sasl.Logic>, r: Record, r': Record,
                                      sasl: Sasl.State, m: Sasl.Msg)
    requires SaslSoFar(cfg, auths, r, sasl) && Sasl.HandleStep(sasl, m).result.Continue?
    requires r'.offered == r.offered && r'.heard == r.heard + [m]
    ensures SaslSoFar(cfg, auths, r', Sasl.HandleStep(sasl, m).st)
  {
    var u :| && u != [] && Chosen(cfg, r.offered, auths, u)
             && Sasl.IsRun(First(u), r.heard) && sasl == Sasl.Final(First(u), r.heard);
    Sasl.FinalSnoc(First(u), r.heard, m);
  }

  lemma {:induction false} KeptLate(cfg: Config, auths: seq<Sasl.Logic>, st: State, h: History, r: Record, msg: Msg)
    requires Inv(cfg, st, h) && Knows(cfg, auths, st, h, r) && (st.phase.AwaitWelcome? || st.phase.AwaitEnd?)
    ensures var s := HandleStep(cfg, st, msg);
            s.outcome.Continue? ==>
              && PhaseKnows(cfg, auths, s.st.phase, Note(r, msg, s.sent))
              && AskedFor(cfg, auths, Observe(h, msg, s.sent), Note(r, msg, s.sent))
  {
    FromLate(cfg, st, msg);
  }

  lemma {:induction false} KeptByPing(cfg: Config, auths: seq<Sasl.Logic>, st: State, h: History, r: Record)
    requires Inv(cfg, st, h) && Knows(cfg, auths, st, h, r)
    ensures Knows(cfg, auths, st, Observe(h, Ping, [Pong]), Note(r, Ping, [Pong]))
  {
    CountsOne(Pong);
  }

  lemma {:induction false} KnowsKept(cfg: Config, auths: seq<Sasl.Logic>, st: State, h: History, r: Record, msg: Msg)
    requires Inv(cfg, st, h) && Knows(cfg, auths, st, h, r)
    ensures var s := HandleStep(cfg, st, msg);
            s.outcome.Continue? ==> Knows(cfg, auths, s.st, Observe(h, msg, s.sent), Note(r, msg, s.sent))
  {
    if msg.Ping? {
      KeptByPing(cfg, auths, st, h, r);
    } else {
      ValuesKept(cfg, st, r, msg);
      match st.phase {
        case Req(_) => KeptFromReq(cfg, auths, st, h, r, msg);
        case Ack(_, _) => KeptFromAck(cfg, auths, st, h, r, msg);
        case InSasl(_) => KeptFromSasl(cfg, auths, st, h, r, msg);
        case _ => KeptLate(cfg, auths, st, h, r, msg);
      }
    }
  }

  lemma {:induction false} RunKnows(cfg: Config, auths: seq<Sasl.Logic>, st: State, h: History, r: Record, msgs: seq<Msg>)
    requires Inv(cfg, st, h) && Knows(cfg, auths, st, h, r)
    ensures var x := Run(cfg, st, h, r, msgs);
            x.Some? ==> Inv(cfg, x.value.0, x.value.1) && Knows(cfg, auths, x.value.0, x.value.1, x.value.2)
    decreases |msgs|
  {
    if msgs != [] {
      var s := HandleStep(cfg, st, msgs[0]);
      StepKeeps(cfg, st, h, msgs[0]);
      KnowsKept(cfg, auths, st, h, r, msgs[0]);
      if s.outcome.Continue? {
        RunKnows(cfg, auths, s.st, Observe(h, msgs[0], s.sent), Note(r, msgs[0], s.sent), msgs[1..]);
      }
    }
  }

  /** A run from the start. */
  function FromStart(cfg: Config, auths: seq<Sasl.Logic>, msgs: seq<Msg>): Option<(State, History, Record)> {
    Run(cfg, Initial(auths), START, BLANK, msgs)
  }

  lemma {:induction false} KnowsFromStart(cfg: Config, auths: seq<Sasl.Logic>, msgs: seq<Msg>)
    ensures var x := FromStart(cfg, auths, msgs);
            x.Some? ==> Inv(cfg, x.value.0, x.value.1) && Knows(cfg, auths, x.value.0, x.value.1, x.value.2)
  {
    RunKnows(cfg, auths, Initial(auths), START, BLANK, msgs);
  }

  // ---------------------------------------------------------------------------
  // The laws

  /** Over every run, what was requested is exactly what the caller requires of the offer, and `sasl`
      if an authenticator can be used, `sts` aside; if nothing was requested before CAP END, that
      was nothing. */
  lemma {:induction false} RequestIsWanted(cfg: Config, auths: seq<Sasl.Logic>, msgs: seq<Msg>)
    requires FromStart(cfg, auths, msgs).Some?
    ensures var (st, h, r) := FromStart(cfg, auths, msgs).value;
            var wanted := Wanted(cfg, r.offered, auths) - {STS};
            && (h.reqs > 0 ==> r.listed && h.requested == wanted && wanted != {})
            && (h.ends > 0 && h.reqs == 0 ==> r.listed && wanted == {})
  {
    KnowsFromStart(cfg, auths, msgs);
  }

  /** At any point of any run before the list has ended, its end is answered as `ListAnswer` says:
      in particular it fails for missing capabilities exactly if something wanted is not offered
      and no needed login stands in the way. */
  lemma {:induction false} ListIsAnswered(cfg: Config, auths: seq<Sasl.Logic>, msgs: seq<Msg>, named: Named)
    requires FromStart(cfg, auths, msgs).Some? && FromStart(cfg, auths, msgs).value.0.phase.Req?
    ensures var (st, h, r) := FromStart(cfg, auths, msgs).value;
            ListAnswer(cfg, st, auths, named + r.values, HandleStep(cfg, st, CAP(LS(true, named))))
  {
    KnowsFromStart(cfg, auths, msgs);
    var (st, h, r) := FromStart(cfg, auths, msgs).value;
    ListStep(cfg, st, auths, named);
  }

  /** The acknowledgement that completes the requested set starts SASL with the first authenticator
      that can be used, told to the server by name, or ends negotiation if there is none. */
  lemma {:induction false} CompleteAckAnswered(cfg: Config, auths: seq<Sasl.Logic>, msgs: seq<Msg>, named: Named)
    requires FromStart(cfg, auths, msgs).Some? && FromStart(cfg, auths, msgs).value.0.phase.Ack?
    ensures var (st, h, r) := FromStart(cfg, auths, msgs).value;
            var s := HandleStep(cfg, st, CAP(ACK(named)));
            h.requested <= h.acked + named.Keys ==>
              if AnyUsable(cfg, r.offered, auths) then
                exists u: seq<Sasl.Logic> :: && u != [] && Chosen(cfg, r.offered, auths, u)
                            && s.outcome == Continue && s.st.phase == InSasl(First(u))
                            && s.sent == [Auth(Sasl.Start(u[0].name))]
              else if cfg.needsAuth && st.account.None? then s.outcome == Fail(NoLogin) && s.sent == []
              else s.outcome == Continue && s.st.phase == AwaitWelcome && s.sent == [CapEnd]
  {
    KnowsFromStart(cfg, auths, msgs);
    var (st, h, r) := FromStart(cfg, auths, msgs).value;
    if h.requested <= h.acked + named.Keys {
      SetFacts(h.requested, h.acked, named.Keys);
      CompleteAck(cfg, st, named);
      ChosenIffUsable(cfg, r.offered, auths, st.phase.auths);
    }
  }

  lemma {:induction false} CompleteAck(cfg: Config, st: State, named: Named)
    requires st.phase.Ack? && st.phase.pending - named.Keys == {}
    ensures var s, u := HandleStep(cfg, st, CAP(ACK(named))), st.phase.auths;
            if u != [] then
              && s.outcome == Continue && s.st.phase == InSasl(First(u))
              && s.sent == [Auth(Sasl.Start(u[0].name))]
            else if cfg.needsAuth && st.account.None? then s.outcome == Fail(NoLogin) && s.sent == []
            else s.outcome == Continue && s.st.phase == AwaitWelcome && s.sent == [CapEnd]
  {
    NotInSasl(cfg, st, CAP(ACK(named)));
  }

  lemma {:induction false} ChosenIffUsable(cfg: Config, offered: Values, auths: seq<Sasl.Logic>, u: seq<Sasl.Logic>)
    requires Chosen(cfg, offered, auths, u)
    ensures u != [] <==> AnyUsable(cfg, offered, auths)
  {
    if u != [] {
      assert u[0] in u;
      var i :| 0 <= i < |auths| && auths[i] == u[0];
    }
    if AnyUsable(cfg, offered, auths) {
      var i :| 0 <= i < |auths| && CanUse(cfg, offered, auths[i]);
      assert auths[i] in u;
    }
  }

  /** In Sasl, registration has done with the SASL handler exactly what came since it began. */
  lemma {:induction false} SaslIsARun(cfg: Config, auths: seq<Sasl.Logic>, msgs: seq<Msg>)
    requires FromStart(cfg, auths, msgs).Some? && FromStart(cfg, auths, msgs).value.0.phase.InSasl?
    ensures var (st, h, r) := FromStart(cfg, auths, msgs).value;
            SaslSoFar(cfg, auths, r, st.phase.sasl)
  {
    KnowsFromStart(cfg, auths, msgs);
  }

  /** A message that ends SASL, as 900, 903 and 907 do, ends negotiation: with exactly one CAP END,
      or in failure for want of a login or for what the message itself brings. */
  lemma {:induction false} SaslEnds(cfg: Config, st: State, msg: Msg)
    requires st.phase.InSasl? && !Sasl.HandleStep(st.phase.sasl, SaslView(msg)).result.Continue?
    ensures var s := HandleStep(cfg, st, msg);
            if msg.LoggedIn? && msg.account.Some? && !msg.parses then s.outcome == Fail(Broken)
            else if cfg.needsAuth && AccountAfter(st.account, msg).None? then s.outcome == Fail(NoLogin)
            else s.outcome == Continue && s.st.phase == AwaitWelcome && CountEnds(s.sent) == 1
  {
    InSaslStep(cfg, st, msg);
    FromSasl(cfg, st, msg);
  }

  lemma {:induction false} LoginEndsSasl(cfg: Config, st: State, msg: Msg)
    requires st.phase.InSasl? && (msg.LoggedIn? || msg.SaslSuccess? || msg.SaslAlready?)
    ensures var s := HandleStep(cfg, st, msg);
            if msg.LoggedIn? && msg.account.Some? && !msg.parses then s.outcome == Fail(Broken)
            else if cfg.needsAuth && AccountAfter(st.account, msg).None? then s.outcome == Fail(NoLogin)
            else s.outcome == Continue && s.st.phase == AwaitWelcome && CountEnds(s.sent) == 1
  {
    Sasl.SucceedsExactly(st.phase.sasl, SaslView(msg));
    SaslEnds(cfg, st, msg);
  }

  /** In Sasl, exactly what the SASL handler sends is sent for it. */
  lemma {:induction false} SaslSpeaks(cfg: Config, st: State, msg: Msg, o: Sasl.Out)
    requires st.phase.InSasl? && !msg.Ping?
    ensures Auth(o) in HandleStep(cfg, st, msg).sent <==>
            o in Sasl.HandleStep(st.phase.sasl, SaslView(msg)).sent
  {
    InSaslStep(cfg, st, msg);
    var outs := Sasl.HandleStep(st.phase.sasl, SaslView(msg)).sent;
    WrapMember(outs, o);
  }

  lemma {:induction false} WrapMember(outs: seq<Sasl.Out>, o: Sasl.Out)
    ensures Auth(o) in Wrap(outs) <==> o in outs
  {
    if o in outs {
      var i :| 0 <= i < |outs| && outs[i] == o;
      assert Wrap(outs)[i] == Auth(o);
    }
  }

  /** Each numeric of SASL is answered as such: a rejection turns to the next authenticator there is
      and names it, an acknowledged abort names the one at hand again, and a complete challenge is
      replied to, or aborted. */
  lemma {:induction false} SaslAnswers(cfg: Config, st: State, msg: Msg, name: Sasl.Name, n: nat)
    requires st.phase.InSasl?
    ensures var s, sasl := HandleStep(cfg, st, msg), st.phase.sasl;
            var whole := Challenge(msg);
            && (Auth(Sasl.Start(name)) in s.sent <==>
                  || (msg.SaslAborted? && name == sasl.logic.name)
                  || (msg.SaslRejected? && sasl.queue != [] && name == sasl.queue[0].name))
            && (Auth(Sasl.Data(n)) in s.sent <==> whole && msg.verdict == Sasl.Replies(n))
            && (Auth(Sasl.Abort) in s.sent <==> whole && !msg.verdict.Replies?)
  {
    if !msg.Ping? {
      var m := SaslView(msg);
      Sasl.SendsExactly(st.phase.sasl, m);
      SaslSpeaks(cfg, st, msg, Sasl.Start(name));
      SaslSpeaks(cfg, st, msg, Sasl.Data(n));
      SaslSpeaks(cfg, st, msg, Sasl.Abort);
    }
  }

  /** An AUTHENTICATE that completes a challenge. */
  predicate Challenge(msg: Msg) {
    msg.Authenticate? && (msg.chunk.None? || |msg.chunk.value| < Sasl.CHUNK)
  }

  /** The messages that end SASL, exactly. */
  lemma {:induction false} SaslOverIff(cfg: Config, st: State, msg: Msg)
    requires st.phase.InSasl?
    ensures var s, sasl := HandleStep(cfg, st, msg), st.phase.sasl;
            s.outcome.Continue? && !msg.Welcome? ==>
              (!s.st.phase.InSasl? <==>
                 || msg.LoggedIn? || msg.SaslSuccess? || msg.SaslAlready? || msg.SaslTooLong?
                 || (msg.SaslRejected? && sasl.queue == [])
                 || (msg.SaslMechs? && forall l | l in [sasl.logic] + sasl.queue :: l.name !in msg.names)
                 || (Challenge(msg) && msg.verdict.Undecodable?)
                 || (Challenge(msg) && msg.verdict.ReplyFails? && forall l | l in sasl.queue :: l.name == sasl.logic.name))
  {
    if !msg.Ping? {
      var m := SaslView(msg);
      FromSasl(cfg, st, msg);
      Sasl.SucceedsExactly(st.phase.sasl, m);
      Sasl.FailsExactly(st.phase.sasl, m);
    }
  }

  /** A PING is answered by PONG and does nothing else, a refused nick by the next one there is, and
      nothing else is. */
  lemma {:induction false} PongsAndNicks(cfg: Config, st: State, msg: Msg)
    ensures var s := HandleStep(cfg, st, msg);
            && (Pong in s.sent <==> msg.Ping?) && (msg.Ping? ==> s.st == st && s.outcome == Continue)
            && (s.outcome == Fail(NoNicks) <==> msg == NickRefused(None))
            && forall n :: ChangeNick(n) in s.sent <==> msg == NickRefused(Some(n))
  {
    if !msg.Ping? {
      var mid := st.(phase := SaslPart(st.phase, msg).0);
      NicksOfBody(cfg, mid, msg, st.phase.InSasl?);
      PlainOut(cfg, st, msg, Pong);
      forall n ensures ChangeNick(n) in HandleStep(cfg, st, msg).sent <==> msg == NickRefused(Some(n)) {
        PlainOut(cfg, st, msg, ChangeNick(n));
      }
    }
  }

  /** Messages that are neither SASL's nor CAP END come from the handling proper, and so do failures
      other than for want of a login. */
  lemma {:induction false} PlainOut(cfg: Config, st: State, msg: Msg, o: Out)
    requires !msg.Ping? && !o.Auth? && !o.CapEnd?
    ensures var mid := st.(phase := SaslPart(st.phase, msg).0);
            var body, s := OnMsg(cfg, mid, msg, st.phase.InSasl?), HandleStep(cfg, st, msg);
            && (o in s.sent <==> o in body.sent)
            && (s.outcome == Fail(NoNicks) <==> body.outcome == Fail(NoNicks))
  {
    var (ph, auth) := SaslPart(st.phase, msg);
    var body := OnMsg(cfg, st.(phase := ph), msg, st.phase.InSasl?);
    assert o !in auth;
    CloseMember(cfg, body.(sent := auth + body.sent), o);
  }

  lemma {:induction false} CloseMember(cfg: Config, s: Step, o: Out)
    requires !o.CapEnd?
    ensures o in Close(cfg, s).sent <==> o in s.sent
    ensures Close(cfg, s).outcome == Fail(NoNicks) <==> s.outcome == Fail(NoNicks)
  {
  }

  lemma {:induction false} NicksOfBody(cfg: Config, st: State, msg: Msg, inSasl: bool)
    requires !msg.Ping?
    ensures var s := OnMsg(cfg, st, msg, inSasl);
            && Pong !in s.sent
            && (s.outcome == Fail(NoNicks) <==> msg == NickRefused(None))
            && forall n :: ChangeNick(n) in s.sent <==> msg == NickRefused(Some(n))
  {
  }

  /** What the server says has failed, or says before the welcome although it belongs after it, ends
      registration, unless it is SASL's to deal with; nothing else ends it in that way. */
  lemma {:induction false} ServerErrorsExactly(cfg: Config, st: State, msg: Msg)
    ensures var s := HandleStep(cfg, st, msg);
            && (s.outcome == Fail(NoAccessGiven) <==> msg.NoAccess?)
            && (s.outcome == Fail(ServerError) <==>
                  || msg.Error? || msg.Redirect? || (msg.ISupport? && !st.phase.AwaitEnd?)
                  || ((msg.SaslRejected? || msg.SaslTooLong? || msg.SaslAborted? || msg.SaslAlready?) && !st.phase.InSasl?))
  {
  }

  predicate LacksLogin(cfg: Config, st: State) {
    cfg.needsAuth && st.account.None?
  }

  /** What makes no sense, or cannot be read, ends registration as broken; and a greeting that comes
      although a login is lacking ends it for that. */
  lemma {:induction false} BrokenExactly(cfg: Config, st: State, msg: Msg)
    ensures var s := HandleStep(cfg, st, msg);
            && (s.outcome == Fail(Broken) <==>
                  || (msg.MyInfo? && !st.phase.AwaitEnd? && !LacksLogin(cfg, st))
                  || (msg.MotdEnd? && !st.phase.AwaitEnd?)
                  || (msg.CAP? && (msg.cap.LIST? || msg.cap.Malformed?))
                  || (msg.LoggedIn? && msg.account.Some? && !msg.parses)
                  || (msg.LoggedOut? && !msg.parses))
            && ((msg.Welcome? || msg.Greeting? || msg.MyInfo?) && LacksLogin(cfg, st) ==> s.outcome == Fail(NoLogin))
  {
  }

  /** While acknowledgements are awaited, a NAK or DEL that names a capability still pending ends
      registration and names exactly those; a DEL of others only forgets them. */
  lemma {:induction false} RefusalNamed(cfg: Config, auths: seq<Sasl.Logic>, msgs: seq<Msg>, named: Named)
    requires FromStart(cfg, auths, msgs).Some? && FromStart(cfg, auths, msgs).value.0.phase.Ack?
    ensures var (st, h, r) := FromStart(cfg, auths, msgs).value;
            var refused := (h.requested - h.acked) * named.Keys;
            var nak, del := HandleStep(cfg, st, CAP(NAK(named))), HandleStep(cfg, st, CAP(DEL(named)));
            && nak.outcome == (if refused != {} then Fail(MissingCaps(refused)) else Continue)
            && (del.outcome == Crash <==> TwoPresent(st.caps, named))
            && (!del.outcome.Crash? ==> del.outcome == nak.outcome && ValuesOf(del.st.caps) == r.values - named.Keys)
            && (!del.outcome.Crash? && refused == {} ==> del.st.phase == st.phase && del.sent == [])
  {
    KnowsFromStart(cfg, auths, msgs);
    var (st, h, r) := FromStart(cfg, auths, msgs).value;
    NotInSasl(cfg, st, CAP(NAK(named)));
    NotInSasl(cfg, st, CAP(DEL(named)));
    assert st.phase.pending - {} == st.phase.pending;
    assert ValuesOf(st.caps - named.Keys) == ValuesOf(st.caps) - named.Keys;
  }
}
