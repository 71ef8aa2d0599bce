/** The one-shot channel, its senders wrapped in unparkers and its receiver waiting on the parker
    (src/client/handler/channel/oneshot.rs together with parker.rs). One atomic action per step;
    a run is any interleaving of any number of senders with one receiver. */
module Oneshot {
  import Parker

  /** The `Once` guarding the value: untouched, being filled, filled, or spent by the receiver. */
  datatype Once = New | Filling(who: nat) | Filled(who: nat) | Sealed

  /** Where a wrapped sender is. `Ready` still has its sender, `Spent` has used it up, `Gone` has
      been dropped. */
  datatype SenderAt<+V> =
    | Ready
    | Sending(v: V)      // the receiver was seen open
    | Writing(v: V)      // runs the closure of call_once
    | Firing             // sent, about to swap the pointer
    | Waking             // took the thread out of the pointer
    | Spent
    | WakingLast         // dropped as the last one, took the thread out of the pointer
    | Gone

  /** What a call of `send` has answered, with the value it concerned. */
  datatype Answer<+V> = Unasked | Accepted(v: V) | HandedBack(v: V)

  datatype Sender<+V> = Sender(at: SenderAt<V>, answer: Answer<V>)

  /** Where the receiver is: deciding, inside `park`, about to close, in its final `call_once`, done. */
  datatype ReceiverAt<+V> =
    | Deciding
    | Parking(park: Parker.At)
    | Closing
    | Finishing
    | Done(found: Slot<V>)

  datatype Slot<+V> = Nothing | Found(v: V)

  /** `waiting` tells a `recv` on the parker from a bare `recv_now` or a drop, `spurious` whether
      the blocked thread has been woken for no reason. */
  datatype State<V> = State(
    senders: map<nat, Sender<V>>, once: Once, cell: Slot<V>, open: bool,
    ptr: Parker.Pointer, token: bool, at: ReceiverAt<V>, waiting: bool, spurious: bool)

  datatype Action<+V> =
    | Clone(i: nat, j: nat)
    | Send(i: nat, v: V) | CallOnce(i: nat) | Write(i: nat) | Fire(i: nat) | Deliver(i: nat)
    | Drop(i: nat)
    | ReceiveNow | Receive
    | Enter | Exchange | Release | Wake | WakeSpuriously | Upgrade | Store | Leave
    | Close | Finish

  /** No wrapped sender owns a reference to the pointer any more. */
  ghost predicate NoneAlive<V>(senders: map<nat, Sender<V>>) {
    forall i :: i in senders ==> senders[i].at.WakingLast? || senders[i].at.Gone?
  }

  ghost predicate NoneAliveBut<V>(senders: map<nat, Sender<V>>, k: nat) {
    forall i :: i in senders && i != k ==> senders[i].at.WakingLast? || senders[i].at.Gone?
  }

  function Held<V>(s: State<V>): nat {
    if s.at.Parking? then Parker.Held(s.at.park) else 0
  }

  ghost predicate Enabled<V>(s: State<V>, a: Action<V>) {
    match a
    case Clone(i, j) =>
      i in s.senders && j !in s.senders && (s.senders[i].at.Ready? || s.senders[i].at.Spent?)
    case Send(i, _) => i in s.senders && s.senders[i].at.Ready?
    // a call_once waits for one in progress
    case CallOnce(i) => i in s.senders && s.senders[i].at.Sending? && !s.once.Filling?
    case Write(i) => i in s.senders && s.senders[i].at.Writing?
    case Fire(i) => i in s.senders && s.senders[i].at.Firing?
    case Deliver(i) => i in s.senders && (s.senders[i].at.Waking? || s.senders[i].at.WakingLast?)
    case Drop(i) => i in s.senders && (s.senders[i].at.Ready? || s.senders[i].at.Spent?)
    case ReceiveNow => s.at.Deciding?
    case Receive => s.at.Deciding?
    case Enter => s.at == Parking(Parker.Outside)
    case Exchange => s.at == Parking(Parker.Entered)
    case Release => s.at == Parking(Parker.Armed)
    case Wake => s.at == Parking(Parker.Blocked) && s.token
    case WakeSpuriously => s.at == Parking(Parker.Blocked)
    case Upgrade => s.at == Parking(Parker.Woken) || s.at == Parking(Parker.Missed)
    case Store => s.at.Parking? && s.at.park.Clearing?
    case Leave => s.at.Parking? && s.at.park.Leaving? && s.at.park.held > 0
    case Close => s.at.Closing?
    case Finish => s.at.Finishing? && !s.once.Filling?
  }

  function Put<V>(s: State<V>, i: nat, x: Sender<V>): State<V> {
    s.(senders := s.senders[i := x])
  }

  ghost function Apply<V>(s: State<V>, a: Action<V>): State<V>
    requires Enabled(s, a)
  {
    match a
    case Clone(i, j) => Put(s, j, Sender(s.senders[i].at, Unasked))
    case Send(i, v) =>
      if s.open then Put(s, i, Sender(Sending(v), Unasked))
      else Put(s, i, Sender(Spent, HandedBack(v)))
    case CallOnce(i) =>
      var v := s.senders[i].at.v;
      if s.once.New? then Put(s, i, Sender(Writing(v), Unasked)).(once := Filling(i))
      else Put(s, i, Sender(Spent, HandedBack(v)))
    case Write(i) =>
      var v := s.senders[i].at.v;
      Put(s, i, Sender(Firing, Accepted(v))).(once := Filled(i), cell := Found(v))
    case Fire(i) =>
      var next := if s.ptr.Parked? then Waking else Spent;
      Put(s, i, s.senders[i].(at := next)).(ptr := Parker.SkipParking)
    case Deliver(i) =>
      var next := if s.senders[i].at.Waking? then Spent else Gone;
      Put(s, i, s.senders[i].(at := next)).(token := true)
    case Drop(i) =>
      var last := NoneAliveBut(s.senders, i) && Held(s) == 0;
      var next := if last && s.ptr.Parked? then WakingLast else Gone;
      Put(s, i, s.senders[i].(at := next))
    case ReceiveNow => s.(at := Closing)
    case Receive =>
      var s' := s.(waiting := true);
      if s.once.Filled? || s.once.Sealed? then s'.(at := Closing)
      else s'.(at := Parking(Parker.Outside))
    case Enter => s.(at := if NoneAlive(s.senders) then Closing else Parking(Parker.Entered))
    case Exchange =>
      if s.ptr.Null? then s.(ptr := Parker.Parked, at := Parking(Parker.Armed))
      else s.(at := Parking(Parker.Missed))
    case Release => s.(at := if NoneAlive(s.senders) then Closing else Parking(Parker.Blocked))
    case Wake => s.(token := false, at := Parking(Parker.Woken))
    case WakeSpuriously => s.(spurious := true, at := Parking(Parker.Woken))
    case Upgrade =>
      if NoneAlive(s.senders) && Held(s) == 0 then s.(at := Closing)
      else s.(at := Parking(Parker.Clearing(Held(s) + 1)))
    case Store => s.(ptr := Parker.Null, at := Parking(Parker.Leaving(s.at.park.held)))
    case Leave =>
      s.(at := if s.at.park.held == 1 then Closing else Parking(Parker.Leaving(s.at.park.held - 1)))
    case Close => s.(open := false, at := Finishing)
    case Finish =>
      if s.once.New? then s.(once := Sealed, at := Done(Nothing)) else s.(at := Done(s.cell))
  }

  /** One sender, one receiver, nothing sent. */
  ghost predicate Initial<V>(s: State<V>) {
    s == State(map[0 := Sender(Ready, Unasked)], New, Nothing, true, Parker.Null, false, Deciding, false, false)
  }

  ghost predicate IsRun<V>(s: State<V>, actions: seq<Action<V>>)
    decreases |actions|
  {
    actions == [] || (Enabled(s, actions[0]) && IsRun(Apply(s, actions[0]), actions[1..]))
  }

  ghost function Final<V>(s: State<V>, actions: seq<Action<V>>): State<V>
    requires IsRun(s, actions)
    decreases |actions|
  {
    if actions == [] then s else Final(Apply(s, actions[0]), actions[1..])
  }

  // ---------------------------------------------------------------------------
  // The exchange of the value

  predicate SenderOk<V>(x: Sender<V>, i: nat, once: Once) {
    && (x.at.Writing? <==> once == Filling(i))
    && (x.answer.Accepted? <==> once == Filled(i))
    && (x.at.Firing? || x.at.Waking? ==> x.answer.Accepted?)
    && (x.at.Ready? || x.at.Sending? ==> x.answer.Unasked?)
  }

  ghost predicate SendersOk<V>(senders: map<nat, Sender<V>>, once: Once) {
    forall i | i in senders :: SenderOk(senders[i], i, once)
  }

  /** Who may write, who has been accepted, and what the cell and the receiver hold. */
  ghost predicate OnceInv<V>(s: State<V>) {
    && SendersOk(s.senders, s.once)
    && (s.once.Filling? ==> s.once.who in s.senders)
    && (s.once.Filled? ==> s.once.who in s.senders && s.cell == Found(s.senders[s.once.who].answer.v))
    && (s.once.Sealed? <==> s.at == Done(Nothing))
    && (s.at.Done? && s.at.found.Found? ==> s.once.Filled? && s.at.found == s.cell)
  }

  predicate OfSender<V>(a: Action<V>) {
    a.Clone? || a.Send? || a.CallOnce? || a.Write? || a.Fire? || a.Deliver? || a.Drop?
  }

  lemma {:induction false} OnceStepSend<V>(s: State<V>, i: nat, v: V)
    requires OnceInv(s) && Enabled(s, Send(i, v))
    ensures OnceInv(Apply(s, Send(i, v)))
  {
  }

  lemma {:induction false} OnceStepCall<V>(s: State<V>, i: nat)
    requires OnceInv(s) && Enabled(s, CallOnce(i))
    ensures OnceInv(Apply(s, CallOnce(i)))
  {
  }

  lemma {:induction false} OnceStepWrite<V>(s: State<V>, a: Action<V>)
    requires OnceInv(s) && Enabled(s, a) && a.Write?
    ensures OnceInv(Apply(s, a))
  {
  }

  lemma {:induction false} OnceStepSender<V>(s: State<V>, a: Action<V>)
    requires OnceInv(s) && Enabled(s, a) && (a.Clone? || a.Fire? || a.Deliver? || a.Drop?)
    ensures OnceInv(Apply(s, a))
  {
  }

  lemma {:induction false} OnceStepFinish<V>(s: State<V>)
    requires OnceInv(s) && Enabled(s, Finish)
    ensures OnceInv(Apply(s, Finish))
  {
    if s.once.New? { assert SendersOk(s.senders, Sealed); }
  }

  lemma {:induction false} OnceStepReceiver<V>(s: State<V>, a: Action<V>)
    requires OnceInv(s) && Enabled(s, a) && !OfSender(a) && !a.Finish?
    ensures OnceInv(Apply(s, a))
  {
    var s' := Apply(s, a);
    assert s'.senders == s.senders && s'.once == s.once && s'.cell == s.cell && !s'.at.Done?;
  }

  lemma {:induction false} OnceStep<V>(s: State<V>, a: Action<V>)
    requires OnceInv(s) && Enabled(s, a)
    ensures OnceInv(Apply(s, a))
  {
    if a.Send? {
      OnceStepSend(s, a.i, a.v);
    } else if a.CallOnce? {
      OnceStepCall(s, a.i);
    } else if a.Finish? {
      OnceStepFinish(s);
    } else if a.Write? {
      OnceStepWrite(s, a);
    } else if OfSender(a) {
      OnceStepSender(s, a);
    } else {
      OnceStepReceiver(s, a);
    }
  }

  // ---------------------------------------------------------------------------
  // The wait

  predicate BringsWake<V>(at: SenderAt<V>) {
    at.Firing? || at.Waking? || at.WakingLast?
  }

  ghost predicate WakePending<V>(senders: map<nat, Sender<V>>) {
    exists i :: i in senders && BringsWake(senders[i].at)
  }

  ghost predicate Fulfilled<V>(s: State<V>) {
    s.once.Filled? || NoneAlive(s.senders)
  }

  /** What the receiver knows at each point of a wait that no spurious wake-up has cut short. */
  ghost predicate WaitInv<V>(s: State<V>)
    requires OnceInv(s)
  {
    && (s.ptr.SkipParking? ==> s.once.Filled?)
    && (s.token ==> Fulfilled(s))
    && (forall i | i in s.senders && s.senders[i].at.WakingLast? :: NoneAlive(s.senders))
    && (s.at == Parking(Parker.Outside) || s.at == Parking(Parker.Entered) ==> !s.ptr.Parked?)
    && (s.at == Parking(Parker.Missed) ==> s.once.Filled?)
    && (s.at == Parking(Parker.Armed) || s.at == Parking(Parker.Blocked) ==> !s.ptr.Null?)
    && (s.at.Deciding? ==> !s.ptr.Parked? && !s.waiting)
    && (s.at.Parking? ==> s.waiting)
    && (s.waiting && !s.spurious ==>
          match s.at
          case Deciding => true
          case Parking(p) =>
            p.Outside? || p.Entered? || p.Armed? || p.Blocked? || Fulfilled(s)
          case Closing => Fulfilled(s)
          case Finishing => Fulfilled(s)
          case Done(_) => Fulfilled(s))
    && (s.at.Parking? && (s.at.park.Clearing? || s.at.park.Leaving?) ==> s.at.park.held > 0)
    // until the accepted sender has swapped the pointer it is about to do so
    && (s.once.Filled? && BeforeWake(s.at) && !s.ptr.SkipParking? ==> s.senders[s.once.who].at.Firing?)
    // and once it has, a parked receiver has its token or is about to get it
    && (s.once.Filled? && s.at.Parking? && (s.at.park.Armed? || s.at.park.Blocked?) && s.ptr.SkipParking? ==>
          s.token || s.senders[s.once.who].at.Waking?)
    && (s.at == Parking(Parker.Blocked) && NoneAlive(s.senders) ==> s.token || WakePending(s.senders))
  }

  predicate BeforeWake<V>(at: ReceiverAt<V>) {
    at.Deciding? || (at.Parking? && (at.park.Outside? || at.park.Entered? || at.park.Armed? || at.park.Blocked?))
  }

  lemma {:induction false} WaitStepClone<V>(s: State<V>, i: nat, j: nat)
    requires OnceInv(s) && WaitInv(s) && Enabled(s, Clone(i, j)) && OnceInv(Apply(s, Clone(i, j)))
    ensures WaitInv(Apply(s, Clone(i, j)))
  {
    var s' := Apply(s, Clone(i, j));
    assert j in s'.senders && !NoneAlive(s'.senders);
  }

  lemma {:induction false} WaitStepSend<V>(s: State<V>, i: nat, v: V)
    requires OnceInv(s) && WaitInv(s) && Enabled(s, Send(i, v)) && OnceInv(Apply(s, Send(i, v)))
    ensures WaitInv(Apply(s, Send(i, v)))
  {
    var s' := Apply(s, Send(i, v));
    assert i in s'.senders && !NoneAlive(s'.senders);
  }

  lemma {:induction false} WaitStepCall<V>(s: State<V>, i: nat)
    requires OnceInv(s) && WaitInv(s) && Enabled(s, CallOnce(i)) && OnceInv(Apply(s, CallOnce(i)))
    ensures WaitInv(Apply(s, CallOnce(i)))
  {
    var s' := Apply(s, CallOnce(i));
    assert i in s'.senders && !NoneAlive(s'.senders);
  }

  lemma {:induction false} WaitStepWrite<V>(s: State<V>, i: nat)
    requires OnceInv(s) && WaitInv(s) && Enabled(s, Write(i)) && OnceInv(Apply(s, Write(i)))
    ensures WaitInv(Apply(s, Write(i)))
  {
    var s' := Apply(s, Write(i));
    assert i in s'.senders && !NoneAlive(s'.senders);
  }

  lemma {:induction false} WaitStepFire<V>(s: State<V>, i: nat)
    requires OnceInv(s) && WaitInv(s) && Enabled(s, Fire(i)) && OnceInv(Apply(s, Fire(i)))
    ensures WaitInv(Apply(s, Fire(i)))
  {
    var s' := Apply(s, Fire(i));
    assert i in s'.senders && !NoneAlive(s'.senders);
  }

  lemma {:induction false} WaitStepDeliver<V>(s: State<V>, i: nat)
    requires OnceInv(s) && WaitInv(s) && Enabled(s, Deliver(i)) && OnceInv(Apply(s, Deliver(i)))
    ensures WaitInv(Apply(s, Deliver(i)))
  {
    assert i in Apply(s, Deliver(i)).senders;
  }

  lemma {:induction false} WaitStepDrop<V>(s: State<V>, i: nat)
    requires OnceInv(s) && WaitInv(s) && Enabled(s, Drop(i)) && OnceInv(Apply(s, Drop(i)))
    ensures WaitInv(Apply(s, Drop(i)))
  {
    var s' := Apply(s, Drop(i));
    if NoneAlive(s'.senders) {
      assert NoneAliveBut(s.senders, i) by {
        forall k | k in s.senders && k != i
          ensures s.senders[k].at.WakingLast? || s.senders[k].at.Gone?
        {
          assert s'.senders[k] == s.senders[k];
        }
      }
      if s'.senders[i].at.WakingLast? { assert WakePending(s'.senders); }
    }
  }

  predicate IntoPark<V>(a: Action<V>) {
    a.Enter? || a.Exchange? || a.Release? || a.Wake? || a.WakeSpuriously?
  }

  lemma {:induction false} WaitStepIntoPark<V>(s: State<V>, a: Action<V>)
    requires OnceInv(s) && WaitInv(s) && Enabled(s, a) && OnceInv(Apply(s, a)) && IntoPark(a)
    ensures WaitInv(Apply(s, a))
  {
    assert Apply(s, a).senders == s.senders && Apply(s, a).once == s.once;
  }

  lemma {:induction false} WaitStepUpgrade<V>(s: State<V>)
    requires OnceInv(s) && WaitInv(s) && Enabled(s, Upgrade) && OnceInv(Apply(s, Upgrade))
    ensures WaitInv(Apply(s, Upgrade))
  {
  }

  lemma {:induction false} WaitStepStore<V>(s: State<V>)
    requires OnceInv(s) && WaitInv(s) && Enabled(s, Store) && OnceInv(Apply(s, Store))
    ensures WaitInv(Apply(s, Store))
  {
  }

  lemma {:induction false} WaitStepLeave<V>(s: State<V>)
    requires OnceInv(s) && WaitInv(s) && Enabled(s, Leave) && OnceInv(Apply(s, Leave))
    ensures WaitInv(Apply(s, Leave))
  {
  }

  lemma {:induction false} WaitStepReceiver<V>(s: State<V>, a: Action<V>)
    requires OnceInv(s) && WaitInv(s) && Enabled(s, a) && OnceInv(Apply(s, a))
    requires a.ReceiveNow? || a.Receive? || a.Close? || a.Finish?
    ensures WaitInv(Apply(s, a))
  {
    assert Apply(s, a).senders == s.senders;
  }

  lemma {:induction false} WaitStep<V>(s: State<V>, a: Action<V>)
    requires OnceInv(s) && WaitInv(s) && Enabled(s, a)
    ensures OnceInv(Apply(s, a)) && WaitInv(Apply(s, a))
  {
    OnceStep(s, a);
    match a {
      case Clone(i, j) => WaitStepClone(s, i, j);
      case Send(i, v) => WaitStepSend(s, i, v);
      case CallOnce(i) => WaitStepCall(s, i);
      case Write(i) => WaitStepWrite(s, i);
      case Fire(i) => WaitStepFire(s, i);
      case Deliver(i) => WaitStepDeliver(s, i);
      case Drop(i) => WaitStepDrop(s, i);
      case Upgrade => WaitStepUpgrade(s);
      case Store => WaitStepStore(s);
      case Leave => WaitStepLeave(s);
      case _ => if IntoPark(a) { WaitStepIntoPark(s, a); } else { WaitStepReceiver(s, a); }
    }
  }

  // ---------------------------------------------------------------------------
  // Over whole runs

  lemma {:induction false} InvRun<V>(s: State<V>, actions: seq<Action<V>>)
    requires OnceInv(s) && WaitInv(s) && IsRun(s, actions)
    ensures OnceInv(Final(s, actions)) && WaitInv(Final(s, actions))
    decreases |actions|
  {
    if actions != [] {
      WaitStep(s, actions[0]);
      InvRun(Apply(s, actions[0]), actions[1..]);
    }
  }

  lemma {:induction false} InvReachable<V>(s0: State<V>, actions: seq<Action<V>>)
    requires Initial(s0) && IsRun(s0, actions)
    ensures OnceInv(Final(s0, actions)) && WaitInv(Final(s0, actions))
  {
    InvRun(s0, actions);
  }

  /** In every interleaving at most one `send` is accepted, and when the receiver is done, what it
      found is exactly the value accepted; it found nothing exactly if none was. */
  lemma {:induction false} AtMostOneAccepted<V>(s0: State<V>, actions: seq<Action<V>>)
    requires Initial(s0) && IsRun(s0, actions)
    ensures var s := Final(s0, actions);
            && (forall i, j | i in s.senders && j in s.senders ::
                  s.senders[i].answer.Accepted? && s.senders[j].answer.Accepted? ==> i == j)
            && (s.at.Done? ==> forall i | i in s.senders && s.senders[i].answer.Accepted? ::
                  s.at.found == Found(s.senders[i].answer.v))
            && (s.at.Done? && s.at.found.Found? ==>
                  exists i :: i in s.senders && s.senders[i].answer == Accepted(s.at.found.v))
  {
    InvReachable(s0, actions);
    var s := Final(s0, actions);
    if s.at.Done? && s.at.found.Found? {
      assert s.once.who in s.senders && s.senders[s.once.who].answer == Accepted(s.at.found.v);
    }
  }

  /** What a sender was given to send, over a run: the value of its last `send`. */
  ghost function Given<V>(actions: seq<Action<V>>, i: nat, before: Slot<V>): Slot<V>
    decreases |actions|
  {
    if actions == [] then before
    else
      var a := actions[0];
      Given(actions[1..], i, if a.Send? && a.i == i then Found(a.v) else before)
  }

  /** The value a sender is busy with or has an answer about. */
  function Concerned<V>(x: Sender<V>): Slot<V> {
    if x.at.Sending? || x.at.Writing? then Found(x.at.v)
    else match x.answer
         case Unasked => Nothing
         case Accepted(v) => Found(v)
         case HandedBack(v) => Found(v)
  }

  lemma {:induction false} ConcernedStep<V>(s: State<V>, a: Action<V>, i: nat)
    requires Enabled(s, a) && i in s.senders
    ensures i in Apply(s, a).senders
    ensures Concerned(Apply(s, a).senders[i]) ==
            if a.Send? && a.i == i then Found(a.v) else Concerned(s.senders[i])
  {
    if OfSender(a) {
      ConcernedSender(s, a, i);
    } else {
      assert Apply(s, a).senders == s.senders;
    }
  }

  /** Whose state an action of a sender changes. */
  function Actor<V>(a: Action<V>): nat
    requires OfSender(a)
  {
    if a.Clone? then a.j else a.i
  }

  lemma {:induction false} OthersUnchanged<V>(s: State<V>, a: Action<V>, i: nat)
    requires Enabled(s, a) && i in s.senders && OfSender(a) && i != Actor(a)
    ensures i in Apply(s, a).senders && Apply(s, a).senders[i] == s.senders[i]
  {
    var s', k := Apply(s, a), Actor(a);
    match a {
      case Clone(_, _) => assert s'.senders == s.senders[k := s'.senders[k]];
      case Send(_, _) => assert s'.senders == s.senders[k := s'.senders[k]];
      case CallOnce(_) => assert s'.senders == s.senders[k := s'.senders[k]];
      case Write(_) => assert s'.senders == s.senders[k := s'.senders[k]];
      case Fire(_) => assert s'.senders == s.senders[k := s'.senders[k]];
      case Deliver(_) => assert s'.senders == s.senders[k := s'.senders[k]];
      case Drop(_) => assert s'.senders == s.senders[k := s'.senders[k]];
    }
  }

  lemma {:induction false} ConcernedSender<V>(s: State<V>, a: Action<V>, i: nat)
    requires Enabled(s, a) && i in s.senders && OfSender(a)
    ensures i in Apply(s, a).senders
    ensures Concerned(Apply(s, a).senders[i]) ==
            if a.Send? && a.i == i then Found(a.v) else Concerned(s.senders[i])
  {
    if i != Actor(a) {
      OthersUnchanged(s, a, i);
    } else {
      match a {
        case Send(_, _) =>
        case CallOnce(_) =>
        case Write(_) =>
        case Fire(_) =>
        case Deliver(_) =>
        case Drop(_) =>
        case _ =>
      }
    }
  }

  /** Every answer is about the sender's own value: a `send` that is not accepted hands back the
      very value it was given. */
  lemma {:induction false} OwnValueBack<V>(s: State<V>, actions: seq<Action<V>>, i: nat)
    requires IsRun(s, actions) && i in s.senders
    ensures i in Final(s, actions).senders
    ensures Concerned(Final(s, actions).senders[i]) == Given(actions, i, Concerned(s.senders[i]))
    decreases |actions|
  {
    if actions != [] {
      ConcernedStep(s, actions[0], i);
      OwnValueBack(Apply(s, actions[0]), actions[1..], i);
    }
  }

  // ---------------------------------------------------------------------------
  // When a value is accepted and when it is handed back

  /** The receiver is open until it closes, and a value is handed back only to a closed receiver or
      behind one accepted. */
  ghost predicate AnswerInv<V>(s: State<V>) {
    && (s.open <==> !(s.at.Finishing? || s.at.Done?))
    && forall i | i in s.senders :: s.senders[i].answer.HandedBack? ==> !s.open || s.once.Filled?
  }

  lemma {:induction false} AnswerStep<V>(s: State<V>, a: Action<V>)
    requires OnceInv(s) && AnswerInv(s) && Enabled(s, a)
    ensures AnswerInv(Apply(s, a))
  {
    var s' := Apply(s, a);
    OpenStep(s, a);
    if s.once.Filled? { FilledStep(s, a); }
    forall i | i in s'.senders && s'.senders[i].answer.HandedBack? ensures !s'.open || s'.once.Filled? {
      if OfSender(a) && i == Actor(a) {
        AnswerOfActor(s, a);
      } else if OfSender(a) {
        ActorOnly(s, a, i);
      } else {
        assert s'.senders == s.senders;
      }
    }
  }

  /** An action of a sender adds nobody but its actor. */
  lemma {:induction false} ActorOnly<V>(s: State<V>, a: Action<V>, i: nat)
    requires Enabled(s, a) && OfSender(a) && i in Apply(s, a).senders && i != Actor(a)
    ensures i in s.senders && Apply(s, a).senders[i] == s.senders[i]
  {
    var s', k := Apply(s, a), Actor(a);
    match a {
      case Clone(_, _) => assert s'.senders == s.senders[k := s'.senders[k]];
      case Send(_, _) => assert s'.senders == s.senders[k := s'.senders[k]];
      case CallOnce(_) => assert s'.senders == s.senders[k := s'.senders[k]];
      case Write(_) => assert s'.senders == s.senders[k := s'.senders[k]];
      case Fire(_) => assert s'.senders == s.senders[k := s'.senders[k]];
      case Deliver(_) => assert s'.senders == s.senders[k := s'.senders[k]];
      case Drop(_) => assert s'.senders == s.senders[k := s'.senders[k]];
    }
  }

  lemma {:induction false} OpenStep<V>(s: State<V>, a: Action<V>)
    requires Enabled(s, a) && (s.open <==> !(s.at.Finishing? || s.at.Done?))
    ensures var s' := Apply(s, a);
            (s'.open <==> s.open && !a.Close?) && (s'.open <==> !(s'.at.Finishing? || s'.at.Done?))
  {
    if OfSender(a) { assert Apply(s, a).at == s.at && Apply(s, a).open == s.open; }
  }

  lemma {:induction false} FilledStep<V>(s: State<V>, a: Action<V>)
    requires OnceInv(s) && Enabled(s, a) && s.once.Filled?
    ensures Apply(s, a).once == s.once
  {
    match a {
      case Write(_) => OnlyWriterWrites(s, a);
      case CallOnce(_) =>
      case Finish =>
      case _ => assert Apply(s, a).once == s.once;
    }
  }

  lemma {:induction false} OnlyWriterWrites<V>(s: State<V>, a: Action<V>)
    requires SendersOk(s.senders, s.once) && Enabled(s, a) && a.Write?
    ensures s.once == Filling(a.i)
  {
    assert SenderOk(s.senders[a.i], a.i, s.once);
  }

  lemma {:induction false} AnswerOfActor<V>(s: State<V>, a: Action<V>)
    requires OnceInv(s) && AnswerInv(s) && Enabled(s, a) && OfSender(a)
    requires Apply(s, a).senders[Actor(a)].answer.HandedBack?
    ensures !s.open || s.once.Filled?
  {
    match a {
      case Clone(_, _) =>
      case Send(_, _) =>
      case CallOnce(_) =>
      case Write(_) =>
      case Fire(_) =>
      case Deliver(_) =>
      case Drop(_) =>
    }
  }

  lemma {:induction false} AnswerRun<V>(s: State<V>, actions: seq<Action<V>>)
    requires OnceInv(s) && AnswerInv(s) && IsRun(s, actions)
    ensures AnswerInv(Final(s, actions))
    ensures Final(s, actions).open <==> s.open && Close !in actions
    decreases |actions|
  {
    if actions != [] {
      OnceStep(s, actions[0]);
      AnswerStep(s, actions[0]);
      OpenStep(s, actions[0]);
      AnswerRun(Apply(s, actions[0]), actions[1..]);
    }
  }

  /** In every interleaving a value is handed back only if the receiver has closed or the value of
      another sender has been accepted. */
  lemma {:induction false} HandedBackForAReason<V>(s0: State<V>, actions: seq<Action<V>>, i: nat)
    requires Initial(s0) && IsRun(s0, actions)
    requires i in Final(s0, actions).senders && Final(s0, actions).senders[i].answer.HandedBack?
    ensures var senders := Final(s0, actions).senders;
            Close in actions || exists j :: j in senders && j != i && senders[j].answer.Accepted?
  {
    InvReachable(s0, actions);
    AnswerRun(s0, actions);
    var s := Final(s0, actions);
    if s.open { assert s.once.who in s.senders && s.senders[s.once.who].answer.Accepted?; }
  }

  /** As long as the receiver has not closed, exactly one `send` has been accepted once any has been
      answered. */
  lemma {:induction false} OpenReceiverAcceptsOne<V>(s0: State<V>, actions: seq<Action<V>>, i: nat)
    requires Initial(s0) && IsRun(s0, actions) && Close !in actions
    requires i in Final(s0, actions).senders && !Final(s0, actions).senders[i].answer.Unasked?
    ensures var senders := Final(s0, actions).senders;
            exists j :: && j in senders && senders[j].answer.Accepted?
                        && forall k | k in senders && senders[k].answer.Accepted? :: k == j
  {
    InvReachable(s0, actions);
    AnswerRun(s0, actions);
    var s := Final(s0, actions);
    var j := if s.senders[i].answer.Accepted? then i else s.once.who;
    assert j in s.senders && s.senders[j].answer.Accepted?;
  }

  /** Once the receiver has closed, no `send` that begins is accepted: whoever is accepted later had
      begun before. */
  ghost predicate Begun<V>(s: State<V>, i: nat) {
    i in s.senders && (s.senders[i].at.Sending? || s.senders[i].at.Writing? || s.senders[i].answer.Accepted?)
  }

  lemma {:induction false} BegunStep<V>(s: State<V>, a: Action<V>, i: nat)
    requires Enabled(s, a) && !s.open && Begun(Apply(s, a), i)
    ensures Begun(s, i)
  {
    if OfSender(a) {
      if i != Actor(a) {
        ActorOnly(s, a, i);
      } else {
        match a {
          case Clone(_, _) =>
          case Send(_, _) =>
          case CallOnce(_) =>
          case Write(_) =>
          case Fire(_) =>
          case Deliver(_) =>
          case Drop(_) =>
        }
      }
    } else {
      assert Apply(s, a).senders == s.senders;
    }
  }

  lemma {:induction false} NoneBeginsAfterClose<V>(s: State<V>, actions: seq<Action<V>>, i: nat)
    requires OnceInv(s) && AnswerInv(s) && !s.open && IsRun(s, actions)
    requires i in Final(s, actions).senders && Final(s, actions).senders[i].answer.Accepted?
    ensures Begun(s, i)
    decreases |actions|
  {
    if actions != [] {
      var s' := Apply(s, actions[0]);
      OnceStep(s, actions[0]);
      AnswerStep(s, actions[0]);
      OpenStep(s, actions[0]);
      NoneBeginsAfterClose(s', actions[1..], i);
      BegunStep(s, actions[0], i);
    }
  }

  // ---------------------------------------------------------------------------
  // A run that delivers

  lemma {:induction false} ClosesFull<V>(s: State<V>) returns (actions: seq<Action<V>>)
    requires s.at == Parking(Parker.Clearing(1)) && s.once.Filled?
    ensures IsRun(s, actions) && Final(s, actions).at == Done(s.cell)
  {
    var s1 := Apply(s, Store);
    var s2 := Apply(s1, Leave);
    var s3 := Apply(s2, Close);
    RunOne(s3, Finish, []);
    RunOne(s2, Close, [Finish]);
    RunOne(s1, Leave, [Close] + [Finish]);
    RunOne(s, Store, [Leave] + ([Close] + [Finish]));
    actions := [Store] + ([Leave] + ([Close] + [Finish]));
  }

  lemma {:induction false} WakesFull<V>(s: State<V>) returns (actions: seq<Action<V>>)
    requires s.at == Parking(Parker.Blocked) && s.token && s.once.Filled?
    requires 0 in s.senders && s.senders[0].at.Spent?
    ensures IsRun(s, actions) && Final(s, actions).at == Done(s.cell)
  {
    assert !NoneAlive(s.senders);
    var s1 := Apply(s, Wake);
    var s2 := Apply(s1, Upgrade);
    actions := ClosesFull(s2);
    RunOne(s1, Upgrade, actions);
    actions := [Upgrade] + actions;
    RunOne(s, Wake, actions);
    actions := [Wake] + actions;
  }

  lemma {:induction false} Fires<V>(s: State<V>, v: V) returns (actions: seq<Action<V>>)
    requires s.at == Parking(Parker.Blocked) && s.ptr.Parked?
    requires 0 in s.senders && s.senders[0].at.Firing? && s.once.Filled? && s.cell == Found(v)
    ensures IsRun(s, actions) && Final(s, actions).at == Done(Found(v))
  {
    var s1 := Apply(s, Fire(0));
    var s2 := Apply(s1, Deliver(0));
    actions := WakesFull(s2);
    RunOne(s1, Deliver(0), actions);
    actions := [Deliver(0)] + actions;
    RunOne(s, Fire(0), actions);
    actions := [Fire(0)] + actions;
  }

  lemma {:induction false} Sends<V>(s: State<V>, v: V) returns (actions: seq<Action<V>>)
    requires s.at == Parking(Parker.Blocked) && s.ptr.Parked? && s.open && s.once.New?
    requires 0 in s.senders && s.senders[0].at.Ready?
    ensures IsRun(s, actions) && Final(s, actions).at == Done(Found(v))
  {
    var s1 := Apply(s, Send(0, v));
    var s2 := Apply(s1, CallOnce(0));
    var s3 := Apply(s2, Write(0));
    actions := Fires(s3, v);
    RunOne(s2, Write(0), actions);
    actions := [Write(0)] + actions;
    RunOne(s1, CallOnce(0), actions);
    actions := [CallOnce(0)] + actions;
    RunOne(s, Send(0, v), actions);
    actions := [Send(0, v)] + actions;
  }

  /** Any value can be delivered to a receiver that blocks for it. */
  lemma {:induction false} ValueIsDelivered<V>(s0: State<V>, v: V) returns (actions: seq<Action<V>>)
    requires Initial(s0)
    ensures IsRun(s0, actions) && Final(s0, actions).at == Done(Found(v))
  {
    var s1 := Apply(s0, Receive);
    assert 0 in s1.senders && !NoneAlive(s1.senders);
    var s2 := Apply(s1, Enter);
    var s3 := Apply(s2, Exchange);
    var s4 := Apply(s3, Release);
    actions := Sends(s4, v);
    RunOne(s3, Release, actions);
    actions := [Release] + actions;
    RunOne(s2, Exchange, actions);
    actions := [Exchange] + actions;
    RunOne(s1, Enter, actions);
    actions := [Enter] + actions;
    RunOne(s0, Receive, actions);
    actions := [Receive] + actions;
  }

  // ---------------------------------------------------------------------------
  // Nobody gets stuck

  /** In every reachable state the receiver is done, or blocked without a token, or waits in its
      final `call_once` for a sender that is writing, or can act. */
  lemma {:induction false} ReceiverCanAct<V>(s0: State<V>, actions: seq<Action<V>>)
    requires Initial(s0) && IsRun(s0, actions)
    ensures var s := Final(s0, actions);
            || s.at.Done? || (s.at == Parking(Parker.Blocked) && !s.token)
            || (s.at.Finishing? && s.once.Filling? && Enabled(s, Write(s.once.who)))
            || exists a :: !OfSender(a) && !a.WakeSpuriously? && Enabled(s, a)
  {
    InvReachable(s0, actions);
    var s := Final(s0, actions);
    match s.at {
      case Deciding => assert Enabled(s, Receive);
      case Closing => assert Enabled(s, Close);
      case Finishing => if !s.once.Filling? { assert Enabled(s, Finish); }
      case Done(_) =>
      case Parking(p) =>
        var a := match p {
          case Outside => Enter
          case Entered => Exchange
          case Armed => Release
          case Blocked => Wake
          case Missed => Upgrade
          case Woken => Upgrade
          case Clearing(_) => Store
          case Leaving(_) => Leave
        };
        if !p.Blocked? || s.token { assert Enabled(s, a) && !OfSender(a); }
    }
  }

  /** A sender in the middle of a `send`, or with a thread to wake, can act, unless it waits for
      another one to finish writing, which can. */
  lemma {:induction false} SenderCanAct<V>(s0: State<V>, actions: seq<Action<V>>, i: nat)
    requires Initial(s0) && IsRun(s0, actions) && i in Final(s0, actions).senders
    ensures var s := Final(s0, actions);
            match s.senders[i].at
            case Sending(_) => Enabled(s, CallOnce(i)) || (s.once.Filling? && Enabled(s, Write(s.once.who)))
            case Writing(_) => Enabled(s, Write(i))
            case Firing => Enabled(s, Fire(i))
            case Waking => Enabled(s, Deliver(i))
            case WakingLast => Enabled(s, Deliver(i))
            case _ => true
  {
    InvReachable(s0, actions);
  }

  /** A `recv` on the parker that no spurious wake-up cuts short returns nothing only after every
      wrapped sender was dropped without any having been accepted. */
  lemma {:induction false} NothingOnlyIfAllDropped<V>(s0: State<V>, actions: seq<Action<V>>)
    requires Initial(s0) && IsRun(s0, actions)
    ensures var s := Final(s0, actions);
            s.waiting && !s.spurious && s.at == Done(Nothing) ==>
              forall i | i in s.senders ::
                !s.senders[i].answer.Accepted? && (s.senders[i].at.WakingLast? || s.senders[i].at.Gone?)
  {
    InvReachable(s0, actions);
  }

  /** A `recv` blocks only while there is no reason to return: once a value has been accepted or no
      wrapped sender is left, the blocked thread has its token or some sender is about to give it. */
  lemma {:induction false} BlockedOnlyWithoutReason<V>(s0: State<V>, actions: seq<Action<V>>)
    requires Initial(s0) && IsRun(s0, actions)
    ensures var s := Final(s0, actions);
            s.at == Parking(Parker.Blocked) && Fulfilled(s) ==> s.token || WakePending(s.senders)
  {
    InvReachable(s0, actions);
    var s := Final(s0, actions);
    if s.at == Parking(Parker.Blocked) && s.once.Filled? && !s.token {
      assert BringsWake(s.senders[s.once.who].at);
    }
  }

  lemma {:induction false} RunOne<V>(s: State<V>, a: Action<V>, rest: seq<Action<V>>)
    requires Enabled(s, a) && IsRun(Apply(s, a), rest)
    ensures IsRun(s, [a] + rest) && Final(s, [a] + rest) == Final(Apply(s, a), rest)
  {
    assert ([a] + rest)[1..] == rest;
  }

  lemma {:induction false} ClosesEmpty<V>(s8: State<V>) returns (actions: seq<Action<V>>)
    requires s8.at.Closing? && s8.once.New? && s8.cell.Nothing?
    ensures IsRun(s8, actions)
    ensures var s := Final(s8, actions);
            s.waiting == s8.waiting && s.at == Done(Nothing) && s.senders == s8.senders
  {
    var s9 := Apply(s8, Close);
    actions := [];
    RunOne(s9, Finish, actions);
    actions := [Finish] + actions;
    RunOne(s8, Close, actions);
    actions := [Close] + actions;
  }

  lemma {:induction false} LeavesPark<V>(s6: State<V>) returns (actions: seq<Action<V>>)
    requires s6.at.Parking? && s6.at.park == Parker.Clearing(1)
    requires s6.once.New? && s6.cell.Nothing?
    ensures IsRun(s6, actions)
    ensures var s := Final(s6, actions);
            s.waiting == s6.waiting && s.at == Done(Nothing) && s.senders == s6.senders
  {
    var s7 := Apply(s6, Store);
    var s8 := Apply(s7, Leave);
    actions := ClosesEmpty(s8);
    RunOne(s7, Leave, actions);
    actions := [Leave] + actions;
    RunOne(s6, Store, actions);
    actions := [Store] + actions;
  }

  /** A thread woken while its sender is ready finds nothing and gives up waiting. */
  lemma {:induction false} WokenForNothing<V>(s4: State<V>) returns (actions: seq<Action<V>>)
    requires s4.at == Parking(Parker.Blocked) && s4.waiting && s4.once.New? && s4.cell.Nothing?
    requires 0 in s4.senders && s4.senders[0].at.Ready?
    ensures IsRun(s4, actions)
    ensures var s := Final(s4, actions);
            s.waiting && s.at == Done(Nothing) && 0 in s.senders && s.senders[0].at.Ready?
  {
    assert !NoneAlive(s4.senders);
    var s5 := Apply(s4, WakeSpuriously);
    var s6 := Apply(s5, Upgrade);
    actions := LeavesPark(s6);
    RunOne(s5, Upgrade, actions);
    actions := [Upgrade] + actions;
    RunOne(s4, WakeSpuriously, actions);
    actions := [WakeSpuriously] + actions;
  }

  /** A spurious wake-up does cut a wait short: `recv` then returns nothing although its only
      sender is still there and ready to send. */
  lemma {:induction false} SpuriousWakeupEndsWait<V>(s0: State<V>) returns (actions: seq<Action<V>>)
    requires Initial(s0)
    ensures IsRun(s0, actions)
    ensures var s := Final(s0, actions);
            s.waiting && s.at == Done(Nothing) && 0 in s.senders && s.senders[0].at.Ready?
  {
    var s1 := Apply(s0, Receive);
    assert 0 in s1.senders && !NoneAlive(s1.senders);
    var s2 := Apply(s1, Enter);
    var s3 := Apply(s2, Exchange);
    var s4 := Apply(s3, Release);
    actions := WokenForNothing(s4);
    RunOne(s3, Release, actions);
    actions := [Release] + actions;
    RunOne(s2, Exchange, actions);
    actions := [Exchange] + actions;
    RunOne(s1, Enter, actions);
    actions := [Enter] + actions;
    RunOne(s0, Receive, actions);
    actions := [Receive] + actions;
  }

  // ---------------------------------------------------------------------------
  // The parker inside: the channel's runs are runs of the parker

  predicate Alive<V>(x: Sender<V>) { !x.at.WakingLast? && !x.at.Gone? }

  predicate Underway<V>(x: Sender<V>) { x.at.Waking? || x.at.WakingLast? }

  ghost function AliveSet<V>(senders: map<nat, Sender<V>>): set<nat> {
    set i | i in senders && Alive(senders[i])
  }

  ghost function UnderwaySet<V>(senders: map<nat, Sender<V>>): set<nat> {
    set i | i in senders && Underway(senders[i])
  }

  /** The parker's state is the channel's as the parker sees it: wrapped senders not yet dropped
      are its unparkers, and those with the thread in hand its wake-ups in flight. */
  ghost predicate Refines<V>(s: State<V>, p: Parker.State) {
    p == Seen(s, p.signalled)
  }

  ghost function Seen<V>(s: State<V>, signalled: bool): Parker.State {
    Parker.State(s.ptr, if s.at.Parking? then s.at.park else Parker.Outside,
                 |AliveSet(s.senders)|, |UnderwaySet(s.senders)|, s.token, signalled)
  }

  /** The parker's part in an action of the channel. */
  function ParkerPart<V>(a: Action<V>): seq<Parker.Action> {
    match a
    case Clone(_, _) => [Parker.Clone]
    case Fire(_) => [Parker.Fire]
    case Deliver(_) => [Parker.Deliver]
    case Drop(_) => [Parker.Drop]
    case Enter => [Parker.Enter]
    case Exchange => [Parker.Exchange]
    case Release => [Parker.Release]
    case Wake => [Parker.Wake]
    case WakeSpuriously => [Parker.WakeSpuriously]
    case Upgrade => [Parker.Upgrade]
    case Store => [Parker.Store]
    case Leave => [Parker.Leave]
    case _ => []
  }

  function One(b: bool): int { if b then 1 else 0 }

  /** What one sender's change does to the two counts. */
  lemma {:induction false} CountsAfter<V>(senders: map<nat, Sender<V>>, i: nat, x: Sender<V>)
    ensures var was, n := i in senders && Alive(senders[i]), |AliveSet(senders)|;
            (was ==> n > 0) && |AliveSet(senders[i := x])| == n - One(was) + One(Alive(x))
    ensures var was, n := i in senders && Underway(senders[i]), |UnderwaySet(senders)|;
            (was ==> n > 0) && |UnderwaySet(senders[i := x])| == n - One(was) + One(Underway(x))
  {
    AliveAfter(senders, i, x);
    UnderwayAfter(senders, i, x);
  }

  lemma {:induction false} AliveAfter<V>(senders: map<nat, Sender<V>>, i: nat, x: Sender<V>)
    ensures var was, n := i in senders && Alive(senders[i]), |AliveSet(senders)|;
            (was ==> n > 0) && |AliveSet(senders[i := x])| == n - One(was) + One(Alive(x))
  {
    var a := AliveSet(senders);
    assert AliveSet(senders[i := x]) == if Alive(x) then a + {i} else a - {i};
  }

  lemma {:induction false} UnderwayAfter<V>(senders: map<nat, Sender<V>>, i: nat, x: Sender<V>)
    ensures var was, n := i in senders && Underway(senders[i]), |UnderwaySet(senders)|;
            (was ==> n > 0) && |UnderwaySet(senders[i := x])| == n - One(was) + One(Underway(x))
  {
    var u := UnderwaySet(senders);
    assert UnderwaySet(senders[i := x]) == if Underway(x) then u + {i} else u - {i};
  }

  lemma {:induction false} NoneAliveIsEmpty<V>(senders: map<nat, Sender<V>>)
    ensures NoneAlive(senders) <==> |AliveSet(senders)| == 0
  {
    if |AliveSet(senders)| == 0 {
      forall i | i in senders ensures senders[i].at.WakingLast? || senders[i].at.Gone? {
        assert i !in AliveSet(senders);
      }
    } else {
      var i :| i in AliveSet(senders);
      assert i in senders && Alive(senders[i]);
    }
  }

  lemma {:induction false} NoneAliveButIsSingle<V>(senders: map<nat, Sender<V>>, i: nat)
    requires i in senders && Alive(senders[i])
    ensures NoneAliveBut(senders, i) <==> |AliveSet(senders)| == 1
  {
    var rest := AliveSet(senders) - {i};
    assert AliveSet(senders) == rest + {i};
    if NoneAliveBut(senders, i) {
      assert rest == {};
    } else {
      var k :| k in senders && k != i && !(senders[k].at.WakingLast? || senders[k].at.Gone?);
      assert k in rest;
    }
  }

  lemma {:induction false} RefineClone<V>(s: State<V>, p: Parker.State, i: nat, j: nat)
    requires Refines(s, p) && Enabled(s, Clone(i, j))
    ensures Parker.Enabled(p, Parker.Clone) && Refines(Apply(s, Clone(i, j)), Parker.Apply(p, Parker.Clone))
  {
    CountsAfter(s.senders, i, s.senders[i]);
    CountsAfter(s.senders, j, Apply(s, Clone(i, j)).senders[j]);
  }

  lemma {:induction false} RefineFire<V>(s: State<V>, p: Parker.State, i: nat)
    requires Refines(s, p) && Enabled(s, Fire(i))
    ensures Parker.Enabled(p, Parker.Fire) && Refines(Apply(s, Fire(i)), Parker.Apply(p, Parker.Fire))
  {
    CountsAfter(s.senders, i, Apply(s, Fire(i)).senders[i]);
  }

  lemma {:induction false} RefineDeliver<V>(s: State<V>, p: Parker.State, i: nat)
    requires Refines(s, p) && Enabled(s, Deliver(i))
    ensures Parker.Enabled(p, Parker.Deliver) && Refines(Apply(s, Deliver(i)), Parker.Apply(p, Parker.Deliver))
  {
    CountsAfter(s.senders, i, Apply(s, Deliver(i)).senders[i]);
  }

  lemma {:induction false} RefineDrop<V>(s: State<V>, p: Parker.State, i: nat)
    requires Refines(s, p) && Enabled(s, Drop(i))
    ensures Parker.Enabled(p, Parker.Drop) && Refines(Apply(s, Drop(i)), Parker.Apply(p, Parker.Drop))
  {
    CountsAfter(s.senders, i, Apply(s, Drop(i)).senders[i]);
    NoneAliveButIsSingle(s.senders, i);
  }

  // Actions of a sender that the parker does not take part in.

  lemma {:induction false} RefineSend<V>(s: State<V>, p: Parker.State, i: nat, v: V)
    requires Refines(s, p) && Enabled(s, Send(i, v))
    ensures Refines(Apply(s, Send(i, v)), p)
  {
    CountsAfter(s.senders, i, Apply(s, Send(i, v)).senders[i]);
  }

  lemma {:induction false} RefineCall<V>(s: State<V>, p: Parker.State, i: nat)
    requires Refines(s, p) && Enabled(s, CallOnce(i))
    ensures Refines(Apply(s, CallOnce(i)), p)
  {
    CountsAfter(s.senders, i, Apply(s, CallOnce(i)).senders[i]);
  }

  lemma {:induction false} RefineWrite<V>(s: State<V>, p: Parker.State, i: nat)
    requires Refines(s, p) && Enabled(s, Write(i))
    ensures Refines(Apply(s, Write(i)), p)
  {
    CountsAfter(s.senders, i, Apply(s, Write(i)).senders[i]);
  }

  // Actions of the receiver inside `park`.

  lemma {:induction false} RefineEnter<V>(s: State<V>, p: Parker.State)
    requires Refines(s, p) && Enabled(s, Enter)
    ensures Parker.Enabled(p, Parker.Enter) && Refines(Apply(s, Enter), Parker.Apply(p, Parker.Enter))
  {
    NoneAliveIsEmpty(s.senders);
  }

  lemma {:induction false} RefineExchange<V>(s: State<V>, p: Parker.State)
    requires Refines(s, p) && Enabled(s, Exchange)
    ensures Parker.Enabled(p, Parker.Exchange) && Refines(Apply(s, Exchange), Parker.Apply(p, Parker.Exchange))
  {
    assert Apply(s, Exchange).senders == s.senders;
  }

  lemma {:induction false} RefineRelease<V>(s: State<V>, p: Parker.State)
    requires Refines(s, p) && Enabled(s, Release)
    ensures Parker.Enabled(p, Parker.Release) && Refines(Apply(s, Release), Parker.Apply(p, Parker.Release))
  {
    NoneAliveIsEmpty(s.senders);
  }

  lemma {:induction false} RefineWake<V>(s: State<V>, p: Parker.State)
    requires Refines(s, p) && Enabled(s, Wake)
    ensures Parker.Enabled(p, Parker.Wake) && Refines(Apply(s, Wake), Parker.Apply(p, Parker.Wake))
  {
  }

  lemma {:induction false} RefineWakeSpuriously<V>(s: State<V>, p: Parker.State)
    requires Refines(s, p) && Enabled(s, WakeSpuriously)
    ensures Parker.Enabled(p, Parker.WakeSpuriously) && Refines(Apply(s, WakeSpuriously), Parker.Apply(p, Parker.WakeSpuriously))
  {
  }

  lemma {:induction false} RefineUpgrade<V>(s: State<V>, p: Parker.State)
    requires Refines(s, p) && Enabled(s, Upgrade)
    ensures Parker.Enabled(p, Parker.Upgrade) && Refines(Apply(s, Upgrade), Parker.Apply(p, Parker.Upgrade))
  {
    NoneAliveIsEmpty(s.senders);
  }

  lemma {:induction false} RefineStore<V>(s: State<V>, p: Parker.State)
    requires Refines(s, p) && Enabled(s, Store)
    ensures Parker.Enabled(p, Parker.Store) && Refines(Apply(s, Store), Parker.Apply(p, Parker.Store))
  {
  }

  lemma {:induction false} RefineLeave<V>(s: State<V>, p: Parker.State)
    requires Refines(s, p) && Enabled(s, Leave)
    ensures Parker.Enabled(p, Parker.Leave) && Refines(Apply(s, Leave), Parker.Apply(p, Parker.Leave))
  {
  }

  /** Every action of the channel is an action of the parker or none of its business. */
  lemma {:induction false} RefineStep<V>(s: State<V>, p: Parker.State, a: Action<V>) returns (p': Parker.State)
    requires Refines(s, p) && Enabled(s, a)
    ensures Parker.IsRun(p, ParkerPart(a)) && p' == Parker.Final(p, ParkerPart(a))
    ensures Refines(Apply(s, a), p')
  {
    if ParkerPart(a) == [] {
      p' := p;
      match a {
        case Send(i, v) => RefineSend(s, p, i, v);
        case CallOnce(i) => RefineCall(s, p, i);
        case Write(i) => RefineWrite(s, p, i);
        case _ =>
      }
    } else {
      p' := RefineActive(s, p, a);
      assert ParkerPart(a)[1..] == [];
    }
  }

  lemma {:induction false} RefineActive<V>(s: State<V>, p: Parker.State, a: Action<V>) returns (p': Parker.State)
    requires Refines(s, p) && Enabled(s, a) && ParkerPart(a) != []
    ensures Parker.Enabled(p, ParkerPart(a)[0]) && p' == Parker.Apply(p, ParkerPart(a)[0])
    ensures Refines(Apply(s, a), p')
  {
    match a {
      case Clone(i, j) => RefineClone(s, p, i, j);
      case Fire(i) => RefineFire(s, p, i);
      case Deliver(i) => RefineDeliver(s, p, i);
      case Drop(i) => RefineDrop(s, p, i);
      case Enter => RefineEnter(s, p);
      case Exchange => RefineExchange(s, p);
      case Release => RefineRelease(s, p);
      case Wake => RefineWake(s, p);
      case WakeSpuriously => RefineWakeSpuriously(s, p);
      case Upgrade => RefineUpgrade(s, p);
      case Store => RefineStore(s, p);
      case Leave => RefineLeave(s, p);
    }
    p' := Parker.Apply(p, ParkerPart(a)[0]);
  }

  /** Every run of the channel is a run of the parker, so that whatever holds of all runs of the
      parker holds of the channel. */
  lemma {:induction false} RunRefinesParker<V>(s: State<V>, p: Parker.State, actions: seq<Action<V>>)
    returns (parts: seq<Parker.Action>)
    requires Refines(s, p) && IsRun(s, actions)
    ensures Parker.IsRun(p, parts) && Refines(Final(s, actions), Parker.Final(p, parts))
    decreases |actions|
  {
    parts := [];
    if actions != [] {
      var p' := RefineStep(s, p, actions[0]);
      var more := RunRefinesParker(Apply(s, actions[0]), p', actions[1..]);
      var part := ParkerPart(actions[0]);
      if part == [] {
        parts := more;
      } else {
        Parker.RunOne(p, part[0], more);
        parts := [part[0]] + more;
      }
    }
  }

  lemma {:induction false} InitialRefines<V>(s0: State<V>)
    requires Initial(s0)
    ensures Refines(s0, Parker.INITIAL)
  {
    assert AliveSet(s0.senders) == {0} && UnderwaySet(s0.senders) == {};
  }

  /** The parker's guarantee, carried over: a receiver blocked without a token has a wake-up on its
      way, or else a sender that is still alive finds it in the pointer. */
  lemma {:induction false} NoLostWakeup<V>(s0: State<V>, actions: seq<Action<V>>)
    requires Initial(s0) && IsRun(s0, actions)
    ensures var s := Final(s0, actions);
            s.at == Parking(Parker.Blocked) && !s.token ==>
              || (exists i :: i in s.senders && Underway(s.senders[i]))
              || (s.ptr.Parked? && exists i :: i in s.senders && Alive(s.senders[i]))
  {
    InitialRefines(s0);
    var parts := RunRefinesParker(s0, Parker.INITIAL, actions);
    Parker.NoLostWakeup(parts);
    var s := Final(s0, actions);
    if s.at == Parking(Parker.Blocked) && !s.token {
      if |UnderwaySet(s.senders)| > 0 {
        var i :| i in UnderwaySet(s.senders);
        assert i in s.senders && Underway(s.senders[i]);
      } else {
        var i :| i in AliveSet(s.senders);
        assert i in s.senders && Alive(s.senders[i]);
      }
    }
  }

  /** The receiver is past waiting. */
  predicate Ends<V>(at: ReceiverAt<V>) {
    at.Closing? || at.Finishing? || at.Done?
  }

  /** A receive that finds a value there never parks, and only one that finds none does. */
  lemma {:induction false} ReadyReceive<V>(s: State<V>, actions: seq<Action<V>>)
    requires actions != [] && actions[0].Receive? && IsRun(s, actions)
    ensures s.once.Filled? || s.once.Sealed? ==> Ends(Final(s, actions).at)
    ensures s.once.New? || s.once.Filling? ==> Apply(s, actions[0]).at.Parking?
  {
    if s.once.Filled? || s.once.Sealed? { EndsStay(Apply(s, actions[0]), actions[1..]); }
  }

  lemma {:induction false} EndsStay<V>(s: State<V>, actions: seq<Action<V>>)
    requires Ends(s.at) && IsRun(s, actions)
    ensures Ends(Final(s, actions).at)
    decreases |actions|
  {
    if actions != [] {
      EndsStayStep(s, actions[0]);
      EndsStay(Apply(s, actions[0]), actions[1..]);
    }
  }

  lemma {:induction false} EndsStayStep<V>(s: State<V>, a: Action<V>)
    requires Ends(s.at) && Enabled(s, a)
    ensures Ends(Apply(s, a).at)
  {
    if OfSender(a) { SenderLeavesReceiver(s, a); }
  }

  lemma {:induction false} SenderLeavesReceiver<V>(s: State<V>, a: Action<V>)
    requires OfSender(a) && Enabled(s, a)
    ensures Apply(s, a).at == s.at
  {
  }
}
