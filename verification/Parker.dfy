/** The parker: one thread that parks, any number of unparkers
    (src/client/handler/channel/parker.rs). The machine takes one atomic action per step; a run
    is any interleaving of actions. */
module Parker {

  /** The shared pointer: nothing, the marker that skips a parking, or the parked thread. */
  datatype Pointer = Null | SkipParking | Parked

  /** Where the parking thread is inside `park`. `held` counts the strong references that it owns. */
  datatype At =
    | Outside
    | Entered            // upgraded its weak reference
    | Armed              // exchanged Null for itself
    | Blocked            // gave its reference back, now in thread::park
    | Missed             // the exchange failed
    | Woken              // thread::park returned
    | Clearing(held: nat) // about to store Null
    | Leaving(held: nat)  // about to drop what it holds

  /** `unparkers` are the live unparkers, `inFlight` the wake-ups whose sender has already taken
      the thread out of the pointer but not yet called its unpark, `token` the thread's own wake-up
      token, and `signalled` whether an unpark has happened since `park` last returned. */
  datatype State = State(
    ptr: Pointer, at: At, unparkers: nat, inFlight: nat, token: bool, signalled: bool)

  datatype Action =
    | Clone | Fire | Deliver | Drop
    | Enter | Exchange | Release | Wake | WakeSpuriously | Upgrade | Store | Leave

  function Held(at: At): nat {
    match at
    case Outside => 0
    case Entered => 1
    case Armed => 1
    case Blocked => 0
    case Missed => 1
    case Woken => 0
    case Clearing(h) => h
    case Leaving(h) => h
  }

  /** The reference count of the shared pointer. */
  function Strong(s: State): nat {
    s.unparkers + Held(s.at)
  }

  /** `park` returns. */
  function Returned(s: State): State {
    s.(at := Outside, signalled := false)
  }

  function Enabled(s: State, a: Action): bool {
    match a
    case Clone => s.unparkers > 0
    case Fire => s.unparkers > 0
    case Deliver => s.inFlight > 0
    case Drop => s.unparkers > 0
    case Enter => s.at.Outside?
    case Exchange => s.at.Entered?
    case Release => s.at.Armed?
    case Wake => s.at.Blocked? && s.token
    case WakeSpuriously => s.at.Blocked?
    case Upgrade => s.at.Woken? || s.at.Missed?
    case Store => s.at.Clearing?
    case Leave => s.at.Leaving? && s.at.held > 0
  }

  function Apply(s: State, a: Action): State
    requires Enabled(s, a)
  {
    match a
    case Clone => s.(unparkers := s.unparkers + 1)
    case Fire =>
      s.(ptr := SkipParking, signalled := true,
         inFlight := s.inFlight + if s.ptr.Parked? then 1 else 0)
    case Deliver => s.(inFlight := s.inFlight - 1, token := true)
    case Drop =>
      var s' := s.(unparkers := s.unparkers - 1);
      if Strong(s') == 0 && s.ptr.Parked? then s'.(inFlight := s.inFlight + 1) else s'
    case Enter => if Strong(s) == 0 then Returned(s) else s.(at := Entered)
    case Exchange => if s.ptr.Null? then s.(ptr := Parked, at := Armed) else s.(at := Missed)
    case Release =>
      var s' := s.(at := Blocked);
      if Strong(s') == 0 then Returned(s) else s'
    case Wake => s.(token := false, at := Woken)
    case WakeSpuriously => s.(at := Woken)
    case Upgrade =>
      if Strong(s) == 0 then Returned(s)
      else s.(at := Clearing(Held(s.at) + 1))
    case Store => s.(ptr := Null, at := Leaving(s.at.held))
    case Leave => if s.at.held == 1 then Returned(s) else s.(at := Leaving(s.at.held - 1))
  }

  const INITIAL := State(Null, Outside, 1, 0, false, false)

  predicate IsRun(s: State, actions: seq<Action>)
    decreases |actions|
  {
    actions == [] || (Enabled(s, actions[0]) && IsRun(Apply(s, actions[0]), actions[1..]))
  }

  function Final(s: State, actions: seq<Action>): State
    requires IsRun(s, actions)
    decreases |actions|
  {
    if actions == [] then s else Final(Apply(s, actions[0]), actions[1..])
  }

  // ---------------------------------------------------------------------------

  ghost predicate Inv(s: State) {
    // outside, a signal is remembered in the pointer
    && (s.signalled && (s.at.Outside? || s.at.Entered?) ==> s.ptr.SkipParking?)
    // the thread is in the pointer only while it parks, or when nobody can read it any more
    && (s.ptr.Parked? && (s.at.Outside? || s.at.Entered? || s.at.Missed?) ==> Strong(s) == 0)
    && (s.ptr.Parked? && s.at.Leaving? ==> false)
    // while it parks, the pointer tells whether a signal has come
    && (s.at.Armed? || s.at.Blocked? ==> !s.ptr.Null? && (s.ptr.SkipParking? <==> s.signalled))
    // and a signal that has come is on its way or has arrived
    && ((s.at.Armed? || s.at.Blocked?) && s.signalled ==> s.token || s.inFlight > 0)
    // once nobody is left to signal, a wake-up is on its way or has arrived
    && (s.at.Blocked? && s.unparkers == 0 ==> s.token || s.inFlight > 0)
    && (s.at.Clearing? || s.at.Leaving? ==> s.at.held > 0)
  }

  lemma {:induction false} InvStep(s: State, a: Action)
    requires Inv(s) && Enabled(s, a)
    ensures Inv(Apply(s, a))
  {
  }

  lemma {:induction false} InvRun(s: State, actions: seq<Action>)
    requires Inv(s) && IsRun(s, actions)
    ensures Inv(Final(s, actions))
    decreases |actions|
  {
    if actions != [] {
      InvStep(s, actions[0]);
      InvRun(Apply(s, actions[0]), actions[1..]);
    }
  }

  /** No wake-up is lost. In every interleaving, a thread that is blocked without a wake-up token
      has a wake-up on its way to it, or else nobody has signalled since its last return, the
      thread can be found in the pointer, and an unparker is alive. */
  lemma {:induction false} NoLostWakeup(actions: seq<Action>)
    requires IsRun(INITIAL, actions)
    ensures var s := Final(INITIAL, actions);
            s.at.Blocked? && !s.token ==>
              s.inFlight > 0 || (s.unparkers > 0 && s.ptr.Parked? && !s.signalled)
  {
    InvRun(INITIAL, actions);
  }

  /** A signal while nobody parks makes the next `park` return without blocking. */
  lemma {:induction false} SignalSkipsNextPark(actions: seq<Action>)
    requires IsRun(INITIAL, actions)
    ensures var s := Final(INITIAL, actions);
            s.at.Entered? && s.signalled ==> Apply(s, Exchange).at.Missed?
  {
    InvRun(INITIAL, actions);
  }

  // ---------------------------------------------------------------------------
  // The way out

  predicate OfParker(a: Action) {
    a.Enter? || a.Exchange? || a.Release? || a.Wake? || a.WakeSpuriously? || a.Upgrade? || a.Store? || a.Leave?
  }

  /** How many of its own actions the thread is at most away from returning. */
  function Distance(at: At): nat {
    match at
    case Outside => 0
    case Leaving(h) => h
    case Clearing(h) => h + 1
    case Woken => 3
    case Missed => 4
    case Blocked => 4
    case Armed => 5
    case Entered => 6
  }

  /** Inside `park` every action of the thread brings it closer to returning, actions of others do
      not move it, and it can always act unless it is blocked without a token. */
  lemma {:induction false} ParkMakesProgress(s: State, a: Action)
    requires Inv(s) && Enabled(s, a)
    ensures OfParker(a) && !s.at.Outside? ==> Distance(Apply(s, a).at) < Distance(s.at)
    ensures !OfParker(a) ==> Apply(s, a).at == s.at
    ensures s.at.Outside? || (s.at.Blocked? && !s.token) || exists b :: OfParker(b) && Enabled(s, b) && b != WakeSpuriously
  {
    match s.at {
      case Outside =>
      case Entered => assert Enabled(s, Exchange);
      case Armed => assert Enabled(s, Release);
      case Blocked => if s.token { assert Enabled(s, Wake); }
      case Missed => assert Enabled(s, Upgrade);
      case Woken => assert Enabled(s, Upgrade);
      case Clearing(_) => assert Enabled(s, Store);
      case Leaving(_) => assert Enabled(s, Leave);
    }
  }

  /** Whenever the blocked thread has been signalled, or nobody is left to signal it, delivering one
      wake-up and letting the thread act brings it out of `park` within five actions. */
  lemma {:induction false} BlockedThreadGetsOut(s: State) returns (actions: seq<Action>)
    requires Inv(s) && s.at.Blocked? && (s.signalled || s.unparkers == 0)
    ensures |actions| <= 5 && IsRun(s, actions) && Final(s, actions).at.Outside?
    ensures forall i | 0 <= i < |actions| :: actions[i] in {Deliver, Wake, Upgrade, Store, Leave}
  {
    var s1 := if s.token then s else Apply(s, Deliver);
    var s2 := Apply(s1, Wake);
    var s3 := Apply(s2, Upgrade);
    var out: seq<Action> := [Upgrade];
    if s.unparkers == 0 {
      assert out[1..] == [];
    } else {
      var s4 := Apply(s3, Store);
      RunOne(s4, Leave, []);
      RunOne(s3, Store, [Leave]);
      RunOne(s2, Upgrade, [Store, Leave]);
      out := [Upgrade, Store, Leave];
      assert [Store] + [Leave] == [Store, Leave] && [Upgrade] + [Store, Leave] == out;
    }
    RunOne(s1, Wake, out);
    actions := [Wake] + out;
    if !s.token {
      RunOne(s, Deliver, actions);
      actions := [Deliver] + actions;
    }
  }

  lemma {:induction false} RunOne(s: State, a: Action, rest: seq<Action>)
    requires Enabled(s, a) && IsRun(Apply(s, a), rest)
    ensures IsRun(s, [a] + rest) && Final(s, [a] + rest) == Final(Apply(s, a), rest)
  {
    assert ([a] + rest)[1..] == rest;
  }
}
