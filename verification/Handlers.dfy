/** The handler table (src/client/handler.rs): ids are recycled through the list of finished
    handlers, and handlers are removed by swapping while the table is walked. */
module HandlerTable {
  import opened Strings

  /** A boxed handler and its id. */
  datatype Slot<H> = Slot(handler: H, id: nat)

  datatype Status = Keep(yielded: bool, wantsOwning: bool) | Done(yielded: bool)

  /** What calling a handler comes to: its own next state, what it made of the client state and the
      outgoing queue, and its status. */
  datatype Reply<H, E> = Reply(handler: H, env: E, status: Status)

  function Ids<H>(hs: seq<Slot<H>>): (r: seq<nat>)
    ensures |r| == |hs| && forall i | 0 <= i < |hs| :: r[i] == hs[i].id
  {
    if hs == [] then [] else [hs[0].id] + Ids(hs[1..])
  }

  function SwapRemove<T>(s: seq<T>, i: nat): seq<T>
    requires i < |s|
  {
    s[i := s[|s| - 1]][..|s| - 1]
  }

  ghost predicate HasId<H>(hs: seq<Slot<H>>, id: nat) {
    exists i :: 0 <= i < |hs| && hs[i].id == id
  }

  /** How often a number occurs. */
  function Occurs(s: seq<nat>, x: nat): nat {
    if s == [] then 0 else (if s[0] == x then 1 else 0) + Occurs(s[1..], x)
  }

  /** Live and freed ids together are the first numbers there are, each once. */
  ghost predicate Partition(live: seq<nat>, freed: seq<nat>) {
    forall x: nat :: Occurs(live, x) + Occurs(freed, x) == if x < |live| + |freed| then 1 else 0
  }

  // ---------------------------------------------------------------------------
  // One pass over the table

  /** A handler's turn: its id and the status it returned. */
  datatype Turn = Turn(id: nat, status: Status)

  datatype Pass<H, E> = Pass(handlers: seq<Slot<H>>, env: E, turns: seq<Turn>)

  /** The pass from index `i` on. */
  function Walk<H, E>(hs: seq<Slot<H>>, i: nat, env: E, call: (H, E) -> Reply<H, E>): Pass<H, E>
    requires i <= |hs|
    decreases |hs| - i
  {
    if i == |hs| then Pass(hs, env, [])
    else
      var id := hs[i].id;
      var r := call(hs[i].handler, env);
      var rest :=
        if r.status.Keep? then Walk(hs[i := Slot(r.handler, id)], i + 1, r.env, call)
        else Walk(SwapRemove(hs, i), i, r.env, call);
      Pass(rest.handlers, rest.env, [Turn(id, r.status)] + rest.turns)
  }

  function TurnIds(turns: seq<Turn>): seq<nat> {
    if turns == [] then [] else [turns[0].id] + TurnIds(turns[1..])
  }

  function Yielders(turns: seq<Turn>): seq<nat> {
    if turns == [] then []
    else (if turns[0].status.yielded then [turns[0].id] else []) + Yielders(turns[1..])
  }

  function Finishers(turns: seq<Turn>): seq<nat> {
    if turns == [] then []
    else (if turns[0].status.Done? then [turns[0].id] else []) + Finishers(turns[1..])
  }

  function Stayers(turns: seq<Turn>): seq<nat> {
    if turns == [] then []
    else (if turns[0].status.Keep? then [turns[0].id] else []) + Stayers(turns[1..])
  }

  function WantsOwning(turns: seq<Turn>): bool {
    turns != [] && ((turns[0].status.Keep? && turns[0].status.wantsOwning) || WantsOwning(turns[1..]))
  }

  class Handlers<H, E> {
    var handlers: seq<Slot<H>>
    var yielded: seq<nat>
    var finished: seq<nat>
    var wantsOwning: bool

    ghost predicate Valid()
      reads this
    {
      Partition(Ids(handlers), finished)
    }

    constructor ()
      ensures Valid() && handlers == [] && yielded == [] && finished == [] && !wantsOwning
    {
      handlers, yielded, finished, wantsOwning := [], [], [], false;
    }

    method Add(handler: H, wants: bool) returns (id: nat)
      requires Valid()
      modifies this
      ensures Valid()
      ensures id !in Ids(old(handlers))
      ensures handlers == old(handlers) + [Slot(handler, id)] && yielded == old(yielded)
      ensures if old(finished) == [] then id == |old(handlers)| && finished == []
              else id == old(finished)[|old(finished)| - 1] && finished == old(finished)[..|old(finished)| - 1]
      ensures wantsOwning == (old(wantsOwning) || wants)
    {
      wantsOwning := wantsOwning || wants;
      PartitionAdd(Ids(handlers), finished);
      IdsAppend(handlers, Slot(handler, 0));
      if finished == [] {
        id := |handlers|;
      } else {
        id := finished[|finished| - 1];
        finished := finished[..|finished| - 1];
      }
      IdsAppend(handlers, Slot(handler, id));
      handlers := handlers + [Slot(handler, id)];
    }

    method Position(id: nat) returns (i: Option<nat>)
      ensures i.None? <==> !HasId(handlers, id)
      ensures i.Some? ==> i.value < |handlers| && handlers[i.value].id == id
    {
      var j := 0;
      while j < |handlers|
        invariant 0 <= j <= |handlers|
        invariant forall k | 0 <= k < j :: handlers[k].id != id
      {
        if handlers[j].id == id { return Some(j); }
        j := j + 1;
      }
      i := None;
    }

    /** `ok` is false where the original panics, which is exactly for an id that is not live. */
    method CancelOne(id: nat) returns (ok: bool)
      requires Valid()
      modifies this
      ensures Valid() && yielded == old(yielded)
      ensures ok <==> HasId(old(handlers), id)
      ensures ok ==> exists i :: 0 <= i < |old(handlers)| && old(handlers)[i].id == id
                                 && handlers == SwapRemove(old(handlers), i)
      ensures finished == if ok then old(finished) + [id] else old(finished)
      ensures !ok ==> handlers == old(handlers) && wantsOwning == old(wantsOwning)
      ensures ok ==> wantsOwning == (old(wantsOwning) && handlers != [])
    {
      var i := Position(id);
      if i.None? { return false; }
      var rest, freed := SwapRemove(handlers, i.value), finished + [id];
      CancelKeeps(handlers, finished, i.value);
      assert Partition(Ids(rest), freed);
      handlers, finished := rest, freed;
      wantsOwning := wantsOwning && handlers != [];
      ok := true;
    }

    method Cancel()
      modifies this
      ensures Valid() && handlers == [] && yielded == [] && finished == [] && !wantsOwning
    {
      handlers, yielded, finished, wantsOwning := [], [], [], false;
    }

    /** One message for every handler. Whatever the handlers do, the pass is the one of `Walk`. */
    method Handle(env: E, call: (H, E) -> Reply<H, E>) returns (finishedAt: nat, env': E)
      requires Valid()
      modifies this
      ensures Valid()
      ensures var pass := Walk(old(handlers), 0, env, call);
              && handlers == pass.handlers && env' == pass.env
              && yielded == Yielders(pass.turns)
              && finished == old(finished) + Finishers(pass.turns)
              && wantsOwning == WantsOwning(pass.turns)
      ensures finishedAt == |old(finished)|
    {
      wantsOwning := false;
      yielded := [];
      finishedAt := |finished|;
      env' := env;
      var i := 0;
      ghost var all := Walk(handlers, 0, env, call);
      ghost var done: seq<Turn> := [];
      assert done + all.turns == all.turns;
      while i < |handlers|
        invariant 0 <= i <= |handlers|
        invariant Resumes(all, done, Walk(handlers, i, env', call))
        invariant yielded == Yielders(done)
        invariant finished == old(finished) + Finishers(done)
        invariant wantsOwning == WantsOwning(done)
        decreases |handlers| - i
      {
        var id := handlers[i].id;
        var r := call(handlers[i].handler, env');
        ResumesNext(all, done, handlers, i, env', call);
        FiltersSnoc(done, Turn(id, r.status));
        done := done + [Turn(id, r.status)];
        env' := r.env;
        if r.status.yielded { yielded := yielded + [id]; }
        match r.status {
          case Keep(_, wants) =>
            wantsOwning := wantsOwning || wants;
            handlers := handlers[i := Slot(r.handler, id)];
            i := i + 1;
          case Done(_) =>
            finished := finished + [id];
            handlers := SwapRemove(handlers, i);
        }
      }
      assert done + [] == done;
      PassKeepsPartition(old(handlers), env, call, old(finished));
    }

    method HasResults(finishedAt: nat) returns (r: bool)
      ensures r <==> yielded != [] || |finished| > finishedAt
    {
      r := yielded != [] || |finished| > finishedAt;
    }

    /** The ids that yielded in the last pass, and those freed since `finishedAt`. */
    method LastRunResults(finishedAt: nat) returns (y: seq<nat>, f: seq<nat>)
      requires finishedAt <= |finished|
      ensures y == yielded && finished == finished[..finishedAt] + f
    {
      y, f := yielded, finished[finishedAt..];
    }
  }

  /** What a connection's run does with a message: a pass over the handlers, and then its results.
      They are exactly the ids that yielded and those that finished in this pass, in order. */
  method HandleAndReport<H, E>(table: Handlers<H, E>, env: E, call: (H, E) -> Reply<H, E>)
    returns (any: bool, y: seq<nat>, f: seq<nat>, env': E)
    requires table.Valid()
    modifies table
    ensures table.Valid()
    ensures var pass := Walk(old(table.handlers), 0, env, call);
            && env' == pass.env && table.handlers == pass.handlers
            && y == Yielders(pass.turns) && f == Finishers(pass.turns)
            && (any <==> y != [] || f != [])
  {
    var finishedAt;
    finishedAt, env' := table.Handle(env, call);
    any := table.HasResults(finishedAt);
    y, f := table.LastRunResults(finishedAt);
    SameTail(table.finished, finishedAt, f, Finishers(Walk(old(table.handlers), 0, env, call).turns));
  }

  lemma {:induction false} SameTail(s: seq<nat>, n: nat, a: seq<nat>, b: seq<nat>)
    requires n <= |s| && s == s[..n] + a && s == s[..n] + b
    ensures a == b && (a == [] <==> |s| == n)
  {
    assert a == s[n..] && b == s[n..];
  }

  // ---------------------------------------------------------------------------
  // Properties of a pass

  /** `rest` is what remains of the pass `all` after the turns `done`. */
  ghost predicate Resumes<H, E>(all: Pass<H, E>, done: seq<Turn>, rest: Pass<H, E>) {
    rest.handlers == all.handlers && rest.env == all.env && done + rest.turns == all.turns
  }

  lemma {:induction false} ResumesNext<H, E>(all: Pass<H, E>, done: seq<Turn>, hs: seq<Slot<H>>, i: nat, env: E,
                          call: (H, E) -> Reply<H, E>)
    requires i < |hs| && Resumes(all, done, Walk(hs, i, env, call))
    ensures var r := call(hs[i].handler, env);
            var done' := done + [Turn(hs[i].id, r.status)];
            if r.status.Keep? then
              Resumes(all, done', Walk(hs[i := Slot(r.handler, hs[i].id)], i + 1, r.env, call))
            else Resumes(all, done', Walk(SwapRemove(hs, i), i, r.env, call))
  {
    var r := call(hs[i].handler, env);
    var t := Turn(hs[i].id, r.status);
    var rest :=
      if r.status.Keep? then Walk(hs[i := Slot(r.handler, hs[i].id)], i + 1, r.env, call)
      else Walk(SwapRemove(hs, i), i, r.env, call);
    assert done + ([t] + rest.turns) == done + [t] + rest.turns;
  }

  lemma {:induction false} FiltersSnoc(done: seq<Turn>, t: Turn)
    ensures Yielders(done + [t]) == Yielders(done) + if t.status.yielded then [t.id] else []
    ensures Finishers(done + [t]) == Finishers(done) + if t.status.Done? then [t.id] else []
    ensures WantsOwning(done + [t]) == (WantsOwning(done) || (t.status.Keep? && t.status.wantsOwning))
  {
    YieldersSnoc(done, t);
    FinishersSnoc(done, t);
    WantsOwningSnoc(done, t);
  }

  lemma {:induction false} YieldersSnoc(done: seq<Turn>, t: Turn)
    ensures Yielders(done + [t]) == Yielders(done) + if t.status.yielded then [t.id] else []
    decreases |done|
  {
    if done == [] {
      assert done + [t] == [t] && [t][1..] == [];
    } else {
      assert (done + [t])[1..] == done[1..] + [t];
      YieldersSnoc(done[1..], t);
      var last := if t.status.yielded then [t.id] else [];
      Assoc(if done[0].status.yielded then [done[0].id] else [], Yielders(done[1..]), last);
    }
  }

  lemma {:induction false} FinishersSnoc(done: seq<Turn>, t: Turn)
    ensures Finishers(done + [t]) == Finishers(done) + if t.status.Done? then [t.id] else []
    decreases |done|
  {
    if done == [] {
      assert done + [t] == [t] && [t][1..] == [];
    } else {
      assert (done + [t])[1..] == done[1..] + [t];
      FinishersSnoc(done[1..], t);
      var last := if t.status.Done? then [t.id] else [];
      Assoc(if done[0].status.Done? then [done[0].id] else [], Finishers(done[1..]), last);
    }
  }

  lemma {:induction false} WantsOwningSnoc(done: seq<Turn>, t: Turn)
    ensures WantsOwning(done + [t]) == (WantsOwning(done) || (t.status.Keep? && t.status.wantsOwning))
    decreases |done|
  {
    if done == [] {
      assert done + [t] == [t] && [t][1..] == [];
    } else {
      assert (done + [t])[1..] == done[1..] + [t];
      WantsOwningSnoc(done[1..], t);
    }
  }

  lemma {:induction false} SwapRemoveBag<T>(s: seq<T>, i: nat)
    requires i < |s|
    ensures multiset(SwapRemove(s, i)) == multiset(s) - multiset{s[i]}
    ensures multiset(SwapRemove(s, i)) + multiset{s[i]} == multiset(s)
  {
    var n := |s| - 1;
    assert s == s[..n] + [s[n]];
    if i < n {
      var a, b := s[..i], s[i + 1..n];
      assert s[..n] == a + [s[i]] + b;
      assert SwapRemove(s, i) == a + [s[n]] + b;
      SwappedBag(a, s[i], b, s[n]);
    } else {
      assert SwapRemove(s, i) == s[..n];
    }
  }

  lemma {:induction false} SwappedBag<T>(a: seq<T>, x: T, b: seq<T>, y: T)
    ensures multiset(a + [y] + b) + multiset{x} == multiset(a + [x] + b + [y])
  {
  }

  lemma {:induction false} SwapRemoveIds<H>(hs: seq<Slot<H>>, i: nat)
    requires i < |hs|
    ensures Ids(SwapRemove(hs, i)) == SwapRemove(Ids(hs), i)
  {
    var r := SwapRemove(hs, i);
    assert |Ids(r)| == |SwapRemove(Ids(hs), i)|;
    forall k | 0 <= k < |r| ensures Ids(r)[k] == SwapRemove(Ids(hs), i)[k] {
      assert r[k] == if k == i then hs[|hs| - 1] else hs[k];
    }
  }

  lemma {:induction false} SameIds<H>(hs: seq<Slot<H>>, i: nat, h: H)
    requires i < |hs|
    ensures Ids(hs[i := Slot(h, hs[i].id)]) == Ids(hs)
  {
  }

  lemma {:induction false} IdsAppend<H>(hs: seq<Slot<H>>, x: Slot<H>)
    ensures Ids(hs + [x]) == Ids(hs) + [x.id]
  {
  }

  /** Despite the swapping, every handler present from index `i` on gets exactly one turn. */
  lemma {:induction false} EveryHandlerOnce<H, E>(hs: seq<Slot<H>>, i: nat, env: E,
                                                  call: (H, E) -> Reply<H, E>)
    requires i <= |hs|
    ensures multiset(TurnIds(Walk(hs, i, env, call).turns)) == multiset(Ids(hs)[i..])
    decreases |hs| - i
  {
    if i < |hs| {
      var id := hs[i].id;
      var r := call(hs[i].handler, env);
      assert Ids(hs)[i..] == [id] + Ids(hs)[i + 1..];
      if r.status.Keep? {
        SameIds(hs, i, r.handler);
        var hs' := hs[i := Slot(r.handler, id)];
        EveryHandlerOnce(hs', i + 1, r.env, call);
        OneTurnMore(Turn(id, r.status), Walk(hs', i + 1, r.env, call).turns, Ids(hs)[i + 1..]);
      } else {
        SwapRemoveIds(hs, i);
        EveryHandlerOnce(SwapRemove(hs, i), i, r.env, call);
        SwapRemoveTail(Ids(hs), i);
        OneTurnMore(Turn(id, r.status), Walk(SwapRemove(hs, i), i, r.env, call).turns, Ids(hs)[i + 1..]);
      }
    }
  }

  lemma {:induction false} OneTurnMore(t: Turn, turns: seq<Turn>, ids: seq<nat>)
    requires multiset(TurnIds(turns)) == multiset(ids)
    ensures multiset(TurnIds([t] + turns)) == multiset([t.id] + ids)
  {
    TurnIdsCons(t, turns);
  }

  lemma {:induction false} TurnIdsCons(t: Turn, rest: seq<Turn>)
    ensures TurnIds([t] + rest) == [t.id] + TurnIds(rest)
    ensures Stayers([t] + rest) == (if t.status.Keep? then [t.id] else []) + Stayers(rest)
    ensures Finishers([t] + rest) == (if t.status.Done? then [t.id] else []) + Finishers(rest)
  {
    assert ([t] + rest)[1..] == rest;
  }

  lemma {:induction false} StayerBag(ids: seq<nat>, i: nat, left: multiset<nat>, t: Turn, turns: seq<Turn>)
    requires i < |ids| && t.id == ids[i] && t.status.Keep?
    requires left == multiset(ids[..i + 1]) + multiset(Stayers(turns))
    ensures left == multiset(ids[..i]) + multiset(Stayers([t] + turns))
  {
    assert ids[..i + 1] == ids[..i] + [t.id];
    TurnIdsCons(t, turns);
  }

  lemma {:induction false} FinisherBag(t: Turn, turns: seq<Turn>)
    requires t.status.Done?
    ensures Stayers([t] + turns) == Stayers(turns)
  {
    TurnIdsCons(t, turns);
  }

  /** The handlers left in the table are exactly those that asked to be kept. */
  lemma {:induction false} StayersStay<H, E>(hs: seq<Slot<H>>, i: nat, env: E,
                                             call: (H, E) -> Reply<H, E>)
    requires i <= |hs|
    ensures multiset(Ids(Walk(hs, i, env, call).handlers)) ==
            multiset(Ids(hs)[..i]) + multiset(Stayers(Walk(hs, i, env, call).turns))
    decreases |hs| - i
  {
    if i == |hs| {
      assert Ids(hs)[..i] == Ids(hs);
    } else {
      var id := hs[i].id;
      var r := call(hs[i].handler, env);
      if r.status.Keep? {
        SameIds(hs, i, r.handler);
        var hs' := hs[i := Slot(r.handler, id)];
        StayersStay(hs', i + 1, r.env, call);
        var p := Walk(hs', i + 1, r.env, call);
        StayerBag(Ids(hs), i, multiset(Ids(p.handlers)), Turn(id, r.status), p.turns);
      } else {
        SwapRemoveIds(hs, i);
        StayersStay(SwapRemove(hs, i), i, r.env, call);
        SwapRemoveTail(Ids(hs), i);
        FinisherBag(Turn(id, r.status), Walk(SwapRemove(hs, i), i, r.env, call).turns);
      }
    }
  }

  lemma {:induction false} StayOrFinish(turns: seq<Turn>)
    ensures multiset(TurnIds(turns)) == multiset(Stayers(turns)) + multiset(Finishers(turns))
    decreases |turns|
  {
    if turns != [] { StayOrFinish(turns[1..]); }
  }

  lemma {:induction false} PassKeepsPartition<H, E>(hs: seq<Slot<H>>, env: E, call: (H, E) -> Reply<H, E>, freed: seq<nat>)
    requires Partition(Ids(hs), freed)
    ensures var pass := Walk(hs, 0, env, call);
            Partition(Ids(pass.handlers), freed + Finishers(pass.turns))
  {
    var pass := Walk(hs, 0, env, call);
    EveryHandlerOnce(hs, 0, env, call);
    StayersStay(hs, 0, env, call);
    StayOrFinish(pass.turns);
    assert Ids(hs)[0..] == Ids(hs) && Ids(hs)[..0] == [];
    PartitionBag(Ids(hs), freed, Ids(pass.handlers), freed + Finishers(pass.turns));
  }

  lemma {:induction false} SwapRemoveTail<T>(s: seq<T>, i: nat)
    requires i < |s|
    ensures SwapRemove(s, i)[..i] == s[..i]
    ensures multiset(SwapRemove(s, i)[i..]) == multiset(s[i + 1..])
  {
    var n := |s| - 1;
    if i < n {
      assert SwapRemove(s, i)[i..] == [s[n]] + s[i + 1..n];
      assert s[i + 1..] == s[i + 1..n] + [s[n]];
    } else {
      assert SwapRemove(s, i)[i..] == [] && s[i + 1..] == [];
    }
  }

  // ---------------------------------------------------------------------------
  // Ids

  lemma {:induction false} OccursInBag(s: seq<nat>, x: nat)
    ensures Occurs(s, x) == multiset(s)[x]
    decreases |s|
  {
    if s != [] {
      assert s == [s[0]] + s[1..];
      OccursInBag(s[1..], x);
    }
  }

  lemma {:induction false} BagLength(a: seq<nat>, b: seq<nat>)
    ensures |multiset(a) + multiset(b)| == |a| + |b|
  {
  }

  /** Moving ids between the lists keeps the partition. */
  lemma {:induction false} PartitionBag(live: seq<nat>, freed: seq<nat>, live': seq<nat>, freed': seq<nat>)
    requires Partition(live, freed)
    requires multiset(live) + multiset(freed) == multiset(live') + multiset(freed')
    ensures Partition(live', freed')
  {
    BagLength(live, freed);
    BagLength(live', freed');
    forall x: nat
      ensures Occurs(live', x) + Occurs(freed', x) == if x < |live'| + |freed'| then 1 else 0
    {
      SameOccurs(live, freed, live', freed', x);
    }
  }

  lemma {:induction false} SameOccurs(a: seq<nat>, b: seq<nat>, a': seq<nat>, b': seq<nat>, x: nat)
    requires multiset(a) + multiset(b) == multiset(a') + multiset(b')
    ensures Occurs(a, x) + Occurs(b, x) == Occurs(a', x) + Occurs(b', x)
  {
    OccursInBag(a, x);
    OccursInBag(b, x);
    OccursInBag(a', x);
    OccursInBag(b', x);
    assert (multiset(a) + multiset(b))[x] == (multiset(a') + multiset(b'))[x];
  }

  lemma {:induction false} PartitionFree(live: seq<nat>, freed: seq<nat>, i: nat)
    requires Partition(live, freed) && i < |live|
    ensures Partition(SwapRemove(live, i), freed + [live[i]])
  {
    SwapRemoveBag(live, i);
    PartitionBag(live, freed, SwapRemove(live, i), freed + [live[i]]);
  }

  lemma {:induction false} CancelKeeps<H>(hs: seq<Slot<H>>, freed: seq<nat>, i: nat)
    requires Partition(Ids(hs), freed) && i < |hs|
    ensures Partition(Ids(SwapRemove(hs, i)), freed + [hs[i].id])
  {
    SwapRemoveIds(hs, i);
    PartitionFree(Ids(hs), freed, i);
  }

  lemma {:induction false} PartitionAdd(live: seq<nat>, freed: seq<nat>)
    requires Partition(live, freed)
    ensures freed == [] ==> |live| !in live && Partition(live + [|live|], [])
    ensures freed != [] ==>
              var id := freed[|freed| - 1];
              id !in live && Partition(live + [id], freed[..|freed| - 1])
  {
    if freed == [] {
      PartitionGrow(live);
    } else {
      var n := |freed| - 1;
      var id := freed[n];
      assert freed == freed[..n] + [id];
      PartitionBag(live, freed, live + [id], freed[..n]);
      PartitionIsInitialSegment(live, freed, id);
    }
  }

  lemma {:induction false} PartitionGrow(live: seq<nat>)
    requires Partition(live, [])
    ensures |live| !in live && Partition(live + [|live|], [])
  {
    var n := |live|;
    PartitionIsInitialSegment(live, [], n);
    forall x: nat
      ensures Occurs(live + [n], x) + Occurs([], x) == if x < n + 1 then 1 else 0
    {
      OccursSnoc(live, n, x);
      assert Occurs(live, x) + Occurs([], x) == if x < n then 1 else 0;
    }
  }

  lemma {:induction false} OccursSnoc(s: seq<nat>, y: nat, x: nat)
    ensures Occurs(s + [y], x) == Occurs(s, x) + if x == y then 1 else 0
    decreases |s|
  {
    if s == [] {
      assert s + [y] == [y] && [y][1..] == [];
    } else {
      assert (s + [y])[1..] == s[1..] + [y];
      OccursSnoc(s[1..], y, x);
    }
  }

  lemma {:induction false} OccursIff(s: seq<nat>, x: nat)
    ensures Occurs(s, x) > 0 <==> x in s
    decreases |s|
  {
    if s != [] { OccursIff(s[1..], x); }
  }

  /** In every reachable table every number below k is either live or freed, not both, and no other
      number is either. */
  lemma {:induction false} PartitionIsInitialSegment(live: seq<nat>, freed: seq<nat>, x: nat)
    requires Partition(live, freed)
    ensures x in live || x in freed <==> x < |live| + |freed|
    ensures !(x in live && x in freed)
  {
    OccursIff(live, x);
    OccursIff(freed, x);
  }

  // ---------------------------------------------------------------------------
  // A pass in plain terms

  /** Handlers called one after another, the environment handed on from each to the next. */
  function Play<H, E>(visited: seq<Slot<H>>, env: E, call: (H, E) -> Reply<H, E>): Pass<H, E>
    decreases |visited|
  {
    if visited == [] then Pass([], env, [])
    else
      var r := call(visited[0].handler, env);
      var rest := Play(visited[1..], r.env, call);
      Pass((if r.status.Keep? then [Slot(r.handler, visited[0].id)] else []) + rest.handlers,
           rest.env, [Turn(visited[0].id, r.status)] + rest.turns)
  }

  /** The order in which the pass gets to the handlers. */
  function Order<H, E>(hs: seq<Slot<H>>, i: nat, env: E, call: (H, E) -> Reply<H, E>): seq<Slot<H>>
    requires i <= |hs|
    decreases |hs| - i
  {
    if i == |hs| then []
    else
      var r := call(hs[i].handler, env);
      [hs[i]] + if r.status.Keep? then Order(hs[i := Slot(r.handler, hs[i].id)], i + 1, r.env, call)
                else Order(SwapRemove(hs, i), i, r.env, call)
  }

  lemma {:induction false} OrderIsArrangement<H, E>(hs: seq<Slot<H>>, i: nat, env: E, call: (H, E) -> Reply<H, E>)
    requires i <= |hs|
    ensures multiset(Order(hs, i, env, call)) == multiset(hs[i..])
    decreases |hs| - i
  {
    if i < |hs| {
      var r := call(hs[i].handler, env);
      if r.status.Keep? {
        var hs' := hs[i := Slot(r.handler, hs[i].id)];
        OrderIsArrangement(hs', i + 1, r.env, call);
        assert hs'[i + 1..] == hs[i + 1..];
        SameBag(hs, i, Order(hs', i + 1, r.env, call));
      } else {
        OrderIsArrangement(SwapRemove(hs, i), i, r.env, call);
        SwapRemoveTail(hs, i);
        SameBag(hs, i, Order(SwapRemove(hs, i), i, r.env, call));
      }
    }
  }

  lemma {:induction false} SameBag<T>(s: seq<T>, i: nat, rest: seq<T>)
    requires i < |s| && multiset(rest) == multiset(s[i + 1..])
    ensures multiset([s[i]] + rest) == multiset(s[i..])
  {
    assert s[i..] == [s[i]] + s[i + 1..];
  }

  /** Behind index `i` the pass plays the handlers in that order: the same turns with the same
      results, the same environment in the end, and the same handlers left. */
  lemma {:induction false} WalkIsPlay<H, E>(hs: seq<Slot<H>>, i: nat, env: E, call: (H, E) -> Reply<H, E>)
    requires i <= |hs|
    ensures var pass, play := Walk(hs, i, env, call), Play(Order(hs, i, env, call), env, call);
            && pass.turns == play.turns && pass.env == play.env
            && pass.handlers == hs[..i] + play.handlers
    decreases |hs| - i
  {
    if i == |hs| {
      assert hs[..i] + [] == hs;
    } else {
      var slot := hs[i];
      var r := call(slot.handler, env);
      if r.status.Keep? {
        var hs' := hs[i := Slot(r.handler, slot.id)];
        WalkIsPlay(hs', i + 1, r.env, call);
        PlayCons(slot, Order(hs', i + 1, r.env, call), env, call);
        assert hs'[..i + 1] == hs[..i] + [Slot(r.handler, slot.id)];
        Assoc(hs[..i], [Slot(r.handler, slot.id)], Play(Order(hs', i + 1, r.env, call), r.env, call).handlers);
      } else {
        var hs' := SwapRemove(hs, i);
        WalkIsPlay(hs', i, r.env, call);
        PlayCons(slot, Order(hs', i, r.env, call), env, call);
        assert hs'[..i] == hs[..i];
        assert [] + Play(Order(hs', i, r.env, call), r.env, call).handlers == Play(Order(hs', i, r.env, call), r.env, call).handlers;
      }
    }
  }

  lemma {:induction false} PlayCons<H, E>(slot: Slot<H>, rest: seq<Slot<H>>, env: E, call: (H, E) -> Reply<H, E>)
    ensures var r := call(slot.handler, env);
            var more := Play(rest, r.env, call);
            Play([slot] + rest, env, call) ==
              Pass((if r.status.Keep? then [Slot(r.handler, slot.id)] else []) + more.handlers,
                   more.env, [Turn(slot.id, r.status)] + more.turns)
  {
    assert ([slot] + rest)[1..] == rest;
  }

  /** The main result on a pass: it comes to calling every handler of the table once, one after
      another in some order, each in the environment that the one before it left. */
  lemma {:induction false} PassIsPlay<H, E>(hs: seq<Slot<H>>, env: E, call: (H, E) -> Reply<H, E>)
    ensures var order := Order(hs, 0, env, call);
            && multiset(order) == multiset(hs)
            && Walk(hs, 0, env, call) == Play(order, env, call)
  {
    OrderIsArrangement(hs, 0, env, call);
    WalkIsPlay(hs, 0, env, call);
    assert hs[0..] == hs && hs[..0] == [];
    var play := Play(Order(hs, 0, env, call), env, call);
    assert [] + play.handlers == play.handlers;
  }

  /** If nobody finishes, the order is that of the table. */
  lemma {:induction false} OrderOfStayers<H, E>(hs: seq<Slot<H>>, i: nat, env: E, call: (H, E) -> Reply<H, E>)
    requires i <= |hs| && forall h, e :: call(h, e).status.Keep?
    ensures Order(hs, i, env, call) == hs[i..]
    decreases |hs| - i
  {
    if i < |hs| {
      var r := call(hs[i].handler, env);
      var hs' := hs[i := Slot(r.handler, hs[i].id)];
      OrderOfStayers(hs', i + 1, r.env, call);
      assert hs[i..] == [hs[i]] + hs'[i + 1..];
    }
  }

  /** What is reported: the ids that yielded, the ids that finished, and whether somebody who stays
      wants messages to keep. */
  lemma {:induction false} ReportIs(turns: seq<Turn>, id: nat)
    ensures id in Yielders(turns) <==> exists t :: t in turns && t.id == id && t.status.yielded
    ensures id in Finishers(turns) <==> exists t :: t in turns && t.id == id && t.status.Done?
    ensures WantsOwning(turns) <==> exists t :: t in turns && t.status.Keep? && t.status.wantsOwning
  {
    YieldersAre(turns, id);
    FinishersAre(turns, id);
    WantsOwningIs(turns);
  }

  lemma {:induction false} YieldersAre(turns: seq<Turn>, id: nat)
    ensures id in Yielders(turns) <==> exists t :: t in turns && t.id == id && t.status.yielded
    decreases |turns|
  {
    if turns != [] { YieldersAre(turns[1..], id); }
  }

  lemma {:induction false} FinishersAre(turns: seq<Turn>, id: nat)
    ensures id in Finishers(turns) <==> exists t :: t in turns && t.id == id && t.status.Done?
    decreases |turns|
  {
    if turns != [] { FinishersAre(turns[1..], id); }
  }

  lemma {:induction false} WantsOwningIs(turns: seq<Turn>)
    ensures WantsOwning(turns) <==> exists t :: t in turns && t.status.Keep? && t.status.wantsOwning
    decreases |turns|
  {
    if turns != [] { WantsOwningIs(turns[1..]); }
  }
}
