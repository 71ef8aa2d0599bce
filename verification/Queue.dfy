/** The rate-limited queue (src/client/queue.rs). Clock readings are arguments. */
module RateLimit {

  import opened Strings

  /** The longest `Duration`, in nanoseconds. */
  const DURATION_MAX: nat := 18446744073709551615999999999

  function Min(a: nat, b: nat): nat { if a <= b then a else b }

  function Max(a: nat, b: nat): nat { if a >= b then a else b }

  /** `saturating_sub`, and `saturating_duration_since` for instants. */
  function Minus(a: nat, b: nat): nat { if a >= b then a - b else 0 }

  /** The state of the limiter: the delay between messages, the allowance for bursts, and the
      virtual time up to which messages have been accounted for. */
  datatype Limiter = Limiter(delay: nat, sub: nat, timepoint: nat)

  /** How long a pop at time `t` would have to wait. */
  function WaitAt(l: Limiter, t: nat): nat {
    Minus(Minus(l.timepoint, t), l.sub)
  }

  /** The limiter after a message is let go, the clock having been read again. */
  function Charged(l: Limiter, again: nat): Limiter {
    l.(timepoint := Max(l.timepoint, again) + l.delay)
  }

  function WithRateLimit(delay: nat, burst: nat, now: nat): Limiter {
    var sub := Min(delay * burst, DURATION_MAX);
    Limiter(delay, sub, now + Min(sub + delay, DURATION_MAX))
  }

  /** What `pop` hands to its time-out callback, if it calls it. */
  datatype Callback = NotCalled | NothingQueued | Wait(d: nat)

  class Queue<M> {
    var queue: seq<M>
    var limiter: Limiter

    constructor (initial: seq<M>, now: nat)
      ensures queue == initial && limiter == Limiter(2_000_000_000, 8_000_000_000, now)
    {
      queue, limiter := initial, Limiter(2_000_000_000, 8_000_000_000, now);
    }

    method SetRateLimit(delay: nat, burst: nat, now: nat)
      modifies this`limiter
      ensures limiter == WithRateLimit(delay, burst, now)
    {
      var sub := Min(delay * burst, DURATION_MAX);
      limiter := Limiter(delay, sub, now + Min(sub + delay, DURATION_MAX));
    }

    method Push(m: M)
      modifies this`queue
      ensures queue == old(queue) + [m]
    {
      queue := queue + [m];
    }

    /** Messages leave in the order they came; a refusal changes nothing and reports a positive
        wait. `now` and `again` are the two readings of the clock. */
    method Pop(now: nat, again: nat) returns (r: Option<M>, callback: Callback)
      modifies this
      ensures old(queue) == [] ==>
                r == None && callback == NothingQueued && queue == [] && limiter == old(limiter)
      ensures old(queue) != [] && WaitAt(old(limiter), now) == 0 ==>
                && r == Some(old(queue)[0]) && callback == NotCalled && queue == old(queue)[1..]
                && limiter == Charged(old(limiter), again)
      ensures old(queue) != [] && WaitAt(old(limiter), now) > 0 ==>
                && r == None && callback == Wait(WaitAt(old(limiter), now))
                && queue == old(queue) && limiter == old(limiter)
    {
      if queue == [] { return None, NothingQueued; }
      var value := queue[0];
      queue := queue[1..];
      var delay := Minus(limiter.timepoint, now);
      delay := Minus(delay, limiter.sub);
      if delay == 0 {
        limiter := limiter.(timepoint := Max(limiter.timepoint, again) + limiter.delay);
        return Some(value), NotCalled;
      }
      queue := [value] + queue;
      return None, Wait(delay);
    }
  }

  // ---------------------------------------------------------------------------
  // Runs

  /** A pop with its two clock readings, or any change to what is queued. */
  datatype Op = Pop(now: nat, again: nat) | Edit(length: nat)

  /** The limiter, and how many messages are queued. */
  datatype State = State(limiter: Limiter, queued: nat)

  predicate Succeeds(s: State, op: Op) {
    op.Pop? && s.queued > 0 && WaitAt(s.limiter, op.now) == 0
  }

  function Step(s: State, op: Op): State {
    if Succeeds(s, op) then State(Charged(s.limiter, op.again), s.queued - 1)
    else if op.Edit? then s.(queued := op.length)
    else s
  }

  /** The successful pops of a run, in order. */
  function Log(s: State, ops: seq<Op>): seq<Op>
    decreases |ops|
  {
    if ops == [] then []
    else (if Succeeds(s, ops[0]) then [ops[0]] else []) + Log(Step(s, ops[0]), ops[1..])
  }

  /** Each message let go from here on is charged to the virtual time. */
  lemma {:induction false} ChargedBy(s: State, ops: seq<Op>, j: nat)
    requires j < |Log(s, ops)|
    ensures Log(s, ops)[j].Pop?
    ensures s.limiter.timepoint + j * s.limiter.delay <= Log(s, ops)[j].now + s.limiter.sub
    decreases |ops|
  {
    var s' := Step(s, ops[0]);
    if Succeeds(s, ops[0]) {
      assert Log(s, ops) == [ops[0]] + Log(s', ops[1..]);
      if j > 0 {
        ChargedBy(s', ops[1..], j - 1);
        assert (j - 1) * s.limiter.delay + s.limiter.delay == j * s.limiter.delay;
      }
    } else {
      assert Log(s, ops) == Log(s', ops[1..]);
      ChargedBy(s', ops[1..], j);
    }
  }

  /** The limit: whatever is queued when and however the clock reads, between the end of one pop
      and a later one at least as many delays pass as messages are let go, less the allowance. */
  lemma {:induction false} SpacedOut(s: State, ops: seq<Op>, i: nat, j: nat)
    requires i < j < |Log(s, ops)|
    ensures Log(s, ops)[i].Pop? && Log(s, ops)[j].Pop?
    ensures Log(s, ops)[i].again + (j - i) * s.limiter.delay <= Log(s, ops)[j].now + s.limiter.sub
    decreases |ops|
  {
    var s' := Step(s, ops[0]);
    if Succeeds(s, ops[0]) {
      assert Log(s, ops) == [ops[0]] + Log(s', ops[1..]);
      if i == 0 {
        ChargedBy(s', ops[1..], j - 1);
        assert (j - 1) * s.limiter.delay + s.limiter.delay == j * s.limiter.delay;
      } else {
        SpacedOut(s', ops[1..], i - 1, j - 1);
      }
    } else {
      assert Log(s, ops) == Log(s', ops[1..]);
      SpacedOut(s', ops[1..], i, j);
    }
  }

  /** In terms of the configured delay and burst: any n successful pops span at least n - 1 - burst
      delays. */
  lemma {:induction false} PopsSpan(delay: nat, burst: nat, setAt: nat, queued: nat, ops: seq<Op>, i: nat, n: nat)
    requires n >= 2 && i + n <= |Log(State(WithRateLimit(delay, burst, setAt), queued), ops)|
    ensures var log := Log(State(WithRateLimit(delay, burst, setAt), queued), ops);
            && log[i].Pop? && log[i + n - 1].Pop?
            && log[i + n - 1].now - log[i].again >= (n - 1 - burst) * delay
  {
    var s := State(WithRateLimit(delay, burst, setAt), queued);
    var j, log := i + n - 1, Log(s, ops);
    SpacedOut(s, ops, i, j);
    Allowance(delay, burst, setAt);
    Shortened(log[i].again, log[j].now, s.limiter.sub, j - i, burst, delay);
    assert j - i - burst == n - 1 - burst;
  }

  lemma {:induction false} Allowance(delay: nat, burst: nat, setAt: nat)
    ensures var l := WithRateLimit(delay, burst, setAt);
            l.delay == delay && l.sub <= burst * delay
  {
    assert delay * burst == burst * delay;
  }

  lemma {:induction false} Shortened(start: int, end: int, sub: int, k: int, burst: int, delay: int)
    requires start + k * delay <= end + sub && sub <= burst * delay
    ensures end - start >= (k - burst) * delay
  {
    assert (k - burst) * delay == k * delay - burst * delay;
  }

  // ---------------------------------------------------------------------------
  // Refusals

  /** The reported wait is exact: a pop succeeds once it has passed and not before. */
  lemma {:induction false} WaitIsExact(l: Limiter, now: nat, later: nat)
    requires WaitAt(l, now) > 0 && later >= now
    ensures WaitAt(l, later) == 0 <==> later >= now + WaitAt(l, now)
  {
  }

  /** The clock never goes back, within a pop or from one pop to the next. */
  predicate ClockAdvances(ops: seq<Op>, last: nat)
    decreases |ops|
  {
    ops == [] || match ops[0]
                 case Edit(_) => ClockAdvances(ops[1..], last)
                 case Pop(now, again) => last <= now <= again && ClockAdvances(ops[1..], again)
  }

  function LastReading(ops: seq<Op>, last: nat): nat
    decreases |ops|
  {
    if ops == [] then last
    else LastReading(ops[1..], if ops[0].Pop? then ops[0].again else last)
  }

  function After(s: State, ops: seq<Op>): State
    decreases |ops|
  {
    if ops == [] then s else After(Step(s, ops[0]), ops[1..])
  }

  /** On a clock that never goes back, no wait is longer than one delay. */
  lemma {:induction false} WaitAtMostDelay(s: State, ops: seq<Op>, last: nat, now: nat)
    requires s.limiter.timepoint <= last + s.limiter.sub + s.limiter.delay
    requires ClockAdvances(ops, last) && LastReading(ops, last) <= now
    ensures WaitAt(After(s, ops).limiter, now) <= s.limiter.delay
    decreases |ops|
  {
    if ops != [] {
      WaitAtMostDelay(Step(s, ops[0]), ops[1..], if ops[0].Pop? then ops[0].again else last, now);
    }
  }

  /** The limiter after `k` messages let go at one instant. */
  function Burst(l: Limiter, now: nat, k: nat): Limiter {
    if k == 0 then l else Charged(Burst(l, now, k - 1), now)
  }

  lemma {:induction false} BurstTime(l: Limiter, now: nat, k: nat)
    requires l.timepoint <= now
    ensures k > 0 ==> Burst(l, now, k) == l.(timepoint := now + k * l.delay)
    decreases k
  {
    if k > 1 {
      BurstTime(l, now, k - 1);
      assert k * l.delay == (k - 1) * l.delay + l.delay;
    } else if k == 1 {
      assert Burst(l, now, 0) == l;
    }
  }

  lemma {:induction false} MulOrder(k: nat, b: nat, d: nat)
    requires d > 0
    ensures k <= b <==> k * d <= b * d
    decreases k
  {
    if k > 0 && b > 0 {
      MulOrder(k - 1, b - 1, d);
      assert k * d == (k - 1) * d + d && b * d == (b - 1) * d + d;
    }
  }

  /** After an idle time, exactly `burst` messages more than the first can leave at one instant. */
  lemma {:induction false} BurstIsExact(l: Limiter, burst: nat, now: nat, k: nat)
    requires l.delay > 0 && l.sub == burst * l.delay && l.timepoint <= now
    ensures WaitAt(Burst(l, now, k), now) == 0 <==> k <= burst
  {
    BurstTime(l, now, k);
    MulOrder(k, burst, l.delay);
  }

  /** A new limit is set pessimistically: below saturation, the first message has to wait for exactly
      one delay. */
  lemma {:induction false} FirstWait(delay: nat, burst: nat, now: nat)
    requires delay * burst + delay <= DURATION_MAX
    ensures WaitAt(WithRateLimit(delay, burst, now), now) == delay
  {
  }

  /** The burst that was configured is allowed: below saturation, after an idle time exactly `burst`
      messages more than the first can leave at one instant. */
  lemma {:induction false} ConfiguredBurst(delay: nat, burst: nat, setAt: nat, now: nat, k: nat)
    requires delay > 0 && delay * burst + delay <= DURATION_MAX
    requires now >= setAt + delay * burst + delay
    ensures WaitAt(Burst(WithRateLimit(delay, burst, setAt), now, k), now) == 0 <==> k <= burst
  {
    var l := WithRateLimit(delay, burst, setAt);
    assert l.sub == burst * delay by { assert delay * burst == burst * delay; }
    BurstIsExact(l, burst, now, k);
  }
}
