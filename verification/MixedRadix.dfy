/** Counting with digits of varying base, as sequential nickname suffixes do it
    (src/client/nick/suffix.rs:177-193). A position is a wheel of texts; the first wheel turns
    fastest, and no more wheels are used than needed. */
module MixedRadix {
  import opened Strings
  import opened Division

  type Wheel = seq<Bytes>

  // The generator divides machine integers; `Division.IsDivision` says that the recursive quotient
  // and remainder used here are the same.

  /** The place on one wheel, out of a count cut down to eight bits. */
  function Low(n: nat, v: nat): (d: nat)
    requires v > 0
    ensures d < v
  {
    Remainder(n % 256, v)
  }

  /** What is left of the count for the wheels after it. */
  function High(n: nat, v: nat): nat
    requires v > 0
  {
    Quotient(n, v)
  }

  /** The text of the `count`-th setting, counting from one. Empty wheels are skipped. */
  function Spell(ws: seq<Wheel>, count: nat): Bytes
    decreases |ws|
  {
    if ws == [] || count == 0 then []
    else if ws[0] == [] then Spell(ws[1..], count)
    else ws[0][Low(count - 1, |ws[0]|)] + Spell(ws[1..], High(count - 1, |ws[0]|))
  }

  function Sum(ws: seq<Wheel>): nat {
    if ws == [] then 0 else |ws[0]| + Sum(ws[1..])
  }

  /** How many different settings there are. */
  function Capacity(ws: seq<Wheel>): nat {
    if ws == [] then 0
    else if ws[0] == [] then Capacity(ws[1..])
    else Span(|ws[0]|, Capacity(ws[1..]))
  }

  function Span(v: nat, c: nat): nat {
    v * (1 + c)
  }

  // ---------------------------------------------------------------------------
  // Arithmetic

  lemma {:induction false} LowHigh(n: nat, v: nat)
    requires v > 0 && n < 256
    ensures n == High(n, v) * v + Low(n, v)
  {
    DivMod(n, v);
  }

  lemma {:induction false} SameParts(m: nat, n: nat, v: nat)
    requires v > 0 && m < 256 && n < 256 && Low(m, v) == Low(n, v) && High(m, v) == High(n, v)
    ensures m == n
  {
    LowHigh(m, v);
    LowHigh(n, v);
  }

  lemma {:induction false} SpanCovers(v: nat, c: nat)
    requires v > 0
    ensures Span(v, c) >= v + c
  {
    Times(1, v, c);
    assert v * (1 + c) == v + v * c;
  }

  /** What is left after the first wheel is within what the others can hold. */
  lemma {:induction false} HighWithin(n: nat, v: nat, c: nat)
    requires v > 0 && 1 <= n <= Span(v, c)
    ensures High(n - 1, v) <= c
  {
    DivMod(n - 1, v);
    var q := High(n - 1, v);
    if q > c { Times(1 + c, q, v); }
  }

  lemma {:induction false} SumWithinCapacity(ws: seq<Wheel>)
    ensures Sum(ws) <= Capacity(ws)
    decreases |ws|
  {
    if ws != [] {
      SumWithinCapacity(ws[1..]);
      if ws[0] != [] { SpanCovers(|ws[0]|, Capacity(ws[1..])); }
    }
  }

  lemma {:induction false} SumSnoc(ws: seq<Wheel>, w: Wheel)
    ensures Sum(ws + [w]) == Sum(ws) + |w|
    decreases |ws|
  {
    if ws == [] {
      assert [w][1..] == [];
    } else {
      assert (ws + [w])[1..] == ws[1..] + [w];
      SumSnoc(ws[1..], w);
    }
  }

  lemma {:induction false} CapacityFront(ws: seq<Wheel>, p: nat)
    requires 0 < p <= |ws|
    ensures var c := Capacity(ws[1..][..p - 1]);
            Capacity(ws[..p]) == if ws[0] == [] then c else Span(|ws[0]|, c)
  {
    assert ws[..p][1..] == ws[1..][..p - 1];
  }

  // ---------------------------------------------------------------------------
  // Wheels that tell their places apart

  /** The texts of a wheel are all as long as each other, not empty, and no two are alike. */
  ghost predicate Uniform(w: Wheel) {
    forall a, b | 0 <= a < |w| && 0 <= b < |w| :: Alike(w, a, b)
  }

  predicate Alike(w: Wheel, a: nat, b: nat)
    requires a < |w| && b < |w|
  {
    |w[a]| == |w[b]| > 0 && (w[a] == w[b] ==> a == b)
  }

  /** The counts up to `limit` do without every wheel that is not uniform. */
  ghost predicate Fine(ws: seq<Wheel>, limit: nat) {
    forall p | 0 <= p < |ws| :: Uniform(ws[p]) || Capacity(ws[..p]) >= limit
  }

  lemma {:induction false} FineFirst(ws: seq<Wheel>, limit: nat)
    requires Fine(ws, limit) && 1 <= limit <= Capacity(ws)
    ensures Uniform(ws[0])
  {
    assert ws[..0] == [];
  }

  /** What is fine up to a limit is, after the first wheel, fine up to what is left of it. */
  lemma {:induction false} FineAfterFirst(ws: seq<Wheel>, limit: nat)
    requires Fine(ws, limit) && 1 <= limit <= Capacity(ws)
    ensures var left := if ws[0] == [] then limit else High(limit - 1, |ws[0]|);
            left <= Capacity(ws[1..]) && Fine(ws[1..], left)
  {
    var v, rest := |ws[0]|, ws[1..];
    if v > 0 { HighWithin(limit, v, Capacity(rest)); }
    var left := if v == 0 then limit else High(limit - 1, v);
    forall p | 0 <= p < |rest| ensures Uniform(rest[p]) || Capacity(rest[..p]) >= left {
      CapacityFront(ws, p + 1);
      assert rest[p] == ws[p + 1];
      if v > 0 && Capacity(ws[..p + 1]) >= limit { HighWithin(limit, v, Capacity(rest[..p])); }
    }
  }

  lemma {:induction false} SpellEmptyIff(ws: seq<Wheel>, limit: nat, n: nat)
    requires Fine(ws, limit) && n <= limit <= Capacity(ws)
    ensures Spell(ws, n) == [] <==> n == 0
    decreases |ws|
  {
    if n > 0 {
      if ws[0] == [] {
        FineAfterFirst(ws, limit);
        SpellEmptyIff(ws[1..], limit, n);
      } else {
        FineFirst(ws, limit);
        assert Alike(ws[0], Low(n - 1, |ws[0]|), Low(n - 1, |ws[0]|));
      }
    }
  }

  lemma {:induction false} SamePrefix(x: Bytes, a: Bytes, y: Bytes, b: Bytes)
    requires x + a == y + b && |x| == |y|
    ensures x == y && a == b
  {
    assert x == (x + a)[..|x|] && y == (y + b)[..|y|];
    assert a == (x + a)[|x|..] && b == (y + b)[|y|..];
  }

  /** Equal texts start on the same place of the first wheel and go on alike. */
  lemma {:induction false} SameDigits(ws: seq<Wheel>, limit: nat, m: nat, n: nat)
    requires Fine(ws, limit) && 1 <= limit <= Capacity(ws) && ws[0] != []
    requires m >= 1 && n >= 1 && Spell(ws, m) == Spell(ws, n)
    ensures var v, rest := |ws[0]|, ws[1..];
            && Low(m - 1, v) == Low(n - 1, v)
            && Spell(rest, High(m - 1, v)) == Spell(rest, High(n - 1, v))
  {
    var w, rest := ws[0], ws[1..];
    var dm, dn := Low(m - 1, |w|), Low(n - 1, |w|);
    FineFirst(ws, limit);
    assert Alike(w, dm, dn);
    SamePrefix(w[dm], Spell(rest, High(m - 1, |w|)), w[dn], Spell(rest, High(n - 1, |w|)));
  }

  /** The text determines the count, as far as the wheels used are uniform. */
  lemma {:induction false} SpellInjective(ws: seq<Wheel>, limit: nat, m: nat, n: nat)
    requires Fine(ws, limit) && m <= limit && n <= limit && limit <= 255 && limit <= Capacity(ws)
    requires Spell(ws, m) == Spell(ws, n)
    ensures m == n
    decreases |ws|
  {
    SpellEmptyIff(ws, limit, m);
    SpellEmptyIff(ws, limit, n);
    if m > 0 {
      var v, rest := |ws[0]|, ws[1..];
      FineAfterFirst(ws, limit);
      if v == 0 {
        SpellInjective(rest, limit, m, n);
      } else {
        SameDigits(ws, limit, m, n);
        HighsWithin(m - 1, n - 1, limit - 1, v);
        SpellInjective(rest, High(limit - 1, v), High(m - 1, v), High(n - 1, v));
        SameParts(m - 1, n - 1, v);
      }
    }
  }

  lemma {:induction false} HighsWithin(m: nat, n: nat, limit: nat, v: nat)
    requires v > 0 && m <= limit && n <= limit
    ensures High(m, v) <= High(limit, v) && High(n, v) <= High(limit, v) <= limit
  {
    QuotientOrder(m, limit, v);
    QuotientOrder(n, limit, v);
  }

  // ---------------------------------------------------------------------------
  // Blank wheels

  /** A wheel with one place and nothing on it: it counts, but adds nothing. */
  const BLANK: Wheel := [[]]

  /** A blank wheel stands where some count up to `limit` reaches it, and not in front of
      everything else that counts. */
  predicate Reached(ws: seq<Wheel>, limit: nat, p: nat)
    requires p < |ws|
  {
    ws[p] == BLANK && 0 < Capacity(ws[..p]) < limit
  }

  predicate AnyReached(ws: seq<Wheel>, limit: nat) {
    exists p :: 0 <= p < |ws| && Reached(ws, limit, p)
  }

  ghost predicate UniformOrBlank(ws: seq<Wheel>) {
    forall p | 0 <= p < |ws| :: Uniform(ws[p]) || ws[p] == BLANK
  }

  /** With a blank wheel in front of all that counts, the first text is empty. */
  lemma {:induction false} BlankFirst(ws: seq<Wheel>, p: nat)
    requires p < |ws| && ws[p] == BLANK && Capacity(ws[..p]) == 0
    ensures Spell(ws, 1) == []
    decreases |ws|
  {
    if p > 0 {
      CapacityFront(ws, p);
      if ws[0] != [] { SpanCovers(|ws[0]|, Capacity(ws[1..][..p - 1])); }
      BlankFirst(ws[1..], p - 1);
    }
  }

  /** The first count whose text goes on, after the first wheel, with the text of `q`. */
  function Above(q: nat, v: nat): (n: nat)
    ensures n >= 1
  {
    q * v + 1
  }

  lemma {:induction false} AboveFacts(k: nat, c: nat, v: nat)
    requires v > 0 && k <= c
    ensures Above(1 + c, v) == Span(v, c) + 1 && Above(k, v) <= Span(v, c)
  {
    Times(k, c, v);
    assert (1 + c) * v == c * v + v;
  }

  lemma {:induction false} SpellAbove(ws: seq<Wheel>, q: nat)
    requires ws != [] && ws[0] != [] && Above(q, |ws[0]|) <= 256
    ensures Spell(ws, Above(q, |ws[0]|)) == ws[0][0] + Spell(ws[1..], q)
  {
    var v := |ws[0]|;
    LowHigh(q * v, v);
    UniqueDivision(v, q, 0, High(q * v, v), Low(q * v, v));
  }

  lemma {:induction false} RepeatsAbove(ws: seq<Wheel>, k: nat, c: nat)
    requires ws != [] && ws[0] != [] && k <= c && Span(|ws[0]|, c) < 255
    requires Spell(ws[1..], k) == Spell(ws[1..], c + 1)
    ensures var v := |ws[0]|;
            Above(k, v) <= Span(v, c) && Spell(ws, Above(k, v)) == Spell(ws, Span(v, c) + 1)
  {
    AboveFacts(k, c, |ws[0]|);
    SpellAbove(ws, k);
    SpellAbove(ws, 1 + c);
  }

  /** The first count that reaches a blank wheel has the text of an earlier one. */
  lemma {:induction false} ReachedRepeats(ws: seq<Wheel>, p: nat) returns (m: nat)
    requires p < |ws| && ws[p] == BLANK && 0 < Capacity(ws[..p]) < 255
    ensures 1 <= m <= Capacity(ws[..p]) && Spell(ws, m) == Spell(ws, Capacity(ws[..p]) + 1)
    decreases |ws|
  {
    assert ws[..0] == [];
    CapacityFront(ws, p);
    var v, rest := |ws[0]|, ws[1..];
    var c := Capacity(rest[..p - 1]);
    if v == 0 {
      m := ReachedRepeats(rest, p - 1);
    } else {
      SpanCovers(v, c);
      var k := 0;
      if c == 0 {
        BlankFirst(rest, p - 1);
        assert Spell(rest, 0) == [];
      } else {
        k := ReachedRepeats(rest, p - 1);
      }
      RepeatsAbove(ws, k, c);
      m := Above(k, v);
    }
  }

  lemma {:induction false} UnreachedAfterEmpty(ws: seq<Wheel>, limit: nat)
    requires ws != [] && ws[0] == [] && UniformOrBlank(ws) && !AnyReached(ws, limit)
    ensures UniformOrBlank(ws[1..]) && !AnyReached(ws[1..], limit)
  {
    var rest := ws[1..];
    forall p | 0 <= p < |rest| ensures !Reached(rest, limit, p) {
      CapacityFront(ws, p + 1);
      assert !Reached(ws, limit, p + 1);
    }
  }

  lemma {:induction false} FineBehindUniform(ws: seq<Wheel>, limit: nat)
    requires ws != [] && ws[0] != [] && ws[0] != BLANK && UniformOrBlank(ws) && !AnyReached(ws, limit)
    ensures Fine(ws, limit)
  {
    forall p | 0 <= p < |ws| ensures Uniform(ws[p]) || Capacity(ws[..p]) >= limit {
      if p > 0 {
        CapacityFront(ws, p);
        SpanCovers(|ws[0]|, Capacity(ws[1..][..p - 1]));
        assert !Reached(ws, limit, p);
      }
    }
  }

  lemma {:induction false} FineBehindBlank(ws: seq<Wheel>, limit: nat)
    requires ws != [] && ws[0] == BLANK && UniformOrBlank(ws) && !AnyReached(ws, limit)
    requires 1 <= limit <= Capacity(ws)
    ensures limit - 1 <= Capacity(ws[1..]) && Fine(ws[1..], limit - 1)
  {
    var rest := ws[1..];
    assert Span(1, Capacity(rest)) == 1 + Capacity(rest);
    forall p | 0 <= p < |rest| ensures Uniform(rest[p]) || Capacity(rest[..p]) >= limit - 1 {
      CapacityFront(ws, p + 1);
      assert Span(1, Capacity(rest[..p])) == 1 + Capacity(rest[..p]);
      assert !Reached(ws, limit, p + 1) && rest[p] == ws[p + 1];
    }
  }

  lemma {:induction false} SpellBehindBlank(ws: seq<Wheel>, n: nat)
    requires ws != [] && ws[0] == BLANK && n >= 1
    ensures Spell(ws, n) == Spell(ws[1..], n - 1)
  {
    DivMod(n - 1, 1);
  }

  lemma {:induction false} UnreachedInjective(ws: seq<Wheel>, limit: nat, m: nat, n: nat)
    requires UniformOrBlank(ws) && !AnyReached(ws, limit)
    requires 1 <= m <= limit && 1 <= n <= limit && limit <= 255 && limit <= Capacity(ws)
    requires Spell(ws, m) == Spell(ws, n)
    ensures m == n
    decreases |ws|
  {
    if ws[0] == [] {
      UnreachedAfterEmpty(ws, limit);
      UnreachedInjective(ws[1..], limit, m, n);
    } else if ws[0] == BLANK {
      FineBehindBlank(ws, limit);
      SpellBehindBlank(ws, m);
      SpellBehindBlank(ws, n);
      SpellInjective(ws[1..], limit - 1, m - 1, n - 1);
    } else {
      FineBehindUniform(ws, limit);
      SpellInjective(ws, limit, m, n);
    }
  }

  ghost predicate NoneTwice(ws: seq<Wheel>, limit: nat) {
    forall m, n | 1 <= m < n <= limit :: Spell(ws, m) != Spell(ws, n)
  }

  /** With wheels that are uniform or blank, no text comes twice up to a limit if and only if no
      blank wheel is reached behind something that counts. */
  lemma {:induction false} NoneTwiceIff(ws: seq<Wheel>, limit: nat)
    requires UniformOrBlank(ws) && limit <= 255 && limit <= Capacity(ws)
    ensures NoneTwice(ws, limit) <==> !AnyReached(ws, limit)
  {
    if AnyReached(ws, limit) {
      var p :| 0 <= p < |ws| && Reached(ws, limit, p);
      var m := ReachedRepeats(ws, p);
      assert Spell(ws, m) == Spell(ws, Capacity(ws[..p]) + 1);
    } else {
      forall m, n | 1 <= m < n <= limit ensures Spell(ws, m) != Spell(ws, n) {
        if Spell(ws, m) == Spell(ws, n) { UnreachedInjective(ws, limit, m, n); }
      }
    }
  }

  /** Wheels that are all empty spell nothing. */
  lemma {:induction false} NothingToSpell(ws: seq<Wheel>, n: nat)
    requires Sum(ws) == 0
    ensures Spell(ws, n) == []
    decreases |ws|
  {
    if ws != [] { NothingToSpell(ws[1..], n); }
  }

  // ---------------------------------------------------------------------------
  // In what order the settings come

  /** As many settings as the first wheels have do without the others. */
  lemma {:induction false} FrontSuffices(ws: seq<Wheel>, p: nat, n: nat)
    requires p <= |ws| && n <= Capacity(ws[..p]) && n <= 256
    ensures Spell(ws, n) == Spell(ws[..p], n)
    decreases |ws|
  {
    if n > 0 {
      assert ws[..0] == [];
      CapacityFront(ws, p);
      var v, rest := |ws[0]|, ws[1..];
      assert ws[..p][1..] == rest[..p - 1];
      if v == 0 {
        FrontSuffices(rest, p - 1, n);
      } else {
        HighWithin(n, v, Capacity(rest[..p - 1]));
        QuotientOrder(n - 1, n - 1, v);
        FrontSuffices(rest, p - 1, High(n - 1, v));
      }
    }
  }

  /** The texts of the first wheel come first, in order. */
  lemma {:induction false} FirstWheelFirst(ws: seq<Wheel>, n: nat)
    requires ws != [] && 1 <= n <= |ws[0]| && n <= 256
    ensures Spell(ws, n) == ws[0][n - 1]
  {
    assert Quotient(n - 1, |ws[0]|) == 0 && Remainder(n - 1, |ws[0]|) == n - 1;
    assert Spell(ws[1..], 0) == [];
  }

  /** The second wheel turns when the first has been all the way round. */
  lemma {:induction false} NextRound(ws: seq<Wheel>, n: nat)
    requires ws != [] && ws[0] != [] && n + |ws[0]| <= 256 && n >= 1
    ensures var v := |ws[0]|;
            && Low(n - 1 + v, v) == Low(n - 1, v) && High(n - 1 + v, v) == High(n - 1, v) + 1
            && Spell(ws, n + v) == ws[0][Low(n - 1, v)] + Spell(ws[1..], High(n - 1, v) + 1)
  {
  }
}
