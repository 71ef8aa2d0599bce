/** The vector-backed map and its edit guard (src/util/flatmap.rs). */
module FlatMaps {
  import opened Strings

  datatype Entry<V> = Entry(key: Bytes, value: V)

  predicate StrictlySorted<V>(s: seq<Entry<V>>) {
    forall i, j | 0 <= i < j < |s| :: Lt(s[i].key, s[j].key)
  }

  predicate Sorted<V>(s: seq<Entry<V>>) {
    forall i, j | 0 <= i < j < |s| :: !Lt(s[j].key, s[i].key)
  }

  predicate DistinctKeys<V>(s: seq<Entry<V>>) {
    forall i, j | 0 <= i < j < |s| :: s[i].key != s[j].key
  }

  /** The map a vector of entries stands for: the last entry given for a key wins. */
  function ToMap<V>(s: seq<Entry<V>>): map<Bytes, V> {
    if s == [] then map[]
    else ToMap(s[..|s| - 1])[s[|s| - 1].key := s[|s| - 1].value]
  }

  lemma {:induction false} ToMapSnoc<V>(s: seq<Entry<V>>, e: Entry<V>)
    ensures ToMap(s + [e]) == ToMap(s)[e.key := e.value]
  {
    assert (s + [e])[..|s|] == s;
  }

  lemma {:induction false} ToMapKeys<V>(s: seq<Entry<V>>)
    ensures forall k :: k in ToMap(s) <==> exists i :: 0 <= i < |s| && s[i].key == k
    decreases |s|
  {
    if s != [] { ToMapKeys(s[..|s| - 1]); }
  }

  lemma {:induction false} ToMapDistinct<V>(s: seq<Entry<V>>)
    requires DistinctKeys(s)
    ensures forall i | 0 <= i < |s| :: s[i].key in ToMap(s) && ToMap(s)[s[i].key] == s[i].value
    decreases |s|
  {
    if s != [] { ToMapDistinct(s[..|s| - 1]); }
  }

  /** For vectors with distinct keys, holding the same entries means standing for the same map. */
  lemma {:induction false} SameEntriesSameMap<V>(s: seq<Entry<V>>, t: seq<Entry<V>>)
    requires DistinctKeys(s) && DistinctKeys(t)
    requires forall e :: e in s <==> e in t
    ensures ToMap(s) == ToMap(t)
  {
    ToMapKeys(s);
    ToMapKeys(t);
    ToMapDistinct(s);
    ToMapDistinct(t);
    forall k | k in ToMap(s)
      ensures k in ToMap(t) && ToMap(t)[k] == ToMap(s)[k]
    {
      var i :| 0 <= i < |s| && s[i].key == k;
      assert s[i] in t;
    }
    forall k | k in ToMap(t)
      ensures k in ToMap(s)
    {
      var i :| 0 <= i < |t| && t[i].key == k;
      assert t[i] in s;
    }
  }

  lemma {:induction false} StrictlySortedDistinct<V>(s: seq<Entry<V>>)
    requires StrictlySorted(s)
    ensures DistinctKeys(s) && Sorted(s)
  {
    LtStrictTotalOrder();
  }

  lemma {:induction false} LastIsGreatest<V>(s: seq<Entry<V>>, k: Bytes)
    requires StrictlySorted(s) && k in ToMap(s)
    ensures s != [] && (k == s[|s| - 1].key || Lt(k, s[|s| - 1].key))
    decreases |s|
  {
    if k != s[|s| - 1].key {
      LastIsGreatest(s[..|s| - 1], k);
      var x, y := s[|s| - 2].key, s[|s| - 1].key;
      assert Lt(x, y);
      if k != x { LtTransitive(k, x, y); }
    }
  }

  lemma {:induction false} SameLastKey<V>(s: seq<Entry<V>>, t: seq<Entry<V>>)
    requires StrictlySorted(s) && StrictlySorted(t) && s != [] && t != []
    requires ToMap(s) == ToMap(t)
    ensures s[|s| - 1].key == t[|t| - 1].key
  {
    var x, y := s[|s| - 1].key, t[|t| - 1].key;
    LastIsGreatest(t, x);
    LastIsGreatest(s, y);
    if x != y {
      LtTransitive(x, y, x);
      LtIrreflexive(x);
    }
  }

  /** In a strictly sorted vector, dropping the last entry removes its key. */
  lemma {:induction false} DropLast<V>(s: seq<Entry<V>>)
    requires StrictlySorted(s) && s != []
    ensures StrictlySorted(s[..|s| - 1])
    ensures ToMap(s[..|s| - 1]) == ToMap(s) - {s[|s| - 1].key}
  {
    var s', k := s[..|s| - 1], s[|s| - 1].key;
    NotBefore(s);
    SetThenDelete(ToMap(s'), k, s[|s| - 1].value);
  }

  lemma {:induction false} NotBefore<V>(s: seq<Entry<V>>)
    requires StrictlySorted(s) && s != []
    ensures s[|s| - 1].key !in ToMap(s[..|s| - 1])
  {
    ToMapKeys(s[..|s| - 1]);
    LtIrreflexive(s[|s| - 1].key);
  }

  lemma {:induction false} SetThenDelete<V>(m: map<Bytes, V>, k: Bytes, v: V)
    requires k !in m
    ensures m[k := v] - {k} == m
  {
  }

  /** A strictly sorted vector is the only one for its map. */
  lemma {:induction false} CanonicalForm<V>(s: seq<Entry<V>>, t: seq<Entry<V>>)
    requires StrictlySorted(s) && StrictlySorted(t) && ToMap(s) == ToMap(t)
    ensures s == t
    decreases |s|
  {
    assert s != [] ==> s[|s| - 1].key in ToMap(s);
    assert t != [] ==> t[|t| - 1].key in ToMap(t);
    if s != [] && t != [] {
      SameLastKey(s, t);
      DropLast(s);
      DropLast(t);
      CanonicalForm(s[..|s| - 1], t[..|t| - 1]);
      assert s == s[..|s| - 1] + [s[|s| - 1]] && t == t[..|t| - 1] + [t[|t| - 1]];
      var k := s[|s| - 1].key;
      assert ToMap(s)[k] == s[|s| - 1].value && ToMap(t)[k] == t[|t| - 1].value;
    }
  }

  // ---------------------------------------------------------------------------
  // Building from a vector

  /** Where a stable insertion of `k` goes: after every entry whose key is not greater. */
  function InsertionPoint<V>(s: seq<Entry<V>>, k: Bytes): (n: nat)
    ensures n <= |s|
    ensures n < |s| ==> Lt(k, s[n].key)
    ensures forall i | 0 <= i < n :: !Lt(k, s[i].key)
  {
    if s == [] || Lt(k, s[0].key) then 0 else 1 + InsertionPoint(s[1..], k)
  }

  /** The stable sort by key. */
  function SortByKey<V>(s: seq<Entry<V>>): seq<Entry<V>> {
    if s == [] then []
    else
      var t, e := SortByKey(s[..|s| - 1]), s[|s| - 1];
      var n := InsertionPoint(t, e.key);
      t[..n] + [e] + t[n..]
  }

  lemma {:induction false} SortByKeySorts<V>(s: seq<Entry<V>>)
    ensures Sorted(SortByKey(s))
    ensures multiset(SortByKey(s)) == multiset(s)
    decreases |s|
  {
    if s != [] {
      var t, e := SortByKey(s[..|s| - 1]), s[|s| - 1];
      SortByKeySorts(s[..|s| - 1]);
      var n := InsertionPoint(t, e.key);
      InsertSorted(t, e, n);
      InsertedBag(t, n, e);
      assert s == s[..|s| - 1] + [e];
    }
  }

  lemma {:induction false} InsertedBag<T>(t: seq<T>, n: nat, e: T)
    requires n <= |t|
    ensures multiset(t[..n] + [e] + t[n..]) == multiset(t) + multiset{e}
  {
    assert t == t[..n] + t[n..];
  }

  lemma {:induction false} InsertSorted<V>(t: seq<Entry<V>>, e: Entry<V>, n: nat)
    requires Sorted(t) && n == InsertionPoint(t, e.key)
    ensures Sorted(t[..n] + [e] + t[n..])
  {
    LtStrictTotalOrder();
    var r := t[..n] + [e] + t[n..];
    forall i, j | 0 <= i < j < |r|
      ensures !Lt(r[j].key, r[i].key)
    {
      if i == n { assert !Lt(t[j - 1].key, t[n].key); }
    }
  }

  /** Sorting stably keeps what the vector stands for, repeated keys included. */
  lemma {:induction false} SortByKeyKeepsMap<V>(s: seq<Entry<V>>)
    ensures ToMap(SortByKey(s)) == ToMap(s)
    decreases |s|
  {
    if s != [] {
      var s' := s[..|s| - 1];
      SortByKeyKeepsMap(s');
      SortByKeySorts(s');
      InsertedMap(SortByKey(s'), s[|s| - 1]);
    }
  }

  lemma {:induction false} InsertedMap<V>(t: seq<Entry<V>>, e: Entry<V>)
    requires Sorted(t)
    ensures var n := InsertionPoint(t, e.key);
            ToMap(t[..n] + [e] + t[n..]) == ToMap(t)[e.key := e.value]
  {
    var n := InsertionPoint(t, e.key);
    GreaterAfter(t, e.key, n);
    InsertKeepsMap(t[..n], e, t[n..]);
    assert t == t[..n] + t[n..];
  }

  lemma {:induction false} GreaterAfter<V>(t: seq<Entry<V>>, k: Bytes, n: nat)
    requires Sorted(t) && n == InsertionPoint(t, k)
    ensures forall i | 0 <= i < |t[n..]| :: t[n..][i].key != k
  {
    forall i | n <= i < |t|
      ensures t[i].key != k
    {
      LtIrreflexive(k);
      if i > n { assert !Lt(t[i].key, t[n].key); }
    }
  }

  lemma {:induction false} InsertKeepsMap<V>(a: seq<Entry<V>>, e: Entry<V>, b: seq<Entry<V>>)
    requires forall i | 0 <= i < |b| :: b[i].key != e.key
    ensures ToMap(a + [e] + b) == ToMap(a + b)[e.key := e.value]
    decreases |b|
  {
    if b == [] {
      assert a + [e] + b == a + [e] && a + b == a;
      ToMapSnoc(a, e);
    } else {
      var b', x := b[..|b| - 1], b[|b| - 1];
      InsertKeepsMap(a, e, b');
      assert a + [e] + b == (a + [e] + b') + [x] && a + b == (a + b') + [x];
      ToMapSnoc(a + [e] + b', x);
      ToMapSnoc(a + b', x);
    }
  }

  /** Keeps the last entry of every run of adjacent equal keys. */
  function Dedup<V>(s: seq<Entry<V>>): seq<Entry<V>> {
    if |s| < 2 then s
    else if s[0].key == s[1].key then Dedup(s[1..])
    else [s[0]] + Dedup(s[1..])
  }

  lemma {:induction false} DedupLast<V>(s: seq<Entry<V>>)
    requires s != []
    ensures Dedup(s) != [] && |Dedup(s)| <= |s|
    ensures Dedup(s)[|Dedup(s)| - 1] == s[|s| - 1]
    decreases |s|
  {
    if |s| >= 2 { DedupLast(s[1..]); }
  }

  /** What one more entry at the end does to the result. */
  lemma {:induction false} DedupSnoc<V>(s: seq<Entry<V>>, e: Entry<V>)
    requires s != []
    ensures Dedup(s) != []
    ensures Dedup(s + [e]) ==
            if s[|s| - 1].key == e.key then Dedup(s)[..|Dedup(s)| - 1] + [e] else Dedup(s) + [e]
    decreases |s|
  {
    DedupLast(s);
    if |s| == 1 {
      assert (s + [e])[1..] == [e];
    } else {
      assert (s + [e])[1..] == s[1..] + [e];
      DedupSnoc(s[1..], e);
      DedupLast(s[1..]);
    }
  }

  lemma {:induction false} DedupNext<V>(s: seq<Entry<V>>, q: nat, d: seq<Entry<V>>)
    requires 0 < q < |s| && d == Dedup(s[..q])
    ensures d != [] && d[|d| - 1] == s[q - 1]
    ensures Dedup(s[..q + 1]) ==
            if s[q - 1].key == s[q].key then d[..|d| - 1] + [s[q]] else d + [s[q]]
  {
    DedupLast(s[..q]);
    DedupSnoc(s[..q], s[q]);
    assert s[..q + 1] == s[..q] + [s[q]];
  }

  /** One turn of the pass: the element at `q` replaces the last one kept or joins those kept. */
  method DedupStep<V>(a: array<Entry<V>>, p: nat, q: nat) returns (p': nat)
    requires p < q < a.Length
    modifies a
    ensures p' <= q
    ensures a[..p' + 1] ==
            if old(a[p].key == a[q].key) then old(a[..p]) + [old(a[q])] else old(a[..p + 1]) + [old(a[q])]
    ensures forall i | q <= i < a.Length :: a[i] == old(a[i])
  {
    p' := p;
    if a[p].key != a[q].key {
      p' := p + 1;
      if p' != q { a[p'] := a[q]; }
    } else {
      a[p] := a[q];
    }
  }

  /** The two-pointer pass of `do_dedup`, on indices instead of pointers. */
  method DedupInPlace<V>(a: array<Entry<V>>) returns (n: nat)
    modifies a
    ensures n <= a.Length
    ensures a[..n] == Dedup(old(a[..]))
  {
    ghost var was := a[..];
    if a.Length < 2 { return a.Length; }
    var p, q, last := 0, 0, a.Length - 1;
    assert was[..1] == a[..1];
    while q < last
      invariant 0 <= p <= q <= last
      invariant a[..p + 1] == Dedup(was[..q + 1])
      invariant forall i | q < i < a.Length :: a[i] == was[i]
    {
      q := q + 1;
      ghost var done := a[..p + 1];
      DedupNext(was, q, done);
      assert done[p] == a[p] && a[..p] == done[..p];
      p := DedupStep(a, p, q);
    }
    assert was[..last + 1] == was;
    n := p + 1;
  }

  lemma {:induction false} DedupKeepsMap<V>(s: seq<Entry<V>>)
    ensures ToMap(Dedup(s)) == ToMap(s)
    decreases |s|
  {
    if |s| >= 2 {
      var s', e := s[..|s| - 1], s[|s| - 1];
      assert s == s' + [e];
      DedupKeepsMap(s');
      DedupLast(s');
      DedupSnoc(s', e);
      if s'[|s'| - 1].key == e.key { OverwriteLast(Dedup(s'), e); }
      ToMapSnoc(Dedup(s'), e);
    }
  }

  lemma {:induction false} OverwriteLast<V>(d: seq<Entry<V>>, e: Entry<V>)
    requires d != [] && d[|d| - 1].key == e.key
    ensures ToMap(d[..|d| - 1] + [e]) == ToMap(d)[e.key := e.value]
  {
    ToMapSnoc(d[..|d| - 1], e);
  }

  lemma {:induction false} DedupSorted<V>(s: seq<Entry<V>>)
    requires Sorted(s)
    ensures StrictlySorted(Dedup(s))
    decreases |s|
  {
    if |s| >= 2 {
      var s', e := s[..|s| - 1], s[|s| - 1];
      assert s == s' + [e];
      var d := Dedup(s');
      DedupSorted(s');
      DedupLast(s');
      DedupSnoc(s', e);
      assert d[|d| - 1] == s[|s| - 2] && !Lt(e.key, s[|s| - 2].key);
      LtTotal(e.key, s[|s| - 2].key);
      if s[|s| - 2].key == e.key { ReplacedLast(d, e); } else { StrictSnoc(d, e); }
    }
  }

  lemma {:induction false} ReplacedLast<V>(d: seq<Entry<V>>, e: Entry<V>)
    requires StrictlySorted(d) && d != [] && d[|d| - 1].key == e.key
    ensures StrictlySorted(d[..|d| - 1] + [e])
  {
  }

  lemma {:induction false} StrictSnoc<V>(d: seq<Entry<V>>, e: Entry<V>)
    requires StrictlySorted(d) && d != [] && Lt(d[|d| - 1].key, e.key)
    ensures StrictlySorted(d + [e])
  {
    var r, n := d + [e], |d|;
    forall i, j | 0 <= i < j < |r| ensures Lt(r[i].key, r[j].key) {
      if j == n && i < n - 1 { LtTransitive(d[i].key, d[n - 1].key, e.key); }
    }
  }

  function FromVec<V>(s: seq<Entry<V>>): seq<Entry<V>> {
    Dedup(SortByKey(s))
  }

  /** `from_vec`: strictly ascending, each input key once, with the last value given for it. */
  lemma {:induction false} FromVecIsMap<V>(s: seq<Entry<V>>)
    ensures StrictlySorted(FromVec(s))
    ensures ToMap(FromVec(s)) == ToMap(s)
  {
    SortByKeySorts(s);
    SortByKeyKeepsMap(s);
    DedupSorted(SortByKey(s));
    DedupKeepsMap(SortByKey(s));
  }

  lemma {:induction false} FromVecIdentity<V>(s: seq<Entry<V>>)
    requires StrictlySorted(s)
    ensures FromVec(s) == s
  {
    FromVecIsMap(s);
    CanonicalForm(FromVec(s), s);
  }

  /** The map holds nothing that was not given. */
  lemma {:induction false} ToMapFrom<V>(s: seq<Entry<V>>, k: Bytes)
    requires k in ToMap(s)
    ensures Entry(k, ToMap(s)[k]) in s
    decreases |s|
  {
    var n := |s| - 1;
    assert s == s[..n] + [s[n]];
    if k != s[n].key { ToMapFrom(s[..n], k); }
  }
}
