/** The edit guard of the vector-backed map (src/util/flatmap.rs). While a guard is open the
    vector is a sorted prefix followed by an unsorted suffix; its reported length is the
    length of the prefix, so that a leaked guard leaves a sorted map behind. */
module FlatMapGuards {
  import opened Strings
  import opened FlatMaps

  /** All elements, sorted and otherwise, and how many of them form the sorted prefix. */
  datatype State<V> = State(src: seq<Entry<V>>, sorted: nat) {
    ghost predicate Valid() {
      sorted <= |src| && StrictlySorted(src[..sorted])
    }
  }

  /** How many of the first `n` keys are smaller than `k`: what the binary search reports on a miss. */
  function LowerBound<V>(s: seq<Entry<V>>, n: nat, k: Bytes): (r: nat)
    requires n <= |s|
    ensures r <= n && (r < n ==> !Lt(s[r].key, k))
    ensures forall i | 0 <= i < r :: Lt(s[i].key, k)
  {
    if n == 0 then 0
    else
      var r := LowerBound(s, n - 1, k);
      if r == n - 1 && Lt(s[r].key, k) then n else r
  }

  function IndexFrom<V>(s: seq<Entry<V>>, i: nat, k: Bytes): (r: Option<nat>)
    requires i <= |s|
    ensures r.Some? ==> i <= r.value < |s| && s[r.value].key == k
    ensures r.None? ==> forall j | i <= j < |s| :: s[j].key != k
    decreases |s| - i
  {
    if i == |s| then None
    else if s[i].key == k then Some(i)
    else IndexFrom(s, i + 1, k)
  }

  /** `get_impl`: the unsorted suffix is searched only for keys beyond the sorted prefix. */
  function Lookup<V>(st: State<V>, k: Bytes): (r: Option<nat>)
    requires st.sorted <= |st.src|
    ensures r.Some? ==> r.value < |st.src| && st.src[r.value].key == k
  {
    var v := LowerBound(st.src, st.sorted, k);
    if v < st.sorted then if st.src[v].key == k then Some(v) else None
    else IndexFrom(st.src, st.sorted, k)
  }

  /** The lookup misses a key that is there exactly when the key sits in the suffix although it
      is smaller than the last key of the prefix. */
  ghost predicate Hidden<V>(st: State<V>, k: Bytes)
    requires st.sorted <= |st.src|
  {
    && st.sorted > 0 && Lt(k, st.src[st.sorted - 1].key)
    && exists i :: st.sorted <= i < |st.src| && st.src[i].key == k
  }

  ghost predicate Present<V>(s: seq<Entry<V>>, k: Bytes) {
    exists i :: 0 <= i < |s| && s[i].key == k
  }

  lemma {:induction false} LowerBoundAt<V>(s: seq<Entry<V>>, n: nat, k: Bytes, i: nat)
    requires i <= n <= |s|
    requires forall j | 0 <= j < i :: Lt(s[j].key, k)
    requires i < n ==> !Lt(s[i].key, k)
    ensures LowerBound(s, n, k) == i
  {
  }

  lemma {:induction false} PrefixAround<V>(st: State<V>, m: nat)
    requires st.Valid() && m < st.sorted
    ensures forall i | 0 <= i < m :: Lt(st.src[i].key, st.src[m].key)
    ensures forall i | m < i < st.sorted :: Lt(st.src[m].key, st.src[i].key)
    ensures !Lt(st.src[m].key, st.src[m].key)
  {
    LtIrreflexive(st.src[m].key);
    var p := st.src[..st.sorted];
    forall i | 0 <= i < st.sorted && i != m
      ensures if i < m then Lt(st.src[i].key, st.src[m].key) else Lt(st.src[m].key, st.src[i].key)
    {
      assert p[i] == st.src[i] && p[m] == st.src[m];
    }
  }

  lemma {:induction false} PrefixBelow<V>(st: State<V>, m: nat, k: Bytes)
    requires st.Valid() && m < st.sorted && Lt(st.src[m].key, k)
    ensures forall i | 0 <= i <= m :: Lt(st.src[i].key, k)
  {
    PrefixAround(st, m);
    forall i | 0 <= i < m ensures Lt(st.src[i].key, k) {
      LtTransitive(st.src[i].key, st.src[m].key, k);
    }
  }

  lemma {:induction false} PrefixAbove<V>(st: State<V>, m: nat, k: Bytes)
    requires st.Valid() && m < st.sorted && !Lt(st.src[m].key, k) && st.src[m].key != k
    ensures forall i | m <= i < st.sorted :: !Lt(st.src[i].key, k) && st.src[i].key != k
  {
    PrefixAround(st, m);
    LtTotal(st.src[m].key, k);
    LtIrreflexive(k);
    forall i | m <= i < st.sorted ensures !Lt(st.src[i].key, k) && st.src[i].key != k {
      if i > m {
        LtTransitive(k, st.src[m].key, st.src[i].key);
        if Lt(st.src[i].key, k) { LtTransitive(k, st.src[i].key, k); }
      } else if Lt(st.src[i].key, k) {
        assert false;
      }
    }
  }

  lemma {:induction false} LookupCompleteIff<V>(st: State<V>, k: Bytes)
    requires st.Valid() && DistinctKeys(st.src)
    ensures Lookup(st, k).None? && Present(st.src, k) <==> Hidden(st, k)
  {
    var v := LowerBound(st.src, st.sorted, k);
    if v < st.sorted {
      BelowPrefix(st, k, v);
    } else if st.sorted > 0 {
      var last := st.src[st.sorted - 1].key;
      assert Lt(last, k);
      if Lt(k, last) { LtTransitive(k, last, k); LtIrreflexive(k); }
    }
  }

  lemma {:induction false} BelowPrefix<V>(st: State<V>, k: Bytes, v: nat)
    requires st.Valid() && DistinctKeys(st.src)
    requires v == LowerBound(st.src, st.sorted, k) < st.sorted
    ensures st.src[v].key == k || Lt(k, st.src[st.sorted - 1].key)
    ensures st.src[v].key != k ==> forall i | 0 <= i < st.sorted :: st.src[i].key != k
    ensures st.src[v].key == k ==> forall i | st.sorted <= i < |st.src| :: st.src[i].key != k
  {
    var x, last := st.src[v].key, st.src[st.sorted - 1].key;
    LtTotal(k, x);
    if v < st.sorted - 1 {
      assert st.src[..st.sorted][v].key == x && st.src[..st.sorted][st.sorted - 1].key == last;
      assert Lt(x, last);
      if Lt(k, x) { LtTransitive(k, x, last); }
    }
    forall i | 0 <= i < st.sorted && x != k
      ensures st.src[i].key != k
    {
      LtIrreflexive(k);
      if i > v {
        assert Lt(st.src[..st.sorted][v].key, st.src[..st.sorted][i].key);
        LtTransitive(k, x, st.src[i].key);
      }
    }
  }

  // ---------------------------------------------------------------------------
  // Operations

  function Push<V>(st: State<V>, e: Entry<V>): State<V>
    requires st.sorted <= |st.src|
  {
    var inOrder := st.sorted == |st.src| && (st.src == [] || Lt(st.src[|st.src| - 1].key, e.key));
    State(st.src + [e], if inOrder then st.sorted + 1 else st.sorted)
  }

  function Insert<V>(st: State<V>, e: Entry<V>): (State<V>, Option<Entry<V>>)
    requires st.sorted <= |st.src|
  {
    match Lookup(st, e.key)
    case Some(i) => (State(st.src[i := e], st.sorted), Some(st.src[i]))
    case None => (Push(st, e), None)
  }

  function TryInsert<V>(st: State<V>, e: Entry<V>): (State<V>, Option<Entry<V>>)
    requires st.sorted <= |st.src|
  {
    if Lookup(st, e.key).Some? then (st, Some(e)) else (Push(st, e), None)
  }

  /** `get_or_insert`, the value of an entry found being replaced by `f` of the old and the new. */
  function Update<V>(st: State<V>, e: Entry<V>, f: (V, V) -> V): State<V>
    requires st.sorted <= |st.src|
  {
    match Lookup(st, e.key)
    case Some(i) => State(st.src[i := Entry(e.key, f(st.src[i].value, e.value))], st.sorted)
    case None => Push(st, e)
  }

  /** What `remove` comes to: nothing found, an entry taken out, or the panic of `swap_remove` on
      an index beyond the prefix. */
  datatype Removal<V> = Absent | Removed(st: State<V>, entry: Entry<V>) | Panic

  /** `swap_remove` works on the prefix alone: its last element fills the gap, the element count
      drops by one, and the prefix ends where the gap was. */
  function Remove<V>(st: State<V>, k: Bytes): Removal<V>
    requires st.sorted <= |st.src|
  {
    match Lookup(st, k)
    case None => Absent
    case Some(i) =>
      if i >= st.sorted then Panic
      else Removed(State(st.src[i := st.src[st.sorted - 1]][..|st.src| - 1], i), st.src[i])
  }

  /** Dropping the guard restores the element count and sorts if there is an unsorted suffix. The
      sort need not be stable: any sorted arrangement of the elements may result. */
  ghost predicate Dropped<V>(st: State<V>, r: seq<Entry<V>>) {
    if st.sorted < |st.src| then Sorted(r) && multiset(r) == multiset(st.src) else r == st.src
  }

  /** The guard itself: the same operations as updates of its fields. */
  class Guard<V> {
    var src: seq<Entry<V>>
    var sorted: nat

    function Now(): State<V>
      reads this
    {
      State(src, sorted)
    }

    constructor (closed: seq<Entry<V>>)
      requires StrictlySorted(closed)
      ensures Now() == State(closed, |closed|) && Now().Valid()
    {
      src, sorted := closed, |closed|;
      new;
      assert src[..sorted] == closed;
    }

    /** The search of the sorted prefix: where the key is, or where it would go. */
    method BinarySearch(k: Bytes) returns (v: nat, found: bool)
      requires Now().Valid()
      ensures v == LowerBound(src, sorted, k)
      ensures found <==> v < sorted && src[v].key == k
    {
      var hi := sorted;
      v := 0;
      while v < hi
        invariant v <= hi <= sorted
        invariant forall i | 0 <= i < v :: Lt(src[i].key, k)
        invariant forall i | hi <= i < sorted :: !Lt(src[i].key, k) && src[i].key != k
      {
        var mid := v + (hi - v) / 2;
        if src[mid].key == k {
          PrefixAround(Now(), mid);
          LowerBoundAt(src, sorted, k, mid);
          return mid, true;
        }
        PrefixAround(Now(), mid);
        if Lt(src[mid].key, k) {
          PrefixBelow(Now(), mid, k);
          v := mid + 1;
        } else {
          PrefixAbove(Now(), mid, k);
          hi := mid;
        }
      }
      LowerBoundAt(src, sorted, k, v);
      found := false;
    }

    method GetIdx(k: Bytes) returns (r: Option<nat>)
      requires Now().Valid()
      ensures r == Lookup(Now(), k)
    {
      var v, found := BinarySearch(k);
      if found { return Some(v); }
      if v < sorted { return None; }
      var i := sorted;
      while i < |src|
        invariant sorted <= i <= |src|
        invariant IndexFrom(src, sorted, k) == IndexFrom(src, i, k)
      {
        if src[i].key == k { return Some(i); }
        i := i + 1;
      }
      r := None;
    }

    method PushBack(e: Entry<V>)
      requires Now().Valid()
      modifies this
      ensures Now() == Push(old(Now()), e) && Now().Valid()
    {
      PushValid(Now(), e);
      var inOrder := sorted == |src| && (src == [] || Lt(src[|src| - 1].key, e.key));
      src := src + [e];
      if inOrder { sorted := sorted + 1; }
    }

    method InsertEntry(e: Entry<V>) returns (was: Option<Entry<V>>)
      requires Now().Valid()
      modifies this
      ensures (Now(), was) == Insert(old(Now()), e) && Now().Valid()
    {
      InsertValid(Now(), e);
      var idx := GetIdx(e.key);
      if idx.Some? {
        was := Some(src[idx.value]);
        src := src[idx.value := e];
      } else {
        PushBack(e);
        was := None;
      }
    }

    /** `try_insert`: the entry is handed back if its key is there. */
    method TryInsertEntry(e: Entry<V>) returns (back: Option<Entry<V>>)
      requires Now().Valid()
      modifies this
      ensures (Now(), back) == TryInsert(old(Now()), e) && Now().Valid()
    {
      InsertValid(Now(), e);
      var idx := GetIdx(e.key);
      if idx.Some? { return Some(e); }
      PushBack(e);
      back := None;
    }

    /** `get_or_insert` and what its caller then does to the entry found. */
    method UpdateEntry(e: Entry<V>, f: (V, V) -> V)
      requires Now().Valid()
      modifies this
      ensures Now() == Update(old(Now()), e, f) && Now().Valid()
    {
      UpdateIsInsert(Now(), e, f);
      InsertValid(Now(), Resolved(Now(), e, f));
      var idx := GetIdx(e.key);
      if idx.Some? {
        src := src[idx.value := Entry(e.key, f(src[idx.value].value, e.value))];
      } else {
        PushBack(e);
      }
    }

    method RemoveKey(k: Bytes) returns (r: Removal<V>)
      requires Now().Valid()
      modifies this
      ensures r == Remove(old(Now()), k)
      ensures Now() == (if r.Removed? then r.st else old(Now())) && Now().Valid()
    {
      RemoveValid(Now(), k);
      var idx := GetIdx(k);
      if idx.None? { return Absent; }
      var i := idx.value;
      if i >= sorted { return Panic; }
      var entry := src[i];
      src := src[i := src[sorted - 1]][..|src| - 1];
      sorted := i;
      r := Removed(Now(), entry);
    }

    method DropGuard() returns (r: seq<Entry<V>>)
      requires Now().Valid()
      modifies this
      ensures Dropped(old(Now()), r)
      ensures src == r
    {
      if sorted < |src| {
        SortByKeySorts(src);
        src := SortByKey(src);
      }
      r := src;
    }
  }

  // ---------------------------------------------------------------------------
  // A leaked guard: the prefix is strictly sorted after every operation

  lemma {:induction false} PushValid<V>(st: State<V>, e: Entry<V>)
    requires st.Valid()
    ensures Push(st, e).Valid()
  {
    var st' := Push(st, e);
    if st'.sorted > st.sorted {
      assert st'.src[..st'.sorted] == st.src[..st.sorted] + [e];
      forall i | 0 <= i < |st.src|
        ensures Lt(st.src[i].key, e.key)
      {
        if i < |st.src| - 1 {
          assert Lt(st.src[..st.sorted][i].key, st.src[..st.sorted][|st.src| - 1].key);
          LtTransitive(st.src[i].key, st.src[|st.src| - 1].key, e.key);
        }
      }
    } else {
      assert st'.src[..st'.sorted] == st.src[..st.sorted];
    }
  }

  lemma {:induction false} InsertValid<V>(st: State<V>, e: Entry<V>)
    requires st.Valid()
    ensures Insert(st, e).0.Valid()
  {
    var st' := Insert(st, e).0;
    match Lookup(st, e.key) {
      case Some(i) =>
        assert forall j | 0 <= j < |st.src| :: st'.src[j].key == st.src[j].key;
        forall i, j | 0 <= i < j < st.sorted
          ensures Lt(st'.src[..st.sorted][i].key, st'.src[..st.sorted][j].key)
        {
          assert Lt(st.src[..st.sorted][i].key, st.src[..st.sorted][j].key);
        }
      case None => PushValid(st, e);
    }
  }

  lemma {:induction false} RemoveValid<V>(st: State<V>, k: Bytes)
    requires st.Valid()
    ensures Remove(st, k).Removed? ==> Remove(st, k).st.Valid()
  {
    var r := Remove(st, k);
    if r.Removed? {
      assert r.st.src[..r.st.sorted] == st.src[..st.sorted][..r.st.sorted];
    }
  }

  datatype Op<V> = Ins(e: Entry<V>) | TryIns(e: Entry<V>) | Rem(k: Bytes)

  /** The guard's state after any sequence of operations, or `None` if one of them panics. */
  function Run<V>(st: State<V>, ops: seq<Op<V>>): Option<State<V>>
    requires st.sorted <= |st.src|
    decreases |ops|
  {
    if ops == [] then Some(st)
    else
      match ops[0]
      case Ins(e) => Run(Insert(st, e).0, ops[1..])
      case TryIns(e) => Run(TryInsert(st, e).0, ops[1..])
      case Rem(k) =>
        match Remove(st, k)
        case Absent => Run(st, ops[1..])
        case Removed(st', _) => Run(st', ops[1..])
        case Panic => None
  }

  lemma {:induction false} LeakedGuardIsSorted<V>(st: State<V>, ops: seq<Op<V>>)
    requires st.Valid()
    ensures Run(st, ops).Some? ==> Run(st, ops).value.Valid()
    decreases |ops|
  {
    if ops != [] {
      match ops[0] {
        case Ins(e) =>
          InsertValid(st, e);
          LeakedGuardIsSorted(Insert(st, e).0, ops[1..]);
        case TryIns(e) =>
          PushValid(st, e);
          LeakedGuardIsSorted(TryInsert(st, e).0, ops[1..]);
        case Rem(k) =>
          RemoveValid(st, k);
          match Remove(st, k) {
            case Absent => LeakedGuardIsSorted(st, ops[1..]);
            case Removed(st', _) => LeakedGuardIsSorted(st', ops[1..]);
            case Panic =>
          }
      }
    }
  }

  // ---------------------------------------------------------------------------
  // When an insertion overwrites the map

  lemma {:induction false} InsertFound<V>(st: State<V>, e: Entry<V>, i: nat)
    requires st.Valid() && DistinctKeys(st.src) && Lookup(st, e.key) == Some(i)
    ensures DistinctKeys(Insert(st, e).0.src)
    ensures ToMap(Insert(st, e).0.src) == ToMap(st.src)[e.key := e.value]
  {
    var a, b := st.src[..i], st.src[i + 1..];
    assert st.src == a + [st.src[i]] + b && st.src[i := e] == a + [e] + b;
    assert forall j | 0 <= j < |b| :: b[j] == st.src[i + 1 + j];
    Replaced(a, st.src[i], b, e);
    UpdateKeepsDistinct(st.src, i, e);
  }

  lemma {:induction false} Replaced<V>(a: seq<Entry<V>>, x: Entry<V>, b: seq<Entry<V>>, e: Entry<V>)
    requires x.key == e.key && forall j | 0 <= j < |b| :: b[j].key != e.key
    ensures ToMap(a + [e] + b) == ToMap(a + [x] + b)[e.key := e.value]
  {
    InsertKeepsMap(a, x, b);
    InsertKeepsMap(a, e, b);
  }

  lemma {:induction false} UpdateKeepsDistinct<V>(s: seq<Entry<V>>, i: nat, e: Entry<V>)
    requires i < |s| && DistinctKeys(s) && s[i].key == e.key
    ensures DistinctKeys(s[i := e])
  {
  }

  /** One insertion into a vector with distinct keys: unless the key is hidden, it overwrites the
      map and hands back the old entry; if it is hidden, the key ends up in the vector twice. */
  lemma {:induction false} InsertExact<V>(st: State<V>, e: Entry<V>)
    requires st.Valid() && DistinctKeys(st.src)
    ensures var (st', was) := Insert(st, e);
            if Hidden(st, e.key) then
              !DistinctKeys(st'.src)
            else
              && DistinctKeys(st'.src)
              && ToMap(st'.src) == ToMap(st.src)[e.key := e.value]
              && was == if e.key in ToMap(st.src) then Some(Entry(e.key, ToMap(st.src)[e.key])) else None
  {
    LookupCompleteIff(st, e.key);
    ToMapKeys(st.src);
    match Lookup(st, e.key) {
      case Some(i) =>
        InsertFound(st, e, i);
        ToMapDistinct(st.src);
      case None =>
        ToMapSnoc(st.src, e);
        if Hidden(st, e.key) {
          var i :| st.sorted <= i < |st.src| && st.src[i].key == e.key;
          var s' := st.src + [e];
          assert s'[i].key == s'[|st.src|].key;
        } else {
          assert !Present(st.src, e.key);
        }
    }
  }

  /** A repeated key never goes away again while entries are inserted. */
  lemma {:induction false} RepeatsStay<V>(st: State<V>, e: Entry<V>)
    requires st.sorted <= |st.src| && !DistinctKeys(st.src)
    ensures !DistinctKeys(Insert(st, e).0.src)
  {
    var i, j :| 0 <= i < j < |st.src| && st.src[i].key == st.src[j].key;
    var s' := Insert(st, e).0.src;
    assert s'[i].key == s'[j].key;
  }

  /** A whole session of insertions. */
  function Session<V>(st: State<V>, es: seq<Entry<V>>): State<V>
    requires st.sorted <= |st.src|
    decreases |es|
  {
    if es == [] then st else Session(Insert(st, es[0]).0, es[1..])
  }

  /** No insertion of the session is given a key hidden at that moment. */
  ghost predicate NeverHidden<V>(st: State<V>, es: seq<Entry<V>>)
    requires st.sorted <= |st.src|
    decreases |es|
  {
    es == [] || (!Hidden(st, es[0].key) && NeverHidden(Insert(st, es[0]).0, es[1..]))
  }

  /** The map overwritten by the entries in order. */
  function Overwritten<V>(m: map<Bytes, V>, es: seq<Entry<V>>): map<Bytes, V>
    decreases |es|
  {
    if es == [] then m else Overwritten(m[es[0].key := es[0].value], es[1..])
  }

  lemma {:induction false} RepeatsStayInSession<V>(st: State<V>, es: seq<Entry<V>>)
    requires st.sorted <= |st.src| && !DistinctKeys(st.src)
    ensures !DistinctKeys(Session(st, es).src)
    decreases |es|
  {
    if es != [] {
      RepeatsStay(st, es[0]);
      RepeatsStayInSession(Insert(st, es[0]).0, es[1..]);
    }
  }

  lemma {:induction false} SessionExact<V>(st: State<V>, es: seq<Entry<V>>)
    requires st.Valid() && DistinctKeys(st.src)
    ensures Session(st, es).Valid()
    ensures NeverHidden(st, es) <==> DistinctKeys(Session(st, es).src)
    ensures NeverHidden(st, es) ==> ToMap(Session(st, es).src) == Overwritten(ToMap(st.src), es)
    decreases |es|
  {
    if es != [] {
      var st' := Insert(st, es[0]).0;
      InsertValid(st, es[0]);
      InsertExact(st, es[0]);
      if Hidden(st, es[0].key) {
        RepeatsStayInSession(st', es[1..]);
        SessionValid(st', es[1..]);
      } else {
        SessionExact(st', es[1..]);
      }
    }
  }

  lemma {:induction false} SessionValid<V>(st: State<V>, es: seq<Entry<V>>)
    requires st.Valid()
    ensures Session(st, es).Valid()
    decreases |es|
  {
    if es != [] {
      InsertValid(st, es[0]);
      SessionValid(Insert(st, es[0]).0, es[1..]);
    }
  }

  lemma {:induction false} CountTwice<V>(s: seq<Entry<V>>, i: nat, j: nat)
    requires i < j < |s|
    ensures s[i] == s[j] ==> multiset(s)[s[i]] >= 2
    ensures s[i] != s[j] ==> s[i] in multiset(s) && s[j] in multiset(s)
  {
    assert s == s[..j] + s[j..];
    assert s[..j][i] == s[i] && s[j..][0] == s[j];
    assert multiset(s) == multiset(s[..j]) + multiset(s[j..]);
  }

  /** Rearranging a vector neither creates nor removes repeated keys. */
  lemma {:induction false} ArrangementKeepsDistinct<V>(s: seq<Entry<V>>, r: seq<Entry<V>>)
    requires multiset(s) == multiset(r) && DistinctKeys(s)
    ensures DistinctKeys(r)
  {
    forall i, j | 0 <= i < j < |r|
      ensures r[i].key != r[j].key
    {
      CountTwice(r, i, j);
      if r[i] == r[j] {
        OnceEach(s, r[i]);
      } else {
        assert r[i] in s && r[j] in s;
      }
    }
  }

  lemma {:induction false} OnceEach<V>(s: seq<Entry<V>>, e: Entry<V>)
    requires DistinctKeys(s)
    ensures multiset(s)[e] <= 1
    decreases |s|
  {
    if s != [] {
      assert s == s[..|s| - 1] + [s[|s| - 1]];
      OnceEach(s[..|s| - 1], e);
      if s[|s| - 1] == e { assert e !in s[..|s| - 1]; }
    }
  }

  lemma {:induction false} DropExact<V>(st: State<V>, r: seq<Entry<V>>)
    requires st.Valid() && Dropped(st, r)
    ensures StrictlySorted(r) <==> DistinctKeys(st.src)
    ensures DistinctKeys(st.src) ==> ToMap(r) == ToMap(st.src)
  {
    if st.sorted == |st.src| {
      assert st.src[..st.sorted] == st.src;
      StrictlySortedDistinct(st.src);
    } else if DistinctKeys(st.src) {
      ArrangementKeepsDistinct(st.src, r);
      forall e
        ensures e in r <==> e in st.src
      {
        assert e in multiset(r) <==> e in multiset(st.src);
      }
      SameEntriesSameMap(r, st.src);
      forall i, j | 0 <= i < j < |r|
        ensures Lt(r[i].key, r[j].key)
      {
        LtTotal(r[i].key, r[j].key);
      }
    } else if StrictlySorted(r) {
      StrictlySortedDistinct(r);
      ArrangementKeepsDistinct(r, st.src);
    }
  }

  /** The main result on insertion sessions. Opening a guard on a closed map, inserting any entries
      and dropping the guard yields a strictly sorted vector if and only if no insertion was
      given a hidden key, and then the vector stands for the map overwritten by the entries. */
  lemma {:induction false} InsertSessionIff<V>(closed: seq<Entry<V>>, es: seq<Entry<V>>, r: seq<Entry<V>>)
    requires StrictlySorted(closed)
    requires Dropped(Session(State(closed, |closed|), es), r)
    ensures StrictlySorted(r) <==> NeverHidden(State(closed, |closed|), es)
    ensures StrictlySorted(r) ==> ToMap(r) == Overwritten(ToMap(closed), es)
  {
    var st := State(closed, |closed|);
    assert closed[..|closed|] == closed;
    StrictlySortedDistinct(closed);
    SessionExact(st, es);
    DropExact(Session(st, es), r);
  }

  /** Pairwise distinct keys never run into a hidden one. */
  lemma {:induction false} DistinctNeverHidden<V>(st: State<V>, es: seq<Entry<V>>)
    requires st.Valid()
    requires DistinctKeys(es)
    requires forall i, j | st.sorted <= i < |st.src| && 0 <= j < |es| :: st.src[i].key != es[j].key
    ensures NeverHidden(st, es)
    decreases |es|
  {
    if es != [] {
      InsertValid(st, es[0]);
      var st' := Insert(st, es[0]).0;
      forall i, j | st'.sorted <= i < |st'.src| && 0 <= j < |es[1..]|
        ensures st'.src[i].key != es[1..][j].key
      {
        if i < |st.src| { assert st'.src[i].key == st.src[i].key; }
      }
      DistinctNeverHidden(st', es[1..]);
    }
  }

  /** What the insertions of a session hand back. */
  function Returns<V>(st: State<V>, es: seq<Entry<V>>): (r: seq<Option<Entry<V>>>)
    requires st.sorted <= |st.src|
    ensures |r| == |es|
    decreases |es|
  {
    if es == [] then []
    else
      var (st', was) := Insert(st, es[0]);
      [was] + Returns(st', es[1..])
  }

  function EntryAt<V>(m: map<Bytes, V>, k: Bytes): Option<Entry<V>> {
    if k in m then Some(Entry(k, m[k])) else None
  }

  /** What overwriting a map entry by entry displaces. */
  function Displaced<V>(m: map<Bytes, V>, es: seq<Entry<V>>): (r: seq<Option<Entry<V>>>)
    ensures |r| == |es|
    decreases |es|
  {
    if es == [] then []
    else [EntryAt(m, es[0].key)] + Displaced(m[es[0].key := es[0].value], es[1..])
  }

  lemma {:induction false} ReturnsDisplaced<V>(st: State<V>, es: seq<Entry<V>>)
    requires st.Valid() && DistinctKeys(st.src) && NeverHidden(st, es)
    ensures Returns(st, es) == Displaced(ToMap(st.src), es)
    decreases |es|
  {
    if es != [] {
      InsertValid(st, es[0]);
      InsertExact(st, es[0]);
      ReturnsDisplaced(Insert(st, es[0]).0, es[1..]);
    }
  }

  /** With distinct keys, what is displaced was there from the start. */
  lemma {:induction false} DisplacedDistinct<V>(m: map<Bytes, V>, es: seq<Entry<V>>, i: nat)
    requires DistinctKeys(es) && i < |es|
    ensures Displaced(m, es)[i] == EntryAt(m, es[i].key)
    decreases |es|
  {
    if i > 0 {
      assert es[1..][i - 1] == es[i] && es[0].key != es[i].key;
      DisplacedDistinct(m[es[0].key := es[0].value], es[1..], i - 1);
    }
  }

  /** A session of insertions with pairwise distinct keys, in any order: the closed map is strictly
      sorted and overwritten by the entries, and each insertion hands back the old entry of its
      key, if there was one. */
  lemma {:induction false} InsertSessionDistinct<V>(closed: seq<Entry<V>>, es: seq<Entry<V>>, r: seq<Entry<V>>)
    requires StrictlySorted(closed) && DistinctKeys(es)
    requires Dropped(Session(State(closed, |closed|), es), r)
    ensures StrictlySorted(r) && ToMap(r) == Overwritten(ToMap(closed), es)
    ensures forall i | 0 <= i < |es| ::
              Returns(State(closed, |closed|), es)[i] == EntryAt(ToMap(closed), es[i].key)
  {
    var st := State(closed, |closed|);
    assert closed[..|closed|] == closed;
    StrictlySortedDistinct(closed);
    DistinctNeverHidden(st, es);
    InsertSessionIff(closed, es, r);
    ReturnsDisplaced(st, es);
    forall i | 0 <= i < |es| ensures Returns(st, es)[i] == EntryAt(ToMap(closed), es[i].key) {
      DisplacedDistinct(ToMap(closed), es, i);
    }
  }

  /** A session that inserts 2 twice below the last key 3 keeps both entries. */
  lemma {:induction false} RepeatedKeyIsKept()
    ensures var closed := [Entry([3], 0)];
            var es := [Entry([2], 1), Entry([2], 2)];
            var kept := [Entry([2], 1), Entry([2], 2), Entry([3], 0)];
            !NeverHidden(State(closed, 1), es) && Dropped(Session(State(closed, 1), es), kept)
  {
    var st, es := State([Entry([3], 0)], 1), [Entry([2], 1), Entry([2], 2)];
    var st' := State([Entry([3], 0), Entry([2], 1)], 1);
    BelowThree(st, es[0]);
    BelowThree(st', es[1]);
    assert es[1..] == [es[1]] && es[1..][1..] == [];
    assert Insert(st, es[0]).0 == st';
    assert st'.src[1].key == [2] && Lt([2], [3]);
    assert Hidden(st', es[1].key);
    SortedExample();
  }

  lemma {:induction false} BelowThree(st: State<int>, e: Entry<int>)
    requires st.sorted == 1 <= |st.src| && st.src[0].key == [3] && e.key == [2]
    ensures Insert(st, e).0 == State(st.src + [e], 1)
  {
    assert Lt([2], [3]) && !Lt([3], [2]);
    assert LowerBound(st.src, 1, [2]) == 0;
  }

  lemma {:induction false} SortedExample()
    ensures Sorted([Entry([2], 1), Entry([2], 2), Entry([3], 0)])
  {
    LtIrreflexive([2]);
    assert !Lt([3], [2]);
  }

  // ---------------------------------------------------------------------------
  // Sessions of updates

  /** The entry that an update comes to. */
  function Resolved<V>(st: State<V>, e: Entry<V>, f: (V, V) -> V): Entry<V>
    requires st.sorted <= |st.src|
  {
    match Lookup(st, e.key)
    case Some(i) => Entry(e.key, f(st.src[i].value, e.value))
    case None => e
  }

  lemma {:induction false} UpdateIsInsert<V>(st: State<V>, e: Entry<V>, f: (V, V) -> V)
    requires st.sorted <= |st.src|
    ensures Resolved(st, e, f).key == e.key
    ensures Update(st, e, f) == Insert(st, Resolved(st, e, f)).0
  {
  }

  /** The map with one more entry, merged into one that is there. */
  function Merged<V>(m: map<Bytes, V>, e: Entry<V>, f: (V, V) -> V): map<Bytes, V> {
    m[e.key := if e.key in m then f(m[e.key], e.value) else e.value]
  }

  function AllMerged<V>(m: map<Bytes, V>, es: seq<Entry<V>>, f: (V, V) -> V): map<Bytes, V>
    decreases |es|
  {
    if es == [] then m else AllMerged(Merged(m, es[0], f), es[1..], f)
  }

  function UpdateSession<V>(st: State<V>, es: seq<Entry<V>>, f: (V, V) -> V): State<V>
    requires st.sorted <= |st.src|
    decreases |es|
  {
    if es == [] then st else UpdateSession(Update(st, es[0], f), es[1..], f)
  }

  lemma {:induction false} UpdateExact<V>(st: State<V>, e: Entry<V>, f: (V, V) -> V)
    requires st.Valid() && DistinctKeys(st.src) && !Hidden(st, e.key)
    ensures var st' := Update(st, e, f);
            st'.Valid() && DistinctKeys(st'.src) && ToMap(st'.src) == Merged(ToMap(st.src), e, f)
  {
    var x := Resolved(st, e, f);
    UpdateIsInsert(st, e, f);
    InsertValid(st, x);
    InsertExact(st, x);
    LookupCompleteIff(st, e.key);
    ToMapKeys(st.src);
    ToMapDistinct(st.src);
    if Lookup(st, e.key).None? { assert !Present(st.src, e.key); }
  }

  /** No key of the session is in the unsorted suffix. */
  ghost predicate Apart<V>(st: State<V>, es: seq<Entry<V>>)
    requires st.sorted <= |st.src|
  {
    forall i, j | st.sorted <= i < |st.src| && 0 <= j < |es| :: st.src[i].key != es[j].key
  }

  lemma {:induction false} UpdateStaysApart<V>(st: State<V>, es: seq<Entry<V>>, f: (V, V) -> V)
    requires st.Valid() && es != [] && DistinctKeys(es) && Apart(st, es)
    ensures !Hidden(st, es[0].key) && Update(st, es[0], f).Valid()
    ensures Apart(Update(st, es[0], f), es[1..])
  {
    UpdateIsInsert(st, es[0], f);
    InsertValid(st, Resolved(st, es[0], f));
    var st' := Update(st, es[0], f);
    forall i, j | st'.sorted <= i < |st'.src| && 0 <= j < |es[1..]|
      ensures st'.src[i].key != es[1..][j].key
    {
      if i < |st.src| { assert st'.src[i].key == st.src[i].key; }
    }
  }

  lemma {:induction false} UpdateSessionExact<V>(st: State<V>, es: seq<Entry<V>>, f: (V, V) -> V)
    requires st.Valid() && DistinctKeys(st.src) && DistinctKeys(es) && Apart(st, es)
    ensures var st' := UpdateSession(st, es, f);
            st'.Valid() && DistinctKeys(st'.src) && ToMap(st'.src) == AllMerged(ToMap(st.src), es, f)
    decreases |es|
  {
    if es != [] {
      UpdateStaysApart(st, es, f);
      UpdateExact(st, es[0], f);
      UpdateSessionExact(Update(st, es[0], f), es[1..], f);
    }
  }

  /** A whole session of updates with pairwise distinct keys, in any order, merges each entry into
      the map: an entry that is there is combined with the new one, any other is added. */
  lemma {:induction false} UpdateSessionIsMerge<V>(closed: seq<Entry<V>>, es: seq<Entry<V>>, f: (V, V) -> V,
                                                   r: seq<Entry<V>>)
    requires StrictlySorted(closed) && DistinctKeys(es)
    requires Dropped(UpdateSession(State(closed, |closed|), es, f), r)
    ensures StrictlySorted(r) && ToMap(r) == AllMerged(ToMap(closed), es, f)
  {
    var st := State(closed, |closed|);
    assert closed[..|closed|] == closed;
    StrictlySortedDistinct(closed);
    UpdateSessionExact(st, es, f);
    DropExact(UpdateSession(st, es, f), r);
  }

  /** With distinct keys the order of the entries does not matter: each is merged with what the map
      held before the session. */
  lemma {:induction false} MergedAtOnce<V>(m: map<Bytes, V>, es: seq<Entry<V>>, f: (V, V) -> V)
    requires DistinctKeys(es)
    ensures AllMerged(m, es, f) ==
            m + map k | k in ToMap(es) :: if k in m then f(m[k], ToMap(es)[k]) else ToMap(es)[k]
    decreases |es|
  {
    if es != [] {
      var e, rest := es[0], es[1..];
      MergedAtOnce(Merged(m, e, f), rest, f);
      ToMapCons(e, rest);
      assert es == [e] + rest;
      ToMapKeys(rest);
      assert e.key !in ToMap(rest);
      MergedAdd(m, e, ToMap(rest), f);
    }
  }

  lemma {:induction false} MergedAdd<V>(m: map<Bytes, V>, e: Entry<V>, n: map<Bytes, V>, f: (V, V) -> V)
    requires e.key !in n
    ensures var m', n' := Merged(m, e, f), map[e.key := e.value] + n;
            m' + (map k | k in n :: if k in m' then f(m'[k], n[k]) else n[k])
            == m + (map k | k in n' :: if k in m then f(m[k], n'[k]) else n'[k])
  {
  }

  function TrySession<V>(st: State<V>, es: seq<Entry<V>>): State<V>
    requires st.sorted <= |st.src|
    decreases |es|
  {
    if es == [] then st else TrySession(TryInsert(st, es[0]).0, es[1..])
  }

  lemma {:induction false} TrySessionIsUpdateSession<V>(st: State<V>, es: seq<Entry<V>>, keep: (V, V) -> V)
    requires st.sorted <= |st.src| && forall was, now :: keep(was, now) == was
    ensures TrySession(st, es) == UpdateSession(st, es, keep)
    decreases |es|
  {
    if es != [] {
      assert TryInsert(st, es[0]).0 == Update(st, es[0], keep);
      TrySessionIsUpdateSession(TryInsert(st, es[0]).0, es[1..], keep);
    }
  }

  /** A session of `try_insert` with pairwise distinct keys keeps what is known and adds the rest. */
  lemma {:induction false} TrySessionAdds<V>(closed: seq<Entry<V>>, es: seq<Entry<V>>, r: seq<Entry<V>>)
    requires StrictlySorted(closed) && DistinctKeys(es)
    requires Dropped(TrySession(State(closed, |closed|), es), r)
    ensures StrictlySorted(r) && ToMap(r) == ToMap(es) + ToMap(closed)
  {
    var keep := (was: V, now: V) => was;
    TrySessionIsUpdateSession(State(closed, |closed|), es, keep);
    UpdateSessionIsMerge(closed, es, keep, r);
    KeptMerge(ToMap(closed), es, keep);
  }

  lemma {:induction false} KeptMerge<V>(m: map<Bytes, V>, es: seq<Entry<V>>, keep: (V, V) -> V)
    requires DistinctKeys(es) && forall was, now :: keep(was, now) == was
    ensures AllMerged(m, es, keep) == ToMap(es) + m
    decreases |es|
  {
    if es != [] {
      var e, rest := es[0], es[1..];
      KeptMerge(Merged(m, e, keep), rest, keep);
      ToMapCons(e, rest);
      assert es == [e] + rest;
      ToMapKeys(rest);
      assert e.key !in ToMap(rest);
      AddUnlessThere(m, e.key, e.value, ToMap(rest));
    }
  }

  lemma {:induction false} AddUnlessThere<V>(m: map<Bytes, V>, k: Bytes, v: V, n: map<Bytes, V>)
    requires k !in n
    ensures n + m[k := if k in m then m[k] else v] == (map[k := v] + n) + m
  {
  }

  lemma {:induction false} ToMapCons<V>(e: Entry<V>, es: seq<Entry<V>>)
    ensures ToMap([e] + es) == map[e.key := e.value] + ToMap(es)
    decreases |es|
  {
    if es == [] {
      assert [e] + es == [] + [e];
      ToMapSnoc([], e);
    } else {
      var init, last := es[..|es| - 1], es[|es| - 1];
      ToMapCons(e, init);
      assert [e] + es == ([e] + init) + [last];
      ToMapSnoc([e] + init, last);
      AddThenSet(map[e.key := e.value], ToMap(init), last.key, last.value);
    }
  }

  lemma {:induction false} AddThenSet<V>(m: map<Bytes, V>, n: map<Bytes, V>, k: Bytes, v: V)
    ensures (m + n)[k := v] == m + n[k := v]
  {
  }

  // ---------------------------------------------------------------------------
  // When a removal removes

  /** Removing a key that is found takes exactly that key out of the map if and only if there is
      no unsorted suffix. */
  lemma {:induction false} RemoveExactIff<V>(st: State<V>, k: Bytes)
    requires st.Valid() && DistinctKeys(st.src) && Lookup(st, k).Some?
    ensures var r := Remove(st, k);
            (r.Removed? && DistinctKeys(r.st.src) && ToMap(r.st.src) == ToMap(st.src) - {k})
            <==> st.sorted == |st.src|
    ensures Remove(st, k).Removed? ==> Remove(st, k).entry == st.src[Lookup(st, k).value]
  {
    var i := Lookup(st, k).value;
    var r := Remove(st, k);
    if i < st.sorted {
      if st.sorted == |st.src| {
        RemoveFromSorted(st, k, i);
      } else if i == st.sorted - 1 {
        ToMapKeys(r.st.src);
        assert r.st.src[i].key == k;
      } else {
        assert r.st.src[i].key == r.st.src[st.sorted - 1].key;
      }
    }
  }

  lemma {:induction false} RemoveFromSorted<V>(st: State<V>, k: Bytes, i: nat)
    requires st.Valid() && DistinctKeys(st.src) && Lookup(st, k) == Some(i)
    requires i < st.sorted == |st.src|
    ensures var s' := Remove(st, k).st.src;
            DistinctKeys(s') && ToMap(s') == ToMap(st.src) - {k}
  {
    var n := |st.src| - 1;
    assert Remove(st, k).st.src == st.src[i := st.src[n]][..n];
    FilledGap(st.src, i);
    GapIsDistinct(st.src, i);
  }

  lemma {:induction false} GapIsDistinct<V>(s: seq<Entry<V>>, i: nat)
    requires DistinctKeys(s) && i < |s|
    ensures DistinctKeys(s[i := s[|s| - 1]][..|s| - 1])
  {
  }

  lemma {:induction false} FilledGap<V>(s: seq<Entry<V>>, i: nat)
    requires DistinctKeys(s) && i < |s|
    ensures ToMap(s[i := s[|s| - 1]][..|s| - 1]) == ToMap(s) - {s[i].key}
  {
    var n := |s| - 1;
    var l := s[n];
    if i < n {
      CutInto(s, i);
      SwapRemoved(s[..i], s[i], s[i + 1..n], l);
    } else {
      var s' := s[..n];
      assert s == s' + [l] && s[i := l][..n] == s';
      ToMapSnoc(s', l);
      KeyAbsent(s', [], l.key);
      assert s' + [] == s';
      SetThenDelete(ToMap(s'), l.key, l.value);
    }
  }

  lemma {:induction false} CutInto<V>(s: seq<Entry<V>>, i: nat)
    requires i < |s| - 1
    ensures var n := |s| - 1;
            && s == s[..i] + [s[i]] + s[i + 1..n] + [s[n]]
            && s[i := s[n]][..n] == s[..i] + [s[n]] + s[i + 1..n]
  {
  }

  lemma {:induction false} SwapRemoved<V>(a: seq<Entry<V>>, x: Entry<V>, b: seq<Entry<V>>, l: Entry<V>)
    requires x.key != l.key
    requires forall j | 0 <= j < |a| :: a[j].key != x.key
    requires forall j | 0 <= j < |b| :: b[j].key != x.key && b[j].key != l.key
    ensures ToMap(a + [l] + b) == ToMap(a + [x] + b + [l]) - {x.key}
  {
    ToMapSnoc(a + [x] + b, l);
    InsertKeepsMap(a, x, b);
    InsertKeepsMap(a, l, b);
    KeyAbsent(a, b, x.key);
  }

  lemma {:induction false} KeyAbsent<V>(a: seq<Entry<V>>, b: seq<Entry<V>>, k: Bytes)
    requires forall j | 0 <= j < |a| :: a[j].key != k
    requires forall j | 0 <= j < |b| :: b[j].key != k
    ensures k !in ToMap(a + b)
  {
    ToMapKeys(a + b);
  }

  /** Opening a guard on a closed map, removing one key and dropping the guard is map removal, and
      finds the key exactly if it is there. */
  lemma {:induction false} RemoveSession<V>(closed: seq<Entry<V>>, k: Bytes, r: seq<Entry<V>>)
    requires StrictlySorted(closed)
    requires var out := Remove(State(closed, |closed|), k);
             Dropped(if out.Removed? then out.st else State(closed, |closed|), r)
    ensures Remove(State(closed, |closed|), k).Removed? <==> k in ToMap(closed)
    ensures !Remove(State(closed, |closed|), k).Panic?
    ensures StrictlySorted(r) && ToMap(r) == ToMap(closed) - {k}
  {
    var st := State(closed, |closed|);
    assert closed[..|closed|] == closed;
    StrictlySortedDistinct(closed);
    ToMapKeys(closed);
    LookupCompleteIff(st, k);
    if Remove(st, k).Removed? {
      RemoveExactIff(st, k);
      RemoveValid(st, k);
      DropExact(Remove(st, k).st, r);
    } else {
      assert !Present(closed, k);
    }
  }

  // ---------------------------------------------------------------------------
  // Several removals in one session

  /** Removing keys one after another, or `None` if one of the removals panics. */
  function RemoveAll<V>(st: State<V>, ks: seq<Bytes>): Option<State<V>>
    requires st.sorted <= |st.src|
    decreases |ks|
  {
    if ks == [] then Some(st)
    else match Remove(st, ks[0])
      case Absent => RemoveAll(st, ks[1..])
      case Removed(st', _) => RemoveAll(st', ks[1..])
      case Panic => None
  }

  ghost predicate Ascending(ks: seq<Bytes>) {
    forall i, j | 0 <= i < j < |ks| :: Lt(ks[i], ks[j])
  }

  ghost predicate AnyPresent<V>(s: seq<Entry<V>>, ks: seq<Bytes>) {
    exists j :: 0 <= j < |ks| && Present(s, ks[j])
  }

  ghost predicate TwoPresent<V>(s: seq<Entry<V>>, ks: seq<Bytes>) {
    exists i, j :: 0 <= i < j < |ks| && Present(s, ks[i]) && Present(s, ks[j])
  }

  /** Beyond the prefix every key that is there makes the removal panic. */
  lemma {:induction false} RemoveBeyond<V>(st: State<V>, k: Bytes)
    requires st.Valid()
    requires forall i | 0 <= i < st.sorted :: Lt(st.src[i].key, k)
    ensures Remove(st, k) == if Present(st.src, k) then Panic else Absent
  {
    LtIrreflexive(k);
    assert LowerBound(st.src, st.sorted, k) == st.sorted;
  }

  lemma {:induction false} RemoveAllBeyond<V>(st: State<V>, ks: seq<Bytes>)
    requires st.Valid()
    requires forall i, j | 0 <= i < st.sorted && 0 <= j < |ks| :: Lt(st.src[i].key, ks[j])
    ensures RemoveAll(st, ks) == if AnyPresent(st.src, ks) then None else Some(st)
    decreases |ks|
  {
    if ks != [] {
      RemoveBeyond(st, ks[0]);
      RemoveAllBeyond(st, ks[1..]);
      if !Present(st.src, ks[0]) && AnyPresent(st.src, ks) {
        var j :| 0 <= j < |ks| && Present(st.src, ks[j]);
        assert ks[1..][j - 1] == ks[j];
      }
    }
  }

  /** The first removal from a closed map cuts the prefix where the key was. */
  lemma {:induction false} FirstRemoval<V>(closed: seq<Entry<V>>, k: Bytes)
    requires StrictlySorted(closed) && Present(closed, k)
    ensures var r := Remove(State(closed, |closed|), k);
            && r.Removed? && r.st.Valid()
            && (forall i | 0 <= i < r.st.sorted :: Lt(r.st.src[i].key, k))
            && (forall x | x != k :: Present(r.st.src, x) <==> Present(closed, x))
  {
    var st, n := State(closed, |closed|), |closed| - 1;
    assert closed[..|closed|] == closed;
    StrictlySortedDistinct(closed);
    LookupCompleteIff(st, k);
    RemoveValid(st, k);
    var i := Lookup(st, k).value;
    var src' := Remove(st, k).st.src;
    forall x | x != k ensures Present(src', x) <==> Present(closed, x) {
      if Present(closed, x) {
        var j :| 0 <= j < |closed| && closed[j].key == x;
        assert src'[if j == n then i else j].key == x;
      }
      if Present(src', x) {
        var j :| 0 <= j < |src'| && src'[j].key == x;
        assert closed[if j == i then n else j].key == x;
      }
    }
  }

  /** Removing several keys in ascending order in one session panics if and only if two of them
      are there. */
  lemma {:induction false} RemoveAllPanicsIff<V>(closed: seq<Entry<V>>, ks: seq<Bytes>)
    requires StrictlySorted(closed) && Ascending(ks)
    ensures RemoveAll(State(closed, |closed|), ks).None? <==> TwoPresent(closed, ks)
    decreases |ks|
  {
    if ks != [] {
      var st, k, rest := State(closed, |closed|), ks[0], ks[1..];
      assert closed[..|closed|] == closed;
      StrictlySortedDistinct(closed);
      LookupCompleteIff(st, k);
      TwoPresentSplit(closed, ks);
      if Present(closed, k) {
        FirstRemoval(closed, k);
        var st' := Remove(st, k).st;
        BeyondHead(st', ks);
        RemoveAllBeyond(st', rest);
        SameOthers(closed, st'.src, ks);
      } else {
        RemoveAllPanicsIff(closed, rest);
      }
    }
  }

  lemma {:induction false} BeyondHead<V>(st: State<V>, ks: seq<Bytes>)
    requires st.sorted <= |st.src| && ks != [] && Ascending(ks)
    requires forall i | 0 <= i < st.sorted :: Lt(st.src[i].key, ks[0])
    ensures forall i, j | 0 <= i < st.sorted && 0 <= j < |ks| - 1 :: Lt(st.src[i].key, ks[1..][j])
  {
    forall i, j | 0 <= i < st.sorted && 0 <= j < |ks| - 1 ensures Lt(st.src[i].key, ks[1..][j]) {
      assert ks[1..][j] == ks[j + 1];
      LtTransitive(st.src[i].key, ks[0], ks[j + 1]);
    }
  }

  lemma {:induction false} SameOthers<V>(s: seq<Entry<V>>, s': seq<Entry<V>>, ks: seq<Bytes>)
    requires ks != [] && Ascending(ks)
    requires forall x | x != ks[0] :: Present(s', x) <==> Present(s, x)
    ensures AnyPresent(s', ks[1..]) <==> AnyPresent(s, ks[1..])
  {
    forall j | 0 <= j < |ks| - 1 ensures Present(s', ks[1..][j]) <==> Present(s, ks[1..][j]) {
      assert ks[1..][j] == ks[j + 1];
      LtIrreflexive(ks[0]);
    }
  }

  lemma {:induction false} TwoPresentSplit<V>(s: seq<Entry<V>>, ks: seq<Bytes>)
    requires ks != []
    ensures TwoPresent(s, ks) <==> (Present(s, ks[0]) && AnyPresent(s, ks[1..])) || TwoPresent(s, ks[1..])
    ensures TwoPresent(s, ks[1..]) ==> AnyPresent(s, ks[1..])
  {
    var rest := ks[1..];
    if TwoPresent(s, ks) {
      var i, j :| 0 <= i < j < |ks| && Present(s, ks[i]) && Present(s, ks[j]);
      assert rest[j - 1] == ks[j];
      if i > 0 { assert rest[i - 1] == ks[i]; }
    }
    if Present(s, ks[0]) && AnyPresent(s, rest) {
      var j :| 0 <= j < |rest| && Present(s, rest[j]);
      assert ks[j + 1] == rest[j];
    }
    if TwoPresent(s, rest) {
      var i, j :| 0 <= i < j < |rest| && Present(s, rest[i]) && Present(s, rest[j]);
      assert ks[i + 1] == rest[i] && ks[j + 1] == rest[j];
    }
  }

  ghost function Keys(ks: seq<Bytes>): set<Bytes> {
    set k | k in ks
  }

  /** Unless it panics, removing ascending keys in one session is map removal. */
  lemma {:induction false} RemoveAllExact<V>(closed: seq<Entry<V>>, ks: seq<Bytes>, r: seq<Entry<V>>)
    requires StrictlySorted(closed) && Ascending(ks)
    requires RemoveAll(State(closed, |closed|), ks).Some?
    requires Dropped(RemoveAll(State(closed, |closed|), ks).value, r)
    ensures StrictlySorted(r) && ToMap(r) == ToMap(closed) - Keys(ks)
    decreases |ks|
  {
    if ks == [] {
      assert ToMap(closed) - Keys(ks) == ToMap(closed);
    } else {
      KeysCons(ToMap(closed), ks);
      if Present(closed, ks[0]) {
        RemoveAllFound(closed, ks);
        RemoveSession(closed, ks[0], r);
        NoneOf(closed, ks[1..]);
      } else {
        RemoveAllSkips(closed, ks);
        RemoveAllExact(closed, ks[1..], r);
        NotThere(closed, ks[0]);
      }
    }
  }

  lemma {:induction false} KeysCons<V>(m: map<Bytes, V>, ks: seq<Bytes>)
    requires ks != []
    ensures m - Keys(ks) == m - {ks[0]} - Keys(ks[1..])
    ensures m - Keys(ks) == m - Keys(ks[1..]) - {ks[0]}
  {
    assert ks == [ks[0]] + ks[1..];
    assert Keys(ks) == {ks[0]} + Keys(ks[1..]);
  }

  lemma {:induction false} NotThere<V>(s: seq<Entry<V>>, k: Bytes)
    requires !Present(s, k)
    ensures k !in ToMap(s)
  {
    ToMapKeys(s);
  }

  lemma {:induction false} RemoveAllSkips<V>(closed: seq<Entry<V>>, ks: seq<Bytes>)
    requires StrictlySorted(closed) && ks != [] && !Present(closed, ks[0])
    ensures var st := State(closed, |closed|);
            RemoveAll(st, ks) == RemoveAll(st, ks[1..])
  {
    assert closed[..|closed|] == closed;
    StrictlySortedDistinct(closed);
    LookupCompleteIff(State(closed, |closed|), ks[0]);
  }

  lemma {:induction false} RemoveAllFound<V>(closed: seq<Entry<V>>, ks: seq<Bytes>)
    requires StrictlySorted(closed) && Ascending(ks) && ks != [] && Present(closed, ks[0])
    requires RemoveAll(State(closed, |closed|), ks).Some?
    ensures var out := Remove(State(closed, |closed|), ks[0]);
            out.Removed? && RemoveAll(State(closed, |closed|), ks) == Some(out.st)
    ensures !AnyPresent(closed, ks[1..])
  {
    FirstRemoval(closed, ks[0]);
    var st' := Remove(State(closed, |closed|), ks[0]).st;
    BeyondHead(st', ks);
    RemoveAllBeyond(st', ks[1..]);
    SameOthers(closed, st'.src, ks);
  }

  lemma {:induction false} NoneOf<V>(s: seq<Entry<V>>, ks: seq<Bytes>)
    requires !AnyPresent(s, ks)
    ensures Keys(ks) !! ToMap(s).Keys
  {
    ToMapKeys(s);
    forall k | k in ks ensures k !in ToMap(s) {
      var j :| 0 <= j < |ks| && ks[j] == k;
      assert !Present(s, ks[j]);
    }
  }

  // ---------------------------------------------------------------------------
  // What operations report, and when nothing is left to sort

  /** `try_insert` hands the entry back exactly if its key is known. */
  lemma {:induction false} TryInsertReturns<V>(st: State<V>, e: Entry<V>)
    requires st.Valid() && DistinctKeys(st.src) && !Hidden(st, e.key)
    ensures TryInsert(st, e).1 == if e.key in ToMap(st.src) then Some(e) else None
  {
    LookupCompleteIff(st, e.key);
    ToMapKeys(st.src);
    assert Present(st.src, e.key) <==> e.key in ToMap(st.src);
  }

  /** From a closed map, a removal hands out the entry of its key. */
  lemma {:induction false} RemoveReturns<V>(closed: seq<Entry<V>>, k: Bytes)
    requires StrictlySorted(closed) && k in ToMap(closed)
    ensures var out := Remove(State(closed, |closed|), k);
            out.Removed? && out.entry == Entry(k, ToMap(closed)[k])
  {
    var st := State(closed, |closed|);
    assert closed[..|closed|] == closed;
    StrictlySortedDistinct(closed);
    ToMapKeys(closed);
    ToMapDistinct(closed);
    LookupCompleteIff(st, k);
    assert Present(closed, k);
  }

  /** Keys beyond the last one, given in ascending order, join the sorted prefix: nothing is left to
      sort, and a leaked guard loses nothing. */
  lemma {:induction false} AscendingStaysSorted<V>(st: State<V>, es: seq<Entry<V>>)
    requires st.Valid() && st.sorted == |st.src|
    requires StrictlySorted(es) && (st.src != [] && es != [] ==> Lt(st.src[|st.src| - 1].key, es[0].key))
    ensures Session(st, es) == State(st.src + es, |st.src| + |es|)
    decreases |es|
  {
    if es == [] {
      assert st.src + es == st.src;
    } else {
      var e, rest := es[0], es[1..];
      BeyondLast(st, e);
      InsertValid(st, e);
      assert rest != [] ==> rest[0] == es[1];
      AscendingStaysSorted(Insert(st, e).0, rest);
      Assoc(st.src, [e], rest);
      assert es == [e] + rest;
    }
  }

  lemma {:induction false} BeyondLast<V>(st: State<V>, e: Entry<V>)
    requires st.Valid() && st.sorted == |st.src|
    requires st.src != [] ==> Lt(st.src[|st.src| - 1].key, e.key)
    ensures Insert(st, e).0 == State(st.src + [e], |st.src| + 1)
  {
    if st.src != [] { PrefixBelow(st, |st.src| - 1, e.key); }
    LowerBoundAt(st.src, st.sorted, e.key, st.sorted);
  }

  /** After a removal the visible prefix is what it was below the removed key. */
  lemma {:induction false} RemoveKeepsBelow<V>(st: State<V>, k: Bytes)
    requires st.Valid() && Remove(st, k).Removed?
    ensures var st' := Remove(st, k).st;
            && st'.sorted < st.sorted && st.src[st'.sorted].key == k
            && st'.src[..st'.sorted] == st.src[..st'.sorted]
            && forall j | 0 <= j < st.sorted :: Lt(st.src[j].key, k) <==> j < st'.sorted
  {
    var i := Remove(st, k).st.sorted;
    PrefixAround(st, i);
    forall j | 0 <= j < st.sorted ensures Lt(st.src[j].key, k) <==> j < i {
      if j > i && Lt(st.src[j].key, k) { LtTransitive(k, st.src[j].key, k); }
    }
  }
}
