/** Byte strings and the byte classes of vinezombie's string types.

    Every string type of the original is a byte string with a byte-level exclusion
    (`IsInvalid`) and, for some types, a check of the first byte (`CheckOthers`). */
module Strings {

  newtype byte = b: int | 0 <= b < 256

  type Bytes = seq<byte>

  const NUL: byte := 0
  const TAB: byte := 9
  const LF: byte := 10
  const FF: byte := 12
  const CR: byte := 13
  const SP: byte := 32
  const BANG: byte := 33
  const PERCENT: byte := 37
  const STAR: byte := 42
  const PLUS: byte := 43
  const COLON: byte := 58
  const SEMI: byte := 59
  const EQ: byte := 61
  const AT: byte := 64
  const BACKSLASH: byte := 92

  datatype Option<+T> = None | Some(value: T)

  /** Why a byte string is not a value of some string type. */
  datatype InvalidString = Empty | Colon | Byte(bad: byte)

  /** The string types, most general first. */
  datatype StrType = AnyBytes | NoNul | Line | Word | Arg | Key | Nick | User | Cmd

  predicate IsUpper(b: byte) { 65 <= b <= 90 }

  predicate IsLower(b: byte) { 97 <= b <= 122 }

  predicate IsAlpha(b: byte) { IsUpper(b) || IsLower(b) }

  predicate IsDigit(b: byte) { 48 <= b <= 57 }

  /** `u8::is_ascii_whitespace`: more than just the space. */
  predicate IsWhitespace(b: byte) { b == SP || b == TAB || b == LF || b == FF || b == CR }

  function ToUpper(b: byte): byte { if IsLower(b) then b - 32 else b }

  predicate BreaksLine(b: byte) { b == CR || b == LF || b == NUL }

  predicate BreaksWord(b: byte) { b == SP || BreaksLine(b) }

  /** Bytes that a string of type `t` cannot contain. */
  predicate IsInvalid(t: StrType, b: byte) {
    match t
    case AnyBytes => false
    case NoNul => b == NUL
    case Line => BreaksLine(b)
    case Word => BreaksWord(b)
    case Arg => BreaksWord(b)
    case Key => BreaksWord(b) || b == EQ || b == SEMI
    case Nick => BreaksWord(b) || b == BANG || b == AT
    case User => BreaksWord(b) || b == AT || b == PERCENT
    case Cmd => !IsUpper(b)
  }

  /** The first-byte check shared by `Arg` and its subtypes. */
  function CheckOthers(t: StrType, s: Bytes): Option<InvalidString> {
    if t.AnyBytes? || t.NoNul? || t.Line? || t.Word? then None
    else if s == [] then Some(Empty)
    else if s[0] == COLON then Some(Colon)
    else None
  }

  /** Membership in a string type. */
  predicate Is(t: StrType, s: Bytes) {
    && CheckOthers(t, s).None?
    && forall i | 0 <= i < |s| :: !IsInvalid(t, s[i])
  }

  // ---------------------------------------------------------------------------
  // Searching

  /** What a scan stops at: a byte a string type excludes, one it allows, a given byte, or a
      byte that is not ASCII whitespace. */
  datatype Stop = Outside(t: StrType) | Inside(t: StrType) | At(b: byte) | NonSpace {
    predicate Holds(c: byte) {
      match this
      case Outside(t) => IsInvalid(t, c)
      case Inside(t) => !IsInvalid(t, c)
      case At(b) => c == b
      case NonSpace => !IsWhitespace(c)
    }
  }

  /** Index of the first byte that stops the scan, or the length if there is none. */
  function Find(s: Bytes, p: Stop): (n: nat)
    ensures n <= |s|
    ensures forall i | 0 <= i < n :: !p.Holds(s[i])
    ensures n < |s| ==> p.Holds(s[n])
  {
    if s == [] || p.Holds(s[0]) then 0 else 1 + Find(s[1..], p)
  }

  /** `b` is the first byte for which `bad` holds. */
  ghost predicate FirstSuch(s: Bytes, bad: byte -> bool, b: byte) {
    bad(b) && exists i :: 0 <= i < |s| && s[i] == b && forall j | 0 <= j < i :: !bad(s[j])
  }

  /** The scan over `a + b` ends where `a` does if nothing in `a` stops it and `b` starts with a stop. */
  lemma {:induction false} FindAppend(a: Bytes, b: Bytes, p: Stop)
    requires forall i | 0 <= i < |a| :: !p.Holds(a[i])
    requires b != [] ==> p.Holds(b[0])
    ensures Find(a + b, p) == |a|
  {
    assert forall i | 0 <= i < |a| :: (a + b)[i] == a[i];
    assert b != [] ==> (a + b)[|a|] == b[0];
  }

  lemma {:induction false} Assoc<T>(a: seq<T>, b: seq<T>, c: seq<T>)
    ensures a + (b + c) == a + b + c
  {
  }

  function SkipWhitespace(s: Bytes): (r: Bytes)
    ensures |r| <= |s| && (r != [] ==> !IsWhitespace(r[0]))
    ensures r == s[|s| - |r|..]
  {
    s[Find(s, NonSpace)..]
  }

  // ---------------------------------------------------------------------------
  // The lexicographic order that Rust derives for byte strings

  predicate Lt(a: Bytes, b: Bytes)
    decreases |a|
  {
    b != [] && (a == [] || a[0] < b[0] || (a[0] == b[0] && Lt(a[1..], b[1..])))
  }

  /** The strings agree up to `i`; there the first one ends, or has the smaller byte. */
  predicate Differ(a: Bytes, b: Bytes, i: nat) {
    i <= |a| && i < |b| && a[..i] == b[..i] && (i == |a| || a[i] < b[i])
  }

  lemma {:induction false} LtIff(a: Bytes, b: Bytes)
    ensures Lt(a, b) <==> exists i: nat :: Differ(a, b, i)
    decreases |a|
  {
    if b != [] && a != [] && a[0] == b[0] {
      LtIff(a[1..], b[1..]);
      if Lt(a, b) {
        var i: nat :| Differ(a[1..], b[1..], i);
        assert a[..i + 1] == [a[0]] + a[1..][..i] && b[..i + 1] == [b[0]] + b[1..][..i];
        assert Differ(a, b, i + 1);
      }
      if i: nat :| Differ(a, b, i) {
        assert a[1..][..i - 1] == a[..i][1..] && b[1..][..i - 1] == b[..i][1..];
        assert Differ(a[1..], b[1..], i - 1);
      }
    } else if Lt(a, b) {
      assert Differ(a, b, 0);
    } else {
      forall i: nat | i > 0 ensures !Differ(a, b, i) {
        if i <= |a| && i < |b| { assert a[..i][0] == a[0] && b[..i][0] == b[0]; }
      }
    }
  }

  lemma {:induction false} LtIrreflexive(a: Bytes)
    ensures !Lt(a, a)
    decreases |a|
  {
    if a != [] { LtIrreflexive(a[1..]); }
  }

  lemma {:induction false} LtTransitive(a: Bytes, b: Bytes, c: Bytes)
    requires Lt(a, b) && Lt(b, c)
    ensures Lt(a, c)
    decreases |a|
  {
    if a != [] && a[0] == b[0] == c[0] { LtTransitive(a[1..], b[1..], c[1..]); }
  }

  lemma {:induction false} LtTotal(a: Bytes, b: Bytes)
    ensures Lt(a, b) || a == b || Lt(b, a)
    decreases |a|
  {
    if a != [] && b != [] && a[0] == b[0] {
      LtTotal(a[1..], b[1..]);
      assert a == [a[0]] + a[1..] && b == [b[0]] + b[1..];
    }
  }

  /** `Lt` is a strict total order, in the quantified form proofs about sorting use. */
  lemma {:induction false} LtStrictTotalOrder()
    ensures forall a: Bytes :: !Lt(a, a)
    ensures forall a: Bytes, b: Bytes, c: Bytes {:trigger Lt(a, b), Lt(b, c)} ::
              Lt(a, b) && Lt(b, c) ==> Lt(a, c)
    ensures forall a: Bytes, b: Bytes {:trigger Lt(a, b)} :: Lt(a, b) || a == b || Lt(b, a)
  {
    forall a: Bytes ensures !Lt(a, a) { LtIrreflexive(a); }
    forall a: Bytes, b: Bytes, c: Bytes | Lt(a, b) && Lt(b, c) ensures Lt(a, c) {
      LtTransitive(a, b, c);
    }
    forall a: Bytes, b: Bytes ensures Lt(a, b) || a == b || Lt(b, a) { LtTotal(a, b); }
  }
}
