/** Sequential nickname suffixes (src/client/nick/suffix.rs). */
module NickSuffix {
  import opened Strings
  import opened MixedRadix
  import Division

  /** A character comes as its UTF-8 bytes. */
  datatype SuffixType =
    | Letter(upper: bool)
    | Base8
    | Base10
    | Base16(upper: bool)
    | NonZeroBase8
    | NonZeroBase10
    | NonZeroBase16(upper: bool)
    | Choice(options: seq<Bytes>)
    | Char(utf8: Bytes)

  predicate NickBytes(s: Bytes) {
    forall i | 0 <= i < |s| :: !IsInvalid(Nick, s[i])
  }

  function Ascii(upper: bool): byte {
    if upper then 65 else 97
  }

  /** What `append` adds to a nick for the number `num`. A character that no nick may hold is
      silently left out. */
  function Text(t: SuffixType, num: nat): Bytes {
    match t
    case Letter(upper) => [Ascii(upper) + (num % 26) as byte]
    case Base8 => [48 + (num % 8) as byte]
    case Base10 => [48 + (num % 10) as byte]
    case Base16(upper) =>
      var d := (num % 16) as byte;
      [if d > 9 then Ascii(upper) + d else 48 + d]
    case NonZeroBase8 => [49 + (num % 7) as byte]
    case NonZeroBase10 => [49 + (num % 9) as byte]
    case NonZeroBase16(upper) =>
      var d := (num % 15) as byte;
      [if d > 8 then Ascii(upper) + d else 49 + d]
    case Choice(options) => if options == [] then [] else options[num % |options|]
    case Char(utf8) => if NickBytes(utf8) then utf8 else []
  }

  function Variance(t: SuffixType): (v: nat)
    ensures v <= 255
  {
    match t
    case Letter(_) => 26
    case Base8 => 8
    case Base10 => 10
    case Base16(_) => 16
    case NonZeroBase8 => 7
    case NonZeroBase10 => 9
    case NonZeroBase16(_) => 15
    case Choice(options) => if |options| < 255 then |options| else 255
    case Char(_) => 1
  }

  /** What a suffix type may append, in the order of the numbers. */
  function WheelOf(t: SuffixType): Wheel {
    seq(Variance(t), (num: nat) => Text(t, num))
  }

  function Wheels(ts: seq<SuffixType>): seq<Wheel> {
    seq(|ts|, i requires 0 <= i < |ts| => WheelOf(ts[i]))
  }

  /** The suffix for the `count`-th nick, counting from one. */
  function Suffix(ts: seq<SuffixType>, count: nat): Bytes {
    Spell(Wheels(ts), count)
  }

  /** How many different suffixes the entries make. */
  function Settings(ts: seq<SuffixType>): nat {
    Capacity(Wheels(ts))
  }

  function Variances(ts: seq<SuffixType>): nat {
    if ts == [] then 0 else Variances(ts[..|ts| - 1]) + Variance(ts[|ts| - 1])
  }

  /** How many nicks a generator is made to yield. */
  function Limit(ts: seq<SuffixType>): nat {
    if ts == [] then 1 else if Variances(ts) < 255 then Variances(ts) else 255
  }

  /** The next `n` nicks after the first `state`. */
  function Nicks(prefix: Bytes, ts: seq<SuffixType>, state: nat, n: nat): seq<Bytes> {
    seq(n, (i: nat) => prefix + Suffix(ts, state + 1 + i))
  }

  /** The nicks a generator for the suffix types comes to yield. A limit of zero wraps around. */
  function FreshNicks(prefix: Bytes, ts: seq<SuffixType>): seq<Bytes> {
    Nicks(prefix, ts, 0, if Limit(ts) == 0 then 256 else Limit(ts))
  }

  class SuffixGen {
    const suffixes: seq<SuffixType>
    const prefix: Bytes
    var state: nat
    var limit: nat

    /** The nicks still to come. A limit of zero wraps around at the next nick. */
    ghost function Coming(): seq<Bytes>
      reads this
    {
      Nicks(prefix, suffixes, state, if limit == 0 then 256 else limit)
    }

    /** `Suffix::transform` with the sequential strategy. */
    constructor (prefix: Bytes, suffixes: seq<SuffixType>)
      ensures this.prefix == prefix && this.suffixes == suffixes
      ensures state == 0 && limit == Limit(suffixes)
    {
      this.prefix, this.suffixes, state := prefix, suffixes, 0;
      var count := 0;
      var i := 0;
      while i < |suffixes|
        invariant 0 <= i <= |suffixes|
        invariant count == if Variances(suffixes[..i]) < 255 then Variances(suffixes[..i]) else 255
      {
        assert suffixes[..i + 1][..i] == suffixes[..i];
        count := count + Variance(suffixes[i]);
        if count > 255 { count := 255; }
        i := i + 1;
      }
      assert suffixes[..i] == suffixes;
      limit := if suffixes == [] then 1 else count;
    }

    /** One round of the loop: an empty entry is skipped, any other appends its text and leaves
        the rest of the count to those after it. */
    method Turn(i: nat, nick: Bytes, count: nat) returns (longer: Bytes, left: nat)
      requires i < |suffixes| && count > 0
      ensures longer + Spell(Wheels(suffixes)[i + 1..], left) == nick + Spell(Wheels(suffixes)[i..], count)
    {
      SpellRound(suffixes, i, count, nick);
      longer, left := nick, count;
      var variance := Variance(suffixes[i]);
      if variance != 0 {
        longer := nick + Text(suffixes[i], Low(count - 1, variance));
        left := High(count - 1, variance);
      }
    }

    method CalcNext() returns (nick: Bytes, next: nat)
      ensures nick == prefix + Suffix(suffixes, state + 1) && next == state + 1
    {
      next := state + 1;
      nick := prefix;
      var count := next;
      var i := 0;
      ghost var ws := Wheels(suffixes);
      assert ws[0..] == ws;
      while i < |suffixes| && count > 0
        invariant 0 <= i <= |suffixes|
        invariant nick + Spell(ws[i..], count) == prefix + Spell(ws, state + 1)
      {
        nick, count := Turn(i, nick, count);
        i := i + 1;
      }
      assert Spell(ws[i..], count) == [] && nick + [] == nick;
    }

    method Peek() returns (nick: Bytes)
      ensures Coming()[0] == nick
    {
      var next;
      nick, next := CalcNext();
    }

    /** The next nick, and whether the generator is to be kept. */
    method NextNick() returns (nick: Bytes, more: bool)
      requires limit <= 255
      modifies this
      ensures old(Coming()) == [nick] + if more then Coming() else []
      ensures limit <= 255
    {
      FirstNick(prefix, suffixes, state, if limit == 0 then 256 else limit);
      nick, state := CalcNext();
      limit := if limit == 0 then 255 else limit - 1;
      more := limit != 0;
    }
  }

  /** A caller that keeps asking until the generator is used up. */
  method Drain(gen: SuffixGen) returns (nicks: seq<Bytes>)
    requires gen.limit <= 255
    modifies gen
    ensures nicks == old(gen.Coming())
  {
    nicks := [];
    var more := true;
    assert nicks + gen.Coming() == gen.Coming();
    while more
      invariant gen.limit <= 255
      invariant old(gen.Coming()) == nicks + if more then gen.Coming() else []
      decreases if more then |gen.Coming()| else 0
    {
      ghost var rest := gen.Coming();
      var nick;
      nick, more := gen.NextNick();
      assert rest == [nick] + if more then gen.Coming() else [];
      Assoc(nicks, [nick], if more then gen.Coming() else []);
      nicks := nicks + [nick];
    }
  }

  /** All nicks of a fresh generator: exactly as many as the variances add up to, 255 at most, if
      and only if they do not add up to zero. If they do, the limit wraps around and the bare
      prefix comes 256 times. */
  method YieldAll(prefix: Bytes, suffixes: seq<SuffixType>) returns (nicks: seq<Bytes>)
    ensures nicks == FreshNicks(prefix, suffixes)
    ensures |nicks| == Limit(suffixes) <==> suffixes == [] || Variances(suffixes) > 0
    ensures forall i | 0 <= i < |nicks| :: nicks[i] == prefix + Suffix(suffixes, i + 1)
    ensures suffixes != [] && Variances(suffixes) == 0 ==>
              |nicks| == 256 && forall i | 0 <= i < |nicks| :: nicks[i] == prefix
  {
    var gen := new SuffixGen(prefix, suffixes);
    nicks := Drain(gen);
    if Variances(suffixes) == 0 {
      forall i | 0 <= i < |nicks| ensures nicks[i] == prefix {
        SumOfWheels(suffixes);
        NothingToSpell(Wheels(suffixes), i + 1);
        assert prefix + [] == prefix;
      }
    }
  }

  /** An empty choice alone makes the limit wrap around: the bare prefix comes 256 times. */
  method EmptyChoiceWrapsAround(prefix: Bytes) returns (nicks: seq<Bytes>)
    ensures Limit([Choice([])]) == 0
    ensures |nicks| == 256 && forall i | 0 <= i < 256 :: nicks[i] == prefix
  {
    assert [Choice([])][..0] == [];
    nicks := YieldAll(prefix, [Choice([])]);
  }

  /** One round of the loop: an empty entry is skipped, any other appends its text. */
  lemma {:induction false} SpellRound(ts: seq<SuffixType>, i: nat, count: nat, nick: Bytes)
    requires i < |ts| && count > 0
    ensures var v, before, after := Variance(ts[i]), Wheels(ts)[i..], Wheels(ts)[i + 1..];
            nick + Spell(before, count) ==
              if v == 0 then nick + Spell(after, count)
              else nick + Text(ts[i], Low(count - 1, v)) + Spell(after, High(count - 1, v))
  {
    var v, ws := Variance(ts[i]), Wheels(ts);
    assert ws[i..][0] == WheelOf(ts[i]) && ws[i..][1..] == ws[i + 1..];
    if v > 0 {
      var low := Low(count - 1, v);
      assert WheelOf(ts[i])[low] == Text(ts[i], low);
      Assoc(nick, Text(ts[i], low), Spell(ws[i + 1..], High(count - 1, v)));
    }
  }

  lemma {:induction false} FirstNick(prefix: Bytes, ts: seq<SuffixType>, state: nat, n: nat)
    requires n > 0
    ensures Nicks(prefix, ts, state, n) == [prefix + Suffix(ts, state + 1)] + Nicks(prefix, ts, state + 1, n - 1)
  {
  }

  lemma {:induction false} SumOfWheels(ts: seq<SuffixType>)
    ensures Sum(Wheels(ts)) == Variances(ts)
    decreases |ts|
  {
    if ts != [] {
      var init, last := ts[..|ts| - 1], ts[|ts| - 1];
      SumOfWheels(init);
      assert Wheels(ts) == Wheels(init) + [WheelOf(last)];
      SumSnoc(Wheels(init), WheelOf(last));
    }
  }

  // ---------------------------------------------------------------------------
  // The wheels of the suffix types

  /** Every suffix type but a choice tells its numbers apart, given a character that a nick may
      hold. */
  lemma {:induction false} DigitsAreUniform(t: SuffixType)
    requires !t.Choice? && (t.Char? ==> t.utf8 != [] && NickBytes(t.utf8))
    ensures Uniform(WheelOf(t))
  {
    var w := WheelOf(t);
    forall a, b | 0 <= a < |w| && 0 <= b < |w| ensures Alike(w, a, b) {
      if t.Char? {
        assert a == b == 0;
      } else {
        SingleDigit(t, a);
        SingleDigit(t, b);
      }
    }
  }

  /** The byte for a digit. */
  function DigitByte(t: SuffixType, d: nat): int
    requires !t.Choice? && !t.Char?
  {
    match t
    case Letter(upper) => (if upper then 65 else 97) + d
    case Base8 => 48 + d
    case Base10 => 48 + d
    case Base16(upper) => if d > 9 then (if upper then 65 else 97) + d else 48 + d
    case NonZeroBase8 => 49 + d
    case NonZeroBase10 => 49 + d
    case NonZeroBase16(upper) => if d > 8 then (if upper then 65 else 97) + d else 49 + d
  }

  lemma {:induction false} SingleDigit(t: SuffixType, d: nat)
    requires !t.Choice? && !t.Char? && d < Variance(t)
    ensures |Text(t, d)| == 1 && Text(t, d)[0] as int == DigitByte(t, d)
  {
    match t {
      case Letter(_) => assert d % 26 == d;
      case Base8 => assert d % 8 == d;
      case Base10 => assert d % 10 == d;
      case Base16(_) => assert d % 16 == d;
      case NonZeroBase8 => assert d % 7 == d;
      case NonZeroBase10 => assert d % 9 == d;
      case NonZeroBase16(_) => assert d % 15 == d;
    }
  }

  predicate IsHexDigit(b: byte) {
    IsDigit(b) || 65 <= b <= 70 || 97 <= b <= 102
  }

  /** Documented as one hexadecimal digit, the text is one only below ten; from ten on it is a
      letter from K to P, or from J to O for the nonzero digits. */
  lemma {:induction false} HexDigitIff(upper: bool, num: nat)
    ensures IsHexDigit(Text(Base16(upper), num)[0]) <==> num % 16 <= 9
    ensures IsHexDigit(Text(NonZeroBase16(upper), num)[0]) <==> num % 15 <= 8
  {
    SingleDigit(Base16(upper), num % 16);
    SingleDigit(NonZeroBase16(upper), num % 15);
  }

  /** A choice tells its numbers apart if its options are equally long and all different. */
  lemma {:induction false} ChoiceIsUniform(options: seq<Bytes>)
    requires forall i, j | 0 <= i < |options| && 0 <= j < |options| ::
               |options[i]| == |options[j]| > 0 && (options[i] == options[j] ==> i == j)
    ensures Uniform(WheelOf(Choice(options)))
  {
    ChoiceWheel(options);
    var w := WheelOf(Choice(options));
    forall a, b | 0 <= a < |w| && 0 <= b < |w| ensures Alike(w, a, b) {
      assert w[a] == options[a] && w[b] == options[b];
    }
  }

  /** A choice never offers more than its first 255 options. */
  lemma {:induction false} ChoiceWheel(options: seq<Bytes>)
    ensures WheelOf(Choice(options)) == options[..if |options| < 255 then |options| else 255]
  {
    var w := WheelOf(Choice(options));
    forall a | 0 <= a < |w| ensures w[a] == options[a] {
      SmallModulo(a, |options|);
    }
  }

  lemma {:induction false} SmallModulo(a: nat, n: nat)
    requires a < n
    ensures a % n == a
  {
    Division.EuclideanDivision(a, n);
    Division.UniqueDivision(n, 0, a, a / n, a % n);
  }

  /** A character that no nick may hold: it counts, but adds nothing. */
  predicate Illegal(t: SuffixType) {
    t.Char? && !NickBytes(t.utf8)
  }

  // ---------------------------------------------------------------------------
  // When no nick comes twice

  ghost predicate NoneTwice(nicks: seq<Bytes>) {
    forall i, j | 0 <= i < j < |nicks| :: nicks[i] != nicks[j]
  }

  lemma {:induction false} NicksRepeatAsSuffixes(prefix: Bytes, ts: seq<SuffixType>, limit: nat)
    ensures NoneTwice(Nicks(prefix, ts, 0, limit)) <==> MixedRadix.NoneTwice(Wheels(ts), limit)
  {
    var nicks, ws := Nicks(prefix, ts, 0, limit), Wheels(ts);
    forall i, j | 0 <= i < j < limit
      ensures nicks[i] == nicks[j] <==> Spell(ws, i + 1) == Spell(ws, j + 1)
    {
      if nicks[i] == nicks[j] { SamePrefix(prefix, Spell(ws, i + 1), prefix, Spell(ws, j + 1)); }
    }
    if NoneTwice(nicks) {
      forall m, n | 1 <= m < n <= limit ensures Spell(ws, m) != Spell(ws, n) {
        assert nicks[m - 1] != nicks[n - 1];
      }
    }
  }

  /** An illegal character stands where the limit reaches it, and not in front of everything else
      that counts. */
  predicate IllegalReached(ts: seq<SuffixType>, p: nat)
    requires p < |ts|
  {
    Illegal(ts[p]) && 0 < Settings(ts[..p]) < Limit(ts)
  }

  /** Among as many nicks as the limit says none comes twice if and only if no illegal character
      stands behind something that counts and within reach of the limit. */
  lemma {:induction false} DistinctWithinLimit(prefix: Bytes, ts: seq<SuffixType>)
    requires forall p | 0 <= p < |ts| :: Uniform(WheelOf(ts[p])) || Illegal(ts[p])
    ensures NoneTwice(Nicks(prefix, ts, 0, Limit(ts))) <==>
            forall p | 0 <= p < |ts| :: !IllegalReached(ts, p)
  {
    if ts != [] {
      var ws := Wheels(ts);
      forall p | 0 <= p < |ts| ensures Reached(ws, Limit(ts), p) <==> IllegalReached(ts, p) {
        IllegalIsBlank(ts[p]);
        assert ws[..p] == Wheels(ts[..p]);
      }
      forall p | 0 <= p < |ws| ensures Uniform(ws[p]) || ws[p] == BLANK { IllegalIsBlank(ts[p]); }
      SumOfWheels(ts);
      SumWithinCapacity(ws);
      NoneTwiceIff(ws, Limit(ts));
      NicksRepeatAsSuffixes(prefix, ts, Limit(ts));
    }
  }

  /** With a limit of zero the generator repeats the bare prefix. */
  lemma {:induction false} ZeroLimitRepeats(prefix: Bytes, ts: seq<SuffixType>)
    requires Limit(ts) == 0
    ensures !NoneTwice(FreshNicks(prefix, ts))
  {
    var nicks := FreshNicks(prefix, ts);
    SumOfWheels(ts);
    NothingToSpell(Wheels(ts), 1);
    NothingToSpell(Wheels(ts), 2);
    assert nicks[0] == nicks[1];
  }

  /** The generator yields no nick twice if and only if its limit is not zero and no illegal
      character stands behind something that counts and within reach of the limit. This covers
      every list whose choices, if any, offer equally long, different options or none at all. */
  lemma {:induction false} DistinctIff(prefix: Bytes, ts: seq<SuffixType>)
    requires forall p | 0 <= p < |ts| :: Uniform(WheelOf(ts[p])) || Illegal(ts[p])
    ensures NoneTwice(FreshNicks(prefix, ts)) <==>
            Limit(ts) > 0 && forall p | 0 <= p < |ts| :: !IllegalReached(ts, p)
  {
    if Limit(ts) == 0 { ZeroLimitRepeats(prefix, ts); } else { DistinctWithinLimit(prefix, ts); }
  }

  lemma {:induction false} IllegalIsBlank(t: SuffixType)
    requires Uniform(WheelOf(t)) || Illegal(t)
    ensures Illegal(t) <==> WheelOf(t) == BLANK
  {
    if !Illegal(t) && WheelOf(t) != [] { assert Alike(WheelOf(t), 0, 0); }
  }

  /** The same for lists without a choice, in terms of positions: the first entry may be illegal,
      a later one only beyond the reach of the limit. */
  lemma {:induction false} DistinctIffWithoutChoice(prefix: Bytes, ts: seq<SuffixType>)
    requires forall p | 0 <= p < |ts| :: !ts[p].Choice? && (ts[p].Char? ==> ts[p].utf8 != [])
    ensures NoneTwice(FreshNicks(prefix, ts)) <==>
            forall p | 1 <= p < |ts| :: Illegal(ts[p]) ==> Settings(ts[..p]) >= Limit(ts)
  {
    forall p | 0 <= p < |ts| ensures Uniform(WheelOf(ts[p])) || Illegal(ts[p]) {
      if !Illegal(ts[p]) { DigitsAreUniform(ts[p]); }
    }
    DistinctIff(prefix, ts);
    assert ts != [] ==> Variances(ts) >= Variance(ts[|ts| - 1]) > 0;
    forall p | 0 <= p < |ts|
      ensures IllegalReached(ts, p) <==> p > 0 && Illegal(ts[p]) && Settings(ts[..p]) < Limit(ts)
    {
      SettingsWithoutChoice(ts, p);
    }
  }

  lemma {:induction false} SettingsWithoutChoice(ts: seq<SuffixType>, p: nat)
    requires p <= |ts| && forall q | 0 <= q < |ts| :: !ts[q].Choice?
    ensures Settings(ts[..p]) > 0 <==> p > 0
  {
    if p > 0 {
      var ws := Wheels(ts[..p]);
      assert !ts[0].Choice? && |ws[0]| == Variance(ts[0]) > 0;
      SpanCovers(|ws[0]|, Capacity(ws[1..]));
    }
  }

  lemma {:induction false} UniformIsLegal(t: SuffixType)
    requires Uniform(WheelOf(t))
    ensures !Illegal(t)
  {
    if t.Char? { assert Alike(WheelOf(t), 0, 0); }
  }

  /** A generator that holds nothing but uniform suffix types, and not only empty choices, never
      repeats a nick. */
  lemma {:induction false} AllDistinct(prefix: Bytes, ts: seq<SuffixType>)
    requires Limit(ts) > 0 && forall p | 0 <= p < |ts| :: Uniform(WheelOf(ts[p]))
    ensures NoneTwice(FreshNicks(prefix, ts))
  {
    forall p | 0 <= p < |ts| ensures !Illegal(ts[p]) { UniformIsLegal(ts[p]); }
    DistinctIff(prefix, ts);
  }

  /** A digit followed by a space: the eleventh nick is the first again. A space followed by a
      digit does no harm. */
  lemma {:induction false} IllegalCharRepeats(prefix: Bytes)
    ensures !NoneTwice(FreshNicks(prefix, [Base10, Char([SP])]))
    ensures NoneTwice(FreshNicks(prefix, [Char([SP]), Base8]))
  {
    var c := Char([SP]);
    var ts := [Base10, c];
    assert IsInvalid(Nick, [SP][0]) && Illegal(c);
    assert ts[..1] == [Base10] && [Base10][..0] == [];
    var ws := Wheels([Base10]);
    assert |ws[0]| == 10 && ws[1..] == [] && Capacity(ws) == Span(10, 0) == 10;
    assert Variances([Base10]) == 10 && Limit(ts) == 11;
    DistinctIffWithoutChoice(prefix, ts);
    assert Illegal(ts[1]) && Settings(ts[..1]) < Limit(ts);
    DistinctIffWithoutChoice(prefix, [c, Base8]);
  }

  predicate Choosable(t: SuffixType) {
    t.Choice? ==> forall i | 0 <= i < |t.options| :: NickBytes(t.options[i])
  }

  lemma {:induction false} TextIsNickBytes(t: SuffixType, num: nat)
    requires Choosable(t)
    ensures NickBytes(Text(t, num))
  {
  }

  lemma {:induction false} SuffixIsNickBytes(ts: seq<SuffixType>, count: nat)
    requires forall i | 0 <= i < |ts| :: Choosable(ts[i])
    ensures NickBytes(Suffix(ts, count))
    decreases |ts|
  {
    if ts != [] && count > 0 {
      var v, rest := Variance(ts[0]), ts[1..];
      assert Wheels(ts)[1..] == Wheels(rest);
      if v == 0 {
        SuffixIsNickBytes(rest, count);
      } else {
        TextIsNickBytes(ts[0], Low(count - 1, v));
        SuffixIsNickBytes(rest, High(count - 1, v));
      }
    }
  }

  /** Whatever is appended, the result is a nick. */
  lemma {:induction false} AlwaysANick(prefix: Bytes, ts: seq<SuffixType>, count: nat)
    requires Is(Nick, prefix) && forall i | 0 <= i < |ts| :: Choosable(ts[i])
    ensures Is(Nick, prefix + Suffix(ts, count))
  {
    SuffixIsNickBytes(ts, count);
    var r := prefix + Suffix(ts, count);
    assert r[0] == prefix[0];
    assert forall i | 0 <= i < |r| :: !IsInvalid(Nick, r[i]);
  }

  // ---------------------------------------------------------------------------
  // In what order nicks come

  /** First come the values of the first suffix, in order. */
  lemma {:induction false} FirstSuffixFirst(ts: seq<SuffixType>, n: nat)
    requires ts != [] && 1 <= n <= Variance(ts[0])
    ensures Suffix(ts, n) == Text(ts[0], n - 1)
  {
    FirstWheelFirst(Wheels(ts), n);
    assert Wheels(ts)[0][n - 1] == Text(ts[0], n - 1);
  }

  /** Then those of the first two, and so on: as many nicks as the first suffixes make do without the
      others. */
  lemma {:induction false} FrontSuffixesFirst(ts: seq<SuffixType>, p: nat, n: nat)
    requires p <= |ts| && n <= Settings(ts[..p]) && n <= 255
    ensures Suffix(ts, n) == Suffix(ts[..p], n)
  {
    assert Wheels(ts)[..p] == Wheels(ts[..p]);
    FrontSuffices(Wheels(ts), p, n);
  }

  function Repeat(s: Bytes, n: nat): Bytes {
    if n == 0 then [] else s + Repeat(s, n - 1)
  }

  /** Suffixing a nick with more and more underscores is a list of underscores. */
  lemma {:induction false} Underscores(ts: seq<SuffixType>, c: Bytes, n: nat)
    requires NickBytes(c) && (forall i | 0 <= i < |ts| :: ts[i] == Char(c)) && n <= |ts|
    ensures Suffix(ts, n) == Repeat(c, n)
    decreases |ts|
  {
    if n > 0 {
      var ws := Wheels(ts);
      assert ws[0] == [c] && ws[1..] == Wheels(ts[1..]);
      Division.DivMod(n - 1, 1);
      Underscores(ts[1..], c, n - 1);
    }
  }

  /** The variance counts all there is: whatever the number, the text is one of the wheel. */
  lemma {:induction false} VarianceIsAll(t: SuffixType, num: nat)
    requires !t.Choice?
    ensures Text(t, num) in WheelOf(t)
  {
    var w, d := WheelOf(t), num % Variance(t);
    TextRepeats(t, num);
    assert w[d] == Text(t, d);
  }

  lemma {:induction false} TextRepeats(t: SuffixType, num: nat)
    requires !t.Choice?
    ensures Text(t, num % Variance(t)) == Text(t, num)
  {
    SmallModulo(num % Variance(t), Variance(t));
  }

  /** A single suffix yields each of its texts once, in order. */
  lemma {:induction false} SingleSuffixYieldsWheel(prefix: Bytes, t: SuffixType)
    requires Variance(t) > 0
    ensures FreshNicks(prefix, [t]) == seq(Variance(t), (i: nat) => prefix + Text(t, i))
  {
    var nicks := FreshNicks(prefix, [t]);
    assert [t][..0] == [] && Variances([]) == 0;
    assert Variances([t]) == Variances([t][..0]) + Variance(t);
    forall i | 0 <= i < Variance(t) ensures nicks[i] == prefix + Text(t, i) {
      FirstSuffixFirst([t], i + 1);
    }
  }
}
