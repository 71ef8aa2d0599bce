/** Escaping of IRCv3 tag values (src/string/tf/escape.rs). */
module Escape {
  import opened Strings

  function UnescapeByte(b: byte): byte {
    if b == COLON then SEMI
    else if b == 115 then SP
    else if b == 114 then CR
    else if b == 110 then LF
    else b
  }

  function EscapeByte(b: byte): Option<byte> {
    if b == SEMI then Some(COLON)
    else if b == SP then Some(115)
    else if b == CR then Some(114)
    else if b == LF then Some(110)
    else if b == BACKSLASH then Some(BACKSLASH)
    else None
  }

  predicate Escapable(b: byte) { EscapeByte(b).Some? }

  function EscapedByte(b: byte): Bytes {
    match EscapeByte(b)
    case Some(code) => [BACKSLASH, code]
    case None => [b]
  }

  /** The escaped form, byte by byte. */
  function Escaped(v: Bytes): Bytes {
    if v == [] then [] else EscapedByte(v[0]) + Escaped(v[1..])
  }

  /** The scanning rule of `unescape`'s loop: `esc` says that the previous byte was a backslash
      still to be applied. */
  function Scan(esc: bool, s: Bytes): Bytes
    decreases |s|
  {
    if s == [] then []
    else if esc then [UnescapeByte(s[0])] + Scan(false, s[1..])
    else if s[0] == BACKSLASH then Scan(true, s[1..])
    else [s[0]] + Scan(false, s[1..])
  }

  /** What `unescape` computes: the first backslash is pushed as it is and the scan starts
      afresh right after it. */
  function Unescaped(s: Bytes): Bytes {
    var i := FirstBackslash(s);
    if i == |s| then s else s[..i] + [UnescapeByte(s[i])] + Scan(false, s[i + 1..])
  }

  function FirstBackslash(s: Bytes): nat
    ensures FirstBackslash(s) <= |s|
  {
    Find(s, At(BACKSLASH))
  }

  /** Index of the first byte that needs escaping, or the length. */
  function FirstEscapable(v: Bytes): (n: nat)
    ensures n <= |v| && (n < |v| ==> Escapable(v[n]))
    ensures forall i | 0 <= i < n :: !Escapable(v[i])
  {
    if v == [] || Escapable(v[0]) then 0 else 1 + FirstEscapable(v[1..])
  }

  // ---------------------------------------------------------------------------
  // The loops

  method EscapeValue(v: Bytes) returns (out: Bytes)
    ensures out == Escaped(v)
  {
    var first := FirstEscapable(v);
    EscapedPrefix(v);
    if first == |v| { return v; }
    EscapedStep(v, first);
    out := v[..first] + [BACKSLASH, EscapeByte(v[first]).value];
    var i := first + 1;
    while i < |v|
      invariant first < i <= |v|
      invariant Escaped(v) == out + Escaped(v[i..])
    {
      EscapedStep(v, i);
      Assoc(out, EscapedByte(v[i]), Escaped(v[i + 1..]));
      match EscapeByte(v[i]) {
        case Some(code) => out := out + [BACKSLASH, code];
        case None => out := out + [v[i]];
      }
      i := i + 1;
    }
  }

  method UnescapeValue(s: Bytes) returns (out: Bytes)
    ensures out == Unescaped(s)
  {
    var first := FirstBackslash(s);
    if first == |s| { return s; }
    out := ScanOn(s, first + 1, s[..first] + [UnescapeByte(s[first])]);
  }

  /** The loop behind the first backslash. */
  method ScanOn(s: Bytes, start: nat, before: Bytes) returns (out: Bytes)
    requires start <= |s|
    ensures out == before + Scan(false, s[start..])
  {
    out := before;
    var esc := false;
    var i := start;
    ghost var goal := out + Scan(esc, s[i..]);
    while i < |s|
      invariant start <= i <= |s|
      invariant goal == out + Scan(esc, s[i..])
    {
      ScanRound(esc, s, i, out);
      if esc {
        out := out + [UnescapeByte(s[i])];
        esc := false;
      } else if s[i] == BACKSLASH {
        esc := true;
      } else {
        out := out + [s[i]];
      }
      i := i + 1;
    }
  }

  /** One round of the loop. */
  lemma {:induction false} ScanRound(esc: bool, s: Bytes, i: nat, out: Bytes)
    requires i < |s|
    ensures out + Scan(esc, s[i..]) ==
            if esc then out + [UnescapeByte(s[i])] + Scan(false, s[i + 1..])
            else if s[i] == BACKSLASH then out + Scan(true, s[i + 1..])
            else out + [s[i]] + Scan(false, s[i + 1..])
  {
    assert s[i..][1..] == s[i + 1..];
    Assoc(out, [UnescapeByte(s[i])], Scan(false, s[i + 1..]));
    Assoc(out, [s[i]], Scan(false, s[i + 1..]));
  }

  // ---------------------------------------------------------------------------
  // Properties

  lemma {:induction false} EscapedAppend(a: Bytes, b: Bytes)
    ensures Escaped(a + b) == Escaped(a) + Escaped(b)
    decreases |a|
  {
    if a == [] {
      assert a + b == b;
    } else {
      assert (a + b)[1..] == a[1..] + b;
      EscapedAppend(a[1..], b);
    }
  }

  lemma {:induction false} EscapedClean(a: Bytes)
    requires forall i | 0 <= i < |a| :: !Escapable(a[i])
    ensures Escaped(a) == a
    decreases |a|
  {
    if a != [] { EscapedClean(a[1..]); }
  }

  lemma {:induction false} EscapedStep(v: Bytes, i: nat)
    requires i < |v|
    ensures Escaped(v[i..]) == EscapedByte(v[i]) + Escaped(v[i + 1..])
  {
    assert v[i..][1..] == v[i + 1..];
  }

  /** Up to the first byte to escape, escaping changes nothing. */
  lemma {:induction false} EscapedPrefix(v: Bytes)
    ensures Escaped(v) == v[..FirstEscapable(v)] + Escaped(v[FirstEscapable(v)..])
  {
    var i := FirstEscapable(v);
    assert v == v[..i] + v[i..];
    EscapedAppend(v[..i], v[i..]);
    EscapedClean(v[..i]);
  }

  /** An escaped value is a `Word` without the separator of tags, and only the empty value
      escapes to nothing. */
  lemma {:induction false} EscapedIsWord(v: Bytes)
    requires Is(NoNul, v)
    ensures Is(Word, Escaped(v))
    ensures SEMI !in Escaped(v)
    ensures Escaped(v) == [] <==> v == []
    decreases |v|
  {
    if v != [] {
      assert forall i | 0 <= i < |v[1..]| :: v[1..][i] == v[i + 1];
      EscapedIsWord(v[1..]);
    }
  }

  /** Applied from the very start of the string, the scanning rule inverts `escape`. */
  lemma {:induction false} ScanInvertsEscape(v: Bytes)
    ensures Scan(false, Escaped(v)) == v
    decreases |v|
  {
    if v != [] {
      ScanInvertsEscape(v[1..]);
      ScanOfByte(v[0], Escaped(v[1..]));
      assert v == [v[0]] + v[1..];
    }
  }

  /** What one byte is escaped to scans back to that byte. */
  lemma {:induction false} ScanOfByte(b: byte, tail: Bytes)
    ensures Scan(false, EscapedByte(b) + tail) == [b] + Scan(false, tail)
  {
    var s := EscapedByte(b) + tail;
    match EscapeByte(b) {
      case Some(code) =>
        CodeUndone(b);
        assert s[1..] == [code] + tail && s[1..][1..] == tail;
      case None =>
        assert s[1..] == tail;
    }
  }

  lemma {:induction false} CodeUndone(b: byte)
    requires Escapable(b)
    ensures UnescapeByte(EscapeByte(b).value) == b
  {
  }

  /** The byte after a backslash run keeps its own value: it is neither escapable nor an
      escape code. */
  predicate Inert(b: byte) { !Escapable(b) && UnescapeByte(b) == b }

  /** `v` is a possibly empty run of backslashes, ended by nothing or by an inert byte. */
  predicate InertAfterRun(v: Bytes) {
    v == [] || Inert(v[0]) || (v[0] == BACKSLASH && InertAfterRun(v[1..]))
  }

  /** The values that survive being escaped and unescaped: those without a byte to escape, and
      those whose first byte to escape starts a backslash run ended by nothing or by an inert byte. */
  predicate SurvivesEscaping(v: Bytes) {
    var i := FirstEscapable(v);
    i == |v| || (v[i] == BACKSLASH && InertAfterRun(v[i + 1..]))
  }

  /** With a backslash pending, the scan over an escaped value gives the value back exactly when
      the value is a backslash run ended by nothing or an inert byte. */
  lemma {:induction false} ScanPending(v: Bytes)
    ensures Scan(true, Escaped(v)) == v <==> InertAfterRun(v)
    decreases |v|
  {
    if v != [] {
      var tail := Escaped(v[1..]);
      match EscapeByte(v[0]) {
        case Some(code) =>
          var s := [BACKSLASH, code] + tail;
          assert Escaped(v) == s && s[1..] == [code] + tail && s[1..][1..] == tail;
          assert Scan(true, s) == [BACKSLASH] + Scan(false, [code] + tail);
          if v[0] == BACKSLASH {
            ScanPending(v[1..]);
            assert Scan(false, s[1..]) == Scan(true, tail);
            assert v == [BACKSLASH] + v[1..];
          } else {
            assert Scan(true, s)[0] == BACKSLASH;
          }
        case None =>
          assert ([v[0]] + tail)[1..] == tail;
          ScanInvertsEscape(v[1..]);
          assert Scan(true, Escaped(v)) == [UnescapeByte(v[0])] + v[1..];
          assert v == [v[0]] + v[1..];
      }
    }
  }

  lemma {:induction false} PrefixCancels(a: Bytes, x: Bytes, y: Bytes)
    ensures a + x == a + y <==> x == y
  {
    assert (a + x)[|a|..] == x && (a + y)[|a|..] == y;
  }

  lemma {:induction false} UnescapedAt(clean: Bytes, rest: Bytes)
    requires forall k | 0 <= k < |clean| :: !Escapable(clean[k])
    requires rest != [] && rest[0] == BACKSLASH
    ensures Unescaped(clean + rest) == clean + [BACKSLASH] + Scan(false, rest[1..])
  {
    FindAppend(clean, rest, At(BACKSLASH));
    assert (clean + rest)[..|clean|] == clean;
    assert (clean + rest)[|clean| + 1..] == rest[1..];
  }

  /** What `unescape` makes of an escaped value with a byte to escape. */
  lemma {:induction false} UnescapedEscaped(v: Bytes, i: nat)
    requires i == FirstEscapable(v) < |v|
    ensures Unescaped(Escaped(v)) == v[..i] + [BACKSLASH] + Scan(false, Escaped(v[i..])[1..])
  {
    EscapedPrefix(v);
    EscapedStep(v, i);
    UnescapedAt(v[..i], Escaped(v[i..]));
  }

  lemma {:induction false} ScanAfterBackslash(w: Bytes)
    requires w != [] && w[0] == BACKSLASH
    ensures Escaped(w) != [] && Scan(false, Escaped(w)[1..]) == Scan(true, Escaped(w[1..]))
  {
    var e := Escaped(w)[1..];
    assert e == [BACKSLASH] + Escaped(w[1..]);
    assert e[1..] == Escaped(w[1..]);
  }

  lemma {:induction false} UnescapedClean(v: Bytes)
    requires FirstEscapable(v) == |v|
    ensures Unescaped(Escaped(v)) == v
  {
    EscapedClean(v);
    CleanHasNoBackslash(v);
    FindAppend(v, [], At(BACKSLASH));
    assert v + [] == v;
  }

  lemma {:induction false} CleanHasNoBackslash(v: Bytes)
    requires FirstEscapable(v) == |v|
    ensures forall k | 0 <= k < |v| :: v[k] != BACKSLASH
  {
    assert Escapable(BACKSLASH);
  }

  /** When `unescape` undoes `escape`: exactly for the values of `SurvivesEscaping`. */
  lemma {:induction false} UnescapeInvertsEscapeIff(v: Bytes)
    ensures Unescaped(Escaped(v)) == v <==> SurvivesEscaping(v)
  {
    var i := FirstEscapable(v);
    if i == |v| {
      UnescapedClean(v);
    } else {
      UnescapedEscaped(v, i);
      if v[i] == BACKSLASH {
        BackslashFirst(v, i);
      } else {
        var back := Scan(false, Escaped(v[i..])[1..]);
        assert (v[..i] + [BACKSLASH] + back)[i] == BACKSLASH;
      }
    }
  }

  lemma {:induction false} BackslashFirst(v: Bytes, i: nat)
    requires i < |v| && v[i] == BACKSLASH
    ensures v[..i] + [BACKSLASH] + Scan(false, Escaped(v[i..])[1..]) == v <==> InertAfterRun(v[i + 1..])
  {
    var back := Scan(false, Escaped(v[i..])[1..]);
    assert v == v[..i] + [BACKSLASH] + v[i + 1..];
    assert v[i..][1..] == v[i + 1..];
    ScanAfterBackslash(v[i..]);
    ScanPending(v[i + 1..]);
    PrefixCancels(v[..i] + [BACKSLASH], back, v[i + 1..]);
  }

  /** The shortest value that does not survive: a single `;` comes back as a backslash and a colon. */
  lemma {:induction false} SemicolonIsLost()
    ensures Unescaped(Escaped([SEMI])) == [BACKSLASH, COLON]
    ensures !SurvivesEscaping([SEMI]) && SurvivesEscaping([BACKSLASH])
  {
    UnescapedEscaped([SEMI], 0);
    assert [SEMI][..0] == [] && [SEMI][0..] == [SEMI];
    assert Escaped([SEMI]) == [BACKSLASH, COLON] by { assert [SEMI][1..] == []; }
    assert [BACKSLASH, COLON][1..] == [COLON] && [COLON][1..] == [];
  }

  // ---------------------------------------------------------------------------
  // The tables

  /** The escapes of the IRCv3 message-tags specification: `;` as `\\:`, space as `\\s`, carriage
      return as `\\r`, line feed as `\\n`, backslash doubled, anything else as it is. */
  lemma {:induction false} EscapesAsSpecified(b: byte)
    ensures EscapedByte(b) == if b == 59 then [92, 58] else if b == 32 then [92, 115]
                              else if b == 13 then [92, 114] else if b == 10 then [92, 110]
                              else if b == 92 then [92, 92] else [b]
  {
  }

  /** A backslash in front of any other byte is dropped, and so is one at the end. */
  lemma {:induction false} OtherEscapesDropped(b: byte, s: Bytes)
    requires b != COLON && b != 115 && b != 114 && b != 110
    ensures Scan(false, [BACKSLASH, b] + s) == [b] + Scan(false, s)
    ensures Scan(false, [BACKSLASH]) == []
  {
    var t := [BACKSLASH, b] + s;
    assert t[1..] == [b] + s && t[1..][1..] == s;
    assert [BACKSLASH][1..] == [];
  }
}
