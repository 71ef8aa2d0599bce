/** The cursor over a byte string that every parser of the original works with
    (src/string/splitter.rs). The drop guard that restores the end index is the pair
    `SaveEnd` / `RestoreEnd`. */
module Splitters {
  import opened Strings

  datatype Result<+T> = Ok(value: T) | Err(error: InvalidString)

  /** The next string of type `t` at the front of `s`, or why there is none. */
  function PeekStringOf(s: Bytes, t: StrType, requireRest: bool): (r: Result<Bytes>)
    ensures r.Ok? ==> r.value <= s && Is(t, r.value)
    ensures r.Ok? && requireRest ==> r.value == s
  {
    var n := Find(s, Outside(t));
    if n < |s| && requireRest then Err(Byte(s[n]))
    else
      match CheckOthers(t, s[..n])
      case Some(e) => Err(e)
      case None => Ok(s[..n])
  }

  /** The next word may be empty, but is always there. */
  lemma {:induction false} PeekWord(s: Bytes)
    ensures PeekStringOf(s, Word, false) == Ok(s[..Find(s, Outside(Word))])
  {
  }

  class Splitter {
    const str: Bytes
    var start: nat
    var end: nat

    ghost predicate Valid()
      reads this
    {
      start <= end <= |str|
    }

    /** The bytes that can still be extracted. */
    function Rest(): Bytes
      requires Valid()
      reads this
    {
      str[start..end]
    }

    constructor (s: Bytes)
      ensures Valid() && fresh(this)
      ensures Rest() == s && str == s
    {
      str := s;
      start, end := 0, |s|;
    }

    predicate IsEmpty()
      requires Valid()
      reads this
      ensures IsEmpty() <==> Rest() == []
    {
      start == end
    }

    method NextByte() returns (r: Option<byte>)
      requires Valid()
      modifies this`start
      ensures Valid()
      ensures r == if old(Rest()) == [] then None else Some(old(Rest())[0])
      ensures Rest() == if old(Rest()) == [] then [] else old(Rest())[1..]
      ensures str[start..] == if old(Rest()) == [] then old(str[start..]) else old(str[start..])[1..]
    {
      if start == end {
        r := None;
      } else {
        r := Some(str[start]);
        start := start + 1;
      }
    }

    /** Removes leading bytes up to the first that stops the scan. */
    method Skip(p: Stop)
      requires Valid()
      modifies this`start
      ensures Valid()
      ensures Rest() == old(Rest())[Find(old(Rest()), p)..]
    {
      start := start + Find(Rest(), p);
    }

    method ConsumeInvalid(t: StrType)
      requires Valid()
      modifies this`start
      ensures Valid()
      ensures Rest() == old(Rest())[Find(old(Rest()), Inside(t))..]
    {
      Skip(Inside(t));
    }

    method ConsumeWhitespace()
      requires Valid()
      modifies this`start
      ensures Valid()
      ensures Rest() == SkipWhitespace(old(Rest()))
    {
      Skip(NonSpace);
    }

    /** Truncates the view at the first byte equal to `b`. */
    method UntilByteEq(b: byte)
      requires Valid()
      modifies this`end
      ensures Valid()
      ensures Rest() == old(Rest())[..Find(old(Rest()), At(b))]
    {
      end := start + Find(Rest(), At(b));
    }

    method UntilCount(len: nat)
      requires Valid()
      modifies this`end
      ensures Valid()
      ensures Rest() == if len <= |old(Rest())| then old(Rest())[..len] else old(Rest())
    {
      if start + len < end { end := start + len; }
    }

    method SaveEnd() returns (saved: nat)
      ensures saved == end
    {
      saved := end;
    }

    method RestoreEnd(saved: nat)
      requires Valid() && end <= saved <= |str|
      modifies this`end
      ensures Valid() && end == saved
    {
      end := saved;
    }

    /** Takes the next string of type `t`; consumes nothing on error. */
    method String(t: StrType, requireRest: bool) returns (r: Result<Bytes>)
      requires Valid()
      modifies this`start
      ensures Valid()
      ensures r == PeekStringOf(old(Rest()), t, requireRest)
      ensures Rest() == if r.Ok? then old(Rest())[|r.value|..] else old(Rest())
      ensures start == old(start) + if r.Ok? then |r.value| else 0
    {
      r := PeekStringOf(Rest(), t, requireRest);
      if r.Ok? { start := start + |r.value|; }
    }

    /** `string_or_default` for words, of which the next one may be empty but is always there. */
    method NextWord() returns (r: Bytes)
      requires Valid()
      modifies this`start
      ensures Valid()
      ensures var n := Find(old(Rest()), Outside(Word));
              r == old(Rest())[..n] && Rest() == old(Rest())[n..]
    {
      PeekWord(Rest());
      var word := String(Word, false);
      r := word.value;
    }

    /** Takes all that is left, which the caller knows to be of a type without first-byte check. */
    method TakeRest() returns (r: Bytes)
      requires Valid()
      modifies this`start
      ensures Valid()
      ensures r == old(Rest()) && Rest() == [] && start == end
    {
      r := Rest();
      start := end;
    }
  }
}
