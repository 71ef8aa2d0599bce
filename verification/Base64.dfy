/** AUTHENTICATE-style chunking of base64 text (src/string/base64.rs). Encoding to and decoding
    from base64 itself happen before and after what is modelled here: the encoder starts from the
    encoded text, and the decoder's answer is the text it hands to the base64 engine. */
module Base64Chunks {
  import opened Strings
  import opened Division

  const LONE_PLUS: Bytes := [PLUS]

  /** The bytes of base64 text: letters, digits, plus, slash and the padding. */
  predicate IsBase64(text: Bytes) {
    forall i | 0 <= i < |text| ::
      IsAlpha(text[i]) || IsDigit(text[i]) || text[i] == PLUS || text[i] == 47 || text[i] == 61
  }

  /** The chunks of a text: full ones, then a shorter one, or a plus sign if nothing is left. */
  function Chunks(text: Bytes, max: nat): (r: seq<Bytes>)
    requires max > 0
    ensures r != []
  {
    if text == [] then [LONE_PLUS]
    else if |text| < max then [text]
    else [text[..max]] + Chunks(text[max..], max)
  }

  class ChunkEncoder {
    /** The unsent text; `None` once it has been used up. */
    var text: Option<Bytes>
    /** The chunk size, or zero once the last chunk is out. */
    var max: nat

    ghost predicate Valid()
      reads this
    {
      text.Some? ==> text.value != []
    }

    /** The chunks still to come. */
    ghost function Remaining(): seq<Bytes>
      reads this
    {
      if max == 0 then [] else Chunks(if text.Some? then text.value else [], max)
    }

    constructor (encoded: Bytes, max: nat)
      ensures Valid() && Remaining() == if max == 0 then [] else Chunks(encoded, max)
    {
      this.max := max;
      text := if max == 0 || encoded == [] then None else Some(encoded);
    }

    /** The length reported beforehand is the number of chunks to come. */
    function Len(): (n: nat)
      requires Valid()
      reads this
      ensures n == |Remaining()|
    {
      if max == 0 then 0
      else if text.Some? then ChunkCount(text.value, max); |text.value| / max + 1
      else 1
    }

    method Next() returns (r: Option<Bytes>)
      requires Valid()
      modifies this
      ensures Valid()
      ensures r.None? <==> old(Remaining()) == []
      ensures r.None? ==> Remaining() == []
      ensures r.Some? ==> old(Remaining()) == [r.value] + Remaining()
    {
      if max == 0 { return None; }
      match text {
        case Some(t) =>
          var n := if |t| < max then |t| else max;
          var chunk, rest := t[..n], t[n..];
          assert n < max ==> chunk == t;
          assert Chunks(t, max) == if n < max then [chunk] else [chunk] + Chunks(rest, max);
          if |chunk| < max {
            text, max := None, 0;
          } else if rest == [] {
            text := None;
          } else {
            text := Some(rest);
          }
          return Some(chunk);
        case None =>
          max := 0;
          return Some(LONE_PLUS);
      }
    }
  }

  /** Adding a chunk to what has been collected: the new collection, and the text to decode if the
      chunk was the last one. */
  function Add(buf: Bytes, max: nat, chunk: Bytes): (Bytes, Option<Bytes>) {
    if |chunk| < max then ([], Some(if chunk == LONE_PLUS then buf else buf + chunk))
    else (buf + chunk, None)
  }

  class ChunkDecoder {
    var buf: Bytes
    const max: nat

    constructor (max: nat)
      ensures buf == [] && this.max == max
    {
      buf, this.max := [], max;
    }

    method AddChunk(chunk: Bytes) returns (r: Option<Bytes>)
      modifies this
      ensures (buf, r) == Add(old(buf), max, chunk)
    {
      if |chunk| < max {
        if chunk != LONE_PLUS { buf := buf + chunk; }
        var text := buf;
        buf := [];
        return Some(text);
      } else {
        buf := buf + chunk;
        return None;
      }
    }
  }

  // ---------------------------------------------------------------------------

  lemma {:induction false} CountChunks(text: Bytes, max: nat)
    requires max > 0
    ensures |Chunks(text, max)| == Quotient(|text|, max) + 1
    decreases |text|
  {
    if |text| >= max { CountChunks(text[max..], max); }
  }

  lemma {:induction false} ChunkCount(text: Bytes, max: nat)
    requires max > 0
    ensures |Chunks(text, max)| == |text| / max + 1
  {
    CountChunks(text, max);
    IsDivision(|text|, max);
  }

  /** All chunks are full but the last, which is shorter if the size leaves room for that; the
      last one stands for the rest of the text. */
  lemma {:induction false} FullButLast(text: Bytes, max: nat, k: nat)
    requires max > 0 && k < |Chunks(text, max)|
    ensures var c := Chunks(text, max);
            if k < |c| - 1 then k * max + max <= |text| && c[k] == text[k * max..k * max + max]
            else k * max <= |text| && (max > 1 ==> |c[k]| < max) &&
                 c[k] == if k * max == |text| then LONE_PLUS else text[k * max..]
    decreases |text|
  {
    if |text| >= max && k > 0 {
      var rest := text[max..];
      FullButLast(rest, max, k - 1);
      assert Chunks(text, max)[k] == Chunks(rest, max)[k - 1];
      OneLess(k, max);
      if k < |Chunks(text, max)| - 1 {
        Slices(text, max, (k - 1) * max, (k - 1) * max + max);
      } else {
        Slices(text, max, (k - 1) * max, |rest|);
      }
    }
  }

  lemma {:induction false} OneLess(k: nat, max: nat)
    requires k > 0
    ensures (k - 1) * max + max == k * max
  {
  }

  lemma {:induction false} Slices(text: Bytes, max: nat, i: nat, j: nat)
    requires max <= |text| && i <= j <= |text| - max
    ensures text[max..][i..j] == text[i + max..j + max]
  {
  }

  /** Every chunk of base64 text can be sent as an argument. */
  lemma {:induction false} ChunkIsArg(text: Bytes, max: nat, k: nat)
    requires max > 0 && k < |Chunks(text, max)| && IsBase64(text)
    ensures Is(Arg, Chunks(text, max)[k])
  {
    FullButLast(text, max, k);
    var c := Chunks(text, max)[k];
    assert IsBase64(c) && c != [];
  }

  /** What a decoder answers to a series of chunks, and what it is left with. */
  function Feed(buf: Bytes, max: nat, chunks: seq<Bytes>): (Bytes, seq<Option<Bytes>>)
    decreases |chunks|
  {
    if chunks == [] then (buf, [])
    else
      var (b, a) := Add(buf, max, chunks[0]);
      var (b', as') := Feed(b, max, chunks[1..]);
      (b', [a] + as')
  }

  function Silence(n: nat): seq<Option<Bytes>> {
    seq(n, _ => None)
  }

  /** The last chunk of the text is a lone plus sign that belongs to the text. */
  predicate EndsInLonePlus(text: Bytes, max: nat)
    requires max > 0
  {
    Remainder(|text|, max) == 1 && text != [] && text[|text| - 1] == PLUS
  }

  /** Chunk sizes of at least two: the decoder is silent until the last chunk, answers that one,
      and is left empty; what it answers with is the text, less a lone plus sign at its end. */
  lemma {:induction false} FeedChunks(buf: Bytes, text: Bytes, max: nat)
    requires max >= 2
    ensures Feed(buf, max, Chunks(text, max)) ==
            ([], Silence(Quotient(|text|, max))
                 + [Some(buf + if EndsInLonePlus(text, max) then text[..|text| - 1] else text)])
    decreases |text|
  {
    var c := Chunks(text, max);
    if |text| < max {
      FeedLast(buf, text, max);
    } else {
      var first, rest := text[..max], text[max..];
      FeedChunks(buf + first, rest, max);
      assert c[0] == first && c[1..] == Chunks(rest, max);
      Regroup(buf, text, max);
      assert [None] + Silence(Quotient(|rest|, max)) == Silence(Quotient(|text|, max));
      var last := Some(buf + if EndsInLonePlus(text, max) then text[..|text| - 1] else text);
      assert [None] + (Silence(Quotient(|rest|, max)) + [last]) == Silence(Quotient(|text|, max)) + [last];
    }
  }

  lemma {:induction false} FeedLast(buf: Bytes, text: Bytes, max: nat)
    requires max >= 2 && |text| < max
    ensures Feed(buf, max, Chunks(text, max)) ==
            ([], Silence(Quotient(|text|, max))
                 + [Some(buf + if EndsInLonePlus(text, max) then text[..|text| - 1] else text)])
  {
    var c := Chunks(text, max);
    assert c[1..] == [];
    assert Feed(buf, max, c).1 == [Add(buf, max, c[0]).1];
    var got := if EndsInLonePlus(text, max) then text[..|text| - 1] else text;
    assert Silence(0) + [Some(buf + got)] == [Some(buf + got)];
    if text == [] || text == LONE_PLUS {
      assert got == [] && buf + got == buf;
    }
  }

  lemma {:induction false} Regroup(buf: Bytes, text: Bytes, max: nat)
    requires 2 <= max <= |text|
    ensures var first, rest := text[..max], text[max..];
            && buf + first + rest == buf + text
            && (rest != [] ==> rest[|rest| - 1] == text[|text| - 1]
                               && buf + first + rest[..|rest| - 1] == buf + text[..|text| - 1])
  {
    var first, rest := text[..max], text[max..];
    assert first + rest == text && buf + (first + rest) == buf + first + rest;
    if rest != [] {
      assert first + rest[..|rest| - 1] == text[..|text| - 1];
      assert buf + (first + rest[..|rest| - 1]) == buf + first + rest[..|rest| - 1];
    }
  }

  /** With a chunk size of one the decoder never answers. */
  lemma {:induction false} SizeOneNeverAnswers(buf: Bytes, chunks: seq<Bytes>)
    requires forall i | 0 <= i < |chunks| :: chunks[i] != []
    ensures Feed(buf, 1, chunks).1 == Silence(|chunks|)
    decreases |chunks|
  {
    if chunks != [] {
      assert |chunks[0]| >= 1;
      SizeOneNeverAnswers(buf + chunks[0], chunks[1..]);
      assert [None] + Silence(|chunks| - 1) == Silence(|chunks|);
    }
  }

  /** The decoder undoes the encoder, answering exactly on the last chunk and left empty. */
  predicate Undone(text: Bytes, max: nat)
    requires max > 0
  {
    Feed([], max, Chunks(text, max)) == ([], Silence(Quotient(|text|, max)) + [Some(text)])
  }

  /** It does so if and only if the chunk size is at least two and the last chunk is not a lone
      plus sign of the text. */
  lemma {:induction false} ChunksRoundTripIff(text: Bytes, max: nat)
    requires max > 0
    ensures Undone(text, max) <==> max >= 2 && !EndsInLonePlus(text, max)
  {
    if max >= 2 {
      FeedChunks([], text, max);
      var got := if EndsInLonePlus(text, max) then text[..|text| - 1] else text;
      assert [] + got == got;
      var n := Quotient(|text|, max);
      assert (Silence(n) + [Some(got)])[n] == Some(got) && (Silence(n) + [Some(text)])[n] == Some(text);
    } else {
      var c := Chunks(text, 1);
      forall i | 0 <= i < |c| ensures c[i] != [] { FullButLast(text, 1, i); }
      SizeOneNeverAnswers([], c);
      CountChunks(text, 1);
      var n := Quotient(|text|, 1);
      assert Feed([], 1, c).1[n] == None && (Silence(n) + [Some(text)])[n] == Some(text);
    }
  }

  /** Padded base64 in chunks of a multiple of four, as AUTHENTICATE sends it, always arrives. */
  lemma {:induction false} PaddedRoundTrip(text: Bytes, max: nat)
    requires max > 0 && max % 4 == 0 && |text| % 4 == 0
    ensures Undone(text, max)
  {
    ChunksRoundTripIff(text, max);
    MultipleOf4(|text|, max);
  }

  lemma {:induction false} MultipleOf4(n: nat, max: nat)
    requires max > 0 && max % 4 == 0 && n % 4 == 0
    ensures Remainder(n, max) % 4 == 0
    decreases n
  {
    if n >= max { MultipleOf4(n - max, max); }
  }

  /** In numbers: the answer comes with chunk number |text| / max + 1, the last. */
  lemma {:induction false} AnswersOnLastChunk(text: Bytes, max: nat)
    requires max >= 2
    ensures var answers := Feed([], max, Chunks(text, max)).1;
            && |answers| == |Chunks(text, max)| == |text| / max + 1
            && forall i | 0 <= i < |answers| :: answers[i].Some? <==> i == |answers| - 1
  {
    FeedChunks([], text, max);
    ChunkCount(text, max);
    CountChunks(text, max);
  }
}
