# A verified model of vinezombie

vinezombie is an IRCv3 framework in Rust. This project models the parts of it whose correctness is
not visible from any single function, and proves what they promise for every input, every run and
every interleaving:

- **the wire codec**: tags, sources, arguments, whole messages, and the reader that takes messages
  off a byte stream;
- **connection registration**: capability negotiation, SASL and the welcome burst, one step per
  server message;
- **the one-shot channel and its parker**: a lock-free protocol of any number of senders and one
  waiting thread, as interleaved atomic actions;
- **the vector-backed map** and its edit guard;
- **the rate-limited message queue**;
- **the handler table**, which removes by swapping while it iterates;
- **three bounded generators**: AUTHENTICATE chunks, CAP REQ lists, nickname suffixes.

Code that changes things in place is modelled by classes and loops, each proved equal to a
specification function; what the original promises is then proved about that function. State
machines are step functions with histories computed from the messages alone.

Check everything with `dafny verify dfyconfig.toml`.

## Files

| file | models |
|---|---|
| `Strings.dfy`, `Splitter.dfy` | byte classes, string types, the parsing cursor |
| `Escape.dfy`, `Tags.dfy`, `Source.dfy`, `Args.dfy`, `Codec.dfy`, `Stream.dfy` | the wire codec, bottom up |
| `FlatMap.dfy`, `FlatMapGuard.dfy` | the vector-backed map, closed and open |
| `Sasl.dfy`, `Register.dfy`, `Negotiation.dfy`, `Cap.dfy` | authentication, registration, what it asks for and answers, capability lists |
| `Parker.dfy`, `Oneshot.dfy` | parking and the one-shot channel |
| `Queue.dfy`, `Handlers.dfy` | rate limiting, the handler table |
| `Base64.dfy`, `Suffix.dfy`, `MixedRadix.dfy`, `Division.dfy` | chunking, nickname suffixes, the number system behind them, division facts |

## Where the code does less than it promises

Each of these was found by trying to prove the stronger statement. The model follows the code, and
the lemma named gives the exact condition under which the promise is kept.

- `unescape` keeps the first backslash it meets and scans on behind it, so it undoes `escape` only
  for values whose first byte to be escaped is missing or starts a run of backslashes that ends
  the value or is followed by a byte that is neither escapable nor an escape code
  (`Escape.UnescapeInvertsEscapeIff`; a lone `;` is lost, `Escape.SemicolonIsLost`). Applied from the
  start of the string, the same scanning rule is the inverse (`Escape.ScanInvertsEscape`).
- README.md:19-21 promises that a written message parses into the same message. That holds exactly
  if the tag values survive escaping, a host is not empty and no word argument starts with a tab or
  form feed (`Codec.ServerRoundTripIff`, `Codec.ClientRoundTripIff`).
- `Tags::parse` never returns on a tag list with a colon in key position (`Tags.ParseReturnsIff`), so
  that parsing a line, and reading it off a stream, hangs exactly if its first word holds such tags
  (`Codec.ServerHangsIff`, `Codec.ClientHangsIff`, `Stream.ReadHangsIff`).
- A line too long for the reader's buffer blocks it for good: every later call reports the same fault
  and takes nothing, exactly if the buffer is full (`Stream.StuckIffFull`).
- An insertion into an open map overwrites the map exactly if its key is not hidden in the unsorted
  suffix (`FlatMapGuards.InsertSessionIff`); a removal takes out exactly its key if there is no unsorted
  suffix (`FlatMapGuards.RemoveExactIff`), and removing ascending keys in one session panics exactly if
  two of them are present (`FlatMapGuards.RemoveAllPanicsIff`). A CAP DEL panics exactly if it names
  two known capabilities (`Register.DelIsSession`).
- The documentation of `Register::auth` lets a caller ask to close the connection without a login.
  `Register::handler` keeps that wish only if there is no authenticator, so it is honoured exactly
  then (`Register.LoginEnforcedIff`), and then registration always fails at the end of the server's
  capability list (`Register.WishEndsAtList`).
- SASL's `Broken` error is documented as concerning the last available authenticator. Undecodable
  base64 and numeric 905 raise it with authenticators still waiting (`Sasl.GivesUpOnlyAtTheEnd`).
- A rejection (902, 904) does not empty the SASL decoder. An authenticator turned to starts with an
  empty one exactly unless a rejection has cut a challenge short (`Sasl.StartsCleanIff`); then its
  first challenge is decoded behind what is left (`Sasl.LeftoverIsDecoded`).
- A spurious wake-up ends `recv` early (`Oneshot.SpuriousWakeupEndsWait`); runs without one wait as
  long as they should (`Oneshot.NothingOnlyIfAllDropped`).
- The chunk decoder undoes the encoder exactly for chunk sizes of at least two and texts whose last
  chunk is not a lone plus sign (`Base64Chunks.ChunksRoundTripIff`); padded base64 in chunks of a
  multiple of four always qualifies.
- A capability list reads back exactly if no name starts with a tab or form feed
  (`CapLists.ListRoundTripIff`).
- A character that no nick may hold counts as a suffix but adds nothing. A generator yields no nick
  twice exactly if its limit is not zero and no such character stands behind something that counts
  and within reach of the limit (`NickSuffix.DistinctIff`, and in terms of positions for lists without
  a choice `NickSuffix.DistinctIffWithoutChoice`): a digit and then a space repeats, a space and then
  a digit does not (`NickSuffix.IllegalCharRepeats`).
- A generator yields as many nicks as its variances add up to, 255 at most, exactly if they do not
  add up to zero; if they do, the limit wraps around and the bare prefix comes 256 times
  (`NickSuffix.YieldAll`, `NickSuffix.EmptyChoiceWrapsAround`).
- `Base16` and `NonZeroBase16` are documented as one hexadecimal digit. From ten on the text is a
  letter from K to P, or from J to O for the nonzero type (`NickSuffix.HexDigitIff`).
- The documentation of `Choice` speaks of the first 256 elements; counting through suffixes considers
  255 (`NickSuffix.ChoiceWheel`).

## Model

| member | source | states |
|---|---|---|
| `Strings.Find` | src/string/splitter.rs:170-200 | every scan stops at the first byte that stops it, or at the end: nothing before it does |
| `Strings.LtStrictTotalOrder` | src/string/bytes.rs:430-434 | the order of byte strings, by which maps are sorted, is irreflexive, transitive and total |
| `Strings.LtIff` | src/string/bytes.rs:430-434 | the order in terms of positions: up to some place the strings agree, and there the first one ends or has the smaller byte |
| `Splitters.PeekStringOf` | src/string/splitter.rs:254-277 | what is extracted is a prefix of the text and a string of the asked type, all of the text if that is demanded |
| `Splitters.Splitter.constructor` | src/string/splitter.rs:214-226 | a new cursor covers the whole string |
| `Splitters.Splitter.NextByte` | src/string/splitter.rs:144-153 | takes the first byte off the view, if there is one |
| `Splitters.Splitter.ConsumeInvalid` | src/string/splitter.rs:170-178 | drops exactly the leading bytes the string type excludes |
| `Splitters.Splitter.ConsumeWhitespace` | src/string/splitter.rs:180-187 | drops exactly the leading ASCII whitespace, tab and form feed included |
| `Splitters.Splitter.UntilByteEq` | src/string/splitter.rs:196-204 | cuts the view before the first byte equal to the given one |
| `Splitters.Splitter.UntilCount` | src/string/splitter.rs:206-212 | cuts the view to at most that many bytes |
| `Splitters.Splitter.RestoreEnd` | src/string/splitter.rs:48-53 | puts the saved end back and leaves the start where it is |
| `Splitters.Splitter.String` | src/string/splitter.rs:301-309 | takes the next string of a type, and nothing on error |
| `Splitters.PeekWord` | src/string/splitter.rs:254-277 | a word, perhaps an empty one, is always found: everything before the first byte it excludes |
| `Splitters.Splitter.NextWord` | src/string/splitter.rs:311-316 | takes exactly that word |
| `Splitters.Splitter.TakeRest` | src/string/splitter.rs:282-298 | takes everything left and leaves the view empty |
| `Escape.EscapeValue` | src/string/tf/escape.rs:29-55 | the loop with its clean-prefix shortcut computes byte-wise escaping |
| `Escape.UnescapeValue` | src/string/tf/escape.rs:57-84 | the loop computes a clean prefix, the first backslash itself, and a scan of what follows it |
| `Escape.EscapedIsWord` | src/string/tf/escape.rs:29-55 | an escaped value is a word without `;`, and only the empty value escapes to nothing |
| `Escape.ScanInvertsEscape` | src/string/tf/escape.rs:71-81 | the scanning rule applied from the start inverts `escape` for every value |
| `Escape.ScanPending` | src/string/tf/escape.rs:62-81 | with a backslash pending, the scan over an escaped value returns it exactly if it is a backslash run ended by nothing or an inert byte |
| `Escape.UnescapeInvertsEscapeIff` | src/string/tf/escape.rs:57-84 | `unescape` undoes `escape` if and only if the value has nothing to escape or its first such byte starts a backslash run with an inert end |
| `Escape.SemicolonIsLost` | src/string/tf/escape.rs:62-71 | a single `;` comes back as backslash and colon |
| `Escape.EscapesAsSpecified` | src/string/tf/escape.rs:17-27 | every byte is escaped as the IRCv3 message-tags specification says |
| `Escape.OtherEscapesDropped` | src/string/tf/escape.rs:71-81 | in the scanning rule a backslash before any other byte, or at the end, is dropped |
| `Tags.WriteTags` | src/ircmsg/tags.rs:60-72 | the loop with its changing prefix writes `@key=value;key` with escaped values |
| `Tags.ParseTagList` | src/ircmsg/tags.rs:76-105 | the parsing loop gives the sorted, deduplicated pairs, or finds a round that leaves the cursor where it was, from which the original never returns |
| `Tags.ParseReturnsIff` | src/ircmsg/tags.rs:76-105 | parsing ends if and only if no segment has a colon in key position |
| `Tags.ColonAloneNeverReturns` | src/ircmsg/tags.rs:88-92 | the tag list `:` keeps the parser where it is |
| `Tags.ParseWritten` | src/ircmsg/tags.rs:60-105 | parsing any written list ends and gives each key with its value passed through `escape` and `unescape` |
| `Tags.TagsRoundTripIff` | src/ircmsg/tags.rs:60-105 | written tags parse back to the same tags if and only if every value survives escaping |
| `Tags.AnyOrderComesSorted` | src/ircmsg/tags.rs:60-105 | tags written in any order and with repeats come back strictly sorted with the last value for each key, as far as values survive escaping |
| `Tags.ParsedTagsValid` | src/ircmsg/tags.rs:76-105 | whatever is parsed keeps the type's invariant: strictly sorted valid keys and NUL-free values |
| `Tags.StrayBytesIgnored` | src/ircmsg/tags.rs:88-92 | empty segments and stray equals signs in front of a tag do not matter |
| `Sources.ReadUserHost` | src/ircmsg/source.rs:163-177 | reads user and host off a cursor, rejecting a bad user and an empty host |
| `Sources.ReadSource` | src/ircmsg/source.rs:96-115 | reads a nick and, after `!` or `@`, user and host, with the original's errors |
| `Sources.WriteSource` | src/ircmsg/source.rs:74-90 | appends the source's text to what was written |
| `Sources.SourceTextIsWord` | src/ircmsg/source.rs:58-90 | the written source is a non-empty word of exactly the announced length |
| `Sources.SourceRoundTripIff` | src/ircmsg/source.rs:74-115 | a written source parses back to itself, except that one with an empty host is rejected as such |
| `Sources.NickErrors` | src/ircmsg/source.rs:96-98 | the nick is refused exactly if there is none or if it would start with a colon |
| `Sources.UserErrors` | src/ircmsg/source.rs:163-177 | what follows `nick!` is refused exactly for what is wrong with the text up to the first at sign, or else for want of a host |
| `Sources.ParsedSourceText` | src/ircmsg/source.rs:96-115 | a source that parses is valid, was written out in full and has no empty host |
| `Sources.SourceParsesIff` | src/ircmsg/source.rs:96-177 | exactly the texts of valid sources without an empty host parse |
| `Arguments.NextArg` | src/ircmsg/args.rs:138-156 | one round of the loop: no argument, the rest after a colon, or a word and what follows it |
| `Arguments.ReadArgs` | src/ircmsg/args.rs:138-156 | the loop over the cursor computes the argument list of the line |
| `Arguments.CountBytes` | src/ircmsg/args.rs:177-186 | the loop sums the sizes of the arguments with their separators |
| `Arguments.WriteArgs` | src/ircmsg/codec.rs:131-143 | the loop writes every word after a space and a long last argument after space and colon |
| `Arguments.ArgBytesLen` | src/ircmsg/args.rs:177-186 | the counted size of the words is their size on the wire |
| `Arguments.ParseArgsValid` | src/ircmsg/args.rs:95-156 | whatever is parsed keeps the type's invariant: words pass for words, a long argument does not |
| `Arguments.ParseArgsWeight` | src/ircmsg/args.rs:138-156 | a parsed list never takes more bytes than it was parsed from, and fewer if blanks were skipped |
| `Arguments.ArgsRoundTripIff` | src/ircmsg/args.rs:138-156 | a written list parses back to itself if and only if no word starts with a tab or form feed |
| `Arguments.ExtraBlankIgnored` | src/ircmsg/args.rs:138-156 | blanks in front of an argument do not matter |
| `Arguments.ParsedLeadingBlank` | src/ircmsg/args.rs:138-156 | no parsed word but a last one, written after a colon, starts with a blank |
| `Codec.ReadHead` | src/ircmsg/codec.rs:58-97 | the loop with its expectation flags reads tags, source and kind in that order, each at most once |
| `Codec.ReadServer` | src/ircmsg/server.rs:137-153 | reads a whole server message from a line, with the original's errors |
| `Codec.ReadClient` | src/ircmsg/client.rs:116-133 | reads a whole client message from a line, ignoring a source |
| `Codec.WriteTo` | src/ircmsg/codec.rs:114-145 | appends tags, source, kind and arguments in wire form |
| `Codec.HeadOfWire` | src/ircmsg/codec.rs:58-145 | reading the head of any written message finds its tags, source and kind and leaves exactly its arguments |
| `Codec.WireIsLine` | src/ircmsg/codec.rs:114-145 | a written message is a line |
| `Codec.ServerRoundTripIff` | src/ircmsg/codec.rs:58-145 | a written server message parses back to the same message if and only if its tag values survive escaping, its host is not empty and no word argument starts with a blank |
| `Codec.ClientRoundTripIff` | src/ircmsg/codec.rs:58-145 | the same for client messages |
| `Codec.ServerHangsIff` | src/ircmsg/codec.rs:58-97 | parsing a server's line never ends if and only if its first word starts with `@` and has a colon in key position after that |
| `Codec.ClientHangsIff` | src/ircmsg/codec.rs:58-97 | the same for a client's line |
| `Codec.LineErrors` | src/ircmsg/server.rs:137-153 | both parsers report a byte no line may hold exactly if the line has one, and the first one |
| `Codec.ServerLineDecided` | src/ircmsg/codec.rs:57-97 | with any word in the place of the source: refused for the source if that does not parse, else for the first byte of the kind that is not a letter, else a message with that source and kind |
| `Codec.ClientLineDecided` | src/ircmsg/codec.rs:57-97 | the same for client messages, which are never refused for a source |
| `Codec.ClientIgnoresSource` | src/ircmsg/codec.rs:57-97 | a client line with a source in front is read as the line without it, whatever the source |
| `Codec.BlankLineRefused` | src/ircmsg/codec.rs:69-74 | a line of blanks has no kind |
| `Codec.TagsAloneRefused` | src/ircmsg/codec.rs:69-74 | nor has a line of nothing but tags |
| `Codec.HeadStandsInLine` | src/ircmsg/codec.rs:58-97 | the kind that is read stands in the line, right before the text of the arguments |
| `Codec.ParsedServerValid` | src/ircmsg/server.rs:137-153 | whatever parses satisfies the invariants of all types, tags strictly sorted among them, and has no empty host |
| `Codec.ParsedClientValid` | src/ircmsg/client.rs:116-133 | the same for a client's line |
| `Codec.ForwardedServerIff` | src/ircmsg/codec.rs:58-145 | a received message, written again, comes back the same if and only if its tag values survive escaping and no word argument starts with a blank |
| `Codec.ServerCaseIgnored` | src/ircmsg/server.rs:137-153 | lines that differ only in the case of the command parse alike |
| `Codec.ClientCaseIgnored` | src/ircmsg/client.rs:116-133 | the same for a client's line |
| `Codec.BytesLeftExact` | src/ircmsg/codec.rs:100-112 | 510 less the space left is the written size without tags, plus one exactly if there are arguments and the last is not long |
| `Codec.SpaceLeft` | src/ircmsg/codec.rs:100-112 | the accumulated size gives the space left |
| `Stream.Reader.StripEnd` | src/ircmsg/codec.rs:27-55 | the truncating loop strips the line end and finds a line, a fault or nothing |
| `Stream.Reader.Read` | src/ircmsg/codec.rs:7-55 | one read call, over all its rounds: message, time-out, end, fault, and the buffer and stream it leaves |
| `Stream.ReadTowardsLF` | src/ircmsg/codec.rs:7-25 | reading towards the end of a line stops there, or at a time-out before it, and loses nothing |
| `Stream.ReadUntilTakes` | src/ircmsg/codec.rs:7-25 | one read takes a piece of the stream with no line feed but at its end, up to that, its limit, a time-out or the end of the stream |
| `Stream.ScanIs` | src/ircmsg/codec.rs:27-55 | the scan in terms of bytes: a line exactly if it is followed by line ends with a line feed last, too long exactly if the last byte is an ordinary one, a fault for a bare carriage return or a NUL |
| `Stream.CallTakes` | src/ircmsg/codec.rs:7-55 | over all bytes of buffer and stream: a call skips blank lines and decides by the piece after them, as that scan says; a time-out or the end of the stream leaves the piece in the buffer |
| `Stream.ParsesOnlyTerminated` | src/ircmsg/codec.rs:7-55 | a line reaches the parser only if what was taken ends in a line feed |
| `Stream.StuckIffFull` | src/ircmsg/codec.rs:7-55 | after a line found too long every later call fails the same way and takes nothing, whatever the stream holds, if and only if the buffer is full |
| `Stream.CallOnLine` | src/ircmsg/codec.rs:7-55 | a call on a partly buffered line returns its message and an empty buffer, or times out with a longer beginning of it |
| `Stream.ServerStreamIsReadBack` | src/ircmsg/codec.rs:7-55 | any list of fitting server messages is read back in order and unchanged, however time-outs cut the stream |
| `Stream.ClientStreamIsReadBack` | src/ircmsg/codec.rs:7-55 | the same for client messages |
| `Stream.ReadHangsIff` | src/ircmsg/codec.rs:7-55 | a read call never returns if and only if the line it has taken off the stream is such a line |
| `FlatMaps.CanonicalForm` | src/util/flatmap.rs:16-24 | a strictly sorted vector is the only one for its map |
| `FlatMaps.SortByKeySorts` | src/util/flatmap.rs:156-159 | the stable sort sorts |
| `FlatMaps.SortByKeyKeepsMap` | src/util/flatmap.rs:156-159 | stability: sorting keeps which value is the last given for a key |
| `FlatMaps.DedupInPlace` | src/util/flatmap.rs:88-128 | the two-pointer loop over the array leaves exactly the last entry of every run of equal keys |
| `FlatMaps.DedupKeepsMap` | src/util/flatmap.rs:88-128 | deduplication keeps the map |
| `FlatMaps.DedupSorted` | src/util/flatmap.rs:88-128 | deduplicating a sorted vector makes it strictly sorted |
| `FlatMaps.FromVecIsMap` | src/util/flatmap.rs:156-159 | for every vector the result is strictly sorted and holds each key once with the last value given for it |
| `FlatMaps.FromVecIdentity` | src/util/flatmap.rs:156-159 | a strictly sorted vector is left as it is |
| `FlatMapGuards.Lookup` | src/util/flatmap.rs:131-147 | an index found holds the key |
| `FlatMapGuards.LookupCompleteIff` | src/util/flatmap.rs:131-147 | a key that is there is missed exactly if it sits in the suffix below the last key of the prefix |
| `FlatMapGuards.Guard.constructor` | src/util/flatmap.rs:160-163 | an opened guard holds all elements, all sorted |
| `FlatMapGuards.Guard.BinarySearch` | src/util/flatmap.rs:139-139 | the halving loop finds where the key is in the sorted prefix, or where it would go |
| `FlatMapGuards.Guard.GetIdx` | src/util/flatmap.rs:131-147 | binary search of the prefix and a walk through the suffix find what the lookup specifies |
| `FlatMapGuards.Guard.PushBack` | src/util/flatmap.rs:207-234 | the element is appended, and the prefix grows exactly if nothing follows it and the key is greater |
| `FlatMapGuards.Guard.InsertEntry` | src/util/flatmap.rs:235-245 | replaces a found entry and hands it back, or appends |
| `FlatMapGuards.Guard.TryInsertEntry` | src/util/flatmap.rs:246-254 | hands the entry back if its key is found, or appends it |
| `FlatMapGuards.Guard.UpdateEntry` | src/names/types.rs:221-233 | combines the entry with one that is found, or appends it |
| `FlatMapGuards.Guard.RemoveKey` | src/util/flatmap.rs:266-275 | swap removal within the prefix, which ends at the gap; a panic beyond it |
| `FlatMapGuards.Guard.DropGuard` | src/util/flatmap.rs:77-85 | all elements are back, sorted if there was a suffix |
| `FlatMapGuards.LeakedGuardIsSorted` | src/util/flatmap.rs:131-275 | after any sequence of operations the visible prefix of a leaked guard is strictly sorted |
| `FlatMapGuards.InsertExact` | src/util/flatmap.rs:235-245 | an insertion overwrites the map and returns the old entry unless the key is hidden, and then the key is there twice |
| `FlatMapGuards.SessionExact` | src/util/flatmap.rs:235-245 | a session of insertions none of which is hidden overwrites the map by them all |
| `FlatMapGuards.DropExact` | src/util/flatmap.rs:77-85 | dropping a guard with distinct keys gives the strictly sorted vector of the same map |
| `FlatMapGuards.InsertSessionIff` | src/util/flatmap.rs:77-85 | a whole session gives the overwritten map, strictly sorted, if and only if no key was hidden when it was inserted |
| `FlatMapGuards.DistinctNeverHidden` | src/util/flatmap.rs:207-245 | pairwise distinct keys, in any order, are never hidden |
| `FlatMapGuards.InsertSessionDistinct` | src/util/flatmap.rs:235-245 | a session of insertions with pairwise distinct keys, in any order: strictly sorted, overwritten by the entries, and each insertion hands back the old entry of its key |
| `FlatMapGuards.UpdateSessionIsMerge` | src/client/register/handler.rs:476-483 | a session of updates with distinct keys combines each entry with the one that is there and adds the others, strictly sorted |
| `FlatMapGuards.TrySessionAdds` | src/client/register/handler.rs:470-475 | a session of `try_insert` with distinct keys keeps what is known and adds the rest, strictly sorted |
| `FlatMapGuards.TryInsertReturns` | src/util/flatmap.rs:246-254 | `try_insert` hands the entry back exactly if its key is known |
| `FlatMapGuards.AscendingStaysSorted` | src/util/flatmap.rs:207-245 | keys beyond the last one, given in ascending order, join the sorted prefix, so that nothing is left to sort |
| `FlatMapGuards.RepeatedKeyIsKept` | src/util/flatmap.rs:139-145 | a concrete session whose repeated key is hidden the second time and ends up in the closed vector twice |
| `FlatMapGuards.RemoveExactIff` | src/util/flatmap.rs:266-275 | a removal takes exactly its key out of the map if and only if there is no unsorted suffix |
| `FlatMapGuards.RemoveSession` | src/util/flatmap.rs:266-275 | opening, removing one key, there or not, and dropping is map removal, and finds the key exactly if it is there |
| `FlatMapGuards.RemoveReturns` | src/util/flatmap.rs:266-275 | from a closed map a removal hands out the entry of its key |
| `FlatMapGuards.RemoveKeepsBelow` | src/util/flatmap.rs:266-275 | a removal puts the end of the sorted prefix exactly at its key: the smaller keys stay before it, untouched |
| `FlatMapGuards.RemoveAllPanicsIff` | src/client/register/handler.rs:487-493 | removing ascending keys in one session panics if and only if two of them are there |
| `FlatMapGuards.RemoveAllExact` | src/client/register/handler.rs:487-493 | unless it panics, removing ascending keys in one session is map removal |
| `Sasl.Handler.constructor` | src/client/auth/handler.rs:109-111 | starts with one authenticator and a queue |
| `Sasl.Handler.React` | src/client/auth/handler.rs:164-194 | a complete challenge: the reply goes out, or authentication fails, or another authenticator takes over |
| `Sasl.Handler.RetainInQueue` | src/client/auth.rs:99-103 | keeps exactly the supported authenticators, in order |
| `Sasl.Handler.RetainSupported` | src/client/auth/handler.rs:136-146 | tells apart going on, another authenticator taking over from the front of the kept queue, and none being left |
| `Sasl.Handler.HandleMsg` | src/client/auth/handler.rs:151-245 | one server message: new queue, current authenticator and decoder, what is sent, and the verdict |
| `Sasl.StepShrinks` | src/client/auth/handler.rs:151-245 | a switch takes the next authenticator from the queue and strictly shrinks it; nothing ever joins the queue |
| `Sasl.TriedInOrder` | src/client/auth/handler.rs:151-245 | over every run, the authenticators tried and those still waiting form a subsequence of the initial queue |
| `Sasl.NoneForgotten` | src/client/auth/handler.rs:151-245 | over every run an authenticator leaves the queue only by being tried, by sharing the name of a mechanism whose reply failed, or by missing from a list of mechanisms |
| `Sasl.StartsCleanIff` | src/client/auth/handler.rs:158-208 | an authenticator turned to starts with an empty decoder if and only if no rejection has cut a challenge short |
| `Sasl.LeftoverIsDecoded` | src/client/auth/handler.rs:197-204 | a run in which the chunk meant for one authenticator is decoded as the challenge to the next |
| `Sasl.FailedNameNotTriedAgain` | src/client/auth/handler.rs:172-187 | a mechanism whose reply failed is never turned to again under that name |
| `Sasl.UnlistedNotTried` | src/client/auth/handler.rs:222-239 | after a list of mechanisms exactly those on it still wait, and nothing else is turned to in any run after it |
| `Sasl.GivesUpOnlyAtTheEnd` | src/client/auth/handler.rs:164-238 | Fail and Unsupported come only with an empty queue; a failure with authenticators waiting comes exactly from undecodable base64 or 905 |
| `Sasl.SucceedsExactly` | src/client/auth/handler.rs:239-241 | authentication succeeds exactly on 900, 903 and 907 |
| `Sasl.FailsExactly` | src/client/auth/handler.rs:164-238 | the exact condition of each failure |
| `Sasl.SendsExactly` | src/client/auth/handler.rs:158-220 | the exact condition of each message sent: the reply, an abort where there is none, the name of the authenticator at hand after a rejection or an acknowledged abort |
| `Sasl.CurrentIsTold` | src/client/auth/handler.rs:151-245 | over every run the server has been told the authenticator at hand, unless an abort is still to be acknowledged |
| `Register.StepKeeps` | src/client/register/handler.rs:242-515 | every step that goes on keeps the invariant tying the phase to what was sent and received, and never moves back |
| `Register.RunKeeps` | src/client/register/handler.rs:242-515 | over every run the phase only moves forward in the order Req, Ack, Sasl, AwaitWelcome, AwaitEnd |
| `Register.StepSends` | src/client/register/handler.rs:505-513 | a failing step sends neither request nor CAP END, and CAP END is sent only with a needed login present |
| `Register.NegotiatesOnce` | src/client/register/handler.rs:424-513 | over every run CAP REQ and CAP END go out at most once, `sts` is never requested, nothing is requested that was not offered, and no step ends in CapEnd or Broken |
| `Register.PendingIsExact` | src/client/register/handler.rs:186-216 | the pending set is non-empty and equals requested less acknowledged; SASL begins only once `sasl` was requested and acknowledged |
| `Register.AckedExactly` | src/client/register/handler.rs:186-216 | waiting ends exactly with the ACK that completes the requested set; a NAK fails exactly if it names a pending capability and else changes nothing |
| `Register.DoneExactly` | src/client/register/handler.rs:371-378 | registration is done exactly at the end of the message of the day in AwaitEnd |
| `Register.SuccessAfterWelcome` | src/client/register/handler.rs:273-417 | success comes only after a 001, with the account of the last 900 not followed by 901; with a login needed and no 901 after the 001 there is an account |
| `Register.NoEndWithoutLogin` | src/client/register/handler.rs:505-513 | with a login needed, no step sends CAP END or enters AwaitEnd without an account, and a 001 without one fails |
| `Register.LoginEnforcedIff` | src/client/register.rs:111-113 | the caller's wish for a login is honoured over all runs if and only if there is no authenticator |
| `Register.NoAuthenticatorNoList` | src/client/register/handler.rs:430-448 | where the wish counts, the end of the capability list always fails |
| `Negotiation.ListIsAnswered` | src/client/register/handler.rs:424-468 | at any point before it, the end of the list is answered exactly: NoLogin, MissingCaps with what is wanted and not offered, one request for all that is wanted except `sts`, or CAP END if that is nothing |
| `Negotiation.RequestIsWanted` | src/client/register/handler.rs:424-468 | over every run the requested set is what the caller requires of the offer, and `sasl` if an authenticator can be used, except `sts` |
| `Negotiation.CompleteAckAnswered` | src/client/register/handler.rs:186-216 | the acknowledgement that completes the set starts SASL with the first authenticator that can be used, named to the server, or ends negotiation if there is none |
| `Negotiation.RefusalNamed` | src/client/register/handler.rs:484-493 | a NAK or DEL that names a pending capability fails with exactly those; a DEL of others only forgets them |
| `Negotiation.SaslIsARun` | src/client/register/handler.rs:254-271 | in Sasl, registration has made the SASL handler go through exactly what came since it began |
| `Negotiation.SaslSpeaks` | src/client/register/handler.rs:254-271 | exactly what the SASL handler sends is sent for it |
| `Negotiation.SaslAnswers` | src/client/register/handler.rs:254-271 | which numeric of SASL is answered by which AUTHENTICATE: the next name, the same name again, the reply or the abort |
| `Negotiation.SaslOverIff` | src/client/register/handler.rs:254-271 | the messages that end SASL, exactly |
| `Negotiation.SaslEnds` | src/client/register/handler.rs:254-271 | a message that ends SASL ends negotiation with exactly one CAP END, or fails for want of a login or for what the message brings |
| `Negotiation.LoginEndsSasl` | src/client/register/handler.rs:254-271 | 900, 903 and 907 are such messages |
| `Negotiation.PongsAndNicks` | src/client/register/handler.rs:250-253 | PONG is sent exactly for a PING, which does nothing else, and a nick exactly for a refused one, with NoNicks if there is none left |
| `Negotiation.ServerErrorsExactly` | src/client/register/handler.rs:320-390 | which messages end registration as an error of the server |
| `Negotiation.BrokenExactly` | src/client/register/handler.rs:273-497 | which messages end registration as broken, and that a greeting without a needed login ends it for that |
| `Register.WishEndsAtList` | src/client/register.rs:111-113 | so the wish for a login, where it counts, lets no registration get beyond the list |
| `Register.OfferIsSession` | src/client/register/handler.rs:470-475 | on the vector that holds the capabilities, the session of an LS or NEW does what the model's map does |
| `Register.EnableIsSession` | src/client/register/handler.rs:476-483 | so does the session of an ACK |
| `Register.DelIsSession` | src/client/register/handler.rs:487-493 | so does the session of a DEL, which panics if and only if two of the capabilities named are known |
| `Register.Handler.constructor` | src/client/register/handler.rs:228-241 | starts in Req without account or known capabilities |
| `Register.Handler.TryInsertAll` | src/client/register/handler.rs:425-429 | the loop adds the named capabilities that are new and leaves the others alone |
| `Register.Handler.EnableAll` | src/client/register/handler.rs:476-483 | the loop enables every named capability and keeps known values |
| `Register.Handler.Acked` | src/client/register/handler.rs:186-216 | an ACK, NAK or DEL in place: new phase, what is sent, what is missing |
| `Register.Handler.LastOffer` | src/client/register/handler.rs:430-468 | the end of the list in place: usable authenticators, requested set, errors |
| `Register.Handler.HandleCap` | src/client/register/handler.rs:419-497 | every CAP subcommand in place, the panic of a double deletion included |
| `Register.Handler.RunSasl` | src/client/register/handler.rs:254-271 | the nested SASL handler sees the message; any end of it ends negotiation |
| `Register.Handler.Dispatch` | src/client/register/handler.rs:272-504 | the match on the message kind in place |
| `Register.Handler.HandleMsg` | src/client/register/handler.rs:242-515 | one whole step in place is the step of the state machine |
| `CapLists.Req` | src/client/cap.rs:21-51 | the loop sends the messages of the packing, the last list always, even if empty |
| `CapLists.PackKeepsAll` | src/client/cap.rs:21-51 | the lists sent, one after another, are exactly the capabilities given |
| `CapLists.PackFits` | src/client/cap.rs:34-49 | every list of more than one capability keeps to the room computed beforehand |
| `CapLists.PackGreedy` | src/client/cap.rs:34-49 | no list is cut short: the first capability of the next would not have fitted |
| `CapLists.ReplyFits` | src/client/cap.rs:27-33 | with a known server, the answer to any list of more than one capability fits in 508 of the 510 bytes |
| `CapLists.RoomExact` | src/client/cap.rs:27-33 | the room for a list in numbers, with and without a known server |
| `CapLists.RequestComesBack` | src/client/cap.rs:27-51 | a request comes back from its written form as CAP with REQ and its list |
| `CapLists.RequestNames` | src/client/cap.rs:34-51 | and the list names exactly the capabilities asked for |
| `CapLists.ParseWord` | src/client/cap.rs:143-157 | one word of a list is a capability, with or without value, or is skipped |
| `CapLists.ParseCaps` | src/client/cap.rs:141-159 | the loop reads a list into a map, the last value given for a name winning |
| `CapLists.ListRoundTripIff` | src/client/cap.rs:141-159 | a listed sequence of capabilities reads back, in order and with values, if and only if no name starts with a tab or form feed |
| `CapLists.ReadCapIff` | src/client/cap.rs:143-157 | a word is read as a capability if and only if it is a name, or a name, an equals sign and a value |
| `CapLists.EchoNames` | src/client/cap.rs:141-159 | an answer repeating a request's list is read as naming exactly its capabilities |
| `Parker.InvStep` | src/client/handler/channel/parker.rs:32-105 | every atomic action keeps the invariant of pointer, counts, tokens and signals |
| `Parker.InvRun` | src/client/handler/channel/parker.rs:32-105 | so does every interleaving |
| `Parker.NoLostWakeup` | src/client/handler/channel/parker.rs:32-105 | in every interleaving a thread blocked without a token has a wake-up on its way, or an unparker is alive, can find it, and nobody has signalled |
| `Parker.SignalSkipsNextPark` | src/client/handler/channel/parker.rs:51-105 | a signal given while nobody parks makes the next `park` return without blocking |
| `Parker.ParkMakesProgress` | src/client/handler/channel/parker.rs:80-105 | every action of the parking thread brings it closer to returning, others do not move it, and it can act unless blocked without a token |
| `Parker.BlockedThreadGetsOut` | src/client/handler/channel/parker.rs:32-105 | a blocked thread that was signalled or that nobody is left to signal gets out within five actions |
| `Oneshot.OnceStep` | src/client/handler/channel/oneshot.rs:62-175 | every action keeps that value cell, Once, receiver flag and answers agree |
| `Oneshot.WaitStep` | src/client/handler/channel/oneshot.rs:62-175 | every action keeps that a waiting receiver will be woken when it has reason to return |
| `Oneshot.InvRun` | src/client/handler/channel/oneshot.rs:62-175 | so does every interleaving |
| `Oneshot.AtMostOneAccepted` | src/client/handler/channel/oneshot.rs:126-175 | in every interleaving at most one `send` is accepted, and what the receiver finds in the end is exactly that value, or nothing |
| `Oneshot.OwnValueBack` | src/client/handler/channel/oneshot.rs:162-175 | every answer is about the value that this sender was given |
| `Oneshot.HandedBackForAReason` | src/client/handler/channel/oneshot.rs:162-175 | in every interleaving a value is handed back only if the receiver has closed or another sender's value was accepted |
| `Oneshot.OpenReceiverAcceptsOne` | src/client/handler/channel/oneshot.rs:162-175 | as long as the receiver has not closed, exactly one `send` is accepted once any is answered |
| `Oneshot.NoneBeginsAfterClose` | src/client/handler/channel/oneshot.rs:126-175 | once the receiver has closed, no `send` that begins is accepted |
| `Oneshot.ValueIsDelivered` | src/client/handler/channel/oneshot.rs:126-175 | any value can be delivered to a receiver that blocks for it |
| `Oneshot.ReceiverCanAct` | src/client/handler/channel/oneshot.rs:126-155 | in every reachable state the receiver is done, blocked without a token, waiting for a sender that can write, or able to act |
| `Oneshot.SenderCanAct` | src/client/handler/channel/oneshot.rs:162-175 | a sender in the middle of a `send` can act, unless it waits for another that can |
| `Oneshot.NothingOnlyIfAllDropped` | src/client/handler/channel/oneshot.rs:147-155 | without spurious wake-ups `recv` returns nothing only after every wrapped sender was dropped with none accepted |
| `Oneshot.BlockedOnlyWithoutReason` | src/client/handler/channel/oneshot.rs:147-155 | once a value was accepted or no sender is left, a blocked `recv` has its token or some sender is about to give it |
| `Oneshot.ReadyReceive` | src/client/handler/channel/oneshot.rs:147-152 | a receive that finds a value there never parks, and one that finds none begins to |
| `Oneshot.SpuriousWakeupEndsWait` | src/client/handler/channel/oneshot.rs:147-155 | a run in which a spurious wake-up makes `recv` return nothing while its sender is ready |
| `Oneshot.RefineStep` | src/client/handler/channel/parker.rs:32-105 | every action of the channel is an action of the parker's own machine or leaves it alone |
| `Oneshot.RunRefinesParker` | src/client/handler/channel/parker.rs:32-105 | every run of the channel is a run of the parker |
| `Oneshot.NoLostWakeup` | src/client/handler/channel/oneshot.rs:147-155 | the parker's guarantee carried over: a receiver blocked without a token has a wake-up on its way, or a live sender that finds it in the pointer |
| `RateLimit.Queue.constructor` | src/client/queue.rs:62-75 | the given messages and the default limit of two seconds with an allowance of eight |
| `RateLimit.Queue.SetRateLimit` | src/client/queue.rs:90-99 | the new delay and allowance, and the most pessimistic time point |
| `RateLimit.Queue.Push` | src/client/queue.rs:212-215 | the message joins the end of the queue |
| `RateLimit.Queue.Pop` | src/client/queue.rs:105-121 | lets the first message go and charges the virtual time, or leaves everything unchanged and reports a positive wait or emptiness |
| `RateLimit.ChargedBy` | src/client/queue.rs:105-121 | over every run, each message let go is charged to the virtual time |
| `RateLimit.SpacedOut` | src/client/queue.rs:105-121 | between any two successful pops pass as many delays as messages, less the allowance, whatever is pushed and however the clock reads |
| `RateLimit.PopsSpan` | src/client/queue.rs:90-121 | any n successful pops span at least n - 1 - burst delays |
| `RateLimit.WaitIsExact` | src/client/queue.rs:100-121 | a pop succeeds once the reported wait has passed and not before |
| `RateLimit.WaitAtMostDelay` | src/client/queue.rs:90-121 | on a clock that does not go back no wait exceeds one delay |
| `RateLimit.BurstTime` | src/client/queue.rs:105-121 | messages let go at one instant are charged one delay each |
| `RateLimit.BurstIsExact` | src/client/queue.rs:85-99 | after an idle time exactly one message plus the burst can leave at one instant |
| `RateLimit.FirstWait` | src/client/queue.rs:90-99 | below saturation the first message after setting a limit waits for exactly one delay |
| `RateLimit.ConfiguredBurst` | src/client/queue.rs:85-99 | below saturation the burst that was configured, and no more, can leave at one instant after an idle time |
| `HandlerTable.Handlers.constructor` | src/client/handler.rs:156-167 | an empty table |
| `HandlerTable.Handlers.Add` | src/client/handler.rs:170-181 | the new id is unused, the last freed one if there is one, else the next number |
| `HandlerTable.Handlers.Position` | src/client/handler.rs:193-193 | finds a handler with the id, or that there is none |
| `HandlerTable.Handlers.CancelOne` | src/client/handler.rs:192-200 | swaps out the handler with the id and frees the id; fails exactly for an id that is not live, where the original panics |
| `HandlerTable.Handlers.Cancel` | src/client/handler.rs:202-208 | empties the table |
| `HandlerTable.Handlers.Handle` | src/client/handler.rs:218-247 | the loop with swap removal runs the specified pass, whatever the handlers do; reported ids, freed ids and ownership wish are those of the pass |
| `HandlerTable.PassIsPlay` | src/client/handler.rs:218-247 | a pass comes to calling every handler once, one after another in some order, each in the environment the one before it left: same results, same environment, same handlers left |
| `HandlerTable.OrderOfStayers` | src/client/handler.rs:218-247 | if nobody finishes, the order is that of the table |
| `HandlerTable.ReportIs` | src/client/handler.rs:218-247 | an id is reported as yielded or finished, and messages are to be kept, exactly if a turn says so |
| `HandlerTable.Handlers.LastRunResults` | src/client/handler.rs:213-216 | the ids that yielded, and those freed since the given point |
| `HandlerTable.Handlers.HasResults` | src/client/handler.rs:209-211 | there is something to report exactly if an id yielded or one was freed since the given point |
| `HandlerTable.HandleAndReport` | src/client/conn/tokio.rs:200-208 | a pass and its report: exactly the ids that yielded and those that finished in that pass, in order, and whether there are any |
| `HandlerTable.EveryHandlerOnce` | src/client/handler.rs:218-247 | despite the swapping every handler present gets exactly one turn |
| `HandlerTable.StayersStay` | src/client/handler.rs:218-247 | afterwards exactly the handlers that did not finish are left |
| `HandlerTable.PassKeepsPartition` | src/client/handler.rs:218-247 | a pass keeps live and freed ids together the first numbers, each once |
| `HandlerTable.PartitionFree` | src/client/handler.rs:192-201 | so does a cancellation |
| `HandlerTable.PartitionAdd` | src/client/handler.rs:170-181 | so does an addition, whose id was not live |
| `HandlerTable.PartitionIsInitialSegment` | src/client/handler.rs:170-247 | every number below k is live or freed, never both, and no other number is either |
| `Base64Chunks.ChunkEncoder.constructor` | src/string/base64.rs:21-37 | all chunks of the text are to come, none for size zero |
| `Base64Chunks.ChunkEncoder.Len` | src/string/base64.rs:85-97 | the length reported is the number of chunks to come |
| `Base64Chunks.ChunkEncoder.Next` | src/string/base64.rs:57-77 | yields the next chunk, after which exactly the later ones are to come |
| `Base64Chunks.ChunkDecoder.AddChunk` | src/string/base64.rs:116-127 | collects a full chunk, or answers with the collected text and is left empty |
| `Base64Chunks.ChunkCount` | src/string/base64.rs:85-97 | there are length / size + 1 chunks |
| `Base64Chunks.FullButLast` | src/string/base64.rs:57-75 | chunk k is the k-th full slice of the text, the last one the rest or a plus sign |
| `Base64Chunks.ChunkIsArg` | src/string/base64.rs:57-75 | every chunk of base64 text can be sent as an argument, so the unwrap does not panic |
| `Base64Chunks.FeedChunks` | src/string/base64.rs:57-136 | fed all chunks, the decoder is silent until the last, answers the text less a lone plus at its end, and is left empty |
| `Base64Chunks.AnswersOnLastChunk` | src/string/base64.rs:57-136 | the answer comes with the last chunk and no other |
| `Base64Chunks.ChunksRoundTripIff` | src/string/base64.rs:57-136 | the decoder undoes the encoder if and only if the size is at least two and the last chunk is not a lone plus of the text |
| `Base64Chunks.PaddedRoundTrip` | src/string/base64.rs:57-136 | padded base64 in chunks of a multiple of four always arrives |
| `NickSuffix.SuffixGen.constructor` | src/client/nick/suffix.rs:123-154 | the saturating sum of variances is the limit |
| `NickSuffix.SuffixGen.Turn` | src/client/nick/suffix.rs:181-192 | one round of the loop: what it appends and what it leaves of the count |
| `NickSuffix.SuffixGen.CalcNext` | src/client/nick/suffix.rs:177-196 | the loop appends the mixed-radix digits of the count |
| `NickSuffix.SuffixGen.Peek` | src/client/nick/suffix.rs:208-210 | what is peeked is the first nick to come |
| `NickSuffix.SuffixGen.NextNick` | src/client/nick/suffix.rs:200-206 | yields the first nick to come and drops the generator exactly with the last |
| `NickSuffix.Drain` | src/client/nick/suffix.rs:200-206 | asking until the generator is used up gives exactly the nicks that were to come |
| `NickSuffix.YieldAll` | src/client/nick/suffix.rs:145-206 | the nicks of a fresh generator, of which the lemmas on repetition speak: exactly as many as its limit says if and only if the variances do not add up to zero, else the bare prefix 256 times |
| `NickSuffix.EmptyChoiceWrapsAround` | src/client/nick/suffix.rs:200-206 | an empty choice alone makes the bare prefix come 256 times |
| `NickSuffix.DigitsAreUniform` | src/client/nick/suffix.rs:33-59 | the texts of every type but a choice are equally long, not empty and all different, the gaps in the hexadecimal ones included |
| `NickSuffix.VarianceIsAll` | src/client/nick/suffix.rs:60-72 | the variance counts every text a digit type has: whatever the number, the text is one of the wheel |
| `NickSuffix.SingleSuffixYieldsWheel` | src/client/nick/suffix.rs:129-193 | a single suffix yields each of its texts once, in order |
| `NickSuffix.HexDigitIff` | src/client/nick/suffix.rs:39-50 | what is appended as a hexadecimal digit is one exactly for digits up to nine |
| `NickSuffix.ChoiceIsUniform` | src/client/nick/suffix.rs:51-55 | so are those of a choice of equally long, different options |
| `NickSuffix.ChoiceWheel` | src/client/nick/suffix.rs:51-70 | counting through a choice offers its first 255 options, in order, and no more |
| `MixedRadix.SpellInjective` | src/client/nick/suffix.rs:177-193 | as far as the positions used tell their places apart, the text determines the count |
| `MixedRadix.ReachedRepeats` | src/client/nick/suffix.rs:177-193 | the first count that reaches a position with nothing on it has the text of an earlier count |
| `MixedRadix.NoneTwiceIff` | src/client/nick/suffix.rs:177-193 | up to a limit no text comes twice if and only if no position with nothing on it is reached behind something that counts |
| `MixedRadix.NextRound` | src/client/nick/suffix.rs:177-193 | the second position moves on when the first has been all the way round |
| `NickSuffix.FirstSuffixFirst` | src/client/nick/suffix.rs:100-104 | first come the values of the first suffix, in order |
| `NickSuffix.FrontSuffixesFirst` | src/client/nick/suffix.rs:100-104 | then those of the first two, and so on |
| `NickSuffix.Underscores` | src/client/nick/suffix.rs:100-104 | suffixing with more and more underscores is a list of underscores |
| `NickSuffix.DistinctIff` | src/client/nick/suffix.rs:145-210 | a generator yields no nick twice if and only if its limit is not zero and no illegal character stands behind something that counts and within reach of the limit |
| `NickSuffix.DistinctIffWithoutChoice` | src/client/nick/suffix.rs:145-210 | for lists without a choice: no nick comes twice if and only if every illegal character is the first entry or beyond the reach of the limit |
| `NickSuffix.AllDistinct` | src/client/nick/suffix.rs:145-210 | with legal characters, choices of equally long, different options and a limit that is not zero, no nick comes twice |
| `NickSuffix.IllegalCharRepeats` | src/client/nick/suffix.rs:57-57 | a digit and then a space makes a generator repeat a nick, a space and then a digit does not |
| `NickSuffix.AlwaysANick` | src/client/nick/suffix.rs:33-59 | whatever is appended, the result is a nick |

## Left out

- Sockets, TLS, Tokio and the connection loops: the stream is a sequence of bytes and time-outs.
- `tokio_codec`: the slice it splits off still holds the line terminator, so no round trip is claimed.
- Memory ownership and reclamation, reference counts beyond the parker's, and weak memory orderings: atomic actions are sequentially consistent.
- UTF-8 tracking, secrecy flags, serde and formatting.
- The base64 engine: `Base64Chunks` starts from encoded text and ends with the text to decode.
- The clock: every reading is a parameter, in whole nanoseconds.
- RateLimit.Queue.SetRateLimit: does not model the fallback to the present when a time point overflows, because time points are unbounded here.
- Tags.ParseTagList: reports a round without progress instead of going on for ever, as the original does; when that happens is `Tags.ParseReturnsIff`.
- Codec.SpaceLeft: does not model the width of machine integers.
- `ArgsEditGuard` beyond `add`, and `Args::set`: easy members beside the parser and writer.
- FlatMapGuards.Guard.UpdateEntry: does not model references into the vector; the change that the caller of `get_or_insert` makes to an entry found is modelled instead. For an entry that is appended, src/util/flatmap.rs:230-233 computes the reference after advancing `real_len`, so it is one past the new element; no caller in the modelled code uses it.
- `Queue`'s labeler, adjuster and edit guard beyond pushing: they do not touch the limiter.
- Sasl.Handler.HandleMsg: what the base64 engine and an authenticator's own logic make of a complete challenge comes with the message; contents of replies are not modelled, only their number of chunks.
- Register.Handler.Dispatch: keeps the same data as `Register.Handler.HandleMsg`, no more.
- Register.Handler.HandleMsg: nick, source, host and ISUPPORT data are not kept; which nick a generator offers next, and whether the address in a 900 or 901 parses, come with the message. Redirections count as server errors. The request burst is one message carrying the set that `CapLists.Req` spreads over lines.
- Register.Handler.HandleCap: the capability map is a plain map, as which the vector acts in these sessions (`Register.OfferIsSession`, `Register.EnableIsSession`, `Register.DelIsSession`). What a panic leaves behind is not modelled.
- `ServerMsgArgs::combine` and the conversions of `SubCmd`: easy members.
- The random suffix strategy and its seed.
- NickSuffix.DistinctIff: does not cover lists with a choice whose options differ in length or repeat, because whether such nicks collide depends on the concatenated texts.
- NickSuffix.SuffixGen.NextNick: a limit of zero wraps around as in release builds; debug builds panic there.
- src/state/mode.rs, name constants, ISUPPORT values, `AutoPong` and `YieldParsed`: finite tables and thin wrappers.
