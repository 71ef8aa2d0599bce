/** Message sources, also known as prefixes (src/ircmsg/source.rs). */
module Sources {
  import opened Strings
  import opened Splitters
  import opened Tags

  /** Why a message does not parse. */
  datatype ParseError =
    | TooLong
    | InvalidLine(e: InvalidString)
    | InvalidNick(e: InvalidString)
    | InvalidUser(e: InvalidString)
    | InvalidHost(e: InvalidString)
    | InvalidKind(e: InvalidString)

  /** What a parse comes to; `Diverges` stands for a call that never returns. */
  datatype Outcome<+T> = Good(value: T) | Bad(error: ParseError) | Diverges

  datatype UserHost = UserHost(user: Option<Bytes>, host: Bytes)

  datatype Source = Source(nick: Bytes, userhost: Option<UserHost>)

  /** The invariant of the `Source` type. */
  ghost predicate ValidSource(src: Source) {
    && Is(Nick, src.nick)
    && (src.userhost.Some? ==>
          && Is(Word, src.userhost.value.host)
          && (src.userhost.value.user.Some? ==> Is(User, src.userhost.value.user.value)))
  }

  function UserHostText(uh: UserHost): Bytes {
    match uh.user
    case Some(user) => [BANG] + user + [AT] + uh.host
    case None => [AT] + uh.host
  }

  function SourceText(src: Source): Bytes {
    match src.userhost
    case Some(uh) => src.nick + UserHostText(uh)
    case None => src.nick
  }

  function SourceLen(src: Source): nat {
    match src.userhost
    case None => |src.nick|
    case Some(uh) => |src.nick| + 1 + (if uh.user.Some? then |uh.user.value| + 1 + |uh.host| else |uh.host|)
  }

  function ParseUserHost(s: Bytes): Outcome<UserHost> {
    var n := Find(s, At(AT));
    match PeekStringOf(s[..n], User, true)
    case Err(e) => Bad(InvalidUser(e))
    case Ok(user) =>
      var host := AfterByte(s[n..]);
      if host == [] then Bad(InvalidHost(Empty)) else Good(UserHost(Some(user), host))
  }

  function ParseSource(s: Bytes): Outcome<Source> {
    match PeekStringOf(s, Nick, false)
    case Err(e) => Bad(InvalidNick(e))
    case Ok(nick) =>
      var r := s[|nick|..];
      if r != [] && r[0] == BANG then
        match ParseUserHost(r[1..])
        case Good(uh) => Good(Source(nick, Some(uh)))
        case Bad(e) => Bad(e)
        case Diverges => Diverges
      else if r != [] && r[0] == AT then
        if r[1..] == [] then Bad(InvalidHost(Empty))
        else Good(Source(nick, Some(UserHost(None, r[1..]))))
      else Good(Source(nick, None))
  }

  method ReadUserHost(word: Bytes) returns (r: Outcome<UserHost>)
    ensures r == ParseUserHost(word)
  {
    var splitter := new Splitter(word);
    var saved := splitter.SaveEnd();
    splitter.UntilByteEq(AT);
    var user := splitter.String(User, true);
    splitter.RestoreEnd(saved);
    if user.Err? { return Bad(InvalidUser(user.error)); }
    var _ := splitter.NextByte();
    var host := splitter.TakeRest();
    r := if host == [] then Bad(InvalidHost(Empty)) else Good(UserHost(Some(user.value), host));
  }

  method ReadSource(word: Bytes) returns (r: Outcome<Source>)
    ensures r == ParseSource(word)
  {
    var splitter := new Splitter(word);
    var nick := splitter.String(Nick, false);
    if nick.Err? { return Bad(InvalidNick(nick.error)); }
    var b := splitter.NextByte();
    if b == Some(BANG) {
      var rest := splitter.TakeRest();
      var uh := ReadUserHost(rest);
      match uh {
        case Good(uh) => r := Good(Source(nick.value, Some(uh)));
        case Bad(e) => r := Bad(e);
        case Diverges => r := Diverges;
      }
    } else if b == Some(AT) {
      var host := splitter.TakeRest();
      r := if host == [] then Bad(InvalidHost(Empty))
           else Good(Source(nick.value, Some(UserHost(None, host))));
    } else {
      r := Good(Source(nick.value, None));
    }
  }

  method WriteSource(src: Source, w: Bytes) returns (out: Bytes)
    ensures out == w + SourceText(src)
  {
    out := w + src.nick;
    if src.userhost.Some? {
      var uh := src.userhost.value;
      if uh.user.Some? {
        out := out + [BANG];
        out := out + uh.user.value;
      }
      out := out + [AT];
      out := out + uh.host;
    }
  }

  /** A written source is a non-empty `Word` of the announced length. */
  lemma {:induction false} SourceTextIsWord(src: Source)
    requires ValidSource(src)
    ensures Is(Word, SourceText(src)) && SourceText(src) != []
    ensures |SourceText(src)| == SourceLen(src)
  {
  }

  lemma {:induction false} UserHostOfWritten(user: Bytes, host: Bytes)
    requires Is(User, user)
    ensures ParseUserHost(user + [AT] + host) ==
            if host == [] then Bad(InvalidHost(Empty)) else Good(UserHost(Some(user), host))
  {
    var s := user + [AT] + host;
    assert s == user + ([AT] + host);
    FindAppend(user, [AT] + host, At(AT));
    assert s[..|user|] == user && s[|user|..] == [AT] + host && ([AT] + host)[1..] == host;
    FindAppend(user, [], Outside(User));
    assert user + [] == user;
  }

  /** A written source parses back to itself if and only if it has no host or a non-empty one;
      with an empty host it is rejected. */
  lemma {:induction false} SourceRoundTripIff(src: Source)
    requires ValidSource(src)
    ensures ParseSource(SourceText(src)) ==
            if src.userhost.Some? && src.userhost.value.host == [] then Bad(InvalidHost(Empty))
            else Good(src)
  {
    var s := SourceText(src);
    match src.userhost {
      case None =>
        FindAppend(s, [], Outside(Nick));
        assert s + [] == s;
      case Some(uh) =>
        var tail := UserHostText(uh);
        FindAppend(src.nick, tail, Outside(Nick));
        assert s[..|src.nick|] == src.nick && s[|src.nick|..] == tail;
        match uh.user {
          case None => assert tail[1..] == uh.host;
          case Some(user) =>
            assert tail[1..] == user + [AT] + uh.host;
            UserHostOfWritten(user, uh.host);
        }
    }
  }

  /** A source that parses was written out in full, with a host that is not empty if there is one. */
  lemma {:induction false} ParsedSourceText(s: Bytes)
    requires Is(Word, s)
    ensures ParseSource(s).Good? ==>
              var src := ParseSource(s).value;
              && ValidSource(src) && SourceText(src) == s
              && (src.userhost.Some? ==> src.userhost.value.host != [])
  {
    var n := Find(s, Outside(Nick));
    if ParseSource(s).Good? { ParsedTail(s, n); }
  }

  /** What follows the nick. */
  lemma {:induction false} ParsedTail(s: Bytes, n: nat)
    requires Is(Word, s) && n == Find(s, Outside(Nick)) && ParseSource(s).Good?
    ensures var src := ParseSource(s).value;
            && ValidSource(src) && SourceText(src) == s
            && (src.userhost.Some? ==> src.userhost.value.host != [])
  {
    var r := s[n..];
    assert s == s[..n] + r;
    if r != [] {
      RestOfWord(s, n);
      if r[0] == BANG {
        ParsedUserHostText(r[1..]);
        FullText(s[..n], r[1..]);
      }
    } else {
      assert s[..n] + r == s[..n];
    }
  }

  lemma {:induction false} RestOfWord(s: Bytes, n: nat)
    requires Is(Word, s) && n == Find(s, Outside(Nick)) < |s|
    ensures s[n..] == [s[n]] + s[n..][1..] && Is(Word, s[n..][1..]) && (s[n] == BANG || s[n] == AT)
  {
    assert IsInvalid(Nick, s[n]) && !IsInvalid(Word, s[n]);
  }

  lemma {:induction false} FullText(nick: Bytes, rest: Bytes)
    requires ParseUserHost(rest).Good?
    requires var uh := ParseUserHost(rest).value;
             uh.user.Some? && rest == uh.user.value + [AT] + uh.host
    ensures SourceText(Source(nick, Some(ParseUserHost(rest).value))) == nick + ([BANG] + rest)
  {
    var uh := ParseUserHost(rest).value;
    Assoc([BANG], uh.user.value, [AT]);
    Assoc([BANG], uh.user.value + [AT], uh.host);
  }

  lemma {:induction false} ParsedUserHostText(s: Bytes)
    requires Is(Word, s)
    ensures ParseUserHost(s).Good? ==>
              var uh := ParseUserHost(s).value;
              && uh.user.Some? && Is(User, uh.user.value) && Is(Word, uh.host) && uh.host != []
              && s == uh.user.value + [AT] + uh.host
  {
    var n := Find(s, At(AT));
    if ParseUserHost(s).Good? {
      assert s[n..] == [AT] + s[n + 1..] && s == s[..n] + s[n..];
    }
  }

  /** Exactly the texts of valid sources without an empty host parse. */
  lemma {:induction false} SourceParsesIff(s: Bytes)
    requires Is(Word, s)
    ensures ParseSource(s).Good? <==>
            exists src :: ValidSource(src) && SourceText(src) == s
                          && (src.userhost.Some? ==> src.userhost.value.host != [])
  {
    ParsedSourceText(s);
    forall src | ValidSource(src) && SourceText(src) == s && (src.userhost.Some? ==> src.userhost.value.host != [])
      ensures ParseSource(s).Good?
    {
      SourceRoundTripIff(src);
    }
  }

  // ---------------------------------------------------------------------------
  // Errors

  lemma {:induction false} PeekFails(s: Bytes, t: StrType)
    ensures PeekStringOf(s, t, true) == Err(Empty) <==> s == [] && !Is(t, s)
    ensures PeekStringOf(s, t, true) == Err(Colon) <==>
            s != [] && s[0] == COLON && !Is(t, s) && forall i | 0 <= i < |s| :: !IsInvalid(t, s[i])
    ensures forall b :: PeekStringOf(s, t, true) == Err(Byte(b)) <==> FirstSuch(s, c => IsInvalid(t, c), b)
    ensures PeekStringOf(s, t, true).Ok? <==> Is(t, s)
  {
    var n := Find(s, Outside(t));
    if n == |s| { assert s[..n] == s; }
    forall b | FirstSuch(s, c => IsInvalid(t, c), b) ensures PeekStringOf(s, t, true) == Err(Byte(b)) {
      var i :| 0 <= i < |s| && s[i] == b && forall j | 0 <= j < i :: !IsInvalid(t, s[j]);
      assert i == n;
    }
  }

  /** The nick is what is refused exactly if there is none, or if it would start with a colon. */
  lemma {:induction false} NickErrors(s: Bytes)
    ensures var r := ParseSource(s);
            && (r == Bad(InvalidNick(Empty)) <==> s == [] || IsInvalid(Nick, s[0]))
            && (r == Bad(InvalidNick(Colon)) <==> s != [] && s[0] == COLON)
            && (r.Bad? && r.error.InvalidNick? ==> r.error.e in [Empty, Colon])
  {
    var n := Find(s, Outside(Nick));
    if n > 0 { assert s[..n][0] == s[0]; }
  }

  /** What follows a nick and an exclamation mark is refused exactly for what is wrong with the user
      it starts with, up to the first at sign, or else for want of a host. */
  lemma {:induction false} UserErrors(nick: Bytes, rest: Bytes)
    requires Is(Nick, nick)
    ensures var r, user := ParseSource(nick + ([BANG] + rest)), rest[..Find(rest, At(AT))];
            && (r == Bad(InvalidUser(Empty)) <==> user == [])
            && (r == Bad(InvalidUser(Colon)) <==>
                  user != [] && user[0] == COLON && forall i | 0 <= i < |user| :: !IsInvalid(User, user[i]))
            && (forall b :: r == Bad(InvalidUser(Byte(b))) <==> FirstSuch(user, c => IsInvalid(User, c), b))
            && (r == Bad(InvalidHost(Empty)) <==> Is(User, user) && |rest| <= |user| + 1)
            && (r.Good? <==> Is(User, user) && |rest| > |user| + 1)
  {
    var user := rest[..Find(rest, At(AT))];
    FindAppend(nick, [BANG] + rest, Outside(Nick));
    var s := nick + ([BANG] + rest);
    assert s[..|nick|] == nick && s[|nick|..] == [BANG] + rest && ([BANG] + rest)[1..] == rest;
    PeekFails(user, User);
  }
}
