/**
 Which profiles survive being exported and read back (`exportOvpn` and `parseOvpn`, Profiles/src/OvpnParser.cpp): the
 condition of module OvpnRoundTrip is not only sufficient but necessary.
 */
module OvpnExact {
  import opened Types
  import opened Wrappers
  import opened StringUtil
  import opened Digits
  import opened OvpnLexer
  import opened OvpnParser
  import opened OvpnExport
  import opened OvpnShape
  import opened OvpnRoundTrip

  // ---------- quotes are lost ----------

  predicate IsQuote(c: char) { c == '"' || c == '\'' }

  function Quotes(s: string): nat {
    if s == "" then 0 else Quotes(s[..|s| - 1]) + if IsQuote(s[|s| - 1]) then 1 else 0
  }

  lemma {:induction false} QuotesConcat(a: string, b: string)
    ensures Quotes(a + b) == Quotes(a) + Quotes(b)
    decreases b
  {
    hide IsQuote;
    if b == "" {
      assert a + b == a;
    } else {
      assert (a + b)[..|a + b| - 1] == a + b[..|b| - 1];
      QuotesConcat(a, b[..|b| - 1]);
    }
  }

  lemma QuotesHead(s: string)
    requires s != ""
    ensures Quotes(s) == (if IsQuote(s[0]) then 1 else 0) + Quotes(s[1..])
  {
    assert s == [s[0]] + s[1..];
    QuotesConcat([s[0]], s[1..]);
    assert [s[0]][..0] == "";
  }

  function AllQuotes(tokens: seq<string>): nat {
    if tokens == [] then 0 else AllQuotes(tokens[..|tokens| - 1]) + Quotes(tokens[|tokens| - 1])
  }

  lemma AllQuotesSnoc(tokens: seq<string>, t: string)
    ensures AllQuotes(tokens + [t]) == AllQuotes(tokens) + Quotes(t)
  {
    assert (tokens + [t])[..|tokens|] == tokens;
  }

  lemma {:induction false} QuotesOfOne(tokens: seq<string>, i: nat)
    requires i < |tokens|
    ensures Quotes(tokens[i]) <= AllQuotes(tokens)
  {
    if i < |tokens| - 1 {
      QuotesOfOne(tokens[..|tokens| - 1], i);
    }
  }

  function Held(s: Lex): nat {
    AllQuotes(s.tokens) + Quotes(s.current)
  }

  lemma PushQuotes(s: Lex, c: char)
    ensures Held(Push(s, c)) == Held(s) + if IsQuote(c) then 1 else 0
  {
    assert (s.current + [c])[..|s.current|] == s.current;
  }

  lemma StepQuotes(line: string, s: Lex)
    requires line != "" && (s.current != "" ==> s.inToken)
    ensures Held(Step(line, s)) + Quotes(line[Taken(line, s)..]) <= Held(s) + Quotes(line)
    ensures s.quote == Bare && IsQuote(line[0]) ==>
      Held(Step(line, s)) + Quotes(line[Taken(line, s)..]) < Held(s) + Quotes(line)
    ensures Step(line, s).current != "" ==> Step(line, s).inToken
  {
    hide Quotes, AllQuotes;
    QuotesHead(line);
    PushQuotes(s, line[0]);
    AllQuotesSnoc(s.tokens, s.current);
    NoQuotes();
    if |line| > 1 {
      QuotesHead(line[1..]);
      PushQuotes(s, line[1]);
      assert line[1..][1..] == line[2..];
    }
  }

  lemma NoQuotes()
    ensures Quotes("") == 0 && AllQuotes([]) == 0
  {
  }

  /** Lexing makes no quotes. */
  lemma {:induction false} LexMakesNoQuotes(line: string, s: Lex)
    requires s.current != "" ==> s.inToken
    ensures AllQuotes(LexFrom(line, s)) <= Held(s) + Quotes(line)
    decreases |line|
  {
    hide Step, Quotes, AllQuotes;
    AllQuotesSnoc(s.tokens, s.current);
    NoQuotes();
    if line != "" && !StartsComment(line[0], s) {
      StepQuotes(line, s);
      LexMakesNoQuotes(line[Taken(line, s)..], Step(line, s));
    }
  }

  /** Of the quotes in a line at least one is lost. */
  lemma {:induction false} LexLosesQuote(line: string, s: Lex)
    requires (s.current != "" ==> s.inToken) && s.quote == Bare && Quotes(line) > 0
    ensures AllQuotes(LexFrom(line, s)) < Held(s) + Quotes(line)
    decreases |line|
  {
    hide Quotes, AllQuotes;
    AllQuotesSnoc(s.tokens, s.current);
    NoQuotes();
    if line != "" && !StartsComment(line[0], s) {
      StepQuotes(line, s);
      QuotesHead(line);
      if IsQuote(line[0]) {
        LexMakesNoQuotes(line[1..], Step(line, s));
      } else {
        LexLosesQuote(line[1..], Step(line, s));
      }
    }
  }

  predicate PlainSoFar(s: Lex) {
    && s.quote == Bare && (forall i | 0 <= i < |s.tokens| :: Plain(s.tokens[i]))
    && (if s.inToken then Plain(s.current) else s.current == "")
  }

  /** Without quotes every token is plain. */
  lemma {:induction false} UnquotedArePlain(line: string, s: Lex)
    requires Quotes(line) == 0 && PlainSoFar(s)
    ensures forall i | 0 <= i < |LexFrom(line, s)| :: Plain(LexFrom(line, s)[i])
    decreases |line|
  {
    hide Quotes;
    if line != "" && !StartsComment(line[0], s) {
      QuotesHead(line);
      UnquotedArePlain(line[1..], Step(line, s));
    }
  }

  /** A token that accounts for all the quotes of its line is plain: there were none. */
  lemma TokenIsPlain(line: string, i: nat)
    requires i < |Tokens(line)| && Quotes(line) <= Quotes(Tokens(line)[i])
    ensures Plain(Tokens(line)[i])
  {
    hide LexFrom, Quotes, AllQuotes, Plain;
    NoQuotes();
    QuotesOfOne(Tokens(line), i);
    if Quotes(line) > 0 {
      LexLosesQuote(line, START);
      assert false;
    }
    UnquotedArePlain(line, START);
  }

  // ---------- the words of an exported line ----------

  lemma {:induction false} LexKeeps(line: string, s: Lex)
    ensures s.tokens <= LexFrom(line, s)
    decreases |line|
  {
    if line != "" && !StartsComment(line[0], s) {
      LexKeeps(line[Taken(line, s)..], Step(line, s));
    }
  }

  /** The keyword that starts a line is its first token. */
  lemma KeyIsFirst(key: string, rest: string)
    requires Plain(key)
    ensures Tokens(key) == [key]
    ensures |Tokens(key + ([' '] + rest))| >= 1 && Tokens(key + ([' '] + rest))[0] == key
  {
    hide LexFrom;
    LexOneMore(key, rest, []);
    assert [] + [key] == [key];
    LexKeeps(rest, Lex([key], "", false, Bare));
  }

  function Line(key: string, rest: string): string {
    key + ([' '] + rest)
  }

  /** Trimming a line leaves the keyword alone, or cuts spaces off its end. */
  lemma {:induction false} TrimRightOfLine(key: string, rest: string)
    requires PlainToken(key)
    ensures TrimRight(key) == key
    ensures TrimRight(Line(key, rest)) == key
      || exists n | 0 <= n <= |rest| :: TrimRight(Line(key, rest)) == Line(key, rest[..n])
    ensures rest != "" && IsSpace(rest[|rest| - 1]) ==> |TrimRight(Line(key, rest))| < |Line(key, rest)|
    decreases rest
  {
    var l := Line(key, rest);
    if rest == "" {
      assert l[..|l| - 1] == key && l[|l| - 1] == ' ';
    } else if IsSpace(rest[|rest| - 1]) {
      var front := rest[..|rest| - 1];
      assert l[|l| - 1] == rest[|rest| - 1] && l[..|l| - 1] == Line(key, front);
      TrimRightOfLine(key, front);
      assert TrimRight(l) == TrimRight(Line(key, front));
      TrimRightShrinks(Line(key, front));
      if TrimRight(Line(key, front)) != key {
        var n :| 0 <= n <= |front| && TrimRight(Line(key, front)) == Line(key, front[..n]);
        assert rest[..n] == front[..n];
      }
    } else {
      assert l[|l| - 1] == rest[|rest| - 1];
      assert rest[..|rest|] == rest;
    }
  }

  lemma {:induction false} TrimRightShrinks(s: string)
    ensures |TrimRight(s)| <= |s| && (|TrimRight(s)| == |s| ==> TrimRight(s) == s)
    decreases |s|
  {
    if s != "" && IsSpace(s[|s| - 1]) {
      TrimRightShrinks(s[..|s| - 1]);
    }
  }

  lemma TrimOfLine(key: string, rest: string)
    requires PlainToken(key)
    ensures Trim(Line(key, rest)) == TrimRight(Line(key, rest))
    ensures Trim(Line(key, rest)) == key || exists n | 0 <= n <= |rest| :: Trim(Line(key, rest)) == Line(key, rest[..n])
  {
    hide TrimRight;
    TrimRightOfLine(key, rest);
    assert Line(key, rest)[0] == key[0];
  }

  lemma WordsStartWithKey(key: string, rest: string)
    requires PlainToken(key)
    ensures var d := Tokens(Trim(Line(key, rest))); |d| >= 1 && d[0] == key
  {
    hide Tokens, Trim;
    TrimOfLine(key, rest);
    KeyIsFirst(key, rest);
    if Trim(Line(key, rest)) != key {
      var n :| 0 <= n <= |rest| && Trim(Line(key, rest)) == Line(key, rest[..n]);
      KeyIsFirst(key, rest[..n]);
    }
  }

  lemma TrimLosesQuotes(key: string, rest: string)
    requires PlainToken(key)
    ensures Quotes(Trim(Line(key, rest))) <= Quotes(Line(key, rest))
  {
    hide Trim, Quotes;
    TrimOfLine(key, rest);
    QuotesConcat(key, [' '] + rest);
    if Trim(Line(key, rest)) != key {
      var n :| 0 <= n <= |rest| && Trim(Line(key, rest)) == Line(key, rest[..n]);
      assert rest == rest[..n] + rest[n..];
      assert Line(key, rest) == Line(key, rest[..n]) + rest[n..];
      QuotesConcat(Line(key, rest[..n]), rest[n..]);
    }
  }

  /** The word after the keyword of a line, if there is one. */
  function FirstArg(line: string): Option<string> {
    var d := Tokens(Trim(line));
    if |d| >= 2 then Some(d[1]) else None
  }

  lemma {:induction false} PlainHasNoQuotes(t: string)
    requires forall i | 0 <= i < |t| :: !IsQuote(t[i])
    ensures Quotes(t) == 0
  {
    if t != "" {
      PlainHasNoQuotes(t[..|t| - 1]);
    }
  }

  /** A word that is read back needs no quotes. */
  lemma ReadBackIsPlain(key: string, word: string, tail: string)
    requires PlainToken(key) && forall i | 0 <= i < |tail| :: !IsQuote(tail[i])
    requires FirstArg(Line(key, word + tail)) == Some(word)
    ensures Plain(word)
  {
    hide Tokens, Trim, Quotes, Plain;
    var line := Line(key, word + tail);
    TrimLosesQuotes(key, word + tail);
    assert forall i | 0 <= i < |key| :: !IsQuote(key[i]) by {
      PlainKeyHasNoQuotes(key);
    }
    PlainHasNoQuotes(key);
    PlainHasNoQuotes(tail);
    PlainHasNoQuotes(" ");
    QuotesConcat(key, [' '] + (word + tail));
    QuotesConcat([' '], word + tail);
    QuotesConcat(word, tail);
    assert " " == [' '];
    TokenIsPlain(Trim(line), 1);
  }

  lemma PlainKeyHasNoQuotes(key: string)
    requires PlainToken(key)
    ensures forall i | 0 <= i < |key| :: !IsQuote(key[i])
  {
  }

  /** At the end of a line it must not end in a space either. */
  lemma LastReadBackIsPlain(key: string, word: string)
    requires PlainToken(key) && FirstArg(Line(key, word)) == Some(word)
    ensures PlainLast(word)
  {
    hide Tokens, Trim, TrimRight;
    assert word + "" == word;
    ReadBackIsPlain(key, word, "");
    if IsSpace(word[|word| - 1]) {
      TrimOfLine(key, word);
      TrimRightOfLine(key, word);
      KeyIsFirst(key, word);
      var n :| 0 <= n <= |word| && Trim(Line(key, word)) == Line(key, word[..n]);
      WordsOfShorter(key, word, n);
    }
  }

  lemma WordsOfShorter(key: string, word: string, n: nat)
    requires Plain(key) && Plain(word) && n < |word|
    ensures var d := Tokens(Line(key, word[..n])); |d| >= 2 ==> d[1] != word
  {
    hide LexFrom;
    LexOneMore(key, word[..n], []);
    assert [] + [key] == [key];
    if n > 0 {
      LexOneMore(word[..n], "", [key]);
    } else {
      assert LexFrom("", Lex([key], "", false, Bare)) == [key] by {
        LexNothing([key]);
      }
    }
  }

  lemma LexNothing(done: seq<string>)
    ensures LexFrom("", Lex(done, "", false, Bare)) == done
  {
  }

  // ---------- the names a configuration sets ----------

  /** What is written as a bare word on a line. */
  datatype Names = Names(hosts: seq<string>, cipher: string, digest: string, subject: string)

  function Hosts(rs: seq<RemoteEntry>): seq<string> {
    seq(|rs|, i requires 0 <= i < |rs| => rs[i].host)
  }

  function NamesOf(p: Profile): Names {
    Names(Hosts(p.remotes), p.cipherOverride, p.authDigestOverride, p.verifyX509Name)
  }

  function After(n: Names, m: Meaning, args: seq<string>): Names {
    if args == [] then n
    else
      match m
      case AddsRemote => n.(hosts := n.hosts + [args[0]])
      case SetsCipher => n.(cipher := args[0])
      case SetsDigest => n.(digest := args[0])
      case VerifiesName => n.(subject := args[0])
      case _ => n
  }

  lemma NamesAfterRemote(s: State, args: seq<string>)
    ensures NamesOf(Remote(s, args).profile) == After(NamesOf(s.profile), AddsRemote, args)
  {
    hide StrToUl, ParseProto;
    if args != [] {
      var t := Remote(s, args);
      assert Hosts(t.profile.remotes) == Hosts(s.profile.remotes) + [args[0]];
    }
  }

  lemma NamesAfterFile(s: State, kind: FileKind, args: seq<string>, o: Options)
    ensures NamesOf(SideFile(s, kind, args, o).profile) == NamesOf(s.profile)
  {
  }

  lemma NamesAfterProxy(s: State, scheme: string, args: seq<string>)
    ensures Proxy(s, scheme, args).profile == s.profile.(proxyUrl := Proxy(s, scheme, args).profile.proxyUrl)
  {
  }

  lemma NamesAfterEffect(s: State, m: Meaning, key: string, args: seq<string>, o: Options)
    requires !m.AddsRemote? && !m.NamesFile?
    ensures NamesOf(Effect(s, m, key, args, o).profile) == After(NamesOf(s.profile), m, args)
  {
    hide StrToUl, ParseProto, WeakCiphers, Remote, SideFile, Hosts, Proxy;
    if m.UsesProxy? {
      NamesAfterProxy(s, m.scheme, args);
    }
  }

  lemma NamesAfter(s: State, key: string, args: seq<string>, o: Options)
    ensures NamesOf(Apply(s, key, args, o).profile) == After(NamesOf(s.profile), MeaningOf(key), args)
  {
    hide MeaningOf, Effect, NamesOf, Remote, SideFile;
    var m := MeaningOf(key);
    if m.NamesFile? {
      NamesAfterFile(s, m.kind, args, o);
      EffectOfFile(s, m.kind, key, args, o);
    } else if m.AddsRemote? {
      NamesAfterRemote(s, args);
      EffectOfRemote(s, key, args, o);
    } else {
      NamesAfterEffect(s, m, key, args, o);
    }
  }

  lemma EffectOfRemote(s: State, key: string, args: seq<string>, o: Options)
    ensures Effect(s, AddsRemote, key, args, o) == Remote(s, args)
  {
  }

  // ---------- reading the exported lines, whatever the words ----------

  predicate IsKeyword(key: string) {
    PlainToken(key) && ToLower(key) == key && key[0] != '<' && key !in DANGEROUS
  }

  lemma NotDangerous(key: string)
    requires key == "remote" || key == "cipher" || key == "auth" || key == "verify-x509-name"
    ensures key !in DANGEROUS
  {
  }

  lemma ExportedKeyword(key: string)
    requires key == "remote" || key == "cipher" || key == "auth" || key == "verify-x509-name"
    ensures IsKeyword(key)
  {
    hide PlainToken, ToLower;
    NotDangerous(key);
    PlainKeyword(key);
  }

  lemma ExportedKeywords()
    ensures IsKeyword("remote") && IsKeyword("cipher") && IsKeyword("auth") && IsKeyword("verify-x509-name")
  {
    hide IsKeyword;
    ExportedKeyword("remote");
    ExportedKeyword("cipher");
    ExportedKeyword("auth");
    ExportedKeyword("verify-x509-name");
  }

  function Args(line: string): seq<string> {
    var d := Tokens(Trim(line));
    if d == [] then [] else d[1..]
  }

  lemma ReadsLine(key: string, rest: string, s: State, o: Options)
    requires IsKeyword(key)
    ensures Reads([Line(key, rest)], s, Apply(s, key, Args(Line(key, rest)), o), o)
  {
    hide ParseFrom, Apply, Tokens, Trim, ToLower;
    var l := Line(key, rest);
    WordsStartWithKey(key, rest);
    TrimOfLine(key, rest);
    assert Trim(l) != "" && Trim(l)[0] == key[0];
    assert !IsSkipped(Trim(l)) && !IsOpening(Trim(l));
    forall more: seq<string>
      ensures ParseFrom([l] + more, s, [], o) == ParseFrom(more, Apply(s, key, Args(l), o), [], o)
    {
      ParseDirective(l, more, s, [], o);
    }
  }

  /** What a line of one word makes of its field. */
  function Got(line: string, default: string): string {
    FirstArg(line).GetOr(default)
  }

  function RemoteTail(r: RemoteEntry): string {
    [' '] + Print(r.port, 10) + [' '] + ProtoText(r.transport)
  }

  lemma SpacedMore(word: string, rest: seq<string>)
    requires rest != []
    ensures Spaced([word] + rest) == Line(word, Spaced(rest))
  {
    assert ([word] + rest)[1..] == rest;
    assert word + [' '] + Spaced(rest) == word + ([' '] + Spaced(rest));
  }

  lemma RemoteLineIs(r: RemoteEntry)
    ensures RemoteLine(r) == Line("remote", r.host + RemoteTail(r))
  {
    hide Print, ProtoText, Spaced;
    var b, c, d := r.host, Print(r.port, 10), ProtoText(r.transport);
    SpacedOne(d);
    SpacedMore(c, [d]);
    SpacedMore(b, [c, d]);
    SpacedMore("remote", [b, c, d]);
    assert ["remote"] + [b, c, d] == ["remote", b, c, d] && [b] + [c, d] == [b, c, d] && [c] + [d] == [c, d];
    assert Line(b, Line(c, d)) == b + ([' '] + c + [' '] + d);
  }

  lemma SpacedOne(word: string)
    ensures Spaced([word]) == word
  {
  }

  function FirstArgs(line: string): seq<string> {
    var a := FirstArg(line);
    if a.Some? then [a.value] else []
  }

  function HostsRead(rs: seq<RemoteEntry>): seq<string> {
    if rs == [] then [] else HostsRead(rs[..|rs| - 1]) + FirstArgs(RemoteLine(rs[|rs| - 1]))
  }

  lemma ReadsAnyRemote(s: State, r: RemoteEntry, o: Options) returns (t: State)
    ensures Reads([RemoteLine(r)], s, t, o)
    ensures NamesOf(t.profile) == NamesOf(s.profile).(hosts := NamesOf(s.profile).hosts + FirstArgs(RemoteLine(r)))
  {
    hide Reads, Apply, Tokens, Trim, NamesOf, MeaningOf, RemoteLine, RemoteTail, IsKeyword;
    ExportedKeywords();
    RemoteLineIs(r);
    ExportedMeanings();
    ReadsLine("remote", r.host + RemoteTail(r), s, o);
    WordsStartWithRemote(r);
    NamesAfter(s, "remote", Args(RemoteLine(r)), o);
    t := Apply(s, "remote", Args(RemoteLine(r)), o);
    assert NamesOf(s.profile).hosts + [] == NamesOf(s.profile).hosts;
  }

  lemma WordsStartWithRemote(r: RemoteEntry)
    ensures |Tokens(Trim(RemoteLine(r)))| >= 1
  {
    hide Tokens, Trim, RemoteTail;
    PlainKeyword("remote");
    RemoteLineIs(r);
    WordsStartWithKey("remote", r.host + RemoteTail(r));
  }

  lemma {:induction false} ReadsAnyRemotes(s: State, rs: seq<RemoteEntry>, o: Options) returns (t: State)
    ensures Reads(RemoteLines(rs), s, t, o)
    ensures NamesOf(t.profile) == NamesOf(s.profile).(hosts := NamesOf(s.profile).hosts + HostsRead(rs))
    decreases rs
  {
    hide Reads, NamesOf, RemoteLine, FirstArgs;
    if rs == [] {
      ReadsNothing(s, o);
      t := s;
      assert NamesOf(s.profile).hosts + [] == NamesOf(s.profile).hosts;
    } else {
      var front, last := rs[..|rs| - 1], rs[|rs| - 1];
      var u := ReadsAnyRemotes(s, front, o);
      t := ReadsAnyRemote(u, last, o);
      ReadsBoth(RemoteLines(front), [RemoteLine(last)], s, u, t, o);
      var before := NamesOf(s.profile).hosts;
      assert before + HostsRead(front) + FirstArgs(RemoteLine(last)) == before + HostsRead(rs);
    }
  }

  /** All hosts come back only if each line gives its own. */
  lemma {:induction false} EveryHostRead(rs: seq<RemoteEntry>, i: nat)
    requires i < |rs|
    ensures |HostsRead(rs)| <= |rs|
    ensures HostsRead(rs) == Hosts(rs) ==> FirstArg(RemoteLine(rs[i])) == Some(rs[i].host)
    decreases rs
  {
    hide RemoteLine, FirstArg;
    var front, last := rs[..|rs| - 1], rs[|rs| - 1];
    if front != [] {
      EveryHostRead(front, if i < |front| then i else 0);
    }
    if HostsRead(rs) == Hosts(rs) {
      assert Hosts(rs) == Hosts(front) + [last.host];
      assert |FirstArgs(RemoteLine(last))| == 1;
      assert HostsRead(front) == Hosts(rs)[..|front|] == Hosts(front);
      assert FirstArgs(RemoteLine(last)) == [Hosts(rs)[|front|]];
    }
  }

  lemma ReadsAnyWord(word: string, key: string, rest: string, tokens: seq<string>, s: State, o: Options)
      returns (t: State)
    requires IsKeyword(key) && Spaced(tokens) == Line(key, rest)
    ensures Reads(When(word != "", tokens), s, t, o)
    ensures NamesOf(t.profile) ==
      if word == "" then NamesOf(s.profile) else After(NamesOf(s.profile), MeaningOf(key), Args(Line(key, rest)))
  {
    hide Reads, Apply, NamesOf, MeaningOf, IsKeyword, Args, Line, Spaced, After;
    t := s;
    if word != "" {
      ReadsLine(key, rest, s, o);
      NamesAfter(s, key, Args(Line(key, rest)), o);
      t := Apply(s, key, Args(Line(key, rest)), o);
    }
    ReadsWhen(word != "", tokens, s, t, o);
  }

  lemma NamesOfOthers(s: State, p: Profile)
    ensures NamesOf(Options1(s, p).profile) == NamesOf(s.profile)
    ensures NamesOf(MtuStep(s, p).profile) == NamesOf(s.profile)
    ensures NamesOf(Header(s).profile) == NamesOf(s.profile)
  {
    hide Options1, Hosts;
    AfterOptions1(s, p);
  }

  predicate MtuOk(p: Profile) {
    p.mtu.Some? ==> 576 <= p.mtu.value <= 9000
  }

  lemma ReadsAnyMtu(s: State, p: Profile, o: Options)
    requires MtuOk(p)
    ensures Reads(When(p.mtu.Some?, ["tun-mtu", MtuText(p)]), s, MtuStep(s, p), o)
  {
    hide Reads, Spaced, When, Sized, Print;
    if p.mtu.Some? {
      ReadsMtu(s, p.mtu.value, o);
    }
    ReadsWhen(p.mtu.Some?, ["tun-mtu", MtuText(p)], s, MtuStep(s, p), o);
  }

  function CipherLine(p: Profile): string { Line("cipher", p.cipherOverride) }

  function DigestLine(p: Profile): string { Line("auth", p.authDigestOverride) }

  function SubjectLine(p: Profile): string { Line("verify-x509-name", p.verifyX509Name + " name") }

  lemma OptionLinesAre(p: Profile)
    ensures Spaced(["cipher", p.cipherOverride]) == CipherLine(p)
      && Spaced(["auth", p.authDigestOverride]) == DigestLine(p)
    ensures Spaced(["verify-x509-name", p.verifyX509Name, "name"]) == SubjectLine(p)
  {
    hide Spaced;
    var c, d, n := p.cipherOverride, p.authDigestOverride, p.verifyX509Name;
    SpacedOne(c);
    SpacedOne(d);
    SpacedOne("name");
    SpacedMore("cipher", [c]);
    SpacedMore("auth", [d]);
    SpacedMore(n, ["name"]);
    SpacedMore("verify-x509-name", [n, "name"]);
    assert ["cipher"] + [c] == ["cipher", c] && ["auth"] + [d] == ["auth", d];
    assert [n] + ["name"] == [n, "name"] && ["verify-x509-name"] + [n, "name"] == ["verify-x509-name", n, "name"];
    assert Line(n, "name") == n + " name";
  }

  function NamesRead(n: Names, p: Profile): Names {
    Names(n.hosts,
      if p.cipherOverride == "" then n.cipher else Got(CipherLine(p), n.cipher),
      if p.authDigestOverride == "" then n.digest else Got(DigestLine(p), n.digest),
      if p.verifyX509Name == "" then n.subject else Got(SubjectLine(p), n.subject))
  }

  lemma NamesReadAre(n: Names, p: Profile)
    ensures
      var a := if p.cipherOverride == "" then n else After(n, SetsCipher, Args(CipherLine(p)));
      var b := if p.authDigestOverride == "" then a else After(a, SetsDigest, Args(DigestLine(p)));
      var c := if p.verifyX509Name == "" then b else After(b, VerifiesName, Args(SubjectLine(p)));
      c == NamesRead(n, p)
  {
    hide Tokens, Trim, CipherLine, DigestLine, SubjectLine;
  }

  lemma ReadsAnyOptions(s: State, p: Profile, o: Options) returns (t: State)
    requires MtuOk(p)
    ensures Reads(OptionLines(p), s, t, o)
    ensures NamesOf(t.profile) == NamesRead(NamesOf(s.profile), p)
  {
    hide Reads, NamesOf, MeaningOf, IsKeyword, Args, Line, Spaced, After, When, NamesRead, MtuOk, Options1, MtuStep,
      CipherLine, DigestLine, SubjectLine;
    ExportedKeywords();
    ExportedMeanings();
    OptionLinesAre(p);
    LinesOfOptions(p);
    var a := Options1(s, p);
    ReadsOptions1(s, p, o);
    NamesOfOthers(s, p);
    var b := ReadsAnyWord(p.cipherOverride, "cipher", p.cipherOverride, ["cipher", p.cipherOverride], a, o);
    var c := ReadsAnyWord(p.authDigestOverride, "auth", p.authDigestOverride, ["auth", p.authDigestOverride], b, o);
    var d := ReadsAnyWord(p.verifyX509Name, "verify-x509-name", p.verifyX509Name + " name",
      ["verify-x509-name", p.verifyX509Name, "name"], c, o);
    t := MtuStep(d, p);
    ReadsAnyMtu(d, p, o);
    NamesOfOthers(d, p);
    NamesReadAre(NamesOf(s.profile), p);
    var first := When(p.shuffleRemotes, ["remote-random"]) + When(SendsPassword(p.authMethod), ["auth-user-pass"])
      + When(p.redirectGateway, ["redirect-gateway", "def1"]);
    var lb, lc := When(p.cipherOverride != "", ["cipher", p.cipherOverride]),
      When(p.authDigestOverride != "", ["auth", p.authDigestOverride]);
    var ld := When(p.verifyX509Name != "", ["verify-x509-name", p.verifyX509Name, "name"]);
    ReadsBoth(first, lb, s, a, b, o);
    ReadsBoth(first + lb, lc, s, b, c, o);
    ReadsBoth(first + lb + lc, ld, s, c, d, o);
    ReadsBoth(first + lb + lc + ld, When(p.mtu.Some?, ["tun-mtu", MtuText(p)]), s, d, t, o);
  }

  lemma LinesOfOptions(p: Profile)
    ensures CipherLine(p) == Line("cipher", p.cipherOverride) && DigestLine(p) == Line("auth", p.authDigestOverride)
    ensures SubjectLine(p) == Line("verify-x509-name", p.verifyX509Name + " name")
  {
  }

  // ---------- PEM texts ----------

  /** Trimming the lines of a text changes it unless there is nothing to trim. */
  lemma {:induction false} BodyShrinks(ls: seq<string>)
    ensures |Body(ls)| <= |Unlines(ls)|
    ensures |Body(ls)| == |Unlines(ls)| ==> forall i | 0 <= i < |ls| :: TrimRight(ls[i]) == ls[i]
    decreases ls
  {
    hide TrimRight;
    if ls != [] {
      var front, last := ls[..|ls| - 1], ls[|ls| - 1];
      assert ls == front + [last];
      BodyShrinks(front);
      UnlinesConcat(front, [last]);
      UnlinesOne(last);
      TrimRightShrinks(last);
    }
  }

  /** A text that comes out of a block as it went in is newline-terminated, without trailing space on its lines. */
  lemma RecoveredPemIsClean(tag: string, pem: string)
    requires pem != "" && Unclosed(tag, pem) && Body(PemLines(pem)) == pem
    ensures CleanPem(tag, pem)
  {
    hide PemLines, TrimRight, Closes, Unlines;
    UnlinesOfPem(pem);
    BodyShrinks(PemLines(pem));
    BodyEnds(PemLines(pem));
  }

  lemma BodyEnds(ls: seq<string>)
    ensures Body(ls) != "" ==> Body(ls)[|Body(ls)| - 1] == '\n'
  {
  }

  // ---------- newlines ----------

  predicate OnOneLine(t: string) { '\n' !in t }

  predicate NamesOnOneLine(n: Names) {
    && (forall i | 0 <= i < |n.hosts| :: OnOneLine(n.hosts[i]))
    && OnOneLine(n.cipher) && OnOneLine(n.digest) && OnOneLine(n.subject)
  }

  predicate AllOnOneLine(ts: seq<string>) {
    forall i | 0 <= i < |ts| :: OnOneLine(ts[i])
  }

  lemma {:induction false} LexOnOneLine(line: string, s: Lex)
    requires OnOneLine(line) && AllOnOneLine(s.tokens) && OnOneLine(s.current)
    ensures AllOnOneLine(LexFrom(line, s))
    decreases |line|
  {
    if line != "" && !StartsComment(line[0], s) {
      var rest := line[Taken(line, s)..];
      assert forall c | c in rest :: c in line;
      LexOnOneLine(rest, Step(line, s));
    }
  }

  lemma {:induction false} TrimOnOneLine(line: string)
    requires OnOneLine(line)
    ensures OnOneLine(TrimLeft(line)) && OnOneLine(TrimRight(line))
    decreases |line|
  {
    if line != "" {
      assert OnOneLine(line[1..]) && OnOneLine(line[..|line| - 1]);
      TrimOnOneLine(line[1..]);
      TrimOnOneLine(line[..|line| - 1]);
    }
  }

  lemma DirectiveOnOneLine(line: string)
    requires OnOneLine(line)
    ensures AllOnOneLine(DirectiveOf(Trim(line)))
  {
    hide LexFrom, TrimLeft, TrimRight;
    TrimOnOneLine(line);
    TrimOnOneLine(TrimLeft(line));
    LexOnOneLine(Trim(line), OvpnLexer.START);
  }

  lemma AfterOnOneLine(n: Names, m: Meaning, args: seq<string>)
    requires NamesOnOneLine(n) && AllOnOneLine(args)
    ensures NamesOnOneLine(After(n, m, args))
  {
    hide OnOneLine;
  }

  lemma NamesAfterBlock(s: State, tag: string, body: string)
    ensures NamesOf(ApplyBlock(s, tag, body).profile) == NamesOf(s.profile)
  {
    hide Hosts;
  }

  /** Whatever the configuration, a name it sets stands on one line. */
  lemma {:induction false} ParsedOnOneLine(lines: seq<string>, s: State, rejected: seq<string>, o: Options)
    requires AllOnOneLine(lines) && NamesOnOneLine(NamesOf(s.profile))
    ensures var r := ParseFrom(lines, s, rejected, o); r.Going? ==> NamesOnOneLine(NamesOf(r.state.profile))
    decreases |lines|
  {
    hide NamesOf, NamesOnOneLine, OnOneLine, Apply, ApplyBlock, IsOpening, TagOf, BlockEnd, Body, Trim, DirectiveOf,
      MeaningOf, After;
    if lines != [] {
      var raw, rest := Trim(lines[0]), lines[1..];
      if IsOpening(raw) {
        var n := BlockEnd(rest, TagOf(raw));
        if n < |rest| {
          NamesAfterBlock(s, TagOf(raw), Body(rest[..n]));
          ParsedOnOneLine(rest[n + 1..], ApplyBlock(s, TagOf(raw), Body(rest[..n])), rejected, o);
        }
      } else {
        var tokens := DirectiveOf(raw);
        DirectiveOnOneLine(lines[0]);
        if tokens == [] {
          ParsedOnOneLine(rest, s, rejected, o);
        } else if ToLower(tokens[0]) in DANGEROUS {
          ParsedOnOneLine(rest, s, rejected + [ToLower(tokens[0])], o);
        } else {
          var key, args := ToLower(tokens[0]), tokens[1..];
          NamesAfter(s, key, args, o);
          AfterOnOneLine(NamesOf(s.profile), MeaningOf(key), args);
          ParsedOnOneLine(rest, Apply(s, key, args, o), rejected, o);
        }
      }
    }
  }

  lemma LineOnOneLine(key: string, rest: string)
    requires OnOneLine(key) && OnOneLine(rest)
    ensures OnOneLine(Line(key, rest))
  {
  }

  lemma {:induction false} RemotesOnOneLine(rs: seq<RemoteEntry>)
    requires forall i | 0 <= i < |rs| :: OnOneLine(rs[i].host)
    ensures forall l | l in RemoteLines(rs) :: OnOneLine(l)
    decreases rs
  {
    hide RemoteLine, Print, ProtoText, Plain;
    if rs != [] {
      var r := rs[|rs| - 1];
      RemotesOnOneLine(rs[..|rs| - 1]);
      NumberIsPlain(r.port);
      ProtoIsPlain(r.transport);
      PlainOnOneLine(Print(r.port, 10));
      PlainOnOneLine(ProtoText(r.transport));
      RemoteLineIs(r);
      LineOnOneLine("remote", r.host + RemoteTail(r));
    }
  }

  lemma PlainOnOneLine(t: string)
    requires Plain(t)
    ensures OnOneLine(t)
  {
  }

  lemma WhenOnOneLine(b: bool, tokens: seq<string>)
    requires b ==> OnOneLine(Spaced(tokens))
    ensures forall l | l in When(b, tokens) :: OnOneLine(l)
  {
  }

  lemma WordLinesOnOneLine(p: Profile)
    requires NamesOnOneLine(NamesOf(p))
    ensures OnOneLine(CipherLine(p)) && OnOneLine(DigestLine(p)) && OnOneLine(SubjectLine(p))
  {
    LineOnOneLine("cipher", p.cipherOverride);
    LineOnOneLine("auth", p.authDigestOverride);
    LineOnOneLine("verify-x509-name", p.verifyX509Name + " name");
  }

  lemma OptionsOnOneLine(p: Profile)
    requires NamesOnOneLine(NamesOf(p))
    ensures forall l | l in OptionLines(p) :: OnOneLine(l)
  {
    hide Spaced, Print, Plain, When, OnOneLine, CipherLine, DigestLine, SubjectLine, NamesOnOneLine;
    OptionLinesAre(p);
    WordLinesOnOneLine(p);
    FixedOnOneLine(p);
    WhenOnOneLine(p.shuffleRemotes, ["remote-random"]);
    WhenOnOneLine(SendsPassword(p.authMethod), ["auth-user-pass"]);
    WhenOnOneLine(p.redirectGateway, ["redirect-gateway", "def1"]);
    WhenOnOneLine(p.cipherOverride != "", ["cipher", p.cipherOverride]);
    WhenOnOneLine(p.authDigestOverride != "", ["auth", p.authDigestOverride]);
    WhenOnOneLine(p.verifyX509Name != "", ["verify-x509-name", p.verifyX509Name, "name"]);
    WhenOnOneLine(p.mtu.Some?, ["tun-mtu", MtuText(p)]);
  }

  lemma FixedOnOneLine(p: Profile)
    ensures OnOneLine(Spaced(["remote-random"])) && OnOneLine(Spaced(["auth-user-pass"]))
    ensures OnOneLine(Spaced(["redirect-gateway", "def1"]))
      && (p.mtu.Some? ==> OnOneLine(Spaced(["tun-mtu", MtuText(p)])))
  {
    hide Spaced, Print, Plain;
    Keywords();
    PlainHasNoNewline(["remote-random"]);
    PlainHasNoNewline(["auth-user-pass"]);
    PlainHasNoNewline(["redirect-gateway", "def1"]);
    if p.mtu.Some? {
      NumberIsPlain(p.mtu.value);
      PlainHasNoNewline(["tun-mtu", MtuText(p)]);
    }
  }

  lemma ExportOnOneLine(p: Profile)
    requires NamesOnOneLine(NamesOf(p))
    ensures forall l | l in ExportLines(p) :: OnOneLine(l)
  {
    hide RemoteLines, OptionLines, BlockLines;
    forall i | 0 <= i < |p.remotes| ensures OnOneLine(p.remotes[i].host) {
      assert NamesOf(p).hosts[i] == p.remotes[i].host;
    }
    RemotesOnOneLine(p.remotes);
    OptionsOnOneLine(p);
    BlockHasNoNewlines("ca", p.caPem);
    BlockHasNoNewlines("cert", p.certificatePem);
  }

  // ---------- the exact round trip ----------

  /** A profile with a remote, ports and MTU as validation asks, and PEM texts that close no block. */
  predicate Exportable(p: Profile) {
    && p.remotes != [] && (forall i | 0 <= i < |p.remotes| :: p.remotes[i].port != 0) && MtuOk(p)
    && Unclosed("ca", p.caPem) && Unclosed("cert", p.certificatePem)
  }

  lemma ReadsAnyExport(s: State, p: Profile, o: Options) returns (t: State)
    requires Exportable(p) && NamesOf(s.profile) == Names([], "", "", "")
    ensures Reads(ExportLines(p), s, t, o)
    ensures NamesOf(t.profile) == NamesRead(Names(HostsRead(p.remotes), "", "", ""), p)
    ensures p.caPem != "" ==> t.profile.caPem == Body(PemLines(p.caPem))
    ensures p.certificatePem != "" ==> t.profile.certificatePem == Body(PemLines(p.certificatePem))
  {
    hide Reads, RemoteLines, OptionLines, BlockLines, Header, NamesOf, NamesRead, HostsRead, Body, PemLines, Unclosed;
    var head := ["# Exported by NovaVPN", "client", "dev tun"];
    var a := Header(s);
    ReadsHeader(s, o);
    NamesOfOthers(s, p);
    var b := ReadsAnyRemotes(a, p.remotes, o);
    assert [] + HostsRead(p.remotes) == HostsRead(p.remotes);
    var c := ReadsAnyOptions(b, p, o);
    var ca, cert := Body(PemLines(p.caPem)), Body(PemLines(p.certificatePem));
    var d := if p.caPem == "" then c else ApplyBlock(c, "ca", ca);
    t := if p.certificatePem == "" then d else ApplyBlock(d, "cert", cert);
    ReadsUnclosedBlock("ca", p.caPem, c, o);
    ReadsUnclosedBlock("cert", p.certificatePem, d, o);
    NamesAfterBlock(c, "ca", ca);
    NamesAfterBlock(d, "cert", cert);
    ReadsBoth(head, RemoteLines(p.remotes), s, a, b, o);
    ReadsBoth(head + RemoteLines(p.remotes), OptionLines(p), s, b, c, o);
    ReadsBoth(head + RemoteLines(p.remotes) + OptionLines(p), BlockLines("ca", p.caPem), s, c, d, o);
    ReadsBoth(head + RemoteLines(p.remotes) + OptionLines(p) + BlockLines("ca", p.caPem),
      BlockLines("cert", p.certificatePem),
      s, d, t, o);
  }

  /** Everything that an exported configuration carries as text. */
  predicate SameTexts(q: Profile, p: Profile) {
    && q.remotes == p.remotes && q.cipherOverride == p.cipherOverride && q.authDigestOverride == p.authDigestOverride
    && q.verifyX509Name == p.verifyX509Name && q.caPem == p.caPem && q.certificatePem == p.certificatePem
  }

  /** Words that are read back, each on its line, need no quotes. */
  lemma NamesReadBackArePlain(p: Profile)
    requires NamesRead(Names(HostsRead(p.remotes), "", "", ""), p) == NamesOf(p)
    ensures forall i | 0 <= i < |p.remotes| :: Plain(p.remotes[i].host)
    ensures p.cipherOverride == "" || PlainLast(p.cipherOverride)
    ensures p.authDigestOverride == "" || PlainLast(p.authDigestOverride)
    ensures p.verifyX509Name == "" || Plain(p.verifyX509Name)
  {
    hide Plain, PlainLast, Line, FirstArg, RemoteLine, RemoteTail, HostsRead, Hosts, PlainToken;
    ExportedKeywords();
    forall i | 0 <= i < |p.remotes| ensures Plain(p.remotes[i].host) {
      EveryHostRead(p.remotes, i);
      RemoteLineIs(p.remotes[i]);
      TailHasNoQuotes(p.remotes[i]);
      ReadBackIsPlain("remote", p.remotes[i].host, RemoteTail(p.remotes[i]));
    }
    if p.cipherOverride != "" {
      LastReadBackIsPlain("cipher", p.cipherOverride);
    }
    if p.authDigestOverride != "" {
      LastReadBackIsPlain("auth", p.authDigestOverride);
    }
    if p.verifyX509Name != "" {
      ReadBackIsPlain("verify-x509-name", p.verifyX509Name, " name");
    }
  }

  lemma TailHasNoQuotes(r: RemoteEntry)
    ensures forall i | 0 <= i < |RemoteTail(r)| :: !IsQuote(RemoteTail(r)[i])
  {
    hide Print, ProtoText;
    NumberIsPlain(r.port);
    ProtoIsPlain(r.transport);
    PlainKeyHasNoQuotes(Print(r.port, 10));
    PlainKeyHasNoQuotes(ProtoText(r.transport));
  }

  lemma SurvivorIsPlain(p: Profile, o: Options)
    requires Exportable(p)
    requires var r := Parse(Unlines(ExportLines(p)), o); r.Parsed? && SameTexts(r.report.profile, p)
    ensures PlainProfile(p)
  {
    hide ParseFrom, ExportLines, Unlines, Split, NamesOf, NamesRead, NamesOnOneLine, Reads, Body, PemLines, Unclosed,
      CleanPem, MtuOk, HostsRead, Plain, PlainLast;
    var text := Unlines(ExportLines(p));
    var s := InitialState(text, o);
    var q := Parse(text, o).report.profile;
    SameTextsSameNames(q, p);
    JoinOfSplit(text, '\n');
    InitialNames(text, o);
    ParsedOnOneLine(Split(text, '\n'), s, [], o);
    FinishKeepsNames(ParseFrom(Split(text, '\n'), s, [], o));
    ExportOnOneLine(p);
    SplitOfUnlines(ExportLines(p));
    var t := ReadsAnyExport(s, p, o);
    LastLine(ExportLines(p), s, t, o);
    NamesReadBackArePlain(p);
    if p.caPem != "" {
      RecoveredPemIsClean("ca", p.caPem);
    }
    if p.certificatePem != "" {
      RecoveredPemIsClean("cert", p.certificatePem);
    }
    PlainInPieces(p);
  }

  lemma SameTextsSameNames(q: Profile, p: Profile)
    requires SameTexts(q, p)
    ensures NamesOf(q) == NamesOf(p)
  {
  }

  lemma InitialNames(text: string, o: Options)
    ensures NamesOf(InitialState(text, o).profile) == Names([], "", "", "")
    ensures NamesOnOneLine(Names([], "", "", ""))
  {
  }

  lemma FinishKeepsNames(r: Outcome)
    requires Finish(r).Parsed?
    ensures r.Going? && NamesOf(Finish(r).report.profile) == NamesOf(r.state.profile)
  {
    hide Hosts;
  }

  lemma PlainInPieces(p: Profile)
    requires Exportable(p)
    requires forall i | 0 <= i < |p.remotes| :: Plain(p.remotes[i].host)
    requires p.cipherOverride == "" || PlainLast(p.cipherOverride)
    requires p.authDigestOverride == "" || PlainLast(p.authDigestOverride)
    requires p.verifyX509Name == "" || Plain(p.verifyX509Name)
    requires p.caPem == "" || CleanPem("ca", p.caPem)
    requires p.certificatePem == "" || CleanPem("cert", p.certificatePem)
    ensures PlainProfile(p)
  {
    hide Plain, PlainLast, Unclosed;
  }

  /**
   A profile that validates, with PEM texts that close no block, is exported and read back with all its texts as they
   were if and only if every host and name is a word that needs no quotes and every PEM text is newline-terminated
   without trailing space.
   */
  lemma RoundTripExactly(p: Profile, o: Options)
    requires Exportable(p)
    ensures
      var r := Parse(Unlines(ExportLines(p)), o);
      r.Parsed? && SameTexts(r.report.profile, p) <==> PlainProfile(p)
  {
    hide ExportLines, Unlines, Parse, PlainProfile, InitialState;
    if PlainProfile(p) {
      ExportRoundTrip(p, o);
    } else {
      var r := Parse(Unlines(ExportLines(p)), o);
      if r.Parsed? && SameTexts(r.report.profile, p) {
        SurvivorIsPlain(p, o);
      }
    }
  }
}
