/**
 Reading an exported configuration back (Profiles/src/OvpnParser.cpp): which profiles survive, and what they become.
 */
module OvpnRoundTrip {
  import opened Types
  import opened Wrappers
  import opened StringUtil
  import opened Digits
  import opened HostNames
  import opened OvpnLexer
  import opened OvpnParser
  import opened OvpnExport

  // ---------- reading lines one by one ----------

  /** Reading these lines takes the reader from one state to another, whatever comes after them. */
  ghost predicate Reads(lines: seq<string>, s: State, t: State, o: Options) {
    forall rest: seq<string> :: ParseFrom(lines + rest, s, [], o) == ParseFrom(rest, t, [], o)
  }

  lemma ReadsNothing(s: State, o: Options)
    ensures Reads([], s, s, o)
  {
    hide ParseFrom;
    forall rest: seq<string> ensures ParseFrom([] + rest, s, [], o) == ParseFrom(rest, s, [], o) {
      assert [] + rest == rest;
    }
  }

  lemma ReadsBoth(a: seq<string>, b: seq<string>, s: State, t: State, u: State, o: Options)
    requires Reads(a, s, t, o) && Reads(b, t, u, o)
    ensures Reads(a + b, s, u, o)
  {
    hide ParseFrom;
    forall rest: seq<string> ensures ParseFrom(a + b + rest, s, [], o) == ParseFrom(rest, u, [], o) {
      assert a + b + rest == a + (b + rest);
      assert ParseFrom(a + (b + rest), s, [], o) == ParseFrom(b + rest, t, [], o);
    }
  }

  /** A word that needs no quotes and holds no space of any kind. */
  predicate PlainToken(t: string) {
    Plain(t) && forall i | 0 <= i < |t| :: !IsSpace(t[i])
  }

  /** A token that survives unquoted at the end of a line, where the reader trims form feeds and vertical tabs too. */
  predicate PlainLast(t: string) {
    Plain(t) && !IsSpace(t[|t| - 1])
  }

  predicate AllPlain(tokens: seq<string>) {
    |tokens| >= 1 && forall i | 0 <= i < |tokens| :: Plain(tokens[i])
  }

  /** Tokens that survive unquoted on one line. */
  predicate PlainTokens(tokens: seq<string>) {
    && AllPlain(tokens) && !IsSpace(tokens[0][0]) && PlainLast(tokens[|tokens| - 1])
  }

  lemma {:induction false} SpacedEnds(tokens: seq<string>)
    requires |tokens| >= 1 && forall i | 0 <= i < |tokens| :: tokens[i] != ""
    ensures
      var l, last := Spaced(tokens), tokens[|tokens| - 1];
      l != "" && l[0] == tokens[0][0] && l[|l| - 1] == last[|last| - 1]
    decreases |tokens|
  {
    if |tokens| > 1 {
      SpacedEnds(tokens[1..]);
    }
  }

  lemma ReadsDirective(tokens: seq<string>, s: State, o: Options)
    requires PlainTokens(tokens) && tokens[0][0] != '<' && ToLower(tokens[0]) !in DANGEROUS
    ensures Reads([Spaced(tokens)], s, Apply(s, ToLower(tokens[0]), tokens[1..], o), o)
  {
    hide ParseFrom, Apply, Tokens;
    var l := Spaced(tokens);
    SpacedEnds(tokens);
    TrimIsIdentity(l);
    TokensOfSpaced(tokens);
    forall rest: seq<string>
      ensures ParseFrom([l] + rest, s, [], o) == ParseFrom(rest, Apply(s, ToLower(tokens[0]), tokens[1..], o), [], o)
    {
      ParseDirective(l, rest, s, [], o);
    }
  }

  // ---------- the lines of the exporter ----------

  lemma PlainKeyword(key: string)
    requires key != "" && forall i | 0 <= i < |key| :: 'a' <= key[i] <= 'z' || '0' <= key[i] <= '9' || key[i] == '-'
    ensures ToLower(key) == key && PlainToken(key) && PlainLast(key) && key[0] != '<' && !IsSpace(key[0])
  {
  }

  lemma NumberIsPlain(n: nat)
    ensures PlainToken(Print(n, 10)) && PlainLast(Print(n, 10))
    ensures n <= ULONG_MAX ==> StrToUl(Print(n, 10)) == n
  {
    hide Print, Value;
    var t := Print(n, 10);
    PrintIsCanonical(n, 10);
    ValueOfPrint(n, 10);
    forall i | 0 <= i < |t| ensures !IsSpecial(t[i]) && !IsSpace(t[i]) && IsDigit(t[i], 10) {
      assert t[i] in t;
    }
    AllLeading(t);
  }

  lemma {:induction false} AllLeading(t: string)
    requires forall i | 0 <= i < |t| :: IsDigit(t[i], 10)
    ensures LeadingDigits(t) == t
  {
    if t != "" {
      AllLeading(t[1..]);
    }
  }

  function Header(s: State): State {
    s.(ignored := s.ignored + ["client"] + ["dev"])
  }

  lemma FirstMeanings()
    ensures MeaningOf("remote") == AddsRemote && MeaningOf("remote-random") == ShufflesRemotes
    ensures MeaningOf("auth-user-pass") == AsksPassword && MeaningOf("redirect-gateway") == RedirectsTraffic
    ensures MeaningOf("tun-mtu") == SetsMtu
  {
  }

  lemma LaterMeanings()
    ensures MeaningOf("cipher") == SetsCipher && MeaningOf("auth") == SetsDigest
    ensures MeaningOf("verify-x509-name") == VerifiesName
  {
  }

  lemma UnlistedMeanings()
    ensures MeaningOf("client") == Unlisted && MeaningOf("dev") == Unlisted
  {
  }

  lemma ExportedMeanings()
    ensures MeaningOf("client") == Unlisted && MeaningOf("dev") == Unlisted
    ensures MeaningOf("remote") == AddsRemote && MeaningOf("remote-random") == ShufflesRemotes
    ensures MeaningOf("auth-user-pass") == AsksPassword && MeaningOf("redirect-gateway") == RedirectsTraffic
    ensures MeaningOf("cipher") == SetsCipher && MeaningOf("auth") == SetsDigest
    ensures MeaningOf("verify-x509-name") == VerifiesName && MeaningOf("tun-mtu") == SetsMtu
  {
    hide MeaningOf;
    FirstMeanings();
    LaterMeanings();
    UnlistedMeanings();
  }

  lemma ReadsHeader(s: State, o: Options)
    ensures Reads(["# Exported by NovaVPN", "client", "dev tun"], s, Header(s), o)
  {
    hide ParseFrom, Reads, Apply;
    var t := s.(ignored := s.ignored + ["client"]);
    ReadsComment(s, o);
    PlainKeyword("client");
    PlainKeyword("dev");
    PlainKeyword("tun");
    SpacedTwo("dev", "tun");
    ApplyUnknown(s, "client", [], o);
    ApplyUnknown(t, "dev", ["tun"], o);
    ReadsDirective(["client"], s, o);
    assert ["client"][1..] == [] && ["dev", "tun"][1..] == ["tun"];
    ReadsDirective(["dev", "tun"], t, o);
    assert Spaced(["client"]) == "client" && Spaced(["dev", "tun"]) == "dev tun";
    ReadsBoth(["# Exported by NovaVPN"], ["client"], s, s, t, o);
    ReadsBoth(["# Exported by NovaVPN"] + ["client"], ["dev tun"], s, t, Header(s), o);
    assert ["# Exported by NovaVPN"] + ["client"] + ["dev tun"] == ["# Exported by NovaVPN", "client", "dev tun"];
  }

  lemma SpacedTwo(a: string, b: string)
    ensures Spaced([a, b]) == a + [' '] + b
  {
    assert [a, b][1..] == [b];
    assert Spaced([b]) == b;
  }

  lemma ApplyUnknown(s: State, key: string, args: seq<string>, o: Options)
    requires key == "client" || key == "dev"
    ensures Apply(s, key, args, o) == s.(ignored := s.ignored + [key])
  {
    hide MeaningOf;
    ExportedMeanings();
  }

  lemma ReadsComment(s: State, o: Options)
    ensures Reads(["# Exported by NovaVPN"], s, s, o)
  {
    hide ParseFrom, Apply, Tokens;
    var l := "# Exported by NovaVPN";
    TrimIsIdentity(l);
    forall rest: seq<string> ensures ParseFrom([l] + rest, s, [], o) == ParseFrom(rest, s, [], o) {
      ParseDirective(l, rest, s, [], o);
    }
  }

  function WithRemotes(s: State, rs: seq<RemoteEntry>): State {
    s.(profile := s.profile.(remotes := s.profile.remotes + rs))
  }

  predicate PlainRemote(r: RemoteEntry) {
    Plain(r.host) && r.port != 0
  }

  lemma ReadsRemote(s: State, r: RemoteEntry, o: Options)
    requires PlainRemote(r)
    ensures Reads([RemoteLine(r)], s, WithRemotes(s, [r]), o)
  {
    hide ParseFrom, Reads, Print, StrToUl, Spaced, PlainToken;
    var tokens := ["remote", r.host, Print(r.port, 10), ProtoText(r.transport)];
    NumberIsPlain(r.port);
    ProtoIsPlain(r.transport);
    PlainKeyword("remote");
    ApplyRemote(s, r, o);
    ReadsDirective(tokens, s, o);
    assert tokens[1..] == [r.host, Print(r.port, 10), ProtoText(r.transport)];
  }

  lemma ApplyRemote(s: State, r: RemoteEntry, o: Options)
    requires r.port != 0 && StrToUl(Print(r.port, 10)) == r.port && ParseProto(ProtoText(r.transport)) == r.transport
    ensures Apply(s, "remote", [r.host, Print(r.port, 10), ProtoText(r.transport)], o) == WithRemotes(s, [r])
  {
    hide StrToUl, Print, ParseProto, ProtoText, MeaningOf;
    ExportedMeanings();
  }

  lemma {:induction false} ReadsRemotes(s: State, rs: seq<RemoteEntry>, o: Options)
    requires forall i | 0 <= i < |rs| :: PlainRemote(rs[i])
    ensures Reads(RemoteLines(rs), s, WithRemotes(s, rs), o)
  {
    hide ParseFrom, Reads, RemoteLine, PlainRemote;
    if rs == [] {
      assert s.profile.remotes + [] == s.profile.remotes;
      ReadsNothing(s, o);
    } else {
      var front, last := rs[..|rs| - 1], rs[|rs| - 1];
      ReadsRemotes(s, front, o);
      ReadsRemote(WithRemotes(s, front), last, o);
      assert front + [last] == rs;
      assert s.profile.remotes + front + [last] == s.profile.remotes + rs;
      assert WithRemotes(WithRemotes(s, front), [last]) == WithRemotes(s, rs);
      ReadsBoth(RemoteLines(front), [RemoteLine(last)], s, WithRemotes(s, front), WithRemotes(s, rs), o);
    }
  }

  lemma ProtoIsPlain(t: Transport)
    ensures PlainToken(ProtoText(t)) && PlainLast(ProtoText(t)) && ParseProto(ProtoText(t)) == t
  {
    PlainKeyword("udp");
    PlainKeyword("tcp");
  }

  /** A line that is there only in some profiles. */
  lemma ReadsWhen(b: bool, tokens: seq<string>, s: State, t: State, o: Options)
    requires b ==> Reads([Spaced(tokens)], s, t, o)
    ensures Reads(When(b, tokens), s, if b then t else s, o)
  {
    ReadsNothing(s, o);
  }

  // ---------- option lines ----------

  function Shuffled(s: State): State { s.(profile := s.profile.(shuffleRemotes := true)) }

  function Asking(s: State): State { s.(sawAuthUserPass := true) }

  function Redirected(s: State): State { s.(profile := s.profile.(redirectGateway := true)) }

  function Ciphered(s: State, c: string): State {
    s.(profile := s.profile.(cipherOverride := c), warnings := s.warnings + if IsWeakCipher(c) then [WeakCipher(c)] else [])
  }

  function Digested(s: State, d: string): State { s.(profile := s.profile.(authDigestOverride := d)) }

  function Named(s: State, n: string): State { s.(profile := s.profile.(verifyX509Name := n)) }

  function Sized(s: State, mtu: nat): State { s.(profile := s.profile.(mtu := Some(mtu))) }

  lemma ReadsRandom(s: State, o: Options)
    ensures Reads([Spaced(["remote-random"])], s, Shuffled(s), o)
  {
    hide ParseFrom, Reads, Apply, Spaced, PlainToken;
    PlainKeyword("remote-random");
    ApplyRandom(s, o);
    ReadsDirective(["remote-random"], s, o);
    assert ["remote-random"][1..] == [];
  }

  lemma ReadsAsking(s: State, o: Options)
    ensures Reads([Spaced(["auth-user-pass"])], s, Asking(s), o)
  {
    hide ParseFrom, Reads, Apply, Spaced, PlainToken;
    PlainKeyword("auth-user-pass");
    ApplyAsking(s, o);
    ReadsDirective(["auth-user-pass"], s, o);
    assert ["auth-user-pass"][1..] == [];
  }

  lemma ReadsRedirect(s: State, o: Options)
    ensures Reads([Spaced(["redirect-gateway", "def1"])], s, Redirected(s), o)
  {
    hide ParseFrom, Reads, Apply, Spaced, PlainToken;
    PlainKeyword("redirect-gateway");
    PlainKeyword("def1");
    ApplyRedirect(s, o);
    ReadsDirective(["redirect-gateway", "def1"], s, o);
    assert ["redirect-gateway", "def1"][1..] == ["def1"];
  }

  lemma ApplyRandom(s: State, o: Options)
    ensures Apply(s, "remote-random", [], o) == Shuffled(s)
  {
    hide MeaningOf;
    ExportedMeanings();
  }

  lemma ApplyAsking(s: State, o: Options)
    ensures Apply(s, "auth-user-pass", [], o) == Asking(s)
  {
    hide MeaningOf;
    ExportedMeanings();
    assert s.warnings + [] == s.warnings;
  }

  lemma ApplyRedirect(s: State, o: Options)
    ensures Apply(s, "redirect-gateway", ["def1"], o) == Redirected(s)
  {
    hide MeaningOf;
    ExportedMeanings();
  }

  lemma ReadsCipher(s: State, c: string, o: Options)
    requires PlainLast(c)
    ensures Reads([Spaced(["cipher", c])], s, Ciphered(s, c), o)
  {
    hide ParseFrom, Reads, Apply, Spaced, PlainToken;
    PlainKeyword("cipher");
    ReadsDirective(["cipher", c], s, o);
    assert ["cipher", c][1..] == [c];
    ApplyCipher(s, c, o);
  }

  lemma ApplyCipher(s: State, c: string, o: Options)
    ensures Apply(s, "cipher", [c], o) == Ciphered(s, c)
  {
    hide IsWeakCipher, MeaningOf;
    ExportedMeanings();
    assert [c][1..] == [];
    assert WeakCiphers([c]) == (if IsWeakCipher(c) then [WeakCipher(c)] else []) + [];
  }

  lemma ReadsDigest(s: State, d: string, o: Options)
    requires PlainLast(d)
    ensures Reads([Spaced(["auth", d])], s, Digested(s, d), o)
  {
    hide ParseFrom, Reads, Apply, Spaced, PlainToken;
    PlainKeyword("auth");
    ReadsDirective(["auth", d], s, o);
    assert ["auth", d][1..] == [d];
    ApplyDigest(s, d, o);
  }

  lemma ReadsName(s: State, n: string, o: Options)
    requires Plain(n)
    ensures Reads([Spaced(["verify-x509-name", n, "name"])], s, Named(s, n), o)
  {
    hide ParseFrom, Reads, Apply, Spaced, PlainToken;
    PlainKeyword("verify-x509-name");
    PlainKeyword("name");
    ReadsDirective(["verify-x509-name", n, "name"], s, o);
    assert ["verify-x509-name", n, "name"][1..] == [n, "name"];
    ApplyName(s, n, o);
  }

  lemma ApplyDigest(s: State, n: string, o: Options)
    ensures Apply(s, "auth", [n], o) == Digested(s, n)
  {
    hide MeaningOf;
    ExportedMeanings();
  }

  lemma ApplyName(s: State, n: string, o: Options)
    ensures Apply(s, "verify-x509-name", [n, "name"], o) == Named(s, n)
  {
    hide MeaningOf;
    ExportedMeanings();
  }

  lemma ReadsMtu(s: State, mtu: nat, o: Options)
    requires 576 <= mtu <= 9000
    ensures Reads([Spaced(["tun-mtu", Print(mtu, 10)])], s, Sized(s, mtu), o)
  {
    hide ParseFrom, Reads, Apply, Spaced, PlainToken, StrToUl, Print;
    PlainKeyword("tun-mtu");
    NumberIsPlain(mtu);
    ReadsDirective(["tun-mtu", Print(mtu, 10)], s, o);
    assert ["tun-mtu", Print(mtu, 10)][1..] == [Print(mtu, 10)];
    ApplyMtu(s, mtu, o);
  }

  lemma ApplyMtu(s: State, mtu: nat, o: Options)
    requires 576 <= mtu <= 9000 && StrToUl(Print(mtu, 10)) == mtu
    ensures Apply(s, "tun-mtu", [Print(mtu, 10)], o) == Sized(s, mtu)
  {
    hide StrToUl, Print, MeaningOf;
    ExportedMeanings();
  }

  predicate PlainOptions(p: Profile) {
    && (p.cipherOverride == "" || PlainLast(p.cipherOverride))
    && (p.authDigestOverride == "" || PlainLast(p.authDigestOverride))
    && (p.verifyX509Name == "" || Plain(p.verifyX509Name))
    && (p.mtu.Some? ==> 576 <= p.mtu.value <= 9000)
  }

  function Options1(s: State, p: Profile): State {
    var a := if p.shuffleRemotes then Shuffled(s) else s;
    var b := if SendsPassword(p.authMethod) then Asking(a) else a;
    if p.redirectGateway then Redirected(b) else b
  }

  function CipherStep(s: State, p: Profile): State {
    if p.cipherOverride != "" then Ciphered(s, p.cipherOverride) else s
  }

  function DigestStep(s: State, p: Profile): State {
    if p.authDigestOverride != "" then Digested(s, p.authDigestOverride) else s
  }

  function NameStep(s: State, p: Profile): State {
    if p.verifyX509Name != "" then Named(s, p.verifyX509Name) else s
  }

  function MtuStep(s: State, p: Profile): State {
    if p.mtu.Some? then Sized(s, p.mtu.value) else s
  }

  function Options2(s: State, p: Profile): State {
    MtuStep(NameStep(DigestStep(CipherStep(s, p), p), p), p)
  }

  lemma ReadsOptions1(s: State, p: Profile, o: Options)
    ensures Reads(When(p.shuffleRemotes, ["remote-random"])
      + When(SendsPassword(p.authMethod), ["auth-user-pass"])
      + When(p.redirectGateway, ["redirect-gateway", "def1"]), s, Options1(s, p), o)
  {
    hide Reads, Spaced, When, Shuffled, Asking, Redirected;
    var a := if p.shuffleRemotes then Shuffled(s) else s;
    var b := if SendsPassword(p.authMethod) then Asking(a) else a;
    ReadsRandom(s, o);
    ReadsAsking(a, o);
    ReadsRedirect(b, o);
    var la, lb := When(p.shuffleRemotes, ["remote-random"]), When(SendsPassword(p.authMethod), ["auth-user-pass"]);
    ReadsWhen(p.shuffleRemotes, ["remote-random"], s, Shuffled(s), o);
    ReadsWhen(SendsPassword(p.authMethod), ["auth-user-pass"], a, Asking(a), o);
    ReadsWhen(p.redirectGateway, ["redirect-gateway", "def1"], b, Redirected(b), o);
    ReadsBoth(la, lb, s, a, b, o);
    ReadsBoth(la + lb, When(p.redirectGateway, ["redirect-gateway", "def1"]), s, b, Options1(s, p), o);
  }

  lemma ReadsOptions2(s: State, p: Profile, o: Options)
    requires PlainOptions(p)
    ensures Reads(When(p.cipherOverride != "", ["cipher", p.cipherOverride])
      + When(p.authDigestOverride != "", ["auth", p.authDigestOverride])
      + When(p.verifyX509Name != "", ["verify-x509-name", p.verifyX509Name, "name"])
      + When(p.mtu.Some?, ["tun-mtu", MtuText(p)]), s, Options2(s, p), o)
  {
    hide Reads, Spaced, When, Ciphered, Digested, Named, Sized, PlainToken, Print;
    var d := CipherStep(s, p);
    var e := DigestStep(d, p);
    var f := NameStep(e, p);
    if p.cipherOverride != "" { ReadsCipher(s, p.cipherOverride, o); }
    if p.authDigestOverride != "" { ReadsDigest(d, p.authDigestOverride, o); }
    if p.verifyX509Name != "" { ReadsName(e, p.verifyX509Name, o); }
    if p.mtu.Some? { ReadsMtu(f, p.mtu.value, o); }
    var ld, le := When(p.cipherOverride != "", ["cipher", p.cipherOverride]),
      When(p.authDigestOverride != "", ["auth", p.authDigestOverride]);
    var lf := When(p.verifyX509Name != "", ["verify-x509-name", p.verifyX509Name, "name"]);
    var lg := When(p.mtu.Some?, ["tun-mtu", MtuText(p)]);
    ReadsWhen(p.cipherOverride != "", ["cipher", p.cipherOverride], s, d, o);
    ReadsWhen(p.authDigestOverride != "", ["auth", p.authDigestOverride], d, e, o);
    ReadsWhen(p.verifyX509Name != "", ["verify-x509-name", p.verifyX509Name, "name"], e, f, o);
    ReadsWhen(p.mtu.Some?, ["tun-mtu", MtuText(p)], f, MtuStep(f, p), o);
    ReadsBoth(ld, le, s, d, e, o);
    ReadsBoth(ld + le, lf, s, e, f, o);
    ReadsBoth(ld + le + lf, lg, s, f, Options2(s, p), o);
  }

  lemma ReadsOptions(s: State, p: Profile, o: Options)
    requires PlainOptions(p)
    ensures Reads(OptionLines(p), s, Options2(Options1(s, p), p), o)
  {
    hide Reads, Spaced, When, Options1, Options2, PlainOptions;
    ReadsOptions1(s, p, o);
    ReadsOptions2(Options1(s, p), p, o);
    var a, b, c := When(p.shuffleRemotes, ["remote-random"]), When(SendsPassword(p.authMethod), ["auth-user-pass"]),
      When(p.redirectGateway, ["redirect-gateway", "def1"]);
    var d, e := When(p.cipherOverride != "", ["cipher", p.cipherOverride]),
      When(p.authDigestOverride != "", ["auth", p.authDigestOverride]);
    var f, g := When(p.verifyX509Name != "", ["verify-x509-name", p.verifyX509Name, "name"]),
      When(p.mtu.Some?, ["tun-mtu", MtuText(p)]);
    ReadsBoth(a + b + c, d + e + f + g, s, Options1(s, p), Options2(Options1(s, p), p), o);
    assert a + b + c + (d + e + f + g) == a + b + c + d + e + f + g;
  }

  // ---------- blocks ----------

  /** Newline-terminated text whose lines carry no trailing space and do not close the block. */
  predicate CleanPem(tag: string, pem: string) {
    pem != "" ==>
      && pem[|pem| - 1] == '\n'
      && forall i | 0 <= i < |PemLines(pem)| :: TrimRight(PemLines(pem)[i]) == PemLines(pem)[i] && !Closes(PemLines(pem)[i], tag)
  }

  lemma {:induction false} BodyIsUnlines(ls: seq<string>)
    requires forall i | 0 <= i < |ls| :: TrimRight(ls[i]) == ls[i]
    ensures Body(ls) == Unlines(ls)
    decreases |ls|
  {
    hide TrimRight;
    if ls != [] {
      var front, last := ls[..|ls| - 1], ls[|ls| - 1];
      BodyIsUnlines(front);
      UnlinesConcat(front, [last]);
      UnlinesOne(last);
      assert front + [last] == ls;
      assert Body(front) + TrimRight(last) + ['\n'] == Body(front) + (last + ['\n']);
    }
  }

  lemma {:induction false} EndOfBlock(ls: seq<string>, closing: string, rest: seq<string>, tag: string)
    requires Closes(closing, tag) && forall i | 0 <= i < |ls| :: !Closes(ls[i], tag)
    ensures BlockEnd(ls + [closing] + rest, tag) == |ls|
    decreases |ls|
  {
    hide Closes;
    var all := ls + [closing] + rest;
    if ls != [] {
      assert all[1..] == ls[1..] + [closing] + rest;
      EndOfBlock(ls[1..], closing, rest, tag);
    }
  }

  predicate IsPemTag(tag: string) { tag == "ca" || tag == "cert" }

  lemma Marks(tag: string)
    requires IsPemTag(tag)
    ensures var opening, closing := "<" + tag + ">", "</" + tag + ">";
      && Trim(opening) == opening && IsOpening(opening) && TagOf(opening) == tag && Closes(closing, tag)
  {
    var opening, closing := "<" + tag + ">", "</" + tag + ">";
    TrimIsIdentity(opening);
    TrimIsIdentity(closing);
    PlainKeyword(tag);
    assert opening[1..|opening| - 1] == tag;
    assert forall i | 0 <= i < |opening| :: opening[i] != '/';
  }

  /** No line of the text closes the block it is put into. */
  predicate Unclosed(tag: string, pem: string) {
    forall i | 0 <= i < |PemLines(pem)| :: !Closes(PemLines(pem)[i], tag)
  }

  /** An exported block that no line of its own closes is read as its lines, right-trimmed. */
  lemma ReadsUnclosedBlock(tag: string, pem: string, s: State, o: Options)
    requires IsPemTag(tag) && Unclosed(tag, pem)
    ensures Reads(BlockLines(tag, pem), s, if pem == "" then s else ApplyBlock(s, tag, Body(PemLines(pem))), o)
  {
    hide ParseFrom, TrimRight, Closes, PemLines, ApplyBlock, IsOpening, TagOf, Trim, BlockEnd, Body;
    if pem == "" {
      ReadsNothing(s, o);
    } else {
      var opening, closing, ls := "<" + tag + ">", "</" + tag + ">", PemLines(pem);
      Marks(tag);
      var block := ls + [closing];
      forall rest: seq<string>
        ensures ParseFrom(BlockLines(tag, pem) + rest, s, [], o) == ParseFrom(rest, ApplyBlock(s, tag, Body(ls)), [], o)
      {
        EndOfBlock(ls, closing, rest, tag);
        ParseBlock(opening, block, rest, s, [], o);
        assert block[..|block| - 1] == ls;
        assert BlockLines(tag, pem) + rest == [opening] + block + rest;
      }
    }
  }

  lemma ReadsBlock(tag: string, pem: string, s: State, o: Options)
    requires IsPemTag(tag) && CleanPem(tag, pem)
    ensures Reads(BlockLines(tag, pem), s, if pem == "" then s else ApplyBlock(s, tag, pem), o)
  {
    hide Reads, TrimRight, Closes, PemLines, ApplyBlock, Body, Unlines, BlockLines;
    if pem == "" {
      NoBlockLines(tag);
      ReadsNothing(s, o);
    } else {
      ReadsUnclosedBlock(tag, pem, s, o);
      BodyIsUnlines(PemLines(pem));
      UnlinesOfPem(pem);
    }
  }

  lemma NoBlockLines(tag: string)
    ensures BlockLines(tag, "") == []
  {
  }

  // ---------- the round trip ----------

  predicate PlainProfile(p: Profile) {
    && (forall i | 0 <= i < |p.remotes| :: PlainRemote(p.remotes[i]))
    && PlainOptions(p) && CleanPem("ca", p.caPem) && CleanPem("cert", p.certificatePem)
  }

  function WithPem(s: State, p: Profile): State {
    var a := if p.caPem == "" then s else ApplyBlock(s, "ca", p.caPem);
    if p.certificatePem == "" then a else ApplyBlock(a, "cert", p.certificatePem)
  }

  function ReadState(s: State, p: Profile): State {
    WithPem(Options2(Options1(WithRemotes(Header(s), p.remotes), p), p), p)
  }

  lemma ReadsExport(s: State, p: Profile, o: Options)
    requires PlainProfile(p)
    ensures Reads(ExportLines(p), s, ReadState(s, p), o)
  {
    hide Reads, RemoteLines, OptionLines, BlockLines, Header, WithRemotes, Options1, Options2, CleanPem, PlainOptions,
      PlainRemote, ApplyBlock;
    var head := ["# Exported by NovaVPN", "client", "dev tun"];
    var a := Header(s);
    var b := WithRemotes(a, p.remotes);
    var c := Options2(Options1(b, p), p);
    var d := if p.caPem == "" then c else ApplyBlock(c, "ca", p.caPem);
    ReadsHeader(s, o);
    ReadsRemotes(a, p.remotes, o);
    ReadsOptions(b, p, o);
    ReadsBlock("ca", p.caPem, c, o);
    ReadsBlock("cert", p.certificatePem, d, o);
    ReadsBoth(head, RemoteLines(p.remotes), s, a, b, o);
    ReadsBoth(head + RemoteLines(p.remotes), OptionLines(p), s, b, c, o);
    ReadsBoth(head + RemoteLines(p.remotes) + OptionLines(p), BlockLines("ca", p.caPem), s, c, d, o);
    ReadsBoth(head + RemoteLines(p.remotes) + OptionLines(p) + BlockLines("ca", p.caPem),
      BlockLines("cert", p.certificatePem),
      s, d, ReadState(s, p), o);
  }

  /** The authentication method an exported configuration stands for. */
  function CarriedMethod(p: Profile): AuthMethod {
    if SendsPassword(p.authMethod) then (if p.certificatePem != "" then CertificateAndPassword else UserPassword)
    else Certificate
  }

  /** What is read back: everything exported, and defaults for what an exported configuration does not carry. */
  function Recovered(p: Profile, text: string, o: Options): Profile {
    InitialState(text, o).profile.(
      remotes := p.remotes, shuffleRemotes := p.shuffleRemotes, redirectGateway := true,
      cipherOverride := p.cipherOverride, authDigestOverride := p.authDigestOverride,
      verifyX509Name := p.verifyX509Name, mtu := p.mtu,
      caPem := p.caPem, certificatePem := p.certificatePem, authMethod := CarriedMethod(p))
  }

  function ExpectedWarnings(p: Profile): seq<Warning> {
    CipherWarnings(p) + if p.caPem == "" then [NoCa] else []
  }

  /** An exported plain profile is read back with nothing rejected, and every exported field as it was. */
  lemma ExportRoundTrip(p: Profile, o: Options)
    requires PlainProfile(p) && p.remotes != []
    ensures
      var text := Unlines(ExportLines(p));
      Parse(text, o) == Parsed(Report(Recovered(p, text, o), [], ["client", "dev"], ExpectedWarnings(p)))
  {
    hide ExportLines, Split, PlainProfile, ReadState, Recovered, InitialState, Finish, Unlines;
    var text := Unlines(ExportLines(p));
    var s := InitialState(text, o);
    ExportHasNoNewlines(p);
    SplitOfUnlines(ExportLines(p));
    ReadsExport(s, p, o);
    LastLine(ExportLines(p), s, ReadState(s, p), o);
    FinishRead(p, text, o);
  }

  lemma LastLine(lines: seq<string>, s: State, t: State, o: Options)
    requires Reads(lines, s, t, o)
    ensures ParseFrom(lines + [""], s, [], o) == Going(t, [])
  {
    hide ParseFrom;
    assert ParseFrom(lines + [""], s, [], o) == ParseFrom([""], t, [], o);
    BlankLine(t, o);
    ParseNothing(t, [], o);
  }

  lemma AfterOptions1(s: State, p: Profile)
    ensures Options1(s, p) == s.(
      profile := s.profile.(
        shuffleRemotes := s.profile.shuffleRemotes || p.shuffleRemotes,
        redirectGateway := s.profile.redirectGateway || p.redirectGateway),
      sawAuthUserPass := s.sawAuthUserPass || SendsPassword(p.authMethod))
  {
  }

  function Chosen(value: string, default: string): string {
    if value != "" then value else default
  }

  function CipherWarnings(p: Profile): seq<Warning> {
    if p.cipherOverride != "" && IsWeakCipher(p.cipherOverride) then [WeakCipher(p.cipherOverride)] else []
  }

  lemma AfterCipher(s: State, p: Profile)
    ensures CipherStep(s, p) == s.(
      profile := s.profile.(cipherOverride := Chosen(p.cipherOverride, s.profile.cipherOverride)),
      warnings := s.warnings + CipherWarnings(p))
  {
    hide IsWeakCipher;
    assert s.warnings + [] == s.warnings;
  }

  lemma AfterNames(s: State, p: Profile)
    ensures DigestStep(s, p) == s.(profile := s.profile.(authDigestOverride := Chosen(p.authDigestOverride, s.profile.authDigestOverride)))
    ensures NameStep(s, p) == s.(profile := s.profile.(verifyX509Name := Chosen(p.verifyX509Name, s.profile.verifyX509Name)))
    ensures MtuStep(s, p) == s.(profile := s.profile.(mtu := if p.mtu.Some? then p.mtu else s.profile.mtu))
  {
  }

  lemma AfterOptions2(s: State, p: Profile)
    ensures Options2(s, p) == s.(
      profile := s.profile.(
        cipherOverride := Chosen(p.cipherOverride, s.profile.cipherOverride),
        authDigestOverride := Chosen(p.authDigestOverride, s.profile.authDigestOverride),
        verifyX509Name := Chosen(p.verifyX509Name, s.profile.verifyX509Name),
        mtu := if p.mtu.Some? then p.mtu else s.profile.mtu),
      warnings := s.warnings + CipherWarnings(p))
  {
    hide CipherStep, DigestStep, NameStep, MtuStep, Chosen, CipherWarnings;
    AfterCipher(s, p);
    AfterNames(CipherStep(s, p), p);
    AfterNames(DigestStep(CipherStep(s, p), p), p);
    AfterNames(NameStep(DigestStep(CipherStep(s, p), p), p), p);
  }

  lemma AfterPem(s: State, p: Profile)
    ensures WithPem(s, p) == s.(
      profile := s.profile.(
        caPem := if p.caPem != "" then p.caPem else s.profile.caPem,
        certificatePem := if p.certificatePem != "" then p.certificatePem else s.profile.certificatePem),
      sawCa := s.sawCa || p.caPem != "", sawCert := s.sawCert || p.certificatePem != "")
  {
  }

  /** The state after reading everything, written out. */
  lemma ReadStateIs(p: Profile, text: string, o: Options)
    ensures ReadState(InitialState(text, o), p) == State(
      Recovered(p, text, o).(authMethod := Certificate), ["client", "dev"], CipherWarnings(p), "", 1194,
      p.caPem != "", p.certificatePem != "", SendsPassword(p.authMethod))
  {
    hide CipherWarnings, Options1, Options2, WithPem, SendsPassword;
    assert [] + p.remotes == p.remotes && [] + CipherWarnings(p) == CipherWarnings(p);
    assert [] + ["client"] + ["dev"] == ["client", "dev"];
    var b := WithRemotes(Header(InitialState(text, o)), p.remotes);
    AfterOptions1(b, p);
    AfterOptions2(Options1(b, p), p);
    AfterPem(Options2(Options1(b, p), p), p);
  }

  lemma FinishRead(p: Profile, text: string, o: Options)
    requires p.remotes != []
    ensures Finish(Going(ReadState(InitialState(text, o), p), []))
      == Parsed(Report(Recovered(p, text, o), [], ["client", "dev"], ExpectedWarnings(p)))
  {
    hide CipherWarnings, ReadState;
    ReadStateIs(p, text, o);
  }

  lemma PlainHasNoNewline(tokens: seq<string>)
    requires AllPlain(tokens)
    ensures '\n' !in Spaced(tokens)
    decreases |tokens|
  {
    if |tokens| > 1 {
      PlainHasNoNewline(tokens[1..]);
    }
  }

  lemma {:induction false} RemotesHaveNoNewlines(rs: seq<RemoteEntry>)
    requires forall i | 0 <= i < |rs| :: PlainRemote(rs[i])
    ensures forall l | l in RemoteLines(rs) :: '\n' !in l
  {
    hide Spaced, Print, PlainToken;
    if rs != [] {
      var r := rs[|rs| - 1];
      RemotesHaveNoNewlines(rs[..|rs| - 1]);
      NumberIsPlain(r.port);
      ProtoIsPlain(r.transport);
      PlainKeyword("remote");
      PlainHasNoNewline(["remote", r.host, Print(r.port, 10), ProtoText(r.transport)]);
    }
  }

  lemma WhenHasNoNewline(b: bool, tokens: seq<string>)
    requires b ==> AllPlain(tokens)
    ensures forall l | l in When(b, tokens) :: '\n' !in l
  {
    hide Spaced, AllPlain;
    if b {
      PlainHasNoNewline(tokens);
    }
  }

  lemma Keywords()
    ensures Plain("remote-random") && Plain("auth-user-pass") && Plain("redirect-gateway")
    ensures Plain("def1") && Plain("cipher") && Plain("auth") && Plain("verify-x509-name")
    ensures Plain("name") && Plain("tun-mtu")
  {
    hide PlainToken, Plain;
    PlainKeyword("remote-random");
    PlainKeyword("auth-user-pass");
    PlainKeyword("redirect-gateway");
    PlainKeyword("def1");
    PlainKeyword("cipher");
    PlainKeyword("auth");
    PlainKeyword("verify-x509-name");
    PlainKeyword("name");
    PlainKeyword("tun-mtu");
  }

  lemma OptionsHaveNoNewlines(p: Profile)
    requires PlainOptions(p)
    ensures forall l | l in OptionLines(p) :: '\n' !in l
  {
    hide Spaced, Print, PlainToken, Plain, When;
    Keywords();
    if p.mtu.Some? {
      NumberIsPlain(p.mtu.value);
    }
    WhenHasNoNewline(p.shuffleRemotes, ["remote-random"]);
    WhenHasNoNewline(SendsPassword(p.authMethod), ["auth-user-pass"]);
    WhenHasNoNewline(p.redirectGateway, ["redirect-gateway", "def1"]);
    WhenHasNoNewline(p.cipherOverride != "", ["cipher", p.cipherOverride]);
    WhenHasNoNewline(p.authDigestOverride != "", ["auth", p.authDigestOverride]);
    WhenHasNoNewline(p.verifyX509Name != "", ["verify-x509-name", p.verifyX509Name, "name"]);
    WhenHasNoNewline(p.mtu.Some?, ["tun-mtu", MtuText(p)]);
  }

  lemma BlockHasNoNewlines(tag: string, pem: string)
    requires IsPemTag(tag)
    ensures forall l | l in BlockLines(tag, pem) :: '\n' !in l
  {
    hide PemLines, Unlines;
    UnlinesOfPem(pem);
  }

  lemma ExportHasNoNewlines(p: Profile)
    requires PlainProfile(p)
    ensures forall l | l in ExportLines(p) :: '\n' !in l
  {
    hide RemoteLines, OptionLines, BlockLines, PlainOptions, CleanPem, PlainRemote;
    RemotesHaveNoNewlines(p.remotes);
    OptionsHaveNoNewlines(p);
    BlockHasNoNewlines("ca", p.caPem);
    BlockHasNoNewlines("cert", p.certificatePem);
  }

  /** The authentication method agrees with the certificate the profile carries. */
  predicate MethodAgrees(p: Profile) {
    match p.authMethod
    case Certificate => true
    case UserPassword => p.certificatePem == ""
    case CertificateAndPassword => p.certificatePem != ""
    case _ => false
  }

  /**
   Exporting a profile and reading the text again gives its authentication method back if and only if the method
   agrees with the certificate it carries, and its redirection if and only if that was on.
   */
  lemma RecoveredExactly(p: Profile, o: Options)
    requires PlainProfile(p) && p.remotes != []
    ensures
      var r := Parse(Unlines(ExportLines(p)), o);
      && r.Parsed?
      && (r.report.profile.authMethod == p.authMethod <==> MethodAgrees(p))
      && (r.report.profile.redirectGateway == p.redirectGateway <==> p.redirectGateway)
  {
    hide ExportLines, PlainProfile, Parse, Unlines, InitialState;
    ExportRoundTrip(p, o);
  }

  /** A valid profile without redirection; exported and read again, it redirects all traffic. */
  const UNREDIRECTED := Profile("p", [RemoteEntry("h", 1194, Udp)], UserPassword, "", "", "", "f", 0, "",
    false, false, None, None, None, false, "", "", "", "")

  lemma RedirectionComesOn(o: Options)
    ensures Validates(UNREDIRECTED) && !UNREDIRECTED.redirectGateway
    ensures
      var r := Parse(Unlines(ExportLines(UNREDIRECTED)), o);
      r.Parsed? && r.report.profile.redirectGateway
  {
    hide ExportLines, Parse, Unlines;
    PlainKeyword("h");
    SplitOfJoin(["h"], '.');
    assert Join(["h"], '.') == "h";
    assert ValidLabel("h");
    RecoveredExactly(UNREDIRECTED, o);
  }
}
