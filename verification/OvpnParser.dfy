/**
 The OpenVPN configuration reader (Profiles/src/OvpnParser.cpp): lines, inline blocks, and the directives
 that change the profile, warn, are ignored, or are refused.
 */
module OvpnParser {
  import opened Types
  import opened Wrappers
  import opened StringUtil
  import opened Digits
  import opened OvpnLexer

  datatype AuthMethod = Certificate | UserPassword | CertificateAndPassword | UserPasswordTotp | StaticKey

  datatype RemoteEntry = RemoteEntry(host: string, port: U16, transport: Transport)

  datatype Profile = Profile(
    name: string, remotes: seq<RemoteEntry>, authMethod: AuthMethod,
    caPem: string, certificatePem: string, storeThumbprint: string, peerFingerprint: string,
    tlsWrapMode: nat, verifyX509Name: string,
    shuffleRemotes: bool, redirectGateway: bool, mtu: Option<nat>,
    keepaliveInterval: Option<nat>, keepaliveTimeout: Option<nat>, allowCompression: bool,
    cipherOverride: string, authDigestOverride: string, proxyUrl: string, sourceConfig: string)

  /** The side files a configuration may name. */
  datatype FileKind = CaFile | CertFile | PrivateKeyFile

  datatype Warning =
    | CredentialsFile | WeakCipher(cipher: string) | Compression | KeyFile
    | SideFileUnreadable(kind: FileKind, file: string) | InlineKey | NoCa

  /** `sideFile` is what reading a referenced file inside the base directory yields, if it may be read. */
  datatype Options = Options(suggestedName: string, strict: bool, sideFile: string -> Option<string>)

  datatype State = State(
    profile: Profile, ignored: seq<string>, warnings: seq<Warning>,
    protoDefault: string, portDefault: U16, sawCa: bool, sawCert: bool, sawAuthUserPass: bool)

  datatype Error = Disallowed(directive: string) | Unterminated(tag: string) | NoRemote

  datatype Outcome = Going(state: State, rejected: seq<string>) | Failed(error: Error)

  datatype Report = Report(profile: Profile, rejected: seq<string>, ignored: seq<string>, warnings: seq<Warning>)

  datatype ParseResult = Parsed(report: Report) | Refused(error: Error)

  // ---------- numbers and names ----------

  function LeadingDigits(s: string): string {
    if s != "" && IsDigit(s[0], 10) then [s[0]] + LeadingDigits(s[1..]) else ""
  }

  const ULONG_MAX: nat := 0xFFFF_FFFF

  /** `std::strtoul` in base 10 where `unsigned long` has 32 bits: space, a sign, digits; it saturates. */
  function StrToUl(text: string): (n: nat)
    ensures n <= ULONG_MAX
  {
    var s := TrimLeft(text);
    var signed := s != "" && (s[0] == '-' || s[0] == '+');
    var v := Value(LeadingDigits(if signed then s[1..] else s), 10);
    if v > ULONG_MAX then ULONG_MAX
    else if signed && s[0] == '-' && v > 0 then ULONG_MAX + 1 - v
    else v
  }

  function ToPort(n: nat): U16 { n % 0x1_0000 }

  predicate IsWeakCipher(cipher: string) {
    ToUpper(cipher) in ["BF-CBC", "DES-CBC", "DES-EDE3-CBC", "RC2-CBC", "RC4", "NONE", "DES-EDE-CBC"]
  }

  function ParseProto(proto: string): Transport {
    if "tcp" <= ToLower(proto) then Tcp else Udp
  }

  const DANGEROUS: set<string> := {
    "up", "down", "route-up", "route-pre-down", "ipchange", "tls-verify", "auth-user-pass-verify",
    "client-connect", "client-disconnect", "learn-address", "auth-pam", "up-restart", "script-security",
    "plugin", "management", "management-client", "management-external-key" }

  // ---------- directives ----------

  function Remote(s: State, args: seq<string>): State {
    if args == [] then s
    else
      var port := if |args| > 1 then ToPort(StrToUl(args[1])) else s.portDefault;
      var remote := RemoteEntry(args[0], if port == 0 then s.portDefault else port,
        if |args| > 2 then ParseProto(args[2]) else if s.protoDefault == "" then Udp else ParseProto(s.protoDefault));
      s.(profile := s.profile.(remotes := s.profile.remotes + [remote]))
  }

  function WeakCiphers(ciphers: seq<string>): seq<Warning> {
    if ciphers == [] then []
    else (if IsWeakCipher(ciphers[0]) then [WeakCipher(ciphers[0])] else []) + WeakCiphers(ciphers[1..])
  }

  function SideFile(s: State, kind: FileKind, args: seq<string>, options: Options): State {
    if args == [] then s
    else if kind == PrivateKeyFile then s.(warnings := s.warnings + [KeyFile])
    else
      var content := options.sideFile(args[0]);
      if content.None? then s.(warnings := s.warnings + [SideFileUnreadable(kind, args[0])])
      else if kind == CaFile then s.(profile := s.profile.(caPem := content.value), sawCa := true)
      else s.(profile := s.profile.(certificatePem := content.value), sawCert := true)
  }

  function Proxy(s: State, scheme: string, args: seq<string>): State {
    if |args| >= 2 then s.(profile := s.profile.(proxyUrl := scheme + args[0] + ":" + args[1])) else s
  }

  /** What a keyword that is not refused stands for. */
  datatype Meaning =
    | AddsRemote | SetsProto | SetsPort | ShufflesRemotes | AsksPassword | RedirectsTraffic | SetsMtu | SetsKeepalive
    | SetsCipher | SetsDigest | Compresses | VerifiesName | WrapsTls(mode: nat) | UsesProxy(scheme: string)
    | NamesFile(kind: FileKind) | Unlisted

  function MeaningOf(key: string): Meaning {
    if key == "remote" then AddsRemote
    else if key == "proto" then SetsProto
    else if key == "port" || key == "rport" then SetsPort
    else if key == "remote-random" then ShufflesRemotes
    else if key == "auth-user-pass" then AsksPassword
    else if key == "redirect-gateway" || key == "redirect-private" then RedirectsTraffic
    else if key == "mssfix" || key == "tun-mtu" then SetsMtu
    else if key == "keepalive" then SetsKeepalive
    else if key == "cipher" || key == "data-ciphers" then SetsCipher
    else if key == "auth" then SetsDigest
    else if key == "comp-lzo" || key == "compress" || key == "comp-noadapt" then Compresses
    else if key == "verify-x509-name" then VerifiesName
    else if key == "tls-auth" then WrapsTls(0)
    else if key == "tls-crypt" then WrapsTls(1)
    else if key == "tls-crypt-v2" then WrapsTls(2)
    else if key == "http-proxy" then UsesProxy("http://")
    else if key == "socks-proxy" then UsesProxy("socks5://")
    else if key == "ca" then NamesFile(CaFile)
    else if key == "cert" then NamesFile(CertFile)
    else if key == "key" then NamesFile(PrivateKeyFile)
    else Unlisted
  }

  /** `applyDirective` for a directive that is not refused. */
  function Apply(s: State, key: string, args: seq<string>, options: Options): State {
    Effect(s, MeaningOf(key), key, args, options)
  }

  function Effect(s: State, meaning: Meaning, key: string, args: seq<string>, options: Options): State {
    var p := s.profile;
    match meaning
    case AddsRemote => Remote(s, args)
    case SetsProto => if args == [] then s else s.(protoDefault := args[0])
    case SetsPort => if args == [] then s else s.(portDefault := ToPort(StrToUl(args[0])))
    case ShufflesRemotes => s.(profile := p.(shuffleRemotes := true))
    case AsksPassword =>
      s.(sawAuthUserPass := true, warnings := s.warnings + if args == [] then [] else [CredentialsFile])
    case RedirectsTraffic => s.(profile := p.(redirectGateway := true))
    case SetsMtu =>
      if args != [] && 576 <= StrToUl(args[0]) <= 9000 then s.(profile := p.(mtu := Some(StrToUl(args[0])))) else s
    case SetsKeepalive =>
      if |args| >= 2 then
        s.(profile := p.(keepaliveInterval := Some(StrToUl(args[0])), keepaliveTimeout := Some(StrToUl(args[1]))))
      else s
    case SetsCipher =>
      if args == [] then s else s.(profile := p.(cipherOverride := args[0]), warnings := s.warnings + WeakCiphers(args))
    case SetsDigest => if args == [] then s else s.(profile := p.(authDigestOverride := args[0]))
    case Compresses => s.(profile := p.(allowCompression := true), warnings := s.warnings + [Compression])
    case VerifiesName => if args == [] then s else s.(profile := p.(verifyX509Name := args[0]))
    case WrapsTls(mode) => s.(profile := p.(tlsWrapMode := mode))
    case UsesProxy(scheme) => Proxy(s, scheme, args)
    case NamesFile(kind) => SideFile(s, kind, args, options)
    case Unlisted => s.(ignored := s.ignored + [key])
  }

  // ---------- lines and blocks ----------

  /** Blank lines and lines that are only a comment. */
  predicate IsSkipped(raw: string) {
    raw == "" || raw[0] == '#' || raw[0] == ';'
  }

  predicate HasClosingMark(raw: string) {
    exists i | 0 <= i < |raw| - 1 :: raw[i] == '<' && raw[i + 1] == '/'
  }

  predicate IsOpening(raw: string) {
    raw != "" && raw[0] == '<' && raw[|raw| - 1] == '>' && !HasClosingMark(raw)
  }

  function TagOf(raw: string): string
    requires IsOpening(raw)
  {
    ToLower(raw[1..|raw| - 1])
  }

  predicate Closes(line: string, tag: string) {
    EqualsIgnoreCase(Trim(line), "</" + tag + ">")
  }

  /** The index of the first line that closes the block, or the number of lines. */
  function BlockEnd(lines: seq<string>, tag: string): (n: nat)
    ensures n <= |lines|
  {
    if lines == [] || Closes(lines[0], tag) then 0 else 1 + BlockEnd(lines[1..], tag)
  }

  function Body(lines: seq<string>): string {
    if lines == [] then "" else Body(lines[..|lines| - 1]) + TrimRight(lines[|lines| - 1]) + ['\n']
  }

  function ApplyBlock(s: State, tag: string, body: string): State {
    if tag == "ca" then s.(profile := s.profile.(caPem := body), sawCa := true)
    else if tag == "cert" then s.(profile := s.profile.(certificatePem := body), sawCert := true)
    else if tag == "key" then s.(warnings := s.warnings + [InlineKey])
    else s
  }

  /** The directive on a line outside blocks, if there is one. */
  function DirectiveOf(raw: string): seq<string> {
    if IsSkipped(raw) then [] else Tokens(raw)
  }

  /** The loop of `parseOvpn` from some line on. */
  function ParseFrom(lines: seq<string>, s: State, rejected: seq<string>, options: Options): Outcome
    decreases |lines|
  {
    if lines == [] then Going(s, rejected)
    else
      var raw, rest := Trim(lines[0]), lines[1..];
      if IsOpening(raw) then
        var n := BlockEnd(rest, TagOf(raw));
        if n == |rest| then Failed(Unterminated(TagOf(raw)))
        else ParseFrom(rest[n + 1..], ApplyBlock(s, TagOf(raw), Body(rest[..n])), rejected, options)
      else
        var tokens := DirectiveOf(raw);
        if tokens == [] then ParseFrom(rest, s, rejected, options)
        else if ToLower(tokens[0]) in DANGEROUS then
          if options.strict then Failed(Disallowed(ToLower(tokens[0])))
          else ParseFrom(rest, s, rejected + [ToLower(tokens[0])], options)
        else ParseFrom(rest, Apply(s, ToLower(tokens[0]), tokens[1..], options), rejected, options)
  }

  function InitialState(text: string, options: Options): State {
    State(
      Profile(if options.suggestedName == "" then "Imported profile" else options.suggestedName,
        [], Certificate, "", "", "", "", 0, "", false, true, None, None, None, false, "", "", "", text),
      [], [], "", 1194, false, false, false)
  }

  function DecidedMethod(s: State): AuthMethod {
    var hasClientCert := s.sawCert || s.profile.storeThumbprint != "";
    if hasClientCert && s.sawAuthUserPass then CertificateAndPassword
    else if s.sawAuthUserPass then UserPassword
    else if hasClientCert then Certificate
    else s.profile.authMethod
  }

  function Finish(o: Outcome): ParseResult {
    match o
    case Failed(e) => Refused(e)
    case Going(s, rejected) =>
      if s.profile.remotes == [] then Refused(NoRemote)
      else Parsed(Report(s.profile.(authMethod := DecidedMethod(s)), rejected, s.ignored,
        s.warnings + if !s.sawCa && s.profile.peerFingerprint == "" then [NoCa] else []))
  }

  function ParseLines(lines: seq<string>, text: string, options: Options): ParseResult {
    Finish(ParseFrom(lines, InitialState(text, options), [], options))
  }

  function Parse(text: string, options: Options): ParseResult {
    ParseLines(Split(text, '\n'), text, options)
  }

  // ---------- the loops ----------

  lemma NoBody(lines: seq<string>)
    ensures Body(lines[..0]) == ""
  {
  }

  lemma BodyStep(lines: seq<string>, n: nat)
    requires n < |lines|
    ensures Body(lines[..n + 1]) == Body(lines[..n]) + TrimRight(lines[n]) + ['\n']
  {
    hide TrimRight;
    assert lines[..n + 1][..n] == lines[..n];
  }

  /** `readInlineBlock`: `index` stands on the opening line and ends on the closing one. */
  method ReadInlineBlock(lines: seq<string>, index: nat, tag: string) returns (ok: bool, at: nat, body: string)
    requires index < |lines|
    ensures var n := BlockEnd(lines[index + 1..], tag);
      && (ok <==> n < |lines| - index - 1)
      && (ok ==> at == index + 1 + n && body == Body(lines[index + 1..][..n]))
  {
    hide Closes, TrimRight, Body;
    at := index + 1;
    body := "";
    ghost var rest := lines[index + 1..];
    NoBody(rest);
    while at < |lines|
      invariant index + 1 <= at <= |lines|
      invariant BlockEnd(rest, tag) == at - index - 1 + BlockEnd(lines[at..], tag)
      invariant body == Body(rest[..at - index - 1])
    {
      if Closes(lines[at], tag) {
        return true, at, body;
      }
      assert lines[at..][1..] == lines[at + 1..];
      BodyStep(rest, at - index - 1);
      body := body + TrimRight(lines[at]) + ['\n'];
      at := at + 1;
    }
    return false, at, "";
  }

  /** What one line, and the block it may open, contributes. */
  lemma ParseLine(lines: seq<string>, i: nat, s: State, rejected: seq<string>, options: Options)
    requires i < |lines|
    ensures
      var raw, rest := Trim(lines[i]), lines[i + 1..];
      ParseFrom(lines[i..], s, rejected, options) ==
      if IsOpening(raw) then
        var n := BlockEnd(rest, TagOf(raw));
        if n == |rest| then Failed(Unterminated(TagOf(raw)))
        else ParseFrom(lines[i + n + 2..], ApplyBlock(s, TagOf(raw), Body(rest[..n])), rejected, options)
      else
        var tokens := DirectiveOf(raw);
        if tokens == [] then ParseFrom(rest, s, rejected, options)
        else if ToLower(tokens[0]) in DANGEROUS then
          if options.strict then Failed(Disallowed(ToLower(tokens[0])))
          else ParseFrom(rest, s, rejected + [ToLower(tokens[0])], options)
        else ParseFrom(rest, Apply(s, ToLower(tokens[0]), tokens[1..], options), rejected, options)
  {
    hide Apply, ApplyBlock, Trim, DirectiveOf, BlockEnd, Body, IsOpening, TagOf;
    var raw, rest := Trim(lines[i]), lines[i + 1..];
    assert lines[i..][0] == lines[i] && lines[i..][1..] == rest;
    if IsOpening(raw) && BlockEnd(rest, TagOf(raw)) < |rest| {
      assert rest[BlockEnd(rest, TagOf(raw)) + 1..] == lines[i + BlockEnd(rest, TagOf(raw)) + 2..];
    }
  }

  lemma ParseNone(lines: seq<string>, s: State, rejected: seq<string>, options: Options)
    ensures ParseFrom(lines[|lines|..], s, rejected, options) == Going(s, rejected)
  {
  }

  /** `parseOvpn`. */
  method ParseOvpn(text: string, options: Options) returns (r: ParseResult)
    ensures r == Parse(text, options)
  {
    hide Apply, ApplyBlock, Trim, Tokens, BlockEnd, Body, IsOpening, TagOf, IsSkipped, Finish, InitialState, Split,
      ParseFrom;
    var s, rejected := InitialState(text, options), [];
    var lines := SplitPieces(text, '\n', false);
    var i := 0;
    ghost var outcome := ParseFrom(lines, s, rejected, options);
    assert lines[0..] == lines;
    while i < |lines|
      invariant 0 <= i <= |lines|
      invariant outcome == ParseFrom(lines[i..], s, rejected, options)
    {
      var raw := Trim(lines[i]);
      ParseLine(lines, i, s, rejected, options);
      if IsSkipped(raw) {
        SkippedIsNoOpening(raw);
        i := i + 1;
        continue;
      }
      if IsOpening(raw) {
        var tag := TagOf(raw);
        var ok, at, body := ReadInlineBlock(lines, i, tag);
        if !ok {
          return Finish(Failed(Unterminated(tag)));
        }
        s := ApplyBlock(s, tag, body);
        i := at + 1;
        continue;
      }
      var tokens := Tokenize(raw);
      if tokens == [] {
        i := i + 1;
        continue;
      }
      var key := ToLower(tokens[0]);
      if key in DANGEROUS {
        if options.strict {
          return Finish(Failed(Disallowed(key)));
        }
        rejected := rejected + [key];
      } else {
        s := Apply(s, key, tokens[1..], options);
      }
      i := i + 1;
    }
    ParseNone(lines, s, rejected, options);
    return Finish(Going(s, rejected));
  }

  lemma SkippedIsNoOpening(raw: string)
    requires IsSkipped(raw)
    ensures !IsOpening(raw)
  {
  }

  // ---------- disallowed directives have no effect ----------

  /** The lines without those that hold a disallowed directive outside an inline block. */
  function Cleaned(lines: seq<string>): seq<string>
    decreases |lines|
  {
    if lines == [] then []
    else
      var raw, rest := Trim(lines[0]), lines[1..];
      if IsOpening(raw) then
        var n := BlockEnd(rest, TagOf(raw));
        if n == |rest| then lines else [lines[0]] + rest[..n + 1] + Cleaned(rest[n + 1..])
      else
        var tokens := DirectiveOf(raw);
        if tokens != [] && ToLower(tokens[0]) in DANGEROUS then Cleaned(rest) else [lines[0]] + Cleaned(rest)
  }

  /** The keywords of the deleted lines, in order. */
  function Deleted(lines: seq<string>): seq<string>
    decreases |lines|
  {
    if lines == [] then []
    else
      var raw, rest := Trim(lines[0]), lines[1..];
      if IsOpening(raw) then
        var n := BlockEnd(rest, TagOf(raw));
        if n == |rest| then [] else Deleted(rest[n + 1..])
      else
        var tokens := DirectiveOf(raw);
        if tokens != [] && ToLower(tokens[0]) in DANGEROUS then [ToLower(tokens[0])] + Deleted(rest) else Deleted(rest)
  }

  lemma {:induction false} BlockEndStays(block: seq<string>, after: seq<string>, other: seq<string>, tag: string)
    requires BlockEnd(block + after, tag) < |block|
    ensures BlockEnd(block + other, tag) == BlockEnd(block + after, tag)
    decreases |block|
  {
    hide Closes;
    assert (block + after)[0] == block[0] && (block + other)[0] == block[0];
    if !Closes(block[0], tag) {
      assert (block + after)[1..] == block[1..] + after && (block + other)[1..] == block[1..] + other;
      BlockEndStays(block[1..], after, other, tag);
    }
  }

  /** What parsing some lines does to the list of rejected directives: it appends. */
  function Rejecting(o: Outcome, before: seq<string>, more: seq<string>): Outcome {
    if o.Going? then Going(o.state, before + more) else o
  }

  /** Lines that start with a complete block. */
  lemma ParseBlock(opening: string, block: seq<string>, after: seq<string>, s: State, rejected: seq<string>,
      options: Options)
    requires IsOpening(Trim(opening)) && block != []
    requires BlockEnd(block + after, TagOf(Trim(opening))) == |block| - 1
    ensures ParseFrom([opening] + block + after, s, rejected, options)
      == ParseFrom(after, ApplyBlock(s, TagOf(Trim(opening)), Body(block[..|block| - 1])), rejected, options)
  {
    hide IsOpening, TagOf, BlockEnd, Body, ApplyBlock, Trim, Apply, DirectiveOf;
    var lines := [opening] + block + after;
    assert lines[1..] == block + after;
    assert (block + after)[|block|..] == after && (block + after)[..|block| - 1] == block[..|block| - 1];
  }

  lemma ParseDirective(line: string, rest: seq<string>, s: State, rejected: seq<string>, options: Options)
    requires !IsOpening(Trim(line))
    ensures
      var tokens := DirectiveOf(Trim(line));
      ParseFrom([line] + rest, s, rejected, options) ==
        if tokens == [] then ParseFrom(rest, s, rejected, options)
        else if ToLower(tokens[0]) in DANGEROUS then
          if options.strict then Failed(Disallowed(ToLower(tokens[0])))
          else ParseFrom(rest, s, rejected + [ToLower(tokens[0])], options)
        else ParseFrom(rest, Apply(s, ToLower(tokens[0]), tokens[1..], options), rejected, options)
  {
    hide IsOpening, BlockEnd, Body, ApplyBlock, Trim, Apply, DirectiveOf;
    assert ([line] + rest)[1..] == rest;
  }

  lemma {:induction false} CleanedParsesAlike(lines: seq<string>, s: State, rejected: seq<string>, options: Options)
    requires !options.strict
    ensures ParseFrom(lines, s, rejected, options)
      == Rejecting(ParseFrom(Cleaned(lines), s, [], options), rejected, Deleted(lines))
    decreases |lines|
  {
    hide IsOpening, TagOf, BlockEnd, Body, ApplyBlock, Trim, Apply, DirectiveOf, ParseFrom;
    if lines == [] {
      ParseNothing(s, rejected, options);
      ParseNothing(s, [], options);
      assert rejected + [] == rejected;
    } else if IsOpening(Trim(lines[0])) {
      CleanedBlock(lines, s, rejected, options);
    } else {
      var rest, tokens := lines[1..], DirectiveOf(Trim(lines[0]));
      assert lines == [lines[0]] + rest;
      ParseDirective(lines[0], rest, s, rejected, options);
      ParseDirective(lines[0], Cleaned(rest), s, [], options);
      if tokens == [] {
        CleanedParsesAlike(rest, s, rejected, options);
      } else if ToLower(tokens[0]) in DANGEROUS {
        CleanedParsesAlike(rest, s, rejected + [ToLower(tokens[0])], options);
        assert rejected + [ToLower(tokens[0])] + Deleted(rest) == rejected + ([ToLower(tokens[0])] + Deleted(rest));
      } else {
        CleanedParsesAlike(rest, Apply(s, ToLower(tokens[0]), tokens[1..], options), rejected, options);
      }
    }
  }

  lemma ParseNothing(s: State, rejected: seq<string>, options: Options)
    ensures ParseFrom([], s, rejected, options) == Going(s, rejected)
  {
  }

  lemma CleanedBlock(lines: seq<string>, s: State, rejected: seq<string>, options: Options)
    requires !options.strict && lines != [] && IsOpening(Trim(lines[0]))
    ensures ParseFrom(lines, s, rejected, options)
      == Rejecting(ParseFrom(Cleaned(lines), s, [], options), rejected, Deleted(lines))
    decreases |lines|, 0
  {
    hide IsOpening, TagOf, BlockEnd, Body, ApplyBlock, Trim, Apply, DirectiveOf, ParseFrom;
    var rest, tag := lines[1..], TagOf(Trim(lines[0]));
    var n := BlockEnd(rest, tag);
    if n == |rest| {
      ParseUnterminated(lines, s, rejected, options);
      ParseUnterminated(lines, s, [], options);
    } else {
      var block, after := rest[..n + 1], rest[n + 1..];
      assert rest == block + after && lines == [lines[0]] + block + after;
      BlockEndStays(block, after, Cleaned(after), tag);
      ParseBlock(lines[0], block, after, s, rejected, options);
      ParseBlock(lines[0], block, Cleaned(after), s, [], options);
      CleanedParsesAlike(after, ApplyBlock(s, tag, Body(block[..n])), rejected, options);
    }
  }

  lemma ParseUnterminated(lines: seq<string>, s: State, rejected: seq<string>, options: Options)
    requires lines != [] && IsOpening(Trim(lines[0]))
    requires BlockEnd(lines[1..], TagOf(Trim(lines[0]))) == |lines| - 1
    ensures ParseFrom(lines, s, rejected, options) == Failed(Unterminated(TagOf(Trim(lines[0]))))
  {
    hide IsOpening, TagOf, BlockEnd, Body, ApplyBlock, Trim, Apply, DirectiveOf;
  }

  function WithRejected(r: ParseResult, rejected: seq<string>): ParseResult {
    if r.Parsed? then Parsed(r.report.(rejected := rejected)) else r
  }

  /**
   Outside strict mode, deleting every disallowed line outside inline blocks changes nothing but the list of
   rejected directives, which is exactly the list of deleted keywords.
   */
  lemma DisallowedHaveNoEffect(lines: seq<string>, text: string, options: Options)
    requires !options.strict
    ensures ParseLines(lines, text, options) == WithRejected(ParseLines(Cleaned(lines), text, options), Deleted(lines))
    ensures ParseLines(Cleaned(lines), text, options).Parsed? ==>
      ParseLines(Cleaned(lines), text, options).report.rejected == []
  {
    hide InitialState;
    var s := InitialState(text, options);
    CleanedParsesAlike(lines, s, [], options);
    assert [] + Deleted(lines) == Deleted(lines);
    CleanedTwice(lines);
    CleanedParsesAlike(Cleaned(lines), s, [], options);
  }

  lemma {:induction false} CleanedTwice(lines: seq<string>)
    ensures Cleaned(Cleaned(lines)) == Cleaned(lines) && Deleted(Cleaned(lines)) == []
    decreases |lines|
  {
    hide IsOpening, TagOf, Trim, DirectiveOf, BlockEnd;
    if lines != [] {
      var rest, raw := lines[1..], Trim(lines[0]);
      if IsOpening(raw) {
        var n := BlockEnd(rest, TagOf(raw));
        if n < |rest| {
          CleanedTwice(rest[n + 1..]);
          CleanedBlockTwice(lines, n);
        }
      } else {
        CleanedTwice(rest);
        assert ([lines[0]] + Cleaned(rest))[1..] == Cleaned(rest);
      }
    }
  }

  lemma CleanedOfBlock(opening: string, block: seq<string>, after: seq<string>)
    requires IsOpening(Trim(opening)) && block != []
    requires BlockEnd(block + after, TagOf(Trim(opening))) == |block| - 1
    ensures Cleaned([opening] + block + after) == [opening] + block + Cleaned(after)
    ensures Deleted([opening] + block + after) == Deleted(after)
  {
    hide IsOpening, TagOf, Trim, DirectiveOf, BlockEnd;
    var lines := [opening] + block + after;
    assert lines[1..] == block + after;
    assert (block + after)[..|block|] == block && (block + after)[|block|..] == after;
  }

  lemma CleanedBlockTwice(lines: seq<string>, n: nat)
    requires lines != [] && IsOpening(Trim(lines[0]))
    requires n == BlockEnd(lines[1..], TagOf(Trim(lines[0]))) < |lines| - 1
    requires var after := lines[1..][n + 1..]; Cleaned(Cleaned(after)) == Cleaned(after) && Deleted(Cleaned(after)) == []
    ensures Cleaned(Cleaned(lines)) == Cleaned(lines) && Deleted(Cleaned(lines)) == []
  {
    hide IsOpening, TagOf, Trim, DirectiveOf, BlockEnd, Cleaned, Deleted;
    var rest := lines[1..];
    var block, after := rest[..n + 1], rest[n + 1..];
    assert rest == block + after && lines == [lines[0]] + block + after;
    BlockEndStays(block, after, Cleaned(after), TagOf(Trim(lines[0])));
    CleanedOfBlock(lines[0], block, after);
    CleanedOfBlock(lines[0], block, Cleaned(after));
  }

  /** The text without its disallowed lines. */
  function Without(text: string): string {
    Join(Cleaned(Split(text, '\n')), '\n')
  }

  lemma {:induction false} CleanedAreLines(lines: seq<string>)
    requires forall l | l in lines :: '\n' !in l
    ensures forall l | l in Cleaned(lines) :: '\n' !in l
    decreases |lines|
  {
    hide IsOpening, TagOf, Trim, DirectiveOf, BlockEnd;
    if lines != [] {
      var rest, raw := lines[1..], Trim(lines[0]);
      assert lines[0] in lines && forall l | l in rest :: l in lines;
      if IsOpening(raw) {
        var n := BlockEnd(rest, TagOf(raw));
        if n < |rest| {
          CleanedAreLines(rest[n + 1..]);
        }
      } else {
        CleanedAreLines(rest);
      }
    }
  }

  /** The same, for texts: `text` stands for the source that the profile keeps verbatim. */
  lemma DisallowedTextHasNoEffect(text: string, options: Options)
    requires !options.strict
    ensures Parse(text, options)
      == WithRejected(ParseLines(Split(Without(text), '\n'), text, options), Deleted(Split(text, '\n')))
  {
    hide Cleaned, Deleted, InitialState, Finish;
    var lines := Split(text, '\n');
    JoinOfSplit(text, '\n');
    DisallowedHaveNoEffect(lines, text, options);
    CleanedAreLines(lines);
    if Cleaned(lines) == [] {
      assert Split("", '\n') == [""];
      BlankLine(InitialState(text, options), options);
    } else {
      SplitOfJoin(Cleaned(lines), '\n');
    }
  }

  lemma BlankLine(s: State, options: Options)
    ensures ParseFrom([""], s, [], options) == ParseFrom([], s, [], options)
  {
    assert Trim("") == "";
    assert [""][1..] == [];
  }

  /** In strict mode a configuration is accepted exactly when it is accepted otherwise with nothing rejected. */
  lemma {:induction false} StrictIsNothingRejected(lines: seq<string>, s: State, rejected: seq<string>, lax: Options,
      strict: Options)
    requires !lax.strict && strict == lax.(strict := true)
    ensures
      var l, t := ParseFrom(lines, s, rejected, lax), ParseFrom(lines, s, rejected, strict);
      && (t.Going? <==> l.Going? && Deleted(lines) == [])
      && (t.Going? ==> t == l)
    decreases |lines|
  {
    hide IsOpening, TagOf, Body, ApplyBlock, Trim, Apply, DirectiveOf, BlockEnd;
    if lines != [] {
      var rest, raw := lines[1..], Trim(lines[0]);
      if IsOpening(raw) {
        var n := BlockEnd(rest, TagOf(raw));
        if n < |rest| {
          StrictIsNothingRejected(rest[n + 1..], ApplyBlock(s, TagOf(raw), Body(rest[..n])), rejected, lax, strict);
        }
      } else {
        var tokens := DirectiveOf(raw);
        if tokens == [] {
          StrictIsNothingRejected(rest, s, rejected, lax, strict);
        } else if ToLower(tokens[0]) !in DANGEROUS {
          SameApply(s, ToLower(tokens[0]), tokens[1..], lax, strict);
          StrictIsNothingRejected(rest, Apply(s, ToLower(tokens[0]), tokens[1..], lax), rejected, lax, strict);
        }
      }
    }
  }

  lemma SameApply(s: State, key: string, args: seq<string>, lax: Options, strict: Options)
    requires strict == lax.(strict := true)
    ensures Apply(s, key, args, strict) == Apply(s, key, args, lax)
  {
    hide Remote, StrToUl, WeakCiphers, Proxy, MeaningOf;
  }
}
