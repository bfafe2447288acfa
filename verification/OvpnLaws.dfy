/**
 What each directive of a configuration means (`parseOvpn`, Profiles/src/OvpnParser.cpp),
   told from the whole file: which
 of several directives counts, and what every field of the profile is then.
 */
module OvpnLaws {
  import opened Types
  import opened Wrappers
  import opened StringUtil
  import opened Digits
  import opened OvpnLexer
  import opened OvpnParser
  import opened OvpnShape
  import opened OvpnExact

  /** What a configuration consists of: directives, word by word, and inline blocks. */
  datatype Item = Words(tokens: seq<string>) | Inline(tag: string, body: string)

  /** The items of a configuration in order, up to a block that never ends. */
  function Items(lines: seq<string>): seq<Item>
    decreases |lines|
  {
    if lines == [] then []
    else
      var raw, rest := Trim(lines[0]), lines[1..];
      if IsOpening(raw) then
        var n := BlockEnd(rest, TagOf(raw));
        if n == |rest| then [] else [Inline(TagOf(raw), Body(rest[..n]))] + Items(rest[n + 1..])
      else if DirectiveOf(raw) == [] then Items(rest)
      else [Words(DirectiveOf(raw))] + Items(rest)
  }

  predicate Terminated(lines: seq<string>)
    decreases |lines|
  {
    if lines == [] then true
    else
      var raw, rest := Trim(lines[0]), lines[1..];
      if IsOpening(raw) then
        var n := BlockEnd(rest, TagOf(raw));
        n < |rest| && Terminated(rest[n + 1..])
      else Terminated(rest)
  }

  // ---------- numbers ----------

  predicate NoDigitFirst(s: string) {
    s == "" || !IsDigit(s[0], 10)
  }

  lemma {:induction false} DigitsFirst(digits: string, rest: string)
    requires AllDigits(digits, 10) && NoDigitFirst(rest)
    ensures LeadingDigits(digits + rest) == digits
    decreases digits
  {
    hide DigitValue;
    if digits == "" {
      assert digits + rest == rest;
    } else {
      assert digits[0] in digits && forall c | c in digits[1..] :: c in digits;
      assert (digits + rest)[1..] == digits[1..] + rest;
      DigitsFirst(digits[1..], rest);
    }
  }

  /** A number is its leading digits, after space and a sign; it stops at 2^32 - 1, and below zero counts from there. */
  lemma NumberIsLeadingDigits(space: string, sign: string, digits: string, rest: string)
    requires AllSpace(space) && (sign == "" || sign == "+" || sign == "-") && AllDigits(digits, 10)
      && NoDigitFirst(rest)
    requires digits == "" && sign == "" ==> rest == "" || (!IsSpace(rest[0]) && rest[0] != '+' && rest[0] != '-')
    ensures
      var n, v := StrToUl(space + sign + digits + rest), Value(digits, 10);
      && (v > 0xFFFF_FFFF ==> n == 0xFFFF_FFFF)
      && (v <= 0xFFFF_FFFF ==> n == if sign == "-" && v > 0 then 0x1_0000_0000 - v else v)
  {
    hide Value, TrimLeft, LeadingDigits;
    var text := sign + digits + rest;
    assert space + sign + digits + rest == space + text;
    if digits != "" {
      assert digits[0] in digits;
      assert !IsSpace(digits[0]) && digits[0] != '+' && digits[0] != '-';
    }
    TrimLeftSkips(space, text);
    DigitsFirst(digits, rest);
    if sign != "" {
      assert text[1..] == digits + rest;
    } else {
      assert text == digits + rest;
    }
  }

  function DirectivesIn(items: seq<Item>): seq<seq<string>> {
    if items == [] then []
    else (if items[0].Words? then [items[0].tokens] else []) + DirectivesIn(items[1..])
  }

  /** The items that are no blocks are the directives. */
  lemma {:induction false} ItemsHoldDirectives(lines: seq<string>)
    ensures DirectivesIn(Items(lines)) == Directives(lines)
    decreases |lines|
  {
    hide IsOpening, TagOf, BlockEnd, Body, Trim, DirectiveOf;
    if lines != [] {
      var raw, rest := Trim(lines[0]), lines[1..];
      if IsOpening(raw) {
        var n := BlockEnd(rest, TagOf(raw));
        if n < |rest| {
          ItemsHoldDirectives(rest[n + 1..]);
          assert Items(lines)[1..] == Items(rest[n + 1..]);
        }
      } else {
        ItemsHoldDirectives(rest);
        if DirectiveOf(raw) != [] {
          assert Items(lines)[1..] == Items(rest);
        }
      }
    }
  }

  /** A name that can stand between angle brackets. */
  predicate IsTag(tag: string) {
    forall i | 0 <= i < |tag| :: tag[i] != '/'
  }

  /** A block goes from its opening line to the first line that closes it, both in any case and with space around. */
  lemma BlockIsItem(tag: string, body: seq<string>, closing: string, rest: seq<string>, opening: string)
    requires IsTag(tag) && Trim(opening) == "<" + tag + ">" && EqualsIgnoreCase(Trim(closing), "</" + tag + ">")
    requires forall i | 0 <= i < |body| :: !EqualsIgnoreCase(Trim(body[i]), "</" + tag + ">")
    ensures Items([opening] + body + [closing] + rest) == [Inline(ToLower(tag), Body(body))] + Items(rest)
  {
    hide Trim, EqualsIgnoreCase, Body, Items, BlockEnd;
    var lines, after := [opening] + body + [closing] + rest, body + [closing] + rest;
    assert lines[0] == opening && lines[1..] == after;
    OpeningIs(tag);
    CaseOfClosing(tag);
    FirstClosing(body, closing, rest, ToLower(tag));
    assert after[..|body|] == body && after[|body| + 1..] == rest;
    ItemsOfBlock(lines, |body|);
  }

  lemma ItemsOfBlock(lines: seq<string>, n: nat)
    requires lines != [] && IsOpening(Trim(lines[0])) && n == BlockEnd(lines[1..], TagOf(Trim(lines[0]))) < |lines| - 1
    ensures Items(lines) == [Inline(TagOf(Trim(lines[0])), Body(lines[1..][..n]))] + Items(lines[1..][n + 1..])
  {
    hide Trim, IsOpening, TagOf, BlockEnd, Body;
  }

  lemma OpeningIs(tag: string)
    requires IsTag(tag)
    ensures IsOpening("<" + tag + ">") && TagOf("<" + tag + ">") == ToLower(tag)
  {
    var raw := "<" + tag + ">";
    assert raw[1..|raw| - 1] == tag;
    assert forall i | 0 <= i < |raw| :: raw[i] != '/';
  }

  lemma CaseOfClosing(tag: string)
    ensures forall t :: EqualsIgnoreCase(t, "</" + ToLower(tag) + ">") <==> EqualsIgnoreCase(t, "</" + tag + ">")
  {
    assert ToLower("</" + ToLower(tag) + ">") == ToLower("</" + tag + ">");
  }

  lemma {:induction false} FirstClosing(body: seq<string>, closing: string, rest: seq<string>, tag: string)
    requires EqualsIgnoreCase(Trim(closing), "</" + tag + ">")
    requires forall i | 0 <= i < |body| :: !EqualsIgnoreCase(Trim(body[i]), "</" + tag + ">")
    ensures BlockEnd(body + [closing] + rest, tag) == |body|
    decreases body
  {
    hide Trim, EqualsIgnoreCase;
    var all := body + [closing] + rest;
    if body != [] {
      assert all[1..] == body[1..] + [closing] + rest;
      FirstClosing(body[1..], closing, rest, tag);
    }
  }

  // ---------- the file read as a sequence of items ----------

  predicate IsDangerous(i: Item) {
    i.Words? && i.tokens != [] && ToLower(i.tokens[0]) in DANGEROUS
  }

  function Stepped(s: State, i: Item, o: Options): State {
    match i
    case Inline(tag, body) => ApplyBlock(s, tag, body)
    case Words(tokens) =>
      if tokens == [] || IsDangerous(i) then s else Apply(s, ToLower(tokens[0]), tokens[1..], o)
  }

  function Fold(s: State, items: seq<Item>, o: Options): State {
    if items == [] then s else Stepped(Fold(s, items[..|items| - 1], o), items[|items| - 1], o)
  }

  lemma FoldSnoc(s: State, items: seq<Item>, i: Item, o: Options)
    ensures Fold(s, items + [i], o) == Stepped(Fold(s, items, o), i, o)
  {
    assert (items + [i])[..|items|] == items;
  }

  predicate AnyDangerous(items: seq<Item>) {
    exists k | 0 <= k < |items| :: IsDangerous(items[k])
  }

  lemma AnyDangerousHead(i: Item, rest: seq<Item>)
    ensures AnyDangerous([i] + rest) <==> IsDangerous(i) || AnyDangerous(rest)
  {
    hide IsDangerous;
    var all := [i] + rest;
    assert all[0] == i;
    if AnyDangerous(rest) {
      var k :| 0 <= k < |rest| && IsDangerous(rest[k]);
      assert all[k + 1] == rest[k];
    }
    if AnyDangerous(all) && !IsDangerous(i) {
      var k :| 0 <= k < |all| && IsDangerous(all[k]);
      assert all[k] == rest[k - 1];
    }
  }

  /** Reading the lines is going through the items; it fails exactly at an open block or, when strict, at danger. */
  lemma {:induction false} ParseIsFold(lines: seq<string>, s: State, before: seq<Item>, rejected: seq<string>,
      o: Options)
    ensures
      var r := ParseFrom(lines, Fold(s, before, o), rejected, o);
      && (r.Going? <==> Terminated(lines) && !(o.strict && AnyDangerous(Items(lines))))
      && (r.Going? ==> r.state == Fold(s, before + Items(lines), o))
    decreases |lines|
  {
    hide Fold, Stepped, Apply, ApplyBlock, IsOpening, TagOf, BlockEnd, Body, Trim, DirectiveOf, IsDangerous,
      AnyDangerous;
    if lines == [] {
      assert before + [] == before;
      NothingDangerous();
    } else {
      var raw, rest := Trim(lines[0]), lines[1..];
      if IsOpening(raw) {
        var n := BlockEnd(rest, TagOf(raw));
        if n < |rest| {
          var i := Inline(TagOf(raw), Body(rest[..n]));
          ItemRead(s, before, i, Items(rest[n + 1..]), o);
          ParseIsFold(rest[n + 1..], s, before + [i], rejected, o);
        }
      } else if DirectiveOf(raw) == [] {
        ParseIsFold(rest, s, before, rejected, o);
      } else {
        var tokens := DirectiveOf(raw);
        ItemRead(s, before, Words(tokens), Items(rest), o);
        if ToLower(tokens[0]) in DANGEROUS {
          ParseIsFold(rest, s, before + [Words(tokens)], rejected + [ToLower(tokens[0])], o);
        } else {
          ParseIsFold(rest, s, before + [Words(tokens)], rejected, o);
        }
      }
    }
  }

  lemma NothingDangerous()
    ensures !AnyDangerous([])
  {
  }

  lemma ItemRead(s: State, before: seq<Item>, i: Item, rest: seq<Item>, o: Options)
    ensures before + [i] + rest == before + ([i] + rest)
    ensures AnyDangerous([i] + rest) <==> IsDangerous(i) || AnyDangerous(rest)
    ensures i.Inline? ==> Fold(s, before + [i], o) == ApplyBlock(Fold(s, before, o), i.tag, i.body) && !IsDangerous(i)
    ensures i.Words? && i.tokens != [] ==>
      && (IsDangerous(i) <==> ToLower(i.tokens[0]) in DANGEROUS)
      && Fold(s, before + [i], o) ==
           if IsDangerous(i) then Fold(s, before, o)
           else Apply(Fold(s, before, o), ToLower(i.tokens[0]), i.tokens[1..], o)
  {
    hide Apply, ApplyBlock, AnyDangerous, Fold;
    FoldSnoc(s, before, i, o);
    AnyDangerousHead(i, rest);
  }

  // ---------- which directive counts ----------

  predicate Is(i: Item, keys: set<string>) {
    i.Words? && i.tokens != [] && ToLower(i.tokens[0]) in keys
  }

  /** The `n`-th word after the keyword. */
  function Arg(i: Item, n: nat): Option<string> {
    if i.Words? && |i.tokens| > n + 1 then Some(i.tokens[n + 1]) else None
  }

  function WordOf(i: Item, keys: set<string>): Option<string> {
    if Is(i, keys) then Arg(i, 0) else None
  }

  /** The first word of the last directive among these that has one. */
  function LastWord(items: seq<Item>, keys: set<string>): Option<string> {
    if items == [] then None
    else
      var w := WordOf(items[|items| - 1], keys);
      if w.Some? then w else LastWord(items[..|items| - 1], keys)
  }

  predicate Has(items: seq<Item>, keys: set<string>) {
    items != [] && (Is(items[|items| - 1], keys) || Has(items[..|items| - 1], keys))
  }

  lemma {:induction false} HasMeans(items: seq<Item>, keys: set<string>)
    ensures Has(items, keys) <==> exists i | 0 <= i < |items| :: Is(items[i], keys)
  {
    hide Is;
    if items != [] {
      var front := items[..|items| - 1];
      HasMeans(front, keys);
      assert forall i | 0 <= i < |front| :: front[i] == items[i];
    }
  }

  predicate NamesTcp(proto: string) {
    |proto| >= 3 && ToLower(proto[..3]) == "tcp"
  }

  function TransportIn(before: seq<Item>, word: Option<string>): Transport {
    if NamesTcp(word.GetOr(LastWord(before, {"proto"}).GetOr(""))) then Tcp else Udp
  }

  function Narrowed(number: string): U16 { StrToUl(number) % 0x1_0000 }

  function DefaultPort(before: seq<Item>): U16 {
    var w := LastWord(before, {"port", "rport"});
    if w.Some? then Narrowed(w.value) else 1194
  }

  /** A port of 0 stands for the default. */
  function PortIn(before: seq<Item>, word: Option<string>): U16 {
    if word.Some? && Narrowed(word.value) != 0 then Narrowed(word.value) else DefaultPort(before)
  }

  /** The servers: one for every `remote` directive with a host, in order. */
  function RemotesIn(items: seq<Item>): seq<RemoteEntry> {
    if items == [] then []
    else
      var before, i := items[..|items| - 1], items[|items| - 1];
      var host := WordOf(i, {"remote"});
      RemotesIn(before)
      + if host.None? then [] else [RemoteEntry(host.value, PortIn(before, Arg(i, 1)), TransportIn(before, Arg(i, 2)))]
  }

  /** The last size that is one. */
  function LastMtu(items: seq<Item>): Option<nat> {
    if items == [] then None
    else
      var w := WordOf(items[|items| - 1], {"mssfix", "tun-mtu"});
      if w.Some? && 576 <= StrToUl(w.value) <= 9000 then Some(StrToUl(w.value)) else LastMtu(items[..|items| - 1])
  }

  /** Interval and timeout of the last `keepalive` that gives both. */
  function LastKeepalive(items: seq<Item>): Option<(nat, nat)> {
    if items == [] then None
    else
      var i := items[|items| - 1];
      if Is(i, {"keepalive"}) && Arg(i, 0).Some? && Arg(i, 1).Some?
      then Some((StrToUl(Arg(i, 0).value), StrToUl(Arg(i, 1).value)))
      else LastKeepalive(items[..|items| - 1])
  }

  function LastTlsMode(items: seq<Item>): nat {
    if items == [] then 0
    else
      var i := items[|items| - 1];
      if Is(i, {"tls-auth"}) then 0
      else if Is(i, {"tls-crypt"}) then 1
      else if Is(i, {"tls-crypt-v2"}) then 2
      else LastTlsMode(items[..|items| - 1])
  }

  function LastProxy(items: seq<Item>): string {
    if items == [] then ""
    else
      var i := items[|items| - 1];
      if Is(i, {"http-proxy"}) && Arg(i, 1).Some? then "http://" + Arg(i, 0).value + ":" + Arg(i, 1).value
      else if Is(i, {"socks-proxy"}) && Arg(i, 1).Some? then "socks5://" + Arg(i, 0).value + ":" + Arg(i, 1).value
      else LastProxy(items[..|items| - 1])
  }

  /** The last block of this name, or readable file that a directive of this name gives. */
  function LastText(items: seq<Item>, name: string, o: Options): Option<string> {
    if items == [] then None
    else
      var i := items[|items| - 1];
      if i.Inline? && i.tag == name then Some(i.body)
      else
        var file := WordOf(i, {name});
        if file.Some? && o.sideFile(file.value).Some? then o.sideFile(file.value)
        else LastText(items[..|items| - 1], name, o)
  }

  /** A warning for every weak one among the words after the keyword. */
  function WeakWords(words: seq<string>): seq<Warning> {
    if words == [] then []
    else
      var last := words[|words| - 1];
      WeakWords(words[..|words| - 1]) + if IsWeakCipher(last) then [WeakCipher(last)] else []
  }

  function WarningsOf(i: Item, o: Options): seq<Warning> {
    if i.Inline? then (if i.tag == "key" then [InlineKey] else [])
    else if Is(i, {"auth-user-pass"}) then (if Arg(i, 0).Some? then [CredentialsFile] else [])
    else if Is(i, {"cipher", "data-ciphers"}) then WeakWords(i.tokens[1..])
    else if Is(i, {"comp-lzo", "compress", "comp-noadapt"}) then [Compression]
    else if Is(i, {"ca", "cert", "key"}) && Arg(i, 0).Some? then FileWarnings(i, Arg(i, 0).value, o)
    else []
  }

  function FileWarnings(i: Item, file: string, o: Options): seq<Warning> {
    if Is(i, {"key"}) then [KeyFile]
    else if o.sideFile(file).Some? then []
    else [SideFileUnreadable(if Is(i, {"ca"}) then CaFile else CertFile, file)]
  }

  function WarningsIn(items: seq<Item>, o: Options): seq<Warning> {
    if items == [] then [] else WarningsIn(items[..|items| - 1], o) + WarningsOf(items[|items| - 1], o)
  }

  // ---------- what one item does ----------

  lemma SafeKeys1(key: string)
    requires key in {"remote", "proto", "port", "rport", "remote-random"}
    ensures key !in DANGEROUS
  {
  }

  lemma SafeKeys2(key: string)
    requires key in {"auth-user-pass", "redirect-gateway", "redirect-private", "mssfix", "tun-mtu"}
    ensures key !in DANGEROUS
  {
  }

  lemma SafeKeys3(key: string)
    requires key in {"keepalive", "cipher", "data-ciphers", "auth", "comp-lzo", "compress"}
    ensures key !in DANGEROUS
  {
  }

  lemma SafeKeys4(key: string)
    requires key in {"comp-noadapt", "verify-x509-name", "tls-auth", "tls-crypt", "tls-crypt-v2"}
    ensures key !in DANGEROUS
  {
  }

  lemma SafeKeys5(key: string)
    requires key in {"http-proxy", "socks-proxy", "ca", "cert", "key"}
    ensures key !in DANGEROUS
  {
  }

  /** No directive that means something is refused. */
  lemma DangerousMeansNothing(key: string)
    requires key in DANGEROUS
    ensures MeaningOf(key) == Unlisted
  {
    hide DANGEROUS;
    if key in {"remote", "proto", "port", "rport", "remote-random"} { SafeKeys1(key); }
    if key in {"auth-user-pass", "redirect-gateway", "redirect-private", "mssfix", "tun-mtu"} { SafeKeys2(key); }
    if key in {"keepalive", "cipher", "data-ciphers", "auth", "comp-lzo", "compress"} { SafeKeys3(key); }
    if key in {"comp-noadapt", "verify-x509-name", "tls-auth", "tls-crypt", "tls-crypt-v2"} { SafeKeys4(key); }
    if key in {"http-proxy", "socks-proxy", "ca", "cert", "key"} { SafeKeys5(key); }
  }

  function KeyOf(i: Item): string {
    if i.Words? && i.tokens != [] then ToLower(i.tokens[0]) else ""
  }

  function ArgsOf(i: Item): seq<string> {
    if i.Words? && i.tokens != [] then i.tokens[1..] else []
  }

  /** An item acts by the meaning of its keyword; what is refused means nothing. */
  lemma StepIsEffect(s: State, i: Item, o: Options)
    requires i.Words? && i.tokens != []
    ensures Stepped(s, i, o).(ignored := []) == Effect(s, MeaningOf(KeyOf(i)), KeyOf(i), ArgsOf(i), o).(ignored := [])
  {
    hide MeaningOf;
    if IsDangerous(i) {
      DangerousMeansNothing(KeyOf(i));
    }
  }

  lemma Meanings1(key: string)
    ensures MeaningOf(key) == AddsRemote <==> key == "remote"
    ensures MeaningOf(key) == SetsProto <==> key == "proto"
    ensures MeaningOf(key) == SetsPort <==> key == "port" || key == "rport"
    ensures MeaningOf(key) == ShufflesRemotes <==> key == "remote-random"
  {
  }

  lemma Meanings2(key: string)
    ensures MeaningOf(key) == AsksPassword <==> key == "auth-user-pass"
    ensures MeaningOf(key) == RedirectsTraffic <==> key == "redirect-gateway" || key == "redirect-private"
    ensures MeaningOf(key) == SetsMtu <==> key == "mssfix" || key == "tun-mtu"
    ensures MeaningOf(key) == SetsKeepalive <==> key == "keepalive"
  {
  }

  lemma Meanings3(key: string)
    ensures MeaningOf(key) == SetsCipher <==> key == "cipher" || key == "data-ciphers"
    ensures MeaningOf(key) == SetsDigest <==> key == "auth"
    ensures MeaningOf(key) == VerifiesName <==> key == "verify-x509-name"
  {
  }

  lemma Meanings4(key: string)
    ensures MeaningOf(key) == Compresses <==> key == "comp-lzo" || key == "compress" || key == "comp-noadapt"
    ensures MeaningOf(key).WrapsTls? ==> MeaningOf(key).mode <= 2
  {
  }

  lemma Meanings7(key: string)
    ensures MeaningOf(key) == WrapsTls(0) <==> key == "tls-auth"
    ensures MeaningOf(key) == WrapsTls(1) <==> key == "tls-crypt"
  {
  }

  lemma Meanings8(key: string)
    ensures MeaningOf(key) == WrapsTls(2) <==> key == "tls-crypt-v2"
  {
  }

  lemma Meanings5(key: string)
    ensures MeaningOf(key) == UsesProxy("http://") <==> key == "http-proxy"
    ensures MeaningOf(key) == UsesProxy("socks5://") <==> key == "socks-proxy"
    ensures MeaningOf(key).UsesProxy? ==> key == "http-proxy" || key == "socks-proxy"
  {
  }

  lemma Meanings6(key: string)
    ensures MeaningOf(key) == NamesFile(CaFile) <==> key == "ca"
    ensures MeaningOf(key) == NamesFile(CertFile) <==> key == "cert"
    ensures MeaningOf(key) == NamesFile(PrivateKeyFile) <==> key == "key"
  {
  }

  // ---------- servers ----------

  predicate FollowsServers(s: State, items: seq<Item>) {
    && s.protoDefault == LastWord(items, {"proto"}).GetOr("") && s.portDefault == DefaultPort(items)
    && s.profile.remotes == RemotesIn(items)
  }

  lemma ProtoIsPrefix(proto: string)
    ensures ParseProto(proto) == if NamesTcp(proto) then Tcp else Udp
  {
    var lowered := ToLower(proto);
    if |proto| >= 3 {
      assert ToLower(proto[..3]) == lowered[..3];
      assert "tcp" <= lowered <==> lowered[..3] == "tcp";
    }
  }

  function RemoteBy(protoDefault: string, portDefault: U16, args: seq<string>): RemoteEntry
    requires args != []
  {
    var port := if |args| > 1 && Narrowed(args[1]) != 0 then Narrowed(args[1]) else portDefault;
    RemoteEntry(args[0], port, if NamesTcp(if |args| > 2 then args[2] else protoDefault) then Tcp else Udp)
  }

  lemma RemoteIsBy(s: State, args: seq<string>)
    ensures Remote(s, args).profile.remotes ==
      s.profile.remotes + if args == [] then [] else [RemoteBy(s.protoDefault, s.portDefault, args)]
    ensures Remote(s, args).protoDefault == s.protoDefault && Remote(s, args).portDefault == s.portDefault
  {
    hide StrToUl, ParseProto, NamesTcp;
    ProtoIsPrefix(s.protoDefault);
    ProtoIsPrefix("");
    if |args| > 2 {
      ProtoIsPrefix(args[2]);
    }
    NoNameIsTcp();
  }

  lemma NoNameIsTcp()
    ensures !NamesTcp("")
  {
  }

  ghost predicate ServersAfter(s: State, m: Meaning, args: seq<string>, t: State) {
    && t.protoDefault == (if m == SetsProto && args != [] then args[0] else s.protoDefault)
    && t.portDefault == (if m == SetsPort && args != [] then Narrowed(args[0]) else s.portDefault)
    && t.profile.remotes == s.profile.remotes
         + if m == AddsRemote && args != [] then [RemoteBy(s.protoDefault, s.portDefault, args)] else []
  }

  lemma FlagOnServers(s: State, m: Meaning, key: string, args: seq<string>, o: Options)
    requires IsFlag(m)
    ensures ServersAfter(s, m, args, Effect(s, m, key, args, o))
  {
    hide StrToUl, RemoteBy;
  }

  lemma ValueOnServers(s: State, m: Meaning, key: string, args: seq<string>, o: Options)
    requires !IsFlag(m) && !m.NamesFile? && !m.UsesProxy? && !m.AddsRemote?
    ensures ServersAfter(s, m, args, Effect(s, m, key, args, o))
  {
    hide StrToUl, RemoteBy, WeakCiphers;
  }

  lemma EffectOnServers(s: State, m: Meaning, key: string, args: seq<string>, o: Options)
    ensures ServersAfter(s, m, args, Effect(s, m, key, args, o))
  {
    hide Effect, RemoteBy, IsFlag, Remote;
    if m.NamesFile? {
      FileLeavesServers(s, m.kind, args, o);
      EffectOfFile(s, m.kind, key, args, o);
    } else if m.UsesProxy? {
      ProxyLeavesRest(s, m.scheme, args);
      EffectOfProxy(s, m.scheme, key, args, o);
    } else if m.AddsRemote? {
      RemoteIsBy(s, args);
      EffectOfRemote(s, key, args, o);
    } else if IsFlag(m) {
      FlagOnServers(s, m, key, args, o);
    } else {
      ValueOnServers(s, m, key, args, o);
    }
  }

  lemma EffectOfProxy(s: State, scheme: string, key: string, args: seq<string>, o: Options)
    ensures Effect(s, UsesProxy(scheme), key, args, o) == Proxy(s, scheme, args)
  {
  }

  lemma FileLeavesServers(s: State, kind: FileKind, args: seq<string>, o: Options)
    ensures
      var t := SideFile(s, kind, args, o);
      t.protoDefault == s.protoDefault && t.portDefault == s.portDefault && t.profile.remotes == s.profile.remotes
  {
  }

  lemma ProxyLeavesRest(s: State, scheme: string, args: seq<string>)
    ensures Proxy(s, scheme, args) == s.(profile := s.profile.(proxyUrl := Proxy(s, scheme, args).profile.proxyUrl))
  {
  }

  lemma StepOnServers(s: State, before: seq<Item>, i: Item, o: Options)
    requires FollowsServers(s, before)
    ensures FollowsServers(Stepped(s, i, o), before + [i])
  {
    hide Apply, Effect, MeaningOf, StrToUl, NamesTcp, LastWord, RemotesIn, Stepped;
    LastWordSnoc(before, i, {"proto"});
    LastWordSnoc(before, i, {"port", "rport"});
    RemotesSnoc(before, i);
    if i.Inline? || i.tokens == [] {
      StillStep(s, i, o);
    } else {
      StepIsEffect(s, i, o);
      Meanings1(KeyOf(i));
      EffectOnServers(s, MeaningOf(KeyOf(i)), KeyOf(i), ArgsOf(i), o);
    }
  }

  lemma StillStep(s: State, i: Item, o: Options)
    requires i.Inline? || i.tokens == []
    ensures
      var t := Stepped(s, i, o);
      && t.protoDefault == s.protoDefault && t.portDefault == s.portDefault && t.sawAuthUserPass == s.sawAuthUserPass
      && t.profile == s.profile.(caPem := t.profile.caPem, certificatePem := t.profile.certificatePem)
  {
  }

  lemma LastWordSnoc(before: seq<Item>, i: Item, keys: set<string>)
    ensures LastWord(before + [i], keys) == if WordOf(i, keys).Some? then WordOf(i, keys) else LastWord(before, keys)
  {
    assert (before + [i])[..|before|] == before;
  }

  lemma RemotesSnoc(before: seq<Item>, i: Item)
    ensures
      var host := WordOf(i, {"remote"});
      RemotesIn(before + [i]) == RemotesIn(before)
        + if host.None? then [] else [RemoteEntry(host.value, PortIn(before, Arg(i, 1)), TransportIn(before, Arg(i, 2)))]
  {
    hide NamesTcp, StrToUl;
    assert (before + [i])[..|before|] == before;
  }

  lemma {:induction false} FoldOnServers(text: string, items: seq<Item>, o: Options)
    ensures FollowsServers(Fold(InitialState(text, o), items, o), items)
    decreases items
  {
    hide Stepped, FollowsServers;
    if items == [] {
      NoServers(InitialState(text, o));
    } else {
      var front, last := items[..|items| - 1], items[|items| - 1];
      assert items == front + [last];
      FoldOnServers(text, front, o);
      StepOnServers(Fold(InitialState(text, o), front, o), front, last, o);
    }
  }

  lemma NoServers(s: State)
    requires s.protoDefault == "" && s.portDefault == 1194 && s.profile.remotes == []
    ensures FollowsServers(s, [])
  {
  }

  // ---------- words, numbers and flags ----------

  predicate FollowsWords(s: State, items: seq<Item>) {
    && s.profile.cipherOverride == LastWord(items, {"cipher", "data-ciphers"}).GetOr("")
    && s.profile.authDigestOverride == LastWord(items, {"auth"}).GetOr("")
    && s.profile.verifyX509Name == LastWord(items, {"verify-x509-name"}).GetOr("")
  }

  predicate FollowsNumbers(s: State, items: seq<Item>) {
    var k := LastKeepalive(items);
    && s.profile.mtu == LastMtu(items)
    && s.profile.keepaliveInterval == (if k.Some? then Some(k.value.0) else None)
    && s.profile.keepaliveTimeout == (if k.Some? then Some(k.value.1) else None)
    && s.profile.tlsWrapMode == LastTlsMode(items) && s.profile.proxyUrl == LastProxy(items)
  }

  predicate FollowsFlags(s: State, items: seq<Item>) {
    && (s.profile.shuffleRemotes <==> Has(items, {"remote-random"}))
    && (s.profile.allowCompression <==> Has(items, {"comp-lzo", "compress", "comp-noadapt"}))
    && (s.sawAuthUserPass <==> Has(items, {"auth-user-pass"}))
  }

  /** What no directive changes. */
  predicate SameRest(s: State, t: State) {
    && t.profile.name == s.profile.name && t.profile.sourceConfig == s.profile.sourceConfig
    && t.profile.storeThumbprint == s.profile.storeThumbprint && t.profile.peerFingerprint == s.profile.peerFingerprint
    && t.profile.authMethod == s.profile.authMethod && (s.profile.redirectGateway ==> t.profile.redirectGateway)
  }

  ghost predicate WordsAfter(s: State, m: Meaning, args: seq<string>, t: State) {
    && t.profile.cipherOverride == (if m == SetsCipher && args != [] then args[0] else s.profile.cipherOverride)
    && t.profile.authDigestOverride == (if m == SetsDigest && args != [] then args[0] else s.profile.authDigestOverride)
    && t.profile.verifyX509Name == (if m == VerifiesName && args != [] then args[0] else s.profile.verifyX509Name)
  }

  ghost predicate NumbersAfter(s: State, m: Meaning, args: seq<string>, t: State) {
    && t.profile.mtu == (if m == SetsMtu && args != [] && 576 <= StrToUl(args[0]) <= 9000 then Some(StrToUl(args[0]))
                         else s.profile.mtu)
    && t.profile.keepaliveInterval
         == (if m == SetsKeepalive && |args| >= 2 then Some(StrToUl(args[0])) else s.profile.keepaliveInterval)
    && t.profile.keepaliveTimeout
         == (if m == SetsKeepalive && |args| >= 2 then Some(StrToUl(args[1])) else s.profile.keepaliveTimeout)
    && t.profile.tlsWrapMode == (if m.WrapsTls? then m.mode else s.profile.tlsWrapMode)
    && t.profile.proxyUrl
         == (if m.UsesProxy? && |args| >= 2 then m.scheme + args[0] + ":" + args[1] else s.profile.proxyUrl)
  }

  ghost predicate FlagsAfter(s: State, m: Meaning, t: State) {
    && (t.profile.shuffleRemotes <==> s.profile.shuffleRemotes || m == ShufflesRemotes)
    && (t.profile.allowCompression <==> s.profile.allowCompression || m == Compresses)
    && (t.sawAuthUserPass <==> s.sawAuthUserPass || m == AsksPassword)
  }

  ghost predicate RestAfter(s: State, m: Meaning, args: seq<string>, t: State) {
    WordsAfter(s, m, args, t) && NumbersAfter(s, m, args, t) && FlagsAfter(s, m, t) && SameRest(s, t)
  }

  lemma FlagOnNumbers(s: State, m: Meaning, key: string, args: seq<string>, o: Options)
    requires IsFlag(m)
    ensures NumbersAfter(s, m, args, Effect(s, m, key, args, o))
  {
    hide StrToUl;
  }

  lemma FlagOnRest(s: State, m: Meaning, key: string, args: seq<string>, o: Options)
    requires IsFlag(m)
    ensures
      var t := Effect(s, m, key, args, o);
      WordsAfter(s, m, args, t) && FlagsAfter(s, m, t) && SameRest(s, t)
  {
    hide StrToUl;
  }

  lemma ValueOnNumbers(s: State, m: Meaning, key: string, args: seq<string>, o: Options)
    requires !IsFlag(m) && !m.NamesFile? && !m.UsesProxy? && !m.AddsRemote?
    ensures NumbersAfter(s, m, args, Effect(s, m, key, args, o))
  {
    hide StrToUl, WeakCiphers;
  }

  lemma ValueOnRest(s: State, m: Meaning, key: string, args: seq<string>, o: Options)
    requires !IsFlag(m) && !m.NamesFile? && !m.UsesProxy? && !m.AddsRemote?
    ensures
      var t := Effect(s, m, key, args, o);
      WordsAfter(s, m, args, t) && FlagsAfter(s, m, t) && SameRest(s, t)
  {
    hide StrToUl, WeakCiphers;
  }

  lemma FileLeavesRest(s: State, kind: FileKind, args: seq<string>, o: Options)
    ensures
      var t := SideFile(s, kind, args, o);
      t == s.(profile := s.profile.(caPem := t.profile.caPem, certificatePem := t.profile.certificatePem),
              warnings := t.warnings, sawCa := t.sawCa, sawCert := t.sawCert)
  {
  }

  lemma FileOnNumbers(s: State, kind: FileKind, args: seq<string>, o: Options)
    ensures NumbersAfter(s, NamesFile(kind), args, SideFile(s, kind, args, o))
  {
    hide StrToUl, SideFile;
    FileLeavesRest(s, kind, args, o);
  }

  lemma FileOnRest(s: State, kind: FileKind, args: seq<string>, o: Options)
    ensures
      var m, t := NamesFile(kind), SideFile(s, kind, args, o);
      WordsAfter(s, m, args, t) && FlagsAfter(s, m, t) && SameRest(s, t)
  {
    hide SideFile;
    FileLeavesRest(s, kind, args, o);
  }

  lemma ProxyOnRest(s: State, scheme: string, args: seq<string>)
    ensures RestAfter(s, UsesProxy(scheme), args, Proxy(s, scheme, args))
  {
    hide StrToUl;
  }

  lemma RemoteOnRest(s: State, args: seq<string>)
    ensures RestAfter(s, AddsRemote, args, Remote(s, args))
  {
    hide StrToUl, ParseProto;
  }

  lemma EffectOnRest(s: State, m: Meaning, key: string, args: seq<string>, o: Options)
    ensures RestAfter(s, m, args, Effect(s, m, key, args, o))
  {
    hide Effect, IsFlag, Remote, WordsAfter, NumbersAfter, FlagsAfter, SameRest;
    if m.NamesFile? {
      FileOnRest(s, m.kind, args, o);
      FileOnNumbers(s, m.kind, args, o);
      EffectOfFile(s, m.kind, key, args, o);
    } else if m.UsesProxy? {
      ProxyOnRest(s, m.scheme, args);
      EffectOfProxy(s, m.scheme, key, args, o);
    } else if m.AddsRemote? {
      RemoteOnRest(s, args);
      EffectOfRemote(s, key, args, o);
    } else if IsFlag(m) {
      FlagOnRest(s, m, key, args, o);
      FlagOnNumbers(s, m, key, args, o);
    } else {
      ValueOnRest(s, m, key, args, o);
      ValueOnNumbers(s, m, key, args, o);
    }
  }

  lemma HasSnoc(before: seq<Item>, i: Item, keys: set<string>)
    ensures Has(before + [i], keys) <==> Is(i, keys) || Has(before, keys)
  {
    assert (before + [i])[..|before|] == before;
  }

  lemma NumbersSnoc(before: seq<Item>, i: Item)
    ensures
      var w := WordOf(i, {"mssfix", "tun-mtu"});
      LastMtu(before + [i]) ==
        if w.Some? && 576 <= StrToUl(w.value) <= 9000 then Some(StrToUl(w.value)) else LastMtu(before)
    ensures LastKeepalive(before + [i]) ==
      if Is(i, {"keepalive"}) && Arg(i, 0).Some? && Arg(i, 1).Some?
      then Some((StrToUl(Arg(i, 0).value), StrToUl(Arg(i, 1).value))) else LastKeepalive(before)
  {
    hide StrToUl;
    assert (before + [i])[..|before|] == before;
  }

  lemma ModesSnoc(before: seq<Item>, i: Item)
    ensures LastTlsMode(before + [i]) ==
      if Is(i, {"tls-auth"}) then 0 else if Is(i, {"tls-crypt"}) then 1 else if Is(i, {"tls-crypt-v2"}) then 2
      else LastTlsMode(before)
    ensures LastProxy(before + [i]) ==
      if Is(i, {"http-proxy"}) && Arg(i, 1).Some? then "http://" + Arg(i, 0).value + ":" + Arg(i, 1).value
      else if Is(i, {"socks-proxy"}) && Arg(i, 1).Some? then "socks5://" + Arg(i, 0).value + ":" + Arg(i, 1).value
      else LastProxy(before)
  {
    assert (before + [i])[..|before|] == before;
  }

  lemma StillRest(s: State, i: Item, o: Options)
    requires i.Inline? || i.tokens == []
    ensures SameRest(s, Stepped(s, i, o))
    ensures forall items :: FollowsWords(s, items) ==> FollowsWords(Stepped(s, i, o), items)
    ensures forall items :: FollowsNumbers(s, items) ==> FollowsNumbers(Stepped(s, i, o), items)
    ensures forall items :: FollowsFlags(s, items) ==> FollowsFlags(Stepped(s, i, o), items)
  {
    hide Stepped, LastWord, LastKeepalive, LastMtu, LastTlsMode, LastProxy, Has;
    StillStep(s, i, o);
  }

  lemma StepOnWords(s: State, before: seq<Item>, i: Item, o: Options)
    requires FollowsWords(s, before)
    ensures FollowsWords(Stepped(s, i, o), before + [i])
  {
    hide Apply, Effect, MeaningOf, StrToUl, LastWord, Stepped, RestAfter, FlagsAfter, NumbersAfter, SameRest,
      FollowsFlags,
      FollowsNumbers;
    LastWordSnoc(before, i, {"cipher", "data-ciphers"});
    LastWordSnoc(before, i, {"auth"});
    LastWordSnoc(before, i, {"verify-x509-name"});
    if i.Inline? || i.tokens == [] {
      StillRest(s, i, o);
    } else {
      StepIsEffect(s, i, o);
      Meanings3(KeyOf(i));
      EffectOnRest(s, MeaningOf(KeyOf(i)), KeyOf(i), ArgsOf(i), o);
      InPieces(s, MeaningOf(KeyOf(i)), ArgsOf(i), Effect(s, MeaningOf(KeyOf(i)), KeyOf(i), ArgsOf(i), o));
    }
  }

  lemma InPieces(s: State, m: Meaning, args: seq<string>, t: State)
    requires RestAfter(s, m, args, t)
    ensures WordsAfter(s, m, args, t) && NumbersAfter(s, m, args, t) && FlagsAfter(s, m, t) && SameRest(s, t)
  {
  }

  lemma StepOnNumbers(s: State, before: seq<Item>, i: Item, o: Options)
    requires FollowsNumbers(s, before)
    ensures FollowsNumbers(Stepped(s, i, o), before + [i])
  {
    hide Apply, Effect, MeaningOf, StrToUl, LastWord, Stepped, RestAfter, FlagsAfter, WordsAfter, SameRest,
      FollowsFlags,
      FollowsWords, LastKeepalive, LastMtu, LastTlsMode, LastProxy;
    NumbersSnoc(before, i);
    ModesSnoc(before, i);
    if i.Inline? || i.tokens == [] {
      StillRest(s, i, o);
    } else {
      var key := KeyOf(i);
      StepIsEffect(s, i, o);
      Meanings2(key);
      Meanings4(key);
      Meanings5(key);
      Meanings7(key);
      Meanings8(key);
      EffectOnRest(s, MeaningOf(key), key, ArgsOf(i), o);
      InPieces(s, MeaningOf(key), ArgsOf(i), Effect(s, MeaningOf(key), key, ArgsOf(i), o));
    }
  }

  lemma StepOnFlags(s: State, before: seq<Item>, i: Item, o: Options)
    requires FollowsFlags(s, before)
    ensures FollowsFlags(Stepped(s, i, o), before + [i]) && SameRest(s, Stepped(s, i, o))
  {
    hide Apply, Effect, MeaningOf, StrToUl, LastWord, Stepped, RestAfter, NumbersAfter, WordsAfter, FollowsNumbers,
      FollowsWords, Has;
    HasSnoc(before, i, {"remote-random"});
    HasSnoc(before, i, {"comp-lzo", "compress", "comp-noadapt"});
    HasSnoc(before, i, {"auth-user-pass"});
    if i.Inline? || i.tokens == [] {
      StillRest(s, i, o);
    } else {
      var key := KeyOf(i);
      StepIsEffect(s, i, o);
      Meanings1(key);
      Meanings2(key);
      Meanings4(key);
      EffectOnRest(s, MeaningOf(key), key, ArgsOf(i), o);
      InPieces(s, MeaningOf(key), ArgsOf(i), Effect(s, MeaningOf(key), key, ArgsOf(i), o));
    }
  }

  lemma {:induction false} FoldOnRest(text: string, items: seq<Item>, o: Options)
    ensures
      var s, t := InitialState(text, o), Fold(InitialState(text, o), items, o);
      FollowsWords(t, items) && FollowsNumbers(t, items) && FollowsFlags(t, items) && SameRest(s, t)
    decreases items
  {
    hide Stepped, FollowsWords, FollowsNumbers, FollowsFlags, InitialState;
    var s := InitialState(text, o);
    if items == [] {
      NothingYet(text, o);
    } else {
      var front, last := items[..|items| - 1], items[|items| - 1];
      assert items == front + [last];
      FoldOnRest(text, front, o);
      StepOnWords(Fold(s, front, o), front, last, o);
      StepOnNumbers(Fold(s, front, o), front, last, o);
      StepOnFlags(Fold(s, front, o), front, last, o);
    }
  }

  lemma NothingYet(text: string, o: Options)
    ensures
      var s := InitialState(text, o);
      FollowsWords(s, []) && FollowsNumbers(s, []) && FollowsFlags(s, [])
  {
  }

  // ---------- files and warnings ----------

  predicate FollowsFiles(s: State, items: seq<Item>, o: Options) {
    var ca, cert := LastText(items, "ca", o), LastText(items, "cert", o);
    && s.profile.caPem == ca.GetOr("") && s.sawCa == ca.Some?
    && s.profile.certificatePem == cert.GetOr("") && s.sawCert == cert.Some?
    && s.warnings == WarningsIn(items, o)
  }

  lemma {:induction false} WeakCiphersAre(words: seq<string>)
    ensures WeakCiphers(words) == WeakWords(words)
    decreases words
  {
    hide IsWeakCipher;
    if words != [] {
      var front, last := words[..|words| - 1], words[|words| - 1];
      WeakCiphersAre(front);
      WeakCiphersSnoc(front, last);
      assert words == front + [last];
    }
  }

  lemma {:induction false} WeakCiphersSnoc(front: seq<string>, last: string)
    ensures WeakCiphers(front + [last]) == WeakCiphers(front) + if IsWeakCipher(last) then [WeakCipher(last)] else []
    decreases front
  {
    hide IsWeakCipher;
    var own := if IsWeakCipher(last) then [WeakCipher(last)] else [];
    if front == [] {
      assert front + [last] == [last] && [last][1..] == [];
      assert own + [] == own && [] + own == own;
    } else {
      assert (front + [last])[1..] == front[1..] + [last];
      WeakCiphersSnoc(front[1..], last);
    }
  }

  ghost predicate FilesAfter(s: State, m: Meaning, args: seq<string>, o: Options, t: State) {
    var text := if args == [] then None else o.sideFile(args[0]);
    && t.profile.caPem == (if m == NamesFile(CaFile) && text.Some? then text.value else s.profile.caPem)
    && t.sawCa == (s.sawCa || (m == NamesFile(CaFile) && text.Some?))
    && t.profile.certificatePem == (if m == NamesFile(CertFile)
      && text.Some? then text.value else s.profile.certificatePem)
    && t.sawCert == (s.sawCert || (m == NamesFile(CertFile) && text.Some?))
    && t.warnings == s.warnings + WarningsBy(m, args, o)
  }

  function WarningsBy(m: Meaning, args: seq<string>, o: Options): seq<Warning> {
    match m
    case AsksPassword => if args == [] then [] else [CredentialsFile]
    case SetsCipher => WeakWords(args)
    case Compresses => [Compression]
    case NamesFile(kind) =>
      if args == [] then []
      else if kind == PrivateKeyFile then [KeyFile]
      else if o.sideFile(args[0]).Some? then []
      else [SideFileUnreadable(kind, args[0])]
    case _ => []
  }

  lemma FlagOnFiles(s: State, m: Meaning, key: string, args: seq<string>, o: Options)
    requires IsFlag(m)
    ensures FilesAfter(s, m, args, o, Effect(s, m, key, args, o))
  {
    hide StrToUl;
    assert s.warnings + [] == s.warnings;
  }

  lemma ValueOnFiles(s: State, m: Meaning, key: string, args: seq<string>, o: Options)
    requires !IsFlag(m) && !m.NamesFile? && !m.UsesProxy? && !m.AddsRemote?
    ensures FilesAfter(s, m, args, o, Effect(s, m, key, args, o))
  {
    hide StrToUl, WeakCiphers, WeakWords;
    assert s.warnings + [] == s.warnings;
    WeakCiphersAre(args);
    NoWeakWords();
  }

  lemma NoWeakWords()
    ensures WeakWords([]) == []
  {
  }

  lemma FileOnFiles(s: State, kind: FileKind, args: seq<string>, o: Options)
    ensures FilesAfter(s, NamesFile(kind), args, o, SideFile(s, kind, args, o))
  {
    assert s.warnings + [] == s.warnings;
  }

  lemma OthersOnFiles(s: State, scheme: string, args: seq<string>, o: Options)
    ensures FilesAfter(s, UsesProxy(scheme), args, o, Proxy(s, scheme, args))
    ensures FilesAfter(s, AddsRemote, args, o, Remote(s, args))
  {
    hide StrToUl, ParseProto;
    assert s.warnings + [] == s.warnings;
  }

  lemma EffectOnFiles(s: State, m: Meaning, key: string, args: seq<string>, o: Options)
    ensures FilesAfter(s, m, args, o, Effect(s, m, key, args, o))
  {
    hide Effect, IsFlag, Remote, FilesAfter;
    if m.NamesFile? {
      FileOnFiles(s, m.kind, args, o);
      EffectOfFile(s, m.kind, key, args, o);
    } else if m.UsesProxy? {
      OthersOnFiles(s, m.scheme, args, o);
      EffectOfProxy(s, m.scheme, key, args, o);
    } else if m.AddsRemote? {
      OthersOnFiles(s, "", args, o);
      EffectOfRemote(s, key, args, o);
    } else if IsFlag(m) {
      FlagOnFiles(s, m, key, args, o);
    } else {
      ValueOnFiles(s, m, key, args, o);
    }
  }

  lemma TextSnoc(before: seq<Item>, i: Item, name: string, o: Options)
    ensures
      var file := WordOf(i, {name});
      LastText(before + [i], name, o) ==
        if i.Inline? && i.tag == name then Some(i.body)
        else if file.Some? && o.sideFile(file.value).Some? then o.sideFile(file.value)
        else LastText(before, name, o)
  {
    assert (before + [i])[..|before|] == before;
  }

  lemma WarningsSnoc(before: seq<Item>, i: Item, o: Options)
    ensures WarningsIn(before + [i], o) == WarningsIn(before, o) + WarningsOf(i, o)
  {
    hide WarningsOf;
    assert (before + [i])[..|before|] == before;
  }

  /** The warnings of a directive, by its keyword and by its meaning. */
  lemma WarningsAgree(i: Item, o: Options)
    requires i.Words? && i.tokens != []
    ensures WarningsOf(i, o) == WarningsBy(MeaningOf(KeyOf(i)), ArgsOf(i), o)
  {
    hide MeaningOf, WeakWords;
    var key := KeyOf(i);
    Meanings2(key);
    Meanings3(key);
    Meanings4(key);
    Meanings6(key);
    NoWeakWords();
  }

  lemma BlockOnFiles(s: State, before: seq<Item>, i: Item, o: Options)
    requires FollowsFiles(s, before, o) && i.Inline?
    ensures FollowsFiles(Stepped(s, i, o), before + [i], o)
  {
    hide LastText, WarningsIn;
    TextSnoc(before, i, "ca", o);
    TextSnoc(before, i, "cert", o);
    WarningsSnoc(before, i, o);
    assert s.warnings + [] == s.warnings;
  }

  lemma StepOnFiles(s: State, before: seq<Item>, i: Item, o: Options)
    requires FollowsFiles(s, before, o)
    ensures FollowsFiles(Stepped(s, i, o), before + [i], o)
  {
    hide Effect, MeaningOf, LastText, WarningsIn, WarningsOf, WarningsBy;
    if i.Inline? {
      BlockOnFiles(s, before, i, o);
    } else if i.tokens == [] {
      TextSnoc(before, i, "ca", o);
      TextSnoc(before, i, "cert", o);
      WarningsSnoc(before, i, o);
      NoWarnings(i, o);
      assert s.warnings + [] == s.warnings;
    } else {
      hide Stepped;
      var key := KeyOf(i);
      TextSnoc(before, i, "ca", o);
      TextSnoc(before, i, "cert", o);
      WarningsSnoc(before, i, o);
      StepIsEffect(s, i, o);
      Meanings6(key);
      WarningsAgree(i, o);
      EffectOnFiles(s, MeaningOf(key), key, ArgsOf(i), o);
    }
  }

  lemma NoWarnings(i: Item, o: Options)
    requires i.Words? && i.tokens == []
    ensures WarningsOf(i, o) == []
  {
  }

  lemma {:induction false} FoldOnFiles(text: string, items: seq<Item>, o: Options)
    ensures FollowsFiles(Fold(InitialState(text, o), items, o), items, o)
    decreases items
  {
    hide Stepped, FollowsFiles;
    if items == [] {
      NoFiles(InitialState(text, o), o);
    } else {
      var front, last := items[..|items| - 1], items[|items| - 1];
      assert items == front + [last];
      FoldOnFiles(text, front, o);
      StepOnFiles(Fold(InitialState(text, o), front, o), front, last, o);
    }
  }

  lemma NoFiles(s: State, o: Options)
    requires s.profile.caPem == "" && s.profile.certificatePem == "" && !s.sawCa && !s.sawCert && s.warnings == []
    ensures FollowsFiles(s, [], o)
  {
  }

  // ---------- the whole report ----------

  /** How the client authenticates: a certificate and a password each if the file carries one. */
  function MethodIn(items: seq<Item>, o: Options): AuthMethod {
    if !Has(items, {"auth-user-pass"}) then Certificate
    else if LastText(items, "cert", o).Some? then CertificateAndPassword
    else UserPassword
  }

  /**
   A configuration is accepted if and only if its blocks end, it names a server, and, when strict, nothing is
   dangerous.
   */
  lemma AcceptedExactly(text: string, o: Options)
    ensures
      var lines := Split(text, '\n');
      Parse(text, o).Parsed? <==>
        Terminated(lines) && RemotesIn(Items(lines)) != [] && !(o.strict && AnyDangerous(Items(lines)))
  {
    hide ParseFrom, Fold, Split, Items, Terminated, AnyDangerous, RemotesIn, InitialState, LastWord, DefaultPort;
    ParsedStateIs(text, o);
    FoldOnServers(text, Items(Split(text, '\n')), o);
  }

  lemma ParsedStateIs(text: string, o: Options)
    ensures
      var lines := Split(text, '\n');
      var r := ParseFrom(lines, InitialState(text, o), [], o);
      && (r.Going? <==> Terminated(lines) && !(o.strict && AnyDangerous(Items(lines))))
      && (r.Going? ==> r.state == Fold(InitialState(text, o), Items(lines), o))
  {
    hide ParseFrom, Split, Items, Terminated, AnyDangerous, InitialState;
    var lines := Split(text, '\n');
    ParseIsFold(lines, InitialState(text, o), [], [], o);
    assert [] + Items(lines) == Items(lines);
  }

  /**
   Every field of an accepted profile, told from the directives and blocks of the file: the last one that counts sets it,
   and every server has the port and transport it names or those in force where it stands.
   */
  lemma ReportByItems(text: string, o: Options)
    requires Parse(text, o).Parsed?
    ensures
      var items, report := Items(Split(text, '\n')), Parse(text, o).report;
      var p, k := report.profile, LastKeepalive(items);
      && p.remotes == RemotesIn(items)
      && p.cipherOverride == LastWord(items, {"cipher", "data-ciphers"}).GetOr("")
      && p.authDigestOverride == LastWord(items, {"auth"}).GetOr("")
      && p.verifyX509Name == LastWord(items, {"verify-x509-name"}).GetOr("")
      && p.mtu == LastMtu(items)
      && p.keepaliveInterval == (if k.Some? then Some(k.value.0) else None)
      && p.keepaliveTimeout == (if k.Some? then Some(k.value.1) else None)
      && p.tlsWrapMode == LastTlsMode(items) && p.proxyUrl == LastProxy(items)
      && (p.shuffleRemotes <==> Has(items, {"remote-random"}))
      && (p.allowCompression <==> Has(items, {"comp-lzo", "compress", "comp-noadapt"}))
      && p.caPem == LastText(items, "ca", o).GetOr("") && p.certificatePem == LastText(items, "cert", o).GetOr("")
      && p.authMethod == MethodIn(items, o) && p.redirectGateway
      && p.sourceConfig == text && p.name == (if o.suggestedName == "" then "Imported profile" else o.suggestedName)
      && report.warnings == WarningsIn(items, o) + if LastText(items, "ca", o).None? then [NoCa] else []
  {
    hide ParseFrom, Fold, Split, Items, Terminated, AnyDangerous, RemotesIn, LastWord, DefaultPort, LastMtu,
      LastKeepalive,
      LastTlsMode, LastProxy, Has, LastText, WarningsIn;
    var items := Items(Split(text, '\n'));
    ParsedStateIs(text, o);
    FoldOnServers(text, items, o);
    FoldOnRest(text, items, o);
    FoldOnFiles(text, items, o);
  }
}
