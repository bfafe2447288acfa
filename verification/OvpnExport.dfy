/** The exporter (`exportOvpn`, Profiles/src/OvpnParser.cpp) and what reading its output gives back. */
module OvpnExport {
  import opened Types
  import opened Wrappers
  import opened StringUtil
  import opened HostNames
  import opened Digits
  import opened IpV6Format
  import opened OvpnLexer
  import opened OvpnParser

  // ---------- validation ----------

  predicate ValidRemote(r: RemoteEntry) {
    r.host != "" && (ParseAddress(r.host).Some? || ValidHostName(r.host)) && r.port != 0
  }

  /** A server that cannot be named: neither address nor host name, or no port. */
  predicate BadRemote(r: RemoteEntry) {
    r.port == 0 || (ParseAddress(r.host).None? && !ValidHostName(r.host))
  }

  lemma RemoteIsBad(r: RemoteEntry)
    ensures BadRemote(r) <==> !ValidRemote(r)
  {
    hide ValidHostName;
    NoHostIsBad();
  }

  lemma NoHostIsBad()
    ensures ParseAddress("").None? && !ValidHostName("")
  {
    assert Trim("") == "";
  }

  predicate RequiresCertificate(m: AuthMethod) {
    m == Certificate || m == CertificateAndPassword
  }

  /** `Profile::validate` on the modelled fields. */
  predicate Validates(p: Profile) {
    && 1 <= |p.name| <= 128 && 1 <= |p.remotes| <= 64
    && (forall i | 0 <= i < |p.remotes| :: ValidRemote(p.remotes[i]))
    && (RequiresCertificate(p.authMethod) ==> p.certificatePem != "" || p.storeThumbprint != "")
    && (p.caPem == "" && p.peerFingerprint == "" ==> p.authMethod == StaticKey)
    && (p.mtu.Some? ==> 576 <= p.mtu.value <= 9000)
  }

  // ---------- the exported lines ----------

  function ProtoText(t: Transport): string {
    if t == Udp then "udp" else "tcp"
  }

  predicate SendsPassword(m: AuthMethod) {
    m == UserPassword || m == CertificateAndPassword || m == UserPasswordTotp
  }

  /** The lines of a text; a final newline ends the last line. */
  function PemLines(pem: string): seq<string> {
    var ls := Split(pem, '\n');
    if ls[|ls| - 1] == "" then ls[..|ls| - 1] else ls
  }

  function RemoteLine(r: RemoteEntry): string {
    Spaced(["remote", r.host, Print(r.port, 10), ProtoText(r.transport)])
  }

  function RemoteLines(rs: seq<RemoteEntry>): seq<string> {
    if rs == [] then [] else RemoteLines(rs[..|rs| - 1]) + [RemoteLine(rs[|rs| - 1])]
  }

  function When(b: bool, tokens: seq<string>): seq<string> {
    if b then [Spaced(tokens)] else []
  }

  function MtuText(p: Profile): string {
    if p.mtu.Some? then Print(p.mtu.value, 10) else ""
  }

  function OptionLines(p: Profile): seq<string> {
    When(p.shuffleRemotes, ["remote-random"])
    + When(SendsPassword(p.authMethod), ["auth-user-pass"])
    + When(p.redirectGateway, ["redirect-gateway", "def1"])
    + When(p.cipherOverride != "", ["cipher", p.cipherOverride])
    + When(p.authDigestOverride != "", ["auth", p.authDigestOverride])
    + When(p.verifyX509Name != "", ["verify-x509-name", p.verifyX509Name, "name"])
    + When(p.mtu.Some?, ["tun-mtu", MtuText(p)])
  }

  function BlockLines(tag: string, pem: string): seq<string> {
    if pem == "" then [] else ["<" + tag + ">"] + PemLines(pem) + ["</" + tag + ">"]
  }

  function ExportLines(p: Profile): seq<string> {
    ["# Exported by NovaVPN", "client", "dev tun"] + RemoteLines(p.remotes) + OptionLines(p)
    + BlockLines("ca", p.caPem) + BlockLines("cert", p.certificatePem)
  }

  function Unlines(ls: seq<string>): string {
    if ls == [] then "" else ls[0] + ['\n'] + Unlines(ls[1..])
  }

  lemma {:induction false} UnlinesConcat(a: seq<string>, b: seq<string>)
    ensures Unlines(a + b) == Unlines(a) + Unlines(b)
    decreases |a|
  {
    if a == [] {
      assert a + b == b;
    } else {
      assert (a + b)[1..] == a[1..] + b;
      UnlinesConcat(a[1..], b);
    }
  }

  lemma UnlinesOne(l: string)
    ensures Unlines([l]) == l + ['\n']
  {
    assert [l][1..] == [];
  }

  lemma {:induction false} JoinIsUnlines(ls: seq<string>)
    ensures Join(ls + [""], '\n') == Unlines(ls)
    ensures ls != [] ==> Join(ls, '\n') + ['\n'] == Unlines(ls)
    decreases |ls|
  {
    if ls == [] {
      assert ls + [""] == [""];
    } else {
      assert (ls + [""])[1..] == ls[1..] + [""];
      JoinIsUnlines(ls[1..]);
      if |ls| == 1 {
        UnlinesOne(ls[0]);
        assert ls == [ls[0]];
      }
    }
  }

  /** Writing the lines of a text back adds at most the missing final newline. */
  lemma UnlinesOfPem(pem: string)
    ensures Unlines(PemLines(pem)) == if pem == "" || pem[|pem| - 1] == '\n' then pem else pem + ['\n']
    ensures forall l | l in PemLines(pem) :: '\n' !in l
  {
    hide Split;
    var ls := Split(pem, '\n');
    JoinOfSplit(pem, '\n');
    var last, front := ls[|ls| - 1], ls[..|ls| - 1];
    assert ls == front + [last];
    if last == "" {
      JoinIsUnlines(front);
      UnlinesEnd(front);
    } else {
      JoinIsUnlines(ls);
      LastCharOfJoin(front, last);
    }
  }

  lemma {:induction false} UnlinesEnd(ls: seq<string>)
    ensures ls == [] ==> Unlines(ls) == ""
    ensures ls != [] ==> Unlines(ls) != "" && Unlines(ls)[|Unlines(ls)| - 1] == '\n'
  {
    if ls != [] {
      UnlinesEnd(ls[1..]);
    }
  }

  lemma {:induction false} LastCharOfJoin(front: seq<string>, last: string)
    requires last != "" && '\n' !in last
    ensures var t := Join(front + [last], '\n'); t != "" && t[|t| - 1] == last[|last| - 1] && t[|t| - 1] != '\n'
    decreases |front|
  {
    if front == [] {
      assert front + [last] == [last];
    } else {
      assert (front + [last])[1..] == front[1..] + [last];
      LastCharOfJoin(front[1..], last);
    }
  }

  lemma SplitOfUnlines(ls: seq<string>)
    requires forall l | l in ls :: '\n' !in l
    ensures Split(Unlines(ls), '\n') == ls + [""]
  {
    hide Split;
    JoinIsUnlines(ls);
    SplitOfJoin(ls + [""], '\n');
  }

  // ---------- the exporter ----------

  /** `out.append(line)` for a line of the given tokens, when there is one. */
  method AppendWhen(out: string, b: bool, tokens: seq<string>) returns (r: string)
    ensures r == out + Unlines(When(b, tokens))
  {
    UnlinesOne(Spaced(tokens));
    r := if b then out + Spaced(tokens) + ['\n'] else out;
  }

  function OpeningText(tag: string): string { "<" + tag + ">\n" }

  function ClosingText(tag: string): string { "</" + tag + ">\n" }

  lemma BlockText(tag: string, pem: string)
    requires pem != ""
    ensures Unlines(BlockLines(tag, pem))
      == OpeningText(tag) + (if pem[|pem| - 1] == '\n' then pem else pem + ['\n']) + ClosingText(tag)
  {
    hide PemLines, Unlines;
    UnlinesOfPem(pem);
    var opening, closing := "<" + tag + ">", "</" + tag + ">";
    UnlinesConcat([opening] + PemLines(pem), [closing]);
    UnlinesConcat([opening], PemLines(pem));
    UnlinesOne(opening);
    UnlinesOne(closing);
    assert "<" + tag + ">\n" == opening + ['\n'] && "</" + tag + ">\n" == closing + ['\n'];
  }

  method AppendBlock(out: string, tag: string, pem: string) returns (r: string)
    ensures r == out + Unlines(BlockLines(tag, pem))
  {
    hide Unlines, PemLines, BlockLines, OpeningText, ClosingText;
    if pem == "" {
      NoBlock(tag);
      return out;
    }
    BlockText(tag, pem);
    r := out + OpeningText(tag) + pem;
    ghost var front := out + OpeningText(tag);
    assert r[|r| - 1] == pem[|pem| - 1];
    if r[|r| - 1] != '\n' {
      r := r + ['\n'];
      assert r == front + (pem + ['\n']);
    }
    r := r + ClosingText(tag);
  }

  lemma NoBlock(tag: string)
    ensures Unlines(BlockLines(tag, "")) == ""
  {
  }

  lemma RefusedExactly(p: Profile)
    ensures !Validates(p) <==>
      || p.name == "" || |p.name| > 128 || p.remotes == [] || |p.remotes| > 64
      || (exists i | 0 <= i < |p.remotes| :: BadRemote(p.remotes[i]))
      || (p.authMethod in {Certificate, CertificateAndPassword} && p.certificatePem == "" && p.storeThumbprint == "")
      || (p.caPem == "" && p.peerFingerprint == "" && p.authMethod != StaticKey)
      || (p.mtu.Some? && !(576 <= p.mtu.value <= 9000))
  {
    hide BadRemote, ValidRemote;
    forall i | 0 <= i < |p.remotes| ensures BadRemote(p.remotes[i]) <==> !ValidRemote(p.remotes[i]) {
      RemoteIsBad(p.remotes[i]);
    }
  }

  /** `exportOvpn`. */
  method Export(p: Profile) returns (r: Option<string>)
    ensures r == if Validates(p) then Some(Unlines(ExportLines(p))) else None
    ensures r.None? <==>
      || p.name == "" || |p.name| > 128 || p.remotes == [] || |p.remotes| > 64
      || (exists i | 0 <= i < |p.remotes| :: BadRemote(p.remotes[i]))
      || (p.authMethod in {Certificate, CertificateAndPassword} && p.certificatePem == "" && p.storeThumbprint == "")
      || (p.caPem == "" && p.peerFingerprint == "" && p.authMethod != StaticKey)
      || (p.mtu.Some? && !(576 <= p.mtu.value <= 9000))
  {
    hide Validates, Unlines, Spaced, BlockLines, BadRemote;
    RefusedExactly(p);
    if !Validates(p) {
      return None;
    }
    var head := ["# Exported by NovaVPN", "client", "dev tun"];
    var out := "# Exported by NovaVPN\n" + "client\n" + "dev tun\n";
    HeadText();
    for i := 0 to |p.remotes|
      invariant out == Unlines(head + RemoteLines(p.remotes[..i]))
    {
      var remote := p.remotes[i];
      assert p.remotes[..i + 1][..i] == p.remotes[..i];
      RemoteText(remote);
      UnlinesOne(RemoteLine(remote));
      UnlinesConcat(head + RemoteLines(p.remotes[..i]), [RemoteLine(remote)]);
      assert head + RemoteLines(p.remotes[..i + 1]) == head + RemoteLines(p.remotes[..i]) + [RemoteLine(remote)];
      out := out + ("remote " + remote.host + " " + Print(remote.port, 10) + " " + ProtoText(remote.transport) + "\n");
    }
    assert p.remotes[..|p.remotes|] == p.remotes;
    var options := AppendOptions(out, p);
    var withCa := AppendBlock(options, "ca", p.caPem);
    var all := AppendBlock(withCa, "cert", p.certificatePem);
    UnlinesConcat(head + RemoteLines(p.remotes), OptionLines(p));
    UnlinesConcat(head + RemoteLines(p.remotes) + OptionLines(p), BlockLines("ca", p.caPem));
    UnlinesConcat(head + RemoteLines(p.remotes) + OptionLines(p) + BlockLines("ca", p.caPem),
      BlockLines("cert", p.certificatePem));
    return Some(all);
  }

  method AppendOptions(out: string, p: Profile) returns (r: string)
    ensures r == out + Unlines(OptionLines(p))
  {
    hide Unlines, Spaced, When;
    var a := AppendWhen(out, p.shuffleRemotes, ["remote-random"]);
    var b := AppendWhen(a, SendsPassword(p.authMethod), ["auth-user-pass"]);
    var c := AppendWhen(b, p.redirectGateway, ["redirect-gateway", "def1"]);
    var d := AppendWhen(c, p.cipherOverride != "", ["cipher", p.cipherOverride]);
    var e := AppendWhen(d, p.authDigestOverride != "", ["auth", p.authDigestOverride]);
    var f := AppendWhen(e, p.verifyX509Name != "", ["verify-x509-name", p.verifyX509Name, "name"]);
    r := AppendWhen(f, p.mtu.Some?, ["tun-mtu", MtuText(p)]);
    OptionTexts(p);
  }

  lemma OptionTexts(p: Profile)
    ensures Unlines(OptionLines(p)) ==
      Unlines(When(p.shuffleRemotes, ["remote-random"]))
      + Unlines(When(SendsPassword(p.authMethod), ["auth-user-pass"]))
      + Unlines(When(p.redirectGateway, ["redirect-gateway", "def1"]))
      + Unlines(When(p.cipherOverride != "", ["cipher", p.cipherOverride]))
      + Unlines(When(p.authDigestOverride != "", ["auth", p.authDigestOverride]))
      + Unlines(When(p.verifyX509Name != "", ["verify-x509-name", p.verifyX509Name, "name"]))
      + Unlines(When(p.mtu.Some?, ["tun-mtu", MtuText(p)]))
  {
    hide Unlines, Spaced, When;
    var a, b := When(p.shuffleRemotes, ["remote-random"]), When(SendsPassword(p.authMethod), ["auth-user-pass"]);
    var c, d := When(p.redirectGateway, ["redirect-gateway", "def1"]),
      When(p.cipherOverride != "", ["cipher", p.cipherOverride]);
    var e := When(p.authDigestOverride != "", ["auth", p.authDigestOverride]);
    var f := When(p.verifyX509Name != "", ["verify-x509-name", p.verifyX509Name, "name"]);
    var g := When(p.mtu.Some?, ["tun-mtu", MtuText(p)]);
    UnlinesConcat(a, b);
    UnlinesConcat(a + b, c);
    UnlinesConcat(a + b + c, d);
    UnlinesConcat(a + b + c + d, e);
    UnlinesConcat(a + b + c + d + e, f);
    UnlinesConcat(a + b + c + d + e + f, g);
  }

  lemma RemoteText(r: RemoteEntry)
    ensures RemoteLine(r) + ['\n']
      == "remote " + r.host + " " + Print(r.port, 10) + " " + ProtoText(r.transport) + "\n"
  {
    hide Print;
    var port, proto := Print(r.port, 10), ProtoText(r.transport);
    var tokens := ["remote", r.host, port, proto];
    assert tokens[1..] == [r.host, port, proto];
    assert tokens[1..][1..] == [port, proto];
    assert tokens[1..][1..][1..] == [proto];
    assert Spaced([proto]) == proto;
    assert Spaced([port, proto]) == port + [' '] + proto;
    assert Spaced([r.host, port, proto]) == r.host + [' '] + Spaced([port, proto]);
    assert "remote " == "remote" + [' '];
  }

  lemma HeadText()
    ensures Unlines(["# Exported by NovaVPN", "client", "dev tun"] + RemoteLines([]))
      == "# Exported by NovaVPN\n" + "client\n" + "dev tun\n"
  {
    var head := ["# Exported by NovaVPN", "client", "dev tun"];
    assert head + RemoteLines([]) == head;
    assert head[1..] == ["client", "dev tun"] && head[1..][1..] == ["dev tun"];
    UnlinesOne("dev tun");
    assert "client" + ['\n'] == "client\n" && "dev tun" + ['\n'] == "dev tun\n";
    assert "# Exported by NovaVPN" + ['\n'] == "# Exported by NovaVPN\n";
  }
}
