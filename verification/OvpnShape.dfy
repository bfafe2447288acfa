/** What every accepted configuration leads to, whatever its text (Profiles/src/OvpnParser.cpp). */
module OvpnShape {
  import opened Wrappers
  import opened StringUtil
  import opened OvpnLexer
  import opened OvpnParser

  predicate FieldsOk(s: State) {
    var p := s.profile;
    && (p.mtu.Some? ==> 576 <= p.mtu.value <= 9000)
    && (p.keepaliveInterval.Some? <==> p.keepaliveTimeout.Some?)
    && p.tlsWrapMode <= 2 && p.redirectGateway && |p.storeThumbprint| == 0 && |p.peerFingerprint| == 0
    && p.authMethod == Certificate
  }

  predicate CompressionWarned(s: State) {
    s.profile.allowCompression <==> exists i | 0 <= i < |s.warnings| :: s.warnings[i] == Compression
  }

  predicate Shaped(s: State) {
    FieldsOk(s) && CompressionWarned(s)
  }

  /** The warnings grow, and `compression` says whether the compression warning is among the new ones. */
  predicate Grows(s: State, t: State, compression: bool) {
    && t.profile.allowCompression == (s.profile.allowCompression || compression)
    && |t.warnings| >= |s.warnings| && t.warnings[..|s.warnings|] == s.warnings
    && (compression <==> exists i | |s.warnings| <= i < |t.warnings| :: t.warnings[i] == Compression)
  }

  lemma GrowsKeeps(s: State, t: State, compression: bool)
    requires CompressionWarned(s) && Grows(s, t, compression)
    ensures CompressionWarned(t)
  {
    assert forall i | 0 <= i < |s.warnings| :: t.warnings[i] == s.warnings[i];
  }

  lemma WeakOnly(ciphers: seq<string>)
    ensures forall i | 0 <= i < |WeakCiphers(ciphers)| :: WeakCiphers(ciphers)[i].WeakCipher?
  {
    hide IsWeakCipher;
  }

  lemma FileFields(s: State, kind: FileKind, args: seq<string>, o: Options)
    requires FieldsOk(s)
    ensures FieldsOk(SideFile(s, kind, args, o))
  {
  }

  /** The meanings that only set flags, or nothing of the profile at all. */
  predicate IsFlag(m: Meaning) {
    match m
    case SetsProto => true
    case SetsPort => true
    case ShufflesRemotes => true
    case AsksPassword => true
    case RedirectsTraffic => true
    case Compresses => true
    case WrapsTls(_) => true
    case Unlisted => true
    case _ => false
  }

  lemma FlagFields(s: State, m: Meaning, key: string, args: seq<string>, o: Options)
    requires FieldsOk(s) && IsFlag(m) && (m.WrapsTls? ==> m.mode <= 2)
    ensures FieldsOk(Effect(s, m, key, args, o))
  {
    hide StrToUl;
  }

  lemma ValueFields(s: State, m: Meaning, key: string, args: seq<string>, o: Options)
    requires FieldsOk(s) && !IsFlag(m) && !m.NamesFile?
    ensures FieldsOk(Effect(s, m, key, args, o))
  {
    hide StrToUl, WeakCiphers, ParseProto, SideFile;
  }

  lemma EffectOfFile(s: State, kind: FileKind, key: string, args: seq<string>, o: Options)
    ensures Effect(s, NamesFile(kind), key, args, o) == SideFile(s, kind, args, o)
  {
  }

  lemma ApplyFields(s: State, key: string, args: seq<string>, o: Options)
    requires FieldsOk(s)
    ensures FieldsOk(Apply(s, key, args, o))
  {
    hide MeaningOf, Effect, SideFile, IsFlag, FieldsOk;
    TlsModes(key);
    var m := MeaningOf(key);
    if m.NamesFile? {
      FileFields(s, m.kind, args, o);
      EffectOfFile(s, m.kind, key, args, o);
    } else if IsFlag(m) {
      FlagFields(s, m, key, args, o);
    } else {
      ValueFields(s, m, key, args, o);
    }
  }

  lemma TlsModes(key: string)
    ensures MeaningOf(key).WrapsTls? ==> MeaningOf(key).mode <= 2
  {
  }

  lemma FileGrows(s: State, kind: FileKind, args: seq<string>, o: Options)
    ensures Grows(s, SideFile(s, kind, args, o), false)
  {
  }

  lemma FlagGrows(s: State, m: Meaning, key: string, args: seq<string>, o: Options)
    requires IsFlag(m)
    ensures Grows(s, Effect(s, m, key, args, o), m == Compresses)
  {
    hide StrToUl;
    if m == Compresses {
      assert Effect(s, m, key, args, o).warnings[|s.warnings|] == Compression;
    }
  }

  lemma ValueGrows(s: State, m: Meaning, key: string, args: seq<string>, o: Options)
    requires !IsFlag(m) && !m.NamesFile?
    ensures Grows(s, Effect(s, m, key, args, o), false)
  {
    hide StrToUl, WeakCiphers, ParseProto, SideFile;
    WeakOnly(args);
  }

  lemma ApplyGrows(s: State, key: string, args: seq<string>, o: Options)
    ensures Grows(s, Apply(s, key, args, o), MeaningOf(key) == Compresses)
  {
    hide MeaningOf, Effect, SideFile, IsFlag, Grows;
    var m := MeaningOf(key);
    FlagOfCompression();
    if m.NamesFile? {
      FileGrows(s, m.kind, args, o);
      EffectOfFile(s, m.kind, key, args, o);
    } else if IsFlag(m) {
      FlagGrows(s, m, key, args, o);
    } else {
      ValueGrows(s, m, key, args, o);
    }
  }

  lemma FlagOfCompression()
    ensures IsFlag(Compresses)
  {
  }

  lemma ApplyShaped(s: State, key: string, args: seq<string>, o: Options)
    requires Shaped(s)
    ensures Shaped(Apply(s, key, args, o))
  {
    hide Apply, FieldsOk, CompressionWarned, Grows;
    ApplyFields(s, key, args, o);
    ApplyGrows(s, key, args, o);
    GrowsKeeps(s, Apply(s, key, args, o), MeaningOf(key) == Compresses);
  }

  lemma BlockShaped(s: State, tag: string, body: string)
    requires Shaped(s)
    ensures Shaped(ApplyBlock(s, tag, body))
  {
    hide CompressionWarned;
    var t := ApplyBlock(s, tag, body);
    GrowsKeeps(s, t, false);
  }

  lemma {:induction false} ParseShaped(lines: seq<string>, s: State, rejected: seq<string>, o: Options)
    requires Shaped(s)
    ensures var r := ParseFrom(lines, s, rejected, o); r.Going? ==> Shaped(r.state)
    decreases |lines|
  {
    hide Shaped, Apply, ApplyBlock, IsOpening, TagOf, BlockEnd, Body, Trim, DirectiveOf;
    if lines != [] {
      var raw, rest := Trim(lines[0]), lines[1..];
      if IsOpening(raw) {
        var n := BlockEnd(rest, TagOf(raw));
        if n < |rest| {
          BlockShaped(s, TagOf(raw), Body(rest[..n]));
          ParseShaped(rest[n + 1..], ApplyBlock(s, TagOf(raw), Body(rest[..n])), rejected, o);
        }
      } else {
        var tokens := DirectiveOf(raw);
        if tokens == [] {
          ParseShaped(rest, s, rejected, o);
        } else if ToLower(tokens[0]) in DANGEROUS {
          ParseShaped(rest, s, rejected + [ToLower(tokens[0])], o);
        } else {
          ApplyShaped(s, ToLower(tokens[0]), tokens[1..], o);
          ParseShaped(rest, Apply(s, ToLower(tokens[0]), tokens[1..], o), rejected, o);
        }
      }
    }
  }

  /**
   Every accepted configuration yields a profile with a remote, an MTU that validates, both keep-alive times or
   neither, traffic redirected whatever the file says, one of the three methods a file can ask for, and a
   warning exactly when compression is on.
   */
  lemma ParsedProfileShape(text: string, o: Options)
    requires Parse(text, o).Parsed?
    ensures var report := Parse(text, o).report; var p := report.profile;
      && p.remotes != [] && p.redirectGateway
      && (p.mtu.Some? ==> 576 <= p.mtu.value <= 9000)
      && (p.keepaliveInterval.Some? <==> p.keepaliveTimeout.Some?)
      && (p.authMethod == Certificate || p.authMethod == UserPassword || p.authMethod == CertificateAndPassword)
      && (p.allowCompression <==> Compression in report.warnings)
  {
    hide ParseFrom, Split;
    var s := InitialState(text, o);
    ParseShaped(Split(text, '\n'), s, [], o);
    var last := ParseFrom(Split(text, '\n'), s, [], o).state;
    var report := Parse(text, o).report;
    assert report.warnings == last.warnings || report.warnings == last.warnings + [NoCa];
  }

  // ---------- every directive is accounted for ----------

  /** The directives outside inline blocks, word by word and in order, up to a block that never ends. */
  function Directives(lines: seq<string>): seq<seq<string>>
    decreases |lines|
  {
    if lines == [] then []
    else
      var raw, rest := Trim(lines[0]), lines[1..];
      if IsOpening(raw) then
        var n := BlockEnd(rest, TagOf(raw));
        if n == |rest| then [] else Directives(rest[n + 1..])
      else if DirectiveOf(raw) == [] then Directives(rest)
      else [DirectiveOf(raw)] + Directives(rest)
  }

  datatype Fate = Rejects | Ignores | Acts

  function FateOf(key: string): Fate {
    if key in DANGEROUS then Rejects else if MeaningOf(key) == Unlisted then Ignores else Acts
  }

  /** The keywords of the directives that meet this fate. */
  function KeysOf(directives: seq<seq<string>>, fate: Fate): seq<string> {
    if directives == [] then []
    else
      var key := if directives[0] == [] then "" else ToLower(directives[0][0]);
      (if FateOf(key) == fate then [key] else []) + KeysOf(directives[1..], fate)
  }

  lemma UnlistedIsIgnored(s: State, key: string, args: seq<string>, o: Options)
    ensures Apply(s, key, args, o).ignored == s.ignored + if MeaningOf(key) == Unlisted then [key] else []
  {
    hide StrToUl, ParseProto, WeakCiphers, MeaningOf;
  }

  lemma KeysStep(d: seq<string>, rest: seq<seq<string>>, fate: Fate)
    requires d != []
    ensures KeysOf([d] + rest, fate) == (if FateOf(ToLower(d[0])) == fate then [ToLower(d[0])] else [])
      + KeysOf(rest, fate)
  {
    hide FateOf;
    assert ([d] + rest)[1..] == rest;
  }

  lemma {:induction false} ParseAccounts(lines: seq<string>, s: State, rejected: seq<string>, o: Options)
    ensures
      var r := ParseFrom(lines, s, rejected, o);
      r.Going? ==>
        && r.rejected == rejected + KeysOf(Directives(lines), Rejects)
        && r.state.ignored == s.ignored + KeysOf(Directives(lines), Ignores)
    decreases |lines|, 0
  {
    hide Apply, ApplyBlock, IsOpening, TagOf, BlockEnd, Body, Trim, DirectiveOf, MeaningOf, KeysOf;
    if lines == [] {
      NoKeys();
    } else {
      var raw, rest := Trim(lines[0]), lines[1..];
      if IsOpening(raw) {
        var n := BlockEnd(rest, TagOf(raw));
        if n < |rest| {
          BlockIgnoresNothing(s, TagOf(raw), Body(rest[..n]));
          ParseAccounts(rest[n + 1..], ApplyBlock(s, TagOf(raw), Body(rest[..n])), rejected, o);
        }
      } else {
        var tokens := DirectiveOf(raw);
        if tokens == [] {
          ParseAccounts(rest, s, rejected, o);
        } else {
          DirectiveAccounts(tokens, rest, s, rejected, o);
        }
      }
    }
  }

  lemma NoKeys()
    ensures KeysOf([], Rejects) == [] && KeysOf([], Ignores) == []
  {
  }

  lemma BlockIgnoresNothing(s: State, tag: string, body: string)
    ensures ApplyBlock(s, tag, body).ignored == s.ignored
  {
  }

  lemma DirectiveAccounts(tokens: seq<string>, rest: seq<string>, s: State, rejected: seq<string>, o: Options)
    requires tokens != []
    ensures
      var key, ds := ToLower(tokens[0]), [tokens] + Directives(rest);
      var r :=
        if key in DANGEROUS then ParseFrom(rest, s, rejected + [key], o)
        else ParseFrom(rest, Apply(s, key, tokens[1..], o), rejected, o);
      r.Going? ==> r.rejected == rejected + KeysOf(ds, Rejects) && r.state.ignored == s.ignored + KeysOf(ds, Ignores)
    decreases |rest|, 1
  {
    hide Apply, ParseFrom, Directives, KeysOf, MeaningOf;
    var key := ToLower(tokens[0]);
    KeysStep(tokens, Directives(rest), Rejects);
    KeysStep(tokens, Directives(rest), Ignores);
    if key in DANGEROUS {
      ParseAccounts(rest, s, rejected + [key], o);
    } else {
      UnlistedIsIgnored(s, key, tokens[1..], o);
      ParseAccounts(rest, Apply(s, key, tokens[1..], o), rejected, o);
    }
  }

  /**
   No directive is dropped silently: those outside inline blocks are reported as rejected when they are dangerous and
   as ignored when they mean nothing here, all of them and in order; every other one has a meaning.
   */
  lemma EveryDirectiveIsAccountedFor(text: string, o: Options)
    requires Parse(text, o).Parsed?
    ensures
      var report, ds := Parse(text, o).report, Directives(Split(text, '\n'));
      report.rejected == KeysOf(ds, Rejects) && report.ignored == KeysOf(ds, Ignores)
  {
    hide ParseFrom, Split, KeysOf, Directives;
    ParseAccounts(Split(text, '\n'), InitialState(text, o), [], o);
  }

  // ---------- which files are read ----------

  /** The files a configuration names for its certificate authority or its certificate. */
  predicate Names(directives: seq<seq<string>>, file: string) {
    exists i | 0 <= i < |directives| :: NamesPublicFile(directives[i], file)
  }

  predicate NamesPublicFile(d: seq<string>, file: string) {
    |d| >= 2 && (ToLower(d[0]) == "ca" || ToLower(d[0]) == "cert") && d[1] == file
  }

  lemma PublicKinds(key: string)
    ensures MeaningOf(key).NamesFile? && MeaningOf(key).kind != PrivateKeyFile ==> key == "ca" || key == "cert"
  {
  }

  lemma SameEffect(s: State, d: seq<string>, a: Options, b: Options)
    requires d != []
    requires forall file :: NamesPublicFile(d, file) ==> a.sideFile(file) == b.sideFile(file)
    ensures Apply(s, ToLower(d[0]), d[1..], a) == Apply(s, ToLower(d[0]), d[1..], b)
  {
    hide MeaningOf, Remote, StrToUl, WeakCiphers, Proxy, ToLower;
    PublicKinds(ToLower(d[0]));
    if |d| >= 2 && (ToLower(d[0]) == "ca" || ToLower(d[0]) == "cert") {
      assert NamesPublicFile(d, d[1]);
    }
  }

  ghost predicate AgreeOn(directives: seq<seq<string>>, a: Options, b: Options) {
    forall file :: Names(directives, file) ==> a.sideFile(file) == b.sideFile(file)
  }

  lemma AgreeStep(d: seq<string>, rest: seq<seq<string>>, a: Options, b: Options)
    requires AgreeOn([d] + rest, a, b)
    ensures AgreeOn(rest, a, b)
    ensures forall file :: NamesPublicFile(d, file) ==> a.sideFile(file) == b.sideFile(file)
  {
    hide NamesPublicFile;
    forall file | Names(rest, file) ensures Names([d] + rest, file) {
      var i :| 0 <= i < |rest| && NamesPublicFile(rest[i], file);
      assert ([d] + rest)[i + 1] == rest[i];
    }
    forall file | NamesPublicFile(d, file) ensures Names([d] + rest, file) {
      assert ([d] + rest)[0] == d;
    }
  }

  lemma {:induction false} ParsesAlike(lines: seq<string>, s: State, rejected: seq<string>, a: Options, b: Options)
    requires a.strict == b.strict && AgreeOn(Directives(lines), a, b)
    ensures ParseFrom(lines, s, rejected, a) == ParseFrom(lines, s, rejected, b)
    decreases |lines|
  {
    hide Apply, ApplyBlock, IsOpening, TagOf, BlockEnd, Body, Trim, DirectiveOf, AgreeOn, NamesPublicFile;
    if lines != [] {
      var raw, rest := Trim(lines[0]), lines[1..];
      if IsOpening(raw) {
        var n := BlockEnd(rest, TagOf(raw));
        if n < |rest| {
          ParsesAlike(rest[n + 1..], ApplyBlock(s, TagOf(raw), Body(rest[..n])), rejected, a, b);
        }
      } else {
        var tokens := DirectiveOf(raw);
        if tokens == [] {
          ParsesAlike(rest, s, rejected, a, b);
        } else {
          AgreeStep(tokens, Directives(rest), a, b);
          if ToLower(tokens[0]) in DANGEROUS {
            ParsesAlike(rest, s, rejected + [ToLower(tokens[0])], a, b);
          } else {
            SameEffect(s, tokens, a, b);
            ParsesAlike(rest, Apply(s, ToLower(tokens[0]), tokens[1..], a), rejected, a, b);
          }
        }
      }
    }
  }

  /**
   No file matters but those that a `ca` or `cert` directive outside a block names: whatever else is on the disk, the
   private key above all, the result is the same.
   */
  lemma OnlyNamedFilesMatter(text: string, a: Options, b: Options)
    requires a.strict == b.strict && a.suggestedName == b.suggestedName
    requires AgreeOn(Directives(Split(text, '\n')), a, b)
    ensures Parse(text, a) == Parse(text, b)
  {
    hide ParseFrom, Split, Directives, AgreeOn, Finish;
    ParsesAlike(Split(text, '\n'), InitialState(text, a), [], a, b);
  }
}
