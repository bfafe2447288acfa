/** Which texts the parsers of Networking/src/IpAddress.cpp accept, and as what, by their written form alone. */
module TextLaws {
  import opened Types
  import opened Wrappers
  import opened StringUtil
  import opened Digits
  import opened IpText
  import opened IpV6Text
  import opened IpV6Format
  import opened IpRanges
  import opened RangeText

  // ---------- addresses ----------

  /** Sixteen bytes are the eight words, the high byte first. */
  predicate HighByteFirst(octets: seq<Byte>, words: seq<U16>)
    requires |octets| == 16 && |words| == 8
  {
    forall i | 0 <= i < 8 :: words[i] as nat == octets[2 * i] as nat * 0x100 + octets[2 * i + 1] as nat
  }

  ghost predicate AddressForm(text: string, a: IpAddress) {
    if a.V4? then text == Dotted(a.octets)
    else exists v: Spelling :: v.Valid() && v.Text() == text && HighByteFirst(a.octets, v.Words())
  }

  lemma ColonAmongGroups(gs: seq<Group>)
    requires |gs| >= 2 && forall g | g in gs :: g.Valid()
    ensures ':' in GroupsText(gs)
  {
  }

  lemma FewWords(gs: seq<Group>)
    requires forall g | g in gs :: g.Valid()
    ensures |gs| <= 1 ==> |GroupsWords(gs)| <= 2
  {
  }

  lemma SpellingHasColon(v: Spelling)
    requires v.Valid()
    ensures ':' in v.Text()
  {
    if v.compressed {
      assert ("::" + GroupsText(v.tail))[0] == ':';
      assert v.Text()[|GroupsText(v.head)|] == ':';
    } else {
      FewWords(v.head);
      ColonAmongGroups(v.head);
      assert v.Text() == GroupsText(v.head);
    }
  }

  lemma WordsAre(octets: seq<Byte>, words: seq<U16>)
    requires |octets| == 16 && |words| == 8
    ensures BytesOf(words) == octets <==> HighByteFirst(octets, words)
  {
    var b := BytesOf(words);
    if HighByteFirst(octets, words) {
      forall i | 0 <= i < 16 ensures b[i] == octets[i] {
        var h := i / 2;
        assert words[h] as nat == octets[2 * h] as nat * 0x100 + octets[2 * h + 1] as nat;
      }
    }
    forall i | 0 <= i < 8 ensures b[2 * i] as nat * 0x100 + b[2 * i + 1] as nat == words[i] as nat {
    }
  }

  /** Surrounding space aside, exactly the dotted quads and the RFC 4291 text forms are read, each as its address. */
  lemma AddressExactly(text: string, a: IpAddress)
    ensures ParseAddress(text) == Some(a) <==> AddressForm(Trim(text), a)
  {
    hide Trim, QuadFrom, Dotted, ParseWords, BytesOf, HighByteFirst, Spelling.Valid, Spelling.Text, Spelling.Words;
    var t := Trim(text);
    if a.V4? {
      QuadText(t, 4, a.octets);
      DottedChars(a.octets);
    } else {
      V6Exactly(t, a.octets);
    }
  }

  lemma V6Exactly(t: string, octets: seq<Byte>)
    requires |octets| == 16
    ensures AddressForm(t, V6(octets)) <==> ':' in t && ParseWords(t).Some? && BytesOf(ParseWords(t).value) == octets
  {
    hide ParseWords, BytesOf, HighByteFirst, Spelling.Valid, Spelling.Text, Spelling.Words;
    if AddressForm(t, V6(octets)) {
      var v: Spelling :| v.Valid() && v.Text() == t && HighByteFirst(octets, v.Words());
      SpellingHasColon(v);
      ParserIsComplete(v);
      WordsAre(octets, v.Words());
    }
    if ParseWords(t).Some? && BytesOf(ParseWords(t).value) == octets {
      var v := ParserIsSound(t);
      WordsAre(octets, v.Words());
    }
  }

  // ---------- ranges ----------

  predicate Decimals(s: string) {
    s != "" && forall i | 0 <= i < |s| :: '0' <= s[i] <= '9'
  }

  /**
   An address alone, or an address, a slash and one to three digits, of which the low eight bits of the number count.
   */
  ghost predicate RangeForm(text: string, a: IpAddress, prefix: nat) {
    || ('/' !in text && ParseAddress(text) == Some(a) && prefix == Width(a))
    || (exists front, digits ::
          && text == front + ['/'] + digits && '/' !in front && ParseAddress(front) == Some(a)
          && Decimals(digits) && |digits| <= 3 && prefix == Value(digits, 10) % 0x100)
  }

  lemma DecimalsAre(s: string)
    ensures Decimals(s) <==> Decimal(s)
  {
    forall i | 0 <= i < |s| ensures '0' <= s[i] <= '9' <==> IsDigit(s[i], 10) {
    }
    if Decimal(s) {
      assert forall i | 0 <= i < |s| :: s[i] in s;
    }
  }

  lemma CoveringIsMade(a: IpAddress, r: IpRange)
    requires Covers(r, a)
    ensures r.prefix <= 255 && MakeRange(a, r.prefix) == Some(r)
  {
    hide MaskBytes;
    var masked := WithOctets(a, MaskBytes(a.octets, r.prefix));
    assert r.network.octets == masked.octets && r.network.V4? == masked.V4?;
    assert r.network == masked;
  }

  /** A range is made exactly when the prefix fits the family, and then it is the one that covers the address. */
  lemma MadeExactly(a: IpAddress, prefix: Byte, r: IpRange)
    ensures MakeRange(a, prefix) == Some(r) <==> r.prefix == prefix && Covers(r, a)
  {
    hide MaskBytes;
    MaskTwice(a.octets, prefix);
    if Covers(r, a) {
      CoveringIsMade(a, r);
    }
  }

  /** A text is read as a range exactly when it has one of the two forms and the range covers the address in it. */
  lemma RangeExactly(text: string, r: IpRange)
    ensures ParseRange(text) == Some(r) <==> exists a :: RangeForm(Trim(text), a, r.prefix) && Covers(r, a)
  {
    hide Trim, ParseAddress, Covers, MakeRange, Value;
    var t := Trim(text);
    if ParseRange(text) == Some(r) {
      var a := ReadAs(text, r);
    }
    forall a | RangeForm(t, a, r.prefix) && Covers(r, a) ensures ParseRange(text) == Some(r) {
      FormIsRead(text, a, r);
    }
  }

  lemma ReadAs(text: string, r: IpRange) returns (a: IpAddress)
    requires ParseRange(text) == Some(r)
    ensures RangeForm(Trim(text), a, r.prefix) && Covers(r, a)
  {
    hide Trim, ParseAddress, Covers, MakeRange, Value;
    var t := Trim(text);
    var slash := Find(t, '/');
    if slash == |t| {
      a := ParseAddress(t).value;
      MadeExactly(a, Width(a), r);
    } else {
      a := ParseAddress(t[..slash]).value;
      var digits := t[slash + 1..];
      DecimalsAre(digits);
      MadeExactly(a, Value(digits, 10) % 0x100, r);
      assert t == t[..slash] + ['/'] + digits && '/' !in t[..slash];
    }
  }

  lemma FormIsRead(text: string, a: IpAddress, r: IpRange)
    requires RangeForm(Trim(text), a, r.prefix) && Covers(r, a)
    ensures ParseRange(text) == Some(r)
  {
    hide Trim, ParseAddress, Covers, MakeRange, Value, Find;
    var t := Trim(text);
    MadeExactly(a, r.prefix, r);
    if '/' !in t {
      FindNone(t, '/');
    } else {
      var front, digits :| t == front + ['/'] + digits && '/' !in front && ParseAddress(front) == Some(a)
        && Decimals(digits) && |digits| <= 3 && r.prefix == Value(digits, 10) % 0x100;
      FindSkips(front, '/', digits);
      DecimalsAre(digits);
      assert t[..|front|] == front && t[|front| + 1..] == digits;
    }
  }

  // ---------- endpoints ----------

  /** An address in brackets, or one without, then a colon and a port; without brackets the last colon counts. */
  predicate EndpointParts(text: string, address: string, port: string) {
    || (text == "[" + address + "]" + [':'] + port && ']' !in address)
    || (text == address + [':'] + port && ':' !in port && (address == "" || address[0] != '['))
  }

  ghost predicate EndpointForm(text: string, e: Endpoint) {
    exists address, port ::
      && EndpointParts(text, address, port) && ParseAddress(address) == Some(e.address)
      && Decimals(port) && Value(port, 10) == e.port as nat && e.port != 0
  }

  lemma PartsRead(text: string, address: string, port: string)
    requires EndpointParts(Trim(text), address, port)
    ensures ParseEndpoint(text) == MakeEndpoint(address, port)
  {
    hide Trim, MakeEndpoint, Find, FindLast;
    var t := Trim(text);
    if t[0] == '[' {
      assert t == "[" + address + "]" + [':'] + port by {
        if t == address + [':'] + port {
          assert t[0] == if address == "" then ':' else address[0];
        }
      }
      BracketedParts(address, port);
    } else {
      FindLastSkips(address, ':', port);
      assert t[..|address|] == address && t[|address| + 1..] == port;
    }
  }

  lemma PartsFound(text: string) returns (address: string, port: string)
    requires ParseEndpoint(text).Some?
    ensures EndpointParts(Trim(text), address, port) && ParseEndpoint(text) == MakeEndpoint(address, port)
  {
    hide Trim, MakeEndpoint, Find, FindLast;
    var t := Trim(text);
    if t[0] == '[' {
      var close := Find(t, ']');
      address, port := t[1..close], t[close + 2..];
      assert t == "[" + address + "]" + [':'] + port;
    } else {
      var colon := FindLast(t, ':').value;
      address, port := t[..colon], t[colon + 1..];
      assert t == address + [':'] + port;
    }
  }

  lemma MadeFrom(address: string, port: string, e: Endpoint)
    ensures MakeEndpoint(address, port) == Some(e) <==>
      ParseAddress(address) == Some(e.address) && Decimals(port) && Value(port, 10) == e.port as nat && e.port != 0
  {
    hide ParseAddress, Value;
    DecimalsAre(port);
  }

  /** A text is read as an endpoint exactly when it has one of the two forms, with a port from 1 to 65535. */
  lemma EndpointExactly(text: string, e: Endpoint)
    ensures ParseEndpoint(text) == Some(e) <==> EndpointForm(Trim(text), e)
  {
    hide Trim, ParseAddress, ParseEndpoint, MakeEndpoint, EndpointParts, Decimals, Value;
    if ParseEndpoint(text) == Some(e) {
      var address, port := PartsFound(text);
      MadeFrom(address, port, e);
    }
    if EndpointForm(Trim(text), e) {
      var address, port :| EndpointParts(Trim(text), address, port) && ParseAddress(address) == Some(e.address)
        && Decimals(port) && Value(port, 10) == e.port as nat && e.port != 0;
      PartsRead(text, address, port);
      MadeFrom(address, port, e);
    }
  }
}
