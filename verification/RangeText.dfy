/**
 The text of ranges and endpoints (`IpRange::parse`, `Endpoint::parse` and their printers in
 Networking/src/IpAddress.cpp), and the narrowing of the prefix to eight bits that lets a text such as
 "/264" through.
 */
module RangeText {
  import opened Types
  import opened Wrappers
  import opened StringUtil
  import opened Digits
  import opened IpText
  import opened IpV6Format
  import opened IpRanges

  /** What `std::from_chars` accepts as a whole unsigned decimal text. */
  predicate Decimal(s: string) {
    s != "" && AllDigits(s, 10)
  }

  lemma PrintIsDecimal(n: nat)
    ensures Decimal(Print(n, 10)) && Value(Print(n, 10), 10) == n
    ensures NoSpaceAtEnds(Print(n, 10))
  {
    PrintIsCanonical(n, 10);
    ValueOfPrint(n, 10);
    NoDotIn(n);
  }

  // ---------- ranges ----------

  /** `IpRange::parse`. */
  function ParseRange(text: string): Option<IpRange> {
    var trimmed := Trim(text);
    var slash := Find(trimmed, '/');
    if slash == |trimmed| then
      var address :- ParseAddress(trimmed);
      MakeRange(address, Width(address))
    else
      var address :- ParseAddress(trimmed[..slash]);
      var prefixText := trimmed[slash + 1..];
      if |prefixText| > 3 || !Decimal(prefixText) then None
      else MakeRange(address, Value(prefixText, 10) % 256)
  }

  /** `IpRange::toString`. */
  function CidrText(r: IpRange): string {
    ToText(r.network) + ['/'] + Print(r.prefix, 10)
  }

  lemma PrefixDigits(prefix: nat)
    requires prefix <= 255
    ensures 1 <= |Print(prefix, 10)| <= 3
  {
    PrintLength(prefix, 10, 3);
    assert Power(10, 3) == 1000;
  }

  lemma EndsWithout(front: string, middle: char, back: string)
    requires front != "" && back != "" && NoSpaceAtEnds(front) && NoSpaceAtEnds(back)
    ensures NoSpaceAtEnds(front + [middle] + back)
  {
    var s := front + [middle] + back;
    assert s[0] == front[0] && s[|s| - 1] == back[|back| - 1];
  }

  /** A printed address followed by a prefix text of one to three digits. */
  lemma WithPrefix(a: IpAddress, digits: string)
    requires Decimal(digits) && |digits| <= 3 && NoSpaceAtEnds(digits)
    ensures ParseRange(ToText(a) + ['/'] + digits) == MakeRange(a, Value(digits, 10) % 256)
  {
    hide ToText, ParseAddress, Trim, Find, Value;
    var front, text := ToText(a), ToText(a) + ['/'] + digits;
    AddressChars(a);
    EndsWithout(front, '/', digits);
    TrimIsIdentity(text);
    assert '/' !in front;
    FindSkips(front, '/', digits);
    assert text[..|front|] == front && text[|front| + 1..] == digits;
    AddressRoundTrip(a);
  }

  lemma RangeRoundTrip(r: IpRange)
    ensures ParseRange(CidrText(r)) == Some(r)
  {
    hide ToText, ParseRange, Print;
    PrintIsDecimal(r.prefix);
    PrefixDigits(r.prefix);
    WithPrefix(r.network, Print(r.prefix, 10));
    Remade(r);
  }

  lemma Remade(r: IpRange)
    ensures MakeRange(r.network, r.prefix) == Some(r)
  {
  }

  lemma RangeTextInjective(r: IpRange, s: IpRange)
    requires CidrText(r) == CidrText(s)
    ensures r == s
  {
    RangeRoundTrip(r);
    RangeRoundTrip(s);
  }

  /** A bare address stands for the range of that address alone. */
  lemma BareAddress(a: IpAddress)
    ensures ParseRange(ToText(a)) == Some(Range(a, Width(a)))
  {
    hide ToText, ParseAddress;
    AddressChars(a);
    TrimIsIdentity(ToText(a));
    FindNone(ToText(a), '/');
    AddressRoundTrip(a);
    assert MaskBytes(a.octets, Width(a)) == a.octets;
  }

  /**
   The prefix of an accepted text is taken modulo 256, so the text is accepted exactly when it should be
   unless it names a prefix of 256 or more that wraps to one within the width.
   */
  lemma PrefixWraps(text: string, a: IpAddress, n: nat)
    requires var t := Trim(text); var slash := Find(t, '/');
      && slash < |t| && ParseAddress(t[..slash]) == Some(a)
      && |t[slash + 1..]| <= 3 && Decimal(t[slash + 1..]) && Value(t[slash + 1..], 10) == n
    ensures ParseRange(text) == MakeRange(a, n % 256)
    ensures (ParseRange(text).Some? <==> n <= Width(a)) <==> !(n >= 256 && n % 256 <= Width(a))
    ensures n <= 255 && ParseRange(text).Some? ==> ParseRange(text).value.prefix == n
  {
    hide ParseAddress, Trim, Find, Value;
    assert n < 256 ==> n % 256 == n;
  }

  /** Any IPv4 address followed by "/264" is read as the /8 range around it. */
  lemma WrappedPrefixExample(a: IpAddress)
    requires a.V4?
    ensures ParseRange(ToText(a) + ['/'] + "264") == MakeRange(a, 8) && MakeRange(a, 8).Some?
  {
    hide ToText, ParseRange;
    ThreeDigits('2', '6', '4');
    WithPrefix(a, "264");
  }

  lemma ThreeDigits(a: char, b: char, c: char)
    ensures Value([a, b, c], 10) == DigitValue(a) * 100 + DigitValue(b) * 10 + DigitValue(c)
  {
    ValueSnoc([], a, 10);
    ValueSnoc([a], b, 10);
    ValueSnoc([a, b], c, 10);
    assert [] + [a] == [a] && [a] + [b] == [a, b] && [a, b] + [c] == [a, b, c];
  }

  // ---------- endpoints ----------

  datatype Endpoint = Endpoint(address: IpAddress, port: U16)

  /** The index of the last `c`, or none. */
  function FindLast(s: string, c: char): (r: Option<nat>)
    ensures r.Some? ==> r.value < |s| && s[r.value] == c && c !in s[r.value + 1..]
    ensures r.None? ==> c !in s
  {
    if s == "" then None
    else if s[|s| - 1] == c then Some(|s| - 1)
    else
      var front := FindLast(s[..|s| - 1], c);
      assert s == s[..|s| - 1] + [s[|s| - 1]];
      assert front.Some? ==> s[front.value + 1..] == s[..|s| - 1][front.value + 1..] + [s[|s| - 1]];
      front
  }

  lemma {:induction false} FindLastSkips(front: string, c: char, back: string)
    requires c !in back
    ensures FindLast(front + [c] + back, c) == Some(|front|)
  {
    var s := front + [c] + back;
    if back != "" {
      var shorter := back[..|back| - 1];
      assert s[..|s| - 1] == front + [c] + shorter;
      assert s[|s| - 1] == back[|back| - 1];
      assert c !in shorter by {
        assert back == shorter + [back[|back| - 1]];
      }
      FindLastSkips(front, c, shorter);
    }
  }

  /** `Endpoint::parse`. */
  function ParseEndpoint(text: string): Option<Endpoint> {
    var trimmed := Trim(text);
    if trimmed == "" then None
    else if trimmed[0] == '[' then
      var close := Find(trimmed, ']');
      if close + 2 > |trimmed| || trimmed[close + 1] != ':' then None
      else MakeEndpoint(trimmed[1..close], trimmed[close + 2..])
    else
      var colon :- FindLast(trimmed, ':');
      MakeEndpoint(trimmed[..colon], trimmed[colon + 1..])
  }

  function MakeEndpoint(addressText: string, portText: string): Option<Endpoint> {
    var address :- ParseAddress(addressText);
    if Decimal(portText) && 1 <= Value(portText, 10) <= 65535 then Some(Endpoint(address, Value(portText, 10)))
    else None
  }

  /** `Endpoint::toString`. */
  function EndpointText(e: Endpoint): string {
    var address := ToText(e.address);
    (if e.address.V6? then "[" + address + "]" else address) + [':'] + Print(e.port, 10)
  }

  /** An endpoint is read back from its text exactly when its port is not 0. */
  lemma EndpointRoundTrip(e: Endpoint)
    ensures ParseEndpoint(EndpointText(e)) == if e.port == 0 then None else Some(e)
  {
    hide ToText, Print, Trim, FindLast, Find, MakeEndpoint;
    AddressChars(e.address);
    NoDotIn(e.port);
    EndpointTextTrimmed(e);
    PartsRemade(e);
    if e.address.V6? {
      BracketedParts(ToText(e.address), Print(e.port, 10));
    } else {
      PlainParts(ToText(e.address), Print(e.port, 10));
    }
  }

  lemma PartsRemade(e: Endpoint)
    ensures MakeEndpoint(ToText(e.address), Print(e.port, 10)) == if e.port == 0 then None else Some(e)
  {
    hide ToText, ParseAddress, Print, Value;
    AddressRoundTrip(e.address);
    PrintIsDecimal(e.port);
  }

  lemma EndpointTextTrimmed(e: Endpoint)
    ensures Trim(EndpointText(e)) == EndpointText(e)
  {
    hide ToText, Print;
    AddressChars(e.address);
    PrintIsDecimal(e.port);
    var t := EndpointText(e);
    assert t[|t| - 1] == Print(e.port, 10)[|Print(e.port, 10)| - 1];
    TrimIsIdentity(t);
  }

  lemma BracketedParts(address: string, port: string)
    requires ']' !in address
    ensures var t := "[" + address + "]" + [':'] + port; var close := Find(t, ']');
      && t[0] == '[' && close + 2 <= |t| && t[close + 1] == ':'
      && t[1..close] == address && t[close + 2..] == port
  {
    var t := "[" + address + "]" + [':'] + port;
    assert t == ("[" + address) + [']'] + (":" + port);
    FindSkips("[" + address, ']', ":" + port);
  }

  lemma PlainParts(address: string, port: string)
    requires ':' !in port && address != "" && forall c | c in address :: AddressChar(c)
    ensures var t := address + [':'] + port; var colon := FindLast(t, ':');
      && t[0] != '[' && colon.Some? && t[..colon.value] == address && t[colon.value + 1..] == port
  {
    var t := address + [':'] + port;
    FindLastSkips(address, ':', port);
    assert t[0] in address;
  }
}
