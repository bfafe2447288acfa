/**
 IPv4 and IPv6 addresses and their text (Networking/src/IpAddress.cpp): dotted quads without leading
 zeros, the textual IPv6 forms of section 2.2 of RFC 4291, and the canonical form of section 4 of
 RFC 5952.
 */
module IpText {
  import opened Types
  import opened Wrappers
  import opened StringUtil
  import opened Digits

  datatype RawAddress = V4(octets: seq<Byte>) | V6(octets: seq<Byte>)

  type IpAddress = a: RawAddress | |a.octets| == (if a.V4? then 4 else 16) witness V4([0, 0, 0, 0])

  /** `(hi << 8) | lo`. */
  function WordOf(hi: Byte, lo: Byte): U16 {
    hi as int * 0x100 + lo as int
  }

  // ---------- dotted quads ----------

  function OctetOf(text: string): Option<Byte> {
    if Canonical(text, 10) && |text| <= 3 && Value(text, 10) <= 255 then Some(Value(text, 10)) else None
  }

  lemma NothingIsZero()
    ensures Value("", 10) == 0
  {
  }

  lemma DecimalDigit(c: char)
    ensures IsDigit(c, 10) <==> '0' <= c <= '9'
    ensures IsDigit(c, 10) ==> DigitValue(c) == c as nat - '0' as nat
  {
  }

  lemma DecimalIsCanonical(text: string)
    requires text != "" && (forall j | 0 <= j < |text| :: IsDigit(text[j], 10)) && (|text| > 1 ==> text[0] != '0')
    ensures Canonical(text, 10)
  {
  }

  /** One to three decimal digits, no leading zero, at most 255. */
  method ParseOctet(text: string) returns (r: Option<Byte>)
    ensures r == OctetOf(text)
  {
    hide Value, DigitValue;
    NothingIsZero();
    if text == "" || |text| > 3 {
      return None;
    }
    if |text| > 1 && text[0] == '0' {
      return None;
    }
    var value := 0;
    for i := 0 to |text|
      invariant forall j | 0 <= j < i :: IsDigit(text[j], 10)
      invariant value == Value(text[..i], 10)
    {
      var c := text[i];
      if c < '0' || c > '9' {
        DecimalDigit(c);
        assert c in text;
        return None;
      }
      assert text[..i + 1] == text[..i] + [c];
      ValueSnoc(text[..i], c, 10);
      DecimalDigit(c);
      value := value * 10 + (c as nat - '0' as nat);
    }
    DecimalIsCanonical(text);
    assert text[..|text|] == text;
    return if value > 255 then None else Some(value);
  }

  lemma OctetText(text: string, v: Byte)
    ensures OctetOf(text) == Some(v) <==> text == Print(v, 10)
  {
    PrintIsCanonical(v, 10);
    ValueOfPrint(v, 10);
    PrintLength(v, 10, 3);
    assert Power(10, 3) == 1000;
    if OctetOf(text) == Some(v) {
      PrintOfValue(text, 10);
    }
  }

  function Dotted(q: seq<Byte>): string
    requires |q| >= 1
  {
    if |q| == 1 then Print(q[0], 10) else Print(q[0], 10) + "." + Dotted(q[1..])
  }

  /** `n` octets separated by dots. */
  function QuadFrom(text: string, n: nat): Option<seq<Byte>>
    requires n >= 1
    decreases n
  {
    var dot := Find(text, '.');
    if (n == 1) != (dot == |text|) then None
    else
      var octet :- OctetOf(text[..dot]);
      if n == 1 then Some([octet])
      else
        var rest :- QuadFrom(text[dot + 1..], n - 1);
        Some([octet] + rest)
  }

  function Prepend<T>(front: seq<T>, rest: Option<seq<T>>): Option<seq<T>> {
    if rest.None? then None else Some(front + rest.value)
  }

  lemma PrependNothing(rest: Option<seq<Byte>>)
    ensures Prepend([], rest) == rest
  {
    if rest.Some? {
      assert [] + rest.value == rest.value;
    }
  }

  lemma QuadStep(out: seq<Byte>, text: string, n: nat)
    requires n >= 1
    ensures
      var dot := Find(text, '.');
      var octet := OctetOf(text[..dot]);
      Prepend(out, QuadFrom(text, n)) ==
      if (n == 1) != (dot == |text|) || octet.None? then None
      else if n == 1 then Some(out + [octet.value])
      else Prepend(out + [octet.value], QuadFrom(text[dot + 1..], n - 1))
  {
    if QuadFrom(text, n).Some? && n > 1 {
      var q := QuadFrom(text, n).value;
      assert out + ([q[0]] + q[1..]) == out + [q[0]] + q[1..];
    }
  }

  method ParseV4(text: string) returns (r: Option<seq<Byte>>)
    ensures r == QuadFrom(text, 4)
  {
    var out: seq<Byte> := [];
    var rest := text;
    hide QuadFrom, Prepend, OctetOf, Find;
    PrependNothing(QuadFrom(text, 4));
    for i := 0 to 4
      invariant |out| == i
      invariant QuadFrom(text, 4) == if i < 4 then Prepend(out, QuadFrom(rest, 4 - i)) else Some(out)
    {
      var dot := Find(rest, '.');
      QuadStep(out, rest, 4 - i);
      var last := i == 3;
      if last != (dot == |rest|) {
        return None;
      }
      var octet := ParseOctet(rest[..dot]);
      if octet.None? {
        return None;
      }
      out := out + [octet.value];
      rest := if last then "" else rest[dot + 1..];
    }
    return Some(out);
  }

  /** A text is a dotted quad exactly when it is the printed form of its octets. */
  lemma QuadText(text: string, n: nat, q: seq<Byte>)
    requires n >= 1
    ensures QuadFrom(text, n) == Some(q) <==> |q| == n && text == Dotted(q)
  {
    if QuadFrom(text, n) == Some(q) {
      QuadIsSound(text, n);
    }
    if |q| == n {
      QuadIsComplete(q);
    }
  }

  lemma {:induction false} QuadIsSound(text: string, n: nat)
    requires n >= 1
    ensures QuadFrom(text, n).Some? ==> var q := QuadFrom(text, n).value; |q| == n && text == Dotted(q)
    decreases n
  {
    hide Print, OctetOf;
    var dot := Find(text, '.');
    if QuadFrom(text, n).Some? {
      var q := QuadFrom(text, n).value;
      OctetText(text[..dot], q[0]);
      if n == 1 {
        assert text[..dot] == text;
      } else {
        QuadIsSound(text[dot + 1..], n - 1);
        assert text == text[..dot] + "." + text[dot + 1..];
        assert q[1..] == QuadFrom(text[dot + 1..], n - 1).value;
      }
    }
  }

  lemma {:induction false} QuadIsComplete(q: seq<Byte>)
    requires |q| >= 1
    ensures QuadFrom(Dotted(q), |q|) == Some(q)
  {
    hide Print, OctetOf, Find;
    var text, first := Dotted(q), Print(q[0], 10);
    NoDotIn(q[0]);
    OctetText(first, q[0]);
    if |q| == 1 {
      FindNone(text, '.');
      assert [q[0]] == q;
    } else {
      var rest := Dotted(q[1..]);
      FindSkips(first, '.', rest);
      QuadIsComplete(q[1..]);
      QuadSplits(text, first, rest, q);
    }
  }

  lemma QuadSplits(text: string, first: string, rest: string, q: seq<Byte>)
    requires |q| >= 2 && text == first + "." + rest && Find(text, '.') == |first|
    requires OctetOf(first) == Some(q[0]) && QuadFrom(rest, |q| - 1) == Some(q[1..])
    ensures QuadFrom(text, |q|) == Some(q)
  {
    assert text[..|first|] == first && text[|first| + 1..] == rest;
    assert [q[0]] + q[1..] == q;
  }

  lemma NoDotIn(v: nat)
    ensures '.' !in Print(v, 10) && ':' !in Print(v, 10) && '/' !in Print(v, 10)
    ensures NoSpaceAtEnds(Print(v, 10))
  {
    PrintIsCanonical(v, 10);
    var s := Print(v, 10);
    assert s[0] in s && s[|s| - 1] in s;
  }
}
