/** The texts from which the default route ranges are read (`defaultRouteEntries`, Routing/src/RouteManager.cpp). */
module RouteDefaults {
  import opened Types
  import opened Wrappers
  import opened Digits
  import opened IpText
  import opened IpV6Text
  import opened IpV6Format
  import opened IpRanges
  import opened RangeText
  import opened RouteTable

  lemma SmallNumbers()
    ensures Print(0, 10) == "0" && Print(1, 10) == "1" && Print(128, 10) == "128"
  {
    assert Print(128, 10) == Print(12, 10) + ['8'];
    assert Print(12, 10) == Print(1, 10) + ['2'];
  }

  lemma DottedZeros(a: Byte)
    ensures Dotted([a, 0, 0, 0]) == Print(a, 10) + "." + (Print(0, 10) + "." + (Print(0, 10) + "." + Print(0, 10)))
  {
    hide Print;
    assert [a, 0, 0, 0][1..] == [0, 0, 0];
    assert [0 as Byte, 0, 0][1..] == [0, 0];
    assert [0 as Byte, 0][1..] == [0];
    assert Dotted([0]) == Print(0, 10);
    assert Dotted([0, 0]) == Print(0, 10) + "." + Dotted([0]);
    assert Dotted([0, 0, 0]) == Print(0, 10) + "." + Dotted([0, 0]);
  }

  /** The IPv4 texts are read as the two halves and the whole. */
  lemma V4DefaultsFromText()
    ensures ParseRange("0.0.0.0/1") == Some(Half(true, false))
    ensures ParseRange("128.0.0.0/1") == Some(Half(true, true))
    ensures ParseRange("0.0.0.0/0") == Some(Everything(true))
  {
    hide Print, Dotted, ParseRange;
    SmallNumbers();
    DottedZeros(0);
    DottedZeros(128);
    RangeRoundTrip(Half(true, false));
    RangeRoundTrip(Half(true, true));
    RangeRoundTrip(Everything(true));
    assert CidrText(Half(true, false)) == "0.0.0.0/1";
    assert CidrText(Half(true, true)) == "128.0.0.0/1";
    assert CidrText(Everything(true)) == "0.0.0.0/0";
  }

  const ZEROS: seq<U16> := [0, 0, 0, 0, 0, 0, 0, 0]
  const HIGH: seq<U16> := [0x8000, 0, 0, 0, 0, 0, 0, 0]

  lemma HighNumber()
    ensures Print(0x8000, 16) == "8000"
  {
    assert Print(0x8000, 16) == Print(0x800, 16) + ['0'];
    assert Print(0x800, 16) == Print(0x80, 16) + ['0'];
    assert Print(0x80, 16) == Print(8, 16) + ['0'];
  }

  lemma ZeroText()
    ensures FormatWords(ZEROS) == "::"
  {
    hide FormatWords, Colons;
    CanonicalForm(ZEROS);
    assert ZeroRun(ZEROS, 0, 8) && ZeroRun(ZEROS, 0, 2);
    var start, n :| Shortened(ZEROS, start, n, FormatWords(ZEROS));
    assert start == 0 && n == 8;
    NoWords();
    assert ZEROS[..0] == [] && ZEROS[8..] == [];
  }

  lemma NoWords()
    ensures Colons([]) == ""
  {
  }

  lemma OneWord(w: U16)
    ensures Colons([w]) == Print(w, 16)
  {
    hide Print;
  }

  lemma HighText()
    ensures FormatWords(HIGH) == "8000::"
  {
    hide FormatWords, Colons, Print;
    CanonicalForm(HIGH);
    assert ZeroRun(HIGH, 1, 7) && ZeroRun(HIGH, 1, 2);
    var start, n :| Shortened(HIGH, start, n, FormatWords(HIGH));
    assert HIGH[0] != 0;
    assert start == 1 && n == 7;
    NoWords();
    OneWord(0x8000);
    HighNumber();
    assert HIGH[..1] == [0x8000] && HIGH[8..] == [];
  }

  /** A leading byte and zeros, as words. */
  lemma WordsOfLead(bytes: seq<Byte>, words: seq<U16>)
    requires |bytes| == 16 && forall i | 1 <= i < 16 :: bytes[i] == 0
    requires |words| == 8 && words[0] == bytes[0] as int * 0x100 && forall i | 1 <= i < 8 :: words[i] == 0
    ensures WordsOf(bytes) == words
  {
    forall i | 0 <= i < 8 ensures WordsOf(bytes)[i] == words[i] {
      assert bytes[2 * i + 1] == 0;
      assert i > 0 ==> bytes[2 * i] == 0;
    }
  }

  lemma ConstantWords()
    ensures WordsOf(ZERO_V6) == ZEROS && WordsOf(HIGH_V6) == HIGH
  {
    hide WordsOf;
    WordsOfLead(ZERO_V6, ZEROS);
    WordsOfLead(HIGH_V6, HIGH);
  }

  /** The IPv6 texts likewise. */
  lemma V6DefaultsFromText()
    ensures ParseRange("::/1") == Some(Half(false, false))
    ensures ParseRange("8000::/1") == Some(Half(false, true))
    ensures ParseRange("::/0") == Some(Everything(false))
  {
    hide Print, FormatWords, ParseRange;
    SmallNumbers();
    ZeroText();
    HighText();
    ConstantWords();
    RangeRoundTrip(Half(false, false));
    RangeRoundTrip(Half(false, true));
    RangeRoundTrip(Everything(false));
    assert CidrText(Half(false, false)) == "::/1";
    assert CidrText(Half(false, true)) == "8000::/1";
    assert CidrText(Everything(false)) == "::/0";
  }
}
