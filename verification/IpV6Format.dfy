/**
 The IPv6 printer (Networking/src/IpAddress.cpp) and the canonical form of section 4 of RFC 5952, and
 the round trip of addresses of both families through their text.
 */
module IpV6Format {
  import opened Types
  import opened Wrappers
  import opened StringUtil
  import opened Digits
  import opened IpText
  import opened IpV6Text

  predicate ZeroRun(w: seq<U16>, start: nat, n: nat) {
    start + n <= |w| && forall j | start <= j < start + n :: w[j] == 0
  }

  /** The longest run of zero groups, and of several equally long ones the first. */
  ghost predicate LeftmostLongest(w: seq<U16>, start: nat, n: nat) {
    && n >= 1 && ZeroRun(w, start, n)
    && forall i: nat, m: nat | ZeroRun(w, i, m) :: m < n || (m == n && start <= i)
  }

  /** Length of the zero run that begins at `i`. */
  function ZerosAt(w: seq<U16>, i: nat): (n: nat)
    requires i <= |w|
    ensures ZeroRun(w, i, n)
    ensures i + n < |w| ==> w[i + n] != 0
    decreases |w| - i
  {
    if i == |w| || w[i] != 0 then 0 else 1 + ZerosAt(w, i + 1)
  }

  /** Where the longest run from `i` on begins; the length of `w` when no group is zero. */
  function BestFrom(w: seq<U16>, i: nat): (b: nat)
    requires i <= |w|
    ensures i <= b <= |w|
    decreases |w| - i
  {
    if i == |w| then i
    else
      var b := BestFrom(w, i + 1);
      if ZerosAt(w, i) > 0 && ZerosAt(w, i) >= ZerosAt(w, b) then i else b
  }

  lemma {:induction false} BestIsLongest(w: seq<U16>, i: nat, j: nat)
    requires i <= j <= |w|
    ensures ZerosAt(w, j) <= ZerosAt(w, BestFrom(w, i))
    ensures j < BestFrom(w, i) ==> ZerosAt(w, j) < ZerosAt(w, BestFrom(w, i)) || ZerosAt(w, j) == 0
    ensures BestFrom(w, i) < |w| ==> ZerosAt(w, BestFrom(w, i)) >= 1
    decreases |w| - i
  {
    hide ZerosAt;
    if i < |w| {
      BestIsLongest(w, i + 1, if i == j then |w| else j);
    }
  }

  lemma NoZeros(w: seq<U16>, i: nat)
    requires i <= |w| && forall j | 0 <= j < |w| :: w[j] != 0
    ensures ZerosAt(w, i) == 0
  {
  }

  lemma RunFits(w: seq<U16>, i: nat, m: nat)
    requires i <= |w| && ZeroRun(w, i, m)
    ensures m <= ZerosAt(w, i)
  {
  }

  /** The function and the declarative description pick the same run. */
  lemma BestIsLeftmostLongest(w: seq<U16>, start: nat, n: nat)
    requires start <= |w|
    ensures LeftmostLongest(w, start, n) <==> start < |w| && start == BestFrom(w, 0) && n == ZerosAt(w, start)
  {
    var b := BestFrom(w, 0);
    BestIsLongest(w, 0, start);
    if start < |w| && start == b && n == ZerosAt(w, b) {
      forall i: nat, m: nat | ZeroRun(w, i, m)
        ensures m < n || (m == n && start <= i)
      {
        if i <= |w| {
          RunFits(w, i, m);
          BestIsLongest(w, 0, i);
        }
      }
    }
    if LeftmostLongest(w, start, n) {
      RunFits(w, start, n);
      assert w[start] == 0;
      assert ZeroRun(w, start, ZerosAt(w, start));
      assert ZeroRun(w, b, ZerosAt(w, b));
    }
  }

  /** Groups in lower-case hexadecimal without leading zeros, separated by colons. */
  function Colons(ws: seq<U16>): string {
    if ws == [] then "" else if |ws| == 1 then Print(ws[0], 16) else Print(ws[0], 16) + ":" + Colons(ws[1..])
  }

  function FormatWords(w: seq<U16>): string {
    var b := BestFrom(w, 0);
    var n := ZerosAt(w, b);
    if n < 2 then Colons(w) else Colons(w[..b]) + "::" + Colons(w[b + n..])
  }

  // ---------- the printing loops ----------

  /** The first loop of `formatV6`: the best run of zero groups, or length 0. */
  method FindRun(w: seq<U16>) returns (bestStart: nat, bestLength: nat)
    requires |w| == 8
    ensures bestLength == 0 ==> bestStart == 8 && forall i | 0 <= i < 8 :: w[i] != 0
    ensures bestLength > 0 ==> LeftmostLongest(w, bestStart, bestLength)
  {
    bestStart, bestLength := |w|, 0;
    var runStart, runLength := 0, 0;
    for i := 0 to |w|
      invariant RunEndsAt(w, i, runStart, runLength)
      invariant bestLength == 0 ==> bestStart == 8 && forall j | 0 <= j < i :: w[j] != 0
      invariant bestLength > 0 ==> LeftmostLongest(w[..i], bestStart, bestLength)
    {
      BestGrows(w, i, runStart, runLength, bestStart, bestLength);
      if w[i] == 0 {
        if runLength == 0 {
          runStart := i;
        }
        runLength := runLength + 1;
        if runLength > bestLength {
          bestLength := runLength;
          bestStart := runStart;
        }
      } else {
        runLength := 0;
      }
    }
    assert w[..|w|] == w;
  }

  /** The zero run that ends just before `i`, as far back as it goes. */
  ghost predicate RunEndsAt(w: seq<U16>, i: nat, runStart: nat, runLength: nat) {
    && i <= |w|
    && runLength <= i && (runLength > 0 ==> runStart == i - runLength)
    && (forall j | i - runLength <= j < i :: w[j] == 0)
    && (runLength < i ==> w[i - runLength - 1] != 0)
  }

  /** A longer prefix has the runs of the shorter one, and those that reach its own end. */
  lemma RunsGrow(w: seq<U16>, i: nat, runStart: nat, runLength: nat, s: nat, m: nat)
    requires i < |w| && RunEndsAt(w, i, runStart, runLength) && m > 0
    ensures ZeroRun(w[..i + 1], s, m)
       <==> ZeroRun(w[..i], s, m) || (w[i] == 0 && s + m == i + 1 && m <= runLength + 1)
  {
    var v, v' := w[..i], w[..i + 1];
    assert forall j | 0 <= j <= i :: v'[j] == w[j];
    assert forall j | 0 <= j < i :: v[j] == w[j] == v'[j];
  }

  lemma NoRunAt(w: seq<U16>, i: nat, s: nat, m: nat)
    requires i <= |w| && m > 0 && (s < i ==> w[s] != 0)
    ensures !ZeroRun(w[..i], s, m)
  {
    assert s < i ==> w[..i][s] == w[s];
  }

  lemma BestGrows(w: seq<U16>, i: nat, runStart: nat, runLength: nat, bestStart: nat, bestLength: nat)
    requires i < |w| && RunEndsAt(w, i, runStart, runLength)
    requires bestLength == 0 ==> forall j | 0 <= j < i :: w[j] != 0
    requires bestLength > 0 ==> LeftmostLongest(w[..i], bestStart, bestLength)
    ensures w[i] == 0 && runLength + 1 > bestLength ==> LeftmostLongest(w[..i + 1], i - runLength, runLength + 1)
    ensures (w[i] != 0 || runLength + 1 <= bestLength) && bestLength > 0 ==>
      LeftmostLongest(w[..i + 1], bestStart, bestLength)
  {
    var v' := w[..i + 1];
    if w[i] == 0 && runLength + 1 > bestLength {
      RunsGrow(w, i, runStart, runLength, i - runLength, runLength + 1);
      forall s: nat, m: nat | ZeroRun(v', s, m)
        ensures m < runLength + 1 || (m == runLength + 1 && i - runLength <= s)
      {
        if m > 0 {
          RunsGrow(w, i, runStart, runLength, s, m);
          if bestLength == 0 {
            NoRunAt(w, i, s, m);
          }
        }
      }
    } else if bestLength > 0 {
      RunsGrow(w, i, runStart, runLength, bestStart, bestLength);
      forall s: nat, m: nat | ZeroRun(v', s, m)
        ensures m < bestLength || (m == bestLength && bestStart <= s)
      {
        if m > 0 {
          RunsGrow(w, i, runStart, runLength, s, m);
        }
      }
    }
  }

  lemma {:induction false} ColonsSnoc(ws: seq<U16>, x: U16)
    ensures Colons(ws + [x]) == Colons(ws) + (if ws == [] then "" else ":") + Print(x, 16)
  {
    hide Print;
    var all := ws + [x];
    if ws == [] {
      assert all == [x];
      assert Colons(all) == "" + "" + Print(x, 16);
    } else {
      ColonsSnoc(ws[1..], x);
      assert all[1..] == ws[1..] + [x];
      var rest := Colons(ws[1..]) + (if ws[1..] == [] then "" else ":") + Print(x, 16);
      assert Colons(all) == Print(ws[0], 16) + ":" + rest;
      assert Colons(all) == Colons(ws) + ":" + Print(x, 16);
    }
  }

  lemma LastIsNotColon(ws: seq<U16>)
    ensures ws == [] <==> Colons(ws) == ""
    ensures ws != [] ==> Colons(ws)[|Colons(ws)| - 1] != ':'
  {
    if ws != [] {
      hide Print, Colons;
      var front, x := ws[..|ws| - 1], ws[|ws| - 1];
      ColonsSnoc(front, x);
      assert ws == front + [x];
      PrintIsCanonical(x, 16);
      var t := Print(x, 16);
      assert t[|t| - 1] in t;
    }
  }

  /** `formatV6`. */
  method FormatV6(bytes: seq<Byte>) returns (out: string)
    requires |bytes| == 16
    ensures out == FormatWords(WordsOf(bytes))
  {
    hide Colons, BestFrom, ZerosAt, LeftmostLongest;
    var words := WordsOf(bytes);
    var bestStart, bestLength := FindRun(words);
    RunChosen(words, bestStart, bestLength);
    if bestLength < 2 {
      bestStart, bestLength := |words|, 0;
    }
    out := "";
    var i := 0;
    assert Colons(words[..0]) == "" by { LastIsNotColon(words[..0]); }
    while i < |words|
      invariant PrintedUpTo(words, bestStart, bestLength, i, out)
    {
      PrintedNext(words, bestStart, bestLength, i, out);
      if i == bestStart {
        out := out + "::";
        i := i + bestLength;
      } else {
        if out != "" && out[|out| - 1] != ':' {
          out := out + ":";
        }
        out := out + Print(words[i], 16);
        i := i + 1;
      }
    }
    PrintedAll(words, bestStart, bestLength, out);
  }

  ghost predicate PrintedUpTo(w: seq<U16>, start: nat, n: nat, i: nat, out: string) {
    && i <= |w|
    && ((n == 0 && start == |w|) || (n >= 2 && start + n <= |w|))
    && if i <= start then out == Colons(w[..i])
       else start + n <= i && out == Colons(w[..start]) + "::" + Colons(w[start + n..i])
  }

  lemma PrintedNext(w: seq<U16>, start: nat, n: nat, i: nat, out: string)
    requires i < |w| && PrintedUpTo(w, start, n, i, out)
    ensures i == start ==> PrintedUpTo(w, start, n, i + n, out + "::")
    ensures i != start ==>
      var sep := if out != "" && out[|out| - 1] != ':' then ":" else "";
      PrintedUpTo(w, start, n, i + 1, out + sep + Print(w[i], 16))
  {
    hide Print;
    if i == start {
      assert w[start + n..i + n] == [];
    } else if i < start {
      PrintedBefore(w, start, n, i, out);
    } else {
      PrintedAfter(w, start, n, i, out);
    }
  }

  lemma PrintedBefore(w: seq<U16>, start: nat, n: nat, i: nat, out: string)
    requires i < start && i < |w| && PrintedUpTo(w, start, n, i, out)
    ensures
      var sep := if out != "" && out[|out| - 1] != ':' then ":" else "";
      PrintedUpTo(w, start, n, i + 1, out + sep + Print(w[i], 16))
  {
    hide Print, Colons;
    ColonsSnoc(w[..i], w[i]);
    assert w[..i + 1] == w[..i] + [w[i]];
    LastIsNotColon(w[..i]);
  }

  lemma PrintedAfter(w: seq<U16>, start: nat, n: nat, i: nat, out: string)
    requires start < i < |w| && PrintedUpTo(w, start, n, i, out)
    ensures
      var sep := if out != "" && out[|out| - 1] != ':' then ":" else "";
      PrintedUpTo(w, start, n, i + 1, out + sep + Print(w[i], 16))
  {
    hide Print, Colons;
    var done := w[start + n..i];
    ColonsSnoc(done, w[i]);
    assert w[start + n..i + 1] == done + [w[i]];
    LastIsNotColon(done);
    var front, sep := Colons(w[..start]) + "::", if done == [] then "" else ":";
    assert front + Colons(done) + sep + Print(w[i], 16) == front + (Colons(done) + sep + Print(w[i], 16));
  }

  lemma LongestFits(w: seq<U16>, start: nat, n: nat)
    requires LeftmostLongest(w, start, n)
    ensures start + n <= |w|
  {
  }

  lemma RunChosen(w: seq<U16>, start: nat, n: nat)
    requires n == 0 ==> forall i | 0 <= i < |w| :: w[i] != 0
    requires n > 0 ==> LeftmostLongest(w, start, n)
    ensures FormatWords(w) == if n < 2 then Colons(w) else Colons(w[..start]) + "::" + Colons(w[start + n..])
    ensures start + n <= |w| || n == 0
  {
    hide Colons, BestFrom, ZerosAt, ZeroRun, LeftmostLongest;
    if n > 0 {
      LongestFits(w, start, n);
      BestIsLeftmostLongest(w, start, n);
    } else {
      NoZeros(w, BestFrom(w, 0));
    }
  }

  lemma PrintedAll(w: seq<U16>, start: nat, n: nat, out: string)
    requires PrintedUpTo(w, start, n, |w|, out)
    ensures out == if n == 0 then Colons(w) else Colons(w[..start]) + "::" + Colons(w[start + n..])
  {
    assert w[..|w|] == w;
    assert w[start + n..|w|] == w[start + n..];
  }

  /** Two or more zero groups, the leftmost longest run of them, are written as `::`. */
  ghost predicate Shortened(w: seq<U16>, start: nat, n: nat, text: string) {
    && n >= 2 && LeftmostLongest(w, start, n)
    && text == Colons(w[..start]) + "::" + Colons(w[start + n..])
  }

  /** Section 4.2 of RFC 5952: exactly the leftmost longest run of two or more zero groups is shortened. */
  lemma CanonicalForm(w: seq<U16>)
    ensures (exists start, n :: Shortened(w, start, n, FormatWords(w)))
         || ((forall i | 0 <= i < |w| - 1 :: !ZeroRun(w, i, 2)) && FormatWords(w) == Colons(w))
  {
    hide Colons, BestFrom, LeftmostLongest, ZeroRun;
    var b := BestFrom(w, 0);
    var n := ZerosAt(w, b);
    if n < 2 {
      NoLongRun(w);
    } else {
      BestIsLeftmostLongest(w, b, n);
      assert Shortened(w, b, n, FormatWords(w));
    }
  }

  lemma NoLongRun(w: seq<U16>)
    requires ZerosAt(w, BestFrom(w, 0)) < 2
    ensures forall i | 0 <= i < |w| - 1 :: !ZeroRun(w, i, 2)
  {
    forall i | 0 <= i < |w| - 1 ensures !ZeroRun(w, i, 2) {
      BestIsLongest(w, 0, i);
      if ZeroRun(w, i, 2) {
        RunFits(w, i, 2);
      }
    }
  }

  // ---------- round trips ----------

  function HexGroups(ws: seq<U16>): seq<Group> {
    seq(|ws|, i requires 0 <= i < |ws| => Hex(Print(ws[i], 16)))
  }

  lemma HexGroupOf(w: U16)
    ensures Hex(Print(w, 16)).Valid() && HextetValue(Print(w, 16)) == w
  {
    PrintIsCanonical(w, 16);
    ValueOfPrint(w, 16);
    assert Power(16, 4) == 0x1_0000;
    PrintLength(w, 16, 4);
  }

  lemma {:induction false} HexGroupsText(ws: seq<U16>)
    ensures ValidGroups(HexGroups(ws), false) && ValidGroups(HexGroups(ws), true)
    ensures GroupsText(HexGroups(ws)) == Colons(ws) && GroupsWords(HexGroups(ws)) == ws
  {
    hide Print, HextetValue;
    if ws != [] {
      HexGroupOf(ws[0]);
      HexGroupsText(ws[1..]);
      var gs := HexGroups(ws);
      assert gs[1..] == HexGroups(ws[1..]);
      assert gs == [gs[0]] + gs[1..];
      GroupsUnfold(gs);
      assert ws == [ws[0]] + ws[1..];
    }
  }

  lemma WordsRoundTrip(w: seq<U16>)
    requires |w| == 8
    ensures ParseWords(FormatWords(w)) == Some(w)
  {
    hide ParseWords, Colons, GroupsText, GroupsWords, HexGroups, BestFrom;
    var b := BestFrom(w, 0);
    var n := ZerosAt(w, b);
    if n < 2 {
      HexGroupsText(w);
      HexGroupsText([]);
      var v := Spelling(HexGroups(w), false, []);
      assert v.Valid();
      ParserIsComplete(v);
      assert v.Text() == Colons(w) + "" == Colons(w);
    } else {
      HexGroupsText(w[..b]);
      HexGroupsText(w[b + n..]);
      var v := Spelling(HexGroups(w[..b]), true, HexGroups(w[b + n..]));
      assert v.Words() == w;
      ParserIsComplete(v);
      assert v.Text() == Colons(w[..b]) + ("::" + Colons(w[b + n..]));
      assert v.Text() == Colons(w[..b]) + "::" + Colons(w[b + n..]);
    }
  }

  function ToText(a: IpAddress): string {
    if a.V4? then Dotted(a.octets) else FormatWords(WordsOf(a.octets))
  }

  /** `IpAddress::tryParse`: surrounding space is dropped, a colon selects the IPv6 parser. */
  function ParseAddress(text: string): Option<IpAddress> {
    var trimmed := Trim(text);
    if ':' in trimmed then
      var w :- ParseWords(trimmed);
      Some(V6(BytesOf(w)))
    else
      var q :- QuadFrom(trimmed, 4);
      QuadIsSound(trimmed, 4);
      Some(V4(q))
  }

  method TryParse(text: string) returns (r: Option<IpAddress>)
    ensures r == ParseAddress(text)
  {
    var trimmed := Trim(text);
    if trimmed == "" {
      return None;
    }
    if ':' in trimmed {
      var bytes := ParseV6(trimmed);
      return if bytes.None? then None else Some(V6(bytes.value));
    }
    var octets := ParseV4(trimmed);
    if octets.None? {
      return None;
    }
    QuadIsSound(trimmed, 4);
    return Some(V4(octets.value));
  }

  predicate AddressChar(c: char) {
    DigitValue(c) < 16 || c == ':' || c == '.'
  }

  lemma PrintedChars(n: nat, base: nat)
    requires 2 <= base <= 16
    ensures forall c | c in Print(n, base) :: DigitValue(c) < 16
  {
    PrintIsCanonical(n, base);
  }

  lemma {:induction false} ColonsChars(ws: seq<U16>)
    ensures forall c | c in Colons(ws) :: AddressChar(c)
    ensures |ws| >= 2 ==> ':' in Colons(ws)
  {
    hide Print;
    if ws != [] {
      PrintedChars(ws[0], 16);
      ColonsChars(ws[1..]);
    }
  }

  lemma {:induction false} DottedChars(q: seq<Byte>)
    requires |q| >= 1
    ensures Dotted(q) != "" && forall c | c in Dotted(q) :: AddressChar(c) && c != ':'
  {
    hide Print;
    NoDotIn(q[0]);
    PrintedChars(q[0], 10);
    if |q| > 1 {
      DottedChars(q[1..]);
    }
  }

  lemma AddressChars(a: IpAddress)
    ensures ToText(a) != "" && forall c | c in ToText(a) :: AddressChar(c)
    ensures ':' in ToText(a) <==> a.V6?
    ensures NoSpaceAtEnds(ToText(a))
  {
    var t := ToText(a);
    if a.V4? {
      DottedChars(a.octets);
    } else {
      var w := WordsOf(a.octets);
      var b := BestFrom(w, 0);
      ColonsChars(w);
      ColonsChars(w[..b]);
      ColonsChars(w[b + ZerosAt(w, b)..]);
      assert ':' in "::";
    }
    assert t[0] in t && t[|t| - 1] in t;
  }

  /** Printing then parsing an address gives it back. */
  lemma AddressRoundTrip(a: IpAddress)
    ensures ParseAddress(ToText(a)) == Some(a)
  {
    hide ToText;
    AddressChars(a);
    TrimIsIdentity(ToText(a));
    AddressReadsBack(a);
  }

  lemma AddressReadsBack(a: IpAddress)
    ensures a.V4? ==> QuadFrom(ToText(a), 4) == Some(a.octets)
    ensures a.V6? ==> ParseWords(ToText(a)) == Some(WordsOf(a.octets)) && BytesOf(WordsOf(a.octets)) == a.octets
  {
    if a.V4? {
      QuadIsComplete(a.octets);
    } else {
      WordsRoundTrip(WordsOf(a.octets));
      BytesOfWords(a.octets);
    }
  }

  lemma AddressTextInjective(a: IpAddress, b: IpAddress)
    requires ToText(a) == ToText(b)
    ensures a == b
  {
    AddressRoundTrip(a);
    AddressRoundTrip(b);
  }
}
