/**
 The IPv6 text parser (Networking/src/IpAddress.cpp) against the grammar of section 2.2 of RFC 4291.
 */
module IpV6Text {
  import opened Types
  import opened Wrappers
  import opened StringUtil
  import opened Digits
  import opened IpText

  // ---------- the grammar ----------

  /** One colon-separated group: one to four hexadecimal digits, or a dotted quad for two groups. */
  datatype Group = Hex(digits: string) | Quad(octets: seq<Byte>) {
    predicate Valid() {
      if Hex? then 1 <= |digits| <= 4 && AllDigits(digits, 16) else |octets| == 4
    }

    function Text(): string
      requires Valid()
    {
      if Hex? then digits else Dotted(octets)
    }

    function Words(): seq<U16>
      requires Valid()
    {
      if Hex? then [HextetValue(digits)]
      else QuadWords(octets)
    }
  }

  function QuadWords(q: seq<Byte>): seq<U16>
    requires |q| == 4
  {
    [WordOf(q[0], q[1]), WordOf(q[2], q[3])]
  }

  /** Groups of which only the last may be a quad, and that one only when `quadAllowed`. */
  predicate ValidGroups(gs: seq<Group>, quadAllowed: bool) {
    && (forall g | g in gs :: g.Valid())
    && forall i | 0 <= i < |gs| :: gs[i].Quad? ==> quadAllowed && i == |gs| - 1
  }

  function GroupsText(gs: seq<Group>): string
    requires forall g | g in gs :: g.Valid()
  {
    if gs == [] then "" else if |gs| == 1 then gs[0].Text() else gs[0].Text() + ":" + GroupsText(gs[1..])
  }

  function GroupsWords(gs: seq<Group>): seq<U16>
    requires forall g | g in gs :: g.Valid()
  {
    if gs == [] then [] else gs[0].Words() + GroupsWords(gs[1..])
  }

  /** `head`, or `head::tail` where `::` stands for at least one zero group. */
  datatype Spelling = Spelling(head: seq<Group>, compressed: bool, tail: seq<Group>) {
    predicate Valid() {
      && ValidGroups(head, !compressed) && ValidGroups(tail, true)
      && if compressed then |GroupsWords(head)| + |GroupsWords(tail)| <= 7
         else tail == [] && |GroupsWords(head)| == 8
    }

    function Text(): string
      requires Valid()
    {
      GroupsText(head) + (if compressed then "::" + GroupsText(tail) else "")
    }

    function Words(): (w: seq<U16>)
      requires Valid()
      ensures |w| == 8
    {
      if compressed then Expand(GroupsWords(head), GroupsWords(tail)) else GroupsWords(head)
    }
  }

  function Expand(head: seq<U16>, tail: seq<U16>): seq<U16>
    requires |head| + |tail| <= 8
  {
    head + seq(8 - |head| - |tail|, _ => 0) + tail
  }

  function HextetValue(digits: string): U16
    requires 1 <= |digits| <= 4 && AllDigits(digits, 16)
  {
    HextetFits(digits);
    Value(digits, 16)
  }

  lemma HextetFits(digits: string)
    requires |digits| <= 4 && AllDigits(digits, 16)
    ensures Value(digits, 16) < 0x1_0000
  {
    ValueBound(digits, 16);
    assert Power(16, 4) == 0x1_0000;
    PowerMonotone(16, |digits|, 4);
  }

  // ---------- what the scanning loop computes ----------

  /** Groups read so far, before and after `::`. */
  datatype Shape = Shape(head: seq<U16>, compressed: bool, tail: seq<U16>) {
    function Current(): seq<U16> { if compressed then tail else head }

    function Add(ws: seq<U16>): Shape {
      if compressed then this.(tail := tail + ws) else this.(head := head + ws)
    }
  }

  /** Reads the groups of a non-empty rest. */
  function Scan(rest: string, s: Shape): Option<Shape>
    decreases |rest|
  {
    var colon := Find(rest, ':');
    var piece := rest[..colon];
    if '.' in piece then
      var q :- QuadFrom(piece, 4);
      QuadIsSound(piece, 4);
      if |s.Current()| + 2 > 8 || colon < |rest| then None
      else Some(s.Add(QuadWords(q)))
    else if piece == "" then
      if s.compressed then None
      else if |rest| <= 1 then Some(s.(compressed := true))
      else Scan(rest[1..], s.(compressed := true))
    else if |piece| > 4 || !AllDigits(piece, 16) || |s.Current()| >= 8 then None
    else
      var s' := s.Add([HextetValue(piece)]);
      if colon == |rest| then Some(s')
      else if colon + 1 == |rest| then None
      else Scan(rest[colon + 1..], s')
  }

  function Finish(s: Shape): Option<seq<U16>> {
    if s.compressed then
      if |s.head| + |s.tail| >= 8 then None else Some(Expand(s.head, s.tail))
    else if |s.head| != 8 then None
    else Some(s.head)
  }

  function ParseWords(text: string): Option<seq<U16>> {
    if |text| < 2 then None
    else if text[0] == ':' then
      if text[1] != ':' then None
      else if |text| == 2 then Some(Expand([], []))
      else
        var s :- Scan(text[2..], Shape([], true, []));
        Finish(s)
    else
      var s :- Scan(text, Shape([], false, []));
      Finish(s)
  }

  // ---------- the grammar is exactly what is accepted ----------

  lemma GroupTextShape(g: Group)
    requires g.Valid()
    ensures g.Text() != "" && ':' !in g.Text()
    ensures '.' in g.Text() <==> g.Quad?
    ensures g.Quad? ==> QuadFrom(g.Text(), 4) == Some(g.octets)
  {
    if g.Quad? {
      DottedShape(g.octets);
      QuadIsComplete(g.octets);
    }
  }

  lemma {:induction false} DottedShape(q: seq<Byte>)
    requires |q| >= 1
    ensures Dotted(q) != "" && ':' !in Dotted(q)
    ensures |q| > 1 ==> '.' in Dotted(q)
  {
    NoDotIn(q[0]);
    if |q| > 1 {
      DottedShape(q[1..]);
    }
  }

  lemma GroupsTextStart(gs: seq<Group>)
    requires gs != [] && forall g | g in gs :: g.Valid()
    ensures GroupsText(gs) != "" && GroupsText(gs)[0] != ':'
    ensures |gs| >= 2 ==> |GroupsText(gs)| >= 2
    ensures |gs| == 1 ==> |GroupsWords(gs)| <= 2
  {
    GroupTextShape(gs[0]);
    assert gs[0].Text()[0] in gs[0].Text();
    assert |gs| == 1 ==> GroupsWords(gs[1..]) == [];
  }

  lemma ScanLastHex(t: string, s: Shape)
    requires Hex(t).Valid() && |s.Current()| < 8
    ensures Scan(t, s) == Some(s.Add([HextetValue(t)]))
  {
    hide QuadFrom, HextetValue, AllDigits, Find;
    GroupTextShape(Hex(t));
    FindNone(t, ':');
  }

  lemma ScanHexBefore(t: string, s: Shape, more: string)
    requires Hex(t).Valid() && |s.Current()| < 8 && more != ""
    ensures Scan(t + ":" + more, s) == Scan(more, s.Add([HextetValue(t)]))
  {
    hide QuadFrom, HextetValue, AllDigits, Find;
    var rest := t + ":" + more;
    GroupTextShape(Hex(t));
    FindSkips(t, ':', more);
    assert rest[..|t|] == t && rest[|t| + 1..] == more;
  }

  lemma ScanQuad(q: seq<Byte>, s: Shape)
    requires |q| == 4 && |s.Current()| + 2 <= 8
    ensures Scan(Dotted(q), s) == Some(s.Add(QuadWords(q)))
  {
    hide QuadFrom, Dotted, QuadWords;
    GroupTextShape(Quad(q));
    FindNone(Dotted(q), ':');
  }

  /** One group is read off the front of the rest. */
  lemma ScanOne(g: Group, s: Shape, more: string)
    requires g.Valid() && |s.Current()| + |g.Words()| <= 8
    requires more != "" ==> more[0] == ':' && |more| >= 2 && g.Hex?
    ensures Scan(g.Text() + more, s)
         == if more == "" then Some(s.Add(g.Words())) else Scan(more[1..], s.Add(g.Words()))
  {
    hide Scan;
    assert g.Text() + "" == g.Text();
    if g.Quad? {
      ScanQuad(g.octets, s);
    } else if more == "" {
      ScanLastHex(g.digits, s);
    } else {
      assert g.Text() + more == g.digits + ":" + more[1..];
      ScanHexBefore(g.digits, s, more[1..]);
    }
  }

  lemma GroupsUnfold(gs: seq<Group>)
    requires |gs| >= 1 && forall g | g in gs :: g.Valid()
    ensures |gs| == 1 ==> GroupsText(gs) == gs[0].Text() && GroupsWords(gs) == gs[0].Words()
    ensures |gs| > 1 ==> GroupsText(gs) == gs[0].Text() + ":" + GroupsText(gs[1..])
    ensures GroupsWords(gs) == gs[0].Words() + GroupsWords(gs[1..])
  {
    if |gs| == 1 {
      assert gs[0].Words() + [] == gs[0].Words();
    }
  }

  /** All of `gs` is read, up to a following `::` if there is one. */
  lemma {:induction false} ScanGroups(gs: seq<Group>, s: Shape, more: string)
    requires gs != [] && ValidGroups(gs, more == "") && |s.Current()| + |GroupsWords(gs)| <= 8
    requires more != "" ==> |more| >= 2 && more[0] == ':' && more[1] == ':'
    ensures Scan(GroupsText(gs) + more, s)
         == if more == "" then Some(s.Add(GroupsWords(gs))) else Scan(more[1..], s.Add(GroupsWords(gs)))
  {
    hide Scan, GroupsText, GroupsWords;
    var g := gs[0];
    GroupsUnfold(gs);
    if |gs| == 1 {
      ScanOne(g, s, more);
    } else {
      var tail := GroupsText(gs[1..]) + more;
      GroupsTextStart(gs[1..]);
      assert GroupsText(gs) + more == g.Text() + (":" + tail);
      ScanOne(g, s, ":" + tail);
      assert (":" + tail)[1..] == tail;
      AddTwice(s, g.Words(), GroupsWords(gs[1..]));
      ScanGroups(gs[1..], s.Add(g.Words()), more);
    }
  }

  lemma AddTwice(s: Shape, a: seq<U16>, b: seq<U16>)
    ensures s.Add(a).Add(b) == s.Add(a + b)
    ensures |s.Add(a).Current()| == |s.Current()| + |a|
    ensures s.Add([]) == s
  {
    assert s.head + (a + b) == s.head + a + b && s.tail + (a + b) == s.tail + a + b;
    assert s.head + [] == s.head && s.tail + [] == s.tail;
  }

  lemma ScanTail(tail: seq<Group>, s: Shape)
    requires s.compressed && s.tail == [] && ValidGroups(tail, true)
    requires tail != [] && |GroupsWords(tail)| <= 8
    ensures Scan(GroupsText(tail), s) == Some(s.(tail := GroupsWords(tail)))
  {
    ScanGroups(tail, s, "");
    assert GroupsText(tail) + "" == GroupsText(tail);
    assert [] + GroupsWords(tail) == GroupsWords(tail);
  }

  lemma AfterHead(tail: seq<Group>, s: Shape)
    requires !s.compressed && s.tail == [] && ValidGroups(tail, true) && |GroupsWords(tail)| <= 8
    ensures Scan(":" + GroupsText(tail), s) == Some(s.(compressed := true, tail := GroupsWords(tail)))
  {
    var rest := ":" + GroupsText(tail);
    assert Find(rest, ':') == 0;
    assert rest[1..] == GroupsText(tail);
    if tail != [] {
      GroupsTextStart(tail);
      ScanTail(tail, s.(compressed := true));
    }
  }

  lemma TailOnlyAccepted(tail: seq<Group>)
    requires Spelling([], true, tail).Valid()
    ensures ParseWords("::" + GroupsText(tail)) == Some(Expand([], GroupsWords(tail)))
  {
    hide Scan;
    var text := "::" + GroupsText(tail);
    if tail == [] {
      assert text == "::";
    } else {
      GroupsTextStart(tail);
      assert text[2..] == GroupsText(tail);
      ScanTail(tail, Shape([], true, []));
    }
  }

  lemma HeadAccepted(v: Spelling)
    requires v.Valid() && v.head != []
    ensures Scan(v.Text(), Shape([], false, []))
         == Some(Shape(GroupsWords(v.head), v.compressed, GroupsWords(v.tail)))
  {
    hide Scan;
    var empty, front := Shape([], false, []), GroupsWords(v.head);
    GroupsTextStart(v.head);
    var more := if v.compressed then "::" + GroupsText(v.tail) else "";
    ScanGroups(v.head, empty, more);
    assert empty.Add(front) == Shape(front, false, []) by { assert [] + front == front; }
    if v.compressed {
      AfterHead(v.tail, Shape(front, false, []));
      assert more[1..] == ":" + GroupsText(v.tail);
    }
  }

  /** Every spelling the grammar allows is accepted and read as its words. */
  lemma ParserIsComplete(v: Spelling)
    requires v.Valid()
    ensures ParseWords(v.Text()) == Some(v.Words())
  {
    hide Scan;
    if v.head == [] {
      TailOnlyAccepted(v.tail);
      assert v.Text() == "::" + GroupsText(v.tail);
    } else {
      GroupsTextStart(v.head);
      HeadAccepted(v);
      assert v.Text()[0] == GroupsText(v.head)[0];
    }
  }

  /** What a successful scan has read: groups, possibly with a `::` after them and more groups. */
  ghost predicate HasRead(rest: string, s: Shape, r: Shape, gs: seq<Group>, c: bool, ts: seq<Group>) {
    && ValidGroups(gs, !c) && ValidGroups(ts, true)
    && (c ==> !s.compressed)
    && (!c ==> gs != [] && ts == [])
    && rest == ReadText(gs, c, ts)
    && r == if c then s.Add(GroupsWords(gs)).(compressed := true).Add(GroupsWords(ts)) else s.Add(GroupsWords(gs))
  }

  ghost function ReadText(gs: seq<Group>, c: bool, ts: seq<Group>): string
    requires (forall g | g in gs :: g.Valid()) && forall g | g in ts :: g.Valid()
  {
    if !c then GroupsText(gs)
    else if gs == [] then ":" + GroupsText(ts)
    else GroupsText(gs) + "::" + GroupsText(ts)
  }

  lemma {:induction false} ScanIsSound(rest: string, s: Shape)
      returns (gs: seq<Group>, c: bool, ts: seq<Group>)
    requires rest != "" && Scan(rest, s).Some?
    ensures HasRead(rest, s, Scan(rest, s).value, gs, c, ts)
    decreases |rest|
  {
    hide Dotted, QuadFrom, Digits.Value, HasRead;
    var colon := Find(rest, ':');
    var piece := rest[..colon];
    if '.' in piece {
      QuadIsSound(piece, 4);
      gs, c, ts := [Quad(QuadFrom(piece, 4).value)], false, [];
      assert piece == rest;
      ReadLastQuad(piece, s);
    } else if piece == "" {
      var s' := s.(compressed := true);
      if |rest| <= 1 {
        gs, c, ts := [], true, [];
      } else {
        var e, us;
        ts, e, us := ScanIsSound(rest[1..], s');
        ReadOnce(rest[1..], s', Scan(rest[1..], s').value, ts, e, us);
        gs, c := [], true;
      }
      ReadCompression(rest, s, ts);
    } else {
      var s' := s.Add([HextetValue(piece)]);
      if colon == |rest| {
        gs, c, ts := [Hex(piece)], false, [];
        assert piece == rest;
        ReadLastHex(piece, s);
      } else {
        gs, c, ts := ScanIsSound(rest[colon + 1..], s');
        ReadHex(piece, rest, s, Scan(rest, s).value, gs, c, ts);
        gs := [Hex(piece)] + gs;
      }
    }
  }

  lemma ReadOnce(rest: string, s: Shape, r: Shape, gs: seq<Group>, c: bool, ts: seq<Group>)
    requires HasRead(rest, s, r, gs, c, ts) && s.compressed
    ensures !c && ts == []
  {
  }

  lemma ReadLastQuad(piece: string, s: Shape)
    requires QuadFrom(piece, 4).Some? && |QuadFrom(piece, 4).value| == 4
    ensures var q := QuadFrom(piece, 4).value; HasRead(piece, s, s.Add(QuadWords(q)), [Quad(q)], false, [])
  {
    QuadIsSound(piece, 4);
    GroupsUnfold([Quad(QuadFrom(piece, 4).value)]);
  }

  lemma ReadLastHex(piece: string, s: Shape)
    requires Hex(piece).Valid()
    ensures HasRead(piece, s, s.Add([HextetValue(piece)]), [Hex(piece)], false, [])
  {
    GroupsUnfold([Hex(piece)]);
  }

  lemma ReadCompression(rest: string, s: Shape, ts: seq<Group>)
    requires rest != "" && rest[0] == ':' && !s.compressed
    requires var s' := s.(compressed := true);
      if |rest| == 1 then ts == [] else Scan(rest[1..], s').Some? && HasRead(rest[1..], s', Scan(rest[1..], s').value, ts, false, [])
    ensures var s' := s.(compressed := true);
      HasRead(rest, s, if |rest| == 1 then s' else Scan(rest[1..], s').value, [], true, ts)
  {
    hide Scan;
    var s' := s.(compressed := true);
    AddTwice(s, [], []);
    AddTwice(s', [], []);
    assert rest == ":" + rest[1..];
    assert GroupsText([]) == "" && GroupsWords([]) == [];
  }

  lemma ReadHex(piece: string, rest: string, s: Shape, r: Shape, gs: seq<Group>, c: bool, ts: seq<Group>)
    requires Hex(piece).Valid() && |piece| + 1 < |rest| && rest[..|piece|] == piece && rest[|piece|] == ':'
    requires HasRead(rest[|piece| + 1..], s.Add([HextetValue(piece)]), r, gs, c, ts)
    ensures HasRead(rest, s, r, [Hex(piece)] + gs, c, ts)
  {
    hide AllDigits, HextetValue, GroupsText, GroupsWords, ReadText;
    assert rest == piece + ":" + rest[|piece| + 1..];
    ReadTextGrows(piece, gs, c, ts);
    assert ([Hex(piece)] + gs)[1..] == gs;
    GroupsUnfold([Hex(piece)] + gs);
    AddTwice(s, [HextetValue(piece)], GroupsWords(gs));
  }

  lemma ReadTextGrows(piece: string, gs: seq<Group>, c: bool, ts: seq<Group>)
    requires Hex(piece).Valid() && (forall g | g in gs :: g.Valid()) && forall g | g in ts :: g.Valid()
    requires !c ==> gs != []
    ensures ReadText([Hex(piece)] + gs, c, ts) == piece + ":" + ReadText(gs, c, ts)
  {
    hide AllDigits, GroupsText;
    var all := [Hex(piece)] + gs;
    assert all[1..] == gs;
    GroupsUnfold(all);
  }

  lemma ReadIsSpelling(rest: string, r: Shape, gs: seq<Group>, c: bool, ts: seq<Group>)
    requires HasRead(rest, Shape([], false, []), r, gs, c, ts) && Finish(r).Some?
    requires rest != "" && rest[0] != ':'
    ensures var v := Spelling(gs, c, ts); v.Valid() && v.Words() == Finish(r).value && v.Text() == rest
  {
    assert [] + GroupsWords(gs) == GroupsWords(gs) && [] + GroupsWords(ts) == GroupsWords(ts);
    if !c {
      assert GroupsText(gs) + "" == GroupsText(gs);
    } else {
      assert gs != [];
      assert rest == GroupsText(gs) + ("::" + GroupsText(ts));
    }
  }

  lemma ReadIsTail(rest: string, r: Shape, gs: seq<Group>, ts: seq<Group>)
    requires HasRead(rest, Shape([], true, []), r, gs, false, ts) && Finish(r).Some?
    ensures var v := Spelling([], true, gs); v.Valid() && v.Words() == Finish(r).value && v.Text() == "::" + rest
  {
    assert [] + GroupsWords(gs) == GroupsWords(gs);
    assert GroupsWords([]) == [] && GroupsText([]) == "";
  }

  /** Whatever is accepted is a spelling the grammar allows, read as that spelling's words. */
  lemma ParserIsSound(text: string) returns (v: Spelling)
    requires ParseWords(text).Some?
    ensures v.Valid() && v.Text() == text && v.Words() == ParseWords(text).value
  {
    hide Scan, HasRead, Spelling.Text, Spelling.Words;
    if text == "::" {
      assert GroupsWords([]) == [];
      v := Spelling([], true, []);
      EmptySpelling();
    } else {
      var inTail := text[0] == ':';
      var rest := if inTail then text[2..] else text;
      var s := Shape([], inTail, []);
      var gs, c, ts := ScanIsSound(rest, s);
      if inTail {
        assert text == "::" + rest;
        ReadOnce(rest, s, Scan(rest, s).value, gs, c, ts);
        ReadIsTail(rest, Scan(rest, s).value, gs, ts);
        v := Spelling([], true, gs);
      } else {
        ReadIsSpelling(rest, Scan(rest, s).value, gs, c, ts);
        v := Spelling(gs, c, ts);
      }
    }
  }

  lemma EmptySpelling()
    ensures var v := Spelling([], true, []); v.Valid() && v.Text() == "::" && v.Words() == Expand([], [])
  {
    assert GroupsText([]) == "" && GroupsWords([]) == [];
  }

  // ---------- the scanning loop ----------

  /** The big-endian bytes of the words, two each. */
  function BytesOf(words: seq<U16>): (b: seq<Byte>)
    ensures |b| == 2 * |words|
  {
    seq(2 * |words|, i requires 0 <= i < 2 * |words| => if i % 2 == 0 then words[i / 2] / 0x100 else words[i / 2] % 0x100)
  }

  function WordsOf(bytes: seq<Byte>): (w: seq<U16>)
    requires |bytes| == 16
    ensures |w| == 8
  {
    seq(8, i requires 0 <= i < 8 => WordOf(bytes[2 * i], bytes[2 * i + 1]))
  }

  lemma BytesOfWords(bytes: seq<Byte>)
    requires |bytes| == 16
    ensures BytesOf(WordsOf(bytes)) == bytes
  {
    var w := WordsOf(bytes);
    forall i | 0 <= i < 16 ensures BytesOf(w)[i] == bytes[i] {
      var h := i / 2;
      assert w[h] == WordOf(bytes[2 * h], bytes[2 * h + 1]);
    }
  }

  method ParseHextet(text: string) returns (r: Option<U16>)
    ensures r == if 1 <= |text| <= 4 && AllDigits(text, 16) then Some(HextetValue(text)) else None
  {
    if text == "" || |text| > 4 {
      return None;
    }
    var value := 0;
    for i := 0 to |text|
      invariant forall j | 0 <= j < i :: IsDigit(text[j], 16)
      invariant value == Value(text[..i], 16)
    {
      var c := text[i];
      var digit := 0;
      if '0' <= c <= '9' {
        digit := c as nat - '0' as nat;
      } else if 'a' <= c <= 'f' {
        digit := c as nat - 'a' as nat + 10;
      } else if 'A' <= c <= 'F' {
        digit := c as nat - 'A' as nat + 10;
      } else {
        assert c in text;
        return None;
      }
      assert text[..i + 1] == text[..i] + [c];
      ValueSnoc(text[..i], c, 16);
      value := value * 16 + digit;
    }
    assert text[..|text|] == text;
    HextetFits(text);
    return Some(value);
  }

  /** One turn of the scanning loop. */
  lemma ScanStep(rest: string, s: Shape)
    requires rest != ""
    ensures
      var colon := Find(rest, ':');
      var piece := rest[..colon];
      Scan(rest, s) ==
      if '.' in piece then
        if QuadFrom(piece, 4).None? || |s.Current()| + 2 > 8 || colon < |rest| then None
        else (QuadIsSound(piece, 4); Some(s.Add(QuadWords(QuadFrom(piece, 4).value))))
      else if piece == "" then
        if s.compressed then None else ScanRest(rest[1..], s.(compressed := true))
      else if |piece| > 4 || !AllDigits(piece, 16) || |s.Current()| >= 8 || colon + 1 == |rest| then None
      else ScanRest(if colon == |rest| then "" else rest[colon + 1..], s.Add([HextetValue(piece)]))
  {
  }

  function ScanRest(rest: string, s: Shape): Option<Shape> {
    if rest == "" then Some(s) else Scan(rest, s)
  }

  /** `parseV6`; `seenCompression` also tells which list is being filled. */
  method ParseV6(text: string) returns (r: Option<seq<Byte>>)
    ensures r.Some? <==> ParseWords(text).Some?
    ensures r.Some? ==> r.value == BytesOf(ParseWords(text).value)
  {
    hide Scan, QuadFrom, AllDigits, Find;
    if |text| < 2 {
      return None;
    }
    var head: seq<U16>, tail: seq<U16> := [], [];
    var seenCompression := false;
    var rest := text;
    if text[0] == ':' {
      if text[1] != ':' {
        return None;
      }
      seenCompression := true;
      rest := text[2..];
    }
    ghost var goal := ScanRest(rest, Shape([], seenCompression, []));
    while rest != ""
      invariant goal == ScanRest(rest, Shape(head, seenCompression, tail))
      invariant !seenCompression ==> tail == []
      decreases |rest|
    {
      var colon := Find(rest, ':');
      var piece := rest[..colon];
      var count := if seenCompression then |tail| else |head|;
      ScanStep(rest, Shape(head, seenCompression, tail));
      var words: seq<U16>;
      if '.' in piece {
        var v4 := ParseV4(piece);
        if v4.None? || count + 2 > 8 || colon < |rest| {
          return None;
        }
        QuadIsSound(piece, 4);
        words := [WordOf(v4.value[0], v4.value[1]), WordOf(v4.value[2], v4.value[3])];
        rest := "";
      } else if piece == "" {
        if seenCompression {
          return None;
        }
        seenCompression := true;
        words := [];
        rest := rest[1..];
        AddTwice(Shape(head, true, tail), [], []);
      } else {
        var value := ParseHextet(piece);
        if value.None? || count >= 8 || colon + 1 == |rest| {
          return None;
        }
        words := [value.value];
        rest := if colon == |rest| then "" else rest[colon + 1..];
      }
      if seenCompression {
        tail := tail + words;
      } else {
        head := head + words;
      }
    }
    if seenCompression {
      if |head| + |tail| >= 8 {
        return None;
      }
    } else if |head| != 8 {
      return None;
    }
    var words := Assemble(head, tail);
    assert |head| == 8 ==> Expand(head, []) == head;
    r := Some(BytesOf(words));
  }

  /** The head at the front, the tail at the back, zero groups between them. */
  method Assemble(head: seq<U16>, tail: seq<U16>) returns (words: seq<U16>)
    requires |head| + |tail| <= 8
    ensures words == Expand(head, tail)
  {
    var a := new U16[8](_ => 0);
    for h := 0 to |head|
      invariant forall i | 0 <= i < 8 :: a[i] == if i < h then head[i] else 0
    {
      a[h] := head[h];
    }
    var start := 8 - |tail|;
    for t := 0 to |tail|
      invariant forall i | 0 <= i < 8 ::
        a[i] == if i < |head| then head[i] else if start <= i < start + t then tail[i - start] else 0
    {
      a[start + t] := tail[t];
    }
    words := a[..];
  }
}
