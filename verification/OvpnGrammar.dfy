/**
 The written form of a configuration line (`tokenizeOvpnLine`, Profiles/src/OvpnParser.cpp): every line has one, and it
 alone says what the tokens are.
 */
module OvpnGrammar {
  import opened StringUtil
  import opened OvpnLexer

  /** In double quotes a character stands for itself or, after a backslash, whatever it is. */
  datatype Mark = Raw(c: char) | Escape(c: char)

  datatype Item = Gap(c: char) | Char(c: char) | InDouble(marks: seq<Mark>) | InSingle(text: string)

  /** A line ends, is cut off by a comment, or leaves a quote open, with a lone backslash at the very end or not. */
  datatype End = Plainly | Comment(text: string) | OpenDouble(marks: seq<Mark>,
    backslash: bool) | OpenSingle(text: string)

  predicate GoodMarks(marks: seq<Mark>) {
    forall i | 0 <= i < |marks| :: marks[i].Raw? ==> marks[i].c != '"' && marks[i].c != '\\'
  }

  predicate GoodItem(item: Item) {
    match item
    case Gap(c) => c == ' ' || c == '\t' || c == '\r' || c == '\n'
    case Char(c) => c !in [' ', '\t', '\r', '\n', '"', '\'', '#', ';']
    case InDouble(marks) => GoodMarks(marks)
    case InSingle(text) => '\'' !in text
  }

  predicate GoodEnd(end: End) {
    match end
    case Plainly => true
    case Comment(text) => text != "" && (text[0] == '#' || text[0] == ';')
    case OpenDouble(marks, _) => GoodMarks(marks)
    case OpenSingle(text) => '\'' !in text
  }

  predicate GoodLine(items: seq<Item>, end: End) {
    (forall i | 0 <= i < |items| :: GoodItem(items[i])) && GoodEnd(end)
  }

  // ---------- how it is written ----------

  function MarksText(marks: seq<Mark>): string {
    if marks == [] then ""
    else (if marks[0].Raw? then [marks[0].c] else ['\\', marks[0].c]) + MarksText(marks[1..])
  }

  function ItemText(item: Item): string {
    match item
    case Gap(c) => [c]
    case Char(c) => [c]
    case InDouble(marks) => ['"'] + MarksText(marks) + ['"']
    case InSingle(text) => ['\''] + text + ['\'']
  }

  function EndText(end: End): string {
    match end
    case Plainly => ""
    case Comment(text) => text
    case OpenDouble(marks, backslash) => ['"'] + MarksText(marks) + if backslash then ['\\'] else []
    case OpenSingle(text) => ['\''] + text
  }

  function LineText(items: seq<Item>, end: End): string {
    if items == [] then EndText(end) else ItemText(items[0]) + LineText(items[1..], end)
  }

  // ---------- what it means ----------

  function Chars(marks: seq<Mark>): string {
    if marks == [] then "" else [marks[0].c] + Chars(marks[1..])
  }

  /** A break between tokens, or a part of one. */
  datatype Piece = Break | Part(text: string)

  function ItemPiece(item: Item): Piece {
    match item
    case Gap(_) => Break
    case Char(c) => Part([c])
    case InDouble(marks) => Part(Chars(marks))
    case InSingle(text) => Part(text)
  }

  function EndPieces(end: End): seq<Piece> {
    match end
    case Plainly => []
    case Comment(_) => []
    case OpenDouble(marks, backslash) => [Part(Chars(marks) + if backslash then ['\\'] else [])]
    case OpenSingle(text) => [Part(text)]
  }

  function Pieces(items: seq<Item>, end: End): seq<Piece> {
    if items == [] then EndPieces(end) else [ItemPiece(items[0])] + Pieces(items[1..], end)
  }

  /** How many parts stand in front of the first break. */
  function PartsInFront(ps: seq<Piece>): (n: nat)
    ensures n <= |ps| && (n < |ps| ==> ps[n].Break?) && forall i | 0 <= i < n :: ps[i].Part?
  {
    if ps == [] || ps[0].Break? then 0 else 1 + PartsInFront(ps[1..])
  }

  function Glued(ps: seq<Piece>): string
    requires forall i | 0 <= i < |ps| :: ps[i].Part?
  {
    if ps == [] then "" else ps[0].text + Glued(ps[1..])
  }

  /** Adjacent parts make one token; the parts may be empty, as long as there is one. */
  function Words(ps: seq<Piece>): seq<string>
    decreases |ps|
  {
    if ps == [] then []
    else if ps[0].Break? then Words(ps[1..])
    else
      var n := PartsInFront(ps);
      [Glued(ps[..n])] + Words(ps[n..])
  }

  // ---------- the tokenizer follows it ----------

  /** What is still to come when a token is being built. */
  function Onward(s: Lex, ps: seq<Piece>): seq<string> {
    s.tokens + Words(if s.inToken then [Part(s.current)] + ps else ps)
  }

  lemma GlueMore(a: string, b: string, ps: seq<Piece>)
    ensures Words([Part(a), Part(b)] + ps) == Words([Part(a + b)] + ps)
  {
    var long, short := [Part(a), Part(b)] + ps, [Part(a + b)] + ps;
    var n := PartsInFront(short);
    assert long[1..][1..] == short[1..] == ps;
    assert PartsInFront(long) == n + 1;
    assert long[..n + 1][1..][1..] == short[..n][1..];
    assert long[n + 1..] == short[n..];
    assert Glued(long[..n + 1]) == a + (b + Glued(short[..n][1..])) == a + b + Glued(short[..n][1..]);
  }

  lemma WordEnds(a: string, ps: seq<Piece>)
    ensures Words([Part(a), Break] + ps) == [a] + Words(ps)
    ensures Words([Part(a)]) == [a]
  {
    var all := [Part(a), Break] + ps;
    assert all[1..][0].Break? && all[..1] == [Part(a)] && all[1..][1..] == ps;
    assert PartsInFront(all) == 1 && [Part(a)][1..] == [] && Glued([Part(a)]) == a + "" == a;
    assert PartsInFront([Part(a)]) == 1 && [Part(a)][..1] == [Part(a)];
  }

  function Grown(s: Lex, text: string): Lex {
    s.(current := s.current + text, inToken := true)
  }

  lemma OnwardGrown(s: Lex, text: string, ps: seq<Piece>)
    requires !s.inToken ==> s.current == ""
    ensures Onward(Grown(s, text), ps) == Onward(s, [Part(text)] + ps)
  {
    if s.inToken {
      GlueMore(s.current, text, ps);
      assert [Part(s.current)] + ([Part(text)] + ps) == [Part(s.current), Part(text)] + ps;
    } else {
      assert "" + text == text;
    }
  }

  lemma OnwardBroken(s: Lex, ps: seq<Piece>)
    ensures Onward(Lex(Finished(s), "", false, Bare), ps) == Onward(s, [Break] + ps)
  {
    if s.inToken {
      WordEnds(s.current, ps);
      assert [Part(s.current)] + ([Break] + ps) == [Part(s.current), Break] + ps;
      assert s.tokens + [s.current] + Words(ps) == s.tokens + ([s.current] + Words(ps));
    } else {
      assert ([Break] + ps)[1..] == ps;
    }
  }

  lemma OnwardEnds(s: Lex)
    ensures Onward(s, []) == Finished(s)
  {
    WordEnds(s.current, []);
    assert [Part(s.current)] + [] == [Part(s.current)] && s.tokens + [] == s.tokens;
  }

  lemma LexMark(mark: Mark, tail: string, s: Lex)
    requires s.quote == Double && GoodMarks([mark])
    ensures LexFrom(MarksText([mark]) + tail, s) == LexFrom(tail, Push(s, mark.c))
  {
    assert [mark][0] == mark && [mark][1..] == [] && MarksText([]) == "";
    var text := if mark.Raw? then [mark.c] else ['\\', mark.c];
    assert MarksText([mark]) == text;
    var line := text + tail;
    assert line[Taken(line, s)..] == tail;
  }

  lemma {:induction false} LexMarks(marks: seq<Mark>, tail: string, s: Lex)
    requires s.quote == Double && s.inToken && GoodMarks(marks)
    ensures LexFrom(MarksText(marks) + tail, s) == LexFrom(tail, s.(current := s.current + Chars(marks)))
    decreases marks
  {
    hide LexFrom;
    if marks == [] {
      assert MarksText(marks) + tail == tail && s.current + Chars(marks) == s.current;
    } else {
      var rest := MarksText(marks[1..]) + tail;
      assert MarksText([marks[0]]) + rest == MarksText(marks) + tail by {
        assert [marks[0]][1..] == [] && MarksText([]) == "";
      }
      LexMark(marks[0], rest, s);
      LexMarks(marks[1..], tail, Push(s, marks[0].c));
      assert s.current + [marks[0].c] + Chars(marks[1..]) == s.current + Chars(marks);
    }
  }

  lemma {:induction false} LexSingle(text: string, tail: string, s: Lex)
    requires s.quote == Single && s.inToken && '\'' !in text
    ensures LexFrom(text + tail, s) == LexFrom(tail, s.(current := s.current + text))
    decreases text
  {
    if text == "" {
      assert text + tail == tail && s.current + text == s.current;
    } else {
      assert (text + tail)[1..] == text[1..] + tail && text[0] in text;
      LexSingle(text[1..], tail, Push(s, text[0]));
      assert s.current + [text[0]] + text[1..] == s.current + text;
    }
  }

  lemma LexQuote(quote: char, tail: string, s: Lex)
    requires quote == '"' || quote == '\''
    ensures s.quote == Bare ==>
      LexFrom([quote] + tail, s) == LexFrom(tail, s.(quote := if quote == '"' then Double else Single, inToken := true))
    ensures s.quote == (if quote == '"' then Double else Single) ==>
      LexFrom([quote] + tail, s) == LexFrom(tail, s.(quote := Bare))
  {
    assert ([quote] + tail)[1..] == tail;
  }

  lemma LexInDouble(marks: seq<Mark>, tail: string, s: Lex)
    requires s.quote == Bare && GoodMarks(marks) && (!s.inToken ==> s.current == "")
    ensures LexFrom(['"'] + MarksText(marks) + tail, s) == LexFrom(tail, Grown(s, Chars(marks)).(quote := Double))
  {
    hide LexFrom;
    assert ['"'] + MarksText(marks) + tail == ['"'] + (MarksText(marks) + tail);
    LexQuote('"', MarksText(marks) + tail, s);
    LexMarks(marks, tail, s.(quote := Double, inToken := true));
  }

  lemma LexInSingle(text: string, tail: string, s: Lex)
    requires s.quote == Bare && '\'' !in text
    ensures LexFrom(['\''] + text + tail, s) == LexFrom(tail, Grown(s, text).(quote := Single))
  {
    hide LexFrom;
    assert ['\''] + text + tail == ['\''] + (text + tail);
    LexQuote('\'', text + tail, s);
    LexSingle(text, tail, s.(quote := Single, inToken := true));
  }

  function After(item: Item, s: Lex): Lex {
    match ItemPiece(item)
    case Break => Lex(Finished(s), "", false, Bare)
    case Part(text) => Grown(s, text)
  }

  lemma LexChar(item: Item, tail: string, s: Lex)
    requires s.quote == Bare && (item.Gap? || item.Char?) && GoodItem(item)
    ensures LexFrom(ItemText(item) + tail, s) == LexFrom(tail, After(item, s))
  {
    assert ([item.c] + tail)[1..] == tail;
  }

  lemma LexItem(item: Item, tail: string, s: Lex)
    requires s.quote == Bare && GoodItem(item) && (!s.inToken ==> s.current == "")
    ensures LexFrom(ItemText(item) + tail, s) == LexFrom(tail, After(item, s))
  {
    hide LexFrom;
    match item
    case InDouble(marks) =>
      assert ItemText(item) + tail == ['"'] + MarksText(marks) + (['"'] + tail);
      LexInDouble(marks, ['"'] + tail, s);
      LexQuote('"', tail, Grown(s, Chars(marks)).(quote := Double));
    case InSingle(text) =>
      assert ItemText(item) + tail == ['\''] + text + (['\''] + tail);
      LexInSingle(text, ['\''] + tail, s);
      LexQuote('\'', tail, Grown(s, text).(quote := Single));
    case _ => LexChar(item, tail, s);
  }

  lemma LexNothing(s: Lex)
    ensures LexFrom("", s) == Finished(s)
    ensures s.quote == Double ==> LexFrom(['\\'], s) == Finished(Push(s, '\\'))
  {
    assert ['\\'][1..] == "";
  }

  lemma LexOpenDouble(marks: seq<Mark>, backslash: bool, s: Lex)
    requires s.quote == Bare && GoodMarks(marks) && (!s.inToken ==> s.current == "")
    ensures LexFrom(EndText(OpenDouble(marks, backslash)), s) == Onward(s, EndPieces(OpenDouble(marks, backslash)))
  {
    hide LexFrom, Onward;
    var last := if backslash then ['\\'] else [];
    var t := Grown(s, Chars(marks)).(quote := Double);
    LexInDouble(marks, last, s);
    LexNothing(t);
    EndsGrown(s, Chars(marks) + last);
    if backslash {
      assert s.current + Chars(marks) + ['\\'] == s.current + (Chars(marks) + last);
    } else {
      assert s.current + Chars(marks) == s.current + (Chars(marks) + last);
    }
  }

  lemma LexOpenSingle(text: string, s: Lex)
    requires s.quote == Bare && '\'' !in text && (!s.inToken ==> s.current == "")
    ensures LexFrom(EndText(OpenSingle(text)), s) == Onward(s, EndPieces(OpenSingle(text)))
  {
    hide LexFrom, Onward;
    LexInSingle(text, "", s);
    assert ['\''] + text + "" == ['\''] + text;
    LexNothing(Grown(s, text).(quote := Single));
    EndsGrown(s, text);
  }

  lemma EndsGrown(s: Lex, text: string)
    requires !s.inToken ==> s.current == ""
    ensures Onward(s, [Part(text)]) == s.tokens + [s.current + text]
  {
    hide Onward;
    OnwardGrown(s, text, []);
    OnwardEnds(Grown(s, text));
    assert [Part(text)] + [] == [Part(text)];
  }

  lemma LexEnd(end: End, s: Lex)
    requires s.quote == Bare && GoodEnd(end) && (!s.inToken ==> s.current == "")
    ensures LexFrom(EndText(end), s) == Onward(s, EndPieces(end))
  {
    hide Onward;
    match end
    case OpenDouble(marks, backslash) => LexOpenDouble(marks, backslash, s);
    case OpenSingle(text) => LexOpenSingle(text, s);
    case _ => OnwardEnds(s);
  }

  lemma {:induction false} LexLine(items: seq<Item>, end: End, s: Lex)
    requires GoodLine(items, end) && s.quote == Bare && (!s.inToken ==> s.current == "")
    ensures LexFrom(LineText(items, end), s) == Onward(s, Pieces(items, end))
    decreases items
  {
    hide LexFrom, Onward, GoodItem, GoodEnd, ItemText, EndText, ItemPiece, EndPieces;
    if items == [] {
      LexEnd(end, s);
    } else {
      var rest := Pieces(items[1..], end);
      LexItem(items[0], LineText(items[1..], end), s);
      LexLine(items[1..], end, After(items[0], s));
      if ItemPiece(items[0]).Break? {
        OnwardBroken(s, rest);
      } else {
        OnwardGrown(s, ItemPiece(items[0]).text, rest);
      }
    }
  }

  /**
   A line is read as its written form says: breaks separate the tokens, what touches belongs together, quotes and
   escapes give the characters inside, a comment ends the line, and an open quote runs to the end of it.
   */
  lemma TokensOfLine(items: seq<Item>, end: End)
    requires GoodLine(items, end)
    ensures Tokens(LineText(items, end)) == Words(Pieces(items, end))
  {
    LexLine(items, end, START);
    assert [] + Words(Pieces(items, end)) == Words(Pieces(items, end));
  }

  // ---------- every line has a written form ----------

  /** Up to the quote that closes, or up to the end. */
  lemma ReadMarks(line: string) returns (marks: seq<Mark>, closed: bool, rest: string)
    ensures GoodMarks(marks)
    ensures closed ==> line == MarksText(marks) + ['"'] + rest && |rest| < |line|
    ensures !closed ==> line == MarksText(marks) + rest && (rest == "" || rest == ['\\'])
    decreases |line|
  {
    if line == "" || line == ['\\'] {
      return [], false, line;
    }
    if line[0] == '"' {
      return [], true, line[1..];
    }
    var mark, n := if line[0] == '\\' then Escape(line[1]) else Raw(line[0]), if line[0] == '\\' then 2 else 1;
    marks, closed, rest := ReadMarks(line[n..]);
    assert line == line[..n] + line[n..];
    assert ([mark] + marks)[1..] == marks;
    marks := [mark] + marks;
    assert MarksText(marks) == line[..n] + MarksText(marks[1..]);
  }

  lemma OneMoreItem(item: Item, items: seq<Item>, end: End)
    requires GoodItem(item) && GoodLine(items, end)
    ensures GoodLine([item] + items, end)
    ensures LineText([item] + items, end) == ItemText(item) + LineText(items, end)
  {
    assert ([item] + items)[1..] == items;
  }

  /** What a line starts with: an item and the rest of the line, or its end. */
  datatype Start = First(item: Item, rest: string) | Last(end: End)

  predicate StartsWith(line: string, start: Start) {
    match start
    case First(item, rest) => GoodItem(item) && line == ItemText(item) + rest && |rest| < |line|
    case Last(end) => GoodEnd(end) && line == EndText(end)
  }

  lemma StartOfDouble(line: string) returns (start: Start)
    requires line != "" && line[0] == '"'
    ensures StartsWith(line, start)
  {
    hide MarksText, GoodMarks;
    var marks, closed, rest := ReadMarks(line[1..]);
    start := if closed then First(InDouble(marks), rest) else Last(OpenDouble(marks, rest != ""));
    assert line == ['"'] + line[1..];
  }

  lemma StartOfSingle(line: string) returns (start: Start)
    requires line != "" && line[0] == '\''
    ensures StartsWith(line, start)
  {
    var n := Find(line[1..], '\'');
    assert line == ['\''] + line[1..];
    if n == |line| - 1 {
      start := Last(OpenSingle(line[1..]));
    } else {
      start := First(InSingle(line[1..][..n]), line[n + 2..]);
      assert line[1..] == line[1..][..n] + ['\''] + line[n + 2..];
    }
  }

  lemma StartOf(line: string) returns (start: Start)
    ensures StartsWith(line, start)
  {
    if line == "" {
      start := Last(Plainly);
    } else if line[0] == '"' {
      start := StartOfDouble(line);
    } else if line[0] == '\'' {
      start := StartOfSingle(line);
    } else if line[0] == '#' || line[0] == ';' {
      start := Last(Comment(line));
    } else {
      start := First(if IsSeparator(line[0]) then Gap(line[0]) else Char(line[0]), line[1..]);
    }
  }

  /** There is no line without a written form. */
  lemma EveryLineIsWritten(line: string) returns (items: seq<Item>, end: End)
    ensures GoodLine(items, end) && LineText(items, end) == line
    decreases |line|
  {
    hide LineText, ItemText, EndText;
    var start := StartOf(line);
    match start
    case Last(e) => items, end := JustEnd(e);
    case First(item, rest) =>
      var more: seq<Item>;
      more, end := EveryLineIsWritten(rest);
      OneMoreItem(item, more, end);
      items := [item] + more;
  }

  lemma JustEnd(e: End) returns (items: seq<Item>, end: End)
    requires GoodEnd(e)
    ensures end == e && GoodLine(items, end) && LineText(items, end) == EndText(e)
  {
    items, end := [], e;
  }
}
