/** The tokenizer for one line of an OpenVPN configuration (`tokenizeOvpnLine`, Profiles/src/OvpnParser.cpp). */
module OvpnLexer {
  import opened StringUtil

  datatype Quote = Bare | Double | Single

  /** Finished tokens, the token being built, whether one is being built, and the open quote. */
  datatype Lex = Lex(tokens: seq<string>, current: string, inToken: bool, quote: Quote)

  const START := Lex([], "", false, Bare)

  predicate IsSeparator(c: char) {
    c == ' ' || c == '\t' || c == '\r' || c == '\n'
  }

  predicate IsSpecial(c: char) {
    IsSeparator(c) || c == '"' || c == '\'' || c == '#' || c == ';'
  }

  function Finished(s: Lex): seq<string> {
    if s.inToken then s.tokens + [s.current] else s.tokens
  }

  function Push(s: Lex, c: char): Lex {
    s.(current := s.current + [c], inToken := true)
  }

  predicate StartsComment(c: char, s: Lex) {
    s.quote == Bare && (c == '#' || c == ';')
  }

  /** The state after the first character of the line; a backslash in double quotes takes the next one along. */
  function Step(line: string, s: Lex): Lex
    requires line != ""
  {
    var c := line[0];
    match s.quote
    case Double =>
      if c == '\\' && |line| > 1 then Push(s, line[1]) else if c == '"' then s.(quote := Bare) else Push(s, c)
    case Single => if c == '\'' then s.(quote := Bare) else Push(s, c)
    case Bare =>
      if c == '"' then s.(quote := Double, inToken := true)
      else if c == '\'' then s.(quote := Single, inToken := true)
      else if IsSeparator(c) then Lex(Finished(s), "", false, Bare)
      else Push(s, c)
  }

  function Taken(line: string, s: Lex): (n: nat)
    requires line != ""
    ensures 1 <= n <= |line|
  {
    if s.quote == Double && line[0] == '\\' && |line| > 1 then 2 else 1
  }

  /** The tokens of the rest of a line. */
  function LexFrom(line: string, s: Lex): seq<string>
    decreases |line|
  {
    if line == "" || StartsComment(line[0], s) then Finished(s)
    else LexFrom(line[Taken(line, s)..], Step(line, s))
  }

  function Tokens(line: string): seq<string> {
    LexFrom(line, START)
  }

  method Tokenize(line: string) returns (tokens: seq<string>)
    ensures tokens == Tokens(line)
  {
    tokens := [];
    var current, inToken, inDouble, inSingle := "", false, false, false;
    var i := 0;
    while i < |line|
      invariant 0 <= i <= |line| && !(inDouble && inSingle)
      invariant !inToken ==> current == ""
      invariant inDouble || inSingle ==> inToken
      invariant Tokens(line) == LexFrom(line[i..],
        Lex(tokens, current, inToken, if inDouble then Double else if inSingle then Single else Bare))
    {
      var c := line[i];
      assert line[i..][1..] == line[i + 1..];
      assert i + 1 < |line| ==> line[i + 1..][1..] == line[i + 2..];
      if !inDouble && !inSingle && (c == '#' || c == ';') {
        break;
      }
      if inDouble {
        if c == '\\' && i + 1 < |line| {
          i := i + 1;
          current := current + [line[i]];
        } else if c == '"' {
          inDouble := false;
        } else {
          current := current + [c];
        }
        i := i + 1;
        continue;
      }
      if inSingle {
        if c == '\'' {
          inSingle := false;
        } else {
          current := current + [c];
        }
        i := i + 1;
        continue;
      }
      if c == '"' {
        inDouble, inToken := true, true;
      } else if c == '\'' {
        inSingle, inToken := true, true;
      } else if IsSeparator(c) {
        if inToken {
          tokens := tokens + [current];
          current, inToken := "", false;
        }
      } else {
        current, inToken := current + [c], true;
      }
      i := i + 1;
    }
    if inToken {
      tokens := tokens + [current];
    }
  }

  // ---------- unquoted tokens ----------

  /** A token that needs no quotes. */
  predicate Plain(t: string) {
    t != "" && forall i | 0 <= i < |t| :: !IsSpecial(t[i])
  }

  lemma {:induction false} LexPlain(t: string, rest: string, s: Lex)
    requires s.quote == Bare && forall i | 0 <= i < |t| :: !IsSpecial(t[i])
    ensures t != "" ==> LexFrom(t + rest, s) == LexFrom(rest, s.(current := s.current + t, inToken := true))
  {
    if t != "" {
      assert (t + rest)[1..] == t[1..] + rest;
      LexPlain(t[1..], rest, Push(s, t[0]));
      if |t| == 1 {
        assert t[1..] + rest == rest && s.current + t == s.current + [t[0]];
      } else {
        assert s.current + [t[0]] + t[1..] == s.current + t;
      }
    }
  }

  function Spaced(tokens: seq<string>): string {
    Join(tokens, ' ')
  }

  lemma LexOneMore(t: string, rest: string, done: seq<string>)
    requires Plain(t)
    ensures LexFrom(t + ([' '] + rest), Lex(done, "", false, Bare)) == LexFrom(rest, Lex(done + [t], "", false, Bare))
    ensures LexFrom(t, Lex(done, "", false, Bare)) == done + [t]
  {
    assert "" + t == t && t + "" == t;
    LexPlain(t, [' '] + rest, Lex(done, "", false, Bare));
    LexPlain(t, "", Lex(done, "", false, Bare));
    assert ([' '] + rest)[1..] == rest;
  }

  lemma {:induction false} LexSpaced(tokens: seq<string>, done: seq<string>)
    requires |tokens| >= 1 && forall i | 0 <= i < |tokens| :: Plain(tokens[i])
    ensures LexFrom(Spaced(tokens), Lex(done, "", false, Bare)) == done + tokens
    decreases |tokens|
  {
    hide LexFrom, Plain;
    var t := tokens[0];
    if |tokens| == 1 {
      LexOneMore(t, "", done);
      assert tokens == [t];
    } else {
      var rest := Spaced(tokens[1..]);
      assert Spaced(tokens) == t + ([' '] + rest);
      LexOneMore(t, rest, done);
      LexSpaced(tokens[1..], done + [t]);
      assert done + [t] + tokens[1..] == done + tokens;
    }
  }

  /** Plain tokens separated by single spaces are read back. */
  lemma TokensOfSpaced(tokens: seq<string>)
    requires |tokens| >= 1 && forall i | 0 <= i < |tokens| :: Plain(tokens[i])
    ensures Tokens(Spaced(tokens)) == tokens
  {
    LexSpaced(tokens, []);
    assert [] + tokens == tokens;
  }

  function Total(tokens: seq<string>): nat {
    if tokens == [] then 0 else Total(tokens[..|tokens| - 1]) + |tokens[|tokens| - 1]|
  }

  lemma TotalSnoc(tokens: seq<string>, t: string)
    ensures Total(tokens + [t]) == Total(tokens) + |t|
  {
    assert (tokens + [t])[..|tokens|] == tokens;
  }

  function Weight(s: Lex): nat {
    Total(s.tokens) + |s.current|
  }

  lemma StepShrinks(line: string, s: Lex)
    requires line != "" && !StartsComment(line[0], s)
    ensures Weight(Step(line, s)) + |line| - Taken(line, s) <= Weight(s) + |line|
    ensures s.quote == Bare && IsSpecial(line[0]) ==> Weight(Step(line, s)) <= Weight(s)
  {
    TotalSnoc(s.tokens, s.current);
  }

  /** Lexing never produces more characters than it reads. */
  lemma {:induction false} LexShrinks(line: string, s: Lex)
    ensures Total(LexFrom(line, s)) <= Weight(s) + |line|
    decreases |line|
  {
    hide Step;
    TotalSnoc(s.tokens, s.current);
    if line != "" && !StartsComment(line[0], s) {
      StepShrinks(line, s);
      LexShrinks(line[Taken(line, s)..], Step(line, s));
    }
  }

  /** A special character outside quotes is never part of a token. */
  lemma {:induction false} SpecialIsLost(line: string, s: Lex, k: nat)
    requires s.quote == Bare && k < |line| && IsSpecial(line[k])
    requires forall i | 0 <= i < k :: !IsSpecial(line[i])
    ensures Total(LexFrom(line, s)) < Weight(s) + |line|
    decreases k
  {
    TotalSnoc(s.tokens, s.current);
    if !StartsComment(line[0], s) {
      if k > 0 {
        SpecialIsLost(line[1..], Step(line, s), k - 1);
      } else {
        StepShrinks(line, s);
        LexShrinks(line[1..], Step(line, s));
      }
    }
  }

  /** A text written without quotes is read back as that one token exactly when it is plain. */
  lemma UnquotedExactly(t: string)
    ensures Tokens(t) == [t] <==> Plain(t)
  {
    if Plain(t) {
      TokensOfSpaced([t]);
    } else if t != "" {
      var k := FirstSpecial(t);
      SpecialIsLost(t, START, k);
      TotalSnoc([], t);
      assert [] + [t] == [t];
    }
  }

  function FirstSpecial(t: string): (k: nat)
    requires exists i | 0 <= i < |t| :: IsSpecial(t[i])
    ensures k < |t| && IsSpecial(t[k]) && forall i | 0 <= i < k :: !IsSpecial(t[i])
  {
    if IsSpecial(t[0]) then 0
    else
      var i :| 0 <= i < |t| && IsSpecial(t[i]);
      assert t[1..][i - 1] == t[i];
      1 + FirstSpecial(t[1..])
  }

  // ---------- quoted tokens ----------

  function Escaped(t: string): string {
    if t == "" then ""
    else EscapedChar(t[0]) + Escaped(t[1..])
  }

  function Quoted(t: string): string {
    ['"'] + Escaped(t) + ['"']
  }

  function EscapedChar(c: char): string {
    if c == '\\' || c == '"' then ['\\', c] else [c]
  }

  lemma LexEscapedChar(c: char, tail: string, s: Lex)
    requires s.quote == Double
    ensures LexFrom(EscapedChar(c) + tail, s) == LexFrom(tail, Push(s, c))
  {
    var line := EscapedChar(c) + tail;
    assert line[Taken(line, s)..] == tail;
  }

  lemma LexClose(rest: string, s: Lex)
    requires s.quote == Double
    ensures LexFrom(['"'] + rest, s) == LexFrom(rest, s.(quote := Bare))
  {
    assert (['"'] + rest)[1..] == rest;
  }

  lemma {:induction false} LexEscaped(t: string, rest: string, s: Lex)
    requires s.quote == Double && s.inToken
    ensures LexFrom(Escaped(t) + ['"'] + rest, s) == LexFrom(rest, s.(current := s.current + t, quote := Bare))
  {
    hide LexFrom;
    if t == "" {
      assert s.current + t == s.current && Escaped(t) + ['"'] + rest == ['"'] + rest;
      LexClose(rest, s);
    } else {
      var tail := Escaped(t[1..]) + ['"'] + rest;
      assert Escaped(t) + ['"'] + rest == EscapedChar(t[0]) + tail;
      LexEscapedChar(t[0], tail, s);
      LexEscaped(t[1..], rest, Push(s, t[0]));
      assert s.current + [t[0]] + t[1..] == s.current + t;
    }
  }

  function QuotedLine(tokens: seq<string>): string {
    if tokens == [] then "" else Quoted(tokens[0]) + [' '] + QuotedLine(tokens[1..])
  }

  lemma LexOpen(rest: string, done: seq<string>)
    ensures LexFrom(['"'] + rest, Lex(done, "", false, Bare)) == LexFrom(rest, Lex(done, "", true, Double))
  {
    assert (['"'] + rest)[1..] == rest;
  }

  lemma LexSeparate(rest: string, done: seq<string>, t: string)
    ensures LexFrom([' '] + rest, Lex(done, t, true, Bare)) == LexFrom(rest, Lex(done + [t], "", false, Bare))
  {
    assert ([' '] + rest)[1..] == rest;
  }

  lemma LexQuotedOne(t: string, rest: string, done: seq<string>)
    ensures LexFrom(Quoted(t) + [' '] + rest, Lex(done, "", false, Bare))
      == LexFrom(rest, Lex(done + [t], "", false, Bare))
  {
    hide LexFrom, Escaped;
    assert Quoted(t) + [' '] + rest == ['"'] + (Escaped(t) + ['"'] + ([' '] + rest));
    LexOpen(Escaped(t) + ['"'] + ([' '] + rest), done);
    LexEscaped(t, [' '] + rest, Lex(done, "", true, Double));
    assert "" + t == t;
    LexSeparate(rest, done, t);
  }

  lemma {:induction false} LexQuoted(tokens: seq<string>, done: seq<string>)
    ensures LexFrom(QuotedLine(tokens), Lex(done, "", false, Bare)) == done + tokens
    decreases |tokens|
  {
    hide Quoted;
    if tokens != [] {
      LexQuotedOne(tokens[0], QuotedLine(tokens[1..]), done);
      LexQuoted(tokens[1..], done + [tokens[0]]);
      assert done + [tokens[0]] + tokens[1..] == done + tokens;
    }
  }

  /** Any tokens at all, each in double quotes with escapes, are read back. */
  lemma TokensOfQuoted(tokens: seq<string>)
    ensures Tokens(QuotedLine(tokens)) == tokens
  {
    LexQuoted(tokens, []);
    assert [] + tokens == tokens;
  }
}
