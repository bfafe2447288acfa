/** The character and string helpers every parser rests on (Core/src/StringUtil.cpp). */
module StringUtil {

  function AsciiLower(c: char): char {
    if 'A' <= c <= 'Z' then (c as int - 'A' as int + 'a' as int) as char else c
  }

  function AsciiUpper(c: char): char {
    if 'a' <= c <= 'z' then (c as int - 'a' as int + 'A' as int) as char else c
  }

  function ToLower(s: string): (r: string)
    ensures |r| == |s|
  {
    seq(|s|, i requires 0 <= i < |s| => AsciiLower(s[i]))
  }

  function ToUpper(s: string): (r: string)
    ensures |r| == |s|
  {
    seq(|s|, i requires 0 <= i < |s| => AsciiUpper(s[i]))
  }

  predicate EqualsIgnoreCase(a: string, b: string) {
    ToLower(a) == ToLower(b)
  }

  /** Space, \t, \n, \v, \f and \r. */
  predicate IsSpace(c: char) {
    c == ' ' || 9 <= c as int <= 13
  }

  predicate NoSpaceAtEnds(s: string) {
    s != "" ==> !IsSpace(s[0]) && !IsSpace(s[|s| - 1])
  }

  function TrimLeft(s: string): string {
    if s != "" && IsSpace(s[0]) then TrimLeft(s[1..]) else s
  }

  function TrimRight(s: string): string {
    if s != "" && IsSpace(s[|s| - 1]) then TrimRight(s[..|s| - 1]) else s
  }

  function Trim(s: string): string {
    TrimRight(TrimLeft(s))
  }

  lemma TrimIsIdentity(s: string)
    requires NoSpaceAtEnds(s)
    ensures Trim(s) == s
  {
  }

  predicate AllSpace(s: string) {
    forall i | 0 <= i < |s| :: IsSpace(s[i])
  }

  lemma {:induction false} TrimLeftSkips(space: string, rest: string)
    requires AllSpace(space) && (rest == "" || !IsSpace(rest[0]))
    ensures TrimLeft(space + rest) == rest
    decreases space
  {
    if space == "" {
      assert space + rest == rest;
    } else {
      assert (space + rest)[1..] == space[1..] + rest;
      TrimLeftSkips(space[1..], rest);
    }
  }

  lemma {:induction false} TrimRightSkips(rest: string, space: string)
    requires AllSpace(space) && (rest == "" || !IsSpace(rest[|rest| - 1]))
    ensures TrimRight(rest + space) == rest
    decreases space
  {
    var s := rest + space;
    if space == "" {
      assert s == rest;
    } else {
      assert s[..|s| - 1] == rest + space[..|space| - 1];
      TrimRightSkips(rest, space[..|space| - 1]);
    }
  }

  /** Trimming takes the space off both ends and nothing else. */
  lemma TrimExactly(before: string, s: string, after: string)
    requires AllSpace(before) && AllSpace(after) && s != "" && NoSpaceAtEnds(s)
    ensures Trim(before + s + after) == s
  {
    hide TrimLeft, TrimRight;
    assert before + s + after == before + (s + after);
    TrimLeftSkips(before, s + after);
    TrimRightSkips(s, after);
  }

  /** The index of the first `c`, or the length when there is none. */
  function Find(s: string, c: char): (n: nat)
    ensures n <= |s|
    ensures n < |s| ==> s[n] == c
    ensures forall i | 0 <= i < n :: s[i] != c
  {
    if s == "" || s[0] == c then 0 else 1 + Find(s[1..], c)
  }

  lemma {:induction false} FindSkips(a: string, c: char, rest: string)
    requires c !in a
    ensures Find(a + [c] + rest, c) == |a|
  {
    var s := a + [c] + rest;
    if a != "" {
      assert s[1..] == a[1..] + [c] + rest;
      FindSkips(a[1..], c, rest);
    }
  }

  lemma {:induction false} FindNone(s: string, c: char)
    requires c !in s
    ensures Find(s, c) == |s| && s[..Find(s, c)] == s
  {
    if s != "" {
      assert s[0] in s && forall d | d in s[1..] :: d in s;
      FindNone(s[1..], c);
    }
  }

  /** The pieces between consecutive `sep`s; always at least one. */
  function Split(s: string, sep: char): (parts: seq<string>)
    ensures |parts| >= 1
    decreases |s|
  {
    var n := Find(s, sep);
    if n == |s| then [s[..n]] else [s[..n]] + Split(s[n + 1..], sep)
  }

  function Join(parts: seq<string>, sep: char): string {
    if |parts| == 0 then ""
    else if |parts| == 1 then parts[0]
    else parts[0] + [sep] + Join(parts[1..], sep)
  }

  lemma {:induction false} SplitOfJoin(parts: seq<string>, sep: char)
    requires |parts| >= 1
    requires forall p | p in parts :: sep !in p
    ensures Split(Join(parts, sep), sep) == parts
  {
    var s := Join(parts, sep);
    if |parts| == 1 {
      assert s == parts[0] && sep !in s;
      assert s[..|s|] == s;
    } else {
      FindSkips(parts[0], sep, Join(parts[1..], sep));
      assert s[|parts[0]| + 1..] == Join(parts[1..], sep);
      assert s[..|parts[0]|] == parts[0];
      SplitOfJoin(parts[1..], sep);
    }
  }

  lemma {:induction false} JoinOfSplit(s: string, sep: char)
    ensures Join(Split(s, sep), sep) == s
    ensures forall p | p in Split(s, sep) :: sep !in p
    decreases |s|
  {
    var n := Find(s, sep);
    if n < |s| {
      JoinOfSplit(s[n + 1..], sep);
      assert Split(s, sep)[1..] == Split(s[n + 1..], sep);
      assert s == s[..n] + [sep] + s[n + 1..];
    }
  }

  /** The pieces that are kept: all of them, or only those that are not empty. */
  function KeptPieces(parts: seq<string>, skipEmpty: bool): seq<string> {
    if parts == [] then []
    else (if skipEmpty && parts[0] == "" then [] else [parts[0]]) + KeptPieces(parts[1..], skipEmpty)
  }

  lemma {:induction false} AllKept(parts: seq<string>)
    ensures KeptPieces(parts, false) == parts
  {
    if parts != [] {
      AllKept(parts[1..]);
    }
  }

  /** Only empty pieces are dropped, and the others stay in order. */
  lemma {:induction false} DroppedAreEmpty(front: seq<string>, piece: string)
    ensures KeptPieces(front + [piece], true) == KeptPieces(front, true) + if piece == "" then [] else [piece]
  {
    if front == [] {
      assert front + [piece] == [piece] && [piece][1..] == [];
    } else {
      assert (front + [piece])[1..] == front[1..] + [piece];
      DroppedAreEmpty(front[1..], piece);
    }
  }

  lemma KeptStep(parts: seq<string>, piece: string, todo: seq<string>, skipEmpty: bool)
    requires todo != [] && piece == todo[0]
    ensures parts + KeptPieces(todo, skipEmpty) == (if skipEmpty && piece == "" then parts else parts + [piece])
      + KeptPieces(todo[1..], skipEmpty)
  {
    var later := KeptPieces(todo[1..], skipEmpty);
    assert parts + ([piece] + later) == parts + [piece] + later;
    assert [] + later == later;
  }

  lemma NoneKept(skipEmpty: bool)
    ensures KeptPieces([], skipEmpty) == []
  {
  }

  /** `str::split`: the cut points are found left to right, and empty pieces are kept or dropped. */
  method SplitPieces(text: string, delimiter: char, skipEmpty: bool) returns (parts: seq<string>)
    ensures parts == KeptPieces(Split(text, delimiter), skipEmpty)
    ensures !skipEmpty ==> parts == Split(text, delimiter)
  {
    hide KeptPieces;
    AllKept(Split(text, delimiter));
    NoneKept(skipEmpty);
    parts := [];
    var rest := text;
    ghost var todo := Split(text, delimiter);
    while true
      invariant todo == Split(rest, delimiter)
      invariant parts + KeptPieces(todo, skipEmpty) == KeptPieces(Split(text, delimiter), skipEmpty)
      decreases |rest|
    {
      var n := Find(rest, delimiter);
      KeptStep(parts, rest[..n], todo, skipEmpty);
      if !skipEmpty || n > 0 {
        parts := parts + [rest[..n]];
      }
      if n == |rest| {
        assert todo[1..] == [];
        break;
      }
      rest := rest[n + 1..];
      todo := todo[1..];
    }
  }
}

/** Positional numerals: what `std::to_string`, `%u`, `%x` print and what the digit loops read. */
module Digits {

  predicate IsDigit(c: char, base: nat) {
    DigitValue(c) < base
  }

  /** The value of a digit of base 16 or less; 99 for any other character. */
  function DigitValue(c: char): nat {
    if '0' <= c <= '9' then c as nat - '0' as nat
    else if 'a' <= c <= 'f' then c as nat - 'a' as nat + 10
    else if 'A' <= c <= 'F' then c as nat - 'A' as nat + 10
    else 99
  }

  function DigitChar(d: nat): (c: char)
    requires d < 16
    ensures DigitValue(c) == d && !('A' <= c <= 'F')
  {
    if d < 10 then ('0' as int + d) as char else ('a' as int + (d - 10)) as char
  }

  predicate AllDigits(s: string, base: nat) {
    forall c | c in s :: IsDigit(c, base)
  }

  function Value(s: string, base: nat): nat {
    if s == "" then 0 else Value(s[..|s| - 1], base) * base + DigitValue(s[|s| - 1])
  }

  /** Shortest numeral, lower-case. */
  function Print(n: nat, base: nat): (s: string)
    requires 2 <= base <= 16
    ensures s != ""
    decreases n
  {
    if n < base then [DigitChar(n)] else Print(n / base, base) + [DigitChar(n % base)]
  }

  /** No leading zero and no upper-case digit. */
  predicate Canonical(s: string, base: nat) {
    s != "" && AllDigits(s, base) && (|s| > 1 ==> s[0] != '0') && forall c | c in s :: !('A' <= c <= 'F')
  }

  lemma {:induction false} PrintIsCanonical(n: nat, base: nat)
    requires 2 <= base <= 16
    ensures Canonical(Print(n, base), base)
    ensures Print(n, base)[0] == '0' ==> n == 0
    decreases n
  {
    if n >= base {
      DivIdentity(n, base);
      PrintIsCanonical(n / base, base);
    }
  }

  lemma {:induction false} ValueOfPrint(n: nat, base: nat)
    requires 2 <= base <= 16
    ensures Value(Print(n, base), base) == n
    decreases n
  {
    hide Value;
    if n < base {
      assert Print(n, base) == "" + [DigitChar(n)];
      ValueSnoc("", DigitChar(n), base);
    } else {
      DivIdentity(n, base);
      ValueOfPrint(n / base, base);
      ValueSnoc(Print(n / base, base), DigitChar(n % base), base);
    }
  }

  lemma DivIdentity(n: nat, base: nat)
    requires base >= 2
    ensures n == n / base * base + n % base
    ensures n >= base ==> 1 <= n / base < n
  {
  }

  lemma {:induction false} ValueSnoc(front: string, last: char, base: nat)
    ensures Value("", base) == 0
    ensures Value(front + [last], base) == Value(front, base) * base + DigitValue(last)
  {
    var s := front + [last];
    assert s[..|s| - 1] == front;
  }

  lemma {:induction false} PrintOfValue(s: string, base: nat)
    requires 2 <= base <= 16 && Canonical(s, base)
    ensures Print(Value(s, base), base) == s
    ensures s[0] != '0' ==> Value(s, base) >= 1
    decreases |s|
  {
    hide Print, Value;
    var front, last := s[..|s| - 1], s[|s| - 1];
    assert s == front + [last];
    assert last in s;
    DigitOfChar(last);
    ValueSnoc(front, last, base);
    var d, hi := DigitValue(last), Value(front, base);
    if front == "" {
      PrintDigit(d, base);
    } else {
      assert Canonical(front, base) by {
        assert forall c | c in front :: c in s;
      }
      PrintOfValue(front, base);
      PrintStep(hi, d, base);
    }
  }

  lemma PrintDigit(d: nat, base: nat)
    requires 2 <= base <= 16 && d < base
    ensures Print(0 * base + d, base) == [DigitChar(d)]
  {
  }

  lemma DigitOfChar(c: char)
    requires DigitValue(c) < 16 && !('A' <= c <= 'F')
    ensures DigitChar(DigitValue(c)) == c
    ensures c != '0' ==> DigitValue(c) >= 1
  {
  }

  lemma PrintStep(hi: nat, lo: nat, base: nat)
    requires 2 <= base <= 16 && lo < base && hi >= 1
    ensures hi * base + lo >= 1
    ensures Print(hi * base + lo, base) == Print(hi, base) + [DigitChar(lo)]
  {
    DivModOfSum(hi, lo, base);
  }

  lemma MulMonotone(a: int, b: int, c: nat)
    ensures a <= b ==> a * c <= b * c
  {
  }

  lemma DivModOfSum(hi: nat, lo: nat, base: nat)
    requires lo < base
    ensures (hi * base + lo) / base == hi && (hi * base + lo) % base == lo
    ensures hi >= 1 ==> hi * base + lo >= base
  {
    var n := hi * base + lo;
    assert n == n / base * base + n % base;
    MulMonotone(n / base + 1, hi, base);
    MulMonotone(hi + 1, n / base, base);
    MulMonotone(1, hi, base);
  }

  /** A numeral of `k` digits or fewer stays below the k-th power, and conversely. */
  lemma {:induction false} PrintLength(n: nat, base: nat, k: nat)
    requires 2 <= base <= 16 && k >= 1
    ensures n < Power(base, k) <==> |Print(n, base)| <= k
    decreases k
  {
    if k == 1 {
      assert Power(base, 1) == base * Power(base, 0) == base;
      assert n >= base ==> |Print(n / base, base)| >= 1;
    } else {
      PowerGrows(base, k);
      if n >= base {
        PrintLength(n / base, base, k - 1);
        DivCompare(n, base, Power(base, k - 1));
      }
    }
  }

  lemma DivCompare(n: nat, base: nat, p: nat)
    requires base >= 1
    ensures n / base < p <==> n < base * p
  {
    assert n == n / base * base + n % base;
    MulMonotone(n / base + 1, p, base);
    MulMonotone(p, n / base, base);
  }

  function Power(b: nat, e: nat): nat {
    if e == 0 then 1 else b * Power(b, e - 1)
  }

  lemma {:induction false} PowerGrows(b: nat, e: nat)
    requires b >= 2 && e >= 1
    ensures Power(b, e) >= b
  {
    if e == 1 {
      assert Power(b, 1) == b * Power(b, 0);
    } else {
      PowerGrows(b, e - 1);
      assert b * Power(b, e - 1) >= b * 1;
    }
  }

  lemma {:induction false} PowerMonotone(b: nat, d: nat, e: nat)
    requires b >= 1 && d <= e
    ensures 1 <= Power(b, d) <= Power(b, e)
  {
    if e > 0 {
      if d == e {
        PowerMonotone(b, d - 1, e - 1);
        MulMonotone(1, Power(b, d - 1), b);
      } else {
        PowerMonotone(b, d, e - 1);
        MulMonotone(1, b, Power(b, e - 1));
      }
    }
  }

  lemma {:induction false} ValueBound(s: string, base: nat)
    requires base >= 1 && AllDigits(s, base)
    ensures Value(s, base) < Power(base, |s|)
  {
    hide Value;
    if s == "" {
      ValueSnoc("", '0', base);
    } else {
      var front, last := s[..|s| - 1], s[|s| - 1];
      assert s == front + [last];
      assert last in s && forall c | c in front :: c in s;
      ValueBound(front, base);
      ValueSnoc(front, last, base);
      NextDigit(Value(front, base), Power(base, |front|), DigitValue(last), base);
    }
  }

  lemma NextDigit(v: nat, p: nat, d: nat, base: nat)
    requires v < p && d < base
    ensures v * base + d < base * p
  {
    MulMonotone(v + 1, p, base);
  }
}
