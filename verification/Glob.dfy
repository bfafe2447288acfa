/**
 The glob matcher behind application and domain rules (Core/src/StringUtil.cpp).

 The matcher never recurses: on a mismatch it goes back to the last `*` it has passed and lets that
 star swallow one more character.  Forgetting every earlier star is what has to be justified.
 */
module Glob {
  import opened StringUtil

  predicate CharMatch(pc: char, tc: char) {
    pc == '?' || AsciiLower(pc) == AsciiLower(tc)
  }

  predicate AllStars(p: string) {
    forall i | 0 <= i < |p| :: p[i] == '*'
  }

  /** What a pattern means: `*` stands for any run, `?` for any one character, case is folded. */
  predicate Matches(p: string, t: string)
    decreases |p|
  {
    if p == "" then t == ""
    else if p[0] == '*' then exists k | 0 <= k <= |t| :: Matches(p[1..], t[k..])
    else t != "" && CharMatch(p[0], t[0]) && Matches(p[1..], t[1..])
  }

  /** As Matches, except that a `*` facing a literal `*` is committed to matching just that. */
  predicate Committed(p: string, t: string)
    decreases |p|
  {
    if t == "" then AllStars(p)
    else if p == "" then false
    else if CharMatch(p[0], t[0]) then Committed(p[1..], t[1..])
    else p[0] == '*' && exists k | 0 <= k <= |t| :: Committed(p[1..], t[k..])
  }

  /** `pattern[s + 1..p]` was matched character by character against the text up to `t`. */
  ghost predicate Walked(pattern: string, text: string, s: nat, p: nat, starT: nat, t: nat) {
    && s < p <= |pattern| && starT <= t <= |text|
    && t - starT == p - s - 1
    && forall i | s < i < p :: CharMatch(pattern[i], text[starT + i - s - 1])
  }

  /** Any later start for the segment after a star also reaches the end of that segment, no earlier. */
  lemma {:induction false} LaterStartReaches(pattern: string, text: string, s: nat, p: nat, starT: nat, t: nat,
      i: nat, k: nat)
    requires Walked(pattern, text, s, p, starT, t)
    requires s < i <= p && starT + i - s - 1 <= k <= |text|
    requires Committed(pattern[i..], text[k..])
    ensures exists j | t <= j <= |text| :: Committed(pattern[p..], text[j..])
    decreases p - i
  {
    if i == p {
    } else if k == |text| {
      assert pattern[i..][p - i..] == pattern[p..];
      assert Committed(pattern[p..], text[|text|..]);
    } else {
      assert pattern[i..][1..] == pattern[i + 1..];
      if CharMatch(pattern[i], text[k]) {
        assert text[k..][1..] == text[k + 1..];
        LaterStartReaches(pattern, text, s, p, starT, t, i + 1, k + 1);
      } else {
        var m :| 0 <= m <= |text| - k && Committed(pattern[i + 1..], text[k..][m..]);
        assert text[k..][m..] == text[k + m..];
        LaterStartReaches(pattern, text, s, p, starT, t, i + 1, k + m);
      }
    }
  }

  ghost predicate Retry(pattern: string, text: string, star: int, starT: nat)
    requires star < |pattern| && starT <= |text|
  {
    star >= 0 && exists k | starT < k <= |text| :: Committed(pattern[star + 1..], text[k..])
  }

  /** Reaching a star: what any earlier star could still achieve, the new one achieves too. */
  lemma NewStarSuffices(pattern: string, text: string, star: int, p: nat, starT: nat, t: nat)
    requires p < |pattern| && t < |text| && star < p
    requires star >= 0 ==> Walked(pattern, text, star, p, starT, t)
    requires star < 0 ==> starT <= t
    requires pattern[p] == '*' && !CharMatch(pattern[p], text[t])
    ensures Committed(pattern[p..], text[t..]) || Retry(pattern, text, star, starT)
       <==> Committed(pattern[p + 1..], text[t..]) || Retry(pattern, text, p, t)
  {
    assert pattern[p..][1..] == pattern[p + 1..];
    if Committed(pattern[p..], text[t..]) {
      var m :| 0 <= m <= |text| - t && Committed(pattern[p + 1..], text[t..][m..]);
      assert text[t..][m..] == text[t + m..];
    }
    if Retry(pattern, text, star, starT) {
      var k :| starT < k <= |text| && Committed(pattern[star + 1..], text[k..]);
      LaterStartReaches(pattern, text, star, p, starT, t, star + 1, k);
      var j :| t <= j <= |text| && Committed(pattern[p..], text[j..]);
      StarConsumes(pattern, text, p, j);
    }
    forall k | t <= k <= |text| && Committed(pattern[p + 1..], text[k..])
      ensures Committed(pattern[p..], text[t..])
    {
      assert text[t..][k - t..] == text[k..];
    }
  }

  /** A star that succeeds from `j` leaves a rest that succeeds from `j` or later. */
  lemma StarConsumes(pattern: string, text: string, p: nat, j: nat)
    requires p < |pattern| && j <= |text| && pattern[p] == '*'
    requires Committed(pattern[p..], text[j..])
    ensures exists k | j <= k <= |text| :: Committed(pattern[p + 1..], text[k..])
  {
    assert pattern[p..][1..] == pattern[p + 1..];
    if j == |text| {
      assert Committed(pattern[p + 1..], text[|text|..]);
    } else if CharMatch('*', text[j]) {
      assert text[j..][1..] == text[j + 1..];
    } else {
      var m :| 0 <= m <= |text| - j && Committed(pattern[p + 1..], text[j..][m..]);
      assert text[j..][m..] == text[j + m..];
    }
  }

  lemma MoreRetries(pattern: string, text: string, star: nat, starT: nat)
    requires star < |pattern| && starT < |text|
    ensures Retry(pattern, text, star, starT)
       <==> Committed(pattern[star + 1..], text[starT + 1..]) || Retry(pattern, text, star, starT + 1)
  {
  }

  /** The answer still depends only on the current pair of suffixes and on retries of the last star. */
  ghost predicate Undecided(pattern: string, text: string, star: int, p: nat, starT: nat, t: nat) {
    && star < p <= |pattern| && starT <= t <= |text|
    && (star >= 0 ==> Walked(pattern, text, star, p, starT, t))
    && (Committed(pattern, text) <==> Committed(pattern[p..], text[t..]) || Retry(pattern, text, star, starT))
  }

  lemma StartState(pattern: string, text: string)
    ensures Undecided(pattern, text, -1, 0, 0, 0)
  {
    assert pattern[0..] == pattern && text[0..] == text;
  }

  lemma CharStep(pattern: string, text: string, star: int, p: nat, starT: nat, t: nat)
    requires Undecided(pattern, text, star, p, starT, t)
    requires p < |pattern| && t < |text| && CharMatch(pattern[p], text[t])
    ensures Undecided(pattern, text, star, p + 1, starT, t + 1)
  {
    assert pattern[p..][1..] == pattern[p + 1..] && text[t..][1..] == text[t + 1..];
  }

  lemma StarStep(pattern: string, text: string, star: int, p: nat, starT: nat, t: nat)
    requires Undecided(pattern, text, star, p, starT, t)
    requires p < |pattern| && t < |text| && pattern[p] == '*' && !CharMatch(pattern[p], text[t])
    ensures Undecided(pattern, text, p, p + 1, t, t)
  {
    NewStarSuffices(pattern, text, star, p, starT, t);
  }

  lemma BackStep(pattern: string, text: string, star: int, p: nat, starT: nat, t: nat)
    requires Undecided(pattern, text, star, p, starT, t) && t < |text|
    requires p < |pattern| ==> pattern[p] != '*' && !CharMatch(pattern[p], text[t])
    ensures star >= 0 ==> Undecided(pattern, text, star, star + 1, starT + 1, starT + 1)
    ensures star < 0 ==> !Committed(pattern, text)
  {
    if star >= 0 {
      MoreRetries(pattern, text, star, starT);
    }
  }

  /** With the text used up, going back to the star cannot help. */
  lemma EndState(pattern: string, text: string, star: int, p: nat, starT: nat)
    requires star < p <= |pattern| && starT <= |text|
    requires Undecided(pattern, text, star, p, starT, |text|)
    ensures Committed(pattern, text) == AllStars(pattern[p..])
  {
    if Retry(pattern, text, star, starT) {
      var k :| starT < k <= |text| && Committed(pattern[star + 1..], text[k..]);
      LaterStartReaches(pattern, text, star, p, starT, |text|, star + 1, k);
    }
  }

  /**
   The iterative matcher.  `star` is -1 while no star has been passed.  `steps` counts the
   iterations of both loops.
   */
  method GlobMatch(pattern: string, text: string) returns (matched: bool, ghost steps: nat)
    ensures matched == Committed(pattern, text)
    ensures steps <= Budget(|text| + 1, |pattern| + 1)
  {
    hide Undecided;
    var p, t := 0, 0;
    var star, starT := -1, 0;
    steps := 0;
    StartState(pattern, text);
    while t < |text|
      invariant star < p <= |pattern| && starT <= t <= |text|
      invariant Undecided(pattern, text, star, p, starT, t)
      invariant steps <= Budget(starT, |pattern| + 1) + p
      decreases |text| - starT, |pattern| - p
    {
      steps := steps + 1;
      if p < |pattern| && CharMatch(pattern[p], text[t]) {
        CharStep(pattern, text, star, p, starT, t);
        p, t := p + 1, t + 1;
      } else if p < |pattern| && pattern[p] == '*' {
        StarStep(pattern, text, star, p, starT, t);
        BudgetGrows(starT, t, |pattern| + 1);
        star, starT := p, t;
        p := p + 1;
      } else {
        BackStep(pattern, text, star, p, starT, t);
        if star != -1 {
          starT := starT + 1;
          p, t := star + 1, starT;
        } else {
          BudgetGrows(starT + 1, |text| + 1, |pattern| + 1);
          return false, steps;
        }
      }
    }
    EndState(pattern, text, star, p, starT);
    var q := SkipStars(pattern, p);
    steps := steps + (q - p);
    BudgetGrows(starT + 1, |text| + 1, |pattern| + 1);
    matched := q == |pattern|;
  }

  method SkipStars(pattern: string, p: nat) returns (q: nat)
    requires p <= |pattern|
    ensures p <= q <= |pattern|
    ensures q == |pattern| <==> AllStars(pattern[p..])
  {
    q := p;
    while q < |pattern| && pattern[q] == '*'
      invariant p <= q <= |pattern|
      invariant forall i | p <= i < q :: pattern[i] == '*'
    {
      q := q + 1;
    }
    if q < |pattern| {
      assert pattern[p..][q - p] != '*';
    }
  }

  /** `per` steps for each of `starts` starting points. */
  function Budget(starts: nat, per: nat): nat {
    if starts == 0 then 0 else per + Budget(starts - 1, per)
  }

  lemma {:induction false} BudgetGrows(a: nat, b: nat, per: nat)
    requires a <= b
    ensures Budget(a, per) <= Budget(b, per)
    decreases b
  {
    if a < b {
      BudgetGrows(a, b - 1, per);
    }
  }

  lemma {:induction false} BudgetIsProduct(starts: nat, per: nat)
    ensures Budget(starts, per) == starts * per
  {
    if starts > 0 {
      BudgetIsProduct(starts - 1, per);
    }
  }

  /** A match that the matcher reports is always a match of the pattern. */
  lemma {:induction false} GlobIsSound(p: string, t: string)
    ensures Committed(p, t) ==> Matches(p, t)
    decreases |p|
  {
    if p == "" {
    } else if t == "" {
      if AllStars(p) {
        GlobIsSound(p[1..], t);
        assert t[0..] == t;
      }
    } else if CharMatch(p[0], t[0]) {
      GlobIsSound(p[1..], t[1..]);
    } else if Committed(p, t) {
      var k :| 0 <= k <= |t| && Committed(p[1..], t[k..]);
      GlobIsSound(p[1..], t[k..]);
    }
  }

  lemma {:induction false} GlobIsComplete(p: string, t: string)
    requires '*' !in t
    ensures Matches(p, t) ==> Committed(p, t)
    decreases |p|
  {
    if p == "" || !Matches(p, t) {
    } else if p[0] == '*' {
      var k :| 0 <= k <= |t| && Matches(p[1..], t[k..]);
      assert forall c | c in t[k..] :: c in t;
      GlobIsComplete(p[1..], t[k..]);
      if t == "" {
        assert AllStars(p[1..]);
        assert p == [p[0]] + p[1..];
      } else {
        assert t[0] in t;
      }
    } else {
      assert forall c | c in t[1..] :: c in t;
      GlobIsComplete(p[1..], t[1..]);
    }
  }

  /**
   The matcher decides every pattern correctly on a text exactly when the text holds no `*`: the
   literal comparison is tried before the star, so a pattern star facing a `*` is spent on it.
   */
  lemma GlobExact(text: string)
    ensures (forall pattern :: Committed(pattern, text) == Matches(pattern, text)) <==> '*' !in text
  {
    if '*' !in text {
      forall pattern ensures Committed(pattern, text) == Matches(pattern, text) {
        GlobIsSound(pattern, text);
        GlobIsComplete(pattern, text);
      }
    } else {
      var pattern := MissedPattern(text);
    }
  }

  /** For a text with a `*`: a pattern that matches it and that the matcher turns down. */
  lemma MissedPattern(text: string) returns (pattern: string)
    requires '*' in text
    ensures Matches(pattern, text) && !Committed(pattern, text)
  {
    var i := Find(text, '*');
    var before, after := text[..i], text[i + 1..];
    assert text == before + ("*" + after);
    var tail := if after == "" then "*?" else "*";
    MissesAfterPrefix(before, tail, "*" + after);
    TailMisses(tail, after);
    pattern := before + tail;
  }

  lemma TailMisses(tail: string, after: string)
    requires tail == if after == "" then "*?" else "*"
    ensures !Committed(tail, "*" + after) && Matches(tail, "*" + after)
  {
    var t := "*" + after;
    assert t[1..] == after;
    if after == "" {
      assert tail[1..] == "?" && tail[1..][1..] == "" && t[0..] == t;
      assert Matches("?", t);
      assert '?' in "?";
      assert !Committed("?", "");
    } else {
      assert tail[1..] == "" && t[|t|..] == "";
      assert Matches("", "");
    }
  }

  lemma {:induction false} MissesAfterPrefix(before: string, p: string, t: string)
    requires '*' !in before
    ensures Committed(before + p, before + t) == Committed(p, t)
    ensures Matches(before + p, before + t) == Matches(p, t)
  {
    if before == "" {
      assert before + p == p && before + t == t;
    } else {
      assert (before + p)[1..] == before[1..] + p && (before + t)[1..] == before[1..] + t;
      assert before[0] in before;
      MissesAfterPrefix(before[1..], p, t);
    }
  }

  /** A pattern without wildcards matches its own text only, letter case aside. */
  lemma {:induction false} LiteralPattern(p: string, t: string)
    requires '*' !in p && '?' !in p
    ensures Matches(p, t) <==> EqualsIgnoreCase(p, t)
  {
    if p == "" {
    } else {
      assert p[0] in p && forall c | c in p[1..] :: c in p;
      if t != "" {
        LiteralPattern(p[1..], t[1..]);
        assert ToLower(p)[0] == AsciiLower(p[0]) && ToLower(t)[0] == AsciiLower(t[0]);
        assert ToLower(p)[1..] == ToLower(p[1..]) && ToLower(t)[1..] == ToLower(t[1..]);
        assert ToLower(p) == [AsciiLower(p[0])] + ToLower(p[1..]);
        assert ToLower(t) == [AsciiLower(t[0])] + ToLower(t[1..]);
      } else {
        assert |ToLower(p)| == |p|;
      }
    }
  }
}
