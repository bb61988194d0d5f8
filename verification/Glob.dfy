/** `globMatch`: a greedy wildcard matcher that remembers only the last star. */
module Glob {

  // -- what a pattern means ---------------------------------------------------------------

  /** `*` stands for any run of characters, `?` for any one character, anything else for itself. */
  ghost predicate Matches(pattern: string, text: string)
    decreases |pattern| + |text|
  {
    if pattern == "" then text == ""
    else if pattern[0] == '*' then
      Matches(pattern[1..], text) || (text != "" && Matches(pattern, text[1..]))
    else
      text != "" && (pattern[0] == '?' || pattern[0] == text[0]) && Matches(pattern[1..], text[1..])
  }

  // -- what the loop computes ----------------------------------------------------------------

  /** The variables of the loop; `star` is `|pattern|` while no star has been met. */
  datatype State = State(p: nat, t: nat, star: nat, mark: nat)

  ghost predicate Inv(pattern: string, text: string, s: State) {
    && s.p <= |pattern| && s.t <= |text| && s.star <= |pattern| && s.mark <= s.t
    && (s.star < |pattern| ==> pattern[s.star] == '*' && s.star < s.p)
    && (s.star == |pattern| ==> s.mark == 0)
  }

  datatype Outcome = Continue(next: State) | Fail

  /** One iteration: characters are compared before the pattern is tested for a star. */
  function Iterate(pattern: string, text: string, s: State): (o: Outcome)
    requires Inv(pattern, text, s) && s.t < |text|
    ensures o.Continue? ==> Inv(pattern, text, o.next)
    ensures o.Continue? ==> Progress(pattern, s) < Progress(pattern, o.next)
  {
    if s.p < |pattern| && (pattern[s.p] == '?' || pattern[s.p] == text[s.t]) then
      Continue(s.(p := s.p + 1, t := s.t + 1))
    else if s.p < |pattern| && pattern[s.p] == '*' then
      LaterMark(pattern, s.mark, s.t);
      Continue(State(s.p + 1, s.t, s.p, s.t))
    else if s.star != |pattern| then
      LaterMark(pattern, s.mark, s.mark + 1);
      Continue(State(s.star + 1, s.mark + 1, s.star, s.mark + 1))
    else
      Fail
  }

  /** Grows with every iteration: a backtrack moves the mark on, anything else the pattern index. */
  ghost function Progress(pattern: string, s: State): nat {
    s.mark * (|pattern| + 1) + s.p
  }

  lemma LaterMark(pattern: string, m: nat, n: nat)
    requires m <= n
    ensures m * (|pattern| + 1) <= n * (|pattern| + 1)
    ensures m + 1 == n ==> m * (|pattern| + 1) + (|pattern| + 1) == n * (|pattern| + 1)
  {
  }

  function SkipStars(pattern: string, p: nat): (q: nat)
    requires p <= |pattern|
    ensures p <= q <= |pattern|
    decreases |pattern| - p
  {
    if p < |pattern| && pattern[p] == '*' then SkipStars(pattern, p + 1) else p
  }

  ghost function Bound(pattern: string, text: string): nat {
    (|text| + 1) * (|pattern| + 1)
  }

  lemma ProgressBounded(pattern: string, text: string, s: State)
    requires Inv(pattern, text, s)
    ensures Progress(pattern, s) < Bound(pattern, text)
  {
    LaterMark(pattern, s.mark, |text|);
    LaterMark(pattern, |text|, |text| + 1);
  }

  /** The result of running the loop from a state, and how many iterations it takes. */
  function Run(pattern: string, text: string, s: State): (r: (bool, nat))
    requires Inv(pattern, text, s)
    decreases Bound(pattern, text) - Progress(pattern, s)
  {
    if s.t < |text| then
      match Iterate(pattern, text, s)
      case Fail => (false, 1)
      case Continue(next) =>
        ProgressBounded(pattern, text, next);
        var (found, steps) := Run(pattern, text, next);
        (found, steps + 1)
    else
      (SkipStars(pattern, s.p) == |pattern|, 0)
  }

  function Start(pattern: string): State {
    State(0, 0, |pattern|, 0)
  }

  /** What `globMatch` returns. */
  function Glob(pattern: string, text: string): bool {
    Run(pattern, text, Start(pattern)).0
  }

  method GlobMatch(pattern: string, text: string) returns (r: bool, steps: nat)
    ensures r == Glob(pattern, text)
    ensures steps <= (|text| + 1) * (|pattern| + 1)
  {
    hide Progress;
    StepsBounded(pattern, text, Start(pattern));
    var p: nat, t: nat, star: nat, mark: nat := 0, 0, |pattern|, 0;
    steps := 0;
    while t < |text|
      invariant Inv(pattern, text, State(p, t, star, mark))
      invariant Run(pattern, text, Start(pattern)).0 == Run(pattern, text, State(p, t, star, mark)).0
      invariant Run(pattern, text, Start(pattern)).1 == Run(pattern, text, State(p, t, star, mark)).1 + steps
      decreases Bound(pattern, text) - Progress(pattern, State(p, t, star, mark))
    {
      ghost var o := Iterate(pattern, text, State(p, t, star, mark));
      steps := steps + 1;
      if p < |pattern| && (pattern[p] == '?' || pattern[p] == text[t]) {
        p := p + 1;
        t := t + 1;
      } else if p < |pattern| && pattern[p] == '*' {
        star := p;
        p := p + 1;
        mark := t;
      } else if star != |pattern| {
        p := star + 1;
        mark := mark + 1;
        t := mark;
      } else {
        return false, steps;
      }
      assert o == Continue(State(p, t, star, mark));
      ProgressBounded(pattern, text, State(p, t, star, mark));
    }
    ghost var q := p;
    while p < |pattern| && pattern[p] == '*'
      invariant q <= p <= |pattern|
      invariant SkipStars(pattern, p) == SkipStars(pattern, q)
    {
      p := p + 1;
    }
    r := p == |pattern|;
  }

  /** At most `(|text| + 1) * (|pattern| + 1)` iterations remain, less the progress already made. */
  lemma {:induction false} StepsBounded(pattern: string, text: string, s: State)
    requires Inv(pattern, text, s)
    ensures Progress(pattern, s) + Run(pattern, text, s).1 <= Bound(pattern, text)
    decreases Bound(pattern, text) - Progress(pattern, s)
  {
    hide Progress, Bound;
    ProgressBounded(pattern, text, s);
    if s.t < |text| {
      match Iterate(pattern, text, s)
      case Fail =>
      case Continue(next) =>
        ProgressBounded(pattern, text, next);
        StepsBounded(pattern, text, next);
    }
  }

  // -- soundness ------------------------------------------------------------------------------------

  lemma {:induction false} StarsMatchNothing(pattern: string, p: nat)
    requires p <= |pattern| && SkipStars(pattern, p) == |pattern|
    ensures Matches(pattern[p..], "")
    decreases |pattern| - p
  {
    if p < |pattern| {
      StarsMatchNothing(pattern, p + 1);
      assert pattern[p..][1..] == pattern[p + 1..];
    }
  }

  /** What is left to match at a state, or to retry from the last star. */
  ghost predicate Left(pattern: string, text: string, s: State)
    requires Inv(pattern, text, s)
  {
    Matches(pattern[s.p..], text[s.t..])
  }

  ghost predicate Retry(pattern: string, text: string, s: State)
    requires Inv(pattern, text, s)
  {
    s.star < |pattern| && Matches(pattern[s.star..], text[s.mark..])
  }

  lemma Unfold(pattern: string, text: string, p: nat, t: nat)
    requires p < |pattern| && t <= |text|
    ensures pattern[p..][0] == pattern[p] && pattern[p..][1..] == pattern[p + 1..]
    ensures t < |text| ==> text[t..][0] == text[t] && text[t..][1..] == text[t + 1..]
    ensures Matches(pattern[p..], text[t..]) <==>
              if pattern[p] == '*' then
                Matches(pattern[p + 1..], text[t..]) || (t < |text| && Matches(pattern[p..], text[t + 1..]))
              else
                t < |text| && (pattern[p] == '?' || pattern[p] == text[t]) && Matches(pattern[p + 1..], text[t + 1..])
  {
    assert pattern[p..][1..] == pattern[p + 1..];
    if t < |text| {
      assert text[t..][1..] == text[t + 1..];
    }
  }

  /** What an iteration leaves to match was there to match before it. */
  lemma IterateSound(pattern: string, text: string, s: State, next: State)
    requires Inv(pattern, text, s) && s.t < |text| && Iterate(pattern, text, s) == Continue(next)
    requires Left(pattern, text, next) || Retry(pattern, text, next)
    ensures Left(pattern, text, s) || Retry(pattern, text, s)
  {
    hide Matches, Progress, Bound;
    if s.p < |pattern| {
      Unfold(pattern, text, s.p, s.t);
      if pattern[s.p] == '*' && s.p + 1 <= |pattern| && pattern[s.p] == text[s.t] && Left(pattern, text, next) {
        StarTakesOne(pattern, text, s.p, s.t);
      }
    }
    if s.star < |pattern| {
      Unfold(pattern, text, s.star, s.mark);
      Unfold(pattern, text, s.star, s.mark + 1);
    }
  }

  lemma {:induction false} RunSound(pattern: string, text: string, s: State)
    requires Inv(pattern, text, s) && Run(pattern, text, s).0
    ensures Left(pattern, text, s) || Retry(pattern, text, s)
    decreases Bound(pattern, text) - Progress(pattern, s)
  {
    hide Matches, Iterate, Progress, Bound;
    if s.t == |text| {
      StarsMatchNothing(pattern, s.p);
      assert text[s.t..] == "";
    } else {
      var next := Iterate(pattern, text, s).next;
      ProgressBounded(pattern, text, next);
      RunSound(pattern, text, next);
      IterateSound(pattern, text, s, next);
    }
  }

  lemma StarTakesOne(pattern: string, text: string, p: nat, t: nat)
    requires p < |pattern| && pattern[p] == '*' && t < |text|
    requires Matches(pattern[p + 1..], text[t + 1..])
    ensures Matches(pattern[p..], text[t..])
  {
    Unfold(pattern, text, p, t);
    Unfold(pattern, text, p, t + 1);
  }

  /** Whatever the text, `globMatch` accepts only what the pattern matches. */
  lemma GlobSound(pattern: string, text: string)
    requires Glob(pattern, text)
    ensures Matches(pattern, text)
  {
    RunSound(pattern, text, Start(pattern));
    assert pattern[0..] == pattern && text[0..] == text;
  }

  // -- completeness on texts without a star -------------------------------------------------------------

  /** Since the last star only literal characters were consumed, one for one. */
  ghost predicate Literal(pattern: string, text: string, s: State)
    requires Inv(pattern, text, s)
  {
    s.star < |pattern| ==>
      && s.p - (s.star + 1) == s.t - s.mark
      && forall i :: s.star < i < s.p ==> pattern[i] != '*'
  }

  lemma {:induction false} StarAbsorbs(pattern: string, text: string, p: nat, i: nat, j: nat)
    requires p < |pattern| && pattern[p] == '*' && i <= j <= |text|
    requires Matches(pattern[p..], text[j..])
    ensures Matches(pattern[p..], text[i..])
    decreases j - i
  {
    if i < j {
      StarAbsorbs(pattern, text, p, i + 1, j);
      Unfold(pattern, text, p, i);
    }
  }

  /** A match of a star-free segment moves the whole segment along the text. */
  lemma {:induction false} SegmentMoves(pattern: string, text: string, a: nat, p: nat, i: nat)
    requires a <= p <= |pattern| && i <= |text|
    requires forall k :: a <= k < p ==> pattern[k] != '*'
    requires Matches(pattern[a..], text[i..])
    ensures i + (p - a) <= |text| && Matches(pattern[p..], text[i + (p - a)..])
    decreases p - a
  {
    if a < p {
      Unfold(pattern, text, a, i);
      SegmentMoves(pattern, text, a + 1, p, i + 1);
    }
  }

  /** A star at `p` finds any match that an earlier star would find by starting later: keeping
      only the last star loses nothing. */
  lemma {:induction false} LastStarSuffices(pattern: string, text: string, s: State, from: nat)
    requires Inv(pattern, text, s) && Literal(pattern, text, s)
    requires s.star < |pattern| && s.p < |pattern| && pattern[s.p] == '*'
    requires s.mark <= from <= |text| && Matches(pattern[s.star..], text[from..])
    ensures Matches(pattern[s.p..], text[s.t..])
    decreases |text| - from
  {
    Unfold(pattern, text, s.star, from);
    if Matches(pattern[s.star + 1..], text[from..]) {
      SegmentMoves(pattern, text, s.star + 1, s.p, from);
      StarAbsorbs(pattern, text, s.p, s.t, from + (s.p - (s.star + 1)));
    } else {
      LastStarSuffices(pattern, text, s, from + 1);
    }
  }

  lemma {:induction false} RunComplete(pattern: string, text: string, s: State)
    requires '*' !in text
    requires Inv(pattern, text, s) && Literal(pattern, text, s)
    requires Left(pattern, text, s) || Retry(pattern, text, s)
    ensures Run(pattern, text, s).0
    decreases Bound(pattern, text) - Progress(pattern, s)
  {
    hide Matches, Progress, Bound;
    if s.t == |text| {
      EndComplete(pattern, text, s);
    } else {
      var o := Iterate(pattern, text, s);
      if s.p < |pattern| {
        Unfold(pattern, text, s.p, s.t);
      }
      if s.star < |pattern| {
        Unfold(pattern, text, s.star, s.mark);
      }
      StepComplete(pattern, text, s);
      ProgressBounded(pattern, text, o.next);
      RunComplete(pattern, text, o.next);
    }
  }

  lemma OnlyEmptyLeft(pattern: string, text: string, p: nat, t: nat)
    requires p == |pattern| && t < |text|
    ensures !Matches(pattern[p..], text[t..])
  {
  }

  lemma StepComplete(pattern: string, text: string, s: State)
    requires '*' !in text
    requires Inv(pattern, text, s) && Literal(pattern, text, s) && s.t < |text|
    requires Left(pattern, text, s) || Retry(pattern, text, s)
    ensures Iterate(pattern, text, s).Continue?
    ensures var next := Iterate(pattern, text, s).next;
            Literal(pattern, text, next) && (Left(pattern, text, next) || Retry(pattern, text, next))
  {
    hide Matches;
    assert text[s.t] != '*';
    if s.p < |pattern| {
      Unfold(pattern, text, s.p, s.t);
    } else {
      OnlyEmptyLeft(pattern, text, s.p, s.t);
    }
    if s.star < |pattern| {
      Unfold(pattern, text, s.star, s.mark);
    }
    if !Left(pattern, text, s) {
      if Matches(pattern[s.star + 1..], text[s.mark..]) {
        SegmentMoves(pattern, text, s.star + 1, s.p, s.mark);
      }
      if s.p < |pattern| && pattern[s.p] == '*' {
        LastStarSuffices(pattern, text, s, s.mark);
      }
    }
  }

  lemma EndComplete(pattern: string, text: string, s: State)
    requires Inv(pattern, text, s) && Literal(pattern, text, s) && s.t == |text|
    requires Left(pattern, text, s) || Retry(pattern, text, s)
    ensures SkipStars(pattern, s.p) == |pattern|
  {
    if !Left(pattern, text, s) {
      RetryAtEnd(pattern, text, s, s.mark);
    }
    assert text[s.t..] == "";
    OnlyStarsMatchNothing(pattern, s.p);
  }

  lemma {:induction false} OnlyStarsMatchNothing(pattern: string, p: nat)
    requires p <= |pattern| && Matches(pattern[p..], "")
    ensures SkipStars(pattern, p) == |pattern|
    decreases |pattern| - p
  {
    if p < |pattern| {
      assert pattern[p..][1..] == pattern[p + 1..];
      OnlyStarsMatchNothing(pattern, p + 1);
    }
  }

  /** At the end of the text a later start leaves no room for the segment, so the segment just
      matched must be the one. */
  lemma {:induction false} RetryAtEnd(pattern: string, text: string, s: State, from: nat)
    requires Inv(pattern, text, s) && Literal(pattern, text, s) && s.t == |text|
    requires s.star < |pattern| && s.mark <= from <= |text|
    requires Matches(pattern[s.star..], text[from..])
    ensures Left(pattern, text, s)
    decreases |text| - from
  {
    Unfold(pattern, text, s.star, from);
    if Matches(pattern[s.star + 1..], text[from..]) {
      SegmentMoves(pattern, text, s.star + 1, s.p, from);
      assert from + (s.p - (s.star + 1)) == s.t;
    } else {
      RetryAtEnd(pattern, text, s, from + 1);
    }
  }

  /** On a text without a literal star, `globMatch` decides the pattern exactly. */
  lemma GlobExact(pattern: string, text: string)
    requires '*' !in text
    ensures Glob(pattern, text) <==> Matches(pattern, text)
  {
    assert pattern[0..] == pattern && text[0..] == text;
    if Glob(pattern, text) {
      GlobSound(pattern, text);
    }
    if Matches(pattern, text) {
      RunComplete(pattern, text, Start(pattern));
    }
  }

  // -- and on no other text ------------------------------------------------------------------------------

  function Questions(n: nat): (q: string)
    ensures |q| == n && forall i :: 0 <= i < n ==> q[i] == '?'
  {
    seq(n, _ => '?')
  }

  lemma {:induction false} QuestionsMatch(text: string)
    ensures Matches(Questions(|text|), text)
  {
    if text != "" {
      assert Questions(|text|)[1..] == Questions(|text[1..]|);
      QuestionsMatch(text[1..]);
    }
  }

  lemma {:induction false} LiteralMatches(text: string, rest: string, suffix: string)
    requires '*' !in text && Matches(rest, suffix)
    ensures Matches(text + rest, text + suffix)
  {
    if text == "" {
      assert text + rest == rest && text + suffix == suffix;
    } else {
      LiteralMatches(text[1..], rest, suffix);
      assert (text + rest)[1..] == text[1..] + rest && (text + suffix)[1..] == text[1..] + suffix;
    }
  }

  /** With no star met and every character agreeing, the loop walks down the diagonal. */
  lemma {:induction false} Diagonal(pattern: string, text: string, k: nat)
    requires k <= |text| < |pattern|
    requires forall i :: 0 <= i < |text| ==> pattern[i] == text[i] || pattern[i] == '?'
    requires pattern[|text|] == '?'
    ensures !Run(pattern, text, State(k, k, |pattern|, 0)).0
    decreases |text| - k
  {
    hide Bound;
    if k < |text| {
      var s := State(k, k, |pattern|, 0);
      assert Iterate(pattern, text, s) == Continue(State(k + 1, k + 1, |pattern|, 0));
      Diagonal(pattern, text, k + 1);
    }
  }

  /** Any text with a literal star is missed by some pattern that matches it: the star in the
      pattern is spent on the star in the text and never remembered. */
  lemma StarInTextMissed(text: string) returns (pattern: string)
    requires '*' in text
    ensures Matches(pattern, text) && !Glob(pattern, text)
  {
    var k := 0;
    while text[k] != '*'
      invariant 0 <= k < |text| && '*' !in text[..k] && '*' in text[k..]
      decreases |text| - k
    {
      assert text[k..] == [text[k]] + text[k + 1..];
      assert text[..k + 1] == text[..k] + [text[k]];
      k := k + 1;
    }
    var tail := text[k..];
    var rest := "*" + Questions(|tail|);
    pattern := text[..k] + rest;
    QuestionsMatch(tail);
    assert rest[1..] == Questions(|tail|);
    assert Matches(rest, tail);
    LiteralMatches(text[..k], rest, tail);
    assert text[..k] + tail == text;
    forall i | 0 <= i < |text|
      ensures pattern[i] == text[i] || pattern[i] == '?'
    {
      if i > k { assert pattern[i] == Questions(|tail|)[i - k - 1]; }
    }
    assert pattern[|text|] == Questions(|tail|)[|tail| - 1];
    Diagonal(pattern, text, 0);
  }

  /** The matcher is right about every pattern exactly when the text holds no literal star. */
  lemma GlobExactIff(text: string)
    ensures '*' !in text <==> forall pattern :: Glob(pattern, text) <==> Matches(pattern, text)
  {
    if '*' !in text {
      forall pattern {
        GlobExact(pattern, text);
      }
    } else {
      var pattern := StarInTextMissed(text);
    }
  }
}
