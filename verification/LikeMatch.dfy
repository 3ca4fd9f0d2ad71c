/** LIKE: the matching loop, which backtracks to the last '%' only, against the meaning of
    the pattern. */
module LikeMatch {

  /** What a pattern means: '%' stands for any text, '_' for any character. */
  predicate Like(s: string, p: string)
    decreases |p|, |s|
  {
    if p == "" then s == ""
    else if p[0] == '%' then Like(s, p[1..]) || (s != "" && Like(s[1..], p))
    else s != "" && (p[0] == '_' || p[0] == s[0]) && Like(s[1..], p[1..])
  }

  /** Without '%' a pattern is matched character by character, '_' by any character. */
  lemma {:induction false} FixedPattern(s: string, p: string)
    requires '%' !in p
    ensures Like(s, p) <==> |s| == |p| && forall i :: 0 <= i < |p| ==> p[i] == '_' || p[i] == s[i]
  {
    if p != "" && s != "" {
      FixedPattern(s[1..], p[1..]);
    }
  }

  /** A '%' takes any number of characters. */
  lemma {:induction false} PercentTakesAny(s: string, p: string)
    requires p != "" && p[0] == '%'
    ensures Like(s, p) <==> exists k :: 0 <= k <= |s| && Like(s[k..], p[1..])
  {
    assert s[0..] == s;
    if s != "" && !Like(s, p[1..]) {
      PercentTakesAny(s[1..], p);
      if Like(s, p) {
        var k :| 0 <= k <= |s[1..]| && Like(s[1..][k..], p[1..]);
        assert s[1..][k..] == s[k + 1..];
      }
      if exists k :: 0 <= k <= |s| && Like(s[k..], p[1..]) {
        var k :| 0 <= k <= |s| && Like(s[k..], p[1..]);
        assert k > 0 && s[1..][k - 1..] == s[k..];
      }
    }
  }

  /** Everything from s[i] on, against everything from p[j] on. */
  predicate From(s: string, p: string, i: nat, j: nat)
    requires i <= |s| && j <= |p|
  {
    Like(s[i..], p[j..])
  }

  lemma FromSteps(s: string, p: string, i: nat, j: nat)
    requires i <= |s| && j <= |p|
    ensures j == |p| ==> (From(s, p, i, j) <==> i == |s|)
    ensures j < |p| && p[j] == '%' && i < |s| ==> (From(s, p, i, j) <==> From(s, p, i, j + 1) || From(s, p, i + 1, j))
    ensures j < |p| && p[j] == '%' && i == |s| ==> (From(s, p, i, j) <==> From(s, p, i, j + 1))
    ensures j < |p| && p[j] != '%' && i < |s| ==> (From(s, p, i, j) <==> (p[j] == '_' || p[j] == s[i]) && From(s, p, i + 1, j + 1))
    ensures j < |p| && p[j] != '%' && i == |s| ==> !From(s, p, i, j)
  {
    if i < |s| {
      assert s[i..][1..] == s[i + 1..];
    }
    if j < |p| {
      assert p[j..][1..] == p[j + 1..];
    }
  }

  /** Without '%' between them, pattern positions take one character each. */
  ghost predicate Fixed(p: string, a: nat, b: nat) {
    a <= b <= |p| && forall j :: a <= j < b ==> p[j] != '%'
  }

  lemma {:induction false} FixedTakes(s: string, p: string, k: nat, a: nat, b: nat)
    requires Fixed(p, a, b) && k <= |s| && From(s, p, k, a)
    ensures k + b - a <= |s| && From(s, p, k + b - a, b)
    decreases b - a
  {
    hide From;
    FromSteps(s, p, k, a);
    if a < b {
      FixedTakes(s, p, k + 1, a + 1, b);
    }
  }

  /** A later start of a '%' is covered by an earlier one. */
  lemma {:induction false} PercentEarlier(s: string, p: string, i: nat, k: nat, j: nat)
    requires i <= k <= |s| && j < |p| && p[j] == '%' && From(s, p, k, j)
    ensures From(s, p, i, j)
    decreases k - i
  {
    hide From;
    FromSteps(s, p, i, j);
    if i < k {
      PercentEarlier(s, p, i + 1, k, j);
    }
  }

  // ----- The loop

  /** The candidate being tried: after the last '%' at `star`, taken to start at `mark`, the
      pattern matched character by character up to p[pi]. Later candidates may remain. */
  ghost predicate Trying(s: string, p: string, star: int, mark: nat, si: nat, pi: nat) {
    && si <= |s| && pi <= |p| && -1 <= star < pi
    && (star == -1 ==> mark == 0)
    && mark <= si && (star >= 0 ==> p[star] == '%' && Fixed(p, star + 1, pi) && pi - star - 1 == si - mark)
  }

  /** Whether the whole text matches is decided by the candidates left. */
  ghost predicate Undecided(s: string, p: string, star: int, mark: nat, si: nat, pi: nat)
    requires Trying(s, p, star, mark, si, pi)
  {
    && (star == -1 ==> (Like(s, p) <==> From(s, p, si, pi)))
    && (star >= 0 ==> (Like(s, p) <==> From(s, p, mark, star)) && (From(s, p, mark, star + 1) <==> From(s, p, si, pi)))
  }

  /** One more character matched. */
  lemma MatchStep(s: string, p: string, star: int, mark: nat, si: nat, pi: nat)
    requires Trying(s, p, star, mark, si, pi) && Undecided(s, p, star, mark, si, pi)
    requires si < |s| && pi < |p| && p[pi] != '%' && (p[pi] == '_' || p[pi] == s[si])
    ensures Trying(s, p, star, mark, si + 1, pi + 1) && Undecided(s, p, star, mark, si + 1, pi + 1)
  {
    hide From, Like;
    FromSteps(s, p, si, pi);
  }

  /** A new '%': earlier ones need no further candidates. */
  lemma StarStep(s: string, p: string, star: int, mark: nat, si: nat, pi: nat)
    requires Trying(s, p, star, mark, si, pi) && Undecided(s, p, star, mark, si, pi)
    requires pi < |p| && p[pi] == '%'
    ensures Trying(s, p, pi, si, si, pi + 1) && Undecided(s, p, pi, si, si, pi + 1)
  {
    hide From, Like;
    if star >= 0 {
      if From(s, p, mark, star) {
        var k := LaterCandidate(s, p, mark, star);
        FixedTakes(s, p, k, star + 1, pi);
        PercentEarlier(s, p, si, k + pi - star - 1, pi);
      }
      FromSteps(s, p, mark, star);
    }
  }

  /** A match of '%' and what follows starts somewhere at or after its mark. */
  lemma {:induction false} LaterCandidate(s: string, p: string, mark: nat, star: nat) returns (k: nat)
    requires mark <= |s| && star < |p| && p[star] == '%' && From(s, p, mark, star)
    ensures mark <= k <= |s| && From(s, p, k, star + 1)
    decreases |s| - mark
  {
    hide From;
    FromSteps(s, p, mark, star);
    if From(s, p, mark, star + 1) {
      k := mark;
    } else {
      k := LaterCandidate(s, p, mark + 1, star);
    }
  }

  /** A mismatch: the next candidate starts one character later. */
  lemma RetryStep(s: string, p: string, star: int, mark: nat, si: nat, pi: nat)
    requires Trying(s, p, star, mark, si, pi) && Undecided(s, p, star, mark, si, pi)
    requires si < |s| && star >= 0 && (pi < |p| ==> p[pi] != '%' && p[pi] != '_' && p[pi] != s[si])
    ensures Trying(s, p, star, mark + 1, mark + 1, star + 1) && Undecided(s, p, star, mark + 1, mark + 1, star + 1)
  {
    hide From, Like;
    FromSteps(s, p, si, pi);
    FromSteps(s, p, mark, star);
  }

  lemma GiveUp(s: string, p: string, si: nat, pi: nat)
    requires Trying(s, p, -1, 0, si, pi) && Undecided(s, p, -1, 0, si, pi)
    requires si < |s| && (pi < |p| ==> p[pi] != '%' && p[pi] != '_' && p[pi] != s[si])
    ensures !Like(s, p)
  {
    hide From, Like;
    FromSteps(s, p, si, pi);
  }

  /** The text is used up: only the current candidate can still match. */
  lemma TextUsed(s: string, p: string, star: int, mark: nat, pi: nat)
    requires Trying(s, p, star, mark, |s|, pi) && Undecided(s, p, star, mark, |s|, pi)
    ensures Like(s, p) <==> From(s, p, |s|, pi)
  {
    hide From, Like;
    if star >= 0 {
      FromSteps(s, p, mark, star);
      if From(s, p, mark, star) {
        var k := LaterCandidate(s, p, mark, star);
        FixedTakes(s, p, k, star + 1, pi);
      }
    }
  }

  lemma {:induction false} PercentsLeft(s: string, p: string, pi: nat)
    requires pi <= |p|
    ensures From(s, p, |s|, pi) <==> OnlyPercents(p, pi)
    decreases |p| - pi
  {
    hide From;
    FromSteps(s, p, |s|, pi);
    if pi < |p| && p[pi] == '%' {
      PercentsLeft(s, p, pi + 1);
    }
  }

  // ----- The loop as a function of its variables

  function Loop(s: string, p: string, star: int, mark: nat, si: nat, pi: nat): bool
    requires mark <= si <= |s| && -1 <= star < pi <= |p|
    decreases |p| - star, |s| - mark, |s| - si
  {
    if si < |s| then
      if pi < |p| && (p[pi] == '_' || p[pi] == s[si]) then Loop(s, p, star, mark, si + 1, pi + 1)
      else if pi < |p| && p[pi] == '%' then Loop(s, p, pi, si, si, pi + 1)
      else if star != -1 then Loop(s, p, star, mark + 1, mark + 1, star + 1)
      else false
    else OnlyPercents(p, pi)
  }

  predicate OnlyPercents(p: string, pi: nat)
    requires pi <= |p|
  {
    forall j :: pi <= j < |p| ==> p[j] == '%'
  }

  function Matched(s: string, p: string): bool {
    Loop(s, p, -1, 0, 0, 0)
  }

  method Matches(s: string, p: string) returns (r: bool)
    ensures r == Matched(s, p)
  {
    var si, pi := 0, 0;
    var star, mark := -1, 0;
    while si < |s|
      invariant 0 <= mark <= si <= |s| && -1 <= star < pi <= |p|
      invariant Loop(s, p, star, mark, si, pi) == Matched(s, p)
      decreases |p| - star, |s| - mark, |s| - si
    {
      if pi < |p| && (p[pi] == '_' || p[pi] == s[si]) {
        si, pi := si + 1, pi + 1;
      } else if pi < |p| && p[pi] == '%' {
        star, mark, pi := pi, si, pi + 1;
      } else if star != -1 {
        pi, mark := star + 1, mark + 1;
        si := mark;
      } else {
        return false;
      }
    }
    ghost var start := pi;
    while pi < |p| && p[pi] == '%'
      invariant start <= pi <= |p| && forall j :: start <= j < pi ==> p[j] == '%'
    {
      pi := pi + 1;
    }
    r := pi == |p|;
  }

  lemma Start(s: string, p: string)
    ensures Trying(s, p, -1, 0, 0, 0) && Undecided(s, p, -1, 0, 0, 0)
  {
    assert s[0..] == s && p[0..] == p;
  }

  lemma {:induction false} StepsDecide(s: string, p: string, star: int, mark: nat, si: nat, pi: nat)
    requires '%' !in s && Trying(s, p, star, mark, si, pi) && Undecided(s, p, star, mark, si, pi)
    ensures Loop(s, p, star, mark, si, pi) <==> Like(s, p)
    decreases |p| - star, |s| - mark, |s| - si
  {
    hide From, Like, Undecided;
    if si == |s| {
      TextUsed(s, p, star, mark, pi);
      PercentsLeft(s, p, pi);
    } else if pi < |p| && (p[pi] == '_' || p[pi] == s[si]) {
      MatchStep(s, p, star, mark, si, pi);
      StepsDecide(s, p, star, mark, si + 1, pi + 1);
    } else if pi < |p| && p[pi] == '%' {
      StarStep(s, p, star, mark, si, pi);
      StepsDecide(s, p, pi, si, si, pi + 1);
    } else if star != -1 {
      RetryStep(s, p, star, mark, si, pi);
      StepsDecide(s, p, star, mark + 1, mark + 1, star + 1);
    } else {
      GiveUp(s, p, si, pi);
    }
  }

  /** On texts without '%' the loop decides the pattern's meaning. (It takes a literal match
      of '%' in the text for a match of the pattern's '%'.) */
  lemma Decides(s: string, p: string)
    requires '%' !in s
    ensures Matched(s, p) <==> Like(s, p)
  {
    hide Loop, Like, From;
    Start(s, p);
    StepsDecide(s, p, -1, 0, 0, 0);
  }

  // ----- Exactly which texts the loop decides rightly

  function Blanks(n: nat): (p: string)
    ensures |p| == n && forall j :: 0 <= j < n ==> p[j] == '_'
  {
    if n == 0 then "" else Blanks(n - 1) + "_"
  }

  /** A pattern the loop gets wrong: the text's last '%' meets the pattern's. */
  function Spoiler(s: string, at: nat): string
    requires at < |s|
  {
    Blanks(at) + ("%_" + s[at + 1..])
  }

  /** Without a further '%' the loop compares character by character and runs out of text. */
  lemma {:induction false} TooLong(s: string, p: string, si: nat, pi: nat)
    requires si <= |s| && pi <= |p| && |p| - pi > |s| - si && Fixed(p, pi, |p|)
    ensures !Loop(s, p, -1, 0, si, pi)
    decreases |s| - si
  {
    assert p[pi] != '%';
    if si < |s| && (p[pi] == '_' || p[pi] == s[si]) {
      TooLong(s, p, si + 1, pi + 1);
    }
  }

  lemma {:induction false} BlanksPass(s: string, p: string, at: nat, i: nat)
    requires i <= at < |s| && at < |p| && forall j :: 0 <= j < at ==> p[j] == '_'
    ensures Loop(s, p, -1, 0, i, i) == Loop(s, p, -1, 0, at, at)
    decreases at - i
  {
    if i < at {
      BlanksPass(s, p, at, i + 1);
    }
  }

  lemma SpoilerFails(s: string, at: nat)
    requires at < |s| && s[at] == '%' && forall j :: at < j < |s| ==> s[j] != '%'
    ensures !Matched(s, Spoiler(s, at))
  {
    var p := Spoiler(s, at);
    BlanksPass(s, p, at, 0);
    assert p[at] == '%' && Fixed(p, at + 1, |p|);
    TooLong(s, p, at + 1, at + 1);
  }

  lemma {:induction false} SelfLike(s: string)
    requires '%' !in s
    ensures Like(s, s)
  {
    if s != "" {
      SelfLike(s[1..]);
    }
  }

  lemma {:induction false} BlanksLike(s: string, at: nat, tail: string, rest: string)
    requires at <= |s| && s[at..] == rest && Like(rest, tail)
    ensures Like(s, Blanks(at) + tail)
    decreases at
  {
    if at == 0 {
      assert s == rest && Blanks(0) + tail == tail;
    } else {
      var p := Blanks(at) + tail;
      assert Blanks(at) == "_" + Blanks(at - 1);
      assert p[1..] == Blanks(at - 1) + tail;
      assert s[1..][at - 1..] == rest;
      BlanksLike(s[1..], at - 1, tail, rest);
    }
  }

  lemma TailLike(rest: string, v: string)
    requires rest != "" && rest[1..] == v && Like(v, v)
    ensures Like(rest, "%_" + v)
  {
    var blank := "_" + v;
    var tail := "%_" + v;
    assert blank[1..] == v && tail[1..] == blank;
    assert Like(rest, blank);
  }

  lemma SpoilerMatches(s: string, at: nat)
    requires at < |s| && s[at] == '%' && forall j :: at < j < |s| ==> s[j] != '%'
    ensures Like(s, Spoiler(s, at))
  {
    var v, rest := s[at + 1..], s[at..];
    hide Blanks;
    SelfLike(v);
    assert rest[1..] == v;
    TailLike(rest, v);
    BlanksLike(s, at, "%_" + v, rest);
  }

  lemma {:induction false} LastPercent(s: string) returns (at: nat)
    requires '%' in s
    ensures at < |s| && s[at] == '%' && forall j :: at < j < |s| ==> s[j] != '%'
  {
    if s[|s| - 1] == '%' {
      at := |s| - 1;
    } else {
      assert s == s[..|s| - 1] + [s[|s| - 1]];
      at := LastPercent(s[..|s| - 1]);
    }
  }

  /** The loop decides a text rightly, whatever the pattern, exactly if the text has no '%'. */
  lemma RightIff(s: string)
    ensures (forall p :: Matched(s, p) == Like(s, p)) <==> '%' !in s
  {
    hide Like, Loop;
    if '%' in s {
      var at := LastPercent(s);
      SpoilerFails(s, at);
      SpoilerMatches(s, at);
    } else {
      forall p ensures Matched(s, p) == Like(s, p) {
        Decides(s, p);
      }
    }
  }
}
