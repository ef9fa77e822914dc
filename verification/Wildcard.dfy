/**
 Matching of kernel module aliases (src/init/kmod.rs).

 `WildcardMatch` is the iterative matcher with a single saved backtrack point;
 `Glob` is the recursive meaning of a pattern in which `?` stands for any one
 character and `*` for any run of characters.
 */
module Wildcard {
  import opened Options

  /** The pattern from index `i` on matches exactly the input from index `j` on. */
  predicate GlobFrom(p: string, i: nat, s: string, j: nat)
    requires i <= |p| && j <= |s|
    decreases |p| - i + |s| - j
  {
    if i == |p| then
      j == |s|
    else if p[i] == '*' then
      GlobFrom(p, i + 1, s, j) || (j < |s| && GlobFrom(p, i, s, j + 1))
    else
      j < |s| && (p[i] == '?' || p[i] == s[j]) && GlobFrom(p, i + 1, s, j + 1)
  }

  predicate Glob(p: string, s: string) {
    GlobFrom(p, 0, s, 0)
  }

  predicate StarFree(s: string, lo: nat, hi: nat)
    requires hi <= |s|
  {
    forall k :: lo <= k < hi ==> s[k] != '*'
  }

  predicate AllStars(s: string, lo: nat) {
    forall k :: lo <= k < |s| ==> s[k] == '*'
  }

  /** The input is consumed by the first `|s|` pattern characters, one each. */
  predicate Aligned(p: string, s: string) {
    |s| <= |p| && forall k :: 0 <= k < |s| ==> p[k] == '?' || p[k] == s[k]
  }

  // A star may absorb more input, so a match of a star further right is a match here.
  lemma {:induction false} StarAbsorbs(p: string, i: nat, s: string, j: nat, k: nat)
    requires i < |p| && p[i] == '*' && j <= k <= |s|
    requires GlobFrom(p, i, s, k)
    ensures GlobFrom(p, i, s, j)
    decreases k - j
  {
    if j < k {
      StarAbsorbs(p, i, s, j + 1, k);
    }
  }

  // Using up one pattern character and an equal input character is sound, even for a star.
  lemma ConsumeIsSound(p: string, i: nat, s: string, j: nat)
    requires i < |p| && j < |s| && (p[i] == '?' || p[i] == s[j])
    requires GlobFrom(p, i + 1, s, j + 1)
    ensures GlobFrom(p, i, s, j)
  {
    if p[i] == '*' {
      assert GlobFrom(p, i, s, j + 1);
    }
  }

  // A star-free stretch of the pattern consumes exactly its own length.
  lemma {:induction false} StarFreeStretch(p: string, i: nat, m: nat, s: string, j: nat)
    requires i <= m <= |p| && j <= |s| && StarFree(p, i, m)
    requires GlobFrom(p, i, s, j)
    ensures j + (m - i) <= |s| && GlobFrom(p, m, s, j + (m - i))
    decreases m - i
  {
    if i < m {
      StarFreeStretch(p, i + 1, m, s, j + 1);
    }
  }

  // What a star followed by a star-free stretch matches, with where that stretch starts.
  lemma {:induction false} StarThenStretch(p: string, star: nat, m: nat, s: string, j: nat) returns (k: nat)
    requires star < m <= |p| && p[star] == '*' && StarFree(p, star + 1, m) && j <= |s|
    requires GlobFrom(p, star, s, j)
    ensures j <= k && k + (m - star - 1) <= |s| && GlobFrom(p, m, s, k + (m - star - 1))
    decreases |s| - j
  {
    if GlobFrom(p, star + 1, s, j) {
      StarFreeStretch(p, star + 1, m, s, j);
      k := j;
    } else {
      k := StarThenStretch(p, star, m, s, j + 1);
    }
  }

  lemma {:induction false} OnlyStarsMatchNothing(p: string, i: nat, s: string)
    requires i <= |p|
    ensures GlobFrom(p, i, s, |s|) <==> AllStars(p, i)
    decreases |p| - i
  {
    if i < |p| {
      OnlyStarsMatchNothing(p, i + 1, s);
    }
  }

  /** `rows` rows of `width + 1` steps each. */
  ghost function Rows(rows: nat, width: nat): nat {
    if rows == 0 then 0 else Rows(rows - 1, width) + width + 1
  }

  lemma {:induction false} RowsGrow(rows: nat, more: nat, width: nat)
    requires rows <= more
    ensures Rows(rows, width) <= Rows(more, width)
  {
    if rows < more {
      RowsGrow(rows, more - 1, width);
    }
  }

  lemma {:induction false} RowsIsProduct(rows: nat, width: nat)
    ensures Rows(rows, width) == rows * (width + 1)
  {
    if rows > 0 {
      RowsIsProduct(rows - 1, width);
    }
  }

  lemma StepsBound(mark: nat, pi: nat, n: nat, m: nat)
    requires mark <= n && pi <= m
    ensures Rows(mark, m) + pi < (n + 1) * (m + 1)
  {
    RowsGrow(mark, n, m);
    RowsIsProduct(n + 1, m);
  }

  /** Where the matcher stands: both indices, the last star tried and the input it was last tried at. */
  datatype Cursor = Cursor(pi: nat, si: nat, star: Option<nat>, mark: nat)

  ghost predicate InRange(p: string, s: string, c: Cursor) {
    && c.pi <= |p| && c.mark <= c.si <= |s|
    && (c.star.Some? ==> c.star.value < c.pi && p[c.star.value] == '*')
  }

  /** A configuration from which the rest matches is a match of the whole. */
  ghost predicate Sound(p: string, s: string, c: Cursor)
    requires InRange(p, s, c)
  {
    && (GlobFrom(p, c.pi, s, c.si) ==> Glob(p, s))
    && (c.star.Some? && GlobFrom(p, c.star.value, s, c.mark) ==> Glob(p, s))
  }

  /** If the whole matches then the rest does, or the last star (and no earlier one) is to advance. */
  ghost predicate Complete(p: string, s: string, c: Cursor)
    requires InRange(p, s, c)
  {
    && (c.star.Some? ==> StarFree(p, c.star.value + 1, c.pi) && c.pi - c.star.value - 1 == c.si - c.mark)
    && (Glob(p, s) ==> GlobFrom(p, c.pi, s, c.si) || CanAdvance(p, s, c))
  }

  ghost predicate CanAdvance(p: string, s: string, c: Cursor)
    requires InRange(p, s, c)
  {
    c.star.Some? && c.mark < |s| && GlobFrom(p, c.star.value, s, c.mark + 1)
  }

  // The invariant of the main loop, one lemma for each branch.
  ghost predicate Inv(p: string, s: string, c: Cursor) {
    && InRange(p, s, c)
    && Sound(p, s, c)
    && (StarFree(s, 0, |s|) ==> Complete(p, s, c))
    && (Aligned(p, s) ==> c.star.None? && c.pi == c.si)
  }

  lemma LiteralKeepsInv(p: string, s: string, c: Cursor)
    requires Inv(p, s, c) && c.si < |s|
    requires c.pi < |p| && (p[c.pi] == '?' || p[c.pi] == s[c.si])
    ensures Inv(p, s, c.(pi := c.pi + 1, si := c.si + 1))
  {
    if GlobFrom(p, c.pi + 1, s, c.si + 1) {
      ConsumeIsSound(p, c.pi, s, c.si);
    }
  }

  lemma StarKeepsInv(p: string, s: string, c: Cursor)
    requires Inv(p, s, c) && c.si < |s| && c.pi < |p| && p[c.pi] == '*' && p[c.pi] != s[c.si]
    ensures Inv(p, s, Cursor(c.pi + 1, c.si, Some(c.pi), c.si))
  {
    if StarFree(s, 0, |s|) && CanAdvance(p, s, c) {
      var k := StarThenStretch(p, c.star.value, c.pi, s, c.mark + 1);
      StarAbsorbs(p, c.pi, s, c.si, k + (c.pi - c.star.value - 1));
    }
  }

  lemma RetryKeepsInv(p: string, s: string, c: Cursor)
    requires Inv(p, s, c) && c.si < |s| && c.star.Some?
    requires c.pi < |p| ==> p[c.pi] != '?' && p[c.pi] != s[c.si] && p[c.pi] != '*'
    ensures Inv(p, s, c.(pi := c.star.value + 1, si := c.mark + 1, mark := c.mark + 1))
  {
    var star := c.star.value;
    assert GlobFrom(p, star + 1, s, c.mark + 1) ==> GlobFrom(p, star, s, c.mark + 1);
    assert GlobFrom(p, star, s, c.mark + 1) ==> GlobFrom(p, star, s, c.mark);
  }

  lemma StuckIsNoMatch(p: string, s: string, c: Cursor)
    requires Inv(p, s, c) && c.si < |s| && c.star.None?
    requires c.pi < |p| ==> p[c.pi] != '?' && p[c.pi] != s[c.si] && p[c.pi] != '*'
    ensures StarFree(s, 0, |s|) ==> !Glob(p, s)
    ensures !Aligned(p, s)
  {
  }

  lemma EndDecides(p: string, s: string, c: Cursor)
    requires Inv(p, s, c) && c.si == |s|
    ensures AllStars(p, c.pi) ==> Glob(p, s)
    ensures StarFree(s, 0, |s|) && Glob(p, s) ==> AllStars(p, c.pi)
    ensures Aligned(p, s) ==> c.pi == |s|
  {
    OnlyStarsMatchNothing(p, c.pi, s);
    if StarFree(s, 0, |s|) && CanAdvance(p, s, c) {
      var k := StarThenStretch(p, c.star.value, c.pi, s, c.mark + 1);
    }
  }

  /**
   True only for inputs the pattern matches, and for all of those when the
   input holds no literal `*`.  When the input can be consumed one pattern
   character at a time the verdict depends on the rest of the pattern alone:
   a `*` that meets an equal character is used up as a plain character.
   `steps` counts the iterations of the main loop.
   */
  method WildcardMatch(pattern: string, input: string) returns (r: bool, ghost steps: nat)
    ensures r ==> Glob(pattern, input)
    ensures StarFree(input, 0, |input|) && Glob(pattern, input) ==> r
    ensures Aligned(pattern, input) ==> (r <==> AllStars(pattern, |input|))
    ensures steps < (|input| + 1) * (|pattern| + 1)
  {
    var pi: nat, si: nat := 0, 0;
    var star: Option<nat>, mark: nat := None, 0;
    steps := 0;
    ghost var c := Cursor(pi, si, star, mark);
    while si < |input|
      invariant c == Cursor(pi, si, star, mark) && Inv(pattern, input, c)
      invariant steps <= Rows(mark, |pattern|) + pi
      decreases |input| - mark, |pattern| - pi
    {
      if pi < |pattern| && (pattern[pi] == '?' || pattern[pi] == input[si]) {
        LiteralKeepsInv(pattern, input, c);
        pi := pi + 1;
        si := si + 1;
        c := c.(pi := c.pi + 1, si := c.si + 1);
      } else if pi < |pattern| && pattern[pi] == '*' {
        StarKeepsInv(pattern, input, c);
        RowsGrow(mark, si, |pattern|);
        star := Some(pi);
        pi := pi + 1;
        mark := si;
        c := Cursor(c.pi + 1, c.si, Some(c.pi), c.si);
      } else if star.Some? {
        RetryKeepsInv(pattern, input, c);
        pi := star.value + 1;
        mark := mark + 1;
        si := mark;
        c := c.(pi := c.star.value + 1, si := c.mark + 1, mark := c.mark + 1);
      } else {
        StuckIsNoMatch(pattern, input, c);
        StepsBound(mark, pi, |input|, |pattern|);
        return false, steps;
      }
      steps := steps + 1;
    }
    StepsBound(mark, pi, |input|, |pattern|);
    EndDecides(pattern, input, c);
    ghost var tail := pi;
    while pi < |pattern| && pattern[pi] == '*'
      invariant tail <= pi <= |pattern|
      invariant forall k :: tail <= k < pi ==> pattern[k] == '*'
    {
      pi := pi + 1;
    }
    r := pi == |pattern|;
  }

  lemma {:induction false} QuestionsMatch(p: string, i: nat, s: string, j: nat)
    requires i <= |p| && j <= |s| && |p| - i == |s| - j
    requires forall k :: i <= k < |p| ==> p[k] == '?' || p[k] == s[k - i + j]
    requires StarFree(p, i, |p|)
    ensures GlobFrom(p, i, s, j)
    decreases |p| - i
  {
    if i < |p| {
      QuestionsMatch(p, i + 1, s, j + 1);
    }
  }

  lemma {:induction false} LiteralPrefix(p: string, i: nat, m: nat, s: string)
    requires i <= m <= |p| && m <= |s| && StarFree(p, i, m)
    requires forall k :: i <= k < m ==> p[k] == s[k]
    requires GlobFrom(p, m, s, m)
    ensures GlobFrom(p, i, s, i)
    decreases m - i
  {
    if i < m {
      LiteralPrefix(p, i + 1, m, s);
    }
  }

  /**
   The star-free condition on the input is exact: for every input that holds a
   `*` there is a pattern that matches it and that the matcher rejects.
   */
  method RejectedMatch(input: string) returns (pattern: string, r: bool)
    requires exists k :: 0 <= k < |input| && input[k] == '*'
    ensures Glob(pattern, input) && !r
  {
    var k := 0;
    while input[k] != '*'
      invariant k < |input| && StarFree(input, 0, k)
      invariant exists m :: k <= m < |input| && input[m] == '*'
      decreases |input| - k
    {
      k := k + 1;
    }
    pattern := input[..k] + "*" + seq(|input| - k, _ => '?');
    assert GlobFrom(pattern, k, input, k) by {
      QuestionsMatch(pattern, k + 1, input, k);
    }
    LiteralPrefix(pattern, 0, k, input);
    ghost var steps;
    assert Aligned(pattern, input);
    assert pattern[|input|] == '?';
    r, steps := WildcardMatch(pattern, input);
  }
}
