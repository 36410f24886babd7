/** Guess evaluation of the word game: the two-pass, duplicate-aware comparison
    of a five-letter guess with the secret word (`_check_string` in api.py).

    The loops of the source are described twice here: `Tally`, `ExactPass` and
    `WrongPass` follow them step by step as folds over a prefix, and
    `ExactSpots`/`WrongSpots` state the rule they implement position by
    position. `EvaluateMatchesRule` connects the two, and `CheckString` is the
    loop-and-dictionary algorithm itself, proved equal to `Evaluate`. */
module Evaluator {

  /** Letters in a secret word and in an accepted guess. */
  const WordLength: nat := 5

  /** The placeholder that marks "nothing at this position" in a pattern. */
  const Blank: char := '?'

  /** The pattern both passes start from. */
  const Blanks: string := "?????"

  /** Lower-casing of one character; only 'A'..'Z' are mapped. */
  function Lower(c: char): char
  {
    if 'A' <= c <= 'Z' then (c as int - 'A' as int + 'a' as int) as char else c
  }

  /** `str.lower()` on a whole string, character by character. */
  function LowerStr(s: string): (r: string)
    ensures |r| == |s|
    ensures forall i :: 0 <= i < |s| ==> r[i] == Lower(s[i])
  {
    if s == [] then [] else [Lower(s[0])] + LowerStr(s[1..])
  }

  /** The inner helper `replace_idx`: `s` with position `idx` set to `letter`. */
  function ReplaceIdx(s: string, idx: nat, letter: char): (r: string)
    requires idx < |s|
    ensures |r| == |s| && r[idx] == letter
    ensures forall j :: 0 <= j < |s| && j != idx ==> r[j] == s[j]
  {
    s[..idx] + [letter] + s[idx + 1..]
  }

  /** `d.get(c, 0)` on the letter-count dictionary. */
  function Get(m: map<char, int>, c: char): int
  {
    if c in m then m[c] else 0
  }

  function Min(a: int, b: int): int
  {
    if a <= b then a else b
  }

  /** The letter-count dictionary `goal_cnt` built from the letters of `goal`. */
  function Tally(goal: string): map<char, int>
  {
    if goal == [] then map[]
    else
      var m := Tally(goal[..|goal| - 1]);
      var c := goal[|goal| - 1];
      m[c := Get(m, c) + 1]
  }

  /** Positions before `n` where guess and goal both hold `c`. */
  function Greens(g: string, goal: string, n: nat, c: char): nat
    requires n <= |g| && n <= |goal|
  {
    if n == 0 then 0
    else Greens(g, goal, n - 1, c) + if g[n - 1] == c && goal[n - 1] == c then 1 else 0
  }

  /** Positions before `n` where the guess holds `c` and the goal does not. */
  function Misplaced(g: string, goal: string, n: nat, c: char): nat
    requires n <= |g| && n <= |goal|
  {
    if n == 0 then 0
    else Misplaced(g, goal, n - 1, c) + if g[n - 1] == c && goal[n - 1] != c then 1 else 0
  }

  /** Occurrences of `c` in the goal that exact matches leave unreserved. */
  function Spare(g: string, goal: string, c: char): int
    requires |g| == WordLength && |goal| == WordLength
  {
    multiset(goal)[c] - Greens(g, goal, |g|, c)
  }

  /** The pattern built so far and what is left of the letter counts. */
  datatype Scan = Scan(pattern: string, budget: map<char, int>)

  /** The first pass after it has looked at positions 0 .. n-1: exact
      matches are copied into the pattern and taken off the budget. */
  function ExactPass(g: string, goal: string, n: nat): (s: Scan)
    requires |g| == WordLength && |goal| == WordLength && n <= WordLength
    ensures |s.pattern| == WordLength
  {
    if n == 0 then Scan(Blanks, Tally(goal))
    else
      var prev := ExactPass(g, goal, n - 1);
      var i := n - 1;
      if g[i] == goal[i] then
        Scan(ReplaceIdx(prev.pattern, i, g[i]), prev.budget[g[i] := Get(prev.budget, g[i]) - 1])
      else prev
  }

  /** The second pass after it has looked at positions 0 .. n-1: a letter
      that is not an exact match is marked while its count is positive. */
  function WrongPass(g: string, goal: string, n: nat): (s: Scan)
    requires |g| == WordLength && |goal| == WordLength && n <= WordLength
    ensures |s.pattern| == WordLength
  {
    if n == 0 then Scan(Blanks, ExactPass(g, goal, |g|).budget)
    else
      var prev := WrongPass(g, goal, n - 1);
      var i := n - 1;
      if g[i] != goal[i] && Get(prev.budget, g[i]) > 0 then
        Scan(ReplaceIdx(prev.pattern, i, g[i]), prev.budget[g[i] := Get(prev.budget, g[i]) - 1])
      else prev
  }

  /** The whole of `_check_string`: lower-case the guess, answer an exact
      guess at once, otherwise run the two passes. */
  function Evaluate(guess: string, goal: string): (string, string)
    requires |guess| == WordLength && |goal| == WordLength
  {
    var g := LowerStr(guess);
    if g == goal then (goal, Blanks)
    else (ExactPass(g, goal, |g|).pattern, WrongPass(g, goal, |g|).pattern)
  }

  // ---------------------------------------------------------------------------
  // The rule the passes implement, stated position by position
  // ---------------------------------------------------------------------------

  /** Position `i` is a wrong-spot mark: the letter is not an exact match, and
      the exact matches of that letter plus its earlier misplaced occurrences
      do not yet use up its count in the goal. */
  predicate WrongSpot(g: string, goal: string, i: nat)
    requires |g| == WordLength && |goal| == WordLength && i < WordLength
  {
    g[i] != goal[i] && Misplaced(g, goal, i, g[i]) < Spare(g, goal, g[i])
  }

  function ExactSpots(g: string, goal: string): string
    requires |g| == WordLength && |goal| == WordLength
  {
    seq(WordLength, i requires 0 <= i < WordLength => if g[i] == goal[i] then g[i] else Blank)
  }

  function WrongSpots(g: string, goal: string): string
    requires |g| == WordLength && |goal| == WordLength
  {
    seq(WordLength, i requires 0 <= i < WordLength => if WrongSpot(g, goal, i) then g[i] else Blank)
  }

  // ---------------------------------------------------------------------------
  // What each pass does, step by step
  // ---------------------------------------------------------------------------

  lemma BlanksAreBlank()
    ensures |Blanks| == WordLength
    ensures forall i :: 0 <= i < WordLength ==> Blanks[i] == Blank
  {
  }

  lemma BlanksHoldNoLetter(c: char)
    requires c != Blank
    ensures multiset(Blanks)[c] == 0
  {
    assert c !in Blanks;
  }

  /** Writing `x` over a placeholder adds one `x` to the pattern and leaves
      the number of every other letter alone. */
  lemma ReplaceBlankCounts(p: string, i: nat, x: char, c: char)
    requires i < |p| && p[i] == Blank && c != Blank
    ensures multiset(ReplaceIdx(p, i, x))[c] == multiset(p)[c] + if x == c then 1 else 0
  {
    assert p == p[..i] + [p[i]] + p[i + 1..];
    assert ReplaceIdx(p, i, x) == p[..i] + [x] + p[i + 1..];
  }

  /** The dictionary holds, for every letter, its number of occurrences. */
  lemma {:induction false} TallyCounts(goal: string, c: char)
    ensures Get(Tally(goal), c) == multiset(goal)[c]
  {
    if goal != [] {
      var n := |goal|;
      TallyCounts(goal[..n - 1], c);
      assert goal == goal[..n - 1] + [goal[n - 1]];
    }
  }

  /** After `n` positions the first pass has copied exactly the exact
      matches among them into the pattern. */
  lemma {:induction false} ExactPattern(g: string, goal: string, n: nat)
    requires |g| == WordLength && |goal| == WordLength && n <= WordLength
    ensures forall i :: 0 <= i < WordLength ==>
      ExactPass(g, goal, n).pattern[i] == if i < n && g[i] == goal[i] then g[i] else Blank
  {
    if n == 0 {
      BlanksAreBlank();
    } else {
      ExactPattern(g, goal, n - 1);
    }
  }

  /** During the first pass a letter's count is its occurrences in the goal
      less the exact matches reserved so far, and it never drops below the
      occurrences still to be scanned: it never goes negative, and an exact
      match always finds a positive count to decrement. */
  lemma {:induction false} ExactBudget(g: string, goal: string, n: nat, c: char)
    requires |g| == WordLength && |goal| == WordLength && n <= WordLength
    ensures Get(ExactPass(g, goal, n).budget, c) == multiset(goal)[c] - Greens(g, goal, n, c)
    ensures Get(ExactPass(g, goal, n).budget, c) >= multiset(goal[n..])[c]
  {
    if n == 0 {
      TallyCounts(goal, c);
      assert goal[0..] == goal;
    } else {
      ExactBudget(g, goal, n - 1, c);
      assert goal[n - 1..] == [goal[n - 1]] + goal[n..];
    }
  }

  /** An exact match still finds its letter in the dictionary with a
      positive count, so the first pass never looks up a missing key. */
  lemma ExactMatchIsCounted(g: string, goal: string, i: nat)
    requires |g| == WordLength && |goal| == WordLength && i < WordLength && g[i] == goal[i]
    ensures g[i] in ExactPass(g, goal, i).budget && ExactPass(g, goal, i).budget[g[i]] > 0
  {
    ExactBudget(g, goal, i, g[i]);
    assert goal[i..] == [goal[i]] + goal[i + 1..];
  }

  /** The first pass marks each letter as often as it is an exact match. */
  lemma {:induction false} ExactCounts(g: string, goal: string, n: nat, c: char)
    requires |g| == WordLength && |goal| == WordLength && n <= WordLength && c != Blank
    ensures multiset(ExactPass(g, goal, n).pattern)[c] == Greens(g, goal, n, c)
  {
    if n == 0 {
      BlanksHoldNoLetter(c);
    } else {
      var i := n - 1;
      ExactCounts(g, goal, i, c);
      ExactPattern(g, goal, i);
      if g[i] == goal[i] {
        ReplaceBlankCounts(ExactPass(g, goal, i).pattern, i, g[i], c);
      }
    }
  }

  /** The unreserved occurrences of a letter are never negative. */
  lemma SpareIsNatural(g: string, goal: string, c: char)
    requires |g| == WordLength && |goal| == WordLength
    ensures Spare(g, goal, c) >= 0
    ensures Get(ExactPass(g, goal, |g|).budget, c) == Spare(g, goal, c)
  {
    ExactBudget(g, goal, |g|, c);
    assert goal[|g|..] == [];
  }

  /** During the second pass a letter's count has been spent on as many of
      its misplaced occurrences as the unreserved occurrences could pay for. */
  lemma {:induction false} WrongBudget(g: string, goal: string, n: nat, c: char)
    requires |g| == WordLength && |goal| == WordLength && n <= WordLength
    ensures Get(WrongPass(g, goal, n).budget, c) == Spare(g, goal, c) - Min(Misplaced(g, goal, n, c), Spare(g, goal, c))
  {
    SpareIsNatural(g, goal, c);
    if n > 0 {
      WrongBudget(g, goal, n - 1, c);
    }
  }

  /** After `n` positions the second pass has marked exactly the wrong spots
      among them. */
  lemma {:induction false} WrongPattern(g: string, goal: string, n: nat)
    requires |g| == WordLength && |goal| == WordLength && n <= WordLength
    ensures forall i :: 0 <= i < WordLength ==>
      WrongPass(g, goal, n).pattern[i] == if i < n && WrongSpot(g, goal, i) then g[i] else Blank
  {
    if n == 0 {
      BlanksAreBlank();
    } else {
      var i := n - 1;
      WrongPattern(g, goal, i);
      WrongBudget(g, goal, i, g[i]);
      SpareIsNatural(g, goal, g[i]);
    }
  }

  /** The second pass marks each letter as often as the budget allows. */
  lemma {:induction false} WrongCounts(g: string, goal: string, n: nat, c: char)
    requires |g| == WordLength && |goal| == WordLength && n <= WordLength && c != Blank
    ensures multiset(WrongPass(g, goal, n).pattern)[c] == Min(Misplaced(g, goal, n, c), Spare(g, goal, c))
  {
    SpareIsNatural(g, goal, c);
    if n == 0 {
      BlanksHoldNoLetter(c);
    } else {
      var i := n - 1;
      WrongCounts(g, goal, i, c);
      WrongPattern(g, goal, i);
      WrongBudget(g, goal, i, c);
      if g[i] != goal[i] && Get(WrongPass(g, goal, i).budget, g[i]) > 0 {
        ReplaceBlankCounts(WrongPass(g, goal, i).pattern, i, g[i], c);
      }
    }
  }

  // ---------------------------------------------------------------------------
  // What the evaluator returns
  // ---------------------------------------------------------------------------

  /** The early return for an exact guess gives what the two passes would. */
  lemma ShortcutAgrees(guess: string, goal: string)
    requires |guess| == WordLength && |goal| == WordLength
    ensures var g := LowerStr(guess);
      Evaluate(guess, goal) == (ExactPass(g, goal, |g|).pattern, WrongPass(g, goal, |g|).pattern)
  {
    var g := LowerStr(guess);
    if g == goal {
      ExactPattern(g, goal, |g|);
      WrongPattern(g, goal, |g|);
      BlanksAreBlank();
      assert ExactPass(g, goal, |g|).pattern == goal;
      assert WrongPass(g, goal, |g|).pattern == Blanks;
    }
  }

  /** The evaluator is the position-by-position rule: a correct spot exactly
      where the lower-cased guess agrees with the goal, a wrong spot where
      `WrongSpot` holds, and the placeholder everywhere else. */
  lemma EvaluateMatchesRule(guess: string, goal: string)
    requires |guess| == WordLength && |goal| == WordLength
    ensures var g := LowerStr(guess);
      Evaluate(guess, goal) == (ExactSpots(g, goal), WrongSpots(g, goal))
  {
    var g := LowerStr(guess);
    ShortcutAgrees(guess, goal);
    FirstPassIsRule(g, goal);
    SecondPassIsRule(g, goal);
  }

  lemma FirstPassIsRule(g: string, goal: string)
    requires |g| == WordLength && |goal| == WordLength
    ensures ExactPass(g, goal, |g|).pattern == ExactSpots(g, goal)
  {
    ExactPattern(g, goal, |g|);
  }

  lemma SecondPassIsRule(g: string, goal: string)
    requires |g| == WordLength && |goal| == WordLength
    ensures WrongPass(g, goal, |g|).pattern == WrongSpots(g, goal)
  {
    WrongPattern(g, goal, |g|);
  }

  /** Both patterns have five positions, each the placeholder or the
      lower-cased guess letter there; a correct spot is marked exactly where
      the lower-cased guess equals the goal; no position is marked twice. */
  lemma PatternShape(guess: string, goal: string)
    requires |guess| == WordLength && |goal| == WordLength
    ensures var (correct, incorrect) := Evaluate(guess, goal);
      var g := LowerStr(guess);
      && |correct| == WordLength && |incorrect| == WordLength
      && (forall i :: 0 <= i < WordLength ==> correct[i] == if g[i] == goal[i] then g[i] else Blank)
      && (forall i :: 0 <= i < WordLength ==> incorrect[i] == Blank || incorrect[i] == g[i])
      && (forall i :: 0 <= i < WordLength && incorrect[i] != Blank ==> g[i] != goal[i])
      && (forall i :: 0 <= i < WordLength && correct[i] != Blank ==> incorrect[i] == Blank)
  {
    EvaluateMatchesRule(guess, goal);
  }

  /** When the goal holds no placeholder, every position is a correct spot
      exactly when the guess is the goal. */
  lemma AllCorrectIsEqual(g: string, goal: string)
    requires |g| == WordLength && |goal| == WordLength && Blank !in goal
    ensures ExactSpots(g, goal) == goal <==> g == goal
  {
    var correct := ExactSpots(g, goal);
    if correct == goal {
      forall i | 0 <= i < WordLength ensures g[i] == goal[i] {
        assert correct[i] == goal[i] && goal[i] != Blank;
      }
      assert g == goal;
    }
    if g == goal {
      assert forall i :: 0 <= i < WordLength ==> correct[i] == goal[i];
    }
  }

  /** Duplicate letters: for every letter, the marks in both patterns
      together never exceed its occurrences in the goal, and the wrong-spot
      marks are as many as the misplaced occurrences the unreserved
      occurrences can pay for. */
  lemma LetterBudget(guess: string, goal: string, c: char)
    requires |guess| == WordLength && |goal| == WordLength && c != Blank
    ensures var (correct, incorrect) := Evaluate(guess, goal);
      var g := LowerStr(guess);
      && multiset(correct)[c] + multiset(incorrect)[c] <= multiset(goal)[c]
      && multiset(correct)[c] == Greens(g, goal, |g|, c)
      && multiset(incorrect)[c] == Min(Misplaced(g, goal, |g|, c), multiset(goal)[c] - multiset(correct)[c])
  {
    var g := LowerStr(guess);
    ShortcutAgrees(guess, goal);
    ExactCounts(g, goal, |g|, c);
    WrongCounts(g, goal, |g|, c);
    SpareIsNatural(g, goal, c);
  }

  /** The duplicate-letter case of the source's comment: only the second 'l'
      of "hello" counts, as a correct spot, and the 'o' is a wrong spot. */
  lemma HelloWorld()
    ensures Evaluate("hello", "world") == ("???l?", "????o")
  {
    var g, goal := "hello", "world";
    HelloIsLowerCase();
    EvaluateMatchesRule(g, goal);
    HelloWorldExact();
    HelloWorldWrong();
  }

  lemma HelloIsLowerCase()
    ensures LowerStr("hello") == "hello"
  {
    var s := LowerStr("hello");
    assert s[0] == 'h' && s[1] == 'e' && s[2] == 'l' && s[3] == 'l' && s[4] == 'o';
  }

  lemma HelloWorldExact()
    ensures ExactSpots("hello", "world") == "???l?"
  {
  }

  lemma HelloWorldWrong()
    ensures WrongSpots("hello", "world") == "????o"
  {
    var g, goal := "hello", "world";
    HelloWorldSpare();
    assert !WrongSpot(g, goal, 0) && !WrongSpot(g, goal, 1) && !WrongSpot(g, goal, 2);
    assert !WrongSpot(g, goal, 3) && WrongSpot(g, goal, 4);
  }

  /** Of the letters of "hello", only the 'o' of "world" is left unreserved. */
  lemma HelloWorldSpare()
    ensures Spare("hello", "world", 'h') == 0 && Spare("hello", "world", 'e') == 0
    ensures Spare("hello", "world", 'l') == 0 && Spare("hello", "world", 'o') == 1
  {
    var g, goal := "hello", "world";
    WorldLetters();
    assert Greens(g, goal, 5, 'h') == 0 && Greens(g, goal, 5, 'e') == 0;
    assert Greens(g, goal, 5, 'l') == 1 && Greens(g, goal, 5, 'o') == 0;
  }

  lemma WorldLetters()
    ensures multiset("world") == multiset{'w', 'o', 'r', 'l', 'd'}
  {
    assert "world" == ['w'] + ['o'] + ['r'] + ['l'] + ['d'];
  }

  // ---------------------------------------------------------------------------
  // The algorithm
  // ---------------------------------------------------------------------------

  /** `_check_string`: builds the letter-count dictionary, then the two passes
      over the lower-cased guess, exactly as the rule says. */
  method CheckString(guess: string, goal: string) returns (correct: string, incorrect: string)
    requires |guess| == WordLength && |goal| == WordLength
    ensures (correct, incorrect) == Evaluate(guess, goal)
  {
    var g := LowerStr(guess);
    if g == goal {
      return goal, Blanks;
    }

    var count: map<char, int> := map[];
    for k := 0 to |goal|
      invariant count == Tally(goal[..k])
    {
      assert goal[..k + 1][..k] == goal[..k];
      count := count[goal[k] := Get(count, goal[k]) + 1];
    }
    assert goal[..|goal|] == goal;

    correct := Blanks;
    for i := 0 to |g|
      invariant Scan(correct, count) == ExactPass(g, goal, i)
    {
      if g[i] == goal[i] {
        correct := ReplaceIdx(correct, i, g[i]);
        ExactMatchIsCounted(g, goal, i);
        count := count[g[i] := count[g[i]] - 1];
      }
    }

    incorrect := Blanks;
    for i := 0 to |g|
      invariant Scan(incorrect, count) == WrongPass(g, goal, i)
    {
      if g[i] != goal[i] && Get(count, g[i]) > 0 {
        incorrect := ReplaceIdx(incorrect, i, g[i]);
        count := count[g[i] := count[g[i]] - 1];
      }
    }
  }
}
