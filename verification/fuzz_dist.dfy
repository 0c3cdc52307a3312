/**
 The compiled tester `Lab1/FazzingTest/dist/main.js`. It shares
 `getNextWords` and `canReachBFS` with the TypeScript version (modelled once,
 in `Rewriting` and `Reachability`) and `T'` (identical to `FuzzSrc.TPrime`),
 but has its own `T`, a random step that never rewrites at position 0, and a
 walk bounded by a step count.
 */
module FuzzDist {
  import opened Words
  import opened Rewriting
  import opened Reachability
  import opened TwoStage
  import FuzzSrc

  /** The rule set `T` of the compiled file. */
  const T: Srs := [
    Rule("baaa", "aaab"),
    Rule("aabb", "abab"),
    Rule("aaab", "ab"),
    Rule("aa", "bab"),
    Rule("bbb", "b")
  ]

  /** The number of random steps `runEquivalenceTest` asks for. */
  const TrialSteps: nat := 15

  /**
   `applyRandomRule` as written: after choosing an occurrence it tests
   `if (!randomPos) return word;`, which is also true for position 0, so an
   occurrence at the start of the word is never rewritten.
   */
  function ApplyRandomRule(srs: Srs, w: Word, ri: nat, pi: nat): (v: Word)
    requires ValidChoice(srs, w, ri, pi)
    ensures Irreducible(srs, w) ==> v == w
    ensures v == w || v in NextWords(srs, w)
    ensures var o := ChooseOccurrence(srs, w, ri, pi); o.Some? && o.value.pos == 0 ==> v == w
    ensures var o := ChooseOccurrence(srs, w, ri, pi); o.Some? && o.value.pos > 0 ==> v in NextWords(srs, w)
  {
    match ChooseOccurrence(srs, w, ri, pi)
    case None => w
    case Some(o) =>
      if o.pos == 0 then w
      else
        ChosenIsSuccessor(srs, w, ri, pi);
        Apply(w, o.rule, o.pos)
  }

  /** One step of the walk: `applyRandomRule` on the choice a draw reduces to. */
  function DrawStep(srs: Srs, w: Word, d: Draw): (v: Word)
    ensures v == w || v in NextWords(srs, w)
  {
    var c := DrawChoice(srs, w, d);
    ApplyRandomRule(srs, w, c.0, c.1)
  }

  /**
   `applyRandomSequence(word, srs, steps)`: at most `steps` random steps,
   stopping at the first step that returns its argument.
   */
  function ApplyRandomSequence(srs: Srs, w: Word, steps: nat, draws: seq<Draw>): (v: Word)
    requires |draws| >= steps
    ensures Reachable(srs, w, v, steps)
    decreases steps
  {
    if steps == 0 then w
    else
      var next := DrawStep(srs, w, draws[0]);
      if next == w then w
      else
        var v := ApplyRandomSequence(srs, next, steps - 1, draws[1..]);
        assert next in NextOf(srs)(w);
        v
  }

  /**
   The loop of `applyRandomSequence` over an arbitrary step function: at most
   `steps` steps, stopping at the first one that returns its argument.
   */
  function Walk(step: (Word, Draw) -> Word, w: Word, steps: nat, draws: seq<Draw>): Word
    requires |draws| >= steps
    decreases steps
  {
    if steps == 0 then w
    else
      var next := step(w, draws[0]);
      if next == w then w else Walk(step, next, steps - 1, draws[1..])
  }

  function DrawStepOf(srs: Srs): (Word, Draw) -> Word
  {
    (u: Word, d: Draw) => DrawStep(srs, u, d)
  }

  lemma {:induction false} ApplyRandomSequenceIsWalk(srs: Srs, w: Word, steps: nat, draws: seq<Draw>)
    requires |draws| >= steps
    ensures ApplyRandomSequence(srs, w, steps, draws) == Walk(DrawStepOf(srs), w, steps, draws)
    decreases steps
  {
    if steps > 0 {
      ApplyRandomSequenceIsWalk(srs, DrawStep(srs, w, draws[0]), steps - 1, draws[1..]);
    }
  }

  lemma {:induction false} WalkStopsAtNoOp(step: (Word, Draw) -> Word, w: Word, k: nat, steps: nat, draws: seq<Draw>)
    requires |draws| >= steps > k
    requires var u := Walk(step, w, k, draws); step(u, draws[k]) == u
    ensures Walk(step, w, steps, draws) == Walk(step, w, k, draws)
    decreases k
  {
    if k > 0 && step(w, draws[0]) != w {
      assert draws[1..][k - 1] == draws[k];
      WalkStopsAtNoOp(step, step(w, draws[0]), k - 1, steps - 1, draws[1..]);
    }
  }

  lemma {:induction false} WalkSameDraws(step: (Word, Draw) -> Word, w: Word, steps: nat, draws: seq<Draw>, more: seq<Draw>)
    requires |draws| >= steps && |more| >= steps
    requires forall i :: 0 <= i < steps ==> more[i] == draws[i]
    ensures Walk(step, w, steps, more) == Walk(step, w, steps, draws)
    decreases steps
  {
    if steps > 0 {
      assert forall i :: 0 <= i < steps - 1 ==> more[1..][i] == draws[1..][i];
      WalkSameDraws(step, step(w, draws[0]), steps - 1, draws[1..], more[1..]);
    }
  }

  /**
   The `break` on a no-op step: if draw `k` leaves the word reached after `k`
   steps unchanged, every longer walk ends at that word.
   */
  lemma StopsAtNoOp(srs: Srs, w: Word, k: nat, steps: nat, draws: seq<Draw>)
    requires |draws| >= steps > k
    requires var u := ApplyRandomSequence(srs, w, k, draws); DrawStep(srs, u, draws[k]) == u
    ensures ApplyRandomSequence(srs, w, steps, draws) == ApplyRandomSequence(srs, w, k, draws)
  {
    ApplyRandomSequenceIsWalk(srs, w, k, draws);
    ApplyRandomSequenceIsWalk(srs, w, steps, draws);
    WalkStopsAtNoOp(DrawStepOf(srs), w, k, steps, draws);
  }

  /** After a no-op at draw `k`, the draws that follow it are never consulted. */
  lemma NoOpIgnoresLaterDraws(srs: Srs, w: Word, k: nat, steps: nat, draws: seq<Draw>, more: seq<Draw>)
    requires |draws| >= steps > k
    requires var u := ApplyRandomSequence(srs, w, k, draws); DrawStep(srs, u, draws[k]) == u
    requires |more| >= steps && forall i :: 0 <= i <= k ==> more[i] == draws[i]
    ensures ApplyRandomSequence(srs, w, steps, more) == ApplyRandomSequence(srs, w, k, draws)
  {
    ApplyRandomSequenceIsWalk(srs, w, k, draws);
    ApplyRandomSequenceIsWalk(srs, w, k, more);
    ApplyRandomSequenceIsWalk(srs, w, steps, more);
    WalkSameDraws(DrawStepOf(srs), w, k, draws, more);
    WalkStopsAtNoOp(DrawStepOf(srs), w, k, steps, more);
  }

  /**
   The result of a walk is found by `canReachBFS` from the start word with
   the walk's step count as depth bound.
   */
  lemma WalkIsReachable(srs: Srs, w: Word, steps: nat, draws: seq<Draw>)
    requires |draws| >= steps
    ensures CanReachBfs(srs, w, ApplyRandomSequence(srs, w, steps, draws), steps)
  {
    CanReachBfsCorrect(srs, w, ApplyRandomSequence(srs, w, steps, draws), steps);
  }

  /** Outcome of one `runEquivalenceTest` (the `details` text is presentation only). */
  datatype Trial = Trial(success: bool, startWord: Word, transformedWord: Word)

  /**
   `runEquivalenceTest` for a given start word: 15 random steps of `T`, then a
   search in `T'` between the start word and the result, both ways.
   */
  function RunEquivalenceTest(startWord: Word, draws: seq<Draw>): (r: Trial)
    requires |draws| >= TrialSteps
    ensures r.startWord == startWord
    ensures Reachable(T, startWord, r.transformedWord, TrialSteps)
  {
    var transformedWord := ApplyRandomSequence(T, startWord, TrialSteps, draws);
    var canReachForward := CanReachBfs(FuzzSrc.TPrime, startWord, transformedWord, FuzzSrc.DefaultMaxDepth);
    var canReachBackward := CanReachBfs(FuzzSrc.TPrime, transformedWord, startWord, FuzzSrc.DefaultMaxDepth);
    Trial(canReachForward || canReachBackward, startWord, transformedWord)
  }

  /** `success` is mutual reachability, in at least one direction, within 100 steps of `T'`. */
  lemma EquivalenceSuccessIff(startWord: Word, draws: seq<Draw>)
    requires |draws| >= TrialSteps
    ensures var r := RunEquivalenceTest(startWord, draws);
            r.success <==> (Reachable(FuzzSrc.TPrime, startWord, r.transformedWord, 100) ||
                            Reachable(FuzzSrc.TPrime, r.transformedWord, startWord, 100))
  {
    var r := RunEquivalenceTest(startWord, draws);
    CanReachBfsCorrect(FuzzSrc.TPrime, startWord, r.transformedWord, FuzzSrc.DefaultMaxDepth);
    CanReachBfsCorrect(FuzzSrc.TPrime, r.transformedWord, startWord, FuzzSrc.DefaultMaxDepth);
  }

  /**
   The position-0 guard in action: in `bbb` only `bbb -> b` applies, and only
   at position 0, so every walk of the compiled tester stays at the reducible
   word `bbb`, whereas the TypeScript step rewrites it to `b`.
   */
  lemma PositionZeroStalls(steps: nat, draws: seq<Draw>)
    requires |draws| >= steps
    ensures NextWords(T, "bbb") == ["b"]
    ensures ApplyRandomRule(T, "bbb", 0, 0) == "bbb"
    ensures ApplyRandomSequence(T, "bbb", steps, draws) == "bbb"
    ensures FuzzSrc.AppRandRule(T, "bbb", 0, 0) == "b"
  {
    SuccessorsOfBbb();
    assert Dedup(["b"]) == ["b"];
    BbbChoice();
    if steps > 0 {
      BbbDraw(draws[0]);
      assert DrawStep(T, "bbb", draws[0]) == "bbb";
    }
  }

  /** The only choice in `bbb` is rule `bbb -> b` at position 0. */
  lemma BbbChoice()
    ensures ValidChoice(T, "bbb", 0, 0)
    ensures ChooseOccurrence(T, "bbb", 0, 0) == Some(Occurrence(T[4], 0))
  {
    OnlyBbbApplies();
    BbbOccursOnlyAtZero();
  }

  lemma BbbDraw(d: Draw)
    ensures DrawChoice(T, "bbb", d) == (0, 0)
  {
    OnlyBbbApplies();
    BbbOccursOnlyAtZero();
    assert d.rule % 1 == 0 && d.pos % 1 == 0;
    assert |Applicable(T, "bbb")| == 1;
    assert Applicable(T, "bbb")[0].pattern == "bbb";
  }

  lemma OnlyBbbApplies()
    ensures Applicable(T, "bbb") == [T[4]]
  {
    var w: Word := "bbb";
    assert Contains(w, T[4].pattern) by {
      assert OccursAt(w, T[4].pattern, 0);
    }
    ApplicableSkips(T[3..], w, 0);
    ApplicableSkips(T[2..], w, 0);
    ApplicableSkips(T[1..], w, 0);
    ApplicableSkips(T, w, 1);
  }

  /** A rule with an `a` in its pattern does not apply to `bbb`. */
  lemma ApplicableSkips(srs: Srs, w: Word, m: nat)
    requires w == "bbb" && |srs| > 0
    requires m < |srs[0].pattern| && srs[0].pattern[m] == 'a'
    ensures Applicable(srs, w) == Applicable(srs[1..], w)
  {
    AbsentSymbol(w, srs[0].pattern, m);
  }

  lemma BbbOccursOnlyAtZero()
    ensures Positions("bbb", "bbb") == [0]
  {
    var ps := Positions("bbb", "bbb");
    assert OccursAt("bbb", "bbb", 0);
    assert ps[0] == 0;
    assert |ps| == 1;
  }

  lemma SuccessorsOfBbb()
    ensures Successors(T, "bbb") == ["b"]
  {
    var w: Word := "bbb";
    BbbOccursOnlyAtZero();
    AbsentSymbol(w, T[0].pattern, 1);
    AbsentSymbol(w, T[1].pattern, 0);
    AbsentSymbol(w, T[2].pattern, 0);
    AbsentSymbol(w, T[3].pattern, 0);
    assert Apply(w, T[4], 0) == "b";
    assert Successors(T[4..], w) == ["b"];
    assert T[3..][1..] == T[4..];
    assert Successors(T[3..], w) == ["b"];
    assert T[2..][1..] == T[3..];
    assert Successors(T[2..], w) == ["b"];
    assert T[1..][1..] == T[2..];
    assert Successors(T[1..], w) == ["b"];
  }
}
