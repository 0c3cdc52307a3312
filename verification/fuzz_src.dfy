/**
 The randomized equivalence tester of `Lab1/FazzingTest/src/main.ts`: the
 rule sets `T` and `T'`, the random step `appRandRule`, the walk to a
 fixpoint `appRandSequence`, and the success rule of `runEquivalenceTest`.
 */
module FuzzSrc {
  import opened Words
  import opened Rewriting
  import opened Reachability
  import opened TwoStage

  /** The original rule set `T`. */
  const T: Srs := [
    Rule("baaa", "aaab"),
    Rule("abab", "aabb"),
    Rule("aaab", "ab"),
    Rule("bab", "aa"),
    Rule("bbb", "b")
  ]

  /** The completed rule set `T'`. */
  const TPrime: Srs := [
    Rule("bbb", "b"),
    Rule("bab", "aa"),
    Rule("aaa", "aa"),
    Rule("aab", "ab"),
    Rule("aba", "ab"),
    Rule("abb", "aa"),
    Rule("baa", "ab")
  ]

  /** The default `maxDepth` of `canReachBFS`. */
  const DefaultMaxDepth: nat := 100

  lemma TablesHaveNoIdleRules()
    ensures NoIdleRules(T) && NoIdleRules(TPrime)
  {
  }

  /** Every rule of `T'` shortens the word; `T` does not (`baaa -> aaab` keeps the length). */
  lemma TPrimeShortens()
    ensures Shortening(TPrime)
    ensures !Shortening(T)
  {
    assert |T[0].replacement| == |T[0].pattern|;
  }

  /**
   `appRandRule`: the word itself when no rule applies, otherwise the rewrite
   of the chosen applicable rule at the chosen one of its positions
   (position 0 included).
   */
  function AppRandRule(srs: Srs, w: Word, ri: nat, pi: nat): (v: Word)
    requires ValidChoice(srs, w, ri, pi)
    ensures Irreducible(srs, w) ==> v == w
    ensures !Irreducible(srs, w) ==> v in NextWords(srs, w)
  {
    match ChooseOccurrence(srs, w, ri, pi)
    case None => w
    case Some(o) =>
      ChosenIsSuccessor(srs, w, ri, pi);
      Apply(w, o.rule, o.pos)
  }

  /** Every one-step successor, at whatever position, is a possible outcome of `appRandRule`. */
  lemma AppRandRuleReachesEverySuccessor(srs: Srs, w: Word, v: Word)
    requires v in NextWords(srs, w)
    ensures exists ri: nat, pi: nat :: ValidChoice(srs, w, ri, pi) && AppRandRule(srs, w, ri, pi) == v
  {
    EveryStepIsChoosable(srs, w, v);
  }

  /** How a walk ended: at a fixpoint of the random step, or with the draws used up. */
  datatype Walk = Fixpoint(word: Word) | OutOfDraws(word: Word)

  /**
   `appRandSequence`: repeat `appRandRule` until it returns its argument.
   The source loop has no bound; here each iteration consumes one draw, and a
   walk that uses up its draws says so.
   */
  function AppRandSequence(srs: Srs, w: Word, draws: seq<Draw>): (r: Walk)
    ensures Reachable(srs, w, r.word, |draws|)
    ensures r.Fixpoint? && NoIdleRules(srs) ==> Irreducible(srs, r.word)
    decreases |draws|
  {
    if |draws| == 0 then OutOfDraws(w)
    else
      var c := DrawChoice(srs, w, draws[0]);
      var next := AppRandRule(srs, w, c.0, c.1);
      if next == w then
        assert NoIdleRules(srs) ==> Irreducible(srs, w) by {
          if NoIdleRules(srs) && !Irreducible(srs, w) {
            var o := ChooseOccurrence(srs, w, c.0, c.1).value;
            var k :| 0 <= k < |srs| && srs[k] == o.rule;
            SpliceChanges(w, o.rule.pattern, o.rule.replacement, o.pos);
          }
        }
        Fixpoint(w)
      else
        var r := AppRandSequence(srs, next, draws[1..]);
        assert next in NextOf(srs)(w);
        r
  }

  /** With a shortening rule set, more draws than symbols always reach the fixpoint. */
  lemma {:induction false} ShorteningWalkTerminates(srs: Srs, w: Word, draws: seq<Draw>)
    requires Shortening(srs)
    requires |draws| > |w|
    ensures AppRandSequence(srs, w, draws).Fixpoint?
    decreases |draws|
  {
    var c := DrawChoice(srs, w, draws[0]);
    var next := AppRandRule(srs, w, c.0, c.1);
    if next != w {
      SuccessorShorter(srs, w, next);
      ShorteningWalkTerminates(srs, next, draws[1..]);
    }
  }

  lemma SuccessorShorter(srs: Srs, w: Word, v: Word)
    requires Shortening(srs)
    requires v in NextWords(srs, w)
    ensures |v| < |w|
  {
    SuccessorLength(srs, w, v);
  }

  /** Outcome of one `runEquivalenceTest` (the `details` text is presentation only). */
  datatype Trial = Trial(success: bool, startWord: Word, firstNF: Word)

  /**
   `runEquivalenceTest` for a given start word: derive it under `T` and under
   `T'`, then search `T'` both ways between the two results. `None` when a
   walk runs out of draws before its fixpoint.
   */
  function RunEquivalenceTest(startWord: Word, drawsT: seq<Draw>, drawsTPrime: seq<Draw>): (r: Option<Trial>)
    ensures r.Some? <==> AppRandSequence(T, startWord, drawsT).Fixpoint? && AppRandSequence(TPrime, startWord, drawsTPrime).Fixpoint?
    ensures r.Some? ==> r.value.startWord == startWord && r.value.firstNF == AppRandSequence(T, startWord, drawsT).word
  {
    match (AppRandSequence(T, startWord, drawsT), AppRandSequence(TPrime, startWord, drawsTPrime))
    case (Fixpoint(firstNF), Fixpoint(secondNF)) =>
      var canReachForward := CanReachBfs(TPrime, secondNF, firstNF, DefaultMaxDepth);
      var canReachBackward := CanReachBfs(TPrime, firstNF, secondNF, DefaultMaxDepth);
      Some(Trial(canReachForward || canReachBackward, startWord, firstNF))
    case _ => None
  }

  /**
   A trial succeeds exactly when the two normal forms are connected, in one
   direction or the other, by at most 100 steps of `T'`.
   */
  lemma EquivalenceSuccessIff(startWord: Word, drawsT: seq<Draw>, drawsTPrime: seq<Draw>)
    requires RunEquivalenceTest(startWord, drawsT, drawsTPrime).Some?
    ensures var first := AppRandSequence(T, startWord, drawsT).word;
            var second := AppRandSequence(TPrime, startWord, drawsTPrime).word;
            RunEquivalenceTest(startWord, drawsT, drawsTPrime).value.success <==>
              Reachable(TPrime, second, first, 100) || Reachable(TPrime, first, second, 100)
  {
    var first := AppRandSequence(T, startWord, drawsT).word;
    var second := AppRandSequence(TPrime, startWord, drawsTPrime).word;
    CanReachBfsCorrect(TPrime, second, first, DefaultMaxDepth);
    CanReachBfsCorrect(TPrime, first, second, DefaultMaxDepth);
  }

  /** Both walks end in normal forms of their rule sets. */
  lemma EquivalenceComparesNormalForms(startWord: Word, drawsT: seq<Draw>, drawsTPrime: seq<Draw>)
    requires RunEquivalenceTest(startWord, drawsT, drawsTPrime).Some?
    ensures Irreducible(T, AppRandSequence(T, startWord, drawsT).word)
    ensures Irreducible(TPrime, AppRandSequence(TPrime, startWord, drawsTPrime).word)
  {
    TablesHaveNoIdleRules();
  }

  /** The `T'` walk of a trial needs no more draws than the start word has symbols, plus one. */
  lemma TPrimeWalkTerminates(startWord: Word, drawsTPrime: seq<Draw>)
    requires |drawsTPrime| > |startWord|
    ensures AppRandSequence(TPrime, startWord, drawsTPrime).Fixpoint?
  {
    TPrimeShortens();
    ShorteningWalkTerminates(TPrime, startWord, drawsTPrime);
  }
}
