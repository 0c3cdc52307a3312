/**
 The metamorphic test of `Lab1/MetamorfTest/src/main.ts`: a random
 derivation under the nine-rule `T'`, recorded step by step together with
 two invariants of the start word, the parity of the number of `b`s and the
 parity of `count(a) + length`, and whether each step kept them.
 */
module Metamorf {
  import opened Words
  import opened Rewriting
  import opened TwoStage

  /** The rule set `T'` of this test: the seven shortening rules and two length-preserving ones. */
  const TPrime: Srs := [
    Rule("bbb", "b"),
    Rule("bab", "aa"),
    Rule("aaa", "aa"),
    Rule("aab", "ab"),
    Rule("aba", "ab"),
    Rule("abb", "aa"),
    Rule("baa", "ab"),
    Rule("baaa", "aaab"),
    Rule("abab", "aabb")
  ]

  /**
   What `checkB` and `checkA` return: the current value, whether it equals the
   baseline, and, when no baseline was given, the value as the new baseline.
   */
  datatype InvariantResult = InvariantResult(value: nat, valid: bool, initial: Option<nat>)

  /** Parity of the number of `b`s. */
  function BParity(w: Word): nat
  {
    Count(w, 'b') % 2
  }

  /** Parity of the number of `a`s plus the length. */
  function ALengthParity(w: Word): nat
  {
    (Count(w, 'a') + |w|) % 2
  }

  /** Compares `value` with an optional baseline, as `checkB` and `checkA` both do. */
  function Check(value: nat, init: Option<nat>): (r: InvariantResult)
    ensures r.value == value
    ensures init.None? ==> r.valid && r.initial == Some(value)
    ensures init.Some? ==> r.initial.None? && (r.valid <==> value == init.value)
  {
    match init
    case None => InvariantResult(value, true, Some(value))
    case Some(k) => InvariantResult(value, value == k, None)
  }

  /** `checkB(word, initBParity?)`. */
  function CheckB(w: Word, init: Option<nat>): (r: InvariantResult)
    ensures r.value < 2
    ensures r.value == BParity(w)
    ensures init.None? ==> r.valid && r.initial == Some(r.value)
    ensures init.Some? ==> r.initial.None? && (r.valid <==> BParity(w) == init.value)
  {
    Check(BParity(w), init)
  }

  /** `checkA(word, initALengthValue?)`. */
  function CheckA(w: Word, init: Option<nat>): (r: InvariantResult)
    ensures r.value < 2
    ensures r.value == ALengthParity(w)
    ensures init.None? ==> r.valid && r.initial == Some(r.value)
    ensures init.Some? ==> r.initial.None? && (r.valid <==> ALengthParity(w) == init.value)
  {
    Check(ALengthParity(w), init)
  }

  /** On words over `{a, b}` the two invariants coincide: `count(a) + length = 2 count(a) + count(b)`. */
  lemma CheckAMatchesCheckB(w: Word)
    requires OverAB(w)
    ensures CheckA(w, None).value == CheckB(w, None).value
  {
    CountOverAB(w);
    var a := Count(w, 'a');
    var b := Count(w, 'b');
    assert a + |w| == 2 * a + b;
    assert (2 * a + b) % 2 == b % 2;
  }

  /** A rule keeps both invariants when its two sides agree on them. */
  predicate KeepsParities(rule: Rule) {
    BParity(rule.pattern) == BParity(rule.replacement) &&
    ALengthParity(rule.pattern) == ALengthParity(rule.replacement)
  }

  predicate ParityPreserving(srs: Srs) {
    forall k :: 0 <= k < |srs| ==> KeepsParities(srs[k])
  }

  /** Every rule of `T'` keeps both parities, so no recorded check under `T'` can fail. */
  lemma TPrimePreservesParities()
    ensures ParityPreserving(TPrime)
  {
    ShortRulesKeepParities();
    LongRulesKeepParities();
  }

  lemma ShortRulesKeepParities()
    ensures forall k :: 0 <= k < 7 ==> KeepsParities(TPrime[k])
  {
    assert KeepsParities(TPrime[0]);
    assert KeepsParities(TPrime[1]);
    assert KeepsParities(TPrime[2]);
    assert KeepsParities(TPrime[3]);
    assert KeepsParities(TPrime[4]);
    assert KeepsParities(TPrime[5]);
    assert KeepsParities(TPrime[6]);
  }

  lemma LongRulesKeepParities()
    ensures KeepsParities(TPrime[7]) && KeepsParities(TPrime[8])
  {
  }

  /** The symbol counts of a rewrite: those of the pattern are traded for those of the replacement. */
  lemma ApplyCounts(w: Word, rule: ValidRule, i: nat, c: char)
    requires OccursAt(w, rule.pattern, i)
    ensures Count(Apply(w, rule, i), c) + Count(rule.pattern, c) == Count(w, c) + Count(rule.replacement, c)
  {
    var n := |rule.pattern|;
    assert w == w[..i] + rule.pattern + w[i + n..];
    CountAppend(w[..i], rule.pattern, c);
    CountAppend(w[..i] + rule.pattern, w[i + n..], c);
    CountAppend(w[..i], rule.replacement, c);
    CountAppend(w[..i] + rule.replacement, w[i + n..], c);
  }

  /** Rewriting with a parity-keeping rule leaves both invariants unchanged. */
  lemma ApplyKeepsParities(w: Word, rule: ValidRule, i: nat)
    requires OccursAt(w, rule.pattern, i)
    requires KeepsParities(rule)
    ensures BParity(Apply(w, rule, i)) == BParity(w)
    ensures ALengthParity(Apply(w, rule, i)) == ALengthParity(w)
  {
    var v := Apply(w, rule, i);
    ApplyCounts(w, rule, i, 'a');
    ApplyCounts(w, rule, i, 'b');
    var pa, ra := Count(rule.pattern, 'a'), Count(rule.replacement, 'a');
    var pb, rb := Count(rule.pattern, 'b'), Count(rule.replacement, 'b');
    assert Count(v, 'b') == Count(w, 'b') - pb + rb;
    assert Count(v, 'a') + |v| == Count(w, 'a') + |w| - (pa + |rule.pattern|) + (ra + |rule.replacement|);
    ModShift(Count(w, 'b'), pb, rb);
    ModShift(Count(w, 'a') + |w|, pa + |rule.pattern|, ra + |rule.replacement|);
  }

  /** Trading `p` for `r` of the same parity keeps the parity of `x`. */
  lemma ModShift(x: int, p: int, r: int)
    requires p % 2 == r % 2
    ensures (x - p + r) % 2 == x % 2
  {
    assert r - p == 2 * ((r - p) / 2);
  }

  /** What `randomRule` returns; `applied` is the rule, `None` standing for `'none'`. */
  datatype RandomStep = RandomStep(newWord: Word, applied: Option<Rule>)

  /**
   `randomRule(word, srs)`: the two-stage choice, the word unchanged with
   `'none'` when no pattern occurs.
   */
  function RandomRule(srs: Srs, w: Word, ri: nat, pi: nat): (r: RandomStep)
    requires ValidChoice(srs, w, ri, pi)
    ensures r.applied.None? <==> Irreducible(srs, w)
    ensures r.applied.None? ==> r.newWord == w
    ensures r.applied.Some? ==> r.applied.value in srs && r.newWord in NextWords(srs, w)
    ensures r.applied.Some? ==> exists i :: OccursAt(w, r.applied.value.pattern, i) &&
                                  r.newWord == Splice(w, i, |r.applied.value.pattern|, r.applied.value.replacement)
  {
    match ChooseOccurrence(srs, w, ri, pi)
    case None => RandomStep(w, None)
    case Some(o) =>
      ChosenIsSuccessor(srs, w, ri, pi);
      RandomStep(Apply(w, o.rule, o.pos), Some(o.rule))
  }

  /** A random step under parity-keeping rules keeps both invariants. */
  lemma RandomRuleKeepsParities(srs: Srs, w: Word, ri: nat, pi: nat)
    requires ValidChoice(srs, w, ri, pi)
    requires ParityPreserving(srs)
    ensures BParity(RandomRule(srs, w, ri, pi).newWord) == BParity(w)
    ensures ALengthParity(RandomRule(srs, w, ri, pi).newWord) == ALengthParity(w)
  {
    var r := RandomRule(srs, w, ri, pi);
    if r.applied.Some? {
      var i :| OccursAt(w, r.applied.value.pattern, i) &&
               r.newWord == Splice(w, i, |r.applied.value.pattern|, r.applied.value.replacement);
      var k :| 0 <= k < |srs| && srs[k] == r.applied.value;
      ApplyKeepsParities(w, srs[k], i);
    }
  }

  /** A recorded invariant: the value and whether it equals the start word's. */
  datatype InvariantCheck = InvariantCheck(value: nat, valid: bool)

  /** One entry of the derivation trace (`RewriteStep`); `ruleApplied` is absent at step 0. */
  datatype Entry = Entry(word: Word, step: nat, ruleApplied: Option<Rule>, bParity: InvariantCheck, aLength: InvariantCheck)

  /** The invariants of `w` checked against the start word `w0`. */
  predicate Recorded(e: Entry, w0: Word) {
    e.bParity == InvariantCheck(BParity(e.word), BParity(e.word) == BParity(w0)) &&
    e.aLength == InvariantCheck(ALengthParity(e.word), ALengthParity(e.word) == ALengthParity(w0))
  }

  /** The entry `GenMetamorf` records first: the start word with both checks valid. */
  function FirstEntry(w0: Word): (e: Entry)
    ensures e.word == w0 && e.step == 0 && e.ruleApplied.None? && Recorded(e, w0)
    ensures e.bParity.valid && e.aLength.valid
  {
    Entry(w0, 0, None, InvariantCheck(BParity(w0), true), InvariantCheck(ALengthParity(w0), true))
  }

  /**
   A derivation trace from `w0`: it starts with `FirstEntry(w0)`, entry `i`
   is step `i` with its invariants checked against `w0`, and every later
   word is one rewrite, by a named rule of `srs`, of the word before it.
   */
  predicate IsTrace(srs: Srs, w0: Word, trace: seq<Entry>) {
    && |trace| >= 1
    && trace[0] == FirstEntry(w0)
    && (forall i :: 0 <= i < |trace| ==> trace[i].step == i && Recorded(trace[i], w0))
    && (forall i :: 0 < i < |trace| ==>
          trace[i].ruleApplied.Some? && trace[i].ruleApplied.value in srs &&
          trace[i].word in NextWords(srs, trace[i - 1].word))
  }

  /** Every recorded check of the trace passed. */
  predicate AllValid(trace: seq<Entry>) {
    forall i :: 0 <= i < |trace| ==> trace[i].bParity.valid && trace[i].aLength.valid
  }

  lemma TraceSnoc(srs: Srs, w0: Word, trace: seq<Entry>, e: Entry)
    requires IsTrace(srs, w0, trace)
    requires e.step == |trace| && Recorded(e, w0)
    requires e.ruleApplied.Some? && e.ruleApplied.value in srs
    requires e.word in NextWords(srs, trace[|trace| - 1].word)
    ensures IsTrace(srs, w0, trace + [e])
  {
    var t := trace + [e];
    assert t[0] == trace[0];
    forall i | 0 <= i < |t|
      ensures t[i].step == i && Recorded(t[i], w0)
    {
      if i < |trace| {
        assert t[i] == trace[i];
      }
    }
    forall i | 0 < i < |t|
      ensures t[i].ruleApplied.Some? && t[i].ruleApplied.value in srs && t[i].word in NextWords(srs, t[i - 1].word)
    {
      assert t[i - 1] == trace[i - 1];
      if i < |trace| {
        assert t[i] == trace[i];
      }
    }
  }

  /** The entry recorded for `w` at `step` after applying `rule`, checked against `w0`. */
  function NextEntry(w0: Word, w: Word, step: nat, rule: Option<Rule>): (e: Entry)
    ensures e.word == w && e.step == step && e.ruleApplied == rule && Recorded(e, w0)
  {
    var bParityCheck := CheckB(w, Some(CheckB(w0, None).value));
    var aLengthCheck := CheckA(w, Some(CheckA(w0, None).value));
    Entry(w, step, rule, InvariantCheck(bParityCheck.value, bParityCheck.valid),
          InvariantCheck(aLengthCheck.value, aLengthCheck.valid))
  }

  /** What `GenMetamorf` knows at the head of its loop, `w` being the current word. */
  predicate GenState(srs: Srs, w0: Word, trace: seq<Entry>, w: Word) {
    && IsTrace(srs, w0, trace)
    && w == trace[|trace| - 1].word
    && (ParityPreserving(srs) ==> BParity(w) == BParity(w0) && ALengthParity(w) == ALengthParity(w0) && AllValid(trace))
  }

  /** One iteration of the loop keeps `GenState`. */
  lemma GenStep(srs: Srs, w0: Word, trace: seq<Entry>, w: Word, ri: nat, pi: nat)
    requires GenState(srs, w0, trace, w)
    requires ValidChoice(srs, w, ri, pi)
    requires RandomRule(srs, w, ri, pi).applied.Some?
    ensures var r := RandomRule(srs, w, ri, pi);
            GenState(srs, w0, trace + [NextEntry(w0, r.newWord, |trace|, r.applied)], r.newWord)
  {
    var r := RandomRule(srs, w, ri, pi);
    var e := NextEntry(w0, r.newWord, |trace|, r.applied);
    TraceSnoc(srs, w0, trace, e);
    if ParityPreserving(srs) {
      RandomRuleKeepsParities(srs, w, ri, pi);
      var t := trace + [e];
      forall i | 0 <= i < |t|
        ensures t[i].bParity.valid && t[i].aLength.valid
      {
        if i < |trace| {
          assert t[i] == trace[i];
        }
      }
    }
  }

  /**
   `GenMetamorf(initialWord, srs, maxSteps)`: up to `maxSteps` random steps,
   one draw each, stopping early when no rule applies.
   */
  method GenMetamorf(initialWord: Word, srs: Srs, maxSteps: nat, draws: seq<Draw>) returns (trace: seq<Entry>)
    requires |draws| >= maxSteps
    ensures IsTrace(srs, initialWord, trace)
    ensures |trace| <= maxSteps + 1
    ensures |trace| <= maxSteps ==> Irreducible(srs, trace[|trace| - 1].word)
    ensures ParityPreserving(srs) ==> AllValid(trace)
  {
    var currentWord := initialWord;
    var initBParity := CheckB(initialWord, None).value;
    var initALengthValue := CheckA(initialWord, None).value;
    trace := [Entry(currentWord, 0, None, InvariantCheck(initBParity, true), InvariantCheck(initALengthValue, true))];
    var step := 1;
    while step <= maxSteps
      invariant 1 <= step <= maxSteps + 1
      invariant |trace| == step
      invariant GenState(srs, initialWord, trace, currentWord)
    {
      var c := DrawChoice(srs, currentWord, draws[step - 1]);
      var r := RandomRule(srs, currentWord, c.0, c.1);
      if r.newWord == currentWord && r.applied.None? {
        break;
      }
      GenStep(srs, initialWord, trace, currentWord, c.0, c.1);
      currentWord := r.newWord;
      var bParityCheck := CheckB(currentWord, Some(initBParity));
      var aLengthCheck := CheckA(currentWord, Some(initALengthValue));
      var entry := Entry(currentWord, step, r.applied,
                         InvariantCheck(bParityCheck.value, bParityCheck.valid),
                         InvariantCheck(aLengthCheck.value, aLengthCheck.valid));
      assert entry == NextEntry(initialWord, currentWord, step, r.applied);
      trace := trace + [entry];
      step := step + 1;
    }
  }
}
