/**
 String rewriting systems: rules, the one-step rewrite relation and the
 successor list `getNextWords`.
 */
module Rewriting {
  import opened Words

  /** A rule `(pattern, replacement)`. */
  datatype Rule = Rule(pattern: Word, replacement: Word)

  /** Rules with a non-empty pattern: `indexOf('', pos + 1)` would never stop. */
  type ValidRule = r: Rule | |r.pattern| > 0 witness Rule("a", "")

  /** A rule set; order matters only for iteration and display. */
  type Srs = seq<ValidRule>

  /** Rewriting the occurrence of `rule.pattern` at `i`. */
  function Apply(w: Word, rule: ValidRule, i: nat): (v: Word)
    requires OccursAt(w, rule.pattern, i)
    ensures |v| == |w| - |rule.pattern| + |rule.replacement|
  {
    Splice(w, i, |rule.pattern|, rule.replacement)
  }

  /** One rewrite step: some rule of `srs` rewrites some occurrence in `u` to give `v`. */
  ghost predicate Step(srs: Srs, u: Word, v: Word) {
    exists k, i :: 0 <= k < |srs| && OccursAt(u, srs[k].pattern, i) && v == Apply(u, srs[k], i)
  }

  /** `w` is a normal form: no pattern of `srs` occurs in it. */
  predicate Irreducible(srs: Srs, w: Word) {
    forall k :: 0 <= k < |srs| ==> !Contains(w, srs[k].pattern)
  }

  /** No rule rewrites a pattern to itself. */
  predicate NoIdleRules(srs: Srs) {
    forall k :: 0 <= k < |srs| ==> srs[k].pattern != srs[k].replacement
  }

  /** Every rule strictly shortens the word it rewrites. */
  predicate Shortening(srs: Srs) {
    forall k :: 0 <= k < |srs| ==> |srs[k].replacement| < |srs[k].pattern|
  }

  lemma IrreducibleIffNoStep(srs: Srs, w: Word)
    ensures Irreducible(srs, w) <==> forall v :: !Step(srs, w, v)
  {
    if !Irreducible(srs, w) {
      var k :| 0 <= k < |srs| && Contains(w, srs[k].pattern);
      var i :| OccursAt(w, srs[k].pattern, i);
      assert Step(srs, w, Apply(w, srs[k], i));
    }
  }

  /** The rewrites of `w` by `rule` at the positions `ps`, in order. */
  function RewritesAt(w: Word, rule: ValidRule, ps: seq<nat>): (vs: seq<Word>)
    requires forall k :: 0 <= k < |ps| ==> OccursAt(w, rule.pattern, ps[k])
    ensures |vs| == |ps|
    ensures forall k :: 0 <= k < |ps| ==> vs[k] == Apply(w, rule, ps[k])
  {
    seq(|ps|, k requires 0 <= k < |ps| => Apply(w, rule, ps[k]))
  }

  /** Every rewrite of every occurrence, rule by rule, duplicates kept (the `nextWords` array). */
  function Successors(srs: Srs, w: Word): seq<Word>
  {
    if |srs| == 0 then []
    else RewritesAt(w, srs[0], Positions(w, srs[0].pattern)) + Successors(srs[1..], w)
  }

  lemma {:induction false} SuccessorsAreSteps(srs: Srs, w: Word)
    ensures forall v :: v in Successors(srs, w) <==> Step(srs, w, v)
    decreases |srs|
  {
    if |srs| > 0 {
      SuccessorsAreSteps(srs[1..], w);
      var ps := Positions(w, srs[0].pattern);
      var head := RewritesAt(w, srs[0], ps);
      forall v
        ensures v in Successors(srs, w) <==> Step(srs, w, v)
      {
        if v in head {
          var k :| 0 <= k < |head| && head[k] == v;
          assert OccursAt(w, srs[0].pattern, ps[k]);
        } else if v in Successors(srs[1..], w) {
          var k, i :| 0 <= k < |srs[1..]| && OccursAt(w, srs[1..][k].pattern, i) && v == Apply(w, srs[1..][k], i);
          assert srs[k + 1] == srs[1..][k];
        }
        if Step(srs, w, v) {
          var k, i :| 0 <= k < |srs| && OccursAt(w, srs[k].pattern, i) && v == Apply(w, srs[k], i);
          if k == 0 {
            assert i in ps;
            var m :| 0 <= m < |ps| && ps[m] == i;
            assert head[m] == v;
          } else {
            assert srs[1..][k - 1] == srs[k];
            assert Step(srs[1..], w, v);
          }
        }
      }
    }
  }

  /**
   `getNextWords`: every word one rewrite away from `w`, each exactly once,
   overlapping occurrences included.
   */
  function NextWords(srs: Srs, w: Word): (vs: seq<Word>)
    ensures Distinct(vs)
    ensures forall v :: v in vs <==> v in Successors(srs, w)
  {
    Dedup(Successors(srs, w))
  }

  /** `getNextWords` lists exactly the one-step rewrites of `w`. */
  lemma NextWordsAreSteps(srs: Srs, w: Word)
    ensures forall v :: v in NextWords(srs, w) <==> Step(srs, w, v)
  {
    SuccessorsAreSteps(srs, w);
  }

  /** Each successor has the length the length law predicts for the rule that produced it. */
  lemma SuccessorLength(srs: Srs, w: Word, v: Word)
    requires v in NextWords(srs, w)
    ensures exists k :: 0 <= k < |srs| && |v| == |w| - |srs[k].pattern| + |srs[k].replacement|
  {
    NextWordsAreSteps(srs, w);
    var k, i :| 0 <= k < |srs| && OccursAt(w, srs[k].pattern, i) && v == Apply(w, srs[k], i);
  }

  /** `getNextWords` is empty exactly on normal forms. */
  lemma NextWordsEmptyIffIrreducible(srs: Srs, w: Word)
    ensures |NextWords(srs, w)| == 0 <==> Irreducible(srs, w)
  {
    IrreducibleIffNoStep(srs, w);
    NextWordsAreSteps(srs, w);
    var vs := NextWords(srs, w);
    if |vs| > 0 {
      assert Step(srs, w, vs[0]);
    }
  }

  /** `getNextWords` as a successor function. */
  function NextOf(srs: Srs): Word -> seq<Word>
  {
    w => NextWords(srs, w)
  }
}
