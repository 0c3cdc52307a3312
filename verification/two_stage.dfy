/**
 The two-stage random choice shared by `appRandRule`, `applyRandomRule` and
 `randomRule`: first a rule uniformly among the rules whose pattern occurs in
 the word, then one of that rule's occurrence positions uniformly.

 `Math.floor(Math.random() * n)` is any index in `[0, n)`, so a single step
 takes the two indices as arguments and requires them to be in range. The
 walks that take many steps read a stream of `Draw`s and reduce each draw
 modulo the number of options (`DrawChoice`); every in-range index is the
 reduction of some draw, so no choice is lost.
 */
module TwoStage {
  import opened Words
  import opened Rewriting

  /** The rules whose pattern occurs in `w` (`word.includes(pattern)`), in rule-set order. */
  function Applicable(srs: Srs, w: Word): (app: Srs)
    ensures forall rule :: rule in app <==> rule in srs && Occurs(w, rule.pattern)
    ensures |app| <= |srs|
  {
    if |srs| == 0 then []
    else (if Contains(w, srs[0].pattern) then [srs[0]] else []) + Applicable(srs[1..], w)
  }

  lemma {:induction false} ApplicableEmptyIffIrreducible(srs: Srs, w: Word)
    ensures |Applicable(srs, w)| == 0 <==> Irreducible(srs, w)
  {
    var app := Applicable(srs, w);
    assert |app| > 0 ==> app[0] in app;
    if !Irreducible(srs, w) {
      var k :| 0 <= k < |srs| && Contains(w, srs[k].pattern);
      assert srs[k] in app;
    } else {
      forall rule | rule in srs
        ensures !Occurs(w, rule.pattern)
      {
        var k :| 0 <= k < |srs| && srs[k] == rule;
        assert !Contains(w, srs[k].pattern);
      }
    }
  }

  /** `ri` picks an applicable rule and `pi` one of its positions, whenever some rule applies. */
  predicate ValidChoice(srs: Srs, w: Word, ri: nat, pi: nat) {
    var app := Applicable(srs, w);
    |app| > 0 ==> ri < |app| && pi < |Positions(w, app[ri].pattern)|
  }

  /** A located match of a rule's pattern. */
  datatype Occurrence = Occurrence(rule: ValidRule, pos: nat)

  /** The occurrence the two-stage choice selects, or `None` when no rule applies. */
  function ChooseOccurrence(srs: Srs, w: Word, ri: nat, pi: nat): (o: Option<Occurrence>)
    requires ValidChoice(srs, w, ri, pi)
    ensures o.None? <==> Irreducible(srs, w)
    ensures o.Some? ==> o.value.rule in srs && OccursAt(w, o.value.rule.pattern, o.value.pos)
  {
    ApplicableEmptyIffIrreducible(srs, w);
    var app := Applicable(srs, w);
    if |app| == 0 then None
    else
      var rule := app[ri];
      Some(Occurrence(rule, Positions(w, rule.pattern)[pi]))
  }

  /** A chosen occurrence, rewritten, is a one-step successor. */
  lemma ChosenIsSuccessor(srs: Srs, w: Word, ri: nat, pi: nat)
    requires ValidChoice(srs, w, ri, pi)
    requires ChooseOccurrence(srs, w, ri, pi).Some?
    ensures var o := ChooseOccurrence(srs, w, ri, pi).value;
            Apply(w, o.rule, o.pos) in NextWords(srs, w)
  {
    var o := ChooseOccurrence(srs, w, ri, pi).value;
    var k :| 0 <= k < |srs| && srs[k] == o.rule;
    assert Step(srs, w, Apply(w, o.rule, o.pos));
    NextWordsAreSteps(srs, w);
  }

  /**
   The two-stage choice can select every occurrence of every rule: each
   one-step successor is the rewrite of some in-range choice.
   */
  lemma EveryStepIsChoosable(srs: Srs, w: Word, v: Word)
    requires v in NextWords(srs, w)
    ensures exists ri: nat, pi: nat :: ValidChoice(srs, w, ri, pi) && ChooseOccurrence(srs, w, ri, pi).Some? &&
              var o := ChooseOccurrence(srs, w, ri, pi).value; Apply(w, o.rule, o.pos) == v
  {
    NextWordsAreSteps(srs, w);
    var k, i :| 0 <= k < |srs| && OccursAt(w, srs[k].pattern, i) && v == Apply(w, srs[k], i);
    var app := Applicable(srs, w);
    assert srs[k] in app;
    var ri :| 0 <= ri < |app| && app[ri] == srs[k];
    var ps := Positions(w, srs[k].pattern);
    assert i in ps;
    var pi :| 0 <= pi < |ps| && ps[pi] == i;
    assert ValidChoice(srs, w, ri, pi);
    assert ChooseOccurrence(srs, w, ri, pi) == Some(Occurrence(srs[k], i));
  }

  /** One pair of random numbers: the rule draw and the position draw. */
  datatype Draw = Draw(rule: nat, pos: nat)

  /** Reduces a draw to an in-range choice for `w`. */
  function DrawChoice(srs: Srs, w: Word, d: Draw): (c: (nat, nat))
    ensures ValidChoice(srs, w, c.0, c.1)
  {
    var app := Applicable(srs, w);
    if |app| == 0 then (0, 0)
    else
      var ri := d.rule % |app|;
      assert app[ri] in app;
      (ri, d.pos % |Positions(w, app[ri].pattern)|)
  }

  /** Every in-range choice is the reduction of a draw: the draw stream loses no choice. */
  lemma DrawChoiceOnto(srs: Srs, w: Word, ri: nat, pi: nat)
    requires ValidChoice(srs, w, ri, pi)
    requires !Irreducible(srs, w)
    ensures DrawChoice(srs, w, Draw(ri, pi)) == (ri, pi)
  {
    ApplicableEmptyIffIrreducible(srs, w);
    var app := Applicable(srs, w);
    SmallMod(ri, |app|);
    SmallMod(pi, |Positions(w, app[ri].pattern)|);
  }

  lemma SmallMod(x: nat, n: nat)
    requires x < n
    ensures x % n == x
  {
  }
}
