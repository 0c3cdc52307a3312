/**
 The normal-form enumerator of `Lab1/ReplenishmentAlgorithm/src/main.ts`:
 every word of a given length over `{a, b}`, the seven active rules of the
 completed system, the leftmost rewrites `AllRewrites` (JavaScript
 `String.replace` rewrites only the first occurrence), and `NormForm`, which
 explores those rewrites exhaustively and collects the irreducible words it
 meets.
 */
module Replenishment {
  import opened Words
  import opened Rewriting
  import opened Reachability
  import opened TwoStage

  /** `b` raised to `n`. */
  function Pow(b: nat, n: nat): nat
  {
    if n == 0 then 1 else b * Pow(b, n - 1)
  }

  /** `u` comes strictly before `v` in dictionary order with `a < b`. */
  ghost predicate LexLess(u: Word, v: Word) {
    exists k :: 0 <= k < |u| && k < |v| && u[..k] == v[..k] && u[k] < v[k]
  }

  /**
   The inner `generate(current)`: every extension of `current` to `length`
   symbols, the `a` branch before the `b` branch.
   */
  function GenerateFrom(current: Word, length: nat): (ws: seq<Word>)
    requires |current| <= length
    ensures |ws| == Pow(2, length - |current|)
    ensures forall k :: 0 <= k < |ws| ==> |ws[k]| == length && ws[k][..|current|] == current
    ensures OverAB(current) ==> forall k :: 0 <= k < |ws| ==> OverAB(ws[k])
    ensures forall k, l :: 0 <= k < l < |ws| ==> LexLess(ws[k], ws[l])
    decreases length - |current|
  {
    if |current| == length then
      assert current[..|current|] == current;
      [current]
    else
      var left := GenerateFrom(current + "a", length);
      var right := GenerateFrom(current + "b", length);
      ExtensionsKeepPrefix(left, current, 'a', length);
      ExtensionsKeepPrefix(right, current, 'b', length);
      ExtendOverAB(current, 'a');
      ExtendOverAB(current, 'b');
      ConcatSorted(left, right, current, length);
      left + right
  }

  /** Words extending `current + [c]` extend `current`, with `c` right after it. */
  lemma ExtensionsKeepPrefix(ws: seq<Word>, current: Word, c: char, length: nat)
    requires |current| < length
    requires forall k :: 0 <= k < |ws| ==> |ws[k]| == length && ws[k][..|current| + 1] == current + [c]
    ensures forall k :: 0 <= k < |ws| ==> ws[k][..|current|] == current && ws[k][|current|] == c
  {
    forall k | 0 <= k < |ws|
      ensures ws[k][..|current|] == current && ws[k][|current|] == c
    {
      assert ws[k][..|current|] == (current + [c])[..|current|];
      assert ws[k][|current|] == (current + [c])[|current|];
    }
  }

  lemma ExtendOverAB(current: Word, c: char)
    requires c == 'a' || c == 'b'
    ensures OverAB(current) ==> OverAB(current + [c])
  {
    if OverAB(current) {
      forall i | 0 <= i < |current| + 1
        ensures (current + [c])[i] == 'a' || (current + [c])[i] == 'b'
      {
        if i < |current| {
          assert (current + [c])[i] == current[i];
        }
      }
    }
  }

  /** Two sorted runs, every word of the first before every word of the second, concatenate to a sorted list. */
  lemma ConcatSorted(left: seq<Word>, right: seq<Word>, current: Word, length: nat)
    requires |current| < length
    requires forall k, l :: 0 <= k < l < |left| ==> LexLess(left[k], left[l])
    requires forall k, l :: 0 <= k < l < |right| ==> LexLess(right[k], right[l])
    requires forall k :: 0 <= k < |left| ==> |left[k]| == length && left[k][..|current|] == current && left[k][|current|] == 'a'
    requires forall k :: 0 <= k < |right| ==> |right[k]| == length && right[k][..|current|] == current && right[k][|current|] == 'b'
    ensures forall k, l :: 0 <= k < l < |left + right| ==> LexLess((left + right)[k], (left + right)[l])
  {
    var ws := left + right;
    forall k, l | 0 <= k < l < |ws|
      ensures LexLess(ws[k], ws[l])
    {
      if l < |left| {
        assert ws[k] == left[k] && ws[l] == left[l];
      } else if k >= |left| {
        assert ws[k] == right[k - |left|] && ws[l] == right[l - |left|];
      } else {
        assert ws[k] == left[k] && ws[l] == right[l - |left|];
        assert ws[k][..|current|] == ws[l][..|current|];
        assert ws[k][|current|] < ws[l][|current|];
      }
    }
  }

  /** `generateStrings(length)`: the words of length `length` over `{a, b}`. */
  function GenerateStrings(length: nat): (ws: seq<Word>)
    ensures |ws| == Pow(2, length)
    ensures forall k :: 0 <= k < |ws| ==> |ws[k]| == length && OverAB(ws[k])
    ensures forall k, l :: 0 <= k < l < |ws| ==> LexLess(ws[k], ws[l])
  {
    GenerateFrom("", length)
  }

  /** Dictionary order is irreflexive, so a strictly sorted list has no repeats. */
  lemma LexLessDiffers(u: Word, v: Word)
    requires LexLess(u, v)
    ensures u != v
  {
  }

  /** No word is generated twice. */
  lemma GenerateStringsDistinct(length: nat)
    ensures Distinct(GenerateStrings(length))
  {
    var ws := GenerateStrings(length);
    forall k, l | 0 <= k < l < |ws|
      ensures ws[k] != ws[l]
    {
      LexLessDiffers(ws[k], ws[l]);
    }
  }

  /** Every extension of `current` over `{a, b}` of the right length is generated. */
  lemma {:induction false} GenerateFromComplete(current: Word, length: nat, w: Word)
    requires |current| <= length
    requires |w| == length && OverAB(w) && w[..|current|] == current
    ensures w in GenerateFrom(current, length)
    decreases length - |current|
  {
    var n := |current|;
    if n == length {
      assert w == w[..n];
    } else {
      assert w[..n + 1] == current + [w[n]];
      if w[n] == 'a' {
        assert current + [w[n]] == current + "a";
        GenerateFromComplete(current + "a", length, w);
      } else {
        assert current + [w[n]] == current + "b";
        GenerateFromComplete(current + "b", length, w);
      }
    }
  }

  /** All `2^n` words of length `n` over `{a, b}` are generated. */
  lemma GenerateStringsComplete(length: nat, w: Word)
    requires |w| == length && OverAB(w)
    ensures w in GenerateStrings(length)
  {
    GenerateFromComplete("", length, w);
  }

  /**
   The seven active rules, in table order; the rules left commented out in
   the table (`baaa`, `abab`, `aaab`, `bbaa`, `abaa`, `aabb`) are not part
   of it.
   */
  const Rules: Srs := [
    Rule("bab", "aa"),
    Rule("bbb", "b"),
    Rule("aaa", "aa"),
    Rule("abb", "aa"),
    Rule("aab", "ab"),
    Rule("baa", "ab"),
    Rule("aba", "ab")
  ]

  lemma RulesShorten()
    ensures Shortening(Rules)
  {
  }

  /** `u` rewrites to `v` by one rule at the leftmost occurrence of its pattern. */
  ghost predicate LeftmostStep(srs: Srs, u: Word, v: Word) {
    exists k, i :: 0 <= k < |srs| && OccursAt(u, srs[k].pattern, i) &&
      (forall j :: 0 <= j < i ==> !OccursAt(u, srs[k].pattern, j)) &&
      v == Apply(u, srs[k], i)
  }

  /**
   `AllRewrites` over a rule table: one entry per applicable rule, its
   pattern's first occurrence rewritten (`word.includes(p) ? word.replace(p, r) : null`).
   */
  function LeftmostRewrites(srs: Srs, w: Word): seq<Word>
  {
    if |srs| == 0 then []
    else
      var head := if Contains(w, srs[0].pattern) then [ReplaceFirst(w, srs[0].pattern, srs[0].replacement)] else [];
      head + LeftmostRewrites(srs[1..], w)
  }

  /**
   One rewrite per applicable rule, and with a shortening rule set every
   rewrite is shorter than the word.
   */
  lemma {:induction false} LeftmostRewritesShape(srs: Srs, w: Word)
    ensures |LeftmostRewrites(srs, w)| == |Applicable(srs, w)| <= |srs|
    ensures Shortening(srs) ==> forall k :: 0 <= k < |LeftmostRewrites(srs, w)| ==> |LeftmostRewrites(srs, w)[k]| < |w|
  {
    LeftmostRewritesCount(srs, w);
    if Shortening(srs) {
      LeftmostRewritesShorter(srs, w);
    }
  }

  lemma {:induction false} LeftmostRewritesCount(srs: Srs, w: Word)
    ensures |LeftmostRewrites(srs, w)| == |Applicable(srs, w)|
    decreases |srs|
  {
    if |srs| > 0 {
      LeftmostRewritesCount(srs[1..], w);
    }
  }

  lemma {:induction false} LeftmostRewritesShorter(srs: Srs, w: Word)
    requires Shortening(srs)
    ensures forall k :: 0 <= k < |LeftmostRewrites(srs, w)| ==> |LeftmostRewrites(srs, w)[k]| < |w|
    decreases |srs|
  {
    if |srs| > 0 {
      ShorteningTail(srs);
      LeftmostRewritesShorter(srs[1..], w);
      var p := srs[0].pattern;
      var head := if Contains(w, p) then [ReplaceFirst(w, p, srs[0].replacement)] else [];
      var rest := LeftmostRewrites(srs[1..], w);
      assert LeftmostRewrites(srs, w) == head + rest;
      if Contains(w, p) {
        ReplaceFirstShorter(w, p, srs[0].replacement);
      }
      forall k | 0 <= k < |head + rest|
        ensures |(head + rest)[k]| < |w|
      {
        if k >= |head| {
          assert (head + rest)[k] == rest[k - |head|];
        }
      }
    }
  }

  lemma ShorteningTail(srs: Srs)
    requires |srs| > 0 && Shortening(srs)
    ensures Shortening(srs[1..]) && |srs[0].replacement| < |srs[0].pattern|
  {
    forall k | 0 <= k < |srs[1..]|
      ensures |srs[1..][k].replacement| < |srs[1..][k].pattern|
    {
      assert srs[1..][k] == srs[k + 1];
    }
  }

  /** Replacing an occurrence by something shorter shortens the word. */
  lemma ReplaceFirstShorter(w: Word, p: Word, r: Word)
    requires |p| > 0 && Contains(w, p) && |r| < |p|
    ensures |ReplaceFirst(w, p, r)| < |w|
  {
    var i :| OccursAt(w, p, i) && (forall j :: 0 <= j < i ==> !OccursAt(w, p, j)) && ReplaceFirst(w, p, r) == Splice(w, i, |p|, r);
  }

  /** `AllRewrites` lists exactly the leftmost rewrites of `w`. */
  lemma {:induction false} LeftmostRewritesAreLeftmostSteps(srs: Srs, w: Word)
    ensures forall v :: v in LeftmostRewrites(srs, w) <==> LeftmostStep(srs, w, v)
    decreases |srs|
  {
    if |srs| > 0 {
      LeftmostRewritesAreLeftmostSteps(srs[1..], w);
      var p := srs[0].pattern;
      forall v
        ensures v in LeftmostRewrites(srs, w) <==> LeftmostStep(srs, w, v)
      {
        if Contains(w, p) && v == ReplaceFirst(w, p, srs[0].replacement) {
          var i :| OccursAt(w, p, i) && (forall j :: 0 <= j < i ==> !OccursAt(w, p, j)) && v == Splice(w, i, |p|, srs[0].replacement);
          assert v == Apply(w, srs[0], i);
        } else if v in LeftmostRewrites(srs[1..], w) {
          var k, i :| 0 <= k < |srs[1..]| && OccursAt(w, srs[1..][k].pattern, i) &&
            (forall j :: 0 <= j < i ==> !OccursAt(w, srs[1..][k].pattern, j)) && v == Apply(w, srs[1..][k], i);
          assert srs[k + 1] == srs[1..][k];
        }
        if LeftmostStep(srs, w, v) {
          var k, i :| 0 <= k < |srs| && OccursAt(w, srs[k].pattern, i) &&
            (forall j :: 0 <= j < i ==> !OccursAt(w, srs[k].pattern, j)) && v == Apply(w, srs[k], i);
          if k == 0 {
            LeftmostAt(w, p, srs[0].replacement, i);
          } else {
            assert srs[1..][k - 1] == srs[k];
            assert LeftmostStep(srs[1..], w, v);
          }
        }
      }
    }
  }

  /** `AllRewrites(w)` is empty exactly when no active pattern occurs in `w`. */
  lemma {:induction false} LeftmostRewritesEmptyIffIrreducible(srs: Srs, w: Word)
    ensures |LeftmostRewrites(srs, w)| == 0 <==> Irreducible(srs, w)
  {
    LeftmostRewritesShape(srs, w);
    ApplicableEmptyIffIrreducible(srs, w);
  }

  /** A leftmost rewrite is in particular a rewrite step. */
  lemma {:induction false} LeftmostRewritesAreSuccessors(srs: Srs, w: Word, v: Word)
    requires v in LeftmostRewrites(srs, w)
    ensures v in NextWords(srs, w)
  {
    LeftmostRewritesAreLeftmostSteps(srs, w);
    NextWordsAreSteps(srs, w);
    var k, i :| 0 <= k < |srs| && OccursAt(w, srs[k].pattern, i) &&
      (forall j :: 0 <= j < i ==> !OccursAt(w, srs[k].pattern, j)) && v == Apply(w, srs[k], i);
    assert Step(srs, w, v);
  }

  /** `AllRewrites(word)` of the source, with its seven rules. */
  function AllRewrites(w: Word): (vs: seq<Word>)
    ensures |vs| <= 7
    ensures forall k :: 0 <= k < |vs| ==> |vs[k]| < |w|
    ensures forall v :: v in vs ==> v in NextWords(Rules, w)
  {
    RulesShorten();
    LeftmostRewritesShape(Rules, w);
    var vs := LeftmostRewrites(Rules, w);
    forall v | v in vs
      ensures v in NextWords(Rules, w)
    {
      LeftmostRewritesAreSuccessors(Rules, w, v);
    }
    vs
  }

  /** `Σ b^|w|` over the queue: the termination measure of the exploration. */
  function Weight(b: nat, queue: seq<Word>): nat
  {
    if |queue| == 0 then 0 else Pow(b, |queue[0]|) + Weight(b, queue[1..])
  }

  lemma {:induction false} WeightAppend(b: nat, q: seq<Word>, r: seq<Word>)
    ensures Weight(b, q + r) == Weight(b, q) + Weight(b, r)
    decreases |q|
  {
    if |q| == 0 {
      assert q + r == r;
    } else {
      assert (q + r)[1..] == q[1..] + r;
      WeightAppend(b, q[1..], r);
    }
  }

  lemma {:induction false} PowMono(b: nat, m: nat, n: nat)
    requires b >= 1 && m <= n
    ensures Pow(b, m) <= Pow(b, n)
    decreases n
  {
    if m < n {
      PowMono(b, m, n - 1);
      assert Pow(b, n) == b * Pow(b, n - 1) >= Pow(b, n - 1);
    }
  }

  /** A queue of words no longer than `n` weighs at most `|queue| * b^n`. */
  lemma {:induction false} WeightBound(b: nat, queue: seq<Word>, n: nat)
    requires b >= 1
    requires forall k :: 0 <= k < |queue| ==> |queue[k]| <= n
    ensures Weight(b, queue) <= |queue| * Pow(b, n)
    decreases |queue|
  {
    if |queue| > 0 {
      WeightBound(b, queue[1..], n);
      PowMono(b, |queue[0]|, n);
      assert |queue| * Pow(b, n) == Pow(b, n) + (|queue| - 1) * Pow(b, n);
    }
  }

  lemma {:induction false} PowPositive(b: nat, n: nat)
    requires b >= 1
    ensures Pow(b, n) >= 1
    decreases n
  {
    if n > 0 {
      PowPositive(b, n - 1);
      assert b * Pow(b, n - 1) >= Pow(b, n - 1);
    }
  }

  lemma MulLe(x: nat, y: nat, p: nat)
    requires x <= y
    ensures x * p <= y * p
  {
    assert y * p == x * p + (y - x) * p;
  }

  /** Replacing a word by at most `b - 1` strictly shorter ones lowers the weight. */
  lemma RewritesWeighLess(b: nat, w: Word, rw: seq<Word>)
    requires |rw| < b
    requires forall k :: 0 <= k < |rw| ==> |rw[k]| < |w|
    requires |rw| > 0
    ensures Weight(b, rw) < Pow(b, |w|)
  {
    var n := |w| - 1;
    var p := Pow(b, n);
    WeightBound(b, rw, n);
    MulLe(|rw|, b - 1, p);
    PowPositive(b, n);
    assert Pow(b, |w|) == b * p;
    assert b * p == (b - 1) * p + p;
  }

  /**
   The `while (queue.length > 0)` loop of `NormForm`: shift the head; if it
   has no rewrite, add it to the normal forms (a `Set`, so in order of first
   insertion), otherwise enqueue all its rewrites.
   */
  function Explore(srs: Srs, queue: seq<Word>, found: seq<Word>): (nfs: seq<Word>)
    requires Shortening(srs)
    ensures Distinct(found) ==> Distinct(nfs)
    ensures forall v :: v in found ==> v in nfs
    ensures forall v :: v in nfs && v !in found ==> Irreducible(srs, v)
    decreases Weight(|srs| + 1, queue)
  {
    if |queue| == 0 then found
    else
      var cur := queue[0];
      LeftmostRewritesShape(srs, cur);
      var rw := LeftmostRewrites(srs, cur);
      if |rw| == 0 then
        LeftmostRewritesEmptyIffIrreducible(srs, cur);
        PowPositive(|srs| + 1, |cur|);
        Explore(srs, queue[1..], if cur in found then found else found + [cur])
      else
        WeightAppend(|srs| + 1, queue[1..], rw);
        RewritesWeighLess(|srs| + 1, cur, rw);
        Explore(srs, queue[1..] + rw, found)
  }

  /** `v` is reached from `u` by zero or more leftmost rewrites. */
  ghost predicate Derives(srs: Srs, u: Word, v: Word)
    requires Shortening(srs)
    decreases |u|
  {
    LeftmostRewritesShape(srs, u);
    u == v || exists x :: x in LeftmostRewrites(srs, u) && Derives(srs, x, v)
  }

  /** `NormForm` for a rule table: explore from the start word alone. */
  function NormForms(srs: Srs, w: Word): (nfs: seq<Word>)
    requires Shortening(srs)
    ensures Distinct(nfs)
    ensures forall v :: v in nfs ==> Irreducible(srs, v)
  {
    Explore(srs, [w], [])
  }

  /** `NormForm(startWord)` of the source. */
  function NormForm(w: Word): (nfs: seq<Word>)
    ensures Distinct(nfs)
    ensures forall v :: v in nfs ==> Irreducible(Rules, v)
  {
    RulesShorten();
    NormForms(Rules, w)
  }

  /** `v` is already found, or is an irreducible word some queued word derives. */
  ghost predicate Collected(srs: Srs, queue: seq<Word>, found: seq<Word>, v: Word)
    requires Shortening(srs)
  {
    v in found || (Irreducible(srs, v) && exists u :: u in queue && Derives(srs, u, v))
  }

  /** Shifting an irreducible head moves it from the queue to the found words. */
  lemma CollectedIrreducibleHead(srs: Srs, queue: seq<Word>, found: seq<Word>, v: Word)
    requires Shortening(srs)
    requires |queue| > 0 && |LeftmostRewrites(srs, queue[0])| == 0
    ensures Collected(srs, queue, found, v) <==>
            Collected(srs, queue[1..], if queue[0] in found then found else found + [queue[0]], v)
  {
    var cur := queue[0];
    LeftmostRewritesEmptyIffIrreducible(srs, cur);
    if v == cur {
      assert Derives(srs, cur, cur) && cur in queue;
    }
    if Irreducible(srs, v) && v !in found {
      if u :| u in queue && Derives(srs, u, v) {
        if u == cur {
          assert v == cur;
        } else {
          assert u in queue[1..];
        }
      }
    }
    if Collected(srs, queue[1..], if cur in found then found else found + [cur], v) && v !in found && v != cur {
      var u :| u in queue[1..] && Derives(srs, u, v);
      assert u in queue;
    }
  }

  /** Shifting a reducible head replaces it by its rewrites. */
  lemma CollectedReducibleHead(srs: Srs, queue: seq<Word>, found: seq<Word>, v: Word)
    requires Shortening(srs)
    requires |queue| > 0 && |LeftmostRewrites(srs, queue[0])| > 0
    ensures Collected(srs, queue, found, v) <==>
            Collected(srs, queue[1..] + LeftmostRewrites(srs, queue[0]), found, v)
  {
    var cur := queue[0];
    var rw := LeftmostRewrites(srs, cur);
    LeftmostRewritesEmptyIffIrreducible(srs, cur);
    if Irreducible(srs, v) && v !in found {
      if u :| u in queue && Derives(srs, u, v) {
        if u == cur {
          var x :| x in rw && Derives(srs, x, v);
          assert x in queue[1..] + rw;
        } else {
          assert u in queue[1..] + rw;
        }
      }
    }
    if Collected(srs, queue[1..] + rw, found, v) && v !in found {
      var u :| u in queue[1..] + rw && Derives(srs, u, v);
      if u in rw {
        assert Derives(srs, cur, v);
      }
      assert u in queue || u in rw;
    }
  }

  /**
   The exploration collects exactly the irreducible words derivable from
   some queued word, besides those already found.
   */
  lemma {:induction false} ExploreCollects(srs: Srs, queue: seq<Word>, found: seq<Word>)
    requires Shortening(srs)
    ensures forall v :: v in Explore(srs, queue, found) <==> Collected(srs, queue, found, v)
    decreases Weight(|srs| + 1, queue)
  {
    if |queue| > 0 {
      var cur := queue[0];
      LeftmostRewritesShape(srs, cur);
      var rw := LeftmostRewrites(srs, cur);
      if |rw| == 0 {
        PowPositive(|srs| + 1, |cur|);
        ExploreCollects(srs, queue[1..], if cur in found then found else found + [cur]);
        IrreducibleHeadStep(srs, queue, found);
      } else {
        WeightAppend(|srs| + 1, queue[1..], rw);
        RewritesWeighLess(|srs| + 1, cur, rw);
        ExploreCollects(srs, queue[1..] + rw, found);
        ReducibleHeadStep(srs, queue, found);
      }
    }
  }

  lemma IrreducibleHeadStep(srs: Srs, queue: seq<Word>, found: seq<Word>)
    requires Shortening(srs)
    requires |queue| > 0 && |LeftmostRewrites(srs, queue[0])| == 0
    requires var found' := if queue[0] in found then found else found + [queue[0]];
             forall v :: v in Explore(srs, queue[1..], found') <==> Collected(srs, queue[1..], found', v)
    ensures forall v :: v in Explore(srs, queue, found) <==> Collected(srs, queue, found, v)
  {
    var found' := if queue[0] in found then found else found + [queue[0]];
    assert Explore(srs, queue, found) == Explore(srs, queue[1..], found');
    forall v
      ensures v in Explore(srs, queue, found) <==> Collected(srs, queue, found, v)
    {
      CollectedIrreducibleHead(srs, queue, found, v);
    }
  }

  lemma ReducibleHeadStep(srs: Srs, queue: seq<Word>, found: seq<Word>)
    requires Shortening(srs)
    requires |queue| > 0 && |LeftmostRewrites(srs, queue[0])| > 0
    requires var q' := queue[1..] + LeftmostRewrites(srs, queue[0]);
             forall v :: v in Explore(srs, q', found) <==> Collected(srs, q', found, v)
    ensures forall v :: v in Explore(srs, queue, found) <==> Collected(srs, queue, found, v)
  {
    assert Explore(srs, queue, found) == Explore(srs, queue[1..] + LeftmostRewrites(srs, queue[0]), found);
    forall v
      ensures v in Explore(srs, queue, found) <==> Collected(srs, queue, found, v)
    {
      CollectedReducibleHead(srs, queue, found, v);
    }
  }

  /** `NormForm(w)` is exactly the set of irreducible words `w` derives. */
  lemma NormFormsCharacterized(srs: Srs, w: Word, v: Word)
    requires Shortening(srs)
    ensures v in NormForms(srs, w) <==> Irreducible(srs, v) && Derives(srs, w, v)
  {
    ExploreCollects(srs, [w], []);
    assert Collected(srs, [w], [], v) <==> Irreducible(srs, v) && Derives(srs, w, v);
  }

  /** Leftmost rewriting never lengthens a word. */
  lemma {:induction false} DerivesShortens(srs: Srs, u: Word, v: Word)
    requires Shortening(srs)
    requires Derives(srs, u, v)
    ensures |v| <= |u|
    decreases |u|
  {
    if u != v {
      var x :| x in LeftmostRewrites(srs, u) && Derives(srs, x, v);
      LeftmostRewritesShape(srs, u);
      DerivesShortens(srs, x, v);
    }
  }

  /** Every normal form found is no longer than the start word. */
  lemma NormFormsNoLonger(srs: Srs, w: Word, v: Word)
    requires Shortening(srs)
    requires v in NormForms(srs, w)
    ensures |v| <= |w|
  {
    NormFormsCharacterized(srs, w, v);
    DerivesShortens(srs, w, v);
  }

  /** An irreducible start word is its own and only normal form. */
  lemma NormFormsOfIrreducible(srs: Srs, w: Word)
    requires Shortening(srs)
    requires Irreducible(srs, w)
    ensures NormForms(srs, w) == [w]
  {
    LeftmostRewritesEmptyIffIrreducible(srs, w);
    assert [w][1..] == [];
    assert Explore(srs, [w], []) == Explore(srs, [], [] + [w]);
    assert [] + [w] == [w];
  }

  /** Every word derives some normal form. */
  lemma {:induction false} SomeNormalForm(srs: Srs, u: Word)
    requires Shortening(srs)
    ensures exists v :: Irreducible(srs, v) && Derives(srs, u, v)
    decreases |u|
  {
    var rw := LeftmostRewrites(srs, u);
    LeftmostRewritesShape(srs, u);
    LeftmostRewritesEmptyIffIrreducible(srs, u);
    if |rw| == 0 {
      assert Derives(srs, u, u);
    } else {
      SomeNormalForm(srs, rw[0]);
      var v :| Irreducible(srs, v) && Derives(srs, rw[0], v);
      assert Derives(srs, u, v);
    }
  }

  /** `NormForm` never comes back empty. */
  lemma NormFormsNonEmpty(srs: Srs, w: Word)
    requires Shortening(srs)
    ensures |NormForms(srs, w)| > 0
  {
    SomeNormalForm(srs, w);
    var v :| Irreducible(srs, v) && Derives(srs, w, v);
    NormFormsCharacterized(srs, w, v);
  }

  /** A leftmost derivation is a rewrite sequence no longer than the start word. */
  lemma {:induction false} DerivesIsReachable(srs: Srs, u: Word, v: Word)
    requires Shortening(srs)
    requires Derives(srs, u, v)
    ensures Reachable(srs, u, v, |u|)
    decreases |u|
  {
    if u != v {
      var x :| x in LeftmostRewrites(srs, u) && Derives(srs, x, v);
      LeftmostRewritesShape(srs, u);
      DerivesIsReachable(srs, x, v);
      ReachMono(NextOf(srs), x, v, |x|, |u| - 1);
      LeftmostRewritesAreSuccessors(srs, u, x);
      assert x in NextOf(srs)(u);
    }
  }

  /** Worked example: `baaa` has the single normal form `ab`, by either branch. */
  lemma NormFormOfBaaa()
    ensures AllRewrites("baaa") == ["baa", "aba"]
    ensures NormForm("baaa") == ["ab"]
  {
    RulesShorten();
    RewritesOfBaaa("baaa");
    ExploreBaaa1();
    ExploreBaaa2();
    ExploreBaaa3();
    ExploreBaaa4();
  }

  lemma ExploreBaaa1()
    ensures Explore(Rules, ["baaa"], []) == Explore(Rules, ["baa", "aba"], [])
  {
    RulesShorten();
    RewritesOfBaaa("baaa");
    assert ["baaa"][1..] + ["baa", "aba"] == ["baa", "aba"];
  }

  lemma ExploreBaaa2()
    ensures Explore(Rules, ["baa", "aba"], []) == Explore(Rules, ["aba", "ab"], [])
  {
    RulesShorten();
    RewritesOfBaa();
    assert ["baa", "aba"][1..] + ["ab"] == ["aba", "ab"];
  }

  lemma ExploreBaaa3()
    ensures Explore(Rules, ["aba", "ab"], []) == Explore(Rules, ["ab", "ab"], [])
  {
    RulesShorten();
    RewritesOfAba();
    assert ["aba", "ab"][1..] + ["ab"] == ["ab", "ab"];
  }

  lemma ExploreBaaa4()
    ensures Explore(Rules, ["ab", "ab"], []) == ["ab"]
  {
    RulesShorten();
    RewritesOfAb();
    assert ["ab", "ab"][1..] == ["ab"];
    assert [] + ["ab"] == ["ab"];
    assert Explore(Rules, ["ab", "ab"], []) == Explore(Rules, ["ab"], ["ab"]);
    assert ["ab"][1..] == [];
    assert Explore(Rules, ["ab"], ["ab"]) == Explore(Rules, [], ["ab"]);
  }

  /** `baaa`: `aaa` first occurs at 1 and `baa` at 0; no other pattern occurs. */
  lemma RewritesOfBaaa(w: Word)
    requires w == "baaa"
    ensures LeftmostRewrites(Rules, w) == ["baa", "aba"]
  {
    RewritesOfBaaaTail(w);
    BaaaHasAaa();
    BaaaLacksBab();
    RewritesStep(2, w, ["aba"]);
    RewritesStep(1, w, ["baa", "aba"]);
    RewritesStep(0, w, ["baa", "aba"]);
  }

  lemma RewritesOfBaaaTail(w: Word)
    requires w == "baaa"
    ensures LeftmostRewrites(Rules[3..], w) == ["aba"]
  {
    BaaaLacksAbb();
    BaaaHasBaa();
    RewritesStep(6, w, []);
    RewritesStep(5, w, []);
    RewritesStep(4, w, ["aba"]);
    RewritesStep(3, w, ["aba"]);
  }

  /** One rule of the table: its rewrite, if its pattern occurs, comes before those of the later rules. */
  lemma RewritesStep(k: nat, w: Word, rest: seq<Word>)
    requires k < |Rules|
    requires LeftmostRewrites(Rules[k + 1..], w) == rest
    ensures LeftmostRewrites(Rules[k..], w) ==
            (if Contains(w, Rules[k].pattern) then [ReplaceFirst(w, Rules[k].pattern, Rules[k].replacement)] else []) + rest
  {
    assert Rules[k..][0] == Rules[k];
    assert Rules[k..][1..] == Rules[k + 1..];
  }

  lemma BaaaLacksBab()
    ensures !Contains("baaa", "bab") && !Contains("baaa", "bbb")
  {
    var w: Word := "baaa";
    Mismatch(w, "bab", 0, 2);
    Mismatch(w, "bab", 1, 0);
    Mismatch(w, "bbb", 0, 1);
    Mismatch(w, "bbb", 1, 0);
  }

  lemma BaaaLacksAbb()
    ensures !Contains("baaa", "abb") && !Contains("baaa", "aab") && !Contains("baaa", "aba")
  {
    var w: Word := "baaa";
    Mismatch(w, "abb", 0, 0);
    Mismatch(w, "abb", 1, 1);
    Mismatch(w, "aab", 0, 0);
    Mismatch(w, "aab", 1, 2);
    Mismatch(w, "aba", 0, 0);
    Mismatch(w, "aba", 1, 1);
  }

  lemma BaaaHasAaa()
    ensures Contains("baaa", "aaa") && ReplaceFirst("baaa", "aaa", "aa") == "baa"
  {
    var w: Word := "baaa";
    Mismatch(w, "aaa", 0, 0);
    assert OccursAt(w, "aaa", 1);
    LeftmostAt(w, "aaa", "aa", 1);
    assert Splice(w, 1, 3, "aa") == "baa";
  }

  lemma BaaaHasBaa()
    ensures Contains("baaa", "baa") && ReplaceFirst("baaa", "baa", "ab") == "aba"
  {
    var w: Word := "baaa";
    assert OccursAt(w, "baa", 0);
    LeftmostAt(w, "baa", "ab", 0);
    assert Splice(w, 0, 3, "ab") == "aba";
  }

  /** `baa`: only `baa` occurs. */
  lemma RewritesOfBaa()
    ensures LeftmostRewrites(Rules, "baa") == ["ab"]
  {
    var w: Word := "baa";
    Mismatch(w, "bab", 0, 2);
    Mismatch(w, "aaa", 0, 0);
    Mismatch(w, "abb", 0, 0);
    Mismatch(w, "aab", 0, 0);
    Mismatch(w, "aba", 0, 0);
    Mismatch(w, "bbb", 0, 1);
    assert OccursAt(w, "baa", 0);
    LeftmostAt(w, "baa", "ab", 0);
    assert Splice(w, 0, 3, "ab") == "ab";
    TableSuffixes();
  }

  /** `aba`: only `aba` occurs. */
  lemma RewritesOfAba()
    ensures LeftmostRewrites(Rules, "aba") == ["ab"]
  {
    var w: Word := "aba";
    Mismatch(w, "bab", 0, 0);
    Mismatch(w, "aaa", 0, 1);
    Mismatch(w, "abb", 0, 2);
    Mismatch(w, "aab", 0, 1);
    Mismatch(w, "baa", 0, 0);
    Mismatch(w, "bbb", 0, 0);
    assert OccursAt(w, "aba", 0);
    LeftmostAt(w, "aba", "ab", 0);
    assert Splice(w, 0, 3, "ab") == "ab";
    TableSuffixes();
  }

  /** `ab` is shorter than every pattern, so it is irreducible. */
  lemma RewritesOfAb()
    ensures LeftmostRewrites(Rules, "ab") == []
  {
    RulesShorten();
    LeftmostRewritesEmptyIffIrreducible(Rules, "ab");
  }

  lemma TableSuffixes()
    ensures Rules[1..][1..] == Rules[2..] && Rules[2..][1..] == Rules[3..]
    ensures Rules[3..][1..] == Rules[4..] && Rules[4..][1..] == Rules[5..]
    ensures Rules[5..][1..] == Rules[6..] && Rules[6..][1..] == []
  {
  }
}
