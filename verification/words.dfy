/**
 Words and the handful of JavaScript string primitives the rewriting code is
 built from: `indexOf`, `includes`, the `indexOf(p, pos + 1)` scan for every
 (possibly overlapping) occurrence, splicing with `substring`, the
 first-occurrence `String.replace`, symbol counting and `[...new Set(xs)]`.
 */
module Words {

  datatype Option<+T> = None | Some(value: T)

  /** A word is a finite sequence of symbols; the empty word is a word too. */
  type Word = seq<char>

  /** `p` occurs in `w` starting at index `i`. */
  predicate OccursAt(w: Word, p: Word, i: int) {
    0 <= i && i + |p| <= |w| && w[i..i + |p|] == p
  }

  /** `p` occurs somewhere in `w`. */
  ghost predicate Occurs(w: Word, p: Word) {
    exists i :: OccursAt(w, p, i)
  }

  /** `w.indexOf(p, from)` for a non-empty `p`: the first occurrence at or after `from`. */
  function IndexOf(w: Word, p: Word, from: nat): (r: Option<nat>)
    requires |p| > 0
    ensures r.Some? ==> from <= r.value && OccursAt(w, p, r.value)
    ensures r.Some? ==> forall j :: from <= j < r.value ==> !OccursAt(w, p, j)
    ensures r.None? ==> forall j :: from <= j ==> !OccursAt(w, p, j)
    decreases |w| - from
  {
    if |w| < from + |p| then None
    else if w[from..from + |p|] == p then Some(from)
    else IndexOf(w, p, from + 1)
  }

  /** `w.includes(p)`, i.e. `w.indexOf(p) !== -1`. */
  function Contains(w: Word, p: Word): (b: bool)
    requires |p| > 0
    ensures b <==> Occurs(w, p)
  {
    IndexOf(w, p, 0).Some?
  }

  /**
   The positions collected by `pos = w.indexOf(p, from); while (pos !== -1)
   { push(pos); pos = w.indexOf(p, pos + 1) }`. The scan resumes one symbol
   after the previous match's start, so overlapping occurrences are all found.
   */
  function PositionsFrom(w: Word, p: Word, from: nat): (ps: seq<nat>)
    requires |p| > 0
    ensures forall k :: 0 <= k < |ps| ==> from <= ps[k] && OccursAt(w, p, ps[k])
    ensures forall j :: from <= j && OccursAt(w, p, j) ==> j in ps
    ensures forall k, l :: 0 <= k < l < |ps| ==> ps[k] < ps[l]
    decreases |w| - from
  {
    match IndexOf(w, p, from)
    case None => []
    case Some(i) => [i] + PositionsFrom(w, p, i + 1)
  }

  /** Every start position of `p` in `w`, ascending. */
  function Positions(w: Word, p: Word): (ps: seq<nat>)
    requires |p| > 0
    ensures forall j :: j in ps <==> OccursAt(w, p, j)
    ensures forall k, l :: 0 <= k < l < |ps| ==> ps[k] < ps[l]
    ensures |ps| > 0 <==> Occurs(w, p)
  {
    var ps := PositionsFrom(w, p, 0);
    assert Occurs(w, p) ==> |ps| > 0 by {
      if Occurs(w, p) {
        var j :| OccursAt(w, p, j);
        assert j in ps;
      }
    }
    ps
  }

  /** A pattern holding a symbol the word lacks does not occur in it. */
  lemma AbsentSymbol(w: Word, p: Word, m: nat)
    requires m < |p|
    requires p[m] !in w
    ensures !Occurs(w, p)
    ensures |p| > 0 ==> Positions(w, p) == [] && !Contains(w, p)
  {
    forall i
      ensures !OccursAt(w, p, i)
    {
      if 0 <= i && i + |p| <= |w| {
        assert w[i..i + |p|][m] == w[i + m];
        assert w[i + m] in w;
      }
    }
  }

  /** A single differing symbol rules out an occurrence. */
  lemma Mismatch(w: Word, p: Word, i: nat, m: nat)
    requires m < |p|
    requires i + m < |w| ==> w[i + m] != p[m]
    ensures !OccursAt(w, p, i)
  {
    if i + |p| <= |w| {
      assert w[i..i + |p|][m] == w[i + m];
    }
  }

  /** `w.substring(0, i) + r + w.substring(i + n)`: the `n` symbols at `i` become `r`. */
  function Splice(w: Word, i: nat, n: nat, r: Word): (v: Word)
    requires i + n <= |w|
    ensures |v| == |w| - n + |r|
  {
    w[..i] + r + w[i + n..]
  }

  /** Splicing in a different word at an occurrence of `p` always changes the word. */
  lemma SpliceChanges(w: Word, p: Word, r: Word, i: nat)
    requires OccursAt(w, p, i)
    requires p != r
    ensures Splice(w, i, |p|, r) != w
  {
    var v := Splice(w, i, |p|, r);
    if |p| == |r| {
      assert v[i..i + |r|] == r;
      assert w[i..i + |p|] == p;
    }
  }

  /** `w.replace(p, r)` with a string pattern: only the leftmost occurrence is rewritten. */
  function ReplaceFirst(w: Word, p: Word, r: Word): (v: Word)
    requires |p| > 0
    ensures !Occurs(w, p) ==> v == w
    ensures Occurs(w, p) ==> exists i :: OccursAt(w, p, i) && (forall j :: 0 <= j < i ==> !OccursAt(w, p, j)) && v == Splice(w, i, |p|, r)
  {
    match IndexOf(w, p, 0)
    case None => w
    case Some(i) => Splice(w, i, |p|, r)
  }

  /** The leftmost occurrence determines `indexOf` and `replace`. */
  lemma LeftmostAt(w: Word, p: Word, r: Word, i: nat)
    requires |p| > 0
    requires OccursAt(w, p, i)
    requires forall j :: 0 <= j < i ==> !OccursAt(w, p, j)
    ensures IndexOf(w, p, 0) == Some(i)
    ensures ReplaceFirst(w, p, r) == Splice(w, i, |p|, r)
  {
  }

  /** Number of occurrences of the symbol `c` in `w` (`(w.match(/c/g) || []).length`). */
  function Count(w: Word, c: char): nat
  {
    if |w| == 0 then 0 else (if w[0] == c then 1 else 0) + Count(w[1..], c)
  }

  lemma {:induction false} CountAppend(u: Word, v: Word, c: char)
    ensures Count(u + v, c) == Count(u, c) + Count(v, c)
    decreases |u|
  {
    if |u| == 0 {
      assert u + v == v;
    } else {
      assert (u + v)[1..] == u[1..] + v;
      CountAppend(u[1..], v, c);
    }
  }

  /** Every symbol of `w` is `a` or `b`. */
  predicate OverAB(w: Word) {
    forall k :: 0 <= k < |w| ==> w[k] == 'a' || w[k] == 'b'
  }

  /** A word over `{a, b}` has as many symbols as `a`s and `b`s together. */
  lemma {:induction false} CountOverAB(w: Word)
    requires OverAB(w)
    ensures Count(w, 'a') + Count(w, 'b') == |w|
    decreases |w|
  {
    if |w| > 0 {
      CountOverAB(w[1..]);
    }
  }

  /** No element of `s` repeats. */
  predicate Distinct<T(==)>(s: seq<T>) {
    forall i, j :: 0 <= i < j < |s| ==> s[i] != s[j]
  }

  /** `[...new Set(s)]`: the first occurrence of every element, in order. */
  function Dedup<T(==,!new)>(s: seq<T>): (d: seq<T>)
    ensures Distinct(d)
    ensures forall x :: x in d <==> x in s
    ensures |d| <= |s|
  {
    if |s| == 0 then []
    else
      var rest := Dedup(s[..|s| - 1]);
      assert s == s[..|s| - 1] + [s[|s| - 1]];
      if s[|s| - 1] in rest then rest else rest + [s[|s| - 1]]
  }
}
