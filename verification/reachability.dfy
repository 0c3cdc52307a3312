/**
 Bounded reachability: a reference definition and the level-by-level
 breadth-first search `canReachBFS` with its visited set, proved equal to
 it. Both are stated for any successor function; `CanReachBfs` instantiates
 them with `getNextWords`.
 */
module Reachability {
  import opened Words
  import opened Rewriting

  /** Reference definition: `v` is reachable from `u` in at most `n` steps of `next`. */
  predicate ReachIn(next: Word -> seq<Word>, u: Word, v: Word, n: nat)
    decreases n
  {
    u == v || (n > 0 && exists x :: x in next(u) && ReachIn(next, x, v, n - 1))
  }

  /** `v` is reachable from `u` in at most `n` rewrite steps of `srs`. */
  predicate Reachable(srs: Srs, u: Word, v: Word, n: nat)
  {
    ReachIn(NextOf(srs), u, v, n)
  }

  lemma {:induction false} ReachMono(next: Word -> seq<Word>, u: Word, v: Word, n: nat, m: nat)
    requires n <= m
    requires ReachIn(next, u, v, n)
    ensures ReachIn(next, u, v, m)
    decreases n
  {
    if u != v {
      var x :| x in next(u) && ReachIn(next, x, v, n - 1);
      ReachMono(next, x, v, n - 1, m - 1);
    }
  }

  /** A path can be extended by one step at its end. */
  lemma {:induction false} ReachSnoc(next: Word -> seq<Word>, u: Word, x: Word, v: Word, n: nat)
    requires ReachIn(next, u, x, n)
    requires v in next(x)
    ensures ReachIn(next, u, v, n + 1)
    decreases n
  {
    if u == x {
      assert ReachIn(next, v, v, n);
    } else {
      var y :| y in next(u) && ReachIn(next, y, x, n - 1);
      ReachSnoc(next, y, x, v, n - 1);
    }
  }

  /** A path of at most `n + 1` steps is one of at most `n` steps or ends with a step from such a path. */
  lemma {:induction false} ReachLast(next: Word -> seq<Word>, u: Word, v: Word, n: nat)
    requires ReachIn(next, u, v, n + 1)
    ensures ReachIn(next, u, v, n) || exists x :: ReachIn(next, u, x, n) && v in next(x)
    decreases n
  {
    if u != v {
      var y :| y in next(u) && ReachIn(next, y, v, n);
      if n == 0 {
        assert ReachIn(next, u, u, 0) && v in next(u);
      } else {
        ReachLast(next, y, v, n - 1);
        if ReachIn(next, y, v, n - 1) {
          assert ReachIn(next, u, v, n);
        } else {
          var x :| ReachIn(next, y, x, n - 1) && v in next(x);
          assert ReachIn(next, u, x, n);
        }
      }
    }
  }

  /** Outcome of processing one BFS level. */
  datatype Level = Found | Next(queue: seq<Word>, visited: set<Word>)

  /** `x` is a successor of some word of `level`. */
  ghost predicate Produces(next: Word -> seq<Word>, level: seq<Word>, x: Word) {
    exists u :: u in level && x in next(u)
  }

  /**
   The inner `for (const next of nextWords)` loop: stop on `target`, otherwise
   enqueue and mark every successor not yet visited.
   */
  function ExpandSuccessors(target: Word, succs: seq<Word>, queue: seq<Word>, visited: set<Word>): (r: Level)
    ensures r.Found? <==> target in succs
    ensures r.Next? ==> forall x :: x in r.visited <==> x in visited || x in succs
    ensures r.Next? ==> forall x :: x in r.queue <==> x in queue || (x in succs && x !in visited)
    decreases |succs|
  {
    if |succs| == 0 then Next(queue, visited)
    else if succs[0] == target then Found
    else if succs[0] !in visited then
      ExpandSuccessors(target, succs[1..], queue + [succs[0]], visited + {succs[0]})
    else ExpandSuccessors(target, succs[1..], queue, visited)
  }

  /** One iteration of the outer `while`: every word of the current level is shifted and expanded. */
  function ExpandLevel(next: Word -> seq<Word>, target: Word, level: seq<Word>, queue: seq<Word>, visited: set<Word>): (r: Level)
    ensures r.Found? <==> Produces(next, level, target)
    ensures r.Next? ==> forall x :: x in r.visited <==> x in visited || Produces(next, level, x)
    ensures r.Next? ==> forall x :: x in r.queue <==> x in queue || (x !in visited && Produces(next, level, x))
    decreases |level|
  {
    if |level| == 0 then Next(queue, visited)
    else
      assert forall x :: Produces(next, level, x) <==> x in next(level[0]) || Produces(next, level[1..], x) by {
        forall x
          ensures Produces(next, level, x) <==> x in next(level[0]) || Produces(next, level[1..], x)
        {
          if Produces(next, level, x) {
            var u :| u in level && x in next(u);
            assert u == level[0] || u in level[1..];
          }
          if Produces(next, level[1..], x) {
            var u :| u in level[1..] && x in next(u);
            assert u in level;
          }
        }
      }
      match ExpandSuccessors(target, next(level[0]), queue, visited)
      case Found => Found
      case Next(q, v) => ExpandLevel(next, target, level[1..], q, v)
  }

  /** The outer `while (queue.length > 0 && depth < maxDepth)` loop, one level per call. */
  function BfsLevels(next: Word -> seq<Word>, target: Word, queue: seq<Word>, visited: set<Word>, depth: nat, maxDepth: nat): bool
    decreases maxDepth - depth
  {
    if |queue| == 0 || depth >= maxDepth then false
    else
      match ExpandLevel(next, target, queue, [], visited)
      case Found => true
      case Next(q, v) => BfsLevels(next, target, q, v, depth + 1, maxDepth)
  }

  /** Breadth-first search from `start` for `target`, at most `maxDepth` levels deep. */
  function Bfs(next: Word -> seq<Word>, start: Word, target: Word, maxDepth: nat): (b: bool)
    ensures start == target ==> b
    ensures start != target && maxDepth == 0 ==> !b
  {
    if start == target then true
    else BfsLevels(next, target, [start], {start}, 0, maxDepth)
  }

  /** `canReachBFS(start, target, srs, maxDepth)`. */
  function CanReachBfs(srs: Srs, start: Word, target: Word, maxDepth: nat): (b: bool)
    ensures start == target ==> b
    ensures start != target && maxDepth == 0 ==> !b
  {
    Bfs(NextOf(srs), start, target, maxDepth)
  }

  /** `x` is first reached after exactly `d` steps. */
  ghost predicate Frontier(next: Word -> seq<Word>, s: Word, x: Word, d: nat) {
    ReachIn(next, s, x, d) && (d == 0 || !ReachIn(next, s, x, d - 1))
  }

  /** What the search knows at the head of the outer loop after `d` levels. */
  ghost predicate LevelInvariant(next: Word -> seq<Word>, s: Word, t: Word, queue: seq<Word>, visited: set<Word>, d: nat) {
    && (forall x :: x in visited <==> ReachIn(next, s, x, d))
    && (forall x :: x in queue <==> Frontier(next, s, x, d))
    && !ReachIn(next, s, t, d)
  }

  /** The words within `d + 1` steps are those within `d` steps and the successors of the frontier. */
  lemma NextLevel(next: Word -> seq<Word>, s: Word, queue: seq<Word>, d: nat, x: Word)
    requires forall y :: y in queue <==> Frontier(next, s, y, d)
    ensures ReachIn(next, s, x, d + 1) <==> ReachIn(next, s, x, d) || Produces(next, queue, x)
  {
    if ReachIn(next, s, x, d + 1) && !ReachIn(next, s, x, d) {
      ReachLast(next, s, x, d);
      var y :| ReachIn(next, s, y, d) && x in next(y);
      if !Frontier(next, s, y, d) {
        ReachSnoc(next, s, y, x, d - 1);
      }
      assert y in queue;
    }
    if ReachIn(next, s, x, d) {
      ReachMono(next, s, x, d, d + 1);
    } else if Produces(next, queue, x) {
      var y :| y in queue && x in next(y);
      ReachSnoc(next, s, y, x, d);
    }
  }

  /** Once a level is empty, nothing new is ever reached. */
  lemma {:induction false} NoFrontierIsStable(next: Word -> seq<Word>, s: Word, x: Word, d: nat, m: nat)
    requires forall y :: !Frontier(next, s, y, d)
    requires d <= m
    requires ReachIn(next, s, x, m)
    ensures ReachIn(next, s, x, d)
    decreases m - d
  {
    if d < m {
      ReachLast(next, s, x, m - 1);
      if ReachIn(next, s, x, m - 1) {
        NoFrontierIsStable(next, s, x, d, m - 1);
      } else {
        var y :| ReachIn(next, s, y, m - 1) && x in next(y);
        NoFrontierIsStable(next, s, y, d, m - 1);
        assert !Frontier(next, s, y, d);
        ReachSnoc(next, s, y, x, d - 1);
      }
    }
  }

  lemma {:induction false} BfsLevelsCorrect(next: Word -> seq<Word>, s: Word, t: Word, queue: seq<Word>, visited: set<Word>, d: nat, maxDepth: nat)
    requires LevelInvariant(next, s, t, queue, visited, d)
    requires d <= maxDepth
    ensures BfsLevels(next, t, queue, visited, d, maxDepth) <==> ReachIn(next, s, t, maxDepth)
    decreases maxDepth - d
  {
    if |queue| == 0 {
      if ReachIn(next, s, t, maxDepth) {
        NoFrontierIsStable(next, s, t, d, maxDepth);
      }
    } else if d < maxDepth {
      forall x
        ensures ReachIn(next, s, x, d + 1) <==> ReachIn(next, s, x, d) || Produces(next, queue, x)
      {
        NextLevel(next, s, queue, d, x);
      }
      match ExpandLevel(next, t, queue, [], visited)
      case Found =>
        ReachMono(next, s, t, d + 1, maxDepth);
      case Next(q, v) =>
        assert LevelInvariant(next, s, t, q, v, d + 1);
        BfsLevelsCorrect(next, s, t, q, v, d + 1, maxDepth);
    }
  }

  /** The search answers true exactly when `target` is within `maxDepth` steps of `start`. */
  lemma BfsCorrect(next: Word -> seq<Word>, start: Word, target: Word, maxDepth: nat)
    ensures Bfs(next, start, target, maxDepth) <==> ReachIn(next, start, target, maxDepth)
  {
    if start != target {
      assert LevelInvariant(next, start, target, [start], {start}, 0);
      BfsLevelsCorrect(next, start, target, [start], {start}, 0, maxDepth);
    }
  }

  /**
   Soundness and completeness of `canReachBFS` within its bound: it answers
   true exactly when `target` is reachable from `start` in at most `maxDepth`
   rewrite steps.
   */
  lemma CanReachBfsCorrect(srs: Srs, start: Word, target: Word, maxDepth: nat)
    ensures CanReachBfs(srs, start, target, maxDepth) <==> Reachable(srs, start, target, maxDepth)
  {
    BfsCorrect(NextOf(srs), start, target, maxDepth);
  }

  /** One-step soundness: every successor is found by a search of depth at least one. */
  lemma CanReachSuccessor(srs: Srs, start: Word, target: Word, maxDepth: nat)
    requires target in NextWords(srs, start)
    requires maxDepth >= 1
    ensures CanReachBfs(srs, start, target, maxDepth)
  {
    var next := NextOf(srs);
    assert target in next(start);
    assert ReachIn(next, target, target, 0);
    assert ReachIn(next, start, target, 1);
    ReachMono(next, start, target, 1, maxDepth);
    CanReachBfsCorrect(srs, start, target, maxDepth);
  }
}
