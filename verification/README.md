# String rewriting labs and automata acceptors, modelled in Dafny

This project models two teaching labs. Each model is a set of pure functions, with proofs about them.

**Lab 1** is a toolkit for a string rewriting system over words in `{a, b}`. A rule `(p, r)` rewrites one occurrence of the pattern `p` into `r`. It has four parts:

- **FazzingTest.** A randomized equivalence tester between the rule set `T` and its completion `T'`. It has three pieces:
  - `getNextWords` lists the one-step successors. Occurrences may overlap.
  - `canReachBFS` is a depth-bounded breadth-first reachability search.
  - `appRandRule` and `appRandSequence` take a random derivation to a fixpoint.

  There are two versions:
  - the TypeScript source;
  - its compiled JavaScript. The compiled file has a different `T` and a step-bounded walk, and its random step never rewrites at position 0.
- **ReplenishmentAlgorithm.** Exhaustive normal-form enumeration (`NormForm`). It uses the seven length-reducing rules of the completed system with `String.replace` semantics: each rule rewrites only its leftmost occurrence. It also has the word enumerator `generateStrings`.
- **MetamorfTest.** A random derivation under the nine-rule `T'`, recorded as a trace (`GenMetamorf`). Each entry checks two invariants of the start word:
  - the parity of the number of `b`s (`checkB`);
  - the parity of `count(a) + length` (`checkA`).

**Lab 2** (FuzzTest) has finite-automaton acceptors over `{a, b, c}`:

- a table-driven DFA;
- an NFA simulated on subsets of states, whose table is built by `addStateTransition`;
- an "AFA" that takes a 2-of-3 majority vote of three DFAs;
- the tester `testSingleWord`, which compares the NFA with the DFA.

## How the model is organised

- **`Words`:** words as `seq<char>`, plus the JavaScript string primitives the code uses:
  - `indexOf` and `includes`;
  - the `indexOf(p, pos + 1)` scan for every occurrence;
  - `substring` splicing;
  - first-occurrence `replace`;
  - symbol counting;
  - `[...new Set(xs)]`.
- **`Rewriting`:** rules, with a non-empty pattern, and the one-step rewrite relation `Step`. `NextWords` is `getNextWords`.
- **`Reachability`:** the BFS of `canReachBFS`, modelled level by level with its queue and visited set. It is proved equal to a reference definition, `ReachIn`: reachable in at most `n` steps.
- **`TwoStage`:** the two-stage random choice shared by `appRandRule`, `applyRandomRule` and `randomRule`. It first picks an applicable rule, then one of that rule's positions. Every `Math.floor(Math.random() * n)` becomes an explicit index below `n`. Multi-step walks read a stream of `Draw`s, each reduced modulo the number of options, and every in-range choice is reachable that way.
- **`FuzzSrc`, `FuzzDist`, `Replenishment`, `Metamorf`, `Automata`:** one module per program.

## Model

| member | source | states |
|---|---|---|
| Words.IndexOf | Lab1/FazzingTest/src/main.ts:58-61 | the result is the first occurrence of the pattern at or after `from`; none means no occurrence there |
| Words.Contains | Lab1/FazzingTest/src/main.ts:44 | `includes` is true exactly when the pattern occurs somewhere in the word |
| Words.Positions | Lab1/FazzingTest/src/main.ts:57-62 | the collected positions are exactly the start indices of the pattern, overlapping ones included, strictly ascending, and non-empty iff the pattern occurs |
| Words.ReplaceFirst | Lab1/ReplenishmentAlgorithm/src/main.ts:33-38 | `replace` with a string pattern splices the replacement in at the leftmost occurrence and leaves a word without the pattern unchanged |
| Words.Dedup | Lab1/FazzingTest/src/main.ts:107 | the deduplicated list has no repeats and exactly the elements of its input |
| Rewriting.IrreducibleIffNoStep | Lab1/FazzingTest/src/main.ts:42-50 | no rule pattern occurs in the word iff the word has no one-step rewrite |
| Rewriting.SuccessorsAreSteps | Lab1/FazzingTest/src/main.ts:99-105 | the words pushed by the nested loop are exactly the one-step rewrites over every rule and every occurrence |
| Rewriting.NextWords | Lab1/FazzingTest/src/main.ts:97-108 | the result has no duplicates and the same elements as the list of all rewrites |
| Rewriting.NextWordsAreSteps | Lab1/FazzingTest/src/main.ts:97-108 | a word is in `getNextWords(w)` iff it is `w[..i] + r + w[i+\|p\|..]` for some rule `(p, r)` occurring at `i` |
| Rewriting.SuccessorLength | Lab1/FazzingTest/src/main.ts:102 | every successor has length `\|w\| - \|p\| + \|r\|` for the rule that produced it |
| Rewriting.NextWordsEmptyIffIrreducible | Lab1/FazzingTest/src/main.ts:99-105 | `getNextWords(w)` is empty iff no rule pattern occurs in `w` |
| Reachability.ExpandSuccessors | Lab1/FazzingTest/src/main.ts:128-137 | the inner loop stops exactly when the target is among the successors; otherwise it adds the unvisited successors to the queue and all of them to the visited set |
| Reachability.ExpandLevel | Lab1/FazzingTest/src/main.ts:121-138 | processing one level finds the target iff some word of the level has it as successor, and otherwise extends queue and visited by exactly the new words that level produces |
| Reachability.Bfs | Lab1/FazzingTest/src/main.ts:111-144 | the search is true when start equals target, and false for distinct words at depth bound 0 |
| Reachability.NextLevel | Lab1/FazzingTest/src/main.ts:120-141 | the words within `d + 1` steps are those within `d` steps plus the successors of the level-`d` frontier |
| Reachability.BfsLevelsCorrect | Lab1/FazzingTest/src/main.ts:120-143 | from any level that satisfies the queue/visited invariant, the remaining loop answers true iff the target is within `maxDepth` steps |
| Reachability.BfsCorrect | Lab1/FazzingTest/src/main.ts:111-144 | the level-by-level search is true iff the target is reachable in at most `maxDepth` rewrites, for any successor function |
| Reachability.CanReachBfsCorrect | Lab1/FazzingTest/src/main.ts:111-144 | `canReachBFS(start, target, srs, d)` is sound and complete for reachability in at most `d` rewrites under `srs` |
| Reachability.CanReachSuccessor | Lab1/FazzingTest/src/main.ts:128-131 | every one-step successor is found by any search of depth at least 1 |
| TwoStage.Applicable | Lab1/FazzingTest/src/main.ts:42-47 | the collected rules are exactly the rules whose pattern occurs in the word |
| TwoStage.ApplicableEmptyIffIrreducible | Lab1/FazzingTest/src/main.ts:48-50 | the applicable list is empty iff the word is irreducible |
| TwoStage.ChooseOccurrence | Lab1/FazzingTest/src/main.ts:53-68 | the choice is absent iff the word is irreducible, and otherwise is a real occurrence of a rule of the set |
| TwoStage.ChosenIsSuccessor | Lab1/FazzingTest/src/main.ts:53-72 | rewriting the chosen occurrence yields a member of `getNextWords` |
| TwoStage.EveryStepIsChoosable | Lab1/FazzingTest/src/main.ts:53-68 | every successor in `getNextWords` is produced by some in-range pair of random indices |
| TwoStage.DrawChoice | Lab1/FazzingTest/src/main.ts:53-68 | any draw reduces to an in-range rule index and an in-range position index |
| TwoStage.DrawChoiceOnto | Lab1/FazzingTest/src/main.ts:53-68 | every in-range pair of indices is the reduction of some draw, so no random choice is lost |
| FuzzSrc.TablesHaveNoIdleRules | Lab1/FazzingTest/src/main.ts:4-23 | no rule of `T` or `T'` has its pattern equal to its replacement |
| FuzzSrc.TPrimeShortens | Lab1/FazzingTest/src/main.ts:4-23 | every rule of `T'` shortens the word, while `T` has a rule that does not |
| FuzzSrc.AppRandRule | Lab1/FazzingTest/src/main.ts:37-73 | the step returns the word itself when no rule applies and otherwise a member of `getNextWords`, position 0 included |
| FuzzSrc.AppRandRuleReachesEverySuccessor | Lab1/FazzingTest/src/main.ts:37-73 | every successor in `getNextWords` is a possible outcome of the random step |
| FuzzSrc.AppRandSequence | Lab1/FazzingTest/src/main.ts:75-95 | the walk's word is reachable from the start within the number of draws, and at a fixpoint under rules without idle rules it is irreducible |
| FuzzSrc.ShorteningWalkTerminates | Lab1/FazzingTest/src/main.ts:78-85 | under shortening rules the walk reaches a fixpoint once it has more draws than the word has symbols |
| FuzzSrc.SuccessorShorter | Lab1/FazzingTest/src/main.ts:97-108 | under shortening rules every successor is strictly shorter |
| FuzzSrc.TPrimeWalkTerminates | Lab1/FazzingTest/src/main.ts:157 | the walk under `T'` always reaches a fixpoint given more draws than the start word's length |
| FuzzSrc.RunEquivalenceTest | Lab1/FazzingTest/src/main.ts:152-173 | a trial result exists iff both walks reach a fixpoint, and it records the start word and the `T` normal form |
| FuzzSrc.EquivalenceSuccessIff | Lab1/FazzingTest/src/main.ts:161-164 | `success` holds iff either normal form reaches the other under `T'` within depth 100 |
| FuzzSrc.EquivalenceComparesNormalForms | Lab1/FazzingTest/src/main.ts:155-157 | the two words the trial compares are irreducible under `T` and `T'` respectively |
| FuzzDist.ApplyRandomRule | Lab1/FazzingTest/dist/main.js:35-68 | the step returns the word unchanged when no rule applies or the chosen position is 0, and a member of `getNextWords` when the chosen position is positive |
| FuzzDist.ApplyRandomSequence | Lab1/FazzingTest/dist/main.js:72-83 | the bounded walk's result is reachable from the start in at most `steps` rewrites |
| FuzzDist.StopsAtNoOp | Lab1/FazzingTest/dist/main.js:72-82 | if the step at any position `k` of the walk leaves the word unchanged, every walk of more than `k` steps ends at the word reached after `k` steps |
| FuzzDist.NoOpIgnoresLaterDraws | Lab1/FazzingTest/dist/main.js:72-82 | after a no-op at step `k`, a walk with any other draws after draw `k` ends at the same word |
| FuzzDist.WalkIsReachable | Lab1/FazzingTest/dist/main.js:72-127 | `canReachBFS(w, result, srs, steps)` holds for the result of the walk |
| FuzzDist.RunEquivalenceTest | Lab1/FazzingTest/dist/main.js:131-147 | the trial records the start word and a word reachable from it in 15 `T` steps |
| FuzzDist.EquivalenceSuccessIff | Lab1/FazzingTest/dist/main.js:137-139 | `success` holds iff the start and transformed words reach one another in some direction under `T'` within depth 100 |
| FuzzDist.PositionZeroStalls | Lab1/FazzingTest/dist/main.js:64-66 | on `bbb` the only successor is `b`, yet the compiled step and walk stay at `bbb`, while the source step reaches `b` |
| Replenishment.GenerateFrom | Lab1/ReplenishmentAlgorithm/src/main.ts:5-13 | the recursion yields `2^(length - \|current\|)` words of the target length extending `current`, in strictly increasing lexicographic order |
| Replenishment.GenerateStrings | Lab1/ReplenishmentAlgorithm/src/main.ts:2-16 | `generateStrings(n)` yields `2^n` words of length `n` over `{a, b}` in lexicographic order with `a < b` |
| Replenishment.GenerateStringsDistinct | Lab1/ReplenishmentAlgorithm/src/main.ts:2-16 | no generated word repeats |
| Replenishment.GenerateStringsComplete | Lab1/ReplenishmentAlgorithm/src/main.ts:2-16 | every word of length `n` over `{a, b}` is generated |
| Replenishment.RulesShorten | Lab1/ReplenishmentAlgorithm/src/main.ts:19-100 | every active rule strictly shortens the word |
| Replenishment.LeftmostRewritesShape | Lab1/ReplenishmentAlgorithm/src/main.ts:103-112 | there is one rewrite per applicable rule, so at most one per rule, and under shortening rules each rewrite is shorter than the word |
| Replenishment.LeftmostRewritesAreLeftmostSteps | Lab1/ReplenishmentAlgorithm/src/main.ts:103-112 | the rewrites are exactly the words obtained by rewriting the leftmost occurrence of some rule's pattern |
| Replenishment.LeftmostRewritesEmptyIffIrreducible | Lab1/ReplenishmentAlgorithm/src/main.ts:103-112 | no rewrite is produced iff no pattern occurs in the word |
| Replenishment.LeftmostRewritesAreSuccessors | Lab1/ReplenishmentAlgorithm/src/main.ts:103-112 | every leftmost rewrite is also a one-step successor in the sense of `getNextWords` |
| Replenishment.AllRewrites | Lab1/ReplenishmentAlgorithm/src/main.ts:103-112 | `AllRewrites(w)` has at most 7 entries, each shorter than `w` and each a one-step successor under the seven rules |
| Replenishment.Explore | Lab1/ReplenishmentAlgorithm/src/main.ts:117-125 | the queue loop terminates, keeps everything already found, adds only irreducible words, and adds none twice |
| Replenishment.ExploreCollects | Lab1/ReplenishmentAlgorithm/src/main.ts:117-125 | the loop collects exactly the irreducible words derivable from the queue, plus those already found |
| Replenishment.NormForms | Lab1/ReplenishmentAlgorithm/src/main.ts:114-127 | every collected normal form is irreducible and none repeats |
| Replenishment.NormForm | Lab1/ReplenishmentAlgorithm/src/main.ts:114-127 | `NormForm(w)` lists distinct words irreducible under the seven rules |
| Replenishment.NormFormsCharacterized | Lab1/ReplenishmentAlgorithm/src/main.ts:114-127 | a word is returned iff it is irreducible and derivable from the start by leftmost rewrites |
| Replenishment.DerivesShortens | Lab1/ReplenishmentAlgorithm/src/main.ts:117-125 | a word derived under shortening rules is no longer than the one it came from |
| Replenishment.NormFormsNoLonger | Lab1/ReplenishmentAlgorithm/src/main.ts:117-123 | every returned normal form is at most as long as the start word |
| Replenishment.NormFormsOfIrreducible | Lab1/ReplenishmentAlgorithm/src/main.ts:117-123 | an irreducible start word is its own only normal form |
| Replenishment.SomeNormalForm | Lab1/ReplenishmentAlgorithm/src/main.ts:117-125 | every word derives some irreducible word |
| Replenishment.NormFormsNonEmpty | Lab1/ReplenishmentAlgorithm/src/main.ts:114-127 | `NormForm` always returns at least one word |
| Replenishment.DerivesIsReachable | Lab1/ReplenishmentAlgorithm/src/main.ts:103-127 | a leftmost derivation is a derivation in the general one-step relation, within `\|w\|` steps |
| Replenishment.NormFormOfBaaa | Lab1/ReplenishmentAlgorithm/src/main.ts:52-87 | `AllRewrites("baaa")` is `["baa", "aba"]`, and `NormForm("baaa")` is `["ab"]` |
| Metamorf.CheckB | Lab1/MetamorfTest/src/main.ts:40-49 | the value is `count_b mod 2`, valid with no baseline, and valid against a baseline iff equal to it |
| Metamorf.CheckA | Lab1/MetamorfTest/src/main.ts:52-63 | the value is `(count_a + length) mod 2`, with the same baseline behaviour as `checkB` |
| Metamorf.CheckAMatchesCheckB | Lab1/MetamorfTest/src/main.ts:52-63 | for words over `{a, b}` the two invariants have the same value |
| Metamorf.TPrimePreservesParities | Lab1/MetamorfTest/src/main.ts:4-14 | every rule of the nine-rule `T'` keeps both parities |
| Metamorf.ApplyCounts | Lab1/MetamorfTest/src/main.ts:115 | a rewrite changes each symbol count by the difference between pattern and replacement |
| Metamorf.ApplyKeepsParities | Lab1/MetamorfTest/src/main.ts:115 | rewriting with a parity-keeping rule keeps both invariants of the word |
| Metamorf.RandomRule | Lab1/MetamorfTest/src/main.ts:73-118 | the step reports `'none'` iff no pattern occurs, and otherwise rewrites one occurrence of the reported rule into a member of `getNextWords` |
| Metamorf.RandomRuleKeepsParities | Lab1/MetamorfTest/src/main.ts:73-118 | under parity-keeping rules the random step keeps both invariants |
| Metamorf.FirstEntry | Lab1/MetamorfTest/src/main.ts:124-142 | entry 0 holds the start word and step 0, has no rule, and has both invariants valid |
| Metamorf.NextEntry | Lab1/MetamorfTest/src/main.ts:153-174 | a later entry records the word, the step, the rule and both checks against the start word |
| Metamorf.TraceSnoc | Lab1/MetamorfTest/src/main.ts:158-174 | appending the next entry for a successor keeps the trace well formed |
| Metamorf.GenStep | Lab1/MetamorfTest/src/main.ts:144-175 | one loop iteration keeps the trace well formed and, under parity-keeping rules, keeps every recorded check valid |
| Metamorf.GenMetamorf | Lab1/MetamorfTest/src/main.ts:121-178 | the trace has 1 to `maxSteps + 1` entries, entry `i` has step `i`, each word rewrites the previous one, a short trace ends in an irreducible word, and under parity-keeping rules every check is valid |
| Automata.Delta | Lab2/FuzzTest/src/main.ts:69-73 | a transition exists iff the state has a row and the symbol is `a`, `b` or `c` |
| Automata.RunAppend | Lab2/FuzzTest/src/main.ts:66-76 | running on `u + v` is running on `u`, then on `v` from where it stopped |
| Automata.RunFailsOnForeignSymbol | Lab2/FuzzTest/src/main.ts:72-73 | a symbol outside `{a, b, c}` anywhere in the word makes the run fail |
| Automata.AcceptsOnlyOverABC | Lab2/FuzzTest/src/main.ts:65-79 | every accepted word is over `{a, b, c}` |
| Automata.RunTotal | Lab2/FuzzTest/src/main.ts:65-79 | in a closed table every run over `{a, b, c}` from a listed state succeeds and stays within the table |
| Automata.SinkTraps | Lab2/FuzzTest/src/main.ts:23 | a run started in a sink stays in the sink |
| Automata.SinkRejects | Lab2/FuzzTest/src/main.ts:23 | once a run reaches a non-accepting sink, every continuation is rejected |
| Automata.DfaTableClosed | Lab2/FuzzTest/src/main.ts:19-49 | the DFA table is closed, its start has a row, and state 3 is a rejecting sink |
| Automata.SecondTableClosed | Lab2/FuzzTest/src/main.ts:214-226 | the second automaton is closed, its start has a row, and state 30 is a rejecting sink |
| Automata.ThirdTableClosed | Lab2/FuzzTest/src/main.ts:228-244 | the third automaton is closed, its start has a row, and state 63 is a rejecting sink |
| Automata.DfaCheckWord | Lab2/FuzzTest/src/main.ts:65-79 | the empty word is accepted, and only words over `{a, b, c}` are |
| Automata.DfaCheckWordIff | Lab2/FuzzTest/src/main.ts:65-79 | on words over `{a, b, c}` the run from 0 never fails, and the word is accepted iff it ends in `{0,1,2,4,7,11,12,16,24,25}` |
| Automata.DfaRejectsLeadingC | Lab2/FuzzTest/src/main.ts:20 | a word starting with `c` goes to the sink and is rejected |
| Automata.AddStateTransitionSpec | Lab2/FuzzTest/src/main.ts:147-159 | an addition keeps the set of states, creates the symbol entry for a listed state, and adds exactly its targets; an unlisted state is ignored |
| Automata.BuildCollects | Lab2/FuzzTest/src/main.ts:94-145 | after the additions, a transition is present iff its state is listed and it was there before or some addition adds it |
| Automata.EmptyRows | Lab2/FuzzTest/src/main.ts:95-103 | the initial table has exactly the 23 states, each with no transitions |
| Automata.NfaSymbolsABC | Lab2/FuzzTest/src/main.ts:94-145 | the built NFA table only has transitions on `a`, `b` and `c` |
| Automata.PostUnion | Lab2/FuzzTest/src/main.ts:165-177 | the successors of a union of subsets are the union of their successors, because `nextStates` adds each state's targets on its own |
| Automata.SubsetRunUnion | Lab2/FuzzTest/src/main.ts:164-181 | the subset run from a union of subsets is the union of the runs from each, so the subset loop tracks every path of the NFA independently |
| Automata.BreakIsHarmless | Lab2/FuzzTest/src/main.ts:164-181 | the loop with its early break ends in the same subset as the loop without it |
| Automata.NfaCheckWordIff | Lab2/FuzzTest/src/main.ts:161-190 | `NFA.checkWord` accepts iff the subset reached from `{q0}` without the break contains an accept state |
| Automata.NfaRejectsForeignSymbol | Lab2/FuzzTest/src/main.ts:171-172 | the NFA rejects any word with a symbol outside `{a, b, c}` |
| Automata.NfaAcceptsA | Lab2/FuzzTest/src/main.ts:105 | the NFA accepts `a`, through `q20` |
| Automata.NfaAcceptsEmpty | Lab2/FuzzTest/src/main.ts:89 | the NFA accepts the empty word, because `q0` is an accept state |
| Automata.AfaIsMajority | Lab2/FuzzTest/src/main.ts:262-270 | `AFA.checkWord` is true iff at least two of the three automata accept |
| Automata.AfaAcceptsOnlyOverABC | Lab2/FuzzTest/src/main.ts:262-270 | every word the AFA accepts is over `{a, b, c}` |
| Automata.AfaRejectsForeignSymbol | Lab2/FuzzTest/src/main.ts:253-254 | the AFA rejects any word with a symbol outside `{a, b, c}` |
| Automata.AfaRunsTotal | Lab2/FuzzTest/src/main.ts:246-270 | on words over `{a, b, c}` all three runs succeed, and the vote counts the runs that end in an accept state |
| Automata.GetDetailedResults | Lab2/FuzzTest/src/main.ts:272-293 | the record echoes the word; each flag is its automaton's own verdict; `finalResult` is the vote of the flags, agrees with `checkWord`, and is only true for words over `{a, b, c}` |
| Automata.TestSingleWord | Lab2/FuzzTest/src/main.ts:330-345 | the comparison records the word, both verdicts, and `match` iff the two verdicts agree |
| Automata.TestAgreesOnA | Lab2/FuzzTest/src/main.ts:330-345 | on `a` both automata accept and the comparison matches |
| Automata.TestAgreesOffAlphabet | Lab2/FuzzTest/src/main.ts:330-345 | on the empty word and on any word with a foreign symbol the NFA and DFA agree |

## Left out

- The console drivers are left out because they are output and percentage formatting only. This covers `runTestBatch`, `Tests`, `processAllWords`, `runDemo`, `runTests`, `findDifference` and the `details` strings.
- The random sources are left out: `genRandomW`, `generateRandomWord`, `getRandomInt`, `WordGenerator` and `Math.random` itself.
  - Start words are parameters.
  - Every random index is an explicit argument below its bound, or a `Draw` reduced modulo that bound.
- The `ruleApplied` display string of `randomRule` is represented by the applied `Rule` itself, or `None` for `'none'`. The invariant `name` labels are dropped.
- Words.ReplaceFirst: the `$` replacement patterns of `String.prototype.replace` (`$&`, `$$`, `` $` ``, `$'`) are not expanded; none of the replacements in the rule tables contains `$`, so the model agrees with the source on every rewrite it performs.
- JavaScript `Map` and `Set` objects are modelled as Dafny maps, sets and duplicate-free sequences.
- NFA states `"q0"` to `"q22"` are modelled by their numbers 0 to 22.
- The TypeScript guards that only silence the type checker are left out because they cannot fire for in-range indices: `!randomRule`, `positions.length === 0`, `randomPos === undefined`, and `!randomPos && randomPos != 0` in the TypeScript `appRandRule`. The model's preconditions make the indices in range.
- Empty patterns are excluded by `ValidRule`. No rule table has one, and `indexOf('', pos + 1)` would never advance.
- `Lab1/ReplenishmentAlgorithm/dist/main.js` is a compiled copy of the TypeScript file, so it is not modelled separately.
- `for (const char of input)` iterates over code points. The model iterates over `char`s. The two agree on every word over `{a, b, c}`, and both reject a word with any other symbol.
- FuzzSrc.AppRandSequence: the source loop `while (1 == 1)` has no bound. The model consumes one draw per step and returns `OutOfDraws` when the draws end first. Under `T'` it provably reaches the fixpoint with more draws than the word has symbols (`FuzzSrc.TPrimeWalkTerminates`). Under `T`, termination is not proved.
- FuzzSrc.RunEquivalenceTest: returns `None` where the source would keep looping because a walk had not reached its fixpoint within the draws.
- Replenishment.NormForm: the set of forms is a duplicate-free sequence in insertion order, which is the order `Array.from` returns for a `Set`.

## Findings

| source | as written | input that shows it | evidently intended | confidence | as-written member | corrected member |
|---|---|---|---|---|---|---|
| Lab1/FazzingTest/dist/main.js:65-66 | `if (!randomPos) return word;` treats position 0 like a missing position, so an occurrence at the start of the word is never rewritten | `applyRandomSequence("bbb", T, n)` with the compiled `T`: the only occurrence of `bbb` is at 0, so every step is a no-op and the walk returns `bbb`, although `getNextWords("bbb")` is `["b"]` | rewrite at every occurrence, position 0 included, as the TypeScript source does with `!randomPos && randomPos != 0` | not executed | FuzzDist.PositionZeroStalls | FuzzSrc.AppRandRule |

The compiled file's `T` also differs from the TypeScript `T` in two rules. It has `aabb → abab` where the source has `abab → aabb`, and `aa → bab` where the source has `bab → aa`. Each module models its own file's table as written.
