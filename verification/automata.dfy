/**
 The acceptors of `Lab2/FuzzTest/src/main.ts` over the alphabet `{a, b, c}`:
 the table-driven DFA, the NFA simulated on sets of states, the three-automaton
 majority vote `AFA`, and the DFA/NFA comparison of `AutomataTester`.

 A table lookup that finds no row for the state, or no entry for the symbol,
 makes the run reject (`if (!stateTransitions) return false`,
 `if (nextState === undefined) return false`). NFA state `qi` is the number
 `i` here.
 */
module Automata {
  import opened Words

  /** Every symbol of `w` is `a`, `b` or `c`. */
  predicate OverABC(w: Word) {
    forall k :: 0 <= k < |w| ==> w[k] == 'a' || w[k] == 'b' || w[k] == 'c'
  }

  /** One row of a deterministic table: the successor state on `a`, `b` and `c`. */
  datatype Row = Row(onA: int, onB: int, onC: int)

  /**
   A deterministic automaton: the rows present in its table, the start state
   and the accept states (`DFA` and `SimpleAutomaton` alike).
   */
  datatype Dfa = Dfa(rows: map<int, Row>, start: int, accept: set<int>)

  /** `transitions.get(q)?.get(ch)`: `None` when the row or the entry is missing. */
  function Delta(d: Dfa, q: int, ch: char): (r: Option<int>)
    ensures r.Some? <==> q in d.rows && (ch == 'a' || ch == 'b' || ch == 'c')
  {
    if q !in d.rows then None
    else if ch == 'a' then Some(d.rows[q].onA)
    else if ch == 'b' then Some(d.rows[q].onB)
    else if ch == 'c' then Some(d.rows[q].onC)
    else None
  }

  /** The `for (const char of input)` loop from state `q`: the state reached, or `None` once a lookup fails. */
  function Run(d: Dfa, q: int, w: Word): Option<int>
    decreases |w|
  {
    if |w| == 0 then Some(q)
    else
      match Delta(d, q, w[0])
      case None => None
      case Some(p) => Run(d, p, w[1..])
  }

  /** `checkWord(input)` / `runAutomaton(automaton, input)`. */
  function Accepts(d: Dfa, w: Word): (b: bool)
    ensures b <==> Run(d, d.start, w).Some? && Run(d, d.start, w).value in d.accept
  {
    match Run(d, d.start, w)
    case None => false
    case Some(q) => q in d.accept
  }

  /** Running on `u + v` is running on `u`, then on `v` from where `u` ended. */
  lemma {:induction false} RunAppend(d: Dfa, q: int, u: Word, v: Word)
    ensures Run(d, q, u + v) == (match Run(d, q, u) case None => None case Some(p) => Run(d, p, v))
    decreases |u|
  {
    if |u| == 0 {
      assert u + v == v;
    } else {
      assert (u + v)[0] == u[0];
      assert (u + v)[1..] == u[1..] + v;
      match Delta(d, q, u[0])
      case None =>
      case Some(p) => RunAppend(d, p, u[1..], v);
    }
  }

  /** A symbol outside `{a, b, c}` makes every run fail. */
  lemma {:induction false} RunFailsOnForeignSymbol(d: Dfa, q: int, w: Word, k: nat)
    requires k < |w| && w[k] != 'a' && w[k] != 'b' && w[k] != 'c'
    ensures Run(d, q, w) == None
    decreases |w|
  {
    match Delta(d, q, w[0])
    case None =>
    case Some(p) =>
      RunFailsOnForeignSymbol(d, p, w[1..], k - 1);
  }

  /** Only words over `{a, b, c}` are accepted. */
  lemma AcceptsOnlyOverABC(d: Dfa, w: Word)
    requires Accepts(d, w)
    ensures OverABC(w)
  {
    forall k | 0 <= k < |w|
      ensures w[k] == 'a' || w[k] == 'b' || w[k] == 'c'
    {
      if w[k] != 'a' && w[k] != 'b' && w[k] != 'c' {
        RunFailsOnForeignSymbol(d, d.start, w, k);
      }
    }
  }

  /** Every successor a lookup yields has a row of its own. */
  ghost predicate Closed(d: Dfa) {
    forall q, ch :: Delta(d, q, ch).Some? ==> Delta(d, q, ch).value in d.rows
  }

  /** In a closed table every run over `{a, b, c}` from a listed state is defined and stays in the table. */
  lemma {:induction false} RunTotal(d: Dfa, q: int, w: Word)
    requires Closed(d) && q in d.rows && OverABC(w)
    ensures Run(d, q, w).Some? && Run(d, q, w).value in d.rows
    decreases |w|
  {
    if |w| > 0 {
      var row := d.rows[q];
      assert w[0] == 'a' || w[0] == 'b' || w[0] == 'c';
      var p := if w[0] == 'a' then row.onA else if w[0] == 'b' then row.onB else row.onC;
      assert Delta(d, q, w[0]) == Some(p);
      assert OverABC(w[1..]) by {
        forall k | 0 <= k < |w[1..]|
          ensures w[1..][k] == 'a' || w[1..][k] == 'b' || w[1..][k] == 'c'
        {
          assert w[1..][k] == w[k + 1];
        }
      }
      RunTotal(d, p, w[1..]);
    }
  }

  /** `s` is a rejecting state that every symbol of `{a, b, c}` maps back to `s`. */
  predicate Sink(d: Dfa, s: int) {
    s in d.rows && d.rows[s] == Row(s, s, s) && s !in d.accept
  }

  /** A run that enters a sink never leaves it. */
  lemma {:induction false} SinkTraps(d: Dfa, s: int, w: Word)
    requires Sink(d, s)
    ensures Run(d, s, w).Some? ==> Run(d, s, w).value == s
    decreases |w|
  {
    if |w| > 0 {
      SinkTraps(d, s, w[1..]);
    }
  }

  /** Once a prefix leads to a sink, no continuation is accepted. */
  lemma SinkRejects(d: Dfa, s: int, u: Word, v: Word)
    requires Sink(d, s)
    requires Run(d, d.start, u) == Some(s)
    ensures !Accepts(d, u + v)
  {
    RunAppend(d, d.start, u, v);
    SinkTraps(d, s, v);
  }

  /** The table of `DFA`; states 10 and 23 have no row. */
  const DfaTable: Dfa := Dfa(
    map[
      0 := Row(1, 2, 3),
      1 := Row(12, 25, 3),
      2 := Row(3, 4, 5),
      3 := Row(3, 3, 3),
      4 := Row(11, 2, 3),
      5 := Row(6, 3, 3),
      6 := Row(7, 8, 3),
      7 := Row(3, 9, 3),
      8 := Row(3, 3, 5),
      9 := Row(3, 3, 6),
      11 := Row(12, 13, 3),
      12 := Row(11, 2, 21),
      13 := Row(14, 3, 15),
      14 := Row(24, 3, 3),
      15 := Row(16, 17, 3),
      16 := Row(3, 9, 21),
      17 := Row(14, 3, 18),
      18 := Row(19, 20, 3),
      19 := Row(7, 8, 21),
      20 := Row(14, 3, 21),
      21 := Row(22, 20, 3),
      22 := Row(3, 3, 21),
      24 := Row(3, 3, 3),
      25 := Row(14, 3, 15)
    ],
    0,
    {0, 1, 2, 4, 7, 11, 12, 16, 24, 25})

  /** The second automaton of `AFA`. */
  const SecondTable: Dfa := Dfa(
    map[
      26 := Row(27, 28, 30),
      27 := Row(26, 30, 30),
      28 := Row(30, 29, 30),
      29 := Row(27, 28, 30),
      30 := Row(30, 30, 30)
    ],
    26,
    {26, 28, 29})

  /** The third automaton of `AFA`. */
  const ThirdTable: Dfa := Dfa(
    map[
      60 := Row(61, 62, 63),
      61 := Row(64, 65, 63),
      62 := Row(63, 60, 63),
      63 := Row(63, 63, 63),
      64 := Row(61, 62, 66),
      65 := Row(67, 63, 63),
      66 := Row(68, 65, 63),
      67 := Row(63, 63, 63),
      68 := Row(63, 63, 66)
    ],
    60,
    {67})

  /**
   The `DFA` table is closed, so its runs over `{a, b, c}` never miss a
   lookup, and state 3 is its rejecting sink.
   */
  lemma DfaTableClosed()
    ensures Closed(DfaTable) && DfaTable.start in DfaTable.rows && Sink(DfaTable, 3)
  {
  }

  /** The same for the second automaton, with sink 30. */
  lemma SecondTableClosed()
    ensures Closed(SecondTable) && SecondTable.start in SecondTable.rows && Sink(SecondTable, 30)
  {
  }

  /** The same for the third automaton, with sink 63. */
  lemma ThirdTableClosed()
    ensures Closed(ThirdTable) && ThirdTable.start in ThirdTable.rows && Sink(ThirdTable, 63)
  {
  }

  /** `DFA.checkWord`. */
  function DfaCheckWord(w: Word): (b: bool)
    ensures |w| == 0 ==> b
    ensures b ==> OverABC(w)
  {
    if Accepts(DfaTable, w) then
      AcceptsOnlyOverABC(DfaTable, w);
      true
    else false
  }

  /** Over `{a, b, c}` the DFA's verdict is the accept-set membership of the state it reaches. */
  lemma DfaCheckWordIff(w: Word)
    requires OverABC(w)
    ensures Run(DfaTable, 0, w).Some?
    ensures DfaCheckWord(w) <==> Run(DfaTable, 0, w).value in {0, 1, 2, 4, 7, 11, 12, 16, 24, 25}
  {
    DfaTableClosed();
    RunTotal(DfaTable, 0, w);
  }

  /** A word starting with `c` enters the sink 3 at once, so the DFA rejects it. */
  lemma DfaRejectsLeadingC(v: Word)
    ensures !DfaCheckWord("c" + v)
  {
    DfaTableClosed();
    assert Run(DfaTable, 0, "c") == Some(3);
    SinkRejects(DfaTable, 3, "c", v);
  }

  // ---------------------------------------------------------------- NFA

  /** The NFA table: for each state with a row, the successor set of each symbol with an entry. */
  type NfaTable = map<nat, map<char, set<nat>>>

  /** One `addStateTransition(from, symbol, toStates)` call. */
  datatype Addition = Addition(from: nat, symbol: char, targets: seq<nat>)

  /**
   `addStateTransition`: a missing row is left alone; otherwise the targets
   are added to the symbol's set, created empty when absent.
   */
  function AddStateTransition(t: NfaTable, a: Addition): NfaTable
  {
    if a.from !in t then t
    else
      var row := t[a.from];
      var old_ := if a.symbol in row then row[a.symbol] else {};
      t[a.from := row[a.symbol := old_ + set p | p in a.targets]]
  }

  /**
   One addition keeps the listed rows, gives `from` an entry for `symbol`
   when `from` has a row, adds exactly the targets to it and changes nothing
   else.
   */
  lemma AddStateTransitionSpec(t: NfaTable, a: Addition, q: nat, ch: char, p: nat)
    ensures AddStateTransition(t, a).Keys == t.Keys
    ensures (q in AddStateTransition(t, a) && ch in AddStateTransition(t, a)[q]) <==>
            (q in t && (ch in t[q] || (q == a.from && ch == a.symbol)))
    ensures (q in AddStateTransition(t, a) && ch in AddStateTransition(t, a)[q] && p in AddStateTransition(t, a)[q][ch]) <==>
            (q in t && ((ch in t[q] && p in t[q][ch]) || (q == a.from && ch == a.symbol && p in a.targets)))
  {
  }

  /** The additions of `setupNFATransitions`, in order. */
  function Build(t: NfaTable, adds: seq<Addition>): NfaTable
    decreases |adds|
  {
    if |adds| == 0 then t else Build(AddStateTransition(t, adds[0]), adds[1..])
  }

  /** Some addition of `adds` puts `p` among the `ch`-successors of `q`. */
  ghost predicate Added(adds: seq<Addition>, q: nat, ch: char, p: nat) {
    exists i :: 0 <= i < |adds| && adds[i].from == q && adds[i].symbol == ch && p in adds[i].targets
  }

  /**
   The built table keeps the listed rows and, in them, holds exactly the
   transitions it started with plus every transition some addition names.
   */
  lemma {:induction false} BuildCollects(t: NfaTable, adds: seq<Addition>, q: nat, ch: char, p: nat)
    ensures Build(t, adds).Keys == t.Keys
    ensures (q in Build(t, adds) && ch in Build(t, adds)[q] && p in Build(t, adds)[q][ch]) <==>
            (q in t && ((ch in t[q] && p in t[q][ch]) || Added(adds, q, ch, p)))
    decreases |adds|
  {
    if |adds| > 0 {
      var t' := AddStateTransition(t, adds[0]);
      AddStateTransitionSpec(t, adds[0], q, ch, p);
      BuildCollects(t', adds[1..], q, ch, p);
      if Added(adds, q, ch, p) && q in t {
        var i :| 0 <= i < |adds| && adds[i].from == q && adds[i].symbol == ch && p in adds[i].targets;
        if i > 0 {
          assert adds[1..][i - 1] == adds[i];
        }
      }
      if Added(adds[1..], q, ch, p) {
        var i :| 0 <= i < |adds[1..]| && adds[1..][i].from == q && adds[1..][i].symbol == ch && p in adds[1..][i].targets;
        assert adds[i + 1] == adds[1..][i];
      }
    }
  }

  /** The `states` list: `q0` … `q22`. */
  const NfaStates: set<nat> := {0, 1, 2, 3, 4, 5, 6, 7, 8, 9, 10, 11, 12, 13, 14, 15, 16, 17, 18, 19, 20, 21, 22}

  /** Every listed state with an empty row. */
  function EmptyRows(): (t: NfaTable)
    ensures t.Keys == NfaStates
    ensures forall q :: q in t ==> t[q] == map[]
  {
    map q | q in NfaStates :: map[]
  }

  const NfaAdditions: seq<Addition> := [
    Addition(0, 'a', [1, 6, 7, 14, 20, 21]),
    Addition(0, 'b', [3, 5, 17]),
    Addition(1, 'a', [2]),
    Addition(2, 'a', [1, 6, 7, 14, 20]),
    Addition(2, 'b', [3, 5, 17]),
    Addition(3, 'b', [4]),
    Addition(4, 'a', [1, 6, 7, 14, 20]),
    Addition(4, 'b', [3, 5, 17]),
    Addition(5, 'b', [5]),
    Addition(6, 'a', [20]),
    Addition(7, 'a', [10]),
    Addition(7, 'b', [8, 12]),
    Addition(8, 'c', [9]),
    Addition(9, 'a', [10]),
    Addition(9, 'b', [8, 12]),
    Addition(10, 'c', [11]),
    Addition(11, 'a', [10]),
    Addition(11, 'b', [8, 12]),
    Addition(12, 'a', [13]),
    Addition(13, 'a', [20]),
    Addition(14, 'b', [15]),
    Addition(15, 'c', [16]),
    Addition(16, 'a', [14, 20]),
    Addition(16, 'b', [17]),
    Addition(17, 'c', [18]),
    Addition(18, 'a', [19]),
    Addition(19, 'a', [14, 20]),
    Addition(19, 'b', [17]),
    Addition(21, 'b', [22])
  ]

  /** The table the NFA constructor builds. */
  function NfaTransitions(): NfaTable
  {
    Build(EmptyRows(), NfaAdditions)
  }

  const NfaStart: nat := 0
  const NfaAccept: set<nat> := {0, 2, 4, 5, 20, 22}

  /** The `nextStates` of one symbol: every successor of every current state. */
  function Post(t: NfaTable, states: set<nat>, ch: char): (next: set<nat>)
    ensures forall p :: p in next <==> exists q :: q in states && q in t && ch in t[q] && p in t[q][ch]
    ensures states == {} ==> next == {}
  {
    set q, p | q in states && q in t && ch in t[q] && p in t[q][ch] :: p
  }

  /** The subset loop of `NFA.checkWord`, with its `if (currentStates.size === 0) break`. */
  function NfaRun(t: NfaTable, states: set<nat>, w: Word): set<nat>
    decreases |w|
  {
    if |w| == 0 then states
    else
      var next := Post(t, states, w[0]);
      if |next| == 0 then next else NfaRun(t, next, w[1..])
  }

  /** Reference subset run, without the early exit. */
  function SubsetRun(t: NfaTable, states: set<nat>, w: Word): set<nat>
    decreases |w|
  {
    if |w| == 0 then states else SubsetRun(t, Post(t, states, w[0]), w[1..])
  }

  /** The successors of a union are the union of the successors: `nextStates` treats each state on its own. */
  lemma PostUnion(t: NfaTable, s1: set<nat>, s2: set<nat>, ch: char)
    ensures Post(t, s1 + s2, ch) == Post(t, s1, ch) + Post(t, s2, ch)
  {
    forall p | p in Post(t, s1 + s2, ch)
      ensures p in Post(t, s1, ch) + Post(t, s2, ch)
    {
      var q :| q in s1 + s2 && q in t && ch in t[q] && p in t[q][ch];
      if q in s1 {
        assert p in Post(t, s1, ch);
      } else {
        assert p in Post(t, s2, ch);
      }
    }
  }

  /**
   The subset run of a union is the union of the subset runs, so the subset
   construction is the pointwise union of the runs from single states.
   */
  lemma {:induction false} SubsetRunUnion(t: NfaTable, s1: set<nat>, s2: set<nat>, w: Word)
    ensures SubsetRun(t, s1 + s2, w) == SubsetRun(t, s1, w) + SubsetRun(t, s2, w)
    decreases |w|
  {
    if |w| > 0 {
      PostUnion(t, s1, s2, w[0]);
      SubsetRunUnion(t, Post(t, s1, w[0]), Post(t, s2, w[0]), w[1..]);
    }
  }

  /** The empty set has no successors, so it stays empty. */
  lemma {:induction false} EmptyStaysEmpty(t: NfaTable, w: Word)
    ensures SubsetRun(t, {}, w) == {}
    decreases |w|
  {
    if |w| > 0 {
      EmptyStaysEmpty(t, w[1..]);
    }
  }

  /** The early exit on an empty set does not change the set the loop ends with. */
  lemma {:induction false} BreakIsHarmless(t: NfaTable, states: set<nat>, w: Word)
    ensures NfaRun(t, states, w) == SubsetRun(t, states, w)
    decreases |w|
  {
    if |w| > 0 {
      var next := Post(t, states, w[0]);
      if |next| == 0 {
        EmptyStaysEmpty(t, w[1..]);
      } else {
        BreakIsHarmless(t, next, w[1..]);
      }
    }
  }

  /** `NFA.checkWord` on a given table: does the final set hold an accept state. */
  function NfaAccepts(t: NfaTable, w: Word): bool
  {
    NfaRun(t, {NfaStart}, w) * NfaAccept != {}
  }

  /** `NFA.checkWord`. */
  function NfaCheckWord(w: Word): bool
  {
    NfaAccepts(NfaTransitions(), w)
  }

  /** The NFA accepts exactly when the subset run from `{q0}` meets the accept states. */
  lemma NfaCheckWordIff(w: Word)
    ensures NfaCheckWord(w) <==> exists q :: q in SubsetRun(NfaTransitions(), {NfaStart}, w) && q in NfaAccept
  {
    var t := NfaTransitions();
    BreakIsHarmless(t, {NfaStart}, w);
    var final := SubsetRun(t, {NfaStart}, w);
    if final * NfaAccept != {} {
      var q :| q in final * NfaAccept;
      assert q in final && q in NfaAccept;
    }
    if exists q :: q in final && q in NfaAccept {
      var q :| q in final && q in NfaAccept;
      assert q in final * NfaAccept;
    }
  }

  /** Every symbol with an entry in the table is `a`, `b` or `c`. */
  predicate SymbolsABC(t: NfaTable) {
    forall q, ch :: q in t && ch in t[q] ==> ch == 'a' || ch == 'b' || ch == 'c'
  }

  lemma {:induction false} BuildKeepsSymbols(t: NfaTable, adds: seq<Addition>)
    requires SymbolsABC(t)
    requires forall i :: 0 <= i < |adds| ==> adds[i].symbol == 'a' || adds[i].symbol == 'b' || adds[i].symbol == 'c'
    ensures SymbolsABC(Build(t, adds))
    decreases |adds|
  {
    if |adds| > 0 {
      var t' := AddStateTransition(t, adds[0]);
      forall q, ch | q in t' && ch in t'[q]
        ensures ch == 'a' || ch == 'b' || ch == 'c'
      {
        AddStateTransitionSpec(t, adds[0], q, ch, 0);
      }
      BuildKeepsSymbols(t', adds[1..]);
    }
  }

  lemma AdditionsOverABC()
    ensures forall i :: 0 <= i < |NfaAdditions| ==> NfaAdditions[i].symbol == 'a' || NfaAdditions[i].symbol == 'b' || NfaAdditions[i].symbol == 'c'
  {
  }

  lemma EmptyRowsSymbols()
    ensures SymbolsABC(EmptyRows())
  {
  }

  lemma NfaSymbolsABC()
    ensures SymbolsABC(NfaTransitions())
  {
    AdditionsOverABC();
    EmptyRowsSymbols();
    BuildKeepsSymbols(EmptyRows(), NfaAdditions);
  }

  /** A symbol without entries empties the set, and it stays empty. */
  lemma {:induction false} SubsetRunForeignSymbol(t: NfaTable, states: set<nat>, w: Word, k: nat)
    requires SymbolsABC(t)
    requires k < |w| && w[k] != 'a' && w[k] != 'b' && w[k] != 'c'
    ensures SubsetRun(t, states, w) == {}
    decreases |w|
  {
    if k == 0 {
      assert Post(t, states, w[0]) == {};
      EmptyStaysEmpty(t, w[1..]);
    } else {
      SubsetRunForeignSymbol(t, Post(t, states, w[0]), w[1..], k - 1);
    }
  }

  /** The NFA rejects every word with a symbol outside `{a, b, c}`. */
  lemma NfaRejectsForeignSymbol(w: Word, k: nat)
    requires k < |w| && w[k] != 'a' && w[k] != 'b' && w[k] != 'c'
    ensures !NfaCheckWord(w)
  {
    NfaSymbolsABC();
    SubsetRunForeignSymbol(NfaTransitions(), {NfaStart}, w, k);
    BreakIsHarmless(NfaTransitions(), {NfaStart}, w);
  }

  /** A one-symbol word is accepted when `q0` has an accepting successor on it. */
  lemma AcceptsSingle(t: NfaTable, ch: char, p: nat)
    requires NfaStart in t && ch in t[NfaStart] && p in t[NfaStart][ch] && p in NfaAccept
    ensures NfaAccepts(t, [ch])
  {
    assert p in Post(t, {NfaStart}, ch);
    assert [ch][1..] == [];
    assert NfaRun(t, {NfaStart}, [ch]) == Post(t, {NfaStart}, ch);
    assert p in NfaRun(t, {NfaStart}, [ch]) * NfaAccept;
  }

  /** `q0 --a--> q20` and `q20` is an accept state, so the NFA accepts `a`. */
  lemma NfaAcceptsA()
    ensures NfaCheckWord("a")
  {
    StartGoesToTwenty();
    AcceptsSingle(NfaTransitions(), 'a', 20);
  }

  lemma StartGoesToTwenty()
    ensures var t := NfaTransitions(); NfaStart in t && 'a' in t[NfaStart] && 20 in t[NfaStart]['a']
  {
    assert NfaAdditions[0] == Addition(0, 'a', [1, 6, 7, 14, 20, 21]);
    assert Added(NfaAdditions, 0, 'a', 20);
    assert 0 in EmptyRows();
    BuildCollects(EmptyRows(), NfaAdditions, 0, 'a', 20);
  }

  /** `q0` is an accept state, so the empty word is accepted. */
  lemma NfaAcceptsEmpty()
    ensures NfaCheckWord([])
  {
    assert NfaStart in NfaRun(NfaTransitions(), {NfaStart}, []) * NfaAccept;
  }

  // ---------------------------------------------------------------- AFA

  /** `[...].filter(Boolean).length`. */
  function CountTrue(bs: seq<bool>): (n: nat)
    ensures n <= |bs|
  {
    if |bs| == 0 then 0 else (if bs[0] then 1 else 0) + CountTrue(bs[1..])
  }

  /** `AFA.checkWord`: at least two of the three automata accept. */
  function AfaCheckWord(w: Word): bool
  {
    CountTrue([Accepts(DfaTable, w), Accepts(SecondTable, w), Accepts(ThirdTable, w)]) >= 2
  }

  /** The vote is the majority of the three verdicts. */
  lemma AfaIsMajority(w: Word)
    ensures var r1, r2, r3 := Accepts(DfaTable, w), Accepts(SecondTable, w), Accepts(ThirdTable, w);
            AfaCheckWord(w) <==> (r1 && r2) || (r1 && r3) || (r2 && r3)
  {
    var bs := [Accepts(DfaTable, w), Accepts(SecondTable, w), Accepts(ThirdTable, w)];
    assert bs[1..][1..][1..] == [];
    assert CountTrue(bs[1..][1..]) == (if bs[2] then 1 else 0);
    assert CountTrue(bs[1..]) == (if bs[1] then 1 else 0) + (if bs[2] then 1 else 0);
  }

  /** No automaton of the vote accepts a symbol outside `{a, b, c}`, so neither does the vote. */
  lemma AfaRejectsForeignSymbol(w: Word, k: nat)
    requires k < |w| && w[k] != 'a' && w[k] != 'b' && w[k] != 'c'
    ensures !AfaCheckWord(w)
  {
    AfaIsMajority(w);
    RunFailsOnForeignSymbol(DfaTable, DfaTable.start, w, k);
    RunFailsOnForeignSymbol(SecondTable, SecondTable.start, w, k);
    RunFailsOnForeignSymbol(ThirdTable, ThirdTable.start, w, k);
  }

  /** Over `{a, b, c}` no automaton of the vote misses a lookup, so each verdict is accept-set membership. */
  lemma AfaRunsTotal(w: Word)
    requires OverABC(w)
    ensures Run(DfaTable, 0, w).Some? && Run(SecondTable, 26, w).Some? && Run(ThirdTable, 60, w).Some?
    ensures AfaCheckWord(w) <==>
            CountTrue([Run(DfaTable, 0, w).value in DfaTable.accept,
                       Run(SecondTable, 26, w).value in {26, 28, 29},
                       Run(ThirdTable, 60, w).value == 67]) >= 2
  {
    DfaTableClosed();
    SecondTableClosed();
    ThirdTableClosed();
    RunTotal(DfaTable, 0, w);
    RunTotal(SecondTable, 26, w);
    RunTotal(ThirdTable, 60, w);
  }

  /** An accepted word is over `{a, b, c}`: two of the three runs accept, and each run that accepts reads only those symbols. */
  lemma AfaAcceptsOnlyOverABC(w: Word)
    ensures AfaCheckWord(w) ==> OverABC(w)
  {
    AfaIsMajority(w);
    if Accepts(DfaTable, w) {
      AcceptsOnlyOverABC(DfaTable, w);
    } else if Accepts(SecondTable, w) {
      AcceptsOnlyOverABC(SecondTable, w);
    }
  }

  /** The result of `getDetailedResults`. */
  datatype Detailed = Detailed(word: Word, firstResult: bool, secondResult: bool, thirdResult: bool, finalResult: bool)

  /**
   `getDetailedResults` runs the three automata again on its own; its flags
   are their verdicts and its final result is the vote `checkWord` takes.
   */
  function GetDetailedResults(w: Word): (r: Detailed)
    ensures r.word == w
    ensures r.finalResult <==> CountTrue([r.firstResult, r.secondResult, r.thirdResult]) >= 2
    ensures r.finalResult == AfaCheckWord(w)
    ensures r.firstResult == DfaCheckWord(w)
    ensures r.secondResult == Accepts(SecondTable, w)
    ensures r.thirdResult == Accepts(ThirdTable, w)
    ensures r.finalResult ==> OverABC(w)
  {
    AfaAcceptsOnlyOverABC(w);
    var firstResult := Accepts(DfaTable, w);
    var secondResult := Accepts(SecondTable, w);
    var thirdResult := Accepts(ThirdTable, w);
    Detailed(w, firstResult, secondResult, thirdResult,
             CountTrue([firstResult, secondResult, thirdResult]) >= 2)
  }

  // ---------------------------------------------------------------- tester

  /** The result of `testSingleWord`. */
  datatype Comparison = Comparison(word: Word, nfaResult: bool, dfaResult: bool, matches: bool)

  function TestSingleWord(w: Word): (r: Comparison)
    ensures r.word == w && r.nfaResult == NfaCheckWord(w) && r.dfaResult == DfaCheckWord(w)
    ensures r.matches <==> (NfaCheckWord(w) <==> DfaCheckWord(w))
  {
    var nfaResult := NfaCheckWord(w);
    var dfaResult := DfaCheckWord(w);
    Comparison(w, nfaResult, dfaResult, nfaResult == dfaResult)
  }

  /** On `a` both acceptors accept (`0 --a--> 1` in the DFA), so the comparison matches. */
  lemma TestAgreesOnA()
    ensures TestSingleWord("a") == Comparison("a", true, true, true)
  {
    NfaAcceptsA();
    DfaAcceptsA();
  }

  lemma DfaAcceptsA()
    ensures DfaCheckWord("a")
  {
    assert Run(DfaTable, 0, "a") == Run(DfaTable, 1, []);
  }

  /** Both acceptors reject a symbol outside `{a, b, c}` and accept the empty word, so they agree there. */
  lemma TestAgreesOffAlphabet(w: Word)
    requires |w| == 0 || exists k :: 0 <= k < |w| && w[k] != 'a' && w[k] != 'b' && w[k] != 'c'
    ensures TestSingleWord(w).matches
  {
    if |w| == 0 {
      NfaAcceptsEmpty();
    } else {
      var k :| 0 <= k < |w| && w[k] != 'a' && w[k] != 'b' && w[k] != 'c';
      NfaRejectsForeignSymbol(w, k);
    }
  }
}
