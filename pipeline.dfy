/**
 * The preparation every solve_with_* function shares (island table,
 * candidate bridges, compiled clauses, n = get_n_vars) and what an accepted
 * total state means for the puzzle itself.
 */
module Pipeline {
  import opened Wrappers
  import opened Cnf
  import opened Grid
  import opened Bridges
  import opened Encoding
  import opened Compile
  import opened Interpret
  import opened Connect
  import opened Search

  /** The bridge list generate_bridge returns for the grid m. */
  function BridgesOf(m: Matrix): seq<Bridge>
    requires Rectangular(m)
  {
    IslandsOfIsTable(m);
    var islands := IslandsOf(m);
    Dedupe(RawBridges(islands, m, CoordMap(islands)))
  }

  /** What the search strategies work on after compiling the island table and the bridge list. */
  function CompiledProblem(islands: seq<Island>, bridges: seq<Bridge>): Problem
  {
    Problem(CompiledClauses(islands, bridges), 2 * |bridges|, MainVars(bridges, |bridges|, 0), islands)
  }

  /** The compiled problem of the grid m. */
  function ProblemOf(m: Matrix): Problem
    requires Rectangular(m)
  {
    CompiledProblem(IslandsOf(m), BridgesOf(m))
  }

  /**
   * get_island_info, generate_bridge, the three constraint adders on a fresh
   * CNF and IDPool, cnf.clauses and get_n_vars.
   */
  method Prepare(matrix: Matrix) returns (P: Problem)
    requires Rectangular(matrix)
    ensures P == ProblemOf(matrix)
  {
    var islands := GetIslandInfo(matrix);
    var bridges, coordToId := GenerateBridge(islands, matrix);
    var clauses, bridgeVars := CompileFormula(islands, bridges);
    var n := GetNVars(clauses);
    NVarsOfCompiled(islands, bridges, n);
    P := Problem(clauses, n, bridgeVars, islands);
  }

  /**
   * The compiled problem of a grid with at least one island meets what the
   * strategies rely on: literals and bridge variables within 1..n, and
   * bridge ends that are island ids.
   */
  lemma ProblemWellFormed(m: Matrix)
    requires Rectangular(m) && IslandsOf(m) != []
    ensures WellFormed(ProblemOf(m))
  {
    var islands, bridges := IslandsOf(m), BridgesOf(m);
    IslandsOfIsTable(m);
    GenerateBridgeOnTable(m, islands);
    CompiledWithin(islands, bridges);
    MainVarsWithin(bridges);
    MainVarsAt(bridges, |bridges|, 0);
    var vars := MainVars(bridges, |bridges|, 0);
    forall t | 0 <= t < |vars| ensures 1 <= vars[t].i <= |islands| && 1 <= vars[t].j <= |islands| {
      assert Joins(m, islands, bridges[t]);
    }
  }

  /** The solution uses candidate bridge b. */
  predicate Uses(sol: seq<Built>, b: Bridge)
  {
    exists k :: 0 <= k < |sol| && sol[k].i == b.i && sol[k].j == b.j
  }

  /** Every entry of the solution is a candidate bridge built once or twice. */
  predicate BuiltFromCandidates(bridges: seq<Bridge>, sol: seq<Built>)
  {
    forall k :: 0 <= k < |sol| ==> 1 <= sol[k].count <= 2 && exists q :: 0 <= q < |bridges| && sol[k].i == bridges[q].i && sol[k].j == bridges[q].j
  }

  /**
   * sol solves the puzzle given by the islands and the candidate bridges:
   * every island has exactly its number of bridges, every entry is a
   * candidate bridge built once or twice, no two crossing candidates are
   * both used, and the bridges connect all islands.
   */
  ghost predicate Solves(islands: seq<Island>, bridges: seq<Bridge>, sol: seq<Built>)
  {
    && (forall k :: 0 <= k < |islands| ==> BridgesAt(sol, k + 1) == islands[k].value)
    && BuiltFromCandidates(bridges, sol)
    && (forall p, q :: 0 <= p < |bridges| && 0 <= q < |bridges| && Crosses(bridges[p].extra, bridges[q].extra) ==>
          !(Uses(sol, bridges[p]) && Uses(sol, bridges[q])))
    && Connected(sol, |islands|)
  }

  /** An accepted total state of the compiled problem yields a solution of the puzzle. */
  lemma AcceptedSolves(islands: seq<Island>, bridges: seq<Bridge>, t: seq<bool>)
    requires DistinctPairs(bridges)
    requires WellFormed(CompiledProblem(islands, bridges)) && |t| == 2 * |bridges|
    requires Accepted(CompiledProblem(islands, bridges), t, false)
    ensures Solves(islands, bridges, SolutionOf(CompiledProblem(islands, bridges), t))
  {
    CompiledCorrect(islands, bridges, t);
    AcceptedDegrees(islands, bridges, t);
    EntriesAreCandidates(bridges, t);
    var vars := MainVars(bridges, |bridges|, 0);
    assert SolutionOf(CompiledProblem(islands, bridges), t) == Interpretation(StateOf(t, |t|), vars, |vars|);
    AcceptedNoCrossing(islands, bridges, t);
  }

  /** The solution of any state is built from candidate bridges, each once or twice. */
  lemma EntriesAreCandidates(bridges: seq<Bridge>, t: seq<bool>)
    requires |t| == 2 * |bridges|
    ensures var vars := MainVars(bridges, |bridges|, 0); BuiltFromCandidates(bridges, Interpretation(StateOf(t, |t|), vars, |vars|))
  {
    var vars, a := MainVars(bridges, |bridges|, 0), StateOf(t, |t|);
    var sol := Interpretation(a, vars, |vars|);
    MainVarsAt(bridges, |bridges|, 0);
    forall k | 0 <= k < |sol|
      ensures 1 <= sol[k].count <= 2 && exists q :: 0 <= q < |bridges| && sol[k].i == bridges[q].i && sol[k].j == bridges[q].j
    {
      InterpretationMembers(a, vars, |vars|, sol[k]);
    }
  }

  /** Each island's number of bridges in the solution of a state obeying the rules is its value. */
  lemma AcceptedDegrees(islands: seq<Island>, bridges: seq<Bridge>, t: seq<bool>)
    requires |t| == 2 * |bridges|
    requires RulesHold(islands, bridges, t)
    ensures forall k :: 0 <= k < |islands| ==> BridgesAt(SolutionOf(CompiledProblem(islands, bridges), t), k + 1) == islands[k].value
  {
    var vars, a := MainVars(bridges, |bridges|, 0), StateOf(t, |t|);
    assert DegreesMatch(islands, vars, a);
    forall k | 0 <= k < |islands| ensures BridgesAt(Interpretation(a, vars, |vars|), k + 1) == islands[k].value {
      InterpretationDegree(a, vars, |vars|, k + 1);
    }
  }

  /** The solution of a state obeying the rules uses no two crossing candidates. */
  lemma AcceptedNoCrossing(islands: seq<Island>, bridges: seq<Bridge>, t: seq<bool>)
    requires DistinctPairs(bridges) && |t| == 2 * |bridges|
    requires RulesHold(islands, bridges, t)
    ensures var sol := SolutionOf(CompiledProblem(islands, bridges), t);
      forall p, q :: 0 <= p < |bridges| && 0 <= q < |bridges| && Crosses(bridges[p].extra, bridges[q].extra) ==>
        !(Uses(sol, bridges[p]) && Uses(sol, bridges[q]))
  {
    var vars, a := MainVars(bridges, |bridges|, 0), StateOf(t, |t|);
    var sol := SolutionOf(CompiledProblem(islands, bridges), t);
    assert NoCrossedPairs(Ones(vars), bridges, a, 0, |bridges|, |bridges|);
    forall p, q | 0 <= p < |bridges| && 0 <= q < |bridges| && Crosses(bridges[p].extra, bridges[q].extra)
      ensures !(Uses(sol, bridges[p]) && Uses(sol, bridges[q]))
    {
      UsesBuilt(bridges, t, p);
      UsesBuilt(bridges, t, q);
      CrossesSymmetric(bridges[p].extra, bridges[q].extra);
    }
  }

  lemma CrossesSymmetric(e1: Extra, e2: Extra)
    ensures Crosses(e1, e2) <==> Crosses(e2, e1)
  {
  }

  /** A candidate bridge the solution uses has its single variable true. */
  lemma UsesBuilt(bridges: seq<Bridge>, t: seq<bool>, p: nat)
    requires DistinctPairs(bridges) && |t| == 2 * |bridges| && p < |bridges|
    ensures var vars := MainVars(bridges, |bridges|, 0);
      Uses(Interpretation(StateOf(t, |t|), vars, |vars|), bridges[p]) ==> Present(StateOf(t, |t|), Ones(vars)[p])
  {
    var vars, a := MainVars(bridges, |bridges|, 0), StateOf(t, |t|);
    var sol := Interpretation(a, vars, |vars|);
    MainVarsAt(bridges, |bridges|, 0);
    if Uses(sol, bridges[p]) {
      var k :| 0 <= k < |sol| && sol[k].i == bridges[p].i && sol[k].j == bridges[p].j;
      InterpretationMembers(a, vars, |vars|, sol[k]);
      var q :| 0 <= q < |vars| && Present(a, vars[q].x1) && sol[k] == Built(vars[q].i, vars[q].j, Count(a, vars[q]));
      assert PairOf(bridges[q]) == PairOf(bridges[p]);
    }
  }

  /** Every accepted state has a non-empty solution when island 1 needs a bridge. */
  lemma AcceptedNonEmpty(islands: seq<Island>, bridges: seq<Bridge>, t: seq<bool>)
    requires WellFormed(CompiledProblem(islands, bridges)) && |t| == 2 * |bridges|
    requires islands[0].value != 0
    requires Accepted(CompiledProblem(islands, bridges), t, false)
    ensures SolutionOf(CompiledProblem(islands, bridges), t) != []
  {
    CompiledCorrect(islands, bridges, t);
    AcceptedDegrees(islands, bridges, t);
  }

  /** The answer every strategy gives for m: the solution of the first accepted total state in product order. */
  ghost function Answer(m: Matrix): Option<seq<Built>>
    requires Rectangular(m) && IslandsOf(m) != []
  {
    var P := ProblemOf(m);
    ProblemWellFormed(m);
    CompletionsMembers([], P.n);
    Decoded(P, FirstAccepted(P, Product(P.n), false))
  }

  /**
   * The answer solves the puzzle, it is missing only when no total state is
   * accepted, and demanding a non-empty solution, as the backtracking search
   * does, gives the same first accepted state.
   */
  lemma AnswerSpec(m: Matrix)
    requires Rectangular(m) && IslandsOf(m) != []
    ensures WellFormed(ProblemOf(m)) && AllTotal(ProblemOf(m), Product(ProblemOf(m).n))
    ensures Answer(m).Some? ==> Solves(IslandsOf(m), BridgesOf(m), Answer(m).value)
    ensures Answer(m).None? <==> forall t :: |t| == ProblemOf(m).n ==> !Accepted(ProblemOf(m), t, false)
    ensures FirstAccepted(ProblemOf(m), Product(ProblemOf(m).n), true) == FirstAccepted(ProblemOf(m), Product(ProblemOf(m).n), false)
  {
    var P := ProblemOf(m);
    ProblemWellFormed(m);
    FirstIsLeast(P, false);
    var ts := Product(P.n);
    CompletionsMembers([], P.n);
    var r := FirstAccepted(P, ts, false);
    IslandsOfIsTable(m);
    GenerateBridgeOnTable(m, IslandsOf(m));
    if r.Some? {
      AcceptedSolves(IslandsOf(m), BridgesOf(m), r.value);
    }
    forall k | 0 <= k < |ts| && Accepted(P, ts[k], false) ensures SolutionOf(P, ts[k]) != [] {
      AcceptedNonEmpty(IslandsOf(m), BridgesOf(m), ts[k]);
    }
    FirstAcceptedSame(P, ts);
  }
}
