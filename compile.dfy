/**
 * The formula every solver builds before searching: a fresh CNF and a fresh
 * id pool, then the main, island and non-crossing constraints in that order,
 * and get_n_vars on the result.
 */
module Compile {
  import opened Wrappers
  import opened Cnf
  import opened CardEnc
  import opened Grid
  import opened Bridges
  import opened Encoding

  /** The single-bridge ids of bridge_vars, in order. */
  function Ones(vars: seq<BridgeVar>): (ones: seq<int>)
    ensures |ones| == |vars|
  {
    seq(|vars|, t requires 0 <= t < |vars| => vars[t].x1)
  }

  /** The clauses of the compiled formula for the island table and the deduplicated bridges. */
  function CompiledClauses(islands: seq<Island>, bridges: seq<Bridge>): seq<Clause>
  {
    var vars := MainVars(bridges, |bridges|, 0);
    MainClauses(vars) + IslandsClauses(islands, vars) + CrossUpTo(Ones(vars), bridges, |bridges|)
  }

  /**
   * cnf = CNF(); vpool = IDPool(); the three add_* calls; cnf.clauses.
   * The pool starts empty, so bridge t gets the ids 2t + 1 and 2t + 2.
   */
  method CompileFormula(islands: seq<Island>, bridges: seq<Bridge>) returns (clauses: seq<Clause>, bridgeVars: seq<BridgeVar>)
    requires DistinctPairs(bridges)
    ensures bridgeVars == MainVars(bridges, |bridges|, 0)
    ensures clauses == CompiledClauses(islands, bridges)
  {
    var cnf := new Formula();
    var vpool := new IdPool();
    bridgeVars := AddMainConstraints(cnf, vpool, bridges);
    ghost var main := cnf.clauses;
    assert main == MainClauses(bridgeVars) by {
      assert [] + MainClauses(bridgeVars) == MainClauses(bridgeVars);
    }
    AddIslandConstraints(cnf, islands, bridgeVars);
    ghost var withIslands := cnf.clauses;
    SinglesFromPool(vpool.ids, bridges, bridgeVars);
    AddNonCrossingConstraints(cnf, vpool, bridges);
    clauses := cnf.clauses;
    assert clauses == withIslands + CrossUpTo(Ones(bridgeVars), bridges, |bridges|);
  }

  /** After add_main_contraints every bridge's single key is pooled, under the id bridge_vars records. */
  lemma SinglesFromPool(ids: map<VarKey, int>, bridges: seq<Bridge>, vars: seq<BridgeVar>)
    requires vars == MainVars(bridges, |bridges|, 0)
    requires forall t :: 0 <= t < |vars| ==> Pooled(ids, vars[t])
    ensures SinglesPooled(ids, bridges) && SinglesOf(ids, bridges) == Ones(vars)
  {
    MainVarsAt(bridges, |bridges|, 0);
    assert forall t :: 0 <= t < |bridges| ==> SinglesOf(ids, bridges)[t] == Ones(vars)[t];
  }

  /** With a fresh pool the ids are 1..2|bridges|. */
  lemma MainVarsWithin(bridges: seq<Bridge>)
    ensures VarsWithin(MainVars(bridges, |bridges|, 0), 2 * |bridges|)
    ensures forall t :: 0 <= t < |bridges| ==> 0 < Ones(MainVars(bridges, |bridges|, 0))[t] <= 2 * |bridges|
  {
    MainVarsAt(bridges, |bridges|, 0);
  }

  /**
   * The compiled formula mentions exactly the variables 1..2|bridges|: no
   * literal is 0 or beyond, and the double variable of the last bridge
   * occurs, negated, in that bridge's main clause.
   */
  lemma CompiledWithin(islands: seq<Island>, bridges: seq<Bridge>)
    ensures WithinVars(CompiledClauses(islands, bridges), 2 * |bridges|)
    ensures |bridges| <= |CompiledClauses(islands, bridges)|
    ensures |bridges| > 0 ==> var c := CompiledClauses(islands, bridges)[|bridges| - 1]; |c| > 0 && c[0] == -2 * |bridges|
  {
    var vars, n := MainVars(bridges, |bridges|, 0), 2 * |bridges|;
    MainVarsWithin(bridges);
    MainClausesWithin(vars, n);
    IslandsClausesWithin(islands, vars, n);
    CrossUpToWithin(Ones(vars), bridges, |bridges|, n);
    var main, rest := MainClauses(vars), IslandsClauses(islands, vars) + CrossUpTo(Ones(vars), bridges, |bridges|);
    WithinVarsAppend(IslandsClauses(islands, vars), CrossUpTo(Ones(vars), bridges, |bridges|), n);
    WithinVarsAppend(main, rest, n);
    assert CompiledClauses(islands, bridges) == main + rest;
    if |bridges| > 0 {
      LastMainClause(bridges);
    }
  }

  lemma LastMainClause(bridges: seq<Bridge>)
    requires |bridges| > 0
    ensures var c := MainClauses(MainVars(bridges, |bridges|, 0))[|bridges| - 1]; |c| > 0 && c[0] == -2 * |bridges|
  {
    var vars := MainVars(bridges, |bridges|, 0);
    var m := |bridges| - 1;
    MainVarsAt(bridges, |bridges|, 0);
    var v := vars[m];
    assert v.x2 == 2 * |bridges|;
    MainClausesLast(vars);
    assert MainClauses(vars)[m] == [-v.x2, v.x1];
  }

  /** get_n_vars of the compiled formula is 2|bridges|, so the search states have one entry per x-variable. */
  lemma NVarsOfCompiled(islands: seq<Island>, bridges: seq<Bridge>, n: nat)
    requires var clauses := CompiledClauses(islands, bridges);
      && (forall k, lit :: 0 <= k < |clauses| && lit in clauses[k] ==> Abs(lit) <= n)
      && (n == 0 || exists k, lit :: 0 <= k < |clauses| && lit in clauses[k] && Abs(lit) == n)
    ensures n == 2 * |bridges|
  {
    var clauses := CompiledClauses(islands, bridges);
    CompiledWithin(islands, bridges);
    if |bridges| > 0 {
      var c := clauses[|bridges| - 1];
      assert c[0] in c;
      assert Abs(c[0]) <= n;
    }
  }

  /** A total state gives every x-variable of the compiled formula a value. */
  lemma TotalAssigned(bridges: seq<Bridge>, t: seq<bool>)
    requires |t| == 2 * |bridges|
    ensures VarsAssigned(MainVars(bridges, |bridges|, 0), StateOf(t, |t|))
    ensures IdsAssigned(Ones(MainVars(bridges, |bridges|, 0)), StateOf(t, |t|))
  {
    var vars, a := MainVars(bridges, |bridges|, 0), StateOf(t, |t|);
    MainVarsWithin(bridges);
    assert VarsWithin(vars, |t|);
    forall k | 0 <= k < |vars|
      ensures 0 < vars[k].x1 < |a| && a[vars[k].x1].Some?
      ensures 0 < vars[k].x2 < |a| && a[vars[k].x2].Some?
    {
      var x1, x2 := vars[k].x1, vars[k].x2;
      assert 1 <= x1 <= |t| && 1 <= x2 <= |t|;
      assert a[x1] == Some(t[x1 - 1]);
      assert a[x2] == Some(t[x2 - 1]);
    }
  }

  /**
   * The puzzle's rules on a total state t of the 2|bridges| x-variables: no
   * bridge is doubled without being built, every island has its number of
   * bridges, and no two crossing bridges are both built.
   */
  predicate RulesHold(islands: seq<Island>, bridges: seq<Bridge>, t: seq<bool>)
    requires |t| == 2 * |bridges|
  {
    var vars, a := MainVars(bridges, |bridges|, 0), StateOf(t, |t|);
    && DoubleNeedsSingle(vars, a)
    && DegreesMatch(islands, vars, a)
    && NoCrossedPairs(Ones(vars), bridges, a, 0, |bridges|, |bridges|)
  }

  /** The meaning of the compiled formula: a total state satisfies it exactly when the rules hold. */
  lemma CompiledCorrect(islands: seq<Island>, bridges: seq<Bridge>, t: seq<bool>)
    requires |t| == 2 * |bridges|
    ensures InRange(CompiledClauses(islands, bridges), StateOf(t, |t|))
    ensures NonZero(CompiledClauses(islands, bridges))
    ensures SatisfiesAll(CompiledClauses(islands, bridges), StateOf(t, |t|)) <==> RulesHold(islands, bridges, t)
  {
    var vars, a, n := MainVars(bridges, |bridges|, 0), StateOf(t, |t|), |t|;
    CompiledWithin(islands, bridges);
    WithinVarsInRange(CompiledClauses(islands, bridges), n, a);
    TotalAssigned(bridges, t);
    var main, isl, cross := MainClauses(vars), IslandsClauses(islands, vars), CrossUpTo(Ones(vars), bridges, |bridges|);
    assert CompiledClauses(islands, bridges) == main + isl + cross;
    MainClausesCorrect(vars, a);
    IslandsClausesCorrect(islands, vars, a);
    CrossUpToCorrect(Ones(vars), bridges, a, |bridges|);
    SatisfiesAllAppend(main, isl, a);
    SatisfiesAllAppend(main + isl, cross, a);
    if DoubleNeedsSingle(vars, a) {
      IslandsMetIsDegrees(islands, vars, a);
    }
  }
}
