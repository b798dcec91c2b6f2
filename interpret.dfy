/**
 * interpret_model: reading the bridges off a search state. The solution is
 * the dictionary (i, j) -> count in insertion order, written as a list of
 * entries; an entry appears for every bridge whose single variable is true.
 */
module Interpret {
  import opened Wrappers
  import opened Cnf
  import opened Encoding

  /** One entry sol[(i, j)] = count of the solution dictionary. */
  datatype Built = Built(i: int, j: int, count: nat)

  /** The entries interpret_model produces from the first n entries of bridge_vars. */
  function Interpretation(a: Assignment, vars: seq<BridgeVar>, n: nat): (sol: seq<Built>)
    requires n <= |vars|
    ensures |sol| <= n
  {
    if n == 0 then []
    else
      var v := vars[n - 1];
      Interpretation(a, vars, n - 1) + (if Present(a, v.x1) then [Built(v.i, v.j, Count(a, v))] else [])
  }

  /**
   * sol = {}; for each (i, j) -> (x1, x2): if assignment[x1] then
   * sol[(i, j)] = 2 if assignment[x2] else 1. The keys of bridge_vars are
   * distinct, so every assignment to sol adds a new entry at the end.
   */
  method InterpretModel(assignment: Assignment, bridgeVars: seq<BridgeVar>) returns (sol: seq<Built>)
    requires forall t :: 0 <= t < |bridgeVars| ==>
      0 <= bridgeVars[t].x1 < |assignment| && 0 <= bridgeVars[t].x2 < |assignment|
    ensures sol == Interpretation(assignment, bridgeVars, |bridgeVars|)
  {
    sol := [];
    for t := 0 to |bridgeVars|
      invariant sol == Interpretation(assignment, bridgeVars, t)
    {
      var v := bridgeVars[t];
      if assignment[v.x1] == Some(true) {
        var count := 1;
        if assignment[v.x2] == Some(true) {
          count := 2;
        }
        sol := sol + [Built(v.i, v.j, count)];
      }
    }
  }

  /**
   * The entries are exactly the bridges whose single variable is true, each
   * with count 1 or 2 as its double variable is false or true.
   */
  lemma {:induction false} InterpretationMembers(a: Assignment, vars: seq<BridgeVar>, n: nat, e: Built)
    requires n <= |vars|
    ensures e in Interpretation(a, vars, n) <==>
      exists t :: 0 <= t < n && Present(a, vars[t].x1) && e == Built(vars[t].i, vars[t].j, Count(a, vars[t]))
    ensures e in Interpretation(a, vars, n) ==> 1 <= e.count <= 2
  {
    if n > 0 {
      InterpretationMembers(a, vars, n - 1, e);
      var v := vars[n - 1];
      if e == Built(v.i, v.j, Count(a, v)) && Present(a, v.x1) {
        assert e in Interpretation(a, vars, n);
      }
    }
  }

  /** The bridges the solution builds at island id: each entry counts once for each of its ends at id. */
  function BridgesAt(sol: seq<Built>, id: int): nat
  {
    if sol == [] then 0
    else
      var e := sol[|sol| - 1];
      BridgesAt(sol[..|sol| - 1], id) + (if e.i == id then e.count else 0) + (if e.j == id then e.count else 0)
  }

  lemma BridgesAtAppend(x: seq<Built>, y: seq<Built>, id: int)
    requires |y| <= 1
    ensures BridgesAt(x + y, id) == BridgesAt(x, id) + BridgesAt(y, id)
  {
    if y != [] {
      assert (x + y)[..|x + y| - 1] == x;
      assert y[..0] == [];
    } else {
      assert x + y == x;
    }
  }

  /** Counting at an island in the solution gives the island's degree under the state. */
  lemma {:induction false} InterpretationDegree(a: Assignment, vars: seq<BridgeVar>, n: nat, id: int)
    requires n <= |vars|
    ensures BridgesAt(Interpretation(a, vars, n), id) == Degree(vars, n, id, a)
  {
    if n > 0 {
      InterpretationDegree(a, vars, n - 1, id);
      var v := vars[n - 1];
      var last := if Present(a, v.x1) then [Built(v.i, v.j, Count(a, v))] else [];
      BridgesAtAppend(Interpretation(a, vars, n - 1), last, id);
      if last != [] {
        assert last[..0] == [];
      }
    }
  }
}
