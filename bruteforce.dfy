/**
 * The brute-force strategy: try every total state in itertools.product
 * order and return the solution of the first one that satisfies every
 * clause and whose bridges connect all islands.
 */
module BruteForce {
  import opened Wrappers
  import opened Cnf
  import opened Interpret
  import opened Connect
  import opened Search
  import opened Grid
  import opened Pipeline

  /**
   * solve_with_brute_force: compile the grid, then search every total state
   * in product order; the solution, or None when no state is accepted.
   */
  method SolveWithBruteForce(matrix: Matrix) returns (solution: Option<seq<Built>>)
    requires Rectangular(matrix) && IslandsOf(matrix) != []
    ensures solution == Answer(matrix)
  {
    var P := Prepare(matrix);
    ProblemWellFormed(matrix);
    solution := SearchAll(P);
  }

  /**
   * for c in product([False, True], repeat=n): the first c whose state
   * passes TryState gives the result; None when no c does.
   */
  method SearchAll(P: Problem) returns (result: Option<seq<Built>>)
    requires WellFormed(P)
    ensures AllTotal(P, Product(P.n))
    ensures result == Decoded(P, FirstAccepted(P, Product(P.n), false))
  {
    CompletionsMembers([], P.n);
    result := SearchList(P, Product(P.n));
  }

  /** The loop over a list of total states, in list order. */
  method SearchList(P: Problem, all: seq<seq<bool>>) returns (result: Option<seq<Built>>)
    requires WellFormed(P) && AllTotal(P, all)
    ensures result == Decoded(P, FirstAccepted(P, all, false))
  {
    for k := 0 to |all|
      invariant forall j :: 0 <= j < k ==> !Accepted(P, all[j], false)
    {
      var ok, solution := TryState(P, all[k]);
      if ok {
        FirstAcceptedAt(P, all, false, k);
        return Some(solution);
      }
    }
    FirstAcceptedSpec(P, all, false);
    return None;
  }

  /**
   * One iteration of the loop: assignment = [None] + list(c); the clause
   * test; interpret_model; check_connect. On [None] + list(c) every
   * variable 1..n holds a bool, so the truthiness clause test of
   * `solve_with_brute_force` is the same as the `is True` / `is False`
   * test of AllSatisfied.
   */
  method TryState(P: Problem, c: seq<bool>) returns (ok: bool, solution: seq<Built>)
    requires WellFormed(P) && |c| == P.n
    ensures ok == Accepted(P, c, false)
    ensures ok ==> solution == SolutionOf(P, c)
  {
    var assignment := StateOf(c, P.n);
    WithinVarsInRange(P.clauses, P.n, assignment);
    var satisfied := AllSatisfied(P.clauses, assignment);
    if !satisfied {
      return false, [];
    }
    solution := InterpretModel(assignment, P.vars);
    SolutionEnds(P, c);
    ok := CheckConnect(solution, |P.islands|);
  }
}
