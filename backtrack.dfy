/**
 * The backtracking strategy: assign the variables 1..n in order, False
 * before True, into one shared list, undoing an assignment when its subtree
 * yields nothing, and skipping a subtree as soon as some clause is falsified.
 */
module Backtrack {
  import opened Wrappers
  import opened Cnf
  import opened Interpret
  import opened Connect
  import opened Search
  import opened Grid
  import opened Pipeline

  /**
   * solve_with_back_track: compile the grid, run backtrack on
   * [None] * (n + 1) from variable 1, and return the result only when it is
   * truthy.
   */
  method SolveWithBackTrack(matrix: Matrix) returns (solution: Option<seq<Built>>)
    requires Rectangular(matrix) && IslandsOf(matrix) != []
    ensures solution == Answer(matrix)
  {
    var P := Prepare(matrix);
    ProblemWellFormed(matrix);
    var assignment := new Option<bool>[P.n + 1](_ => None);
    assert assignment[..] == StateOf([], P.n);
    var result := Explore(P, assignment, 1, []);
    AnswerSpec(matrix);
    if Truthy(result) {
      solution := result;
    } else {
      solution := None;
    }
  }

  /** `if result:` — None and the empty solution dictionary are both false. */
  predicate Truthy(r: Option<seq<Built>>)
  {
    r.Some? && r.value != []
  }

  /**
   * is_valid: no clause has every literal assigned and false (a clause with
   * an unassigned literal still counts as satisfied).
   */
  method IsValid(clauses: seq<Clause>, assignment: array<Option<bool>>) returns (valid: bool)
    requires InRange(clauses, assignment[..])
    ensures valid == !Conflict(clauses, assignment[..])
  {
    for k := 0 to |clauses|
      invariant forall j :: 0 <= j < k ==> !Falsified(clauses[j], assignment[..])
    {
      var open := ClauseOpen(clauses[k], assignment[..]);
      if !open {
        return false;
      }
    }
    return true;
  }

  /**
   * backtrack(assignment, i): the state holds the values p for the variables
   * 1..i-1. The search returns a truthy solution exactly when some
   * completion of p is accepted with a non-empty solution, and then the
   * solution of the first such completion in itertools.product order, with
   * the list left holding that completion; otherwise it leaves the list as
   * it found it.
   */
  method Explore(P: Problem, assignment: array<Option<bool>>, i: nat, ghost p: seq<bool>)
    returns (result: Option<seq<Built>>)
    requires WellFormed(P) && |p| <= P.n && i == |p| + 1
    requires assignment[..] == StateOf(p, P.n)
    modifies assignment
    ensures AllTotal(P, Completions(p, P.n))
    ensures var r := FirstAccepted(P, Completions(p, P.n), true);
      && (Truthy(result) <==> r.Some?)
      && (r.Some? ==> result == Some(SolutionOf(P, r.value)) && assignment[..] == StateOf(r.value, P.n))
    ensures !Truthy(result) ==> assignment[..] == StateOf(p, P.n)
    decreases P.n - |p|
  {
    CompletionsMembers(p, P.n);
    WithinVarsInRange(P.clauses, P.n, assignment[..]);
    if i > P.n {
      result := Leaf(P, assignment, p);
      return;
    }
    ghost var lo, hi := Completions(p + [false], P.n), Completions(p + [true], P.n);
    CompletionsMembers(p + [false], P.n);
    CompletionsMembers(p + [true], P.n);
    FirstAcceptedAppend(P, lo, hi, true);
    assert Completions(p, P.n) == lo + hi;
    var vals := [false, true];
    for k := 0 to |vals|
      invariant assignment[..] == StateOf(p, P.n)
      invariant k > 0 ==> FirstAccepted(P, lo, true) == None
      invariant k > 1 ==> FirstAccepted(P, hi, true) == None
    {
      var val := vals[k];
      assignment[i] := Some(val);
      StateOfExtend(p, val, P.n);
      result := Child(P, assignment, i, p, val);
      if Truthy(result) {
        return;
      }
      assignment[i] := None;
      StateOfRestore(p, val, P.n);
    }
    return None;
  }

  /** The body of the loop for one value: is_valid, then the recursive call. */
  method Child(P: Problem, assignment: array<Option<bool>>, i: nat, ghost p: seq<bool>, val: bool)
    returns (result: Option<seq<Built>>)
    requires WellFormed(P) && |p| < P.n && i == |p| + 1
    requires assignment[..] == StateOf(p + [val], P.n)
    modifies assignment
    ensures AllTotal(P, Completions(p + [val], P.n))
    ensures var r := FirstAccepted(P, Completions(p + [val], P.n), true);
      && (Truthy(result) <==> r.Some?)
      && (r.Some? ==> result == Some(SolutionOf(P, r.value)) && assignment[..] == StateOf(r.value, P.n))
    ensures !Truthy(result) ==> assignment[..] == StateOf(p + [val], P.n)
    decreases P.n - |p|, 0
  {
    CompletionsMembers(p + [val], P.n);
    WithinVarsInRange(P.clauses, P.n, assignment[..]);
    var valid := IsValid(P.clauses, assignment);
    if valid {
      result := Explore(P, assignment, i + 1, p + [val]);
    } else {
      NoAcceptedUnderConflict(P, p + [val], true);
      result := None;
    }
  }

  /** i > n: a total state is returned as its solution when valid and connected. */
  method Leaf(P: Problem, assignment: array<Option<bool>>, ghost p: seq<bool>)
    returns (result: Option<seq<Built>>)
    requires WellFormed(P) && |p| == P.n
    requires assignment[..] == StateOf(p, P.n)
    ensures AllTotal(P, Completions(p, P.n))
    ensures var r := FirstAccepted(P, Completions(p, P.n), true);
      && (Truthy(result) <==> r.Some?)
      && (r.Some? ==> result == Some(SolutionOf(P, r.value)))
    ensures result.Some? <==> Accepted(P, p, false)
    ensures result.Some? ==> result.value == SolutionOf(P, p)
  {
    assert Completions(p, P.n) == [p];
    WithinVarsInRange(P.clauses, P.n, assignment[..]);
    TotalNoConflictIsSatisfying(P.clauses, p);
    var valid := IsValid(P.clauses, assignment);
    result := None;
    if valid {
      var solution := InterpretModel(assignment[..], P.vars);
      SolutionEnds(P, p);
      var connected := CheckConnect(solution, |P.islands|);
      if connected {
        result := Some(solution);
      }
    }
    assert FirstAccepted(P, [p][1..], true) == None;
  }
}
