/**
 * The clause language shared by the compiler and the three search strategies:
 * a clause is a list of integer literals (positive: the variable must be true,
 * negative: it must be false, magnitude: the 1-based variable index), and a
 * search state is a Python list indexed by variable, entry 0 an unused
 * placeholder, each entry True, False or None (unassigned).
 */
module Cnf {
  import opened Wrappers

  type Clause = seq<int>

  /** `assignment[v]` is the value of variable v, `None` while unassigned. */
  type Assignment = seq<Option<bool>>

  function Abs(x: int): nat
  {
    if x < 0 then -x else x
  }

  /** Every literal of `c` names an index of `a` (so `a[abs(lit)]` exists). */
  predicate ClauseInRange(c: Clause, a: Assignment)
  {
    forall lit :: lit in c ==> Abs(lit) < |a|
  }

  predicate InRange(clauses: seq<Clause>, a: Assignment)
  {
    forall k :: 0 <= k < |clauses| ==> ClauseInRange(clauses[k], a)
  }

  /** No literal is 0 (the compiler only emits signed variable ids, and ids start at 1). */
  predicate NonZero(clauses: seq<Clause>)
  {
    forall k, lit :: 0 <= k < |clauses| && lit in clauses[k] ==> lit != 0
  }

  /** `(lit > 0 and val is True) or (lit < 0 and val is False)` */
  predicate LitTrue(a: Assignment, lit: int)
    requires Abs(lit) < |a|
  {
    (lit > 0 && a[Abs(lit)] == Some(true)) || (lit < 0 && a[Abs(lit)] == Some(false))
  }

  predicate Unassigned(a: Assignment, lit: int)
    requires Abs(lit) < |a|
  {
    a[Abs(lit)].None?
  }

  /** A clause is satisfied iff some literal is true. */
  predicate Satisfied(c: Clause, a: Assignment)
    requires ClauseInRange(c, a)
  {
    exists lit :: lit in c && LitTrue(a, lit)
  }

  /** A clause is falsified iff every literal is assigned and none is true. */
  predicate Falsified(c: Clause, a: Assignment)
    requires ClauseInRange(c, a)
  {
    forall lit :: lit in c ==> !Unassigned(a, lit) && !LitTrue(a, lit)
  }

  predicate SatisfiesAll(clauses: seq<Clause>, a: Assignment)
    requires InRange(clauses, a)
  {
    forall k :: 0 <= k < |clauses| ==> Satisfied(clauses[k], a)
  }

  /** Some clause is already irrecoverably false under the partial assignment. */
  predicate Conflict(clauses: seq<Clause>, a: Assignment)
    requires InRange(clauses, a)
  {
    exists k :: 0 <= k < |clauses| && Falsified(clauses[k], a)
  }

  /** The number of falsified clauses. */
  function CountFalsified(clauses: seq<Clause>, a: Assignment): (h: nat)
    requires InRange(clauses, a)
    ensures h <= |clauses|
    ensures h == 0 <==> !Conflict(clauses, a)
  {
    if clauses == [] then 0
    else
      var rest := CountFalsified(clauses[..|clauses| - 1], a);
      assert forall k :: 0 <= k < |clauses| - 1 ==> clauses[..|clauses| - 1][k] == clauses[k];
      rest + (if Falsified(clauses[|clauses| - 1], a) then 1 else 0)
  }

  lemma SatisfiesAllAppend(x: seq<Clause>, y: seq<Clause>, a: Assignment)
    requires InRange(x, a) && InRange(y, a)
    ensures InRange(x + y, a)
    ensures SatisfiesAll(x + y, a) <==> SatisfiesAll(x, a) && SatisfiesAll(y, a)
  {
    assert forall k :: 0 <= k < |x| ==> (x + y)[k] == x[k];
    assert forall k :: 0 <= k < |y| ==> (x + y)[|x| + k] == y[k];
  }

  /** The clause lists of `parts`, one after another. */
  function Concat(parts: seq<seq<Clause>>): seq<Clause>
  {
    if parts == [] then [] else Concat(parts[..|parts| - 1]) + parts[|parts| - 1]
  }

  lemma ConcatSnoc(parts: seq<seq<Clause>>, x: seq<Clause>)
    ensures Concat(parts + [x]) == Concat(parts) + x
  {
    assert (parts + [x])[..|parts|] == parts;
  }

  /** A concatenation is satisfied exactly when every part is. */
  lemma {:induction false} ConcatCorrect(parts: seq<seq<Clause>>, a: Assignment)
    requires forall k :: 0 <= k < |parts| ==> InRange(parts[k], a)
    ensures InRange(Concat(parts), a)
    ensures SatisfiesAll(Concat(parts), a) <==> forall k :: 0 <= k < |parts| ==> SatisfiesAll(parts[k], a)
  {
    if parts != [] {
      var init, last := parts[..|parts| - 1], parts[|parts| - 1];
      ConcatCorrect(init, a);
      SatisfiesAllAppend(Concat(init), last, a);
    }
  }

  /** Every literal is non-zero and names one of the variables 1..n. */
  predicate WithinVars(clauses: seq<Clause>, n: nat)
  {
    forall k, lit :: 0 <= k < |clauses| && lit in clauses[k] ==> lit != 0 && Abs(lit) <= n
  }

  lemma WithinVarsAppend(x: seq<Clause>, y: seq<Clause>, n: nat)
    requires WithinVars(x, n) && WithinVars(y, n)
    ensures WithinVars(x + y, n)
  {
    assert forall k :: 0 <= k < |x| ==> (x + y)[k] == x[k];
    assert forall k :: |x| <= k < |x| + |y| ==> (x + y)[k] == y[k - |x|];
  }

  lemma {:induction false} WithinVarsConcat(parts: seq<seq<Clause>>, n: nat)
    requires forall k :: 0 <= k < |parts| ==> WithinVars(parts[k], n)
    ensures WithinVars(Concat(parts), n)
  {
    if parts != [] {
      WithinVarsConcat(parts[..|parts| - 1], n);
      WithinVarsAppend(Concat(parts[..|parts| - 1]), parts[|parts| - 1], n);
    }
  }

  /** Clauses over variables 1..n index every state of length n + 1 and have no literal 0. */
  lemma WithinVarsInRange(clauses: seq<Clause>, n: nat, a: Assignment)
    requires WithinVars(clauses, n) && |a| == n + 1
    ensures InRange(clauses, a) && NonZero(clauses)
  {
  }

  /** The search state holding the values `p` for variables 1..|p| out of n. */
  function StateOf(p: seq<bool>, n: nat): (a: Assignment)
    requires |p| <= n
    ensures |a| == n + 1 && a[0] == None
    ensures forall v :: 1 <= v <= |p| ==> a[v] == Some(p[v - 1])
    ensures forall v :: |p| < v <= n ==> a[v] == None
  {
    [None] + seq(|p|, k requires 0 <= k < |p| => Some(p[k])) + seq(n - |p|, k => None)
  }

  /** Setting the next variable of a state extends its prefix: assignment[i] = val. */
  lemma StateOfExtend(p: seq<bool>, b: bool, n: nat)
    requires |p| < n
    ensures StateOf(p, n)[|p| + 1 := Some(b)] == StateOf(p + [b], n)
  {
    var x, y := StateOf(p, n)[|p| + 1 := Some(b)], StateOf(p + [b], n);
    forall v | 0 <= v <= n ensures x[v] == y[v] {
      if 1 <= v <= |p| {
        assert (p + [b])[v - 1] == p[v - 1];
      }
    }
  }

  /** Clearing the last variable of a state gives back its parent: assignment[i] = None. */
  lemma StateOfRestore(p: seq<bool>, b: bool, n: nat)
    requires |p| < n
    ensures StateOf(p + [b], n)[|p| + 1 := None] == StateOf(p, n)
  {
    var x, y := StateOf(p + [b], n)[|p| + 1 := None], StateOf(p, n);
    forall v | 0 <= v <= n ensures x[v] == y[v] {
      if 1 <= v <= |p| {
        assert (p + [b])[v - 1] == p[v - 1];
      }
    }
  }

  /** Different prefixes give different states. */
  lemma StateOfInjective(p: seq<bool>, q: seq<bool>, n: nat)
    requires |p| <= n && |q| <= n && StateOf(p, n) == StateOf(q, n)
    ensures p == q
  {
    var a, b := StateOf(p, n), StateOf(q, n);
    if |p| > 0 {
      assert a[|p|].Some?;
    }
    if |q| > 0 {
      assert b[|q|].Some?;
    }
    forall k | 0 <= k < |p| && k < |q| ensures p[k] == q[k] {
      assert a[k + 1] == b[k + 1];
    }
  }

  /** `q` agrees with `p` on p's variables. */
  predicate IsPrefix(p: seq<bool>, q: seq<bool>)
  {
    |p| <= |q| && q[..|p|] == p
  }

  /**
   * Pruning is sound: a clause falsified under a partial state stays falsified
   * under every longer state that agrees with it.
   */
  lemma FalsifiedPersists(c: Clause, p: seq<bool>, q: seq<bool>, n: nat)
    requires IsPrefix(p, q) && |q| <= n
    requires ClauseInRange(c, StateOf(p, n))
    ensures Falsified(c, StateOf(p, n)) ==> Falsified(c, StateOf(q, n))
  {
    var a, b := StateOf(p, n), StateOf(q, n);
    if Falsified(c, a) {
      forall lit | lit in c
        ensures !Unassigned(b, lit) && !LitTrue(b, lit)
      {
        assert !Unassigned(a, lit);
        var v := Abs(lit);
        assert 1 <= v <= |p|;
        assert q[v - 1] == p[v - 1];
        assert b[v] == a[v];
      }
    }
  }

  lemma ConflictPersists(clauses: seq<Clause>, p: seq<bool>, q: seq<bool>, n: nat)
    requires IsPrefix(p, q) && |q| <= n
    requires InRange(clauses, StateOf(p, n))
    ensures Conflict(clauses, StateOf(p, n)) ==> Conflict(clauses, StateOf(q, n))
  {
    forall k | 0 <= k < |clauses| ensures Falsified(clauses[k], StateOf(p, n)) ==> Falsified(clauses[k], StateOf(q, n)) {
      FalsifiedPersists(clauses[k], p, q, n);
    }
  }

  /**
   * On a total state with non-zero literals "no clause falsified" is exactly
   * "every clause satisfied".
   */
  lemma TotalNoConflictIsSatisfying(clauses: seq<Clause>, t: seq<bool>)
    requires NonZero(clauses) && InRange(clauses, StateOf(t, |t|))
    ensures !Conflict(clauses, StateOf(t, |t|)) <==> SatisfiesAll(clauses, StateOf(t, |t|))
  {
    var a := StateOf(t, |t|);
    forall k | 0 <= k < |clauses|
      ensures Falsified(clauses[k], a) <==> !Satisfied(clauses[k], a)
    {
      forall lit | lit in clauses[k] ensures !Unassigned(a, lit) {
        assert lit != 0;
      }
    }
  }

  /**
   * get_n_vars: the largest variable index mentioned by a literal, or 0 when
   * there is none.
   */
  method GetNVars(clauses: seq<Clause>) returns (n: nat)
    ensures forall k, lit :: 0 <= k < |clauses| && lit in clauses[k] ==> Abs(lit) <= n
    ensures n == 0 || exists k, lit :: 0 <= k < |clauses| && lit in clauses[k] && Abs(lit) == n
  {
    n := 0;
    for k := 0 to |clauses|
      invariant forall k', lit :: 0 <= k' < k && lit in clauses[k'] ==> Abs(lit) <= n
      invariant n == 0 || exists k', lit :: 0 <= k' < k && lit in clauses[k'] && Abs(lit) == n
    {
      var clause := clauses[k];
      for m := 0 to |clause|
        invariant forall k', lit :: 0 <= k' < k && lit in clauses[k'] ==> Abs(lit) <= n
        invariant forall lit :: lit in clause[..m] ==> Abs(lit) <= n
        invariant n == 0 || (exists k', lit :: 0 <= k' < k && lit in clauses[k'] && Abs(lit) == n)
                          || (exists lit :: lit in clause[..m] && Abs(lit) == n)
      {
        assert clause[..m + 1] == clause[..m] + [clause[m]];
        if Abs(clause[m]) > n {
          n := Abs(clause[m]);
        }
      }
      assert clause[..|clause|] == clause;
    }
  }

  /** With n = get_n_vars, every literal indexes a state of length n + 1. */
  lemma BoundedByNVars(clauses: seq<Clause>, n: nat, a: Assignment)
    requires forall k, lit :: 0 <= k < |clauses| && lit in clauses[k] ==> Abs(lit) <= n
    requires |a| == n + 1
    ensures InRange(clauses, a)
  {
  }
}
