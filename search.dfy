/**
 * What the three search strategies have in common: the compiled problem,
 * the total states they accept, the order itertools.product enumerates the
 * total states in, and why a conflict lets a search skip a whole subtree.
 */
module Search {
  import opened Wrappers
  import opened Cnf
  import opened Grid
  import opened Encoding
  import opened Interpret
  import opened Connect

  /** The clauses, n = get_n_vars(cnf), bridge_vars and the island table, as every strategy sees them. */
  datatype Problem = Problem(clauses: seq<Clause>, n: nat, vars: seq<BridgeVar>, islands: seq<Island>)

  /** Both ends of every entry of bridge_vars are island ids 1..k. */
  predicate EndsIn(vars: seq<BridgeVar>, k: nat)
  {
    forall t :: 0 <= t < |vars| ==> 1 <= vars[t].i <= k && 1 <= vars[t].j <= k
  }

  /**
   * Every literal names one of the variables 1..n, so does every id of
   * bridge_vars, and there is at least one island.
   */
  predicate WellFormed(P: Problem)
  {
    && WithinVars(P.clauses, P.n)
    && VarsWithin(P.vars, P.n)
    && |P.islands| > 0
    && EndsIn(P.vars, |P.islands|)
  }

  /** interpret_model on the total state t. */
  function SolutionOf(P: Problem, t: seq<bool>): (sol: seq<Built>)
    requires |t| <= P.n
  {
    Interpretation(StateOf(t, P.n), P.vars, |P.vars|)
  }

  /** The solution's entries join islands of the table. */
  lemma SolutionEnds(P: Problem, t: seq<bool>)
    requires WellFormed(P) && |t| <= P.n
    ensures EndsAreIslands(SolutionOf(P, t), |P.islands|)
  {
    var sol := SolutionOf(P, t);
    forall k | 0 <= k < |sol| && sol[k].count > 0
      ensures 1 <= sol[k].i <= |P.islands| && 1 <= sol[k].j <= |P.islands|
    {
      InterpretationMembers(StateOf(t, P.n), P.vars, |P.vars|, sol[k]);
    }
  }

  /**
   * A total state a strategy returns the solution of: every clause holds and
   * the built bridges connect all islands; with nonEmpty, as `if result:`
   * demands in the backtracking search, the solution is not the empty dict.
   */
  ghost predicate Accepted(P: Problem, t: seq<bool>, nonEmpty: bool)
    requires WellFormed(P) && |t| == P.n
  {
    WithinVarsInRange(P.clauses, P.n, StateOf(t, P.n));
    && SatisfiesAll(P.clauses, StateOf(t, P.n))
    && Connected(SolutionOf(P, t), |P.islands|)
    && (nonEmpty ==> SolutionOf(P, t) != [])
  }

  /** The total states extending p, in the order itertools.product gives their remaining values. */
  function Completions(p: seq<bool>, n: nat): (ts: seq<seq<bool>>)
    ensures |ts| > 0
    decreases n - |p|
  {
    if |p| >= n then [p] else Completions(p + [false], n) + Completions(p + [true], n)
  }

  /** itertools.product([False, True], repeat=n). */
  function Product(n: nat): seq<seq<bool>>
  {
    Completions([], n)
  }

  lemma PrefixExtend(p: seq<bool>, b: bool, t: seq<bool>)
    requires IsPrefix(p + [b], t)
    ensures IsPrefix(p, t) && t[|p|] == b
  {
    assert t[..|p|] == (p + [b])[..|p|];
    assert t[|p|] == t[..|p| + 1][|p|];
  }

  /** The completions are exactly the length-n sequences that extend p. */
  lemma {:induction false} CompletionsMembers(p: seq<bool>, n: nat)
    requires |p| <= n
    ensures forall k :: 0 <= k < |Completions(p, n)| ==> |Completions(p, n)[k]| == n && IsPrefix(p, Completions(p, n)[k])
    ensures forall t :: |t| == n && IsPrefix(p, t) ==> t in Completions(p, n)
    decreases n - |p|
  {
    var ts := Completions(p, n);
    if |p| == n {
      forall t | |t| == n && IsPrefix(p, t) ensures t in ts {
        assert t == t[..|p|];
      }
    } else {
      var f, g := Completions(p + [false], n), Completions(p + [true], n);
      CompletionsMembers(p + [false], n);
      CompletionsMembers(p + [true], n);
      forall k | 0 <= k < |ts| ensures |ts[k]| == n && IsPrefix(p, ts[k]) {
        if k < |f| {
          assert ts[k] == f[k];
          PrefixExtend(p, false, f[k]);
        } else {
          assert ts[k] == g[k - |f|];
          PrefixExtend(p, true, g[k - |f|]);
        }
      }
      forall t | |t| == n && IsPrefix(p, t) ensures t in ts {
        assert t[..|p| + 1] == p + [t[|p|]];
        if t[|p|] {
          assert t in g;
        } else {
          assert t in f;
        }
      }
    }
  }

  /** s comes before t in lexicographic order, False before True. */
  predicate LexLess(s: seq<bool>, t: seq<bool>)
  {
    exists m :: 0 <= m < |s| && m < |t| && s[..m] == t[..m] && !s[m] && t[m]
  }

  /** The completions are listed in strictly increasing lexicographic order. */
  lemma {:induction false} CompletionsSorted(p: seq<bool>, n: nat)
    requires |p| <= n
    ensures forall k1, k2 :: 0 <= k1 < k2 < |Completions(p, n)| ==> LexLess(Completions(p, n)[k1], Completions(p, n)[k2])
    decreases n - |p|
  {
    if |p| < n {
      var ts := Completions(p, n);
      var f, g := Completions(p + [false], n), Completions(p + [true], n);
      CompletionsSorted(p + [false], n);
      CompletionsSorted(p + [true], n);
      CompletionsMembers(p + [false], n);
      CompletionsMembers(p + [true], n);
      forall k1, k2 | 0 <= k1 < k2 < |ts| ensures LexLess(ts[k1], ts[k2]) {
        if k2 < |f| {
          assert ts[k1] == f[k1] && ts[k2] == f[k2];
        } else if |f| <= k1 {
          assert ts[k1] == g[k1 - |f|] && ts[k2] == g[k2 - |f|];
        } else {
          var s, t := f[k1], g[k2 - |f|];
          assert ts[k1] == s && ts[k2] == t;
          PrefixExtend(p, false, s);
          PrefixExtend(p, true, t);
          assert s[..|p|] == t[..|p|];
        }
      }
    }
  }

  lemma LexLessIrreflexive(s: seq<bool>)
    ensures !LexLess(s, s)
  {
  }

  lemma LexLessTransitive(s: seq<bool>, t: seq<bool>, u: seq<bool>)
    requires LexLess(s, t) && LexLess(t, u)
    ensures LexLess(s, u)
  {
    var m1 :| 0 <= m1 < |s| && m1 < |t| && s[..m1] == t[..m1] && !s[m1] && t[m1];
    var m2 :| 0 <= m2 < |t| && m2 < |u| && t[..m2] == u[..m2] && !t[m2] && u[m2];
    if m1 < m2 {
      assert t[..m1] == u[..m1] by { assert t[..m1] == t[..m2][..m1]; assert u[..m1] == u[..m2][..m1]; }
      assert t[m1] == u[m1] by { assert t[m1] == t[..m2][m1]; assert u[m1] == u[..m2][m1]; }
    } else {
      assert m2 < m1;
      assert s[..m2] == t[..m2] by { assert s[..m2] == s[..m1][..m2]; assert t[..m2] == t[..m1][..m2]; }
      assert s[m2] == t[m2] by { assert s[m2] == s[..m1][m2]; assert t[m2] == t[..m1][m2]; }
    }
  }

  /** Two different sequences of the same length are ordered one way or the other. */
  lemma LexLessTotal(s: seq<bool>, t: seq<bool>)
    requires |s| == |t| && s != t
    ensures LexLess(s, t) || LexLess(t, s)
  {
    var m := FirstDifference(s, t);
  }

  /** Two sequences of one length are equal or ordered one way or the other. */
  lemma LexTrichotomy(s: seq<bool>, t: seq<bool>)
    requires |s| == |t|
    ensures s == t || LexLess(s, t) || LexLess(t, s)
  {
    if s != t {
      LexLessTotal(s, t);
    }
  }

  lemma {:induction false} FirstDifference(s: seq<bool>, t: seq<bool>) returns (m: nat)
    requires |s| == |t| && s != t
    ensures m < |s| && s[m] != t[m] && s[..m] == t[..m]
  {
    if |s| == 0 {
      assert false;
    }
    if s[0] != t[0] {
      m := 0;
    } else {
      if s[1..] == t[1..] {
        assert false;
      }
      var m' := FirstDifference(s[1..], t[1..]);
      m := m' + 1;
      assert s[..m] == [s[0]] + s[1..][..m'];
      assert t[..m] == [t[0]] + t[1..][..m'];
    }
  }

  /** All entries of ts are total states. */
  predicate AllTotal(P: Problem, ts: seq<seq<bool>>)
  {
    forall k :: 0 <= k < |ts| ==> |ts[k]| == P.n
  }

  /** The first entry of ts the strategy accepts, if any. */
  ghost function FirstAccepted(P: Problem, ts: seq<seq<bool>>, nonEmpty: bool): (r: Option<seq<bool>>)
    requires WellFormed(P) && AllTotal(P, ts)
    ensures r.Some? ==> |r.value| == P.n
  {
    if ts == [] then None
    else if Accepted(P, ts[0], nonEmpty) then Some(ts[0])
    else FirstAccepted(P, ts[1..], nonEmpty)
  }

  /** Searching two lists one after the other finds the first hit of the first list, else that of the second. */
  lemma {:induction false} FirstAcceptedAppend(P: Problem, xs: seq<seq<bool>>, ys: seq<seq<bool>>, nonEmpty: bool)
    requires WellFormed(P) && AllTotal(P, xs) && AllTotal(P, ys)
    ensures AllTotal(P, xs + ys)
    ensures FirstAccepted(P, xs + ys, nonEmpty) ==
      if FirstAccepted(P, xs, nonEmpty).Some? then FirstAccepted(P, xs, nonEmpty) else FirstAccepted(P, ys, nonEmpty)
  {
    if xs != [] {
      assert (xs + ys)[0] == xs[0];
      assert (xs + ys)[1..] == xs[1..] + ys;
      FirstAcceptedAppend(P, xs[1..], ys, nonEmpty);
    } else {
      assert xs + ys == ys;
    }
  }

  /** The first hit is the entry at the first accepted position. */
  lemma {:induction false} FirstAcceptedAt(P: Problem, ts: seq<seq<bool>>, nonEmpty: bool, k: nat)
    requires WellFormed(P) && AllTotal(P, ts) && k < |ts|
    requires Accepted(P, ts[k], nonEmpty)
    requires forall j :: 0 <= j < k ==> !Accepted(P, ts[j], nonEmpty)
    ensures FirstAccepted(P, ts, nonEmpty) == Some(ts[k])
  {
    if k > 0 {
      assert !Accepted(P, ts[0], nonEmpty);
      forall j | 0 <= j < k - 1 ensures !Accepted(P, ts[1..][j], nonEmpty) {
        assert ts[1..][j] == ts[j + 1];
      }
      FirstAcceptedAt(P, ts[1..], nonEmpty, k - 1);
    }
  }

  /** There is no hit exactly when no entry is accepted; a hit is an accepted entry at its first position. */
  lemma {:induction false} FirstAcceptedSpec(P: Problem, ts: seq<seq<bool>>, nonEmpty: bool)
    requires WellFormed(P) && AllTotal(P, ts)
    ensures FirstAccepted(P, ts, nonEmpty).None? <==> forall k :: 0 <= k < |ts| ==> !Accepted(P, ts[k], nonEmpty)
    ensures FirstAccepted(P, ts, nonEmpty).Some? ==>
      exists k :: (0 <= k < |ts| && FirstAccepted(P, ts, nonEmpty).value == ts[k] && Accepted(P, ts[k], nonEmpty) &&
        forall j :: 0 <= j < k ==> !Accepted(P, ts[j], nonEmpty))
  {
    if ts != [] {
      FirstAcceptedSpec(P, ts[1..], nonEmpty);
      if !Accepted(P, ts[0], nonEmpty) {
        forall k | 0 < k < |ts| ensures ts[k] == ts[1..][k - 1] { }
        if FirstAccepted(P, ts[1..], nonEmpty).Some? {
          var k :| 0 <= k < |ts[1..]| && FirstAccepted(P, ts[1..], nonEmpty).value == ts[1..][k] &&
            Accepted(P, ts[1..][k], nonEmpty) && forall j :: 0 <= j < k ==> !Accepted(P, ts[1..][j], nonEmpty);
          assert forall j :: 0 <= j < k + 1 ==> !Accepted(P, ts[j], nonEmpty) by {
            forall j | 0 < j < k + 1 ensures !Accepted(P, ts[j], nonEmpty) {
              assert ts[j] == ts[1..][j - 1];
            }
          }
        }
      }
    }
  }

  /**
   * The first accepted state in itertools.product order is the
   * lexicographically least accepted state, and there is none exactly when
   * no total state is accepted.
   */
  lemma FirstIsLeast(P: Problem, nonEmpty: bool)
    requires WellFormed(P)
    ensures AllTotal(P, Product(P.n))
    ensures var r := FirstAccepted(P, Product(P.n), nonEmpty);
      && (r.None? <==> forall t :: |t| == P.n ==> !Accepted(P, t, nonEmpty))
      && (r.Some? ==>
            && |r.value| == P.n && Accepted(P, r.value, nonEmpty)
            && forall t :: |t| == P.n && Accepted(P, t, nonEmpty) ==> !LexLess(t, r.value))
  {
    var ts := Product(P.n);
    CompletionsMembers([], P.n);
    CompletionsSorted([], P.n);
    FirstAcceptedSpec(P, ts, nonEmpty);
    forall t | |t| == P.n ensures t in ts {
      assert IsPrefix([], t);
    }
    var r := FirstAccepted(P, ts, nonEmpty);
    if r.Some? {
      var k :| 0 <= k < |ts| && r.value == ts[k] && Accepted(P, ts[k], nonEmpty) &&
        forall j :: 0 <= j < k ==> !Accepted(P, ts[j], nonEmpty);
      forall t | |t| == P.n && Accepted(P, t, nonEmpty) ensures !LexLess(t, r.value) {
        var j :| 0 <= j < |ts| && ts[j] == t;
        if j > k {
          LexLessOrder(ts[k], ts[j]);
        } else if j == k {
          LexLessIrreflexive(t);
        }
      }
    }
  }

  /**
   * A formula holding the empty clause (an island that cannot get its
   * number of bridges) has no accepted total state, so every strategy
   * finds nothing.
   */
  lemma EmptyClauseRejects(P: Problem, nonEmpty: bool)
    requires WellFormed(P) && [] in P.clauses
    ensures AllTotal(P, Product(P.n))
    ensures FirstAccepted(P, Product(P.n), nonEmpty) == None
  {
    FirstIsLeast(P, nonEmpty);
    var k :| 0 <= k < |P.clauses| && P.clauses[k] == [];
    forall t | |t| == P.n ensures !Accepted(P, t, nonEmpty) {
      WithinVarsInRange(P.clauses, P.n, StateOf(t, P.n));
      assert !Satisfied(P.clauses[k], StateOf(t, P.n));
    }
  }

  /**
   * When every accepted state already has a non-empty solution, demanding a
   * non-empty solution changes nothing.
   */
  lemma {:induction false} FirstAcceptedSame(P: Problem, ts: seq<seq<bool>>)
    requires WellFormed(P) && AllTotal(P, ts)
    requires forall k :: 0 <= k < |ts| && Accepted(P, ts[k], false) ==> SolutionOf(P, ts[k]) != []
    ensures FirstAccepted(P, ts, true) == FirstAccepted(P, ts, false)
  {
    if ts != [] {
      forall k | 0 <= k < |ts[1..]| && Accepted(P, ts[1..][k], false) ensures SolutionOf(P, ts[1..][k]) != [] {
        assert ts[1..][k] == ts[k + 1];
      }
      FirstAcceptedSame(P, ts[1..]);
    }
  }

  /** Lexicographic order is asymmetric. */
  lemma LexLessOrder(s: seq<bool>, t: seq<bool>)
    requires LexLess(s, t)
    ensures !LexLess(t, s)
  {
    if LexLess(t, s) {
      LexLessTransitive(s, t, s);
      LexLessIrreflexive(s);
    }
  }

  /**
   * A state that already falsifies a clause has no accepted completion, so a
   * search may drop it with its whole subtree.
   */
  lemma NoAcceptedUnderConflict(P: Problem, p: seq<bool>, nonEmpty: bool)
    requires WellFormed(P) && |p| <= P.n
    requires InRange(P.clauses, StateOf(p, P.n)) && Conflict(P.clauses, StateOf(p, P.n))
    ensures AllTotal(P, Completions(p, P.n))
    ensures FirstAccepted(P, Completions(p, P.n), nonEmpty) == None
  {
    var ts := Completions(p, P.n);
    CompletionsMembers(p, P.n);
    FirstAcceptedSpec(P, ts, nonEmpty);
    forall k | 0 <= k < |ts| ensures !Accepted(P, ts[k], nonEmpty) {
      var t := ts[k];
      WithinVarsInRange(P.clauses, P.n, StateOf(t, P.n));
      ConflictPersists(P.clauses, p, t, P.n);
      TotalNoConflictIsSatisfying(P.clauses, t);
    }
  }

  /** What a strategy returns for the state it settles on: interpret_model of it, or nothing. */
  function Decoded(P: Problem, r: Option<seq<bool>>): Option<seq<Built>>
    requires r.Some? ==> |r.value| <= P.n
  {
    if r.None? then None else Some(SolutionOf(P, r.value))
  }

  /**
   * all(any(literal true) for each clause): the validity test of the
   * brute-force and A* searches on a total state.
   */
  method AllSatisfied(clauses: seq<Clause>, a: Assignment) returns (valid: bool)
    requires InRange(clauses, a)
    ensures valid == SatisfiesAll(clauses, a)
  {
    valid := true;
    var k := 0;
    while valid && k < |clauses|
      invariant 0 <= k <= |clauses|
      invariant valid ==> forall j :: 0 <= j < k ==> Satisfied(clauses[j], a)
      invariant !valid ==> 0 < k && !Satisfied(clauses[k - 1], a)
    {
      valid := ClauseHolds(clauses[k], a);
      k := k + 1;
    }
  }

  /** any(literal true for lit in clause) */
  method ClauseHolds(c: Clause, a: Assignment) returns (sat: bool)
    requires ClauseInRange(c, a)
    ensures sat == Satisfied(c, a)
  {
    sat := false;
    for m := 0 to |c|
      invariant sat == exists lit :: lit in c[..m] && LitTrue(a, lit)
    {
      assert c[..m + 1] == c[..m] + [c[m]];
      assert forall lit :: lit in c[..m + 1] <==> lit in c[..m] || lit == c[m];
      if !sat {
        var lit := c[m];
        sat := (lit > 0 && a[Abs(lit)] == Some(true)) || (lit < 0 && a[Abs(lit)] == Some(false));
        assert sat == LitTrue(a, lit);
      }
    }
    assert c[..|c|] == c;
  }

  /**
   * The per-clause loop of is_valid and of the A* heuristic: the clause is
   * still open when some literal is unassigned or true.
   */
  method ClauseOpen(c: Clause, a: Assignment) returns (open: bool)
    requires ClauseInRange(c, a)
    ensures open == !Falsified(c, a)
  {
    for m := 0 to |c|
      invariant forall lit :: lit in c[..m] ==> !Unassigned(a, lit) && !LitTrue(a, lit)
    {
      assert c[..m + 1] == c[..m] + [c[m]];
      var lit := c[m];
      var val := a[Abs(lit)];
      if val.None? {
        return true;
      } else if (lit > 0 && val == Some(true)) || (lit < 0 && val == Some(false)) {
        return true;
      }
    }
    assert c[..|c|] == c;
    return false;
  }
}
