/**
 * The A* strategy: a priority queue of partial states keyed by
 * (f, g, assgn) with g the number of assigned variables and f = g + the
 * number of falsified clauses, a closed set of expanded states, expansion
 * of the first unassigned variable with False then True, and an early
 * conflict check that drops a child before it is queued.
 */
module AStar {
  import opened Wrappers
  import opened Cnf
  import opened Interpret
  import opened Connect
  import opened Search
  import opened Grid
  import opened Pipeline

  /** A heap item (f, g, assgn). */
  datatype Entry = Entry(f: int, g: int, state: Assignment)

  /**
   * Python's order on two states of the same length: at the first position
   * where they differ, False before True. (The states compared here differ
   * only where both hold a bool, so None is never compared with a bool.)
   */
  predicate ListLess(a: Assignment, b: Assignment)
  {
    exists m :: 0 <= m < |a| && m < |b| && a[..m] == b[..m] && a[m] == Some(false) && b[m] == Some(true)
  }

  /** Tuple order on heap items: f, then g, then the state. */
  predicate KeyLess(x: Entry, y: Entry)
  {
    || x.f < y.f
    || (x.f == y.f && x.g < y.g)
    || (x.f == y.f && x.g == y.g && ListLess(x.state, y.state))
  }

  lemma ListLessTransitive(a: Assignment, b: Assignment, c: Assignment)
    ensures ListLess(a, b) && ListLess(b, c) ==> ListLess(a, c)
  {
    if ListLess(a, b) && ListLess(b, c) {
      var m1 :| 0 <= m1 < |a| && m1 < |b| && a[..m1] == b[..m1] && a[m1] == Some(false) && b[m1] == Some(true);
      var m2 :| 0 <= m2 < |b| && m2 < |c| && b[..m2] == c[..m2] && b[m2] == Some(false) && c[m2] == Some(true);
      if m1 < m2 {
        assert b[..m1] == c[..m1] by { assert b[..m1] == b[..m2][..m1]; assert c[..m1] == c[..m2][..m1]; }
        assert b[m1] == c[m1] by { assert b[m1] == b[..m2][m1]; assert c[m1] == c[..m2][m1]; }
      } else {
        assert m2 < m1;
        assert a[..m2] == b[..m2] by { assert a[..m2] == a[..m1][..m2]; assert b[..m2] == b[..m1][..m2]; }
        assert a[m2] == b[m2] by { assert a[m2] == a[..m1][m2]; assert b[m2] == b[..m1][m2]; }
      }
    }
  }

  lemma KeyLessTransitive(x: Entry, y: Entry, z: Entry)
    ensures KeyLess(x, y) && KeyLess(y, z) ==> KeyLess(x, z)
  {
    ListLessTransitive(x.state, y.state, z.state);
  }

  /** On states of prefixes of one length, Python's list order is the lexicographic order of the prefixes. */
  lemma LexLessState(p: seq<bool>, q: seq<bool>, n: nat)
    requires |p| <= n && |q| <= n
    ensures LexLess(p, q) ==> ListLess(StateOf(p, n), StateOf(q, n))
  {
    if LexLess(p, q) {
      var m :| 0 <= m < |p| && m < |q| && p[..m] == q[..m] && !p[m] && q[m];
      var a, b := StateOf(p, n), StateOf(q, n);
      forall v | 0 <= v < m + 1 ensures a[v] == b[v] {
        if v > 0 {
          assert p[v - 1] == p[..m][v - 1] && q[v - 1] == q[..m][v - 1];
        }
      }
      assert a[..m + 1] == b[..m + 1];
    }
  }

  /**
   * heapq.heappop: the position of an item no other item is below. The heap
   * is kept as a plain list and the minimum found by a scan.
   */
  method PopMin(heap: seq<Entry>) returns (m: nat)
    requires heap != []
    ensures m < |heap| && forall k :: 0 <= k < |heap| ==> !KeyLess(heap[k], heap[m])
  {
    m := 0;
    for k := 1 to |heap|
      invariant m < k && forall j :: 0 <= j < k ==> !KeyLess(heap[j], heap[m])
    {
      if KeyLess(heap[k], heap[m]) {
        forall j | 0 <= j < k ensures !KeyLess(heap[j], heap[k]) {
          KeyLessTransitive(heap[j], heap[k], heap[m]);
        }
        m := k;
      }
    }
  }

  /**
   * heuristic(assgn): the number of clauses with every literal assigned and
   * none true.
   */
  method Heuristic(clauses: seq<Clause>, assgn: Assignment) returns (h: nat)
    requires InRange(clauses, assgn)
    ensures h == CountFalsified(clauses, assgn)
  {
    h := 0;
    for k := 0 to |clauses|
      invariant InRange(clauses[..k], assgn) && h == CountFalsified(clauses[..k], assgn)
    {
      assert clauses[..k + 1][..k] == clauses[..k];
      var sat := ClauseOpen(clauses[k], assgn);
      if !sat {
        h := h + 1;
      }
    }
    assert clauses[..|clauses|] == clauses;
  }

  /**
   * The early conflict check: some clause has no true literal and no
   * unassigned one.
   */
  method HasConflict(clauses: seq<Clause>, assgn: Assignment) returns (conflict: bool)
    requires InRange(clauses, assgn)
    ensures conflict == Conflict(clauses, assgn)
  {
    for k := 0 to |clauses|
      invariant forall j :: 0 <= j < k ==> !Falsified(clauses[j], assgn)
    {
      var sat, unassigned := ScanClause(clauses[k], assgn);
      if !sat && !unassigned {
        return true;
      }
    }
    return false;
  }

  /**
   * The literal loop of the early conflict check: an unassigned literal is
   * noted and skipped, a true literal ends the scan. The clause is falsified
   * exactly when the scan finds neither.
   */
  method ScanClause(c: Clause, a: Assignment) returns (sat: bool, unassigned: bool)
    requires ClauseInRange(c, a)
    ensures sat == Satisfied(c, a)
    ensures (!sat && !unassigned) == Falsified(c, a)
  {
    sat, unassigned := false, false;
    for m := 0 to |c|
      invariant forall lit :: lit in c[..m] ==> !LitTrue(a, lit)
      invariant unassigned == exists lit :: lit in c[..m] && Unassigned(a, lit)
    {
      assert c[..m + 1] == c[..m] + [c[m]];
      assert forall lit :: lit in c[..m + 1] <==> lit in c[..m] || lit == c[m];
      var lit := c[m];
      var val := a[Abs(lit)];
      if val.None? {
        assert lit in c[..m + 1] && Unassigned(a, lit);
        unassigned := true;
      } else if (lit > 0 && val == Some(true)) || (lit < 0 && val == Some(false)) {
        assert lit in c && LitTrue(a, lit);
        sat := true;
        return;
      }
    }
    assert c[..|c|] == c;
  }

  /** assgn.index(None, start): the first unassigned position from start on, or None for the ValueError. */
  method IndexOfNone(assgn: Assignment, start: nat) returns (i: Option<nat>)
    ensures i.Some? ==> start <= i.value < |assgn| && assgn[i.value].None?
    ensures i.Some? ==> forall k :: start <= k < i.value ==> assgn[k].Some?
    ensures i.None? ==> forall k :: start <= k < |assgn| ==> assgn[k].Some?
  {
    var k := start;
    while k < |assgn|
      invariant start <= k
      invariant forall j :: start <= j < k && j < |assgn| ==> assgn[j].Some?
    {
      if assgn[k].None? {
        return Some(k);
      }
      k := k + 1;
    }
    return None;
  }

  /** The heuristic of the state of p: its number of falsified clauses. */
  function Cost(P: Problem, p: seq<bool>): nat
    requires WellFormed(P) && |p| <= P.n
  {
    WithinVarsInRange(P.clauses, P.n, StateOf(p, P.n));
    CountFalsified(P.clauses, StateOf(p, P.n))
  }

  /** The heap item for the state holding the values p: (g + h, g, state) with g = |p|. */
  function EntryOf(P: Problem, p: seq<bool>): Entry
    requires WellFormed(P) && |p| <= P.n
  {
    Entry(|p| + Cost(P, p), |p|, StateOf(p, P.n))
  }

  /** The k-th queued item is the item of the k-th of the (ghost) prefixes paths. */
  ghost predicate Tracks(P: Problem, heap: seq<Entry>, paths: seq<seq<bool>>)
    requires WellFormed(P)
  {
    |heap| == |paths| && forall k :: 0 <= k < |paths| ==> |paths[k]| <= P.n && heap[k] == EntryOf(P, paths[k])
  }

  /** The parent of every queued state has been expanded. */
  ghost predicate ParentsClosed(P: Problem, paths: seq<seq<bool>>, closed: set<Assignment>)
  {
    forall k :: 0 <= k < |paths| && 0 < |paths[k]| <= P.n ==> StateOf(paths[k][..|paths[k]| - 1], P.n) in closed
  }

  /** The parent of every expanded state has been expanded. */
  ghost predicate ClosedUpward(P: Problem, closed: set<Assignment>)
  {
    forall p, b :: |p| < P.n && StateOf(p + [b], P.n) in closed ==> StateOf(p, P.n) in closed
  }

  /** Some queued, not yet expanded state holds a prefix of t. */
  ghost predicate Covered(P: Problem, paths: seq<seq<bool>>, closed: set<Assignment>, t: seq<bool>)
  {
    exists k :: 0 <= k < |paths| && |paths[k]| <= P.n && IsPrefix(paths[k], t) && StateOf(paths[k], P.n) !in closed
  }

  function Pow3(k: int): (r: nat)
    ensures r >= 1
  {
    if k <= 0 then 1 else 3 * Pow3(k - 1)
  }

  /** A bound on the work left: a queued state with d unassigned variables weighs 3^d. */
  function Weight(n: nat, paths: seq<seq<bool>>): nat
  {
    if paths == [] then 0 else Weight(n, paths[..|paths| - 1]) + Pow3(n - |paths[|paths| - 1]|)
  }

  lemma {:induction false} WeightAppend(n: nat, x: seq<seq<bool>>, y: seq<seq<bool>>)
    ensures Weight(n, x + y) == Weight(n, x) + Weight(n, y)
    decreases |y|
  {
    if y != [] {
      assert (x + y)[..|x + y| - 1] == x + y[..|y| - 1];
      WeightAppend(n, x, y[..|y| - 1]);
    } else {
      assert x + y == x;
    }
  }

  /** The list after heappop removed position m. */
  function Remove<T>(xs: seq<T>, m: nat): (rest: seq<T>)
    requires m < |xs|
    ensures |rest| == |xs| - 1
    ensures forall k :: 0 <= k < |rest| ==> rest[k] == xs[if k < m then k else k + 1]
  {
    xs[..m] + xs[m + 1..]
  }

  lemma RemoveWeight(n: nat, paths: seq<seq<bool>>, m: nat)
    requires m < |paths|
    ensures Weight(n, paths) == Weight(n, Remove(paths, m)) + Pow3(n - |paths[m]|)
  {
    assert paths == paths[..m] + [paths[m]] + paths[m + 1..];
    WeightAppend(n, paths[..m] + [paths[m]], paths[m + 1..]);
    WeightAppend(n, paths[..m], [paths[m]]);
    WeightAppend(n, paths[..m], paths[m + 1..]);
    assert [paths[m]][..0] == [];
  }

  /** Popping position m keeps the items tracked. */
  lemma PopTracks(P: Problem, heap: seq<Entry>, paths: seq<seq<bool>>, m: nat)
    requires WellFormed(P) && Tracks(P, heap, paths) && m < |paths|
    ensures Tracks(P, Remove(heap, m), Remove(paths, m))
  {
  }

  /** Popping position m keeps the parents closed, and closing a state too. */
  lemma PopParents(P: Problem, paths: seq<seq<bool>>, m: nat, closed: set<Assignment>, s: Assignment)
    requires ParentsClosed(P, paths, closed) && m < |paths|
    ensures ParentsClosed(P, Remove(paths, m), closed + {s})
  {
  }

  /**
   * After popping position m, t is covered by the rest once the popped
   * state is closed, or else by the popped state itself.
   */
  lemma PopCovered(P: Problem, paths: seq<seq<bool>>, m: nat, closed: set<Assignment>, t: seq<bool>)
    requires m < |paths| && |paths[m]| <= P.n
    requires Covered(P, paths, closed, t)
    ensures || Covered(P, Remove(paths, m), closed + {StateOf(paths[m], P.n)}, t)
            || (IsPrefix(paths[m], t) && StateOf(paths[m], P.n) !in closed)
  {
    var k :| 0 <= k < |paths| && |paths[k]| <= P.n && IsPrefix(paths[k], t) && StateOf(paths[k], P.n) !in closed;
    if StateOf(paths[k], P.n) == StateOf(paths[m], P.n) {
      StateOfInjective(paths[k], paths[m], P.n);
    } else {
      var rest := Remove(paths, m);
      var k' := if k < m then k else k - 1;
      assert rest[k'] == paths[k];
    }
  }

  /** Closing a state whose parent is closed keeps the closed set upward closed. */
  lemma CloseKeeps(P: Problem, closed: set<Assignment>, p: seq<bool>)
    requires |p| <= P.n && ClosedUpward(P, closed)
    requires |p| > 0 ==> StateOf(p[..|p| - 1], P.n) in closed
    ensures ClosedUpward(P, closed + {StateOf(p, P.n)})
  {
    forall q, b | |q| < P.n && StateOf(q + [b], P.n) in closed + {StateOf(p, P.n)}
      ensures StateOf(q, P.n) in closed + {StateOf(p, P.n)}
    {
      if StateOf(q + [b], P.n) == StateOf(p, P.n) {
        StateOfInjective(q + [b], p, P.n);
        assert (q + [b])[..|q|] == q;
      }
    }
  }

  /** The prefixes of an accepted total state have no falsified clause. */
  lemma PathCostZero(P: Problem, q: seq<bool>, t: seq<bool>)
    requires WellFormed(P) && |t| == P.n && IsPrefix(q, t)
    requires Accepted(P, t, false)
    ensures !Conflict(P.clauses, StateOf(q, P.n)) && Cost(P, q) == 0
  {
    WithinVarsInRange(P.clauses, P.n, StateOf(t, P.n));
    WithinVarsInRange(P.clauses, P.n, StateOf(q, P.n));
    TotalNoConflictIsSatisfying(P.clauses, t);
    ConflictPersists(P.clauses, q, t, P.n);
  }

  /**
   * An accepted total state popped as a minimum of the heap while t is
   * covered is t itself, when t is the lexicographically least accepted
   * state: every prefix of t is queued with key (g, g, state), so a
   * different popped leaf would have to come after t in list order.
   */
  lemma LeafOptimal(P: Problem, heap: seq<Entry>, paths: seq<seq<bool>>, m: nat, closed: set<Assignment>, t: seq<bool>)
    requires WellFormed(P) && Tracks(P, heap, paths) && m < |paths|
    requires forall k :: 0 <= k < |heap| ==> !KeyLess(heap[k], heap[m])
    requires |t| == P.n && Accepted(P, t, false)
    requires forall s :: |s| == P.n && Accepted(P, s, false) ==> !LexLess(s, t)
    requires Covered(P, paths, closed, t)
    requires |paths[m]| == P.n && Accepted(P, paths[m], false)
    ensures paths[m] == t
  {
    var pe := paths[m];
    var k :| 0 <= k < |paths| && |paths[k]| <= P.n && IsPrefix(paths[k], t) && StateOf(paths[k], P.n) !in closed;
    var q := paths[k];
    PathCostZero(P, q, t);
    PathCostZero(P, pe, pe);
    assert !KeyLess(heap[k], heap[m]);
    assert |q| == P.n;
    assert q == t;
    LexLessState(t, pe, P.n);
    LexTrichotomy(t, pe);
  }

  /** The element pushed for val when setting the next variable of p to val causes no conflict. */
  function Pushed<T>(P: Problem, p: seq<bool>, val: bool, x: T): seq<T>
    requires WellFormed(P) && |p| < P.n
  {
    var c := p + [val];
    WithinVarsInRange(P.clauses, P.n, StateOf(c, P.n));
    if Conflict(P.clauses, StateOf(c, P.n)) then [] else [x]
  }

  /** The items queued when the state of p is expanded, for val in [False, True]. */
  function Children(P: Problem, p: seq<bool>): seq<Entry>
    requires WellFormed(P) && |p| < P.n
  {
    Pushed(P, p, false, EntryOf(P, p + [false])) + Pushed(P, p, true, EntryOf(P, p + [true]))
  }

  /**
   * Every queued child has no falsified clause, so its heuristic is 0 and
   * f = g = the number of assigned variables; its state is the parent's
   * with position |p| + 1, the first unassigned one, set.
   */
  lemma ChildrenSpec(P: Problem, p: seq<bool>)
    requires WellFormed(P) && |p| < P.n
    ensures forall c :: c in Children(P, p) ==>
      && c.f == c.g == |p| + 1
      && c.state[|p| + 1].Some?
      && c.state == StateOf(p, P.n)[|p| + 1 := c.state[|p| + 1]]
  {
    forall c | c in Children(P, p)
      ensures c.f == c.g == |p| + 1 && c.state[|p| + 1].Some? && c.state == StateOf(p, P.n)[|p| + 1 := c.state[|p| + 1]]
    {
      var val := if c in Pushed(P, p, false, EntryOf(P, p + [false])) then false else true;
      assert c == EntryOf(P, p + [val]);
      StateOfExtend(p, val, P.n);
    }
  }

  /** The prefixes of those items. */
  function ChildPaths(P: Problem, p: seq<bool>): seq<seq<bool>>
    requires WellFormed(P) && |p| < P.n
  {
    Pushed(P, p, false, p + [false]) + Pushed(P, p, true, p + [true])
  }

  /** The expansion loop `for val in [False, True]` on the popped item e with i = its first unassigned position. */
  method Expand(P: Problem, heap: seq<Entry>, e: Entry, i: nat, ghost p: seq<bool>) returns (heap': seq<Entry>)
    requires WellFormed(P) && |p| < P.n && i == |p| + 1
    requires e == EntryOf(P, p)
    ensures heap' == heap + Children(P, p)
  {
    heap' := heap;
    var vals := [false, true];
    for k := 0 to |vals|
      invariant heap' == heap + (if k > 0 then Pushed(P, p, false, EntryOf(P, p + [false])) else [])
                              + (if k > 1 then Pushed(P, p, true, EntryOf(P, p + [true])) else [])
    {
      var child := ChildEntry(P, e, i, p, vals[k]);
      heap' := heap' + child;
    }
  }

  /**
   * The body of the expansion loop for one value: set position i, drop the
   * child on a conflict, otherwise build its item with g + 1 and the
   * heuristic.
   */
  method ChildEntry(P: Problem, e: Entry, i: nat, ghost p: seq<bool>, val: bool) returns (child: seq<Entry>)
    requires WellFormed(P) && |p| < P.n && i == |p| + 1
    requires e == EntryOf(P, p)
    ensures child == Pushed(P, p, val, EntryOf(P, p + [val]))
  {
    var newAssgn := e.state[i := Some(val)];
    StateOfExtend(p, val, P.n);
    WithinVarsInRange(P.clauses, P.n, newAssgn);
    var conflict := HasConflict(P.clauses, newAssgn);
    if conflict {
      return [];
    }
    var newG := e.g + 1;
    var newH := Heuristic(P.clauses, newAssgn);
    child := [Entry(newG + newH, newG, newAssgn)];
  }

  /** Tracking is kept by appending tracked items. */
  lemma TracksAppend(P: Problem, h1: seq<Entry>, p1: seq<seq<bool>>, h2: seq<Entry>, p2: seq<seq<bool>>)
    requires WellFormed(P) && Tracks(P, h1, p1) && Tracks(P, h2, p2)
    ensures Tracks(P, h1 + h2, p1 + p2)
  {
    var h, q := h1 + h2, p1 + p2;
    forall k | 0 <= k < |q| ensures |q[k]| <= P.n && h[k] == EntryOf(P, q[k]) {
      if k < |p1| {
        assert h[k] == h1[k] && q[k] == p1[k];
      } else {
        assert h[k] == h2[k - |p1|] && q[k] == p2[k - |p1|];
      }
    }
  }

  /** Queuing the children of p keeps the items tracked. */
  lemma ExpandTracks(P: Problem, rest: seq<Entry>, paths: seq<seq<bool>>, p: seq<bool>)
    requires WellFormed(P) && |p| < P.n && Tracks(P, rest, paths)
    ensures Tracks(P, rest + Children(P, p), paths + ChildPaths(P, p))
  {
    var lo, hi := Pushed(P, p, false, EntryOf(P, p + [false])), Pushed(P, p, true, EntryOf(P, p + [true]));
    var plo, phi := Pushed(P, p, false, p + [false]), Pushed(P, p, true, p + [true]);
    assert Tracks(P, lo, plo) && Tracks(P, hi, phi);
    TracksAppend(P, lo, plo, hi, phi);
    TracksAppend(P, rest, paths, lo + hi, plo + phi);
  }

  /** Queuing the children of a closed state keeps the parents closed. */
  lemma ExpandParents(P: Problem, paths: seq<seq<bool>>, p: seq<bool>, closed: set<Assignment>)
    requires WellFormed(P) && |p| < P.n
    requires ParentsClosed(P, paths, closed) && StateOf(p, P.n) in closed
    ensures ParentsClosed(P, paths + ChildPaths(P, p), closed)
  {
    var kids, all := ChildPaths(P, p), paths + ChildPaths(P, p);
    assert (p + [false])[..|p|] == p && (p + [true])[..|p|] == p;
    forall k | 0 <= k < |all| && 0 < |all[k]| <= P.n ensures StateOf(all[k][..|all[k]| - 1], P.n) in closed {
      if k < |paths| {
        assert all[k] == paths[k];
      } else {
        assert all[k] == kids[k - |paths|];
      }
    }
  }

  /** Expanding a state of weight 3^d queues at most two of weight 3^(d-1). */
  lemma ExpandWeight(P: Problem, paths: seq<seq<bool>>, p: seq<bool>)
    requires WellFormed(P) && |p| < P.n
    ensures Weight(P.n, paths + ChildPaths(P, p)) < Weight(P.n, paths) + Pow3(P.n - |p|)
  {
    WeightAppend(P.n, paths, ChildPaths(P, p));
    WeightAppend(P.n, Pushed(P, p, false, p + [false]), Pushed(P, p, true, p + [true]));
    PushedWeight(P, p, false);
    PushedWeight(P, p, true);
  }

  lemma PushedWeight(P: Problem, p: seq<bool>, val: bool)
    requires WellFormed(P) && |p| < P.n
    ensures 3 * Weight(P.n, Pushed(P, p, val, p + [val])) <= Pow3(P.n - |p|)
  {
    var kid := Pushed(P, p, val, p + [val]);
    if kid != [] {
      assert kid == [p + [val]] && kid[..0] == [];
    }
  }

  /**
   * Queuing the children of p keeps an accepted total state t covered:
   * either it was covered by the other queued states, or p is a prefix of t
   * and the child on the way to t has no conflict and was never expanded.
   */
  lemma ExpandCovered(P: Problem, paths: seq<seq<bool>>, p: seq<bool>, closed: set<Assignment>, t: seq<bool>)
    requires WellFormed(P) && |p| < P.n && ClosedUpward(P, closed)
    requires |t| == P.n && Accepted(P, t, false)
    requires Covered(P, paths, closed + {StateOf(p, P.n)}, t) || (IsPrefix(p, t) && StateOf(p, P.n) !in closed)
    ensures Covered(P, paths + ChildPaths(P, p), closed + {StateOf(p, P.n)}, t)
  {
    var closed', all := closed + {StateOf(p, P.n)}, paths + ChildPaths(P, p);
    if Covered(P, paths, closed', t) {
      var k :| 0 <= k < |paths| && |paths[k]| <= P.n && IsPrefix(paths[k], t) && StateOf(paths[k], P.n) !in closed';
      assert all[k] == paths[k];
    } else {
      var c := p + [t[|p|]];
      PrefixOf(p, t);
      PathCostZero(P, c, t);
      assert c[..|c| - 1] == p;
      assert StateOf(c, P.n)[|c|] != StateOf(p, P.n)[|c|];
      var j := |paths| + (if t[|p|] then |Pushed(P, p, false, p + [false])| else 0);
      assert all[j] == c;
    }
  }

  /** Extending p by the next value of t gives a prefix of t. */
  lemma PrefixOf(p: seq<bool>, t: seq<bool>)
    requires IsPrefix(p, t) && |p| < |t|
    ensures IsPrefix(p + [t[|p|]], t)
  {
    assert t[..|p| + 1] == t[..|p|] + [t[|p|]];
  }

  /** `None not in assgn[1:]` holds exactly for the total states. */
  lemma LeafTest(p: seq<bool>, n: nat)
    requires |p| <= n
    ensures (None !in StateOf(p, n)[1..]) <==> |p| == n
  {
    var a := StateOf(p, n);
    if |p| < n {
      assert a[1..][|p|] == None;
    } else {
      assert forall v :: 0 <= v < n ==> a[1..][v] == Some(p[v]);
    }
  }

  /** The state brute force settles on: the first accepted total state in itertools.product order. */
  ghost function Best(P: Problem): (r: Option<seq<bool>>)
    requires WellFormed(P)
    ensures r.Some? ==> |r.value| == P.n
  {
    CompletionsMembers([], P.n);
    FirstAccepted(P, Product(P.n), false)
  }

  /**
   * The loop invariant of the search: every queued item is the item of its
   * prefix, the parents of queued and of expanded states are expanded, and
   * Best, when there is one, has a prefix that is queued and not expanded.
   */
  ghost predicate Inv(P: Problem, heap: seq<Entry>, paths: seq<seq<bool>>, closed: set<Assignment>)
    requires WellFormed(P)
  {
    && Tracks(P, heap, paths) && ParentsClosed(P, paths, closed) && ClosedUpward(P, closed)
    && (Best(P).Some? ==> Covered(P, paths, closed, Best(P).value))
  }

  /** What holds once the item of p has been popped, before its state is closed. */
  ghost predicate Popped(P: Problem, rest: seq<Entry>, paths: seq<seq<bool>>, p: seq<bool>, closed: set<Assignment>)
    requires WellFormed(P)
  {
    && |p| <= P.n && Tracks(P, rest, paths)
    && ParentsClosed(P, paths, closed + {StateOf(p, P.n)}) && ClosedUpward(P, closed)
    && (|p| > 0 ==> StateOf(p[..|p| - 1], P.n) in closed)
    && (Best(P).Some? ==>
          || Covered(P, paths, closed + {StateOf(p, P.n)}, Best(P).value)
          || (IsPrefix(p, Best(P).value) && StateOf(p, P.n) !in closed))
  }

  /** heappop of position m: the popped item is that of paths[m], and the weight drops by its part. */
  lemma PopStep(P: Problem, heap: seq<Entry>, paths: seq<seq<bool>>, m: nat, closed: set<Assignment>)
    requires WellFormed(P) && Inv(P, heap, paths, closed) && m < |heap|
    ensures |paths[m]| <= P.n && heap[m] == EntryOf(P, paths[m])
    ensures Popped(P, Remove(heap, m), Remove(paths, m), paths[m], closed)
    ensures Weight(P.n, paths) == Weight(P.n, Remove(paths, m)) + Pow3(P.n - |paths[m]|)
  {
    RemoveWeight(P.n, paths, m);
    PopTracks(P, heap, paths, m);
    PopParents(P, paths, m, closed, StateOf(paths[m], P.n));
    if Best(P).Some? {
      PopCovered(P, paths, m, closed, Best(P).value);
    }
  }

  /** `if state_key in closed: continue` keeps the invariant. */
  lemma SkipClosed(P: Problem, rest: seq<Entry>, paths: seq<seq<bool>>, p: seq<bool>, closed: set<Assignment>)
    requires WellFormed(P) && Popped(P, rest, paths, p, closed) && StateOf(p, P.n) in closed
    ensures Inv(P, rest, paths, closed)
  {
    assert closed + {StateOf(p, P.n)} == closed;
  }

  /** Closing a total state that is not accepted keeps the invariant. */
  lemma SkipLeaf(P: Problem, rest: seq<Entry>, paths: seq<seq<bool>>, p: seq<bool>, closed: set<Assignment>)
    requires WellFormed(P) && Popped(P, rest, paths, p, closed) && |p| == P.n && !Accepted(P, p, false)
    ensures Inv(P, rest, paths, closed + {StateOf(p, P.n)})
  {
    FirstIsLeast(P, false);
    CloseKeeps(P, closed, p);
    if Best(P).Some? {
      assert Best(P).value[..|p|] == Best(P).value;
    }
  }

  /** Closing a partial state and queuing its children keeps the invariant and lowers the weight. */
  lemma ExpandStep(P: Problem, rest: seq<Entry>, paths: seq<seq<bool>>, p: seq<bool>, closed: set<Assignment>)
    requires WellFormed(P) && Popped(P, rest, paths, p, closed) && |p| < P.n
    ensures Inv(P, rest + Children(P, p), paths + ChildPaths(P, p), closed + {StateOf(p, P.n)})
    ensures Weight(P.n, paths + ChildPaths(P, p)) < Weight(P.n, paths) + Pow3(P.n - |p|)
  {
    CloseKeeps(P, closed, p);
    ExpandTracks(P, rest, paths, p);
    ExpandParents(P, paths, p, closed + {StateOf(p, P.n)});
    ExpandWeight(P, paths, p);
    FirstIsLeast(P, false);
    if Best(P).Some? {
      ExpandCovered(P, paths, p, closed, Best(P).value);
    }
  }

  /** An accepted total state popped as a minimum of the heap is Best. */
  lemma LeafIsBest(P: Problem, heap: seq<Entry>, paths: seq<seq<bool>>, m: nat, closed: set<Assignment>)
    requires WellFormed(P) && Inv(P, heap, paths, closed) && m < |paths|
    requires forall k :: 0 <= k < |heap| ==> !KeyLess(heap[k], heap[m])
    ensures |paths[m]| == P.n && Accepted(P, paths[m], false) ==> Best(P) == Some(paths[m])
  {
    FirstIsLeast(P, false);
    if |paths[m]| == P.n && Accepted(P, paths[m], false) {
      LeafOptimal(P, heap, paths, m, closed, Best(P).value);
    }
  }

  /** Before the loop: the item of the empty prefix is the only one queued, and nothing is closed. */
  lemma InitInv(P: Problem, init: Entry)
    requires WellFormed(P) && init == EntryOf(P, [])
    ensures Inv(P, [init], [[]], {})
  {
    var paths: seq<seq<bool>> := [[]];
    if Best(P).Some? {
      var t := Best(P).value;
      assert t[..0] == [] && paths[0] == [];
      assert IsPrefix(paths[0], t) && StateOf(paths[0], P.n) !in {};
    }
  }

  /** The goal test on a popped total state: all clauses satisfied, then check_connect. */
  method Goal(P: Problem, assgn: Assignment, ghost p: seq<bool>) returns (found: bool, solution: seq<Built>)
    requires WellFormed(P) && |p| == P.n && assgn == StateOf(p, P.n)
    ensures found == Accepted(P, p, false)
    ensures found ==> solution == SolutionOf(P, p)
  {
    WithinVarsInRange(P.clauses, P.n, assgn);
    var valid := AllSatisfied(P.clauses, assgn);
    if !valid {
      return false, [];
    }
    solution := InterpretModel(assgn, P.vars);
    SolutionEnds(P, p);
    found := CheckConnect(solution, |P.islands|);
  }

  /**
   * The search loop: A* returns the solution of the lexicographically least
   * accepted total state, the same state brute force finds first, because
   * every prefix of an accepted state has no falsified clause, so its key is
   * (g, g, state), and no prefix of an accepted state is ever pruned.
   */
  method BestFirst(P: Problem) returns (result: Option<seq<Built>>)
    requires WellFormed(P)
    ensures result == Decoded(P, Best(P))
  {
    var openHeap, paths := Start(P);
    var closed: set<Assignment> := {};
    while openHeap != []
      invariant Inv(P, openHeap, paths, closed)
      decreases Weight(P.n, paths)
    {
      var m, e, rest, p, restPaths := Pop(P, openHeap, paths, closed);
      var found, solution;
      openHeap, paths, closed, found, solution := Visit(P, rest, restPaths, e, p, closed);
      if found {
        return Some(solution);
      }
    }
    return None;
  }

  /** init = [None] * (n + 1) and the push of (g0 + h0, g0, init). */
  method Start(P: Problem) returns (heap: seq<Entry>, ghost paths: seq<seq<bool>>)
    requires WellFormed(P)
    ensures heap == [EntryOf(P, [])] && Inv(P, heap, paths, {})
  {
    var init := seq(P.n + 1, _ => None);
    assert init == StateOf([], P.n);
    WithinVarsInRange(P.clauses, P.n, init);
    var g0 := 0;
    var h0 := Heuristic(P.clauses, init);
    heap := [Entry(g0 + h0, g0, init)];
    paths := [[]];
    InitInv(P, heap[0]);
  }

  /**
   * heapq.heappop: remove an item no other item is below. The popped item
   * is that of the prefix p, the rest is tracked by restPaths, and the
   * popped state is Best when it is accepted.
   */
  method Pop(P: Problem, heap: seq<Entry>, ghost paths: seq<seq<bool>>, closed: set<Assignment>)
    returns (m: nat, e: Entry, rest: seq<Entry>, ghost p: seq<bool>, ghost restPaths: seq<seq<bool>>)
    requires WellFormed(P) && Inv(P, heap, paths, closed) && heap != []
    ensures m < |heap| && e == heap[m] && rest == Remove(heap, m)
    ensures forall k :: 0 <= k < |heap| ==> !KeyLess(heap[k], e)
    ensures |p| <= P.n && e == EntryOf(P, p) && Popped(P, rest, restPaths, p, closed)
    ensures |p| == P.n && Accepted(P, p, false) ==> Best(P) == Some(p)
    ensures Weight(P.n, paths) == Weight(P.n, restPaths) + Pow3(P.n - |p|)
  {
    m := PopMin(heap);
    e := heap[m];
    p := paths[m];
    rest, restPaths := Remove(heap, m), Remove(paths, m);
    LeafIsBest(P, heap, paths, m, closed);
    PopStep(P, heap, paths, m, closed);
  }

  /**
   * The rest of one iteration on the popped item e, the item of p: skip it
   * when its state is closed; else close it; a total state is the answer
   * when it passes the goal test and is dropped otherwise; a partial state
   * is expanded at its first unassigned variable.
   */
  method Visit(P: Problem, rest: seq<Entry>, ghost paths: seq<seq<bool>>, e: Entry, ghost p: seq<bool>, closed: set<Assignment>)
    returns (heap: seq<Entry>, ghost paths': seq<seq<bool>>, closed': set<Assignment>, found: bool, solution: seq<Built>)
    requires WellFormed(P) && Popped(P, rest, paths, p, closed) && e == EntryOf(P, p)
    requires |p| == P.n && Accepted(P, p, false) ==> Best(P) == Some(p)
    ensures found ==> Best(P) == Some(p) && solution == SolutionOf(P, p)
    ensures !found ==> Inv(P, heap, paths', closed') && Weight(P.n, paths') < Weight(P.n, paths) + Pow3(P.n - |p|)
    ensures closed' == closed + {e.state}
    ensures e.state in closed ==> !found && heap == rest
    ensures e.state !in closed && |p| < P.n ==> heap == rest + Children(P, p)
    ensures |p| == P.n ==> heap == rest
  {
    heap, paths', closed', found, solution := rest, paths, closed, false, [];
    if e.state in closed {
      SkipClosed(P, rest, paths, p, closed);
      return;
    }
    closed' := closed + {e.state};
    LeafTest(p, P.n);
    if None !in e.state[1..] {
      found, solution := Goal(P, e.state, p);
      if !found {
        SkipLeaf(P, rest, paths, p, closed);
      }
      return;
    }
    var i := IndexOfNone(e.state, 1);
    assert e.state[|p| + 1] == None;
    if i.None? {
      assert false;
      return;
    }
    heap := Expand(P, rest, e, i.value, p);
    ExpandStep(P, rest, paths, p, closed);
    paths' := paths + ChildPaths(P, p);
  }

  /** solve_with_a_star: compile the grid, then run the A* loop. */
  method SolveWithAStar(matrix: Matrix) returns (solution: Option<seq<Built>>)
    requires Rectangular(matrix) && IslandsOf(matrix) != []
    ensures solution == Answer(matrix)
  {
    var P := Prepare(matrix);
    ProblemWellFormed(matrix);
    solution := BestFirst(P);
  }
}
