/**
 * The constraint compiler: two boolean variables per candidate bridge
 * (add_main_contraints), the exact-count clauses per island
 * (add_island_contraints) and the no-crossing clauses
 * (add_non_crossing_constraints), written into a growing CNF with the
 * variable numbers handed out by an id pool.
 */
module Encoding {
  import opened Wrappers
  import opened Cnf
  import opened CardEnc
  import opened Grid
  import opened Bridges

  /** The pool key ('x', i, j, copy): copy 1 is "at least one bridge", copy 2 "a second, parallel one". */
  datatype VarKey = X(i: int, j: int, copy: int)

  /**
   * pysat's IDPool: hands out 1, 2, 3, ... to new keys and the same id again
   * for a key it has seen.
   */
  class IdPool {
    var top: nat
    var ids: map<VarKey, int>

    /** Every id is in 1..top and no two keys share one. */
    ghost predicate Valid()
      reads this
    {
      && (forall key :: key in ids ==> 1 <= ids[key] <= top)
      && (forall k1, k2 :: k1 in ids && k2 in ids && k1 != k2 ==> ids[k1] != ids[k2])
    }

    constructor ()
      ensures Valid() && top == 0 && ids == map[]
    {
      top := 0;
      ids := map[];
    }

    /** vpool.id(key) */
    method Id(key: VarKey) returns (v: int)
      requires Valid()
      modifies this
      ensures Valid()
      ensures key in old(ids) ==> v == old(ids)[key] && ids == old(ids) && top == old(top)
      ensures key !in old(ids) ==> v == old(top) + 1 && top == v && ids == old(ids)[key := v]
    {
      if key in ids {
        v := ids[key];
      } else {
        top := top + 1;
        v := top;
        ids := ids[key := v];
      }
    }
  }

  /** pysat's CNF object: the clause list that the compiler appends to. */
  class Formula {
    var clauses: seq<Clause>

    constructor ()
      ensures clauses == []
    {
      clauses := [];
    }

    /** cnf.append(clause) */
    method Append(c: Clause)
      modifies this
      ensures clauses == old(clauses) + [c]
    {
      clauses := clauses + [c];
    }

    /** cnf.extend(clauses) */
    method Extend(cs: seq<Clause>)
      modifies this
      ensures clauses == old(clauses) + cs
    {
      clauses := clauses + cs;
    }
  }

  // ---------------------------------------------------------------------
  // add_main_contraints

  /** An entry (i, j) -> (x1, x2) of bridge_vars. */
  datatype BridgeVar = BridgeVar(i: int, j: int, x1: int, x2: int)

  predicate HasKey(vars: seq<BridgeVar>, i: int, j: int)
  {
    exists t :: 0 <= t < |vars| && vars[t].i == i && vars[t].j == j
  }

  /** bridge_vars[(i, j)] = (x1, x2): an existing key keeps its place and takes the new value, a new key goes last. */
  function Put(vars: seq<BridgeVar>, v: BridgeVar): (r: seq<BridgeVar>)
    ensures !HasKey(vars, v.i, v.j) ==> r == vars + [v]
    ensures HasKey(vars, v.i, v.j) ==> |r| == |vars|
    ensures HasKey(vars, v.i, v.j) ==>
      exists t :: 0 <= t < |vars| && vars[t].i == v.i && vars[t].j == v.j
        && (forall u :: 0 <= u < t ==> !(vars[u].i == v.i && vars[u].j == v.j))
        && r == vars[t := v]
  {
    if vars == [] then [v]
    else if vars[0].i == v.i && vars[0].j == v.j then
      assert [v] + vars[1..] == vars[0 := v];
      [v] + vars[1..]
    else
      assert HasKey(vars, v.i, v.j) <==> HasKey(vars[1..], v.i, v.j) by {
        if HasKey(vars[1..], v.i, v.j) {
          var t :| 0 <= t < |vars[1..]| && vars[1..][t].i == v.i && vars[1..][t].j == v.j;
          assert vars[t + 1] == vars[1..][t];
        }
        if HasKey(vars, v.i, v.j) {
          var t :| 0 <= t < |vars| && vars[t].i == v.i && vars[t].j == v.j;
          assert vars[1..][t - 1] == vars[t];
        }
      }
      var r' := Put(vars[1..], v);
      assert HasKey(vars, v.i, v.j) ==>
        exists t :: 0 <= t < |vars| && vars[t].i == v.i && vars[t].j == v.j
          && (forall u :: 0 <= u < t ==> !(vars[u].i == v.i && vars[u].j == v.j))
          && [vars[0]] + r' == vars[t := v]
      by {
        if HasKey(vars, v.i, v.j) {
          var t' :| 0 <= t' < |vars[1..]| && vars[1..][t'].i == v.i && vars[1..][t'].j == v.j
            && (forall u :: 0 <= u < t' ==> !(vars[1..][u].i == v.i && vars[1..][u].j == v.j))
            && r' == vars[1..][t' := v];
          assert [vars[0]] + r' == vars[t' + 1 := v];
          forall u | 0 <= u < t' + 1
            ensures !(vars[u].i == v.i && vars[u].j == v.j)
          {
            if u > 0 { assert vars[u] == vars[1..][u - 1]; }
          }
          assert vars[t' + 1] == vars[1..][t'];
        }
      }
      [vars[0]] + r'
  }

  /** The first n entries of the bridge_vars add_main_contraints builds from a pool whose top is `base`. */
  function MainVars(bridges: seq<Bridge>, n: nat, base: int): (vars: seq<BridgeVar>)
    requires n <= |bridges|
    ensures |vars| == n
  {
    if n == 0 then []
    else MainVars(bridges, n - 1, base) + [BridgeVar(bridges[n - 1].i, bridges[n - 1].j, base + 2 * n - 1, base + 2 * n)]
  }

  /** Entry t of bridge_vars holds bridge t's pair and the ids base + 2t + 1, base + 2t + 2. */
  lemma {:induction false} MainVarsAt(bridges: seq<Bridge>, n: nat, base: int)
    requires n <= |bridges|
    ensures forall t :: 0 <= t < n ==>
      MainVars(bridges, n, base)[t] == BridgeVar(bridges[t].i, bridges[t].j, base + 2 * t + 1, base + 2 * t + 2)
  {
    if n > 0 {
      MainVarsAt(bridges, n - 1, base);
    }
  }

  /** The clause [-x2, x1] of every bridge, in order. */
  function MainClauses(vars: seq<BridgeVar>): (cs: seq<Clause>)
    ensures |cs| == |vars|
  {
    if vars == [] then []
    else
      var v := vars[|vars| - 1];
      MainClauses(vars[..|vars| - 1]) + [[-v.x2, v.x1]]
  }

  lemma MainClausesLast(vars: seq<BridgeVar>)
    requires vars != []
    ensures MainClauses(vars)[|vars| - 1] == [-vars[|vars| - 1].x2, vars[|vars| - 1].x1]
  {
    var init := vars[..|vars| - 1];
    assert |MainClauses(init)| == |vars| - 1;
  }

  /** Both variables of v are registered in the pool under v's pair. */
  predicate Pooled(ids: map<VarKey, int>, v: BridgeVar)
  {
    && X(v.i, v.j, 1) in ids && ids[X(v.i, v.j, 1)] == v.x1
    && X(v.i, v.j, 2) in ids && ids[X(v.i, v.j, 2)] == v.x2
  }

  /** No variable of bridges t.. has been handed out yet. */
  predicate Unpooled(ids: map<VarKey, int>, bridges: seq<Bridge>, t: nat)
  {
    forall t' :: t <= t' < |bridges| ==> X(bridges[t'].i, bridges[t'].j, 1) !in ids && X(bridges[t'].i, bridges[t'].j, 2) !in ids
  }

  /**
   * add_main_contraints on the deduplicated bridges and a pool that has not
   * seen them: bridge t gets the fresh ids top + 2t + 1 (single) and
   * top + 2t + 2 (double), its clause [-x2, x1] is appended, and bridge_vars
   * lists (i, j) -> (x1, x2) in the order of the bridges.
   */
  method AddMainConstraints(cnf: Formula, vpool: IdPool, bridges: seq<Bridge>) returns (bridgeVars: seq<BridgeVar>)
    requires vpool.Valid() && DistinctPairs(bridges) && Unpooled(vpool.ids, bridges, 0)
    modifies cnf, vpool
    ensures vpool.Valid()
    ensures bridgeVars == MainVars(bridges, |bridges|, old(vpool.top))
    ensures cnf.clauses == old(cnf.clauses) + MainClauses(bridgeVars)
    ensures vpool.top == old(vpool.top) + 2 * |bridges|
    ensures forall t :: 0 <= t < |bridgeVars| ==> Pooled(vpool.ids, bridgeVars[t])
  {
    ghost var base, clauses0 := vpool.top, cnf.clauses;
    bridgeVars := [];
    for t := 0 to |bridges|
      invariant vpool.Valid()
      invariant bridgeVars == MainVars(bridges, t, base)
      invariant cnf.clauses == clauses0 + MainClauses(bridgeVars)
      invariant vpool.top == base + 2 * t
      invariant Unpooled(vpool.ids, bridges, t)
      invariant forall t' :: 0 <= t' < t ==> Pooled(vpool.ids, bridgeVars[t'])
    {
      bridgeVars := AddBridge(cnf, vpool, bridges, t, base, clauses0, bridgeVars);
    }
  }

  /** One round of the loop of add_main_contraints: bridge t gets the next two ids, its clause and its bridge_vars entry. */
  method AddBridge(cnf: Formula, vpool: IdPool, bridges: seq<Bridge>, t: nat, ghost base: int, ghost clauses0: seq<Clause>, vars: seq<BridgeVar>)
    returns (vars': seq<BridgeVar>)
    requires t < |bridges| && DistinctPairs(bridges)
    requires vpool.Valid() && vars == MainVars(bridges, t, base)
    requires cnf.clauses == clauses0 + MainClauses(vars)
    requires vpool.top == base + 2 * t
    requires Unpooled(vpool.ids, bridges, t)
    requires forall t' :: 0 <= t' < t ==> Pooled(vpool.ids, vars[t'])
    modifies cnf, vpool
    ensures vpool.Valid() && vars' == MainVars(bridges, t + 1, base)
    ensures cnf.clauses == clauses0 + MainClauses(vars')
    ensures vpool.top == base + 2 * (t + 1)
    ensures Unpooled(vpool.ids, bridges, t + 1)
    ensures forall t' :: 0 <= t' < t + 1 ==> Pooled(vpool.ids, vars'[t'])
  {
    var b := bridges[t];
    ghost var ids, before := vpool.ids, cnf.clauses;
    var x1, x2 := NewBridgeVars(vpool, b);
    cnf.Append([-x2, x1]);
    vars' := Put(vars, BridgeVar(b.i, b.j, x1, x2));
    MainVarsStep(bridges, t, base, vars, vars');
    MainClausesStep(clauses0, vars, BridgeVar(b.i, b.j, x1, x2), before, cnf.clauses);
    PooledStep(bridges, t, base, ids, vars, BridgeVar(b.i, b.j, x1, x2));
    StillUnpooled(ids, bridges, t, x1, x2);
  }

  /** One round of the loop of add_main_contraints, for bridge_vars: the pair of bridge t is new, so it is appended. */
  lemma MainVarsStep(bridges: seq<Bridge>, t: nat, base: int, vars: seq<BridgeVar>, vars': seq<BridgeVar>)
    requires t < |bridges| && DistinctPairs(bridges) && vars == MainVars(bridges, t, base)
    requires vars' == Put(vars, BridgeVar(bridges[t].i, bridges[t].j, base + 2 * t + 1, base + 2 * t + 2))
    ensures vars' == MainVars(bridges, t + 1, base)
  {
    NewKeyAppends(bridges, t, base, vars);
  }

  /** One round of the loop of add_main_contraints, for the clauses: the new bridge's clause is appended. */
  lemma MainClausesStep(clauses0: seq<Clause>, vars: seq<BridgeVar>, v: BridgeVar, before: seq<Clause>, after: seq<Clause>)
    requires before == clauses0 + MainClauses(vars) && after == before + [[-v.x2, v.x1]]
    ensures after == clauses0 + MainClauses(vars + [v])
  {
    assert (vars + [v])[..|vars|] == vars;
  }

  /** One round of the loop of add_main_contraints, for the pool: earlier bridges stay pooled and the new one is pooled. */
  lemma PooledStep(bridges: seq<Bridge>, t: nat, base: int, ids: map<VarKey, int>, vars: seq<BridgeVar>, v: BridgeVar)
    requires t < |bridges| && DistinctPairs(bridges) && vars == MainVars(bridges, t, base)
    requires forall t' :: 0 <= t' < t ==> Pooled(ids, vars[t'])
    requires v.i == bridges[t].i && v.j == bridges[t].j
    ensures forall t' :: 0 <= t' < t + 1 ==> Pooled(ids[X(v.i, v.j, 1) := v.x1][X(v.i, v.j, 2) := v.x2], (vars + [v])[t'])
  {
    var b := bridges[t];
    MainVarsAt(bridges, t, base);
    forall t' | 0 <= t' < t + 1 ensures Pooled(ids[X(v.i, v.j, 1) := v.x1][X(v.i, v.j, 2) := v.x2], (vars + [v])[t']) {
      if t' < t {
        assert (vars + [v])[t'] == vars[t'];
        assert PairOf(bridges[t']) != PairOf(bridges[t]);
        PooledKept(ids, vars[t'], b, v.x1, v.x2);
      }
    }
  }

  /** Registering the keys of another pair keeps v pooled. */
  lemma PooledKept(ids: map<VarKey, int>, v: BridgeVar, b: Bridge, x1: int, x2: int)
    requires Pooled(ids, v) && (v.i != b.i || v.j != b.j)
    ensures Pooled(ids[X(b.i, b.j, 1) := x1][X(b.i, b.j, 2) := x2], v)
  {
  }

  /** The two vpool.id calls for a bridge whose keys are new: the next two ids. */
  method NewBridgeVars(vpool: IdPool, b: Bridge) returns (x1: int, x2: int)
    requires vpool.Valid() && X(b.i, b.j, 1) !in vpool.ids && X(b.i, b.j, 2) !in vpool.ids
    modifies vpool
    ensures vpool.Valid()
    ensures x1 == old(vpool.top) + 1 && x2 == old(vpool.top) + 2 && vpool.top == x2
    ensures vpool.ids == old(vpool.ids)[X(b.i, b.j, 1) := x1][X(b.i, b.j, 2) := x2]
  {
    x1 := vpool.Id(X(b.i, b.j, 1));
    x2 := vpool.Id(X(b.i, b.j, 2));
  }

  /** Registering bridge t's two keys leaves the keys of the later bridges unpooled. */
  lemma StillUnpooled(ids: map<VarKey, int>, bridges: seq<Bridge>, t: nat, v1: int, v2: int)
    requires t < |bridges| && DistinctPairs(bridges) && Unpooled(ids, bridges, t)
    ensures Unpooled(ids[X(bridges[t].i, bridges[t].j, 1) := v1][X(bridges[t].i, bridges[t].j, 2) := v2], bridges, t + 1)
  {
    forall t' | t + 1 <= t' < |bridges| ensures PairOf(bridges[t']) != PairOf(bridges[t]) {
    }
  }

  /** The pair of bridge t is not yet a key of bridge_vars, so Put appends it. */
  lemma NewKeyAppends(bridges: seq<Bridge>, t: nat, base: int, vars: seq<BridgeVar>)
    requires t < |bridges| && DistinctPairs(bridges) && vars == MainVars(bridges, t, base)
    ensures !HasKey(vars, bridges[t].i, bridges[t].j)
  {
    MainVarsAt(bridges, t, base);
    forall t' | 0 <= t' < |vars| ensures vars[t'].i != bridges[t].i || vars[t'].j != bridges[t].j {
      assert PairOf(bridges[t']) != PairOf(bridges[t]);
    }
  }

  /** The variables of MainVars are all different, the single one of each bridge odd-numbered after base. */
  lemma MainVarsFresh(bridges: seq<Bridge>, base: int)
    ensures var vars := MainVars(bridges, |bridges|, base);
      && (forall t :: 0 <= t < |vars| ==> base < vars[t].x1 < vars[t].x2 <= base + 2 * |bridges|)
      && (forall t1, t2 :: 0 <= t1 < t2 < |vars| ==> vars[t1].x2 < vars[t2].x1)
  {
    MainVarsAt(bridges, |bridges|, base);
  }

  // ---------------------------------------------------------------------
  // add_island_contraints

  /**
   * required_bridge[id] after the first n entries of bridge_vars: x1, x2 of
   * each entry whose first end is id, and again for each whose second end is.
   */
  function IncidentLits(vars: seq<BridgeVar>, n: nat, id: int): seq<int>
    requires n <= |vars|
  {
    if n == 0 then []
    else
      var v := vars[n - 1];
      IncidentLits(vars, n - 1, id) + (if v.i == id then [v.x1, v.x2] else []) + (if v.j == id then [v.x1, v.x2] else [])
  }

  /** One unit clause [-lit] per literal, in order. */
  function Negations(lits: seq<int>): (cs: seq<Clause>)
    ensures |cs| == |lits|
  {
    if lits == [] then [] else Negations(lits[..|lits| - 1]) + [[-lits[|lits| - 1]]]
  }

  /**
   * The clauses one island contributes: exactly `require` of its literals
   * when that many exist and require > 0, none of them when require == 0,
   * and the empty (unsatisfiable) clause otherwise.
   */
  function IslandClauses(lits: seq<int>, require: int): seq<Clause>
  {
    if |lits| >= require && require > 0 then Equals(lits, require)
    else if require == 0 then Negations(lits)
    else [[]]
  }

  /** The clauses of islands 1..n, one list per island in id order. */
  function IslandParts(islands: seq<Island>, vars: seq<BridgeVar>, n: nat): (parts: seq<seq<Clause>>)
    requires n <= |islands|
    ensures |parts| == n
  {
    if n == 0 then []
    else IslandParts(islands, vars, n - 1) + [IslandClauses(IncidentLits(vars, |vars|, n), islands[n - 1].value)]
  }

  lemma {:induction false} IslandPartsAt(islands: seq<Island>, vars: seq<BridgeVar>, n: nat)
    requires n <= |islands|
    ensures forall k :: 0 <= k < n ==>
      IslandParts(islands, vars, n)[k] == IslandClauses(IncidentLits(vars, |vars|, k + 1), islands[k].value)
  {
    if n > 0 {
      IslandPartsAt(islands, vars, n - 1);
    }
  }

  /** All clauses add_island_contraints adds. */
  function IslandsClauses(islands: seq<Island>, vars: seq<BridgeVar>): seq<Clause>
  {
    Concat(IslandParts(islands, vars, |islands|))
  }

  /**
   * add_island_contraints: required_bridge gets one list per island id,
   * filled from bridge_vars in its order, and then each island's clauses are
   * added in id order. The cardinality encoding needs no pool ids.
   */
  method AddIslandConstraints(cnf: Formula, islands: seq<Island>, bridgeVars: seq<BridgeVar>)
    modifies cnf
    ensures cnf.clauses == old(cnf.clauses) + IslandsClauses(islands, bridgeVars)
  {
    var required := CollectRequired(|islands|, bridgeVars);
    ghost var clauses0 := cnf.clauses;
    for k := 0 to |islands|
      invariant cnf.clauses == clauses0 + Concat(IslandParts(islands, bridgeVars, k))
    {
      AddIsland(cnf, required[k], islands[k].value);
      ConcatSnoc(IslandParts(islands, bridgeVars, k), IslandClauses(required[k], islands[k].value));
      AppendAssoc(clauses0, Concat(IslandParts(islands, bridgeVars, k)), IslandClauses(required[k], islands[k].value));
    }
  }

  /** The second loop of add_island_contraints, for one island with literals `lits`. */
  method AddIsland(cnf: Formula, lits: seq<int>, require: int)
    modifies cnf
    ensures cnf.clauses == old(cnf.clauses) + IslandClauses(lits, require)
  {
    if |lits| >= require && require > 0 {
      cnf.Extend(Equals(lits, require));
    } else if require == 0 {
      for m := 0 to |lits|
        invariant cnf.clauses == old(cnf.clauses) + Negations(lits[..m])
      {
        assert lits[..m + 1][..m] == lits[..m];
        cnf.Append([-lits[m]]);
      }
      assert lits[..|lits|] == lits;
    } else {
      cnf.Append([]);
    }
  }

  lemma AppendAssoc<T>(a: seq<T>, b: seq<T>, c: seq<T>)
    ensures (a + b) + c == a + (b + c)
  {
  }

  /** The first loop of add_island_contraints: required_bridge[id] (entry id - 1) for ids 1..count. */
  method CollectRequired(count: nat, bridgeVars: seq<BridgeVar>) returns (required: seq<seq<int>>)
    ensures |required| == count
    ensures forall k :: 0 <= k < count ==> required[k] == IncidentLits(bridgeVars, |bridgeVars|, k + 1)
  {
    required := seq(count, k => []);
    for t := 0 to |bridgeVars|
      invariant |required| == count
      invariant forall k :: 0 <= k < count ==> required[k] == IncidentLits(bridgeVars, t, k + 1)
    {
      var v := bridgeVars[t];
      if 1 <= v.i <= count {
        required := required[v.i - 1 := required[v.i - 1] + [v.x1, v.x2]];
      }
      if 1 <= v.j <= count {
        required := required[v.j - 1 := required[v.j - 1] + [v.x1, v.x2]];
      }
    }
  }

  /** A total state for the x-variables: every id of `vars` is a positive, assigned index of `a`. */
  predicate VarsAssigned(vars: seq<BridgeVar>, a: Assignment)
  {
    forall t :: 0 <= t < |vars| ==>
      && 0 < vars[t].x1 < |a| && a[vars[t].x1].Some?
      && 0 < vars[t].x2 < |a| && a[vars[t].x2].Some?
  }

  lemma {:induction false} IncidentAssigned(vars: seq<BridgeVar>, n: nat, id: int, a: Assignment)
    requires n <= |vars| && VarsAssigned(vars, a)
    ensures AllAssigned(IncidentLits(vars, n, id), a)
  {
    if n > 0 {
      IncidentAssigned(vars, n - 1, id, a);
    }
  }

  /** The unit clauses [-lit] all hold exactly when no literal is true. */
  lemma {:induction false} NegationsCorrect(lits: seq<int>, a: Assignment)
    requires AllAssigned(lits, a)
    ensures InRange(Negations(lits), a)
    ensures SatisfiesAll(Negations(lits), a) <==> CountTrue(lits, a) == 0
  {
    if lits != [] {
      var init, l := lits[..|lits| - 1], lits[|lits| - 1];
      assert lits == init + [l];
      assert AllAssigned(init, a) by {
        forall x | x in init ensures x in lits { }
      }
      NegationsCorrect(init, a);
      assert l in lits;
      NegatedLit(a, l);
      CountTrueAppend(init, [l], a);
      assert CountTrue([l], a) == (if LitTrue(a, l) then 1 else 0) by {
        assert [l][1..] == [];
      }
      var c := [-l];
      assert Satisfied(c, a) <==> LitTrue(a, -l) by {
        if Satisfied(c, a) {
          var x :| x in c && LitTrue(a, x);
          assert x == -l;
        }
      }
      assert Negations(lits) == Negations(init) + [c];
      assert SatisfiesAll([c], a) <==> Satisfied(c, a) by {
        assert [c][0] == c;
      }
      SatisfiesAllAppend(Negations(init), [c], a);
    }
  }

  /**
   * The intended meaning of one island's clauses: with every literal
   * assigned, they hold exactly when the number of true literals is the
   * island's required value - whichever of the three branches produced them.
   */
  lemma IslandClausesCorrect(lits: seq<int>, require: int, a: Assignment)
    requires AllAssigned(lits, a)
    ensures InRange(IslandClauses(lits, require), a)
    ensures SatisfiesAll(IslandClauses(lits, require), a) <==> CountTrue(lits, a) == require
  {
    if |lits| >= require && require > 0 {
      EqualsCorrect(lits, require, a);
    } else if require == 0 {
      NegationsCorrect(lits, a);
    } else {
      var c: Clause := [];
      assert !Satisfied(c, a);
      assert IslandClauses(lits, require)[0] == c;
    }
  }

  /** Island `id` sees exactly `require` true literals among those required_bridge collects for it. */
  predicate IslandMet(vars: seq<BridgeVar>, id: int, require: int, a: Assignment)
    requires VarsAssigned(vars, a)
  {
    IncidentAssigned(vars, |vars|, id, a);
    CountTrue(IncidentLits(vars, |vars|, id), a) == require
  }

  /** Islands 1..n all see their required number of true literals. */
  predicate IslandsMet(islands: seq<Island>, vars: seq<BridgeVar>, n: nat, a: Assignment)
    requires n <= |islands| && VarsAssigned(vars, a)
  {
    forall k :: 0 <= k < n ==> IslandMet(vars, k + 1, islands[k].value, a)
  }

  /** All island clauses hold exactly when every island sees its required number of true literals. */
  lemma IslandsClausesCorrect(islands: seq<Island>, vars: seq<BridgeVar>, a: Assignment)
    requires VarsAssigned(vars, a)
    ensures InRange(IslandsClauses(islands, vars), a)
    ensures SatisfiesAll(IslandsClauses(islands, vars), a) <==> IslandsMet(islands, vars, |islands|, a)
  {
    var parts := IslandParts(islands, vars, |islands|);
    IslandPartsAt(islands, vars, |islands|);
    forall k | 0 <= k < |parts|
      ensures InRange(parts[k], a)
      ensures SatisfiesAll(parts[k], a) <==> IslandMet(vars, k + 1, islands[k].value, a)
    {
      IncidentAssigned(vars, |vars|, k + 1, a);
      IslandClausesCorrect(IncidentLits(vars, |vars|, k + 1), islands[k].value, a);
    }
    ConcatCorrect(parts, a);
  }

  // ---------------------------------------------------------------------
  // add_non_crossing_constraints

  /**
   * A horizontal and a vertical bridge cross when each passes strictly
   * inside the other's span (either may come first in the list).
   */
  predicate Crosses(e1: Extra, e2: Extra)
  {
    match e1
    case Horizontal(r, startC, endC) => e2.Vertical? && e2.startRow < r < e2.endRow && startC < e2.col < endC
    case Vertical(c, startR, endR) => e2.Horizontal? && startR < e2.row < endR && e2.startCol < c < e2.endCol
  }

  /** The id of bridge b's single-bridge variable ('x', i, j, 1) in the pool (0 if it has none). */
  function Single(ids: map<VarKey, int>, b: Bridge): int
  {
    if X(b.i, b.j, 1) in ids then ids[X(b.i, b.j, 1)] else 0
  }

  /** The single-bridge ids of all bridges, in list order. */
  function SinglesOf(ids: map<VarKey, int>, bridges: seq<Bridge>): (singles: seq<int>)
    ensures |singles| == |bridges|
  {
    seq(|bridges|, t requires 0 <= t < |bridges| => Single(ids, bridges[t]))
  }

  predicate SinglesPooled(ids: map<VarKey, int>, bridges: seq<Bridge>)
  {
    forall t :: 0 <= t < |bridges| ==> X(bridges[t].i, bridges[t].j, 1) in ids
  }

  /** "Not both": the clause [-x1_e1, -x1_e2] of a crossing pair. */
  function Forbid(x: int, y: int): Clause
  {
    [-x, -y]
  }

  /** The clauses of the inner loop for bridge p, against bridges p+1..q-1; singles[t] is bridge t's single-bridge id. */
  function CrossRow(singles: seq<int>, bridges: seq<Bridge>, p: nat, q: nat): seq<Clause>
    requires p < q <= |bridges| == |singles|
    decreases q
  {
    if q == p + 1 then []
    else
      CrossRow(singles, bridges, p, q - 1)
      + (if Crosses(bridges[p].extra, bridges[q - 1].extra) then [Forbid(singles[p], singles[q - 1])] else [])
  }

  /** The clauses of the outer loop's first p rounds. */
  function CrossUpTo(singles: seq<int>, bridges: seq<Bridge>, p: nat): seq<Clause>
    requires p <= |bridges| == |singles|
  {
    if p == 0 then [] else CrossUpTo(singles, bridges, p - 1) + CrossRow(singles, bridges, p - 1, |bridges|)
  }

  /**
   * add_non_crossing_constraints: for every pair of bridges in list order
   * that cross, the clause forbidding both. The pool already holds every
   * key it looks up, so it hands out no new id.
   */
  method AddNonCrossingConstraints(cnf: Formula, vpool: IdPool, bridges: seq<Bridge>)
    requires vpool.Valid() && SinglesPooled(vpool.ids, bridges)
    modifies cnf, vpool
    ensures vpool.Valid() && vpool.ids == old(vpool.ids) && vpool.top == old(vpool.top)
    ensures cnf.clauses == old(cnf.clauses) + CrossUpTo(SinglesOf(old(vpool.ids), bridges), bridges, |bridges|)
  {
    ghost var singles, clauses0 := SinglesOf(vpool.ids, bridges), cnf.clauses;
    var n := |bridges|;
    for i := 0 to n
      invariant vpool.Valid() && vpool.ids == old(vpool.ids) && vpool.top == old(vpool.top)
      invariant cnf.clauses == clauses0 + CrossUpTo(singles, bridges, i)
    {
      AddCrossRow(cnf, vpool, bridges, i);
      AppendAssoc(clauses0, CrossUpTo(singles, bridges, i), CrossRow(singles, bridges, i, n));
    }
  }

  /** The inner loop of add_non_crossing_constraints: bridge i against every later bridge. */
  method AddCrossRow(cnf: Formula, vpool: IdPool, bridges: seq<Bridge>, i: nat)
    requires i < |bridges| && vpool.Valid() && SinglesPooled(vpool.ids, bridges)
    modifies cnf, vpool
    ensures vpool.Valid() && vpool.ids == old(vpool.ids) && vpool.top == old(vpool.top)
    ensures cnf.clauses == old(cnf.clauses) + CrossRow(SinglesOf(old(vpool.ids), bridges), bridges, i, |bridges|)
  {
    ghost var singles, before := SinglesOf(vpool.ids, bridges), cnf.clauses;
    for j := i + 1 to |bridges|
      invariant vpool.Valid() && vpool.ids == old(vpool.ids) && vpool.top == old(vpool.top)
      invariant cnf.clauses == before + CrossRow(singles, bridges, i, j)
    {
      CrossPair(cnf, vpool, bridges[i], bridges[j]);
      AppendAssoc(before, CrossRow(singles, bridges, i, j),
        if Crosses(bridges[i].extra, bridges[j].extra) then [Forbid(singles[i], singles[j])] else []);
    }
  }

  /** The body of the inner loop: the two direction cases, each adding the clause when the spans overlap. */
  method CrossPair(cnf: Formula, vpool: IdPool, b1: Bridge, b2: Bridge)
    requires vpool.Valid() && X(b1.i, b1.j, 1) in vpool.ids && X(b2.i, b2.j, 1) in vpool.ids
    modifies cnf, vpool
    ensures vpool.Valid() && vpool.ids == old(vpool.ids) && vpool.top == old(vpool.top)
    ensures cnf.clauses == old(cnf.clauses) +
      if Crosses(b1.extra, b2.extra) then [Forbid(Single(vpool.ids, b1), Single(vpool.ids, b2))] else []
  {
    if b1.extra.Horizontal? && b2.extra.Vertical? {
      var r, startC, endC := b1.extra.row, b1.extra.startCol, b1.extra.endCol;
      var c, startR, endR := b2.extra.col, b2.extra.startRow, b2.extra.endRow;
      if startR < r < endR && startC < c < endC {
        ForbidPair(cnf, vpool, b1, b2);
      }
    } else if b1.extra.Vertical? && b2.extra.Horizontal? {
      var r, startC, endC := b2.extra.row, b2.extra.startCol, b2.extra.endCol;
      var c, startR, endR := b1.extra.col, b1.extra.startRow, b1.extra.endRow;
      if startR < r < endR && startC < c < endC {
        ForbidPair(cnf, vpool, b1, b2);
      }
    }
  }

  /** The two vpool.id lookups of a crossing pair whose keys are pooled, and its clause. */
  method ForbidPair(cnf: Formula, vpool: IdPool, b1: Bridge, b2: Bridge)
    requires vpool.Valid() && X(b1.i, b1.j, 1) in vpool.ids && X(b2.i, b2.j, 1) in vpool.ids
    modifies cnf, vpool
    ensures vpool.Valid() && vpool.ids == old(vpool.ids) && vpool.top == old(vpool.top)
    ensures cnf.clauses == old(cnf.clauses) + [Forbid(Single(vpool.ids, b1), Single(vpool.ids, b2))]
  {
    var x1e1 := vpool.Id(X(b1.i, b1.j, 1));
    var x1e2 := vpool.Id(X(b2.i, b2.j, 1));
    cnf.Append([-x1e1, -x1e2]);
  }

  /** Variable x is set to True in `a` (Python's truthiness of assignment[x]). */
  predicate Present(a: Assignment, x: int)
  {
    0 <= x < |a| && a[x] == Some(true)
  }

  /** Every id of `singles` is a positive, assigned index of `a`. */
  predicate IdsAssigned(singles: seq<int>, a: Assignment)
  {
    forall t :: 0 <= t < |singles| ==> 0 < singles[t] < |a| && a[singles[t]].Some?
  }

  /** No crossing pair (p, j) with p in lo..hi-1 and p < j < q has both single-bridge variables true. */
  predicate NoCrossedPairs(singles: seq<int>, bridges: seq<Bridge>, a: Assignment, lo: nat, hi: nat, q: nat)
    requires q <= |bridges| == |singles|
  {
    forall p, j :: lo <= p < hi && p < j < q && Crosses(bridges[p].extra, bridges[j].extra) ==>
      !(Present(a, singles[p]) && Present(a, singles[j]))
  }

  lemma ForbidCorrect(x: int, y: int, a: Assignment)
    requires 0 < x < |a| && a[x].Some? && 0 < y < |a| && a[y].Some?
    ensures InRange([Forbid(x, y)], a)
    ensures SatisfiesAll([Forbid(x, y)], a) <==> !(Present(a, x) && Present(a, y))
  {
    var c := Forbid(x, y);
    assert [c][0] == c;
    assert Abs(-x) == x && Abs(-y) == y;
    assert a[x] == Some(a[x].value) && a[y] == Some(a[y].value);
    NegatedLit(a, x);
    NegatedLit(a, y);
    assert SatisfiesAll([c], a) <==> Satisfied(c, a);
    assert Satisfied(c, a) <==> LitTrue(a, -x) || LitTrue(a, -y) by {
      if Satisfied(c, a) {
        var l :| l in c && LitTrue(a, l);
      }
      assert -x in c && -y in c;
    }
  }

  lemma {:induction false} CrossRowCorrect(singles: seq<int>, bridges: seq<Bridge>, a: Assignment, p: nat, q: nat)
    requires p < q <= |bridges| == |singles| && IdsAssigned(singles, a)
    ensures InRange(CrossRow(singles, bridges, p, q), a)
    ensures SatisfiesAll(CrossRow(singles, bridges, p, q), a) <==> NoCrossedPairs(singles, bridges, a, p, p + 1, q)
    decreases q
  {
    if q > p + 1 {
      var last: seq<Clause> := if Crosses(bridges[p].extra, bridges[q - 1].extra) then [Forbid(singles[p], singles[q - 1])] else [];
      CrossRowCorrect(singles, bridges, a, p, q - 1);
      ForbidCorrect(singles[p], singles[q - 1], a);
      SatisfiesAllAppend(CrossRow(singles, bridges, p, q - 1), last, a);
    }
  }

  /**
   * The meaning of the non-crossing clauses: on a state that assigns every
   * single-bridge variable, they hold exactly when no two crossing bridges
   * are both built.
   */
  lemma {:induction false} CrossUpToCorrect(singles: seq<int>, bridges: seq<Bridge>, a: Assignment, p: nat)
    requires p <= |bridges| == |singles| && IdsAssigned(singles, a)
    ensures InRange(CrossUpTo(singles, bridges, p), a)
    ensures SatisfiesAll(CrossUpTo(singles, bridges, p), a) <==> NoCrossedPairs(singles, bridges, a, 0, p, |bridges|)
  {
    if p > 0 {
      CrossUpToCorrect(singles, bridges, a, p - 1);
      CrossRowCorrect(singles, bridges, a, p - 1, |bridges|);
      SatisfiesAllAppend(CrossUpTo(singles, bridges, p - 1), CrossRow(singles, bridges, p - 1, |bridges|), a);
    }
  }

  // ---------------------------------------------------------------------
  // What the clauses mean for the bridges

  /** Every bridge's double variable implies its single one. */
  predicate DoubleNeedsSingle(vars: seq<BridgeVar>, a: Assignment)
  {
    forall t :: 0 <= t < |vars| ==> Present(a, vars[t].x2) ==> Present(a, vars[t].x1)
  }

  /** The main clauses [-x2, x1] hold exactly when no bridge is doubled without being built. */
  lemma {:induction false} MainClausesCorrect(vars: seq<BridgeVar>, a: Assignment)
    requires VarsAssigned(vars, a)
    ensures InRange(MainClauses(vars), a)
    ensures SatisfiesAll(MainClauses(vars), a) <==> DoubleNeedsSingle(vars, a)
  {
    if vars != [] {
      var init, v := vars[..|vars| - 1], vars[|vars| - 1];
      assert VarsAssigned(init, a);
      MainClausesCorrect(init, a);
      var c := [-v.x2, v.x1];
      assert [c][0] == c;
      NegatedLit(a, v.x2);
      assert Satisfied(c, a) <==> LitTrue(a, -v.x2) || LitTrue(a, v.x1) by {
        if Satisfied(c, a) {
          var l :| l in c && LitTrue(a, l);
        }
        assert -v.x2 in c && v.x1 in c;
      }
      SatisfiesAllAppend(MainClauses(init), [c], a);
      assert forall t :: 0 <= t < |init| ==> init[t] == vars[t];
    }
  }

  /** interpret_model's count for one bridge: 2 with both variables true, 1 with only x1, none otherwise. */
  function Count(a: Assignment, v: BridgeVar): nat
  {
    if Present(a, v.x1) then (if Present(a, v.x2) then 2 else 1) else 0
  }

  /** The number of bridges built at island id over the first n entries of bridge_vars. */
  function Degree(vars: seq<BridgeVar>, n: nat, id: int, a: Assignment): nat
    requires n <= |vars|
  {
    if n == 0 then 0
    else
      var v := vars[n - 1];
      Degree(vars, n - 1, id, a) + (if v.i == id then Count(a, v) else 0) + (if v.j == id then Count(a, v) else 0)
  }

  /** Where the main clauses hold, the true literals required_bridge collects for an island count its bridges. */
  lemma {:induction false} IncidentCountsDegree(vars: seq<BridgeVar>, n: nat, id: int, a: Assignment)
    requires n <= |vars| && VarsAssigned(vars, a) && DoubleNeedsSingle(vars, a)
    ensures forall l :: l in IncidentLits(vars, n, id) ==> Abs(l) < |a|
    ensures CountTrue(IncidentLits(vars, n, id), a) == Degree(vars, n, id, a)
  {
    IncidentAssigned(vars, n, id, a);
    if n > 0 {
      var v := vars[n - 1];
      var pair := [v.x1, v.x2];
      IncidentCountsDegree(vars, n - 1, id, a);
      assert CountTrue(pair, a) == Count(a, v) by {
        assert pair[1..] == [v.x2] && [v.x2][1..] == [];
      }
      var lits := IncidentLits(vars, n - 1, id);
      var x: seq<int> := if v.i == id then pair else [];
      var y: seq<int> := if v.j == id then pair else [];
      CountTrueAppend(lits, x, a);
      CountTrueAppend(lits + x, y, a);
    }
  }

  /** Under the main clauses, island `id` meets its requirement exactly when its bridge count is `require`. */
  lemma IslandMetIsDegree(vars: seq<BridgeVar>, id: int, require: int, a: Assignment)
    requires VarsAssigned(vars, a) && DoubleNeedsSingle(vars, a)
    ensures IslandMet(vars, id, require, a) <==> Degree(vars, |vars|, id, a) == require
  {
    IncidentCountsDegree(vars, |vars|, id, a);
  }

  /** Every island k + 1 has islands[k].value bridges. */
  predicate DegreesMatch(islands: seq<Island>, vars: seq<BridgeVar>, a: Assignment)
  {
    forall k :: 0 <= k < |islands| ==> Degree(vars, |vars|, k + 1, a) == islands[k].value
  }

  /** Where the main clauses hold, the island constraints say exactly that every island has its number of bridges. */
  lemma IslandsMetIsDegrees(islands: seq<Island>, vars: seq<BridgeVar>, a: Assignment)
    requires VarsAssigned(vars, a) && DoubleNeedsSingle(vars, a)
    ensures IslandsMet(islands, vars, |islands|, a) <==> DegreesMatch(islands, vars, a)
  {
    forall k | 0 <= k < |islands|
      ensures IslandMet(vars, k + 1, islands[k].value, a) <==> Degree(vars, |vars|, k + 1, a) == islands[k].value
    {
      IslandMetIsDegree(vars, k + 1, islands[k].value, a);
    }
  }

  // ---------------------------------------------------------------------
  // Which variables the clauses mention

  /** Both ids of every entry lie in 1..n. */
  predicate VarsWithin(vars: seq<BridgeVar>, n: nat)
  {
    forall t :: 0 <= t < |vars| ==> 0 < vars[t].x1 <= n && 0 < vars[t].x2 <= n
  }

  lemma {:induction false} MainClausesWithin(vars: seq<BridgeVar>, n: nat)
    requires VarsWithin(vars, n)
    ensures WithinVars(MainClauses(vars), n)
  {
    if vars != [] {
      var init, v := vars[..|vars| - 1], vars[|vars| - 1];
      assert VarsWithin(init, n);
      MainClausesWithin(init, n);
      var c := [-v.x2, v.x1];
      assert WithinVars([c], n) by {
        assert [c][0] == c;
      }
      WithinVarsAppend(MainClauses(init), [c], n);
    }
  }

  lemma {:induction false} IncidentWithin(vars: seq<BridgeVar>, m: nat, id: int, n: nat)
    requires m <= |vars| && VarsWithin(vars, n)
    ensures forall l :: l in IncidentLits(vars, m, id) ==> 0 < l <= n
  {
    if m > 0 {
      IncidentWithin(vars, m - 1, id, n);
    }
  }

  lemma {:induction false} NegationsWithin(lits: seq<int>, n: nat)
    requires forall l :: l in lits ==> 0 < l <= n
    ensures WithinVars(Negations(lits), n)
  {
    if lits != [] {
      var init := lits[..|lits| - 1];
      assert forall l :: l in init ==> l in lits;
      NegationsWithin(init, n);
      var c := [-lits[|lits| - 1]];
      assert WithinVars([c], n) by {
        assert [c][0] == c;
        assert lits[|lits| - 1] in lits;
      }
      WithinVarsAppend(Negations(init), [c], n);
    }
  }

  lemma IslandClausesWithin(lits: seq<int>, require: int, n: nat)
    requires forall l :: l in lits ==> 0 < l <= n
    ensures WithinVars(IslandClauses(lits, require), n)
  {
    if |lits| >= require && require > 0 {
      EqualsLits(lits, require);
      var r := Equals(lits, require);
      forall k, l | 0 <= k < |r| && l in r[k] ensures l != 0 && Abs(l) <= n {
        assert l in lits || -l in lits;
      }
    } else if require == 0 {
      NegationsWithin(lits, n);
    }
  }

  lemma IslandsClausesWithin(islands: seq<Island>, vars: seq<BridgeVar>, n: nat)
    requires VarsWithin(vars, n)
    ensures WithinVars(IslandsClauses(islands, vars), n)
  {
    var parts := IslandParts(islands, vars, |islands|);
    IslandPartsAt(islands, vars, |islands|);
    forall k | 0 <= k < |parts| ensures WithinVars(parts[k], n) {
      IncidentWithin(vars, |vars|, k + 1, n);
      IslandClausesWithin(IncidentLits(vars, |vars|, k + 1), islands[k].value, n);
    }
    WithinVarsConcat(parts, n);
  }

  lemma {:induction false} CrossRowWithin(singles: seq<int>, bridges: seq<Bridge>, p: nat, q: nat, n: nat)
    requires p < q <= |bridges| == |singles|
    requires forall t :: 0 <= t < |singles| ==> 0 < singles[t] <= n
    ensures WithinVars(CrossRow(singles, bridges, p, q), n)
    decreases q
  {
    if q > p + 1 {
      CrossRowWithin(singles, bridges, p, q - 1, n);
      var c := Forbid(singles[p], singles[q - 1]);
      assert WithinVars([c], n) by {
        assert [c][0] == c;
      }
      WithinVarsAppend(CrossRow(singles, bridges, p, q - 1), if Crosses(bridges[p].extra, bridges[q - 1].extra) then [c] else [], n);
    }
  }

  lemma {:induction false} CrossUpToWithin(singles: seq<int>, bridges: seq<Bridge>, p: nat, n: nat)
    requires p <= |bridges| == |singles|
    requires forall t :: 0 <= t < |singles| ==> 0 < singles[t] <= n
    ensures WithinVars(CrossUpTo(singles, bridges, p), n)
  {
    if p > 0 {
      CrossUpToWithin(singles, bridges, p - 1, n);
      CrossRowWithin(singles, bridges, p - 1, |bridges|, n);
      WithinVarsAppend(CrossUpTo(singles, bridges, p - 1), CrossRow(singles, bridges, p - 1, |bridges|), n);
    }
  }
}
