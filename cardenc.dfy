/**
 * The exactly-k cardinality constraint that the island constraints need
 * (pysat's `CardEnc.equals(lits, bound)` in `add_island_contraints`).
 * This encoding uses no auxiliary variables: for the first literal l it
 * keeps "l or (the rest has exactly k true)" and "not l or (the rest has
 * exactly k - 1 true)".
 */
module CardEnc {
  import opened Wrappers
  import opened Cnf

  /** Every literal of `lits` is non-zero and names an assigned variable of `a`. */
  predicate AllAssigned(lits: seq<int>, a: Assignment)
  {
    forall l :: l in lits ==> l != 0 && Abs(l) < |a| && a[Abs(l)].Some?
  }

  /** The number of positions of `lits` whose literal is true under `a`. */
  function CountTrue(lits: seq<int>, a: Assignment): (r: nat)
    requires forall l :: l in lits ==> Abs(l) < |a|
    ensures r <= |lits|
  {
    if lits == [] then 0
    else (if LitTrue(a, lits[0]) then 1 else 0) + CountTrue(lits[1..], a)
  }

  /** Each clause of `cs` with `lit` added in front. */
  function Prepend(lit: int, cs: seq<Clause>): (r: seq<Clause>)
    ensures |r| == |cs|
  {
    if cs == [] then [] else [[lit] + cs[0]] + Prepend(lit, cs[1..])
  }

  lemma {:induction false} PrependAt(lit: int, cs: seq<Clause>)
    ensures forall k :: 0 <= k < |cs| ==> Prepend(lit, cs)[k] == [lit] + cs[k]
  {
    if cs != [] {
      PrependAt(lit, cs[1..]);
    }
  }

  /** Clauses over the variables of `lits` that hold exactly when `bound` of them are true. */
  function Equals(lits: seq<int>, bound: int): (r: seq<Clause>)
    decreases |lits|
  {
    if lits == [] then
      if bound == 0 then [] else [[]]
    else
      Prepend(lits[0], Equals(lits[1..], bound)) + Prepend(-lits[0], Equals(lits[1..], bound - 1))
  }

  /** The encoding mentions only the variables of `lits`. */
  lemma {:induction false} EqualsLits(lits: seq<int>, bound: int)
    ensures forall k, l :: 0 <= k < |Equals(lits, bound)| && l in Equals(lits, bound)[k] ==> l in lits || -l in lits
    decreases |lits|
  {
    if lits != [] {
      var r0, r1 := Equals(lits[1..], bound), Equals(lits[1..], bound - 1);
      EqualsLits(lits[1..], bound);
      EqualsLits(lits[1..], bound - 1);
      PrependAt(lits[0], r0);
      PrependAt(-lits[0], r1);
      var r := Prepend(lits[0], r0) + Prepend(-lits[0], r1);
      assert forall k :: 0 <= k < |r0| ==> r[k] == [lits[0]] + r0[k];
      assert forall k :: 0 <= k < |r1| ==> r[|r0| + k] == [-lits[0]] + r1[k];
      assert forall x :: x in lits[1..] ==> x in lits;
    }
  }

  lemma EqualsInRange(lits: seq<int>, bound: int, a: Assignment)
    requires forall l :: l in lits ==> Abs(l) < |a|
    ensures InRange(Equals(lits, bound), a)
  {
    var r := Equals(lits, bound);
    EqualsLits(lits, bound);
    forall k, l | 0 <= k < |r| && l in r[k] ensures Abs(l) < |a| {
      assert l in lits || -l in lits;
    }
  }

  /** Negating an assigned, non-zero literal flips its value. */
  lemma NegatedLit(a: Assignment, l: int)
    requires l != 0 && Abs(l) < |a| && a[Abs(l)].Some?
    ensures Abs(-l) == Abs(l)
    ensures LitTrue(a, -l) <==> !LitTrue(a, l)
  {
    var v := a[Abs(l)].value;
    assert a[Abs(l)] == Some(v);
  }

  lemma PrependSatisfied(lit: int, cs: seq<Clause>, a: Assignment)
    requires Abs(lit) < |a| && InRange(cs, a)
    ensures InRange(Prepend(lit, cs), a)
    ensures SatisfiesAll(Prepend(lit, cs), a) <==> LitTrue(a, lit) || SatisfiesAll(cs, a)
  {
    var r := Prepend(lit, cs);
    PrependAt(lit, cs);
    forall k | 0 <= k < |cs|
      ensures ClauseInRange(r[k], a)
      ensures Satisfied(r[k], a) <==> LitTrue(a, lit) || Satisfied(cs[k], a)
    {
      assert r[k] == [lit] + cs[k];
      assert lit in r[k];
      if Satisfied(r[k], a) && !LitTrue(a, lit) {
        var l :| l in r[k] && LitTrue(a, l);
        assert l in cs[k];
      }
    }
  }

  /**
   * The defining property of the cardinality encoding: an assignment that
   * gives every literal a value satisfies all the clauses exactly when
   * `bound` of the literals are true.
   */
  lemma {:induction false} EqualsCorrect(lits: seq<int>, bound: int, a: Assignment)
    requires AllAssigned(lits, a)
    ensures InRange(Equals(lits, bound), a)
    ensures SatisfiesAll(Equals(lits, bound), a) <==> CountTrue(lits, a) == bound
    decreases |lits|
  {
    EqualsInRange(lits, bound, a);
    if lits == [] {
      if bound != 0 {
        assert !Satisfied(Equals(lits, bound)[0], a);
      }
    } else {
      var l, rest := lits[0], lits[1..];
      assert AllAssigned(rest, a) by {
        forall x | x in rest ensures x in lits { }
      }
      EqualsCorrect(rest, bound, a);
      EqualsCorrect(rest, bound - 1, a);
      assert l in lits;
      EqualsStep(l, Equals(rest, bound), Equals(rest, bound - 1), Equals(lits, bound), a, CountTrue(rest, a), bound);
    }
  }

  /**
   * One step of the encoding: with l first, "l or (the rest has exactly k)"
   * and "not l or (the rest has exactly k - 1)" hold exactly when l counts
   * with the rest to k.
   */
  lemma EqualsStep(l: int, r0: seq<Clause>, r1: seq<Clause>, cs: seq<Clause>, a: Assignment, c: int, bound: int)
    requires l != 0 && Abs(l) < |a| && a[Abs(l)].Some?
    requires InRange(r0, a) && InRange(r1, a)
    requires cs == Prepend(l, r0) + Prepend(-l, r1)
    requires SatisfiesAll(r0, a) <==> c == bound
    requires SatisfiesAll(r1, a) <==> c == bound - 1
    ensures InRange(cs, a)
    ensures SatisfiesAll(cs, a) <==> (if LitTrue(a, l) then 1 else 0) + c == bound
  {
    NegatedLit(a, l);
    PrependSatisfied(l, r0, a);
    PrependSatisfied(-l, r1, a);
    SatisfiesAllAppend(Prepend(l, r0), Prepend(-l, r1), a);
  }

  lemma {:induction false} CountTrueAppend(x: seq<int>, y: seq<int>, a: Assignment)
    requires forall l :: l in x + y ==> Abs(l) < |a|
    ensures CountTrue(x + y, a) == CountTrue(x, a) + CountTrue(y, a)
  {
    if x != [] {
      assert (x + y)[1..] == x[1..] + y;
      CountTrueAppend(x[1..], y, a);
    } else {
      assert x + y == y;
    }
  }
}
