/** The solution aggregator: try every ammunition class in declared order
    against a closed-form solver and keep the classes it can serve. */
module Solution {
  import opened Wrappers
  import opened Ammo

  /** Closed-form elevation solver, (distance, relative elevation, muzzle
      velocity) to an elevation angle; `None` when the computation raises
      or yields NaN. */
  type Solver = (real, real, real) -> Option<real>

  /** Ranks strictly increase along `ammoTypes`: it is an order-preserving
      subsequence of `AmmoOrder` without repeats. */
  predicate InDeclaredOrder(ammoTypes: seq<AmmoClass>) {
    forall i, j :: 0 <= i < j < |ammoTypes| ==> ammoTypes[i].Rank() < ammoTypes[j].Rank()
  }

  /** `solutions` and `ammoTypes` are what the aggregator reports after
      trying the first `tried` classes of `AmmoOrder`: paired lists, in
      declared order, holding exactly the classes the solver serves, each
      with the solver's elevation. */
  predicate SolutionsFor(solve: Solver, distance: real, relElevation: real, tried: nat,
                         solutions: seq<real>, ammoTypes: seq<AmmoClass>) {
    |solutions| == |ammoTypes|
    && InDeclaredOrder(ammoTypes)
    && (forall c: AmmoClass :: c in ammoTypes <==> c.Rank() < tried && solve(distance, relElevation, c.MuzzleVelocity()).Some?)
    && (forall i :: 0 <= i < |ammoTypes| ==> solve(distance, relElevation, ammoTypes[i].MuzzleVelocity()) == Some(solutions[i]))
  }

  method GetBallisticSolution(distance: real, relElevation: real, solve: Solver)
    returns (solutions: seq<real>, ammoTypes: seq<AmmoClass>)
    ensures SolutionsFor(solve, distance, relElevation, |AmmoOrder|, solutions, ammoTypes)
  {
    solutions, ammoTypes := [], [];
    var muzzleVelocities := [NearMuzzleVelocity, MediumMuzzleVelocity, FarMuzzleVelocity];
    var types := AmmoOrder;
    for idx := 0 to |muzzleVelocities|
      invariant SolutionsFor(solve, distance, relElevation, idx, solutions, ammoTypes)
    {
      assert types[idx].Rank() == idx && types[idx].MuzzleVelocity() == muzzleVelocities[idx];
      match solve(distance, relElevation, muzzleVelocities[idx])
      case Some(elevation) =>
        solutions := solutions + [elevation];
        ammoTypes := ammoTypes + [types[idx]];
      case None =>
    }
  }

  /** Two lists in declared order with the same members are equal. */
  lemma {:induction false} DeclaredOrderUnique(a: seq<AmmoClass>, b: seq<AmmoClass>)
    requires InDeclaredOrder(a) && InDeclaredOrder(b)
    requires forall c :: c in a <==> c in b
    ensures a == b
  {
    if a != [] {
      assert a[0] in b;
    }
    if b != [] {
      assert b[0] in a;
    }
    if a != [] && b != [] {
      assert a[0] == b[0];
      forall c ensures c in a[1..] <==> c in b[1..] {
        assert c in a[1..] <==> c in a && c != a[0];
        assert c in b[1..] <==> c in b && c != b[0];
      }
      DeclaredOrderUnique(a[1..], b[1..]);
    }
  }

  /** The aggregator's contract determines its result: whatever lists meet
      `SolutionsFor` are the same lists. */
  lemma SolutionsUnique(solve: Solver, distance: real, relElevation: real, tried: nat,
                        solutions1: seq<real>, ammoTypes1: seq<AmmoClass>,
                        solutions2: seq<real>, ammoTypes2: seq<AmmoClass>)
    requires SolutionsFor(solve, distance, relElevation, tried, solutions1, ammoTypes1)
    requires SolutionsFor(solve, distance, relElevation, tried, solutions2, ammoTypes2)
    ensures solutions1 == solutions2 && ammoTypes1 == ammoTypes2
  {
    DeclaredOrderUnique(ammoTypes1, ammoTypes2);
    forall i | 0 <= i < |solutions1| ensures solutions1[i] == solutions2[i] {
      assert solve(distance, relElevation, ammoTypes1[i].MuzzleVelocity()) == Some(solutions1[i]);
    }
  }
}
