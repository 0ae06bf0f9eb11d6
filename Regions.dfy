/** The two region helpers of the Killer puzzle's cage generator:
    `_possible_adjacent`, the uncaged cells next to a growing cage, and
    `_connected`, the flood fill that tells whether the uncaged cells still
    form one region.  Cells are neighbours when they share a side. */
module Regions {
  import opened Grid
  import opened Board
  import opened Cages

  /** The four cells sharing a side with c, in the order the source
      lists them: above, right, below, left. */
  function Around(c: Coord): (r: seq<Coord>)
    ensures |r| == 4
  {
    [(c.0, c.1 - 1), (c.0 + 1, c.1), (c.0, c.1 + 1), (c.0 - 1, c.1)]
  }

  function Abs(n: int): nat {
    if n < 0 then -n else n
  }

  /** The four listed cells are exactly the cells one step away, and they
      are distinct. */
  lemma AroundIsAdjacent(c: Coord, d: Coord)
    ensures d in Around(c) <==> Abs(d.0 - c.0) + Abs(d.1 - c.1) == 1
    ensures Distinct(Around(c))
  {
  }

  /** Sharing a side is symmetric. */
  lemma AroundSymmetric(c: Coord, d: Coord)
    ensures d in Around(c) <==> c in Around(d)
  {
    AroundIsAdjacent(c, d);
    AroundIsAdjacent(d, c);
  }

  // ---------------------------------------------------------------------
  // _possible_adjacent

  /** The cells of Around(c) that are in noCage, in order. */
  function UncagedAround(c: Coord, noCage: seq<Coord>): seq<Coord>
  {
    UncagedAmong(Around(c), noCage)
  }

  function UncagedAmong(s: seq<Coord>, noCage: seq<Coord>): (r: seq<Coord>)
    ensures forall d :: d in r <==> d in s && d in noCage
  {
    if s == [] then []
    else UncagedAmong(s[..|s| - 1], noCage) + (if s[|s| - 1] in noCage then [s[|s| - 1]] else [])
  }

  /** The list `_possible_adjacent` returns: for each cell of the cage in
      turn, its uncaged neighbours in the order of Around. */
  function Adjacents(inCage: seq<Coord>, noCage: seq<Coord>): seq<Coord>
  {
    if inCage == [] then []
    else Adjacents(inCage[..|inCage| - 1], noCage) + UncagedAround(inCage[|inCage| - 1], noCage)
  }

  /** A cell is listed exactly when it is uncaged and shares a side with
      some cell of the cage. */
  lemma {:induction false} AdjacentsMembers(inCage: seq<Coord>, noCage: seq<Coord>, d: Coord)
    ensures d in Adjacents(inCage, noCage)
        <==> d in noCage && exists c :: c in inCage && d in Around(c)
    decreases |inCage|
  {
    if inCage != [] {
      var init, last := inCage[..|inCage| - 1], inCage[|inCage| - 1];
      AdjacentsMembers(init, noCage, d);
      assert inCage == init + [last];
      if d in noCage && d in Around(last) {
        assert d in UncagedAround(last, noCage);
      }
      if c :| c in init && d in Around(c) {
        assert c in inCage;
      }
      if c :| c in inCage && d in Around(c) {
        if c != last {
          assert c in init;
        }
      }
    }
  }

  /** A sanity bound on the list the two loops build, not a property the
      source promises: at most four cells per cage cell are listed. */
  lemma {:induction false} AdjacentsLength(inCage: seq<Coord>, noCage: seq<Coord>)
    ensures |Adjacents(inCage, noCage)| <= 4 * |inCage|
    decreases |inCage|
  {
    if inCage != [] {
      var init, last := inCage[..|inCage| - 1], inCage[|inCage| - 1];
      AdjacentsLength(init, noCage);
      UncagedAmongLength(Around(last), noCage);
    }
  }

  lemma {:induction false} UncagedAmongLength(s: seq<Coord>, noCage: seq<Coord>)
    ensures |UncagedAmong(s, noCage)| <= |s|
    decreases |s|
  {
    if s != [] {
      UncagedAmongLength(s[..|s| - 1], noCage);
    }
  }

  /** The inner loop of `_possible_adjacent`, over the four neighbours of
      one cage cell. */
  method UncagedNear(c: Coord, noCage: seq<Coord>) returns (r: seq<Coord>)
    ensures r == UncagedAround(c, noCage)
  {
    var around := Around(c);
    r := [];
    for j := 0 to 4
      invariant r == UncagedAmong(around[..j], noCage)
    {
      assert around[..j + 1][..j] == around[..j];
      if around[j] in noCage {
        r := r + [around[j]];
      }
    }
    assert around[..4] == around;
  }

  /** `_possible_adjacent`: the uncaged cells next to the cells of
      inCage, each listed once per cage cell it touches. */
  method PossibleAdjacent(inCage: seq<Coord>, noCage: seq<Coord>) returns (r: seq<Coord>)
    ensures r == Adjacents(inCage, noCage)
    ensures forall d :: d in r <==> d in noCage && exists c :: c in inCage && d in Around(c)
  {
    r := [];
    for i := 0 to |inCage|
      invariant r == Adjacents(inCage[..i], noCage)
    {
      var near := UncagedNear(inCage[i], noCage);
      r := r + near;
      assert inCage[..i + 1][..i] == inCage[..i];
    }
    assert inCage[..|inCage|] == inCage;
    forall d
      ensures d in r <==> d in noCage && exists c :: c in inCage && d in Around(c)
    {
      AdjacentsMembers(inCage, noCage, d);
    }
  }

  // ---------------------------------------------------------------------
  // _connected

  /** Every uncaged neighbour of x is in seen. */
  ghost predicate Covers(x: Coord, noCage: seq<Coord>, seen: set<Coord>) {
    forall d :: d in Around(x) && d in noCage ==> d in seen
  }

  lemma CoversGrows(x: Coord, noCage: seq<Coord>, seen: set<Coord>, more: set<Coord>)
    requires Covers(x, noCage, seen) && seen <= more
    ensures Covers(x, noCage, more)
  {
  }

  /** S is closed under stepping to an uncaged neighbour. */
  ghost predicate Closed(S: set<Coord>, noCage: seq<Coord>) {
    forall x :: x in S ==> Covers(x, noCage, S)
  }

  /** The uncaged cells form one region around c: the only set of
      uncaged cells that holds c and is closed under stepping to an
      uncaged neighbour is the set of all of them. */
  ghost predicate Spans(c: Coord, noCage: seq<Coord>) {
    forall S :: c in S && S <= Elems(noCage) && Closed(S, noCage) ==> S == Elems(noCage)
  }

  lemma SameSize(A: set<Coord>, B: set<Coord>)
    requires A <= B && |A| == |B|
    ensures A == B
  {
    if x :| x in B && x !in A {
      SubsetSize(A, B - {x});
    }
  }

  lemma SmallerRest(N: set<Coord>, V: set<Coord>, W: set<Coord>, d: Coord)
    requires V <= W && d in N && d in W && d !in V
    ensures |N - W| < |N - V|
  {
    SubsetSize(N - W, N - V - {d});
  }

  /** The first loop of `_connected`: the uncaged neighbours of c not yet
      visited, in the order of Around, each marked as visited. */
  method Unvisited(c: Coord, noCage: seq<Coord>, visited: set<Coord>) returns (valid: seq<Coord>, seen: set<Coord>)
    ensures seen == visited + Elems(valid)
    ensures forall d :: d in valid ==> d in Around(c) && d in noCage && d !in visited
    ensures Covers(c, noCage, seen)
  {
    var around := Around(c);
    valid := [];
    seen := visited;
    for j := 0 to 4
      invariant seen == visited + Elems(valid)
      invariant forall d :: d in valid ==> d in around && d in noCage && d !in visited
      invariant forall d :: d in around[..j] && d in noCage ==> d in seen
    {
      if around[j] in noCage && around[j] !in seen {
        seen := seen + {around[j]};
        valid := valid + [around[j]];
      }
    }
    assert around[..4] == around;
  }

  /** `_connected(c, no_cage, visited)`: marks c and, depth first, every
      uncaged cell reachable from it through unvisited uncaged cells;
      the answer says whether as many cells are marked as noCage holds.
      The set visited, which the source updates in place and shares with
      the recursive calls, is passed in and handed back. */
  method Connected(c: Coord, noCage: seq<Coord>, visited: set<Coord>) returns (ok: bool, seen: set<Coord>)
    ensures visited + {c} <= seen <= visited + {c} + Elems(noCage)
    ensures forall x :: x in seen - visited + {c} ==> Covers(x, noCage, seen)
    ensures forall S :: c in S && Closed(S, noCage) ==> seen - visited <= S
    ensures ok <==> |seen| == |noCage|
    ensures visited == {} && c in noCage && Distinct(noCage) ==> (ok <==> Spans(c, noCage))
    decreases |Elems(noCage) - visited|, 1
  {
    var valid;
    valid, seen := Unvisited(c, noCage, visited);
    seen := VisitAll(c, noCage, visited, valid, seen + {c});
    ok := |seen| == |noCage|;
    if visited == {} && c in noCage && Distinct(noCage) {
      SpansIff(c, noCage, seen);
    }
  }

  /** The second loop of `_connected`: the recursive calls on the newly
      marked neighbours of c, one after the other, sharing the visited
      set. */
  method VisitAll(c: Coord, noCage: seq<Coord>, ghost visited: set<Coord>, valid: seq<Coord>, start: set<Coord>)
    returns (seen: set<Coord>)
    requires start == visited + Elems(valid) + {c} && Covers(c, noCage, start)
    requires forall d :: d in valid ==> d in Around(c) && d in noCage && d !in visited
    ensures visited + {c} <= seen <= visited + {c} + Elems(noCage)
    ensures forall x :: x in seen - visited + {c} ==> Covers(x, noCage, seen)
    ensures forall S :: c in S && Closed(S, noCage) ==> seen - visited <= S
    decreases |Elems(noCage) - visited|, 0
  {
    seen := start;
    for k := 0 to |valid|
      invariant start <= seen <= visited + {c} + Elems(noCage)
      invariant forall x :: x in seen - visited + {c} && x !in valid[k..] ==> Covers(x, noCage, seen)
      invariant forall S :: c in S && Closed(S, noCage) ==> seen - visited <= S
    {
      SmallerRest(Elems(noCage), visited, seen, valid[k]);
      ghost var before := seen;
      var _, after := Connected(valid[k], noCage, seen);
      seen := after;
      forall x | x in seen - visited + {c} && x !in valid[k + 1..]
        ensures Covers(x, noCage, seen)
      {
        if x in before - visited + {c} && x !in valid[k..] {
          CoversGrows(x, noCage, before, seen);
        }
      }
    }
  }

  /** With nothing visited beforehand, the marked cells are all the
      uncaged cells exactly when they form one region. */
  lemma SpansIff(c: Coord, noCage: seq<Coord>, seen: set<Coord>)
    requires c in noCage && Distinct(noCage)
    requires c in seen && seen <= Elems(noCage) + {c}
    requires forall x :: x in seen ==> Covers(x, noCage, seen)
    requires forall S :: c in S && Closed(S, noCage) ==> seen <= S
    ensures |seen| == |noCage| <==> Spans(c, noCage)
  {
    DistinctSize(noCage);
    var N := Elems(noCage);
    assert seen <= N;
    assert Closed(seen, noCage);
    if |seen| == |noCage| {
      SameSize(seen, N);
    }
    if Spans(c, noCage) {
      assert seen == N;
    }
  }
}
