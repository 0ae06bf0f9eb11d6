/** The Killer puzzle's `_connect_cages` as values: the members of every
    cage wired to one another, the residual of every column, row and box
    once the cages lying inside it are taken out, the indirect cages built
    from those residuals, and the closing pass of `update_valid_values`
    over the grid in row-major order. */
module Cages {
  import opened Grid
  import opened Board
  import opened Killer

  /** The cells of a cage. */
  function CageCells(cage: Cage): set<Coord>
  {
    set d | d in cage.coordinates
  }

  /** Every cage names distinct cells of the grid (the coordinates of a
      cage are documented as a set). */
  ghost predicate CagesWellFormed(cages: seq<Cage>) {
    forall k :: 0 <= k < |cages| ==> Distinct(cages[k].coordinates) && InGridAll(cages[k].coordinates)
  }

  /** No cell lies in two cages. */
  ghost predicate Disjoint(cages: seq<Cage>) {
    forall k, l :: 0 <= k < l < |cages| ==> CageCells(cages[k]) !! CageCells(cages[l])
  }

  // ---------------------------------------------------------------------
  // Wiring the direct cages

  /** The board once one cage is wired: each member carries the cage's sum
      and has every other member among its cage entries. */
  function Wire(b: Board, cage: Cage): (r: Board)
    ensures r.Keys == b.Keys
  {
    map d | d in b :: if d in cage.coordinates then b[d].(cageSum := cage.sum, cageEntries := b[d].cageEntries + (CageCells(cage) - {d})) else b[d]
  }

  /** The board once the cages are wired in turn. */
  function WireAll(b: Board, cages: seq<Cage>): (r: Board)
    ensures r.Keys == b.Keys
    decreases |cages|
  {
    if cages == [] then b else Wire(WireAll(b, cages[..|cages| - 1]), cages[|cages| - 1])
  }

  /** Cage entries go both ways. */
  ghost predicate MatesSymmetric(b: Board) {
    forall c, d :: c in b && d in b[c].cageEntries ==> d in b && c in b[d].cageEntries
  }

  /** Wiring keeps a board well-shaped, keeps cage entries symmetric, and
      touches neither values, candidates nor indirect cages. */
  lemma {:induction false} WireAllKeeps(b: Board, cages: seq<Cage>)
    requires Shape(b) && CagesWellFormed(cages)
    ensures var r := WireAll(b, cages);
      Shape(r)
      && (MatesSymmetric(b) ==> MatesSymmetric(r))
      && forall d :: d in b ==>
           r[d].value == b[d].value && r[d].candidates == b[d].candidates && r[d].indirectCages == b[d].indirectCages
    decreases |cages|
  {
    if cages != [] {
      var init := cages[..|cages| - 1];
      assert forall k :: 0 <= k < |init| ==> init[k] == cages[k];
      WireAllKeeps(b, init);
      var p := WireAll(b, init);
      var r := WireAll(b, cages);
      var cage := cages[|cages| - 1];
      assert InGridAll(cage.coordinates);
      assert CageCells(cage) <= AllCoords();
      if MatesSymmetric(b) {
        forall c, d | c in r && d in r[c].cageEntries
          ensures d in r && c in r[d].cageEntries
        {
          if d !in p[c].cageEntries {
            assert c in cage.coordinates && d in cage.coordinates;
          }
        }
      }
    }
  }

  /** With no cell in two cages, wiring gives each member of a cage that
      cage's sum and its other members, and leaves every other cell as it
      was. */
  lemma {:induction false} WireAllMembers(b: Board, cages: seq<Cage>)
    requires Disjoint(cages)
    ensures forall k, d :: 0 <= k < |cages| && d in b && d in cages[k].coordinates ==>
      WireAll(b, cages)[d] == b[d].(cageSum := cages[k].sum, cageEntries := b[d].cageEntries + (CageCells(cages[k]) - {d}))
    ensures forall d :: d in b && (forall k :: 0 <= k < |cages| ==> d !in cages[k].coordinates) ==>
      WireAll(b, cages)[d] == b[d]
    decreases |cages|
  {
    if cages != [] {
      var init := cages[..|cages| - 1];
      assert forall k :: 0 <= k < |init| ==> init[k] == cages[k];
      forall k, l | 0 <= k < l < |init|
        ensures CageCells(init[k]) !! CageCells(init[l])
      {
        assert CageCells(cages[k]) !! CageCells(cages[l]);
      }
      WireAllMembers(b, init);
      var last := cages[|cages| - 1];
      forall k, d | 0 <= k < |cages| - 1 && d in b && d in cages[k].coordinates
        ensures d !in last.coordinates
      {
        assert d in CageCells(cages[k]);
        assert CageCells(cages[k]) !! CageCells(last);
      }
    }
  }

  /** Cell d gets e among its cage entries: the source's
      `cage_entries.add`. */
  function Link(b: Board, d: Coord, e: Coord): (r: Board)
    requires d in b
    ensures r.Keys == b.Keys
  {
    b[d := b[d].(cageEntries := b[d].cageEntries + {e})]
  }

  /** The inner wiring loop, step by step: member m linked both ways to
      members 0 .. t - 1 in turn. */
  ghost function WireInner(e: Board, s: seq<Coord>, m: int, t: int): (r: Board)
    requires 0 <= t <= m < |s| && forall j :: 0 <= j < |s| ==> s[j] in e
    ensures r.Keys == e.Keys
    decreases t
  {
    if t == 0 then e
    else Link(Link(WireInner(e, s, m, t - 1), s[m], s[t - 1]), s[t - 1], s[m])
  }

  /** The cells of a sequence. */
  function Elems(s: seq<Coord>): set<Coord> {
    set d | d in s
  }

  /** The inner loop leaves member m linked to members 0 .. t - 1, each
      of those linked to m, and every other cell as it was. */
  lemma {:induction false} WireInnerAt(e: Board, s: seq<Coord>, m: int, t: int, d: Coord)
    requires Distinct(s) && 0 <= t <= m < |s| && (forall j :: 0 <= j < |s| ==> s[j] in e) && d in e
    ensures WireInner(e, s, m, t)[d]
      == e[d].(cageEntries := e[d].cageEntries + (if d == s[m] then Elems(s[..t]) else {}) + (if d in s[..t] then {s[m]} else {}))
    decreases t
  {
    if t > 0 {
      WireInnerAt(e, s, m, t - 1, d);
      assert s[..t] == s[..t - 1] + [s[t - 1]];
      assert Elems(s[..t]) == Elems(s[..t - 1]) + {s[t - 1]};
      assert s[m] != s[t - 1];
    } else {
      assert Elems(s[..0]) == {};
    }
  }

  /** The board once the outer wiring loop has done members 0 .. m - 1:
      each carries the cage sum and is wired to the others among them. */
  function WirePrefix(b: Board, cage: Cage, m: int): (r: Board)
    requires 0 <= m <= |cage.coordinates|
    ensures r.Keys == b.Keys
  {
    var done := Elems(cage.coordinates[..m]);
    map d | d in b :: if d in done then b[d].(cageSum := cage.sum, cageEntries := b[d].cageEntries + (done - {d})) else b[d]
  }

  /** One pass of the outer loop, at one cell. */
  lemma WirePrefixStepAt(b: Board, cage: Cage, m: int, d: Coord)
    requires Distinct(cage.coordinates) && 0 <= m < |cage.coordinates| && d in b
    requires forall j :: 0 <= j < |cage.coordinates| ==> cage.coordinates[j] in b
    ensures var s := cage.coordinates;
      var p := WirePrefix(b, cage, m);
      WirePrefix(b, cage, m + 1)[d] == WireInner(p[s[m] := p[s[m]].(cageSum := cage.sum)], s, m, m)[d]
  {
    var s := cage.coordinates;
    var p := WirePrefix(b, cage, m);
    var q := p[s[m] := p[s[m]].(cageSum := cage.sum)];
    assert s[..m + 1] == s[..m] + [s[m]];
    assert Elems(s[..m + 1]) == Elems(s[..m]) + {s[m]};
    assert s[m] !in s[..m];
    WireInnerAt(q, s, m, m, d);
  }

  /** One pass of the outer loop: member m takes the cage sum, then the
      inner loop wires it to members 0 .. m - 1. */
  lemma WirePrefixStep(b: Board, cage: Cage, m: int)
    requires Distinct(cage.coordinates) && 0 <= m < |cage.coordinates|
    requires forall j :: 0 <= j < |cage.coordinates| ==> cage.coordinates[j] in b
    ensures var s := cage.coordinates;
      var p := WirePrefix(b, cage, m);
      WirePrefix(b, cage, m + 1) == WireInner(p[s[m] := p[s[m]].(cageSum := cage.sum)], s, m, m)
  {
    forall d | d in b
      ensures var s := cage.coordinates;
        var p := WirePrefix(b, cage, m);
        WirePrefix(b, cage, m + 1)[d] == WireInner(p[s[m] := p[s[m]].(cageSum := cage.sum)], s, m, m)[d]
    {
      WirePrefixStepAt(b, cage, m, d);
    }
  }

  /** No member done: the board as it was; all done: the cage wired. */
  lemma WirePrefixEnds(b: Board, cage: Cage)
    ensures WirePrefix(b, cage, 0) == b
    ensures WirePrefix(b, cage, |cage.coordinates|) == Wire(b, cage)
  {
    assert Elems(cage.coordinates[..0]) == {};
    assert cage.coordinates[..|cage.coordinates|] == cage.coordinates;
  }

  // ---------------------------------------------------------------------
  // Residuals of the units

  /** Unit k of number i, as the source lists them: column i, row i and
      box i. */
  function Unit(i: int, k: int): (u: set<Coord>)
    requires 1 <= i <= 9 && 0 <= k < 3
  {
    if k == 0 then Column(i) else if k == 1 then Row(i) else Box(i)
  }

  /** Unit u of the 27, in the order the source visits them. */
  function UnitAt(u: nat): set<Coord>
    requires u < 27
  {
    Unit(u / 3 + 1, u % 3)
  }

  /** The source's unit k of number i is unit 3 * (i - 1) + k. */
  lemma UnitAtIs(i: int, k: int)
    requires 1 <= i <= 9 && 0 <= k < 3
    ensures UnitAt(3 * (i - 1) + k) == Unit(i, k)
  {
    var u := 3 * (i - 1) + k;
    assert u / 3 == i - 1 && u % 3 == k;
  }

  /** The residual of unit U once the cages are taken in turn: a cage
      lying wholly inside what is left is taken out of it, and its sum out
      of 45. */
  function Residual(U: set<Coord>, cages: seq<Cage>): (r: (set<Coord>, int))
    ensures r.0 <= U
    decreases |cages|
  {
    if cages == [] then (U, 45)
    else
      var prev := Residual(U, cages[..|cages| - 1]);
      var cc := CageCells(cages[|cages| - 1]);
      if cc <= prev.0 then (prev.0 - cc, prev.1 - cages[|cages| - 1].sum) else prev
  }

  /** Cage n set against the residual of the cages before it. */
  lemma ResidualNext(U: set<Coord>, cages: seq<Cage>, n: int)
    requires 0 <= n < |cages|
    ensures var prev := Residual(U, cages[..n]);
      Residual(U, cages[..n + 1])
      == if CageCells(cages[n]) <= prev.0 then (prev.0 - CageCells(cages[n]), prev.1 - cages[n].sum) else prev
  {
    assert cages[..n + 1][..n] == cages[..n];
  }

  /** The cells of the cages lying wholly inside U. */
  function Covered(U: set<Coord>, cages: seq<Cage>): set<Coord>
    decreases |cages|
  {
    if cages == [] then {}
    else Covered(U, cages[..|cages| - 1]) + (if CageCells(cages[|cages| - 1]) <= U then CageCells(cages[|cages| - 1]) else {})
  }

  /** The sums of the cages lying wholly inside U. */
  function CoveredSum(U: set<Coord>, cages: seq<Cage>): int
    decreases |cages|
  {
    if cages == [] then 0
    else CoveredSum(U, cages[..|cages| - 1]) + (if CageCells(cages[|cages| - 1]) <= U then cages[|cages| - 1].sum else 0)
  }

  lemma {:induction false} CoveredWithin(U: set<Coord>, cages: seq<Cage>, d: Coord)
    requires d in Covered(U, cages)
    ensures exists k :: 0 <= k < |cages| && d in CageCells(cages[k])
    decreases |cages|
  {
    var init := cages[..|cages| - 1];
    if d in Covered(U, init) {
      CoveredWithin(U, init, d);
      var k :| 0 <= k < |init| && d in CageCells(init[k]);
      assert init[k] == cages[k];
    }
  }

  /** With no cell in two cages, the residual of a unit is the unit less
      the cages lying inside it, with 45 less their sums: testing each cage
      against what is left finds exactly the cages inside the unit. */
  lemma {:induction false} ResidualOfDisjoint(U: set<Coord>, cages: seq<Cage>)
    requires Disjoint(cages)
    ensures Residual(U, cages) == (U - Covered(U, cages), 45 - CoveredSum(U, cages))
    decreases |cages|
  {
    if cages != [] {
      var init := cages[..|cages| - 1];
      var last := cages[|cages| - 1];
      assert forall k :: 0 <= k < |init| ==> init[k] == cages[k];
      forall k, l | 0 <= k < l < |init|
        ensures CageCells(init[k]) !! CageCells(init[l])
      {
        assert CageCells(cages[k]) !! CageCells(cages[l]);
      }
      ResidualOfDisjoint(U, init);
      forall d | d in Covered(U, init)
        ensures d !in CageCells(last)
      {
        CoveredWithin(U, init, d);
        var k :| 0 <= k < |init| && d in CageCells(init[k]);
        assert CageCells(cages[k]) !! CageCells(last);
      }
      var cc := CageCells(last);
      var cov := Covered(U, init);
      var prev := Residual(U, init);
      assert prev == (U - cov, 45 - CoveredSum(U, init));
      if cc <= U {
        assert cc <= U - cov;
        assert Residual(U, cages) == (prev.0 - cc, prev.1 - last.sum);
        assert Covered(U, cages) == cov + cc;
        assert CoveredSum(U, cages) == CoveredSum(U, init) + last.sum;
        assert U - cov - cc == U - (cov + cc);
      } else {
        assert !(cc <= U - cov);
        assert Residual(U, cages) == prev;
        assert Covered(U, cages) == cov;
        assert CoveredSum(U, cages) == CoveredSum(U, init);
      }
    } else {
      assert U - Covered(U, cages) == U;
    }
  }

  // ---------------------------------------------------------------------
  // Indirect cages

  /** A residual yields indirect cages when some but not all of its unit's
      nine cells are left. */
  predicate Qualifies(R: set<Coord>) {
    |R| != 9 && |R| != 0
  }

  /** The indirect cages given to cell d by the first |listings| units,
      the residual of unit u being listed as listings[u]. */
  function IndirectFor(d: Coord, cages: seq<Cage>, listings: seq<seq<Coord>>): seq<IndirectCage>
    requires |listings| <= 27
    decreases |listings|
  {
    if listings == [] then []
    else
      var u := |listings| - 1;
      var R := Residual(UnitAt(u), cages);
      IndirectFor(d, cages, listings[..u]) + (if Qualifies(R.0) && d in R.0 then [IndirectCage(R.1, listings[u])] else [])
  }

  /** Each listing lists, without repeats, the residual of its unit when
      that residual yields indirect cages. */
  ghost predicate Listed(cages: seq<Cage>, listings: seq<seq<Coord>>) {
    |listings| <= 27
    && forall u :: 0 <= u < |listings| && Qualifies(Residual(UnitAt(u), cages).0) ==>
         Distinct(listings[u]) && forall d :: d in listings[u] <==> d in Residual(UnitAt(u), cages).0
  }

  /** The board once each cell has its indirect cages appended. */
  function Attached(b: Board, cages: seq<Cage>, listings: seq<seq<Coord>>): (r: Board)
    requires |listings| <= 27
    ensures r.Keys == b.Keys
  {
    map d | d in b :: b[d].(indirectCages := b[d].indirectCages + IndirectFor(d, cages, listings))
  }

  /** The board once the cells of R have the indirect cage ic appended. */
  function AddTo(b: Board, R: set<Coord>, ic: IndirectCage): (r: Board)
    ensures r.Keys == b.Keys
  {
    map d | d in b :: if d in R then b[d].(indirectCages := b[d].indirectCages + [ic]) else b[d]
  }

  /** One more unit listed. */
  lemma ListedStep(cages: seq<Cage>, listings: seq<seq<Coord>>, l: seq<Coord>)
    requires Listed(cages, listings) && |listings| < 27
    requires Qualifies(Residual(UnitAt(|listings|), cages).0) ==>
      Distinct(l) && forall d :: d in l <==> d in Residual(UnitAt(|listings|), cages).0
    ensures Listed(cages, listings + [l])
  {
    var L := listings + [l];
    assert forall u :: 0 <= u < |listings| ==> L[u] == listings[u];
  }

  /** One more unit visited. */
  lemma AttachedStep(b: Board, cages: seq<Cage>, listings: seq<seq<Coord>>, l: seq<Coord>)
    requires |listings| < 27
    ensures var R := Residual(UnitAt(|listings|), cages);
      Attached(b, cages, listings + [l])
      == if Qualifies(R.0) then AddTo(Attached(b, cages, listings), R.0, IndirectCage(R.1, l)) else Attached(b, cages, listings)
  {
    var L := listings + [l];
    assert L[..|listings|] == listings;
    var R := Residual(UnitAt(|listings|), cages);
    var p := Attached(b, cages, listings);
    var r := if Qualifies(R.0) then AddTo(p, R.0, IndirectCage(R.1, l)) else p;
    forall d | d in b
      ensures Attached(b, cages, L)[d] == r[d]
    {
      assert IndirectFor(d, cages, L) == IndirectFor(d, cages, listings) + (if Qualifies(R.0) && d in R.0 then [IndirectCage(R.1, l)] else []);
    }
  }

  lemma {:induction false} DistinctSize(s: seq<Coord>)
    requires Distinct(s)
    ensures |set d | d in s| == |s|
    decreases |s|
  {
    if s != [] {
      var init := s[..|s| - 1];
      DistinctSize(init);
      assert (set d | d in s) == (set d | d in init) + {s[|s| - 1]};
    }
  }

  /** Each of the 27 units has nine cells of the grid. */
  lemma UnitSize(u: nat)
    requires u < 27
    ensures |UnitAt(u)| == 9 && UnitAt(u) <= AllCoords()
  {
    var i, k := u / 3 + 1, u % 3;
    if k == 0 {
      ColumnSize(i);
    } else if k == 1 {
      RowSize(i);
    } else {
      var c := ((i - 1) % 3 * 3 + 1, (i - 1) / 3 * 3 + 1);
      BoxStartOf(c.0, c.0);
      BoxStartOf(c.1, c.1);
      assert Box(i) == BoxOf(c);
      BoxSize(c);
    }
  }

  /** The indirect cage ic, given to cell d, lists without repeats the
      residual of a unit holding d, has between one and eight members, and
      carries that residual's sum. */
  ghost predicate FromResidual(ic: IndirectCage, d: Coord, cages: seq<Cage>, listings: seq<seq<Coord>>)
    requires |listings| <= 27
  {
    Distinct(ic.entries) && d in ic.entries && 1 <= |ic.entries| <= 8 && InGridAll(ic.entries)
    && exists u :: 0 <= u < |listings| && ic.entries == listings[u] && ic.sum == Residual(UnitAt(u), cages).1
         && (forall e :: e in ic.entries <==> e in Residual(UnitAt(u), cages).0)
  }

  lemma {:induction false} SubsetSize(A: set<Coord>, B: set<Coord>)
    requires A <= B
    ensures |A| <= |B|
    decreases |A|
  {
    if A != {} {
      var x :| x in A;
      SubsetSize(A - {x}, B - {x});
    }
  }

  /** A cell of a qualifying residual gets that residual's cage. */
  lemma FromResidualNew(d: Coord, cages: seq<Cage>, listings: seq<seq<Coord>>, u: nat)
    requires Listed(cages, listings) && u < |listings|
    requires Qualifies(Residual(UnitAt(u), cages).0) && d in Residual(UnitAt(u), cages).0
    ensures FromResidual(IndirectCage(Residual(UnitAt(u), cages).1, listings[u]), d, cages, listings)
  {
    var R := Residual(UnitAt(u), cages);
    var l := listings[u];
    DistinctSize(l);
    assert (set e | e in l) == R.0;
    UnitSize(u);
    SubsetSize(R.0, UnitAt(u));
  }

  /** A cage drawn from the first units is drawn from the units. */
  lemma FromResidualPrefix(ic: IndirectCage, d: Coord, cages: seq<Cage>, listings: seq<seq<Coord>>, n: nat)
    requires |listings| <= 27 && n <= |listings|
    requires FromResidual(ic, d, cages, listings[..n])
    ensures FromResidual(ic, d, cages, listings)
  {
    var w :| 0 <= w < n && ic.entries == listings[..n][w] && ic.sum == Residual(UnitAt(w), cages).1
             && (forall e :: e in ic.entries <==> e in Residual(UnitAt(w), cages).0);
  }

  /** Every indirect cage given to a cell comes from the residual of one
      of its units. */
  lemma {:induction false} IndirectForSpec(d: Coord, cages: seq<Cage>, listings: seq<seq<Coord>>)
    requires Listed(cages, listings)
    ensures forall k :: 0 <= k < |IndirectFor(d, cages, listings)| ==>
      FromResidual(IndirectFor(d, cages, listings)[k], d, cages, listings)
    decreases |listings|
  {
    if listings != [] {
      var u := |listings| - 1;
      var init := listings[..u];
      IndirectForSpec(d, cages, init);
      var R := Residual(UnitAt(u), cages);
      var ics := IndirectFor(d, cages, listings);
      var pre := IndirectFor(d, cages, init);
      forall k | 0 <= k < |ics|
        ensures FromResidual(ics[k], d, cages, listings)
      {
        if k < |pre| {
          assert ics[k] == pre[k];
          FromResidualPrefix(pre[k], d, cages, listings, u);
        } else {
          FromResidualNew(d, cages, listings, u);
        }
      }
    }
  }

  /** Appending the indirect cages keeps a board well-shaped and touches
      nothing else. */
  lemma AttachedKeeps(b: Board, cages: seq<Cage>, listings: seq<seq<Coord>>)
    requires Shape(b) && Listed(cages, listings)
    ensures var r := Attached(b, cages, listings);
      Shape(r)
      && forall d :: d in b ==>
           r[d].value == b[d].value && r[d].candidates == b[d].candidates
           && r[d].cageSum == b[d].cageSum && r[d].cageEntries == b[d].cageEntries
  {
    forall d | d in b
      ensures WellFormed(Attached(b, cages, listings)[d].indirectCages)
    {
      IndirectForSpec(d, cages, listings);
    }
  }

  // ---------------------------------------------------------------------
  // The closing pass of update_valid_values

  /** The board once `update_valid_values` has run on the first |orders|
      cells in row-major order, the cage mates of the j-th being listed as
      orders[j]. */
  ghost function UpdatedEach(b: Board, orders: seq<seq<Coord>>): (r: Board)
    requires Shape(b) && |orders| <= 81 && forall j :: 0 <= j < |orders| ==> InGridAll(orders[j])
    ensures Shape(r)
    decreases |orders|
  {
    if orders == [] then b
    else
      var n := |orders| - 1;
      var p := UpdatedEach(b, orders[..n]);
      UpdatedKeepsShape(p, CoordAt(n), orders[n]);
      Updated(p, CoordAt(n), orders[n])
  }

  /** orders[j] lists, without repeats, the cage mates of the j-th cell
      in row-major order. */
  ghost predicate ListsMates(b: Board, orders: seq<seq<Coord>>)
    requires b.Keys == AllCoords()
  {
    |orders| <= 81
    && forall j :: 0 <= j < |orders| ==>
         InGridAll(orders[j]) && Distinct(orders[j]) && forall d :: d in orders[j] <==> d in b[CoordAt(j)].cageEntries
  }

  /** One more cell's mates listed. */
  lemma ListsMatesStep(b: Board, orders: seq<seq<Coord>>, order: seq<Coord>)
    requires b.Keys == AllCoords() && ListsMates(b, orders) && |orders| < 81
    requires InGridAll(order) && Distinct(order) && forall d :: d in order <==> d in b[CoordAt(|orders|)].cageEntries
    ensures ListsMates(b, orders + [order])
  {
    var o := orders + [order];
    assert forall j :: 0 <= j < |orders| ==> o[j] == orders[j];
  }

  /** One more cell updated. */
  lemma UpdatedEachStep(b: Board, orders: seq<seq<Coord>>, order: seq<Coord>)
    requires Shape(b) && |orders| < 81 && (forall j :: 0 <= j < |orders| ==> InGridAll(orders[j])) && InGridAll(order)
    ensures forall j :: 0 <= j < |orders + [order]| ==> InGridAll((orders + [order])[j])
    ensures UpdatedEach(b, orders + [order]) == Updated(UpdatedEach(b, orders), CoordAt(|orders|), order)
  {
    assert (orders + [order])[..|orders|] == orders;
  }

  /** The pass keeps every value and every cage of each cell, only narrows
      candidates, and keeps a sound board sound. */
  lemma {:induction false} UpdatedEachKeeps(b: Board, orders: seq<seq<Coord>>)
    requires Shape(b) && |orders| <= 81 && forall j :: 0 <= j < |orders| ==> InGridAll(orders[j])
    ensures var r := UpdatedEach(b, orders);
      (forall d :: d in b ==>
         r[d].value == b[d].value && r[d].candidates <= b[d].candidates
         && r[d].cageSum == b[d].cageSum && r[d].cageEntries == b[d].cageEntries)
      && (Sound(b) ==> Sound(r) && Extends(b, r))
    decreases |orders|
  {
    if orders != [] {
      var n := |orders| - 1;
      var init := orders[..n];
      assert forall j :: 0 <= j < n ==> init[j] == orders[j];
      UpdatedEachKeeps(b, init);
      var p := UpdatedEach(b, init);
      UpdatedKeepsShape(p, CoordAt(n), orders[n]);
      if Sound(b) {
        UpdatedKeepsSound(p, CoordAt(n), orders[n]);
      }
    }
  }

  // ---------------------------------------------------------------------
  // The whole of _connect_cages

  /** The board `_connect_cages` leaves: the cages wired, the indirect
      cages appended (the residual of unit u listed as listings[u]), and
      `update_valid_values` run on every cell in row-major order (the cage
      mates of the j-th listed as orders[j]). */
  ghost function Connected(b: Board, cages: seq<Cage>, listings: seq<seq<Coord>>, orders: seq<seq<Coord>>): (r: Board)
    requires Shape(b) && CagesWellFormed(cages) && Listed(cages, listings)
    requires |orders| <= 81 && forall j :: 0 <= j < |orders| ==> InGridAll(orders[j])
    ensures Shape(r)
  {
    WireAllKeeps(b, cages);
    AttachedKeeps(WireAll(b, cages), cages, listings);
    UpdatedEach(Attached(WireAll(b, cages), cages, listings), orders)
  }

  /** `_connect_cages` keeps every value, only narrows candidates, leaves
      each cell the cage sum and cage entries the wiring gives it, keeps
      cage entries symmetric, and keeps a sound board sound. */
  lemma ConnectedKeeps(b: Board, cages: seq<Cage>, listings: seq<seq<Coord>>, orders: seq<seq<Coord>>)
    requires Shape(b) && CagesWellFormed(cages) && Listed(cages, listings)
    requires |orders| <= 81 && forall j :: 0 <= j < |orders| ==> InGridAll(orders[j])
    ensures var r := Connected(b, cages, listings, orders);
      var w := WireAll(b, cages);
      (forall d :: d in b ==>
         r[d].value == b[d].value && r[d].candidates <= b[d].candidates
         && r[d].cageSum == w[d].cageSum && r[d].cageEntries == w[d].cageEntries)
      && (MatesSymmetric(b) ==> MatesSymmetric(r))
      && (Sound(b) ==> Sound(r) && Extends(b, r))
  {
    var w := WireAll(b, cages);
    WireAllKeeps(b, cages);
    var a := Attached(w, cages, listings);
    AttachedKeeps(w, cages, listings);
    UpdatedEachKeeps(a, orders);
    var r := Connected(b, cages, listings, orders);
    if Sound(b) {
      assert Sound(a) by {
        assert forall d :: d in b ==> a[d].value == b[d].value && a[d].candidates == b[d].candidates;
      }
    }
  }
}
