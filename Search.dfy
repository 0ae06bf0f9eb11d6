/** How the solver chooses its next move: hidden singles and the scan of
    the board for the most constrained empty cell. */
module Search {
  import opened Grid
  import opened Board

  /** No other cell of c's row, column or box lists v as a candidate. */
  predicate RowUnique(b: Board, c: Coord, v: int)
    requires b.Keys == AllCoords() && InGrid(c)
  {
    forall i :: 1 <= i <= 9 && i != c.0 ==> v !in b[(i, c.1)].candidates
  }

  predicate ColumnUnique(b: Board, c: Coord, v: int)
    requires b.Keys == AllCoords() && InGrid(c)
  {
    forall j :: 1 <= j <= 9 && j != c.1 ==> v !in b[(c.0, j)].candidates
  }

  predicate BoxUnique(b: Board, c: Coord, v: int)
    requires b.Keys == AllCoords() && InGrid(c)
  {
    forall k1, k2 ::
      BoxStart(c.0) <= k1 < BoxStart(c.0) + 3 && BoxStart(c.1) <= k2 < BoxStart(c.1) + 3 && (k1 != c.0 || k2 != c.1)
      ==> v !in b[(k1, k2)].candidates
  }

  /** v is a candidate of c that no other cell of its row, or of its
      column, or of its box can take. */
  predicate HiddenSingle(b: Board, c: Coord, v: int)
    requires b.Keys == AllCoords() && InGrid(c)
  {
    v in b[c].candidates && (RowUnique(b, c, v) || ColumnUnique(b, c, v) || BoxUnique(b, c, v))
  }

  /** `_unique_valid_value`: the candidates of c are tried one at a time,
      in the order the set yields them, and the first hidden single is
      returned. */
  method UniqueValidValue(b: Board, c: Coord) returns (r: Option<int>)
    requires b.Keys == AllCoords() && InGrid(c)
    ensures r.Some? ==> HiddenSingle(b, c, r.value)
    ensures r.None? ==> forall v :: !HiddenSingle(b, c, v)
  {
    var todo := b[c].candidates;
    while todo != {}
      invariant todo <= b[c].candidates
      invariant forall v :: v in b[c].candidates && v !in todo ==> !HiddenSingle(b, c, v)
      decreases todo
    {
      ghost var w := Pick(todo);
      var v :| v in todo;
      if HiddenSingle(b, c, v) {
        return Some(v);
      }
      todo := todo - {v};
    }
    return None;
  }

  /** c has a hidden single. */
  ghost predicate HasHidden(b: Board, c: Coord)
    requires b.Keys == AllCoords() && InGrid(c)
  {
    exists v :: HiddenSingle(b, c, v)
  }

  /** What the search returns: the board is filled, or the next cell to
      work on with its hidden single, if it is one. */
  datatype Choice = Filled | Next(cell: Coord, unique: Option<int>)

  /** An empty cell the solver acts on at once: it is dead (no
      candidates), forced (one candidate) or has a hidden single. */
  ghost predicate Informative(b: Board, c: Coord)
    requires b.Keys == AllCoords() && InGrid(c)
  {
    b[c].value.None? && (|b[c].candidates| <= 1 || HasHidden(b, c))
  }

  /** Cell d comes before position (x, y) in row-major order; x runs up
      to 10, the position after the last cell of row y. */
  predicate Before(d: Coord, x: int, y: int) {
    d.1 < y || (d.1 == y && d.0 < x)
  }

  /** Every cell before position (x, y) holds a value. */
  ghost predicate FilledBefore(b: Board, x: int, y: int)
    requires b.Keys == AllCoords()
  {
    forall d :: InGrid(d) && Before(d, x, y) ==> b[d].value.Some?
  }

  /** No cell before position (x, y) is dead, forced or a hidden single. */
  ghost predicate QuietBefore(b: Board, x: int, y: int)
    requires b.Keys == AllCoords()
  {
    forall d :: InGrid(d) && Before(d, x, y) ==> !Informative(b, d)
  }

  /** `best` is the first of the empty cells before position (x, y) with
      the fewest candidates. */
  ghost predicate FewestSoFar(b: Board, x: int, y: int, best: Coord)
    requires b.Keys == AllCoords()
  {
    InGrid(best) && Before(best, x, y) && b[best].value.None?
    && forall d :: InGrid(d) && Before(d, x, y) && b[d].value.None? ==>
         |b[best].candidates| <= |b[d].candidates|
         && (Before(d, best.0, best.1) ==> |b[best].candidates| < |b[d].candidates|)
  }

  /** Moving past cell (x, y) adds that one cell to the ones before. */
  lemma StepBefore(b: Board, x: int, y: int)
    requires b.Keys == AllCoords() && InGrid((x, y))
    ensures FilledBefore(b, x + 1, y) <==> FilledBefore(b, x, y) && b[(x, y)].value.Some?
    ensures QuietBefore(b, x + 1, y) <==> QuietBefore(b, x, y) && !Informative(b, (x, y))
  {
    assert forall d :: InGrid(d) ==> (Before(d, x + 1, y) <==> Before(d, x, y) || d == (x, y));
  }

  /** The fallback stays the first empty cell with the fewest candidates. */
  lemma StepFewest(b: Board, x: int, y: int, best: Option<Coord>, next: Coord)
    requires b.Keys == AllCoords() && InGrid((x, y))
    requires best.Some? ==> FewestSoFar(b, x, y, best.value)
    requires best.None? ==> FilledBefore(b, x, y)
    requires b[(x, y)].value.None? ==>
      next == if best.None? || |b[(x, y)].candidates| < |b[best.value].candidates| then (x, y) else best.value
    requires b[(x, y)].value.Some? ==> best.Some? && next == best.value
    ensures FewestSoFar(b, x + 1, y, next)
  {
    assert forall d :: InGrid(d) ==> (Before(d, x + 1, y) <==> Before(d, x, y) || d == (x, y));
  }

  /** The end of row y is the start of row y + 1. */
  lemma RowEnd(b: Board, y: int)
    requires b.Keys == AllCoords()
    ensures FilledBefore(b, 10, y) <==> FilledBefore(b, 1, y + 1)
    ensures QuietBefore(b, 10, y) <==> QuietBefore(b, 1, y + 1)
    ensures forall best :: FewestSoFar(b, 10, y, best) <==> FewestSoFar(b, 1, y + 1, best)
  {
    assert forall d :: InGrid(d) ==> (Before(d, 10, y) <==> Before(d, 1, y + 1));
  }

  /** Every cell of the grid comes before position (1, 10), and none before
      position (1, 1). */
  lemma Ends(b: Board)
    requires b.Keys == AllCoords()
    ensures FilledBefore(b, 1, 10) <==> forall d :: d in b ==> b[d].value.Some?
    ensures QuietBefore(b, 1, 10) <==> forall d :: d in b ==> !Informative(b, d)
    ensures FilledBefore(b, 1, 1) && QuietBefore(b, 1, 1)
  {
  }

  /** `_search`: the cells are visited in row-major order.  The first
      empty cell that is dead, forced or has a hidden single is returned
      with that hidden single; if none is, the board is `Filled` when all
      81 cells hold values, and otherwise the result is the first empty
      cell with the fewest candidates. */
  method SearchBoard(b: Board) returns (r: Choice)
    requires b.Keys == AllCoords()
    ensures r == Filled <==> forall c :: c in b ==> b[c].value.Some?
    ensures r.Next? ==> InGrid(r.cell) && b[r.cell].value.None?
    ensures r.Next? && Informative(b, r.cell) ==>
      QuietBefore(b, r.cell.0, r.cell.1)
      && (r.unique.Some? ==> HiddenSingle(b, r.cell, r.unique.value))
      && (r.unique.None? ==> |b[r.cell].candidates| <= 1 && !HasHidden(b, r.cell))
    ensures r.Next? && !Informative(b, r.cell) ==>
      r.unique == None && QuietBefore(b, 1, 10) && FewestSoFar(b, 1, 10, r.cell)
  {
    var best: Option<Coord> := None;
    var filled := 0;
    Ends(b);
    for y := 1 to 10
      invariant filled <= (y - 1) * 9
      invariant filled == (y - 1) * 9 <==> FilledBefore(b, 1, y)
      invariant best.Some? ==> FewestSoFar(b, 1, y, best.value)
      invariant best.None? ==> FilledBefore(b, 1, y)
      invariant QuietBefore(b, 1, y)
    {
      for x := 1 to 10
        invariant filled <= (y - 1) * 9 + (x - 1)
        invariant filled == (y - 1) * 9 + (x - 1) <==> FilledBefore(b, x, y)
        invariant best.Some? ==> FewestSoFar(b, x, y, best.value)
        invariant best.None? ==> FilledBefore(b, x, y)
        invariant QuietBefore(b, x, y)
      {
        var c := (x, y);
        StepBefore(b, x, y);
        if b[c].value.None? {
          var n := |b[c].candidates|;
          var u := UniqueValidValue(b, c);
          if n == 0 {
            return Next(c, None);
          } else if n == 1 || u.Some? {
            return Next(c, u);
          }
          var next := if best.None? || n < |b[best.value].candidates| then c else best.value;
          StepFewest(b, x, y, best, next);
          best := Some(next);
        } else {
          if best.Some? {
            StepFewest(b, x, y, best, best.value);
          }
          filled := filled + 1;
        }
      }
      RowEnd(b, y);
    }
    if filled == 81 {
      return Filled;
    }
    return Next(best.value, None);
  }
}
