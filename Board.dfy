/** The board as a value: one record per cell, keyed by coordinate.

    A vertex of the source's graph becomes a `Cell` and a reference to a
    vertex becomes its coordinate; the edges are `Grid.Peers`.  A saved
    board (the solver's deep copies) is just a `Board` value.  The Classic
    variant leaves the cage fields of every cell at their defaults. */
module Board {
  import opened Grid

  datatype Option<T> = None | Some(value: T)

  /** A cage of a Killer puzzle: the required sum and the member cells. */
  datatype Cage = Cage(sum: int, coordinates: seq<Coord>)

  /** An implicit cage: the cells of a row, column or box that lie in no
      cage wholly inside it, with the sum they must make up. */
  datatype IndirectCage = IndirectCage(sum: int, entries: seq<Coord>)

  /** One entry of the puzzle: its value (None while empty), the values it
      may still take, and, for Killer puzzles, the sum of its cage, the
      other members of that cage and the indirect cages it belongs to. */
  datatype Cell = Cell(value: Option<int>, candidates: set<int>,
                       cageSum: int, cageEntries: set<Coord>, indirectCages: seq<IndirectCage>)

  type Board = map<Coord, Cell>

  /** A freshly created entry. */
  const EmptyCell: Cell := Cell(None, Digits, 0, {}, [])

  predicate Assigned(b: Board, c: Coord)
    requires c in b
  {
    b[c].value.Some?
  }

  /** A board holds the 81 cells, and its cage bookkeeping names cells of
      the grid: no cell is its own cage mate and the members of each
      indirect cage are distinct cells of the grid. */
  ghost predicate Shape(b: Board) {
    b.Keys == AllCoords()
    && forall c :: c in b ==>
         b[c].cageEntries <= AllCoords() && c !in b[c].cageEntries && WellFormed(b[c].indirectCages)
  }

  /** The members of each indirect cage are distinct cells of the grid. */
  ghost predicate WellFormed(ics: seq<IndirectCage>) {
    forall k :: 0 <= k < |ics| ==> Distinct(ics[k].entries) && InGridAll(ics[k].entries)
  }

  predicate InGridAll(s: seq<Coord>) {
    forall j :: 0 <= j < |s| ==> InGrid(s[j])
  }

  predicate Distinct<T(==)>(s: seq<T>) {
    forall i, j :: 0 <= i < j < |s| ==> s[i] != s[j]
  }

  /** Everything the solver relies on: values and candidates are digits,
      an assigned cell has no candidates, no two assigned peers hold the
      same value, and no empty cell keeps an assigned peer's value as a
      candidate. */
  ghost predicate Sound(b: Board) {
    Shape(b) && DigitsOnly(b) && PeersDiffer(b) && PeersStruck(b)
  }

  ghost predicate DigitsOnly(b: Board) {
    (forall c :: c in b ==> b[c].candidates <= Digits)
    && (forall c :: c in b && b[c].value.Some? ==> b[c].value.value in Digits && b[c].candidates == {})
  }

  /** No two assigned peers hold the same value. */
  ghost predicate PeersDiffer(b: Board)
    requires b.Keys == AllCoords()
  {
    forall c, d :: c in b && d in Peers(c) && b[c].value.Some? && b[d].value.Some? ==> b[c].value != b[d].value
  }

  /** No empty cell keeps an assigned peer's value as a candidate. */
  ghost predicate PeersStruck(b: Board)
    requires b.Keys == AllCoords()
  {
    forall c, d :: c in b && d in Peers(c) && b[c].value.Some? && b[d].value.None? ==> b[c].value.value !in b[d].candidates
  }

  /** Every cell holds a value. */
  ghost predicate Complete(b: Board) {
    forall c :: c in b ==> b[c].value.Some?
  }

  /** Board b2 keeps every value b1 holds. */
  ghost predicate Extends(b1: Board, b2: Board) {
    b1.Keys <= b2.Keys && forall c :: c in b1 && b1[c].value.Some? ==> b2[c].value == b1[c].value
  }

  /** The values held by the assigned peers of c. */
  function HeldByPeers(b: Board, c: Coord): set<int>
    requires b.Keys == AllCoords() && InGrid(c)
  {
    set v | v in Digits && exists d :: d in Peers(c) && b[d].value == Some(v)
  }

  /** The solved-grid property: every row, column and box holds each digit. */
  ghost predicate FilledOut(b: Board)
    requires b.Keys == AllCoords()
  {
    forall c :: InGrid(c) ==> HoldsAll(b, Row(c.1)) && HoldsAll(b, Column(c.0)) && HoldsAll(b, BoxOf(c))
  }

  /** Some cell of U holds each digit. */
  ghost predicate HoldsAll(b: Board, U: set<Coord>)
    requires U <= b.Keys
  {
    forall v :: v in Digits ==> exists d :: d in U && b[d].value == Some(v)
  }

  /** A board whose cage bookkeeping is that of a well-shaped board is
      well-shaped. */
  lemma ShapeKept(b: Board, r: Board)
    requires Shape(b) && r.Keys == b.Keys
    requires forall c :: c in b ==> r[c].cageEntries == b[c].cageEntries && r[c].indirectCages == b[c].indirectCages
    ensures Shape(r)
  {
  }

  /** The board after the Killer puzzle's `clear`: every cell as freshly
      created, with no value, all digits, and no cage. */
  function Blank(b: Board): (r: Board)
    ensures r.Keys == b.Keys
  {
    map d | d in b :: EmptyCell
  }

  /** A blank grid is sound, and holds no value. */
  lemma BlankIsSound(b: Board)
    requires b.Keys == AllCoords()
    ensures Sound(Blank(b)) && forall c :: c in b ==> Blank(b)[c].value.None? && Blank(b)[c].candidates == Digits
  {
  }

  /** `Blank` with the cells in T not yet visited. */
  ghost function BlankExcept(b: Board, T: set<Coord>): (r: Board)
    ensures r.Keys == b.Keys
  {
    map d | d in b :: if d in T then b[d] else EmptyCell
  }

  lemma BlankExceptEnds(b: Board)
    ensures BlankExcept(b, b.Keys) == b && BlankExcept(b, {}) == Blank(b)
  {
    var r := BlankExcept(b, b.Keys);
    assert forall u :: u in r ==> r[u] == b[u];
  }

  lemma BlankExceptStep(b: Board, T: set<Coord>, d: Coord)
    requires d in T && T <= b.Keys
    ensures BlankExcept(b, T)[d] == b[d]
    ensures BlankExcept(b, T - {d}) == BlankExcept(b, T)[d := EmptyCell]
  {
    var r := BlankExcept(b, T - {d});
    var f := BlankExcept(b, T)[d := EmptyCell];
    assert forall u :: u in r ==> r[u] == f[u];
  }

  /** r differs from b only in candidates, and only by losing some. */
  ghost predicate Narrower(b: Board, r: Board) {
    r.Keys == b.Keys
    && forall c :: c in b ==> r[c] == b[c].(candidates := r[c].candidates) && r[c].candidates <= b[c].candidates
  }

  lemma NarrowerTrans(a: Board, b: Board, c: Board)
    requires Narrower(a, b) && Narrower(b, c)
    ensures Narrower(a, c)
  {
  }

  /** Removing candidates keeps a board sound and keeps every value. */
  lemma NarrowerKeepsSound(b: Board, r: Board)
    requires Sound(b) && Narrower(b, r)
    ensures Sound(r) && Extends(b, r)
  {
    ShapeKept(b, r);
    assert forall c :: c in b ==> r[c].value == b[c].value;
  }

  /** The values held by the cells of U. */
  ghost function ValuesOf(b: Board, U: set<Coord>): set<int>
    requires U <= b.Keys && forall d :: d in U ==> b[d].value.Some?
  {
    set d | d in U :: b[d].value.value
  }

  /** Cells holding pairwise different values hold as many values as there
      are cells. */
  lemma {:induction false} ValuesOfCount(b: Board, U: set<Coord>)
    requires U <= b.Keys && forall d :: d in U ==> b[d].value.Some?
    requires forall d, e :: d in U && e in U && d != e ==> b[d].value != b[e].value
    ensures |ValuesOf(b, U)| == |U|
    decreases U
  {
    if U != {} {
      var a := Pick(U);
      var rest := U - {a};
      ValuesOfCount(b, rest);
      assert ValuesOf(b, U) == ValuesOf(b, rest) + {b[a].value.value};
      assert b[a].value.value !in ValuesOf(b, rest);
    }
  }

  /** Nine cells of a complete board holding pairwise different digits
      hold every digit. */
  lemma UnitHoldsAll(b: Board, U: set<Coord>)
    requires U <= b.Keys && |U| == 9 && forall d :: d in U ==> b[d].value.Some? && b[d].value.value in Digits
    requires forall d, e :: d in U && e in U && d != e ==> b[d].value != b[e].value
    ensures HoldsAll(b, U)
  {
    ValuesOfCount(b, U);
    var vs := ValuesOf(b, U);
    assert vs <= Digits;
    assert |Digits - vs| == |Digits| - |vs|;
    assert Digits - vs == {};
    forall v | v in Digits
      ensures exists d :: d in U && b[d].value == Some(v)
    {
      assert v in vs;
    }
  }

  lemma RowSize(y: int)
    requires 1 <= y <= 9
    ensures |Row(y)| == 9
  {
    RowImageCount(Digits, y);
    var r := set k | k in Digits :: (k, y);
    forall d | d in Row(y) ensures d in r {
      assert d.0 in Digits;
      assert d == (d.0, y);
    }
    assert Row(y) == r;
  }

  lemma ColumnSize(x: int)
    requires 1 <= x <= 9
    ensures |Column(x)| == 9
  {
    ColumnImageCount(Digits, x);
    var r := set k | k in Digits :: (x, k);
    forall d | d in Column(x) ensures d in r {
      assert d.1 in Digits;
      assert d == (x, d.1);
    }
    assert Column(x) == r;
  }

  lemma BoxSize(c: Coord)
    requires InGrid(c)
    ensures |BoxOf(c)| == 9
  {
    var a, e := BoxStart(c.0), BoxStart(c.1);
    var box := {(a, e), (a + 1, e), (a + 2, e), (a, e + 1), (a + 1, e + 1), (a + 2, e + 1),
                (a, e + 2), (a + 1, e + 2), (a + 2, e + 2)};
    assert |box| == 9;
    forall d | d in BoxOf(c) ensures d in box {
      assert a <= d.0 < a + 3 && e <= d.1 < e + 3;
    }
    forall d | d in box ensures d in BoxOf(c) {
      BoxStartOf(d.0, a);
      BoxStartOf(d.1, e);
    }
    assert BoxOf(c) == box;
  }

  lemma RowFilled(b: Board, y: int)
    requires b.Keys == AllCoords() && DigitsOnly(b) && PeersDiffer(b) && Complete(b) && 1 <= y <= 9
    ensures HoldsAll(b, Row(y))
  {
    RowSize(y);
    forall d, e | d in Row(y) && e in Row(y) && d != e
      ensures b[d].value != b[e].value
    {
      PeersAreUnits(d);
    }
    UnitHoldsAll(b, Row(y));
  }

  lemma ColumnFilled(b: Board, x: int)
    requires b.Keys == AllCoords() && DigitsOnly(b) && PeersDiffer(b) && Complete(b) && 1 <= x <= 9
    ensures HoldsAll(b, Column(x))
  {
    ColumnSize(x);
    forall d, e | d in Column(x) && e in Column(x) && d != e
      ensures b[d].value != b[e].value
    {
      PeersAreUnits(d);
    }
    UnitHoldsAll(b, Column(x));
  }

  lemma BoxFilled(b: Board, c: Coord)
    requires b.Keys == AllCoords() && DigitsOnly(b) && PeersDiffer(b) && Complete(b) && InGrid(c)
    ensures HoldsAll(b, BoxOf(c))
  {
    BoxSize(c);
    forall d, e | d in BoxOf(c) && e in BoxOf(c) && d != e
      ensures b[d].value != b[e].value
    {
      PeersAreUnits(d);
      assert e in BoxOf(d);
    }
    UnitHoldsAll(b, BoxOf(c));
  }

  /** A complete sound board is a solved grid. */
  lemma CompleteIsFilledOut(b: Board)
    requires Sound(b) && Complete(b)
    ensures FilledOut(b)
  {
    assert b.Keys == AllCoords() && DigitsOnly(b) && PeersDiffer(b);
    forall c | InGrid(c)
      ensures HoldsAll(b, Row(c.1)) && HoldsAll(b, Column(c.0)) && HoldsAll(b, BoxOf(c))
    {
      RowFilled(b, c.1);
      ColumnFilled(b, c.0);
      BoxFilled(b, c);
    }
  }
}
