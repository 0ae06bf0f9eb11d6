/** The 9x9 grid and its peer graph.

    A coordinate is (x, y): x is the column and y the row, both 1..9;
    (1, 1) is the top-left corner and (1, 2) the cell below it.  Two cells
    are peers when they share a row, a column or a 3x3 box.  The rest of
    the model reads the peer relation through `Peers`; `GridGraph` is the
    construction that builds it edge by edge, and `GridGraph.Build` proves
    that what it builds is exactly `Peers`. */
module Grid {

  type Coord = (int, int)

  /** The values a cell may take. */
  const Digits: set<int> := {1, 2, 3, 4, 5, 6, 7, 8, 9}

  predicate InGrid(c: Coord) {
    1 <= c.0 <= 9 && 1 <= c.1 <= 9
  }

  /** The 81 cells. */
  function AllCoords(): (s: set<Coord>)
    ensures forall c :: c in s <==> InGrid(c)
  {
    var s := set x, y | 1 <= x <= 9 && 1 <= y <= 9 :: (x, y);
    assert forall c :: InGrid(c) ==> c in s by {
      forall c | InGrid(c) ensures c in s {
        var x, y := c.0, c.1;
        assert (x, y) in s;
      }
    }
    s
  }

  /** First column (or row) of the 3x3 box holding column (or row) k. */
  function BoxStart(k: int): (s: int)
    requires 1 <= k <= 9
    ensures s in {1, 4, 7} && s <= k < s + 3
  {
    if k <= 3 then 1 else if k <= 6 then 4 else 7
  }

  /** `BoxStart` is the source's `(k - 1) // 3 * 3 + 1`. */
  lemma BoxStartFormula(k: int)
    requires 1 <= k <= 9
    ensures BoxStart(k) == (k - 1) / 3 * 3 + 1
  {
    assert (k - 1) / 3 == if k <= 3 then 0 else if k <= 6 then 1 else 2;
  }

  lemma BoxStartOf(k: int, s: int)
    requires s in {1, 4, 7} && s <= k < s + 3
    ensures 1 <= k <= 9 && BoxStart(k) == s
  {
  }

  predicate SameBox(c: Coord, d: Coord)
    requires InGrid(c) && InGrid(d)
  {
    BoxStart(c.0) == BoxStart(d.0) && BoxStart(c.1) == BoxStart(d.1)
  }

  /** The other cells of c's row, column and box. */
  function Peers(c: Coord): set<Coord>
    requires InGrid(c)
  {
    set d | d in AllCoords() && d != c && (d.0 == c.0 || d.1 == c.1 || SameBox(c, d))
  }

  /** The peer relation is irreflexive and symmetric. */
  lemma PeersSymmetric(c: Coord, d: Coord)
    requires InGrid(c) && InGrid(d)
    ensures c !in Peers(c)
    ensures d in Peers(c) <==> c in Peers(d)
  {
  }

  // ---------------------------------------------------------------------
  // Rows, columns and boxes

  /** Row y, column x and box i (boxes numbered 1..9 left to right, then
      top to bottom) as sets of cells. */
  function Row(y: int): (u: set<Coord>)
    ensures u <= AllCoords()
  {
    set d | d in AllCoords() && d.1 == y
  }

  function Column(x: int): (u: set<Coord>)
    ensures u <= AllCoords()
  {
    set d | d in AllCoords() && d.0 == x
  }

  function Box(i: int): set<Coord>
    requires 1 <= i <= 9
  {
    set d | d in AllCoords() && BoxStart(d.0) == (i - 1) % 3 * 3 + 1 && BoxStart(d.1) == (i - 1) / 3 * 3 + 1
  }

  /** The box of cell c. */
  function BoxOf(c: Coord): (u: set<Coord>)
    requires InGrid(c)
    ensures u <= AllCoords()
  {
    set d | d in AllCoords() && SameBox(c, d)
  }

  /** The peers of c are the rest of its row, column and box. */
  lemma PeersAreUnits(c: Coord)
    requires InGrid(c)
    ensures Peers(c) == (Row(c.1) + Column(c.0) + BoxOf(c)) - {c}
  {
  }

  // ---------------------------------------------------------------------
  // Cardinality of the peer set

  /** Some element of a non-empty set.  Binding its result to a ghost
      variable just before a `var x :| x in s ...` statement hands the
      verifier the witness that the `:|` needs to know one exists; the
      variable itself is not read afterwards. */
  ghost function Pick<T>(s: set<T>): (a: T)
    requires s != {}
    ensures a in s
  {
    var a :| a in s; a
  }

  lemma {:induction false} RowImageCount(s: set<int>, y: int)
    ensures |set k | k in s :: (k, y)| == |s|
    decreases |s|
  {
    if s != {} {
      var a := Pick(s);
      var rest := s - {a};
      RowImageCount(rest, y);
      assert (set k | k in s :: (k, y)) == (set k | k in rest :: (k, y)) + {(a, y)};
    }
  }

  lemma {:induction false} ColumnImageCount(s: set<int>, x: int)
    ensures |set k | k in s :: (x, k)| == |s|
    decreases |s|
  {
    if s != {} {
      var a := Pick(s);
      var rest := s - {a};
      ColumnImageCount(rest, x);
      assert (set k | k in s :: (x, k)) == (set k | k in rest :: (x, k)) + {(x, a)};
    }
  }

  /** The two columns (or rows) of k's box other than k. */
  function OtherTwo(k: int): (r: (int, int))
    requires 1 <= k <= 9
    ensures r.0 != r.1 && r.0 != k && r.1 != k
    ensures BoxStart(k) <= r.0 < BoxStart(k) + 3 && BoxStart(k) <= r.1 < BoxStart(k) + 3
    ensures forall j :: 1 <= j <= 9 && j != k && BoxStart(j) == BoxStart(k) ==> j == r.0 || j == r.1
  {
    var s := BoxStart(k);
    if k == s then (s + 1, s + 2) else if k == s + 1 then (s, s + 2) else (s, s + 1)
  }

  function RowPeers(c: Coord): set<Coord>
    requires InGrid(c)
  {
    set d | d in AllCoords() && d.1 == c.1 && d != c
  }

  function ColumnPeers(c: Coord): set<Coord>
    requires InGrid(c)
  {
    set d | d in AllCoords() && d.0 == c.0 && d != c
  }

  /** The peers in c's box that share neither its row nor its column. */
  function BoxOnlyPeers(c: Coord): set<Coord>
    requires InGrid(c)
  {
    set d | d in AllCoords() && d.0 != c.0 && d.1 != c.1 && SameBox(c, d)
  }

  lemma RowPeerCount(c: Coord)
    requires InGrid(c)
    ensures |RowPeers(c)| == 8
  {
    var side := Digits - {c.0};
    assert |Digits| == 9;
    RowImageCount(side, c.1);
    forall d | d in RowPeers(c) ensures d in set k | k in side :: (k, c.1) {
      assert d == (d.0, c.1) && d.0 in side;
    }
    assert RowPeers(c) == set k | k in side :: (k, c.1);
  }

  lemma ColumnPeerCount(c: Coord)
    requires InGrid(c)
    ensures |ColumnPeers(c)| == 8
  {
    var side := Digits - {c.1};
    assert |Digits| == 9;
    ColumnImageCount(side, c.0);
    forall d | d in ColumnPeers(c) ensures d in set k | k in side :: (c.0, k) {
      assert d == (c.0, d.1) && d.1 in side;
    }
    assert ColumnPeers(c) == set k | k in side :: (c.0, k);
  }

  lemma FourCorners(a1: int, a2: int, b1: int, b2: int)
    requires a1 != a2 && b1 != b2
    ensures |{(a1, b1), (a1, b2), (a2, b1), (a2, b2)}| == 4
  {
  }

  lemma BoxOnlyWithin(c: Coord)
    requires InGrid(c)
    ensures forall d :: d in BoxOnlyPeers(c) ==>
      (d.0 == OtherTwo(c.0).0 || d.0 == OtherTwo(c.0).1) && (d.1 == OtherTwo(c.1).0 || d.1 == OtherTwo(c.1).1)
  {
  }

  lemma CornerIsBoxOnlyPeer(c: Coord, a: int, b: int)
    requires InGrid(c) && 1 <= a <= 9 && 1 <= b <= 9 && a != c.0 && b != c.1
    requires BoxStart(a) == BoxStart(c.0) && BoxStart(b) == BoxStart(c.1)
    ensures (a, b) in BoxOnlyPeers(c)
  {
  }

  lemma BoxOnlyPeerCount(c: Coord)
    requires InGrid(c)
    ensures |BoxOnlyPeers(c)| == 4
  {
    var ox, oy := OtherTwo(c.0), OtherTwo(c.1);
    BoxStartOf(ox.0, BoxStart(c.0));
    BoxStartOf(ox.1, BoxStart(c.0));
    BoxStartOf(oy.0, BoxStart(c.1));
    BoxStartOf(oy.1, BoxStart(c.1));
    CornerIsBoxOnlyPeer(c, ox.0, oy.0);
    CornerIsBoxOnlyPeer(c, ox.0, oy.1);
    CornerIsBoxOnlyPeer(c, ox.1, oy.0);
    CornerIsBoxOnlyPeer(c, ox.1, oy.1);
    BoxOnlyWithin(c);
    FourCorners(ox.0, ox.1, oy.0, oy.1);
    assert BoxOnlyPeers(c) == {(ox.0, oy.0), (ox.0, oy.1), (ox.1, oy.0), (ox.1, oy.1)};
  }

  /** Every cell has exactly 20 peers: 8 in its row, 8 in its column and
      the 4 cells of its box that share neither. */
  lemma PeerCount(c: Coord)
    requires InGrid(c)
    ensures |Peers(c)| == 20
  {
    RowPeerCount(c);
    ColumnPeerCount(c);
    BoxOnlyPeerCount(c);
    assert Peers(c) == RowPeers(c) + ColumnPeers(c) + BoxOnlyPeers(c);
  }

  // ---------------------------------------------------------------------
  // Row-major order

  /** Position of a cell in row-major order: the order in which the grid is
      built and in which the board's entries are scanned. */
  function Index(c: Coord): (i: nat)
    requires InGrid(c)
    ensures i < 81
  {
    (c.1 - 1) * 9 + (c.0 - 1)
  }

  function CoordAt(i: nat): (c: Coord)
    requires i < 81
    ensures InGrid(c) && Index(c) == i
  {
    (i % 9 + 1, i / 9 + 1)
  }

  lemma CoordAtIndex(c: Coord)
    requires InGrid(c)
    ensures CoordAt(Index(c)) == c
  {
    var i := Index(c);
    assert i % 9 == c.0 - 1 && i / 9 == c.1 - 1;
  }

  /** Position i holds exactly one cell. */
  lemma IndexUnique(i: nat)
    requires i < 81
    ensures forall d :: InGrid(d) && Index(d) == i ==> d == CoordAt(i)
  {
    forall d | InGrid(d) && Index(d) == i
      ensures d == CoordAt(i)
    {
      CoordAtIndex(d);
    }
  }

  /** The cells built before c in row-major order. */
  function EarlierThan(c: Coord): set<Coord>
    requires InGrid(c)
  {
    set d | d in AllCoords() && (d.1 < c.1 || (d.1 == c.1 && d.0 < c.0))
  }

  // ---------------------------------------------------------------------
  // Construction

  /** The cells the three loops of the construction link a new cell (x, y)
      to: the row cells (k, y) with k < x, the column cells (x, k) with
      k < y, and the three cells of each box row above y. */
  function Linked(c: Coord): set<Coord>
    requires InGrid(c)
  {
    set d | d in AllCoords() && ((d.1 == c.1 && d.0 < c.0) || (d.0 == c.0 && d.1 < c.1)
      || (BoxStart(c.1) <= d.1 < c.1 && BoxStart(c.0) <= d.0 < BoxStart(c.0) + 3))
  }

  /** The cells linked on creation are exactly the peers built earlier. */
  lemma LinkedAreEarlierPeers(c: Coord)
    requires InGrid(c)
    ensures Linked(c) == Peers(c) * EarlierThan(c)
  {
  }

  /** The part of `Linked(c)` the loops have visited: row cells left of
      column kr, column cells above row kc, the box rows above row k2 and
      the box cells of row k2 left of column k1. */
  function LinkedSoFar(c: Coord, kr: int, kc: int, k2: int, k1: int): set<Coord>
    requires InGrid(c)
  {
    set d | d in AllCoords() && d != c && ((d.1 == c.1 && d.0 < kr) || (d.0 == c.0 && d.1 < kc)
      || (BoxStart(c.1) <= d.1 < k2 && BoxStart(c.0) <= d.0 < BoxStart(c.0) + 3)
      || (d.1 == k2 && BoxStart(c.0) <= d.0 < k1))
  }

  lemma RowStep(c: Coord, k: int)
    requires InGrid(c) && 1 <= k <= c.0
    ensures (k, c.1) == c || (k, c.1) in Linked(c)
    ensures LinkedSoFar(c, k + 1, 1, BoxStart(c.1), BoxStart(c.0))
      == LinkedSoFar(c, k, 1, BoxStart(c.1), BoxStart(c.0)) + ({(k, c.1)} - {c})
  {
  }

  lemma ColumnStep(c: Coord, k: int)
    requires InGrid(c) && 1 <= k <= c.1
    ensures (c.0, k) == c || (c.0, k) in Linked(c)
    ensures LinkedSoFar(c, c.0, k + 1, BoxStart(c.1), BoxStart(c.0))
      == LinkedSoFar(c, c.0, k, BoxStart(c.1), BoxStart(c.0)) + ({(c.0, k)} - {c})
  {
  }

  /** The row loop ends at c itself, which adds nothing. */
  lemma RowDone(c: Coord)
    requires InGrid(c)
    ensures LinkedSoFar(c, c.0 + 1, 1, BoxStart(c.1), BoxStart(c.0)) == LinkedSoFar(c, c.0, 1, BoxStart(c.1), BoxStart(c.0))
  {
  }

  /** So does the column loop. */
  lemma ColumnDone(c: Coord)
    requires InGrid(c)
    ensures LinkedSoFar(c, c.0, c.1 + 1, BoxStart(c.1), BoxStart(c.0)) == LinkedSoFar(c, c.0, c.1, BoxStart(c.1), BoxStart(c.0))
  {
  }

  lemma BoxStep(c: Coord, k2: int, k1: int)
    requires InGrid(c) && BoxStart(c.1) <= k2 < c.1 && BoxStart(c.0) <= k1 < BoxStart(c.0) + 3
    ensures (k1, k2) in Linked(c)
    ensures LinkedSoFar(c, c.0, c.1, k2, k1 + 1) == LinkedSoFar(c, c.0, c.1, k2, k1) + ({(k1, k2)} - {c})
  {
  }

  lemma BoxRowStep(c: Coord, k2: int)
    requires InGrid(c) && BoxStart(c.1) <= k2 < c.1
    ensures LinkedSoFar(c, c.0, c.1, k2 + 1, BoxStart(c.0)) == LinkedSoFar(c, c.0, c.1, k2, BoxStart(c.0) + 3)
  {
  }

  lemma LinkedSoFarComplete(c: Coord)
    requires InGrid(c)
    ensures LinkedSoFar(c, c.0, c.1, c.1, BoxStart(c.0)) == Linked(c)
  {
  }

  /** Every cell that existed before c was created has gained exactly the
      edge to c, if c is linked to it. */
  ghost predicate LinkedBack(before: map<Coord, set<Coord>>, now: map<Coord, set<Coord>>, c: Coord) {
    c !in before && now.Keys == before.Keys + {c}
    && forall d :: d in before ==> now[d] == before[d] + (if d in now[c] then {c} else {})
  }

  lemma AddEdgeKeepsLinkedBack(before: map<Coord, set<Coord>>, pre: map<Coord, set<Coord>>,
                               post: map<Coord, set<Coord>>, c: Coord, u: Coord)
    requires LinkedBack(before, pre, c) && u in pre
    requires u == c ==> post == pre
    requires u != c ==> post == pre[c := pre[c] + {u}][u := pre[u] + {c}]
    ensures LinkedBack(before, post, c)
    ensures post[c] == pre[c] + ({u} - {c})
  {
  }

  class GridGraph {
    /** The cells created so far, each with its neighbour set. */
    var neighbours: map<Coord, set<Coord>>

    constructor ()
      ensures neighbours == map[]
    {
      neighbours := map[];
    }

    /** Links the existing cell (i, j) with the existing cell v, unless they
        are the same cell. */
    method AddEdge(i: int, j: int, v: Coord)
      requires (i, j) in neighbours && v in neighbours
      modifies this
      ensures (i, j) == v ==> neighbours == old(neighbours)
      ensures (i, j) != v ==>
        neighbours == old(neighbours)[v := old(neighbours)[v] + {(i, j)}][(i, j) := old(neighbours)[(i, j)] + {v}]
    {
      var u := (i, j);
      if u != v {
        neighbours := neighbours[v := neighbours[v] + {u}];
        neighbours := neighbours[u := neighbours[u] + {v}];
      }
    }

    /** Creates cell (x, y) and links it to the row, column and box cells
        that the three loops visit; all of them must already exist, as they
        do in the row-major construction. */
    method ConnectEntries(x: int, y: int)
      requires InGrid((x, y)) && (x, y) !in neighbours
      requires Linked((x, y)) <= neighbours.Keys
      modifies this
      ensures neighbours.Keys == old(neighbours).Keys + {(x, y)}
      ensures neighbours[(x, y)] == Linked((x, y))
      ensures forall d :: d in old(neighbours) ==>
        neighbours[d] == old(neighbours)[d] + (if d in Linked((x, y)) then {(x, y)} else {})
    {
      var c := (x, y);
      ghost var before := neighbours;
      neighbours := neighbours[c := {}];
      LinkRow(before, c);
      LinkColumn(before, c);
      LinkBox(before, c);
      LinkedSoFarComplete(c);
    }

    /** One step of the loops of `ConnectEntries`: `_add_edge` between the
        cell (i, j), which is c or one of the cells c is linked to, and c. */
    method LinkTo(ghost before: map<Coord, set<Coord>>, c: Coord, i: int, j: int)
      requires InGrid(c) && LinkedBack(before, neighbours, c) && Linked(c) <= before.Keys
      requires (i, j) == c || (i, j) in Linked(c)
      modifies this
      ensures LinkedBack(before, neighbours, c)
      ensures neighbours[c] == old(neighbours)[c] + ({(i, j)} - {c})
    {
      ghost var pre := neighbours;
      AddEdge(i, j, c);
      AddEdgeKeepsLinkedBack(before, pre, neighbours, c, (i, j));
    }

    /** The first loop of `ConnectEntries`: the row cells (k, y), k <= x. */
    method LinkRow(ghost before: map<Coord, set<Coord>>, c: Coord)
      requires InGrid(c) && LinkedBack(before, neighbours, c) && Linked(c) <= before.Keys
      requires neighbours[c] == LinkedSoFar(c, 1, 1, BoxStart(c.1), BoxStart(c.0))
      modifies this
      ensures LinkedBack(before, neighbours, c)
      ensures neighbours[c] == LinkedSoFar(c, c.0 + 1, 1, BoxStart(c.1), BoxStart(c.0))
    {
      var x, y := c.0, c.1;
      for k := 1 to x + 1
        invariant LinkedBack(before, neighbours, c)
        invariant neighbours[c] == LinkedSoFar(c, k, 1, BoxStart(y), BoxStart(x))
      {
        RowStep(c, k);
        LinkTo(before, c, k, y);
      }
    }

    /** The second loop: the column cells (x, k), k <= y. */
    method LinkColumn(ghost before: map<Coord, set<Coord>>, c: Coord)
      requires InGrid(c) && LinkedBack(before, neighbours, c) && Linked(c) <= before.Keys
      requires neighbours[c] == LinkedSoFar(c, c.0 + 1, 1, BoxStart(c.1), BoxStart(c.0))
      modifies this
      ensures LinkedBack(before, neighbours, c)
      ensures neighbours[c] == LinkedSoFar(c, c.0, c.1 + 1, BoxStart(c.1), BoxStart(c.0))
    {
      var x, y := c.0, c.1;
      RowDone(c);
      for k := 1 to y + 1
        invariant LinkedBack(before, neighbours, c)
        invariant neighbours[c] == LinkedSoFar(c, x, k, BoxStart(y), BoxStart(x))
      {
        ColumnStep(c, k);
        LinkTo(before, c, x, k);
      }
    }

    /** The nested loops: the three cells of each box row above y. */
    method LinkBox(ghost before: map<Coord, set<Coord>>, c: Coord)
      requires InGrid(c) && LinkedBack(before, neighbours, c) && Linked(c) <= before.Keys
      requires neighbours[c] == LinkedSoFar(c, c.0, c.1 + 1, BoxStart(c.1), BoxStart(c.0))
      modifies this
      ensures LinkedBack(before, neighbours, c)
      ensures neighbours[c] == LinkedSoFar(c, c.0, c.1, c.1, BoxStart(c.0))
    {
      var x, y := c.0, c.1;
      var sx, sy := BoxStart(x), BoxStart(y);
      ColumnDone(c);
      for k2 := sy to y
        invariant LinkedBack(before, neighbours, c)
        invariant neighbours[c] == LinkedSoFar(c, x, y, k2, sx)
      {
        LinkBoxRow(before, c, k2);
        BoxRowStep(c, k2);
      }
    }

    /** The inner loop of `LinkBox`: the three cells of box row k2. */
    method LinkBoxRow(ghost before: map<Coord, set<Coord>>, c: Coord, k2: int)
      requires InGrid(c) && LinkedBack(before, neighbours, c) && Linked(c) <= before.Keys
      requires BoxStart(c.1) <= k2 < c.1
      requires neighbours[c] == LinkedSoFar(c, c.0, c.1, k2, BoxStart(c.0))
      modifies this
      ensures LinkedBack(before, neighbours, c)
      ensures neighbours[c] == LinkedSoFar(c, c.0, c.1, k2, BoxStart(c.0) + 3)
    {
      var sx := BoxStart(c.0);
      for k1 := sx to sx + 3
        invariant LinkedBack(before, neighbours, c)
        invariant neighbours[c] == LinkedSoFar(c, c.0, c.1, k2, k1)
      {
        BoxStep(c, k2, k1);
        LinkTo(before, c, k1, k2);
      }
    }

    /** The row-major construction of the 81 cells: afterwards every cell's
        neighbours are exactly its peers. */
    method Build()
      requires neighbours == map[]
      modifies this
      ensures neighbours.Keys == AllCoords()
      ensures forall c :: c in neighbours.Keys ==> neighbours[c] == Peers(c)
    {
      BuiltEnds();
      for y := 1 to 10
        invariant neighbours.Keys == Built(1, y) && PeersWithin(neighbours)
      {
        for x := 1 to 10
          invariant neighbours.Keys == Built(x, y) && PeersWithin(neighbours)
        {
          var c := (x, y);
          BuiltNext(x, y);
          LinkedAreEarlierPeers(c);
          ghost var before := neighbours;
          ConnectEntries(x, y);
          ConnectKeepsPeersWithin(before, neighbours, c);
        }
        BuiltRow(y);
      }
      PeersWithinAll(neighbours);
    }
  }

  /** The cells before position (x, y) in row-major order. */
  ghost function Built(x: int, y: int): set<Coord> {
    set d | d in AllCoords() && (d.1 < y || (d.1 == y && d.0 < x))
  }

  lemma BuiltNext(x: int, y: int)
    requires 1 <= x <= 9 && 1 <= y <= 9
    ensures Built(x, y) == EarlierThan((x, y)) && Built(x + 1, y) == Built(x, y) + {(x, y)}
  {
  }

  lemma BuiltRow(y: int)
    requires 1 <= y <= 9
    ensures Built(10, y) == Built(1, y + 1)
  {
  }

  lemma BuiltEnds()
    ensures Built(1, 1) == {} && Built(1, 10) == AllCoords()
  {
    assert forall d :: d in Built(1, 1) ==> false;
  }

  /** Every cell built so far is linked to exactly its peers built so far. */
  ghost predicate PeersWithin(g: map<Coord, set<Coord>>) {
    forall d :: d in g ==> InGrid(d) && g[d] == Peers(d) * g.Keys
  }

  /** Creating c and linking it to its earlier peers keeps `PeersWithin`. */
  lemma ConnectKeepsPeersWithin(before: map<Coord, set<Coord>>, now: map<Coord, set<Coord>>, c: Coord)
    requires PeersWithin(before) && InGrid(c) && before.Keys == EarlierThan(c)
    requires now.Keys == before.Keys + {c} && now[c] == Peers(c) * EarlierThan(c)
    requires forall d :: d in before ==> now[d] == before[d] + (if d in Peers(c) * EarlierThan(c) then {c} else {})
    ensures PeersWithin(now)
  {
    forall d | d in now
      ensures InGrid(d) && now[d] == Peers(d) * now.Keys
    {
      PeersSymmetric(c, d);
    }
  }

  lemma PeersWithinAll(g: map<Coord, set<Coord>>)
    requires PeersWithin(g) && g.Keys == AllCoords()
    ensures forall c :: c in g.Keys ==> g[c] == Peers(c)
  {
    forall c | c in g.Keys
      ensures g[c] == Peers(c)
    {
      assert Peers(c) <= AllCoords();
    }
  }
}
