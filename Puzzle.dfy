/** The puzzle object: the 81 entries, updated in place by the cell
    operations and by the solver.

    The entries are one mutable field holding a `Board`; a vertex of the
    source is the cell at its coordinate, and a reference to a vertex is
    that coordinate.  Assigning, changing and clearing a cell visit its
    peers one at a time, as the source's loops over `neighbours` do, and
    are proved to compute `Classic.Struck`, `Classic.Changed` and
    `Classic.Cleared`. */
module Puzzle {
  import opened Grid
  import opened Board
  import opened Classic
  import opened Search
  import opened CageSum
  import opened Killer
  import opened Cages

  /** Which of the two puzzles: the Classic one or the Killer one. */
  datatype Variant = ClassicRules | KillerRules

  /** A saved state of the solver: the board before a guess, the value
      guessed and the cell it went to. */
  datatype Frame = Frame(snapshot: Board, choice: int, coordinate: Coord)

  /** How `solve` ends: the board is solved, the puzzle has no solution,
      or the step bound ran out before either was found. */
  datatype Outcome = Solved | Unsolvable | OutOfFuel

  /** Every board on the solver's stack is sound, extends the board the
      solver started from, and names a cell of the grid. */
  ghost predicate Saved(states: seq<Frame>, original: Board)
  {
    forall i :: 0 <= i < |states| ==>
      Sound(states[i].snapshot) && Extends(original, states[i].snapshot) && InGrid(states[i].coordinate)
  }
  /** Saving a sound board that extends the start keeps the stack saved. */
  lemma SavedPush(states: seq<Frame>, f: Frame, original: Board)
    requires Saved(states, original)
    requires Sound(f.snapshot) && Extends(original, f.snapshot) && InGrid(f.coordinate)
    ensures Saved(states + [f], original)
  {
    forall i | 0 <= i < |states + [f]|
      ensures Sound((states + [f])[i].snapshot)
    {
      if i < |states| { assert (states + [f])[i] == states[i]; }
    }
  }

  /** Taking the last board off a saved stack leaves it saved. */
  lemma SavedPop(states: seq<Frame>, original: Board)
    requires Saved(states, original) && states != []
    ensures Saved(states[..|states| - 1], original)
    ensures Sound(states[|states| - 1].snapshot) && Extends(original, states[|states| - 1].snapshot)
    ensures InGrid(states[|states| - 1].coordinate)
  {
  }


  class Sudoku {
    const variant: Variant
    var entries: Board
    var cages: seq<Cage>

    /** A puzzle with every entry empty and no cages. */
    constructor (variant: Variant)
      ensures this.variant == variant && cages == []
      ensures entries.Keys == AllCoords() && forall c :: c in entries ==> entries[c] == EmptyCell
    {
      this.variant := variant;
      entries := map c | c in AllCoords() :: EmptyCell;
      cages := [];
    }

    /** The value at (x, y), None while it is empty. */
    method GetEntry(x: int, y: int) returns (v: Option<int>)
      requires entries.Keys == AllCoords() && InGrid((x, y))
      ensures v == entries[(x, y)].value
    {
      v := entries[(x, y)].value;
    }

    /** `Sudoku.assign`: the vertex at (x, y) of either puzzle takes v. */
    method AssignEntry(x: int, y: int, v: int) returns (ghost order: seq<Coord>)
      requires Shape(entries) && InGrid((x, y))
      modifies this
      ensures cages == old(cages)
      ensures variant == ClassicRules ==> entries == Struck(old(entries), (x, y), v)
      ensures variant == KillerRules ==>
        Distinct(order) && InGridAll(order) && (forall d :: d in order <==> d in old(entries)[(x, y)].cageEntries)
        && entries == Updated(Struck(old(entries), (x, y), v), (x, y), order)
      ensures Sound(old(entries)) && v in old(entries)[(x, y)].candidates ==> Sound(entries) && Extends(old(entries), entries)
    {
      var next;
      next, order := Assign((x, y), v);
    }

    /** The `assign` of the vertex at c: the Classic one strikes v from the
        peers, the Killer one also narrows c's cages.  Returns the cell the
        solver should fill next, if the vertex reports one. */
    method Assign(c: Coord, v: int) returns (next: Option<Coord>, ghost order: seq<Coord>)
      requires Shape(entries) && InGrid(c)
      modifies this
      ensures cages == old(cages)
      ensures variant == ClassicRules ==> entries == Struck(old(entries), c, v)
      ensures variant == KillerRules ==>
        Distinct(order) && InGridAll(order) && (forall d :: d in order <==> d in old(entries)[c].cageEntries)
        && entries == Updated(Struck(old(entries), c, v), c, order)
      ensures next.Some? ==> InGrid(next.value)
      ensures Sound(old(entries)) && v in old(entries)[c].candidates ==> Sound(entries) && Extends(old(entries), entries)
    {
      ghost var b := entries;
      if variant == ClassicRules {
        next := ClassicAssign(c, v);
        order := [];
        if Sound(b) && v in b[c].candidates {
          StruckKeepsSound(b, c, v);
        }
      } else {
        next, order := KillerAssign(c, v);
        UpdatedNextInGrid(Struck(b, c, v), c, order);
        if Sound(b) && v in b[c].candidates {
          StruckKeepsSound(b, c, v);
          UpdatedKeepsSound(Struck(b, c, v), c, order);
        }
      }
    }

    /** The Classic vertex's `assign`: c takes v and loses its candidates,
        and every empty peer loses v.  Returns the last empty peer visited
        that is left with a single candidate. */
    method ClassicAssign(c: Coord, v: int) returns (next: Option<Coord>)
      requires entries.Keys == AllCoords() && InGrid(c)
      modifies this
      ensures entries == Struck(old(entries), c, v) && cages == old(cages)
      ensures next.Some? ==> next.value in Peers(c) && entries[next.value].value.None? && |entries[next.value].candidates| == 1
      ensures next.None? ==> forall d :: d in Peers(c) && entries[d].value.None? ==> |entries[d].candidates| != 1
    {
      var board;
      board, next := StrikePeers(entries, c, v);
      entries := board;
    }

    /** The loop of the Classic `assign` on a board value. */
    static method StrikePeers(b: Board, c: Coord, v: int) returns (board: Board, next: Option<Coord>)
      requires b.Keys == AllCoords() && InGrid(c)
      ensures board == Struck(b, c, v)
      ensures next.Some? ==> next.value in Peers(c) && board[next.value].value.None? && |board[next.value].candidates| == 1
      ensures next.None? ==> forall d :: d in Peers(c) && board[d].value.None? ==> |board[d].candidates| != 1
    {
      board := b[c := b[c].(value := Some(v), candidates := {})];
      next := None;
      var todo := Peers(c);
      StruckExceptEnds(b, c, v);
      while todo != {}
        invariant todo <= Peers(c)
        invariant board == StruckExcept(b, c, v, todo)
        invariant next.Some? ==> next.value in Peers(c) && next.value !in todo && board[next.value].value.None? && |board[next.value].candidates| == 1
        invariant next.None? ==> forall d :: d in Peers(c) && d !in todo && board[d].value.None? ==> |board[d].candidates| != 1
        decreases todo
      {
        ghost var w := Pick(todo);
        var d :| d in todo;
        StruckExceptStep(b, c, v, todo, d);
        if board[d].value.None? {
          board := board[d := board[d].(candidates := board[d].candidates - {v})];
          if |board[d].candidates| == 1 {
            next := Some(d);
          }
        }
        todo := todo - {d};
      }
    }

    /** The Classic vertex's `change`: refused when a peer already holds v,
        or when c is empty and v is not one of its candidates; an empty c is
        then assigned, an assigned c changes its value with its peers'
        candidates updated. */
    method Change(c: Coord, v: int) returns (ok: bool)
      requires entries.Keys == AllCoords() && InGrid(c)
      modifies this
      ensures ok <==> (forall d :: d in Peers(c) ==> old(entries)[d].value != Some(v))
                      && (old(entries)[c].value.Some? || v in old(entries)[c].candidates)
      ensures !ok ==> entries == old(entries)
      ensures ok && old(entries)[c].value.None? ==> entries == Struck(old(entries), c, v)
      ensures ok && old(entries)[c].value.Some? ==> entries == Changed(old(entries), c, v)
      ensures cages == old(cages)
    {
      var held := exists d :: d in Peers(c) && entries[d].value == Some(v);
      if held {
        return false;
      }
      if entries[c].value.None? {
        if v in entries[c].candidates {
          var _ := ClassicAssign(c, v);
          return true;
        }
        return false;
      }
      entries := Reassign(entries, c, v);
      return true;
    }

    /** The loop of `change` for an assigned c: each empty peer gets c's
        old value back unless another of its peers holds it, then loses v;
        c then holds v. */
    static method Reassign(b: Board, c: Coord, v: int) returns (board: Board)
      requires b.Keys == AllCoords() && InGrid(c) && b[c].value.Some?
      ensures board == Changed(b, c, v)
    {
      board := b;
      var w := b[c].value.value;
      var todo := Peers(c);
      ChangedExceptEnds(b, c, v);
      while todo != {}
        invariant todo <= Peers(c)
        invariant board == ChangedExcept(b, c, v, todo)
        decreases todo
      {
        ghost var p := Pick(todo);
        var d :| d in todo;
        ChangedExceptStep(b, c, v, todo, d);
        if board[d].value.None? {
          BackSameValues(b, board, d, c, w);
          var back := Back(board, d, c, w);
          board := board[d := board[d].(candidates := (board[d].candidates + back) - {v})];
        }
        todo := todo - {d};
      }
      board := board[c := board[c].(value := Some(v))];
    }

    /** The Classic vertex's `clear`: an assigned c becomes empty with the
        digits its peers do not hold as candidates, and each empty peer gets
        c's old value back unless another of its peers holds it. */
    method ClearCell(c: Coord)
      requires entries.Keys == AllCoords() && InGrid(c)
      modifies this
      ensures entries == Cleared(old(entries), c) && cages == old(cages)
    {
      if entries[c].value.Some? {
        entries := Unassign(entries, c);
      }
    }

    /** The loop of `clear` for an assigned c. */
    static method Unassign(b: Board, c: Coord) returns (board: Board)
      requires b.Keys == AllCoords() && InGrid(c) && b[c].value.Some?
      ensures board == Cleared(b, c)
    {
      board := b;
      var w := b[c].value.value;
      var own := Digits;
      var todo := Peers(c);
      ClearedExceptEnds(b, c);
      while todo != {}
        invariant todo <= Peers(c)
        invariant board == ClearedExcept(b, c, todo)
        invariant own == Digits - HeldExcept(b, c, todo)
        decreases todo
      {
        ghost var p := Pick(todo);
        var d :| d in todo;
        ClearedExceptStep(b, c, todo, d);
        HeldExceptStep(b, c, todo, d);
        if board[d].value.None? {
          BackSameValues(b, board, d, c, w);
          var back := Back(board, d, c, w);
          board := board[d := board[d].(candidates := board[d].candidates + back)];
        } else {
          own := own - {board[d].value.value};
        }
        todo := todo - {d};
      }
      board := board[c := board[c].(value := None, candidates := own)];
    }

    /** `ClassicSudoku.change_entry`. */
    method ChangeEntry(x: int, y: int, v: int) returns (ok: bool)
      requires variant == ClassicRules && entries.Keys == AllCoords() && InGrid((x, y))
      modifies this
      ensures ok <==> (forall d :: d in Peers((x, y)) ==> old(entries)[d].value != Some(v))
                      && (old(entries)[(x, y)].value.Some? || v in old(entries)[(x, y)].candidates)
      ensures !ok ==> entries == old(entries)
      ensures ok && old(entries)[(x, y)].value.None? ==> entries == Struck(old(entries), (x, y), v)
      ensures ok && old(entries)[(x, y)].value.Some? ==> entries == Changed(old(entries), (x, y), v)
      ensures cages == old(cages)
    {
      ok := Change((x, y), v);
    }

    /** `ClassicSudoku.clear_entry`. */
    method ClearEntry(x: int, y: int)
      requires variant == ClassicRules && entries.Keys == AllCoords() && InGrid((x, y))
      modifies this
      ensures entries == Cleared(old(entries), (x, y)) && cages == old(cages)
    {
      ClearCell((x, y));
    }

    /** `clear` of either puzzle: every entry loses its value and gets all
        digits back; the Killer puzzle also drops every cage. */
    method Clear()
      modifies this
      ensures variant == ClassicRules ==> entries == Reset(old(entries)) && cages == old(cages)
      ensures variant == KillerRules ==> entries == Blank(old(entries)) && cages == []
    {
      if variant == ClassicRules {
        entries := ResetAll(entries);
      } else {
        entries := BlankAll(entries);
        cages := [];
      }
    }

    /** The loop of `ClassicSudoku.clear`. */
    static method ResetAll(b: Board) returns (board: Board)
      ensures board == Reset(b)
    {
      board := b;
      var todo := b.Keys;
      ResetExceptEnds(b);
      while todo != {}
        invariant todo <= b.Keys
        invariant board == ResetExcept(b, todo)
        decreases todo
      {
        ghost var p := Pick(todo);
        var d :| d in todo;
        ResetExceptStep(b, todo, d);
        board := board[d := board[d].(value := None, candidates := Digits)];
        todo := todo - {d};
      }
    }

    /** The loop of `KillerSudoku.clear` over the entries. */
    static method BlankAll(b: Board) returns (board: Board)
      ensures board == Blank(b)
    {
      board := b;
      var todo := b.Keys;
      BlankExceptEnds(b);
      while todo != {}
        invariant todo <= b.Keys
        invariant board == BlankExcept(b, todo)
        decreases todo
      {
        ghost var p := Pick(todo);
        var d :| d in todo;
        BlankExceptStep(b, todo, d);
        board := board[d := board[d].(value := None, candidates := Digits, cageSum := 0, cageEntries := {}, indirectCages := [])];
        assert board[d] == EmptyCell;
        todo := todo - {d};
      }
    }

    /** `_connect_cages`: wire the members of every cage to one another,
        give the cells of each column, row and box residual their indirect
        cage, and run `update_valid_values` on every cell in row-major
        order.  The lists of set members the source builds are returned
        as ghosts: listings[u] for the residual of unit u, orders[j] for
        the cage mates of the j-th cell. */
    method ConnectCages() returns (ghost listings: seq<seq<Coord>>, ghost orders: seq<seq<Coord>>)
      requires variant == KillerRules
      requires Shape(entries) && CagesWellFormed(cages)
      modifies this
      ensures cages == old(cages)
      ensures Listed(cages, listings) && |listings| == 27
      ensures |orders| == 81 && ListsMates(WireAll(old(entries), cages), orders)
      ensures entries == Connected(old(entries), cages, listings, orders)
    {
      ghost var b := entries;
      WireCages();
      WireAllKeeps(b, cages);
      listings := AttachIndirect();
      AttachedKeeps(WireAll(b, cages), cages, listings);
      orders := UpdateAll();
    }

    /** The first loop of `_connect_cages`, over the cages. */
    method WireCages()
      requires entries.Keys == AllCoords() && CagesWellFormed(cages)
      modifies this
      ensures entries == WireAll(old(entries), cages) && cages == old(cages)
    {
      ghost var b := entries;
      var n := 0;
      while n < |cages|
        invariant 0 <= n <= |cages| && entries == WireAll(b, cages[..n]) && cages == old(cages)
      {
        assert cages[..n + 1][..n] == cages[..n];
        WireCage(cages[n]);
        n := n + 1;
      }
      assert cages[..|cages|] == cages;
    }

    /** One cage: each member takes the cage sum, then is wired both ways
        to every earlier member. */
    method WireCage(cage: Cage)
      requires entries.Keys == AllCoords() && Distinct(cage.coordinates) && InGridAll(cage.coordinates)
      modifies this
      ensures entries == Wire(old(entries), cage) && cages == old(cages)
    {
      entries := WireMembers(entries, cage);
    }

    /** The outer loop of `WireCage`, on the board as a value. */
    static method WireMembers(b: Board, cage: Cage) returns (board: Board)
      requires Distinct(cage.coordinates) && forall j :: 0 <= j < |cage.coordinates| ==> cage.coordinates[j] in b
      ensures board == Wire(b, cage)
    {
      WirePrefixEnds(b, cage);
      board := b;
      var i1 := 0;
      while i1 < |cage.coordinates|
        invariant 0 <= i1 <= |cage.coordinates| && board == WirePrefix(b, cage, i1)
      {
        var s := cage.coordinates;
        WirePrefixStep(b, cage, i1);
        board := board[s[i1] := board[s[i1]].(cageSum := cage.sum)];
        board := LinkMember(board, s, i1);
        i1 := i1 + 1;
      }
    }

    /** The inner loop of `WireCage`: member m wired both ways to each
        earlier member. */
    static method LinkMember(b: Board, s: seq<Coord>, m: int) returns (board: Board)
      requires 0 <= m < |s| && forall j :: 0 <= j < |s| ==> s[j] in b
      ensures board == WireInner(b, s, m, m)
    {
      board := b;
      var i2 := 0;
      while i2 < m
        invariant 0 <= i2 <= m && board == WireInner(b, s, m, i2)
      {
        board := Link(board, s[m], s[i2]);
        board := Link(board, s[i2], s[m]);
        i2 := i2 + 1;
      }
    }

    /** The residuals of column i, row i and box i: every cage lying wholly
        inside what is left of a unit is taken out of it, its sum out of
        45. */
    method Residuals(i: int) returns (basics: seq<set<Coord>>, sums: seq<int>)
      requires 1 <= i <= 9
      ensures |basics| == 3 && |sums| == 3
      ensures forall k :: 0 <= k < 3 ==> (basics[k], sums[k]) == Residual(Unit(i, k), cages)
    {
      basics, sums := ResidualsOf(i, cages);
    }

    static method ResidualsOf(i: int, cs: seq<Cage>) returns (basics: seq<set<Coord>>, sums: seq<int>)
      requires 1 <= i <= 9
      ensures |basics| == 3 && |sums| == 3
      ensures forall k :: 0 <= k < 3 ==> (basics[k], sums[k]) == Residual(Unit(i, k), cs)
    {
      basics := [Unit(i, 0), Unit(i, 1), Unit(i, 2)];
      sums := [45, 45, 45];
      var n := 0;
      while n < |cs|
        invariant 0 <= n <= |cs| && |basics| == 3 && |sums| == 3
        invariant forall k :: 0 <= k < 3 ==> (basics[k], sums[k]) == Residual(Unit(i, k), cs[..n])
      {
        basics, sums := TakeOut(i, cs, n, basics, sums);
        n := n + 1;
      }
      assert cs[..|cs|] == cs;
    }

    /** Cage n taken out of each of the three units it lies inside. */
    static method TakeOut(i: int, cs: seq<Cage>, n: int, basics: seq<set<Coord>>, sums: seq<int>)
      returns (basics': seq<set<Coord>>, sums': seq<int>)
      requires 1 <= i <= 9 && 0 <= n < |cs| && |basics| == 3 && |sums| == 3
      requires forall k :: 0 <= k < 3 ==> (basics[k], sums[k]) == Residual(Unit(i, k), cs[..n])
      ensures |basics'| == 3 && |sums'| == 3
      ensures forall k :: 0 <= k < 3 ==> (basics'[k], sums'[k]) == Residual(Unit(i, k), cs[..n + 1])
    {
      var cageEntries := CageCells(cs[n]);
      basics', sums' := basics, sums;
      var k := 0;
      while k < 3
        invariant 0 <= k <= 3 && |basics'| == 3 && |sums'| == 3
        invariant forall j :: 0 <= j < k ==> (basics'[j], sums'[j]) == Residual(Unit(i, j), cs[..n + 1])
        invariant forall j :: k <= j < 3 ==> basics'[j] == basics[j] && sums'[j] == sums[j]
      {
        ResidualNext(Unit(i, k), cs, n);
        if cageEntries <= basics'[k] {
          basics' := basics'[k := basics'[k] - cageEntries];
          sums' := sums'[k := sums'[k] - cs[n].sum];
        }
        k := k + 1;
      }
    }

    /** The second loop of `_connect_cages`: for each number i, the
        residuals of column i, row i and box i, each of which yields an
        indirect cage for its cells when some but not all of the unit is
        left.  The source lists the residual anew for every cell, always
        in the same iteration order of the same set; one listing serves
        them all here. */
    method AttachIndirect() returns (ghost listings: seq<seq<Coord>>)
      requires entries.Keys == AllCoords()
      modifies this
      ensures Listed(cages, listings) && |listings| == 27
      ensures entries == Attached(old(entries), cages, listings) && cages == old(cages)
    {
      ghost var b := entries;
      listings := [];
      assert Attached(b, cages, []) == b by {
        assert forall d :: d in b ==> b[d].indirectCages + [] == b[d].indirectCages;
      }
      var i := 1;
      while i <= 9
        invariant 1 <= i <= 10 && |listings| == 3 * (i - 1) && Listed(cages, listings)
        invariant entries == Attached(b, cages, listings) && cages == old(cages)
      {
        var basics, sums := Residuals(i);
        var k := 0;
        while k < 3
          invariant 0 <= k <= 3 && |listings| == 3 * (i - 1) + k && Listed(cages, listings)
          invariant entries == Attached(b, cages, listings) && cages == old(cages)
        {
          UnitAtIs(i, k);
          var listing := AttachUnit(basics[k], sums[k], b, listings);
          listings := listings + [listing];
          k := k + 1;
        }
        i := i + 1;
      }
    }

    /** One unit of the second loop: its residual R, with sum t, yields
        an indirect cage for each of its cells when some but not all of
        the unit is left. */
    method AttachUnit(R: set<Coord>, t: int, ghost b: Board, ghost listings: seq<seq<Coord>>) returns (listing: seq<Coord>)
      requires |listings| < 27 && (R, t) == Residual(UnitAt(|listings|), cages) && Listed(cages, listings)
      requires b.Keys == AllCoords() && entries == Attached(b, cages, listings)
      modifies this
      ensures Listed(cages, listings + [listing]) && entries == Attached(b, cages, listings + [listing])
      ensures cages == old(cages)
    {
      listing := [];
      UnitSize(|listings|);
      if |R| != 9 && |R| != 0 {
        listing := ListOf(R);
        AttachTo(R, IndirectCage(t, listing));
      }
      AttachedStep(b, cages, listings, listing);
      ListedStep(cages, listings, listing);
    }

    /** Each cell of R gets the indirect cage ic. */
    method AttachTo(R: set<Coord>, ic: IndirectCage)
      requires entries.Keys == AllCoords() && R <= AllCoords()
      modifies this
      ensures entries == AddTo(old(entries), R, ic) && cages == old(cages)
    {
      ghost var b := entries;
      var todo := R;
      while todo != {}
        invariant todo <= R && entries == AddTo(b, R - todo, ic) && cages == old(cages)
        decreases |todo|
      {
        ghost var w := Pick(todo);
        var d :| d in todo;
        entries := entries[d := entries[d].(indirectCages := entries[d].indirectCages + [ic])];
        assert entries == AddTo(b, R - (todo - {d}), ic);
        todo := todo - {d};
      }
      assert R - todo == R;
    }

    /** The last loop of `_connect_cages`: `update_valid_values` on every
        cell in row-major order, its result ignored. */
    method UpdateAll() returns (ghost orders: seq<seq<Coord>>)
      requires Shape(entries)
      modifies this
      ensures |orders| == 81 && ListsMates(old(entries), orders)
      ensures entries == UpdatedEach(old(entries), orders) && cages == old(cages)
    {
      ghost var b := entries;
      orders := [];
      var i := 0;
      while i < 81
        invariant 0 <= i <= 81 && |orders| == i && ListsMates(b, orders)
        invariant entries == UpdatedEach(b, orders) && cages == old(cages)
        invariant forall d :: d in b ==> entries[d].cageEntries == b[d].cageEntries
      {
        var next;
        ghost var order;
        ghost var p := entries;
        next, order := UpdateValidValues(CoordAt(i));
        UpdatedKeepsShape(p, CoordAt(i), order);
        ListsMatesStep(b, orders, order);
        UpdatedEachStep(b, orders, order);
        orders := orders + [order];
        i := i + 1;
      }
    }

    /** The Killer vertex's `assign`: the peers are struck as in the
        Classic puzzle, then `update_valid_values` narrows c's cages; the
        cell that update returns, if any, replaces the one the strike loop
        found.  order is the order in which c's cage mates were listed. */
    method KillerAssign(c: Coord, v: int) returns (next: Option<Coord>, ghost order: seq<Coord>)
      requires Shape(entries) && InGrid(c)
      modifies this
      ensures Distinct(order) && InGridAll(order) && forall d :: d in order <==> d in old(entries)[c].cageEntries
      ensures entries == Updated(Struck(old(entries), c, v), c, order) && cages == old(cages)
      ensures UpdatedNext(Struck(old(entries), c, v), c, order).Some? ==> next == UpdatedNext(Struck(old(entries), c, v), c, order)
      ensures UpdatedNext(Struck(old(entries), c, v), c, order).None? ==>
        if next.Some? then
          next.value in Peers(c) && Struck(old(entries), c, v)[next.value].value.None?
          && |Struck(old(entries), c, v)[next.value].candidates| == 1
        else
          forall d :: d in Peers(c) && Struck(old(entries), c, v)[d].value.None? ==> |Struck(old(entries), c, v)[d].candidates| != 1
    {
      var board;
      board, next := StrikePeers(entries, c, v);
      ShapeKept(entries, board);
      entries := board;
      var result;
      result, order := UpdateValidValues(c);
      if result.Some? {
        next := result;
      }
    }

    /** `update_valid_values` of the Killer vertex at c: narrows c's
        direct cage, listed as its cage mates followed by c, and then each
        of its indirect cages in turn; returns the cell the last of these
        updates to return one returned.  Each indirect cage keeps the
        member order the update leaves; the new orders are stored in c
        once all cages are done, which no update in between can tell
        apart, since none reads them. */
    method UpdateValidValues(c: Coord) returns (next: Option<Coord>, ghost order: seq<Coord>)
      requires Shape(entries) && InGrid(c)
      modifies this
      ensures Distinct(order) && InGridAll(order) && forall d :: d in order <==> d in old(entries)[c].cageEntries
      ensures entries == Updated(old(entries), c, order) && cages == old(cages)
      ensures next == UpdatedNext(old(entries), c, order)
    {
      ghost var b := entries;
      var cell := entries[c];
      var mates := ListOf(cell.cageEntries);
      order := mates;
      assert InGridAll(mates + [c]);
      var direct := new Coord[|mates| + 1](i requires 0 <= i <= |mates| => if i < |mates| then mates[i] else c);
      assert direct[..] == mates + [c];
      next := UpdateCageValidValues(direct, cell.cageSum);
      NarrowedNarrows(b, mates + [c], cell.cageSum);
      var reordered;
      next, reordered := UpdateIndirect(b, cell.indirectCages, next);
      entries := entries[c := entries[c].(indirectCages := reordered)];
    }

    /** The loop of `update_valid_values` over the indirect cages ics,
        starting from the cell first returned by the direct cage.  Returns
        the cages with their members in the order the updates leave. */
    method UpdateIndirect(ghost b: Board, ics: seq<IndirectCage>, first: Option<Coord>)
      returns (next: Option<Coord>, reordered: seq<IndirectCage>)
      requires b.Keys == AllCoords() && WellFormed(ics) && Narrower(b, entries)
      modifies this
      ensures entries == NarrowAll(old(entries), ics) && Narrower(b, entries) && cages == old(cages)
      ensures next == ForcedAll(old(entries), ics, first)
      ensures reordered == Reordered(b, ics)
    {
      ghost var b1 := entries;
      next := first;
      reordered := [];
      CascadeStart(b, b1, ics, first);
      var k := 0;
      while k < |ics|
        invariant 0 <= k <= |ics| && cages == old(cages)
        invariant Cascaded(b, b1, ics, first, k, entries, next, reordered)
      {
        CascadeNext(b, b1, ics, first, k, entries, next, reordered);
        var r, cage := UpdateIndirectCage(ics[k]);
        if r.Some? {
          next := r;
        }
        reordered := reordered + [cage];
        k := k + 1;
      }
      CascadeEnd(b, b1, ics, first, entries, next, reordered);
    }

    /** One pass of that loop: `update_cage_valid_values` on the members of
        indirect cage ic, which it reorders in place. */
    method UpdateIndirectCage(ic: IndirectCage) returns (next: Option<Coord>, reordered: IndirectCage)
      requires Members(entries, ic.entries)
      modifies this
      ensures entries == Narrowed(old(entries), ic.entries, ic.sum) && cages == old(cages)
      ensures next == Forced(old(entries), ic.entries, ic.sum)
      ensures reordered == ic.(entries := Partition(old(entries), ic.entries))
    {
      var members := new Coord[|ic.entries|](j requires 0 <= j < |ic.entries| => ic.entries[j]);
      assert members[..] == ic.entries;
      next := UpdateCageValidValues(members, ic.sum);
      reordered := ic.(entries := members[..]);
    }

    /** `list(s)` for a set of cells: each cell once, in the order the set
        yields them. */
    static method ListOf(s: set<Coord>) returns (r: seq<Coord>)
      ensures Distinct(r) && forall d :: d in r <==> d in s
    {
      r := [];
      var todo := s;
      while todo != {}
        invariant todo <= s && Distinct(r)
        invariant forall d :: d in r <==> d in s && d !in todo
        decreases todo
      {
        ghost var w := Pick(todo);
        var d :| d in todo;
        r := r + [d];
        todo := todo - {d};
      }
    }

    /** `update_cage_valid_values` on the cage whose members are listed in
        members, with sum total.  The two-index pass moves the assigned
        members to the front of the list in place; the enumeration of
        `update_cage` then collects the reach of every open member, each
        open member's candidates are intersected with its reach, and the
        last open member whose reach is a single value is returned. */
    method UpdateCageValidValues(members: array<Coord>, total: int) returns (next: Option<Coord>)
      requires Members(entries, members[..])
      modifies this, members
      ensures members[..] == Partition(old(entries), old(members[..]))
      ensures entries == Narrowed(old(entries), old(members[..]), total) && cages == old(cages)
      ensures next == Forced(old(entries), old(members[..]), total)
    {
      ghost var s := members[..];
      var hasValue := Split(members);
      FirstOpenIs(entries, members[..], hasValue);
      if hasValue == members.Length {
        return None;
      }
      var board;
      board, next := NarrowOpen(entries, members[..], hasValue, total);
      entries := board;
    }

    /** The enumeration and the intersection of `update_cage_valid_values`
        on members ms, of which the first h are assigned. */
    static method NarrowOpen(b: Board, ms: seq<Coord>, h: nat, total: int) returns (board: Board, next: Option<Coord>)
      requires Members(b, ms) && h < |ms| && forall i :: 0 <= i < h ==> b[ms[i]].value.Some?
      ensures board == Prune(b, ms, KnownValues(b, ms, h), total)
      ensures next == LastSingle(b, ms, KnownValues(b, ms, h), total, |ms|)
    {
      var known := KnownValues(b, ms, h);
      var reach := new set<int>[|ms|](_ => {});
      var _ := UpdateCage(b, known, ms, reach, total);
      forall j | h <= j < |ms|
        ensures reach[..][j] == Reach(b, ms, known, total, j)
      {
        assert {} + Reach(b, ms, known, total, j) == Reach(b, ms, known, total, j);
      }
      board, next := Intersect(b, ms, known, total, reach[..]);
    }

    /** The last loop of `update_cage_valid_values`: each open member's
        candidates are intersected with what `update_cage` collected for
        it, and the last member that collected a single value is
        returned. */
    static method Intersect(b: Board, ms: seq<Coord>, known: seq<int>, total: int, reach: seq<set<int>>)
      returns (board: Board, next: Option<Coord>)
      requires Members(b, ms) && |known| < |ms| == |reach|
      requires forall j :: |known| <= j < |ms| ==> reach[j] == Reach(b, ms, known, total, j)
      ensures board == Prune(b, ms, known, total)
      ensures next == LastSingle(b, ms, known, total, |ms|)
    {
      board := b;
      next := None;
      var i := |known|;
      while i < |ms|
        invariant |known| <= i <= |ms|
        invariant board == PruneUpTo(b, ms, known, total, i)
        invariant next == LastSingle(b, ms, known, total, i)
      {
        var c := ms[i];
        PruneUpToNext(b, ms, known, total, i, reach[i]);
        board := board[c := board[c].(candidates := board[c].candidates * reach[i])];
        if |reach[i]| == 1 {
          next := Some(c);
        }
        i := i + 1;
      }
    }

    /** The two-index pass of `update_cage_valid_values`: returns the
        number of assigned members, which it leaves at the front. */
    method Split(members: array<Coord>) returns (hasValue: nat)
      requires Members(entries, members[..])
      modifies members
      ensures members[..] == Partition(entries, old(members[..]))
      ensures hasValue <= members.Length
      ensures forall i :: 0 <= i < hasValue ==> entries[members[i]].value.Some?
      ensures hasValue < members.Length ==> entries[members[hasValue]].value.None?
    {
      ghost var s := members[..];
      hasValue := 0;
      var noValue := members.Length;
      while hasValue != noValue
        invariant hasValue <= noValue <= members.Length
        invariant forall i :: 0 <= i < members.Length ==> members[i] in entries
        invariant PartitionFrom(entries, members[..], hasValue, noValue) == Partition(entries, s)
        invariant forall i :: 0 <= i < hasValue ==> entries[members[i]].value.Some?
        invariant forall i :: noValue <= i < members.Length ==> entries[members[i]].value.None?
        decreases noValue - hasValue
      {
        if entries[members[hasValue]].value.Some? {
          hasValue := hasValue + 1;
        } else {
          ghost var t := members[..];
          members[hasValue], members[noValue - 1] := members[noValue - 1], members[hasValue];
          assert members[..] == t[hasValue := t[noValue - 1]][noValue - 1 := t[hasValue]];
          noValue := noValue - 1;
        }
      }
    }

    /** `solve`: propagation with chronological backtracking.  The search
        picks the next cell; a hidden single or a lone candidate is
        assigned; a cell with no candidate sends the solver back to the
        last guess, whose board is restored with the guessed value struck
        out; otherwise the board is saved and the cell gets a guess.  A cell
        reported by an assignment is worked on next.  The source loops
        until a verdict; here each pass costs one unit of fuel, and running
        out restores the board. */
    method Solve(fuel: nat) returns (r: Outcome)
      requires Sound(entries)
      modifies this
      ensures cages == old(cages)
      ensures r == Solved ==> Sound(entries) && Complete(entries) && FilledOut(entries) && Extends(old(entries), entries)
      ensures r != Solved ==> entries == old(entries)
    {
      var original := entries;
      var states: seq<Frame> := [];
      var entry, unique := SearchEntry();
      var steps := fuel;
      while entry.Some?
        invariant Sound(entries) && Extends(original, entries) && cages == old(cages)
        invariant entry.Some? ==> InGrid(entry.value)
        invariant unique.Some? ==> entry.Some? && unique.value in entries[entry.value].candidates
        invariant entry.None? ==> Complete(entries)
        invariant Saved(states, original)
        decreases steps
      {
        if steps == 0 {
          entries := original;
          return OutOfFuel;
        }
        steps := steps - 1;
        var next, stuck;
        next, states, stuck := Step(entry.value, unique, states, original);
        if stuck {
          entries := original;
          return Unsolvable;
        }
        if next.Some? {
          entry, unique := next, None;
        } else {
          entry, unique := SearchEntry();
        }
      }
      CompleteIsFilledOut(entries);
      return Solved;
    }

    /** `_search` on the board: the cell to work on and its hidden single,
        if any, or no cell when every cell is filled. */
    method SearchEntry() returns (entry: Option<Coord>, unique: Option<int>)
      requires entries.Keys == AllCoords()
      ensures entry.Some? ==> InGrid(entry.value) && entries[entry.value].value.None?
      ensures unique.Some? ==> entry.Some? && HiddenSingle(entries, entry.value, unique.value)
      ensures entry.None? ==> Complete(entries)
    {
      var found := SearchBoard(entries);
      entry := if found.Next? then Some(found.cell) else None;
      unique := if found.Next? then found.unique else None;
    }

    /** One pass of the loop of `solve` on the cell c the search or the
        last assignment picked: it reports the cell to work on next, the
        new stack of saved boards, and whether a dead end was met with no
        saved board left (the board is then left as it was). */
    method Step(c: Coord, unique: Option<int>, states: seq<Frame>, ghost original: Board)
      returns (next: Option<Coord>, states': seq<Frame>, stuck: bool)
      requires Sound(entries) && Extends(original, entries) && InGrid(c)
      requires unique.Some? ==> unique.value in entries[c].candidates
      requires Saved(states, original)
      modifies this
      ensures cages == old(cages)
      ensures stuck <==> unique.None? && old(entries)[c].candidates == {} && states == []
      ensures stuck ==> states == [] && entries == old(entries)
      ensures !stuck ==> Sound(entries) && Extends(original, entries) && Saved(states', original)
      ensures !stuck && next.Some? ==> InGrid(next.value)
    {
      ghost var order;
      stuck := false;
      states' := states;
      if unique.Some? {
        next, order := Assign(c, unique.value);
      } else if |entries[c].candidates| == 0 {
        if states == [] {
          return None, states, true;
        }
        var f := states[|states| - 1];
        SavedPop(states, original);
        states' := states[..|states| - 1];
        Backtrack(f);
        next := Some(f.coordinate);
      } else if |entries[c].candidates| == 1 {
        ghost var w := Pick(entries[c].candidates);
        var v :| v in entries[c].candidates;
        next, order := Assign(c, v);
      } else {
        var f := RecordState(c);
        SavedPush(states, f, original);
        states' := states + [f];
        next, order := Assign(c, f.choice);
      }
    }

    /** The dead-end branch of `solve`: the saved board comes back with the
        guessed value struck from the guessed cell. */
    method Backtrack(f: Frame)
      requires Sound(f.snapshot) && InGrid(f.coordinate)
      modifies this
      ensures entries == f.snapshot[f.coordinate := f.snapshot[f.coordinate].(candidates := f.snapshot[f.coordinate].candidates - {f.choice})]
      ensures Sound(entries) && Extends(f.snapshot, entries) && cages == old(cages)
    {
      entries := f.snapshot;
      var d := f.coordinate;
      entries := entries[d := entries[d].(candidates := entries[d].candidates - {f.choice})];
      assert Narrower(f.snapshot, entries);
      NarrowerKeepsSound(f.snapshot, entries);
    }

    /** `_record_state`: a copy of the board, the value to guess at c and c
        itself.  The guess is whichever candidate the set yields first. */
    method RecordState(c: Coord) returns (f: Frame)
      requires entries.Keys == AllCoords() && InGrid(c) && entries[c].candidates != {}
      ensures f.snapshot == entries && f.coordinate == c && f.choice in entries[c].candidates
    {
      ghost var w := Pick(entries[c].candidates);
      var choice :| choice in entries[c].candidates;
      f := Frame(entries, choice, c);
    }
  }
}
