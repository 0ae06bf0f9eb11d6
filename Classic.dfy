/** The effect of the Classic cell operations, as functions on boards.

    `Struck` is what assigning a value does, `Changed` what overwriting an
    assigned value does, `Cleared` what emptying a cell does.  The methods
    of `Puzzle.Sudoku` are proved to compute exactly these; the lemmas
    here show that the three keep a board canonical (every empty cell's
    candidates are the digits its peers do not hold) and that clearing
    undoes an assignment. */
module Classic {
  import opened Grid
  import opened Board

  /** The board after `value := Some(v)` at c: c loses its candidates and
      every empty peer loses v; nothing else changes. */
  function Struck(b: Board, c: Coord, v: int): (r: Board)
    requires b.Keys == AllCoords() && InGrid(c)
    ensures r.Keys == b.Keys
  {
    map d | d in b ::
      if d == c then b[d].(value := Some(v), candidates := {})
      else if d in Peers(c) && b[d].value.None? then b[d].(candidates := b[d].candidates - {v})
      else b[d]
  }

  /** No peer of d other than c holds w. */
  predicate FreeFor(b: Board, d: Coord, c: Coord, w: int)
    requires b.Keys == AllCoords() && InGrid(d)
  {
    forall u :: u in Peers(d) && u != c ==> b[u].value != Some(w)
  }

  /** What an empty peer d gets back when c gives up w. */
  function Back(b: Board, d: Coord, c: Coord, w: int): set<int>
    requires b.Keys == AllCoords() && InGrid(d)
  {
    if FreeFor(b, d, c, w) then {w} else {}
  }

  /** The board after the assigned cell c changes its value to v: every
      empty peer gets c's old value back unless another of its peers still
      holds it, and then loses v. */
  function Changed(b: Board, c: Coord, v: int): (r: Board)
    requires b.Keys == AllCoords() && InGrid(c) && b[c].value.Some?
    ensures r.Keys == b.Keys
  {
    var w := b[c].value.value;
    map d | d in b ::
      if d == c then b[d].(value := Some(v))
      else if d in Peers(c) && b[d].value.None? then
        b[d].(candidates := (b[d].candidates + Back(b, d, c, w)) - {v})
      else b[d]
  }

  /** The board after the cell c is emptied: an assigned c gets as
      candidates the digits its peers do not hold, and its empty peers get
      its old value back unless another of their peers holds it; an empty
      c is left alone. */
  function Cleared(b: Board, c: Coord): (r: Board)
    requires b.Keys == AllCoords() && InGrid(c)
    ensures r.Keys == b.Keys
  {
    if b[c].value.None? then b
    else
      var w := b[c].value.value;
      map d | d in b ::
        if d == c then b[d].(value := None, candidates := Digits - HeldByPeers(b, c))
        else if d in Peers(c) && b[d].value.None? then
          b[d].(candidates := b[d].candidates + Back(b, d, c, w))
        else b[d]
  }

  /** Values are digits, assigned peers differ, an assigned cell has no
      candidates and an empty cell's candidates are exactly the digits
      its peers do not hold. */
  ghost predicate Canonical(b: Board) {
    b.Keys == AllCoords()
    && (forall c :: c in b && b[c].value.Some? ==> b[c].value.value in Digits && b[c].candidates == {})
    && (forall c, d :: c in b && d in Peers(c) && b[c].value.Some? ==> b[d].value != b[c].value)
    && (forall c :: c in b && b[c].value.None? ==> b[c].candidates == Digits - HeldByPeers(b, c))
  }

  /** A whole-board reset: every value gone, every digit a candidate. */
  function Reset(b: Board): (r: Board)
    ensures r.Keys == b.Keys
  {
    map d | d in b :: b[d].(value := None, candidates := Digits)
  }

  /** `Reset` with the cells in T not yet visited. */
  ghost function ResetExcept(b: Board, T: set<Coord>): (r: Board)
    ensures r.Keys == b.Keys
  {
    map d | d in b :: if d in T then b[d] else b[d].(value := None, candidates := Digits)
  }

  lemma ResetExceptEnds(b: Board)
    ensures ResetExcept(b, b.Keys) == b && ResetExcept(b, {}) == Reset(b)
  {
    var r := ResetExcept(b, b.Keys);
    assert forall u :: u in r ==> r[u] == b[u];
  }

  lemma ResetExceptStep(b: Board, T: set<Coord>, d: Coord)
    requires d in T && T <= b.Keys
    ensures ResetExcept(b, T)[d] == b[d]
    ensures ResetExcept(b, T - {d}) == ResetExcept(b, T)[d := b[d].(value := None, candidates := Digits)]
  {
    var r := ResetExcept(b, T - {d});
    var f := ResetExcept(b, T)[d := b[d].(value := None, candidates := Digits)];
    assert forall u :: u in r ==> r[u] == f[u];
  }

  lemma ResetIsCanonical(b: Board)
    requires b.Keys == AllCoords()
    ensures Canonical(Reset(b))
  {
    var r := Reset(b);
    forall c | c in r
      ensures HeldByPeers(r, c) == {}
    {
    }
  }

  lemma HeldAfterStrike(b: Board, c: Coord, v: int, d: Coord)
    requires b.Keys == AllCoords() && InGrid(c) && b[c].value.None? && v in Digits && InGrid(d)
    ensures HeldByPeers(Struck(b, c, v), d) == HeldByPeers(b, d) + (if c in Peers(d) then {v} else {})
  {
    var r := Struck(b, c, v);
    if c in Peers(d) {
      assert r[c].value == Some(v);
    }
  }

  /** Assigning a candidate keeps a board canonical. */
  lemma StruckKeepsCanonical(b: Board, c: Coord, v: int)
    requires Canonical(b) && InGrid(c) && b[c].value.None? && v in b[c].candidates
    ensures Canonical(Struck(b, c, v))
  {
    var r := Struck(b, c, v);
    forall d | d in r && r[d].value.None?
      ensures r[d].candidates == Digits - HeldByPeers(r, d)
    {
      HeldAfterStrike(b, c, v, d);
      PeersSymmetric(c, d);
    }
    forall d, e | d in r && e in Peers(d) && r[d].value.Some?
      ensures r[e].value != r[d].value
    {
      PeersSymmetric(d, e);
      if d == c && r[e].value.Some? {
        assert b[e].value.value in HeldByPeers(b, c);
      } else if e == c {
        assert b[d].value.value in HeldByPeers(b, c);
      }
    }
  }

  lemma HeldAfterChange(b: Board, c: Coord, v: int, d: Coord)
    requires b.Keys == AllCoords() && InGrid(c) && b[c].value.Some? && v in Digits && InGrid(d) && d in Peers(c)
    ensures HeldByPeers(Changed(b, c, v), d)
      == (HeldByPeers(b, d) - (if FreeFor(b, d, c, b[c].value.value) then {b[c].value.value} else {})) + {v}
  {
    var r := Changed(b, c, v);
    var w := b[c].value.value;
    PeersSymmetric(c, d);
    assert r[c].value == Some(v);
    forall x | x in Digits
      ensures x in HeldByPeers(r, d) <==> (x in HeldByPeers(b, d) && !(x == w && FreeFor(b, d, c, w))) || x == v
    {
      if x in HeldByPeers(r, d) && x != v {
        var u :| u in Peers(d) && r[u].value == Some(x);
        assert u != c && b[u].value == Some(x);
      }
      if x in HeldByPeers(b, d) && !(x == w && FreeFor(b, d, c, w)) && x != v {
        var u :| u in Peers(d) && b[u].value == Some(x);
        if u == c {
          var u' :| u' in Peers(d) && u' != c && b[u'].value == Some(w);
          assert r[u'].value == Some(x);
        } else {
          assert r[u].value == Some(x);
        }
      }
    }
  }

  /** Two boards whose values agree on the peers of d give d the same
      held values. */
  lemma HeldBySameValues(b: Board, r: Board, d: Coord)
    requires b.Keys == AllCoords() && r.Keys == AllCoords() && InGrid(d)
    requires forall u :: u in Peers(d) ==> r[u].value == b[u].value
    ensures HeldByPeers(r, d) == HeldByPeers(b, d)
  {
  }

  lemma ChangedCell(b: Board, c: Coord, v: int, d: Coord)
    requires b.Keys == AllCoords() && InGrid(c) && b[c].value.Some? && b[c].value.value in Digits && v in Digits
    requires InGrid(d) && d != c && b[d].value.None? && b[d].candidates == Digits - HeldByPeers(b, d)
    ensures Changed(b, c, v)[d].candidates == Digits - HeldByPeers(Changed(b, c, v), d)
  {
    PeersSymmetric(c, d);
    if d in Peers(c) {
      HeldAfterChange(b, c, v, d);
    } else {
      HeldBySameValues(b, Changed(b, c, v), d);
    }
  }

  /** Changing an assigned cell to a digit no peer holds keeps a board
      canonical. */
  lemma ChangedKeepsCanonical(b: Board, c: Coord, v: int)
    requires Canonical(b) && InGrid(c) && b[c].value.Some? && v in Digits
    requires forall d :: d in Peers(c) ==> b[d].value != Some(v)
    ensures Canonical(Changed(b, c, v))
  {
    var r := Changed(b, c, v);
    forall d | d in r && r[d].value.None?
      ensures r[d].candidates == Digits - HeldByPeers(r, d)
    {
      ChangedCell(b, c, v, d);
    }
    forall d, e | d in r && e in Peers(d) && r[d].value.Some?
      ensures r[e].value != r[d].value
    {
      PeersSymmetric(d, e);
    }
  }

  lemma HeldAfterClear(b: Board, c: Coord, d: Coord)
    requires b.Keys == AllCoords() && InGrid(c) && b[c].value.Some? && InGrid(d) && d in Peers(c)
    ensures HeldByPeers(Cleared(b, c), d)
      == HeldByPeers(b, d) - (if FreeFor(b, d, c, b[c].value.value) then {b[c].value.value} else {})
  {
    var r := Cleared(b, c);
    var w := b[c].value.value;
    PeersSymmetric(c, d);
    assert r[c].value == None;
    if !FreeFor(b, d, c, w) {
      var u :| u in Peers(d) && u != c && b[u].value == Some(w);
      assert r[u].value == Some(w);
    }
  }

  lemma ClearedCell(b: Board, c: Coord, d: Coord)
    requires b.Keys == AllCoords() && InGrid(c) && b[c].value.Some? && b[c].value.value in Digits
    requires InGrid(d) && (d == c || (b[d].value.None? && b[d].candidates == Digits - HeldByPeers(b, d)))
    ensures Cleared(b, c)[d].candidates == Digits - HeldByPeers(Cleared(b, c), d)
  {
    PeersSymmetric(c, d);
    if d == c || d !in Peers(c) {
      HeldBySameValues(b, Cleared(b, c), d);
    } else {
      HeldAfterClear(b, c, d);
    }
  }

  /** Clearing a cell keeps a board canonical. */
  lemma ClearedKeepsCanonical(b: Board, c: Coord)
    requires Canonical(b) && InGrid(c)
    ensures Canonical(Cleared(b, c))
  {
    if b[c].value.Some? {
      var r := Cleared(b, c);
      forall d | d in r && r[d].value.None?
        ensures r[d].candidates == Digits - HeldByPeers(r, d)
      {
        ClearedCell(b, c, d);
      }
      forall d, e | d in r && e in Peers(d) && r[d].value.Some?
        ensures r[e].value != r[d].value
      {
        PeersSymmetric(d, e);
      }
    }
  }

  lemma ClearUndoesStrikeAt(b: Board, c: Coord, v: int, d: Coord)
    requires b.Keys == AllCoords() && InGrid(c) && b[c].value.None? && v in Digits && InGrid(d)
    requires b[c].candidates == Digits - HeldByPeers(b, c)
    requires d in Peers(c) && b[d].value.None? ==> b[d].candidates == Digits - HeldByPeers(b, d)
    ensures Cleared(Struck(b, c, v), c)[d] == b[d]
  {
    var s := Struck(b, c, v);
    if d == c {
      HeldBySameValues(b, s, c);
    } else if d in Peers(c) && b[d].value.None? {
      PeersSymmetric(c, d);
      assert FreeFor(s, d, c, v) <==> v !in HeldByPeers(b, d);
    }
  }

  /** Clearing a cell that was just assigned restores the board. */
  lemma ClearUndoesStrike(b: Board, c: Coord, v: int)
    requires Canonical(b) && InGrid(c) && b[c].value.None? && v in b[c].candidates
    ensures Cleared(Struck(b, c, v), c) == b
  {
    var r := Cleared(Struck(b, c, v), c);
    assert b[c].candidates == Digits - HeldByPeers(b, c);
    forall d | d in b
      ensures r[d] == b[d]
    {
      ClearUndoesStrikeAt(b, c, v, d);
    }
    assert r.Keys == b.Keys;
  }

  lemma ChangeBackAt(b: Board, c: Coord, v: int, d: Coord)
    requires b.Keys == AllCoords() && InGrid(c) && b[c].value.Some? && b[c].value.value in Digits && v in Digits
    requires forall e :: e in Peers(c) ==> b[e].value != Some(v)
    requires InGrid(d) && (d in Peers(c) && b[d].value.None? ==> b[d].candidates == Digits - HeldByPeers(b, d))
    ensures Changed(Changed(b, c, v), c, b[c].value.value)[d] == b[d]
  {
    if d in Peers(c) && b[d].value.None? {
      ChangeBackPeer(b, c, v, d);
    }
  }

  /** The case of an empty peer: it gets v back exactly when it had it. */
  lemma ChangeBackPeer(b: Board, c: Coord, v: int, d: Coord)
    requires b.Keys == AllCoords() && InGrid(c) && b[c].value.Some? && b[c].value.value in Digits && v in Digits
    requires forall e :: e in Peers(c) ==> b[e].value != Some(v)
    requires d in Peers(c) && b[d].value.None? && b[d].candidates == Digits - HeldByPeers(b, d)
    ensures Changed(Changed(b, c, v), c, b[c].value.value)[d] == b[d]
  {
    var w := b[c].value.value;
    var s := Changed(b, c, v);
    var t := Changed(s, c, w);
    PeersSymmetric(c, d);
    assert w in HeldByPeers(b, d);
    assert s[d].candidates == (b[d].candidates + Back(b, d, c, w)) - {v};
    assert t[d].candidates == (s[d].candidates + Back(s, d, c, v)) - {w};
    assert v != w ==> (FreeFor(s, d, c, v) <==> v !in HeldByPeers(b, d));
    Restore(b[d].candidates, Back(b, d, c, w), Back(s, d, c, v), v, w);
  }

  /** Giving w back and taking v, then giving v back and taking w, leaves
      a set without w as it was, when v comes back exactly if it was there. */
  lemma Restore(x: set<int>, back: set<int>, back': set<int>, v: int, w: int)
    requires w !in x && back <= {w} && back' <= {v}
    requires v != w ==> (back' == {v} <==> v in x)
    ensures (((x + back) - {v}) + back') - {w} == x
  {
  }

  /** Changing a cell and changing it back restores the board. */
  lemma ChangeBackRestores(b: Board, c: Coord, v: int)
    requires Canonical(b) && InGrid(c) && b[c].value.Some? && v in Digits
    requires forall d :: d in Peers(c) ==> b[d].value != Some(v)
    ensures Changed(Changed(b, c, v), c, b[c].value.value) == b
  {
    forall d | d in b
      ensures Changed(Changed(b, c, v), c, b[c].value.value)[d] == b[d]
    {
      ChangeBackAt(b, c, v, d);
    }
  }

  lemma StruckDigits(b: Board, c: Coord, v: int)
    requires b.Keys == AllCoords() && InGrid(c) && DigitsOnly(b) && v in b[c].candidates
    ensures DigitsOnly(Struck(b, c, v))
  {
  }

  lemma StruckDiffer(b: Board, c: Coord, v: int)
    requires b.Keys == AllCoords() && InGrid(c) && b[c].value.None? && v in b[c].candidates
    requires PeersDiffer(b) && PeersStruck(b)
    ensures PeersDiffer(Struck(b, c, v))
  {
    var r := Struck(b, c, v);
    forall d, e | d in r && e in Peers(d) && r[d].value.Some? && r[e].value.Some?
      ensures r[d].value != r[e].value
    {
      PeersSymmetric(d, e);
    }
  }

  lemma StruckStrikes(b: Board, c: Coord, v: int)
    requires b.Keys == AllCoords() && InGrid(c) && b[c].value.None?
    requires PeersStruck(b)
    ensures PeersStruck(Struck(b, c, v))
  {
    var r := Struck(b, c, v);
    forall d, e | d in r && e in Peers(d) && r[d].value.Some? && r[e].value.None?
      ensures r[d].value.value !in r[e].candidates
    {
      PeersSymmetric(d, e);
    }
  }

  /** Assigning a candidate keeps a board sound and keeps every value it
      held. */
  lemma StruckKeepsSound(b: Board, c: Coord, v: int)
    requires Sound(b) && InGrid(c) && v in b[c].candidates
    ensures Sound(Struck(b, c, v)) && Extends(b, Struck(b, c, v))
  {
    ShapeKept(b, Struck(b, c, v));
    StruckDigits(b, c, v);
    StruckDiffer(b, c, v);
    StruckStrikes(b, c, v);
  }

  lemma ChangedDigits(b: Board, c: Coord, v: int)
    requires b.Keys == AllCoords() && InGrid(c) && b[c].value.Some? && DigitsOnly(b) && v in Digits
    ensures DigitsOnly(Changed(b, c, v))
  {
  }

  lemma ChangedDiffer(b: Board, c: Coord, v: int)
    requires b.Keys == AllCoords() && InGrid(c) && b[c].value.Some?
    requires forall d :: d in Peers(c) ==> b[d].value != Some(v)
    requires PeersDiffer(b)
    ensures PeersDiffer(Changed(b, c, v))
  {
    var r := Changed(b, c, v);
    forall d, e | d in r && e in Peers(d) && r[d].value.Some? && r[e].value.Some?
      ensures r[d].value != r[e].value
    {
      PeersSymmetric(d, e);
    }
  }

  lemma ChangedStrikes(b: Board, c: Coord, v: int)
    requires b.Keys == AllCoords() && InGrid(c) && b[c].value.Some?
    requires PeersDiffer(b) && PeersStruck(b)
    ensures PeersStruck(Changed(b, c, v))
  {
    var r := Changed(b, c, v);
    forall d, e | d in r && e in Peers(d) && r[d].value.Some? && r[e].value.None?
      ensures r[d].value.value !in r[e].candidates
    {
      PeersSymmetric(d, e);
      PeersSymmetric(c, e);
    }
  }

  /** Changing an assigned cell to a digit no peer holds keeps a board
      sound. */
  lemma ChangedKeepsSound(b: Board, c: Coord, v: int)
    requires Sound(b) && InGrid(c) && b[c].value.Some? && v in Digits
    requires forall d :: d in Peers(c) ==> b[d].value != Some(v)
    ensures Sound(Changed(b, c, v))
  {
    ShapeKept(b, Changed(b, c, v));
    ChangedDigits(b, c, v);
    ChangedDiffer(b, c, v);
    ChangedStrikes(b, c, v);
  }

  lemma ClearedDigits(b: Board, c: Coord)
    requires b.Keys == AllCoords() && InGrid(c) && DigitsOnly(b)
    ensures DigitsOnly(Cleared(b, c))
  {
  }

  lemma ClearedDiffer(b: Board, c: Coord)
    requires b.Keys == AllCoords() && InGrid(c) && b[c].value.Some?
    requires PeersDiffer(b)
    ensures PeersDiffer(Cleared(b, c))
  {
    var r := Cleared(b, c);
    forall d, e | d in r && e in Peers(d) && r[d].value.Some? && r[e].value.Some?
      ensures r[d].value != r[e].value
    {
      PeersSymmetric(d, e);
    }
  }

  lemma ClearedStrikes(b: Board, c: Coord)
    requires b.Keys == AllCoords() && InGrid(c) && b[c].value.Some?
    requires DigitsOnly(b) && PeersDiffer(b) && PeersStruck(b)
    ensures PeersStruck(Cleared(b, c))
  {
    var r := Cleared(b, c);
    forall d, e | d in r && e in Peers(d) && r[d].value.Some? && r[e].value.None?
      ensures r[d].value.value !in r[e].candidates
    {
      PeersSymmetric(d, e);
      PeersSymmetric(c, e);
      if e == c {
        assert r[d].value.value in HeldByPeers(b, c);
      }
    }
  }

  /** Emptying a cell keeps a board sound. */
  lemma ClearedKeepsSound(b: Board, c: Coord)
    requires Sound(b) && InGrid(c)
    ensures Sound(Cleared(b, c))
  {
    if b[c].value.Some? {
      ShapeKept(b, Cleared(b, c));
      ClearedDigits(b, c);
      ClearedDiffer(b, c);
      ClearedStrikes(b, c);
    }
  }

  // Partial effects, for the loops that visit the peers one at a time:
  // T is the set of peers still to visit.

  /** `Struck` with the peers in T not yet visited. */
  ghost function StruckExcept(b: Board, c: Coord, v: int, T: set<Coord>): (r: Board)
    requires b.Keys == AllCoords() && InGrid(c)
    ensures r.Keys == b.Keys
  {
    map d | d in b ::
      if d == c then b[d].(value := Some(v), candidates := {})
      else if d !in T && d in Peers(c) && b[d].value.None? then b[d].(candidates := b[d].candidates - {v})
      else b[d]
  }

  lemma StruckExceptEnds(b: Board, c: Coord, v: int)
    requires b.Keys == AllCoords() && InGrid(c)
    ensures StruckExcept(b, c, v, Peers(c)) == b[c := b[c].(value := Some(v), candidates := {})]
    ensures StruckExcept(b, c, v, {}) == Struck(b, c, v)
  {
    var r := StruckExcept(b, c, v, Peers(c));
    assert forall u :: u in r ==> r[u] == b[c := b[c].(value := Some(v), candidates := {})][u];
  }

  /** Visiting peer d strikes v from it when it is empty. */
  lemma StruckExceptStep(b: Board, c: Coord, v: int, T: set<Coord>, d: Coord)
    requires b.Keys == AllCoords() && InGrid(c) && d in Peers(c) && d in T
    ensures var e := StruckExcept(b, c, v, T);
      e[d] == b[d] &&
      StruckExcept(b, c, v, T - {d}) ==
        if e[d].value.None? then e[d := e[d].(candidates := e[d].candidates - {v})] else e
  {
    PeersSymmetric(c, c);
    var e := StruckExcept(b, c, v, T);
    var r := StruckExcept(b, c, v, T - {d});
    var f := if e[d].value.None? then e[d := e[d].(candidates := e[d].candidates - {v})] else e;
    assert forall u :: u in r ==> r[u] == f[u];
  }

  /** The peers of an assigned c, with those in T not yet visited, after
      c gives up its value for v; c itself is not yet changed. */
  ghost function ChangedExcept(b: Board, c: Coord, v: int, T: set<Coord>): (r: Board)
    requires b.Keys == AllCoords() && InGrid(c) && b[c].value.Some?
    ensures r.Keys == b.Keys
    ensures forall u :: u in b ==> r[u].value == b[u].value
  {
    var w := b[c].value.value;
    map d | d in b ::
      if d !in T && d in Peers(c) && b[d].value.None? then
        b[d].(candidates := (b[d].candidates + Back(b, d, c, w)) - {v})
      else b[d]
  }

  lemma ChangedExceptEnds(b: Board, c: Coord, v: int)
    requires b.Keys == AllCoords() && InGrid(c) && b[c].value.Some?
    ensures ChangedExcept(b, c, v, Peers(c)) == b
    ensures ChangedExcept(b, c, v, {})[c] == b[c]
    ensures ChangedExcept(b, c, v, {})[c := b[c].(value := Some(v))] == Changed(b, c, v)
  {
    PeersSymmetric(c, c);
    var r := ChangedExcept(b, c, v, Peers(c));
    assert forall u :: u in r ==> r[u] == b[u];
    var e := ChangedExcept(b, c, v, {});
    var f := e[c := b[c].(value := Some(v))];
    var g := Changed(b, c, v);
    forall u | u in g
      ensures f[u] == g[u]
    {
    }
    assert f.Keys == g.Keys;
  }

  lemma ChangedExceptStep(b: Board, c: Coord, v: int, T: set<Coord>, d: Coord)
    requires b.Keys == AllCoords() && InGrid(c) && b[c].value.Some? && d in Peers(c) && d in T
    ensures var e := ChangedExcept(b, c, v, T);
      e[d] == b[d] &&
      ChangedExcept(b, c, v, T - {d}) ==
        if e[d].value.None? then e[d := e[d].(candidates := (e[d].candidates + Back(b, d, c, b[c].value.value)) - {v})] else e
  {
    var w := b[c].value.value;
    var e := ChangedExcept(b, c, v, T);
    var r := ChangedExcept(b, c, v, T - {d});
    var f := if e[d].value.None? then e[d := e[d].(candidates := (e[d].candidates + Back(b, d, c, w)) - {v})] else e;
    forall u | u in r
      ensures r[u] == f[u]
    {
      if u != d {
        assert r[u] == e[u];
      }
    }
    assert r.Keys == f.Keys;
  }

  /** The peers of an assigned c, with those in T not yet visited, after
      c gives up its value; c itself is not yet emptied. */
  ghost function ClearedExcept(b: Board, c: Coord, T: set<Coord>): (r: Board)
    requires b.Keys == AllCoords() && InGrid(c) && b[c].value.Some?
    ensures r.Keys == b.Keys
    ensures forall u :: u in b ==> r[u].value == b[u].value
  {
    var w := b[c].value.value;
    map d | d in b ::
      if d !in T && d in Peers(c) && b[d].value.None? then
        b[d].(candidates := b[d].candidates + Back(b, d, c, w))
      else b[d]
  }

  /** The digits held by the peers of c outside T. */
  ghost function HeldExcept(b: Board, c: Coord, T: set<Coord>): set<int>
    requires b.Keys == AllCoords() && InGrid(c)
  {
    set v | v in Digits && exists d :: d in Peers(c) && d !in T && b[d].value == Some(v)
  }

  lemma ClearedExceptEnds(b: Board, c: Coord)
    requires b.Keys == AllCoords() && InGrid(c) && b[c].value.Some?
    ensures ClearedExcept(b, c, Peers(c)) == b && HeldExcept(b, c, Peers(c)) == {}
    ensures ClearedExcept(b, c, {})[c] == b[c]
    ensures HeldExcept(b, c, {}) == HeldByPeers(b, c)
    ensures ClearedExcept(b, c, {})[c := b[c].(value := None, candidates := Digits - HeldByPeers(b, c))] == Cleared(b, c)
  {
    PeersSymmetric(c, c);
    var r := ClearedExcept(b, c, Peers(c));
    assert forall u :: u in r ==> r[u] == b[u];
    var e := ClearedExcept(b, c, {});
    var f := e[c := b[c].(value := None, candidates := Digits - HeldByPeers(b, c))];
    var g := Cleared(b, c);
    forall u | u in g
      ensures f[u] == g[u]
    {
    }
    assert f.Keys == g.Keys;
  }

  lemma ClearedExceptStep(b: Board, c: Coord, T: set<Coord>, d: Coord)
    requires b.Keys == AllCoords() && InGrid(c) && b[c].value.Some? && d in Peers(c) && d in T
    ensures var e := ClearedExcept(b, c, T);
      e[d] == b[d] &&
      ClearedExcept(b, c, T - {d}) ==
        if e[d].value.None? then e[d := e[d].(candidates := e[d].candidates + Back(b, d, c, b[c].value.value))] else e
  {
    var w := b[c].value.value;
    var e := ClearedExcept(b, c, T);
    var r := ClearedExcept(b, c, T - {d});
    var f := if e[d].value.None? then e[d := e[d].(candidates := e[d].candidates + Back(b, d, c, w))] else e;
    forall u | u in r
      ensures r[u] == f[u]
    {
      if u != d {
        assert r[u] == e[u];
      }
    }
    assert r.Keys == f.Keys;
  }

  /** Visiting peer d adds its value, if it is a digit, to the values
      held outside T. */
  lemma HeldExceptStep(b: Board, c: Coord, T: set<Coord>, d: Coord)
    requires b.Keys == AllCoords() && InGrid(c) && d in Peers(c) && d in T
    ensures HeldExcept(b, c, T - {d}) == HeldExcept(b, c, T) + (if b[d].value.Some? then {b[d].value.value} * Digits else {})
  {
  }

  /** Back only looks at values. */
  lemma BackSameValues(b: Board, r: Board, d: Coord, c: Coord, w: int)
    requires b.Keys == AllCoords() && r.Keys == AllCoords() && InGrid(d)
    requires forall u :: u in b ==> r[u].value == b[u].value
    ensures Back(r, d, c, w) == Back(b, d, c, w)
  {
    assert FreeFor(r, d, c, w) == FreeFor(b, d, c, w);
  }
}
