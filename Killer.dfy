/** What `update_cage_valid_values` does to a board, as functions on
    values: once the members of a cage are ordered with the assigned ones
    first, every open member keeps exactly the candidates that some
    completion of the cage uses. */
module Killer {
  import opened Grid
  import opened Board
  import opened CageSum

  /** The members before any open member are all assigned. */
  ghost predicate AssignedFirst(b: Board, ms: seq<Coord>)
    requires forall i :: 0 <= i < |ms| ==> ms[i] in b
  {
    forall i, j :: 0 <= i < j < |ms| && b[ms[j]].value.Some? ==> b[ms[i]].value.Some?
  }

  /** The two-index pass of `update_cage_valid_values` over s[h..n]:
      an assigned member at h stays and h moves on; an open one is swapped
      with the member at n - 1 and n moves back. */
  function PartitionFrom(b: Board, s: seq<Coord>, h: nat, n: nat): (r: seq<Coord>)
    requires h <= n <= |s| && forall i :: 0 <= i < |s| ==> s[i] in b
    ensures |r| == |s| && forall i :: 0 <= i < |r| ==> r[i] in b
    decreases n - h
  {
    if h == n then s
    else if b[s[h]].value.Some? then PartitionFrom(b, s, h + 1, n)
    else PartitionFrom(b, s[h := s[n - 1]][n - 1 := s[h]], h, n - 1)
  }

  /** The pass permutes the members. */
  lemma {:induction false} PartitionFromPermutes(b: Board, s: seq<Coord>, h: nat, n: nat)
    requires h <= n <= |s| && forall i :: 0 <= i < |s| ==> s[i] in b
    ensures |PartitionFrom(b, s, h, n)| == |s| && multiset(PartitionFrom(b, s, h, n)) == multiset(s)
    decreases n - h
  {
    if h < n {
      if b[s[h]].value.Some? {
        PartitionFromPermutes(b, s, h + 1, n);
      } else {
        var t := s[h := s[n - 1]][n - 1 := s[h]];
        PartitionFromPermutes(b, t, h, n - 1);
      }
    }
  }

  /** A permutation of members is made of members. */
  lemma MembersPermutation(b: Board, s: seq<Coord>, r: seq<Coord>)
    requires Members(b, s) && multiset(r) == multiset(s)
    ensures Members(b, r)
  {
    forall i | 0 <= i < |r| ensures InGrid(r[i]) {
      assert r[i] in multiset(s);
    }
  }

  /** Once the members before h are assigned and those from n on are
      open, the pass leaves the assigned ones first. */
  lemma {:induction false} PartitionFromSplits(b: Board, s: seq<Coord>, h: nat, n: nat)
    requires h <= n <= |s| && forall i :: 0 <= i < |s| ==> s[i] in b
    requires forall i :: 0 <= i < h ==> b[s[i]].value.Some?
    requires forall i :: n <= i < |s| ==> b[s[i]].value.None?
    ensures AssignedFirst(b, PartitionFrom(b, s, h, n))
    decreases n - h
  {
    if h < n {
      if b[s[h]].value.Some? {
        PartitionFromSplits(b, s, h + 1, n);
      } else {
        var t := s[h := s[n - 1]][n - 1 := s[h]];
        assert forall i :: n - 1 <= i < |s| ==> b[t[i]].value.None?;
        PartitionFromSplits(b, t, h, n - 1);
      }
    }
  }

  /** The member order `update_cage_valid_values` leaves behind. */
  function Partition(b: Board, s: seq<Coord>): (r: seq<Coord>)
    requires Members(b, s)
  {
    PartitionFrom(b, s, 0, |s|)
  }

  /** The partition is a permutation that puts the assigned members first;
      it keeps the members distinct and in the grid. */
  lemma PartitionPermutes(b: Board, s: seq<Coord>)
    requires Members(b, s)
    ensures Members(b, Partition(b, s))
    ensures multiset(Partition(b, s)) == multiset(s) && AssignedFirst(b, Partition(b, s))
    ensures Distinct(s) ==> Distinct(Partition(b, s))
  {
    var r := Partition(b, s);
    PartitionFromPermutes(b, s, 0, |s|);
    MembersPermutation(b, s, r);
    PartitionFromSplits(b, s, 0, |s|);
    if Distinct(s) {
      DistinctPermutation(s, r);
    }
  }

  lemma DistinctPermutation<T>(s: seq<T>, r: seq<T>)
    requires Distinct(s) && multiset(r) == multiset(s)
    ensures Distinct(r)
  {
    forall x | x in multiset(s) ensures multiset(s)[x] == 1 {
      DistinctCount(s, x);
    }
    forall i, j | 0 <= i < j < |r| ensures r[i] != r[j] {
      TwoOccurrences(r, i, j);
    }
  }

  lemma TwoOccurrences<T>(r: seq<T>, i: int, j: int)
    requires 0 <= i < j < |r|
    ensures r[i] == r[j] ==> multiset(r)[r[i]] >= 2
  {
    if r[i] == r[j] {
      var t := r[..j] + r[j + 1..];
      assert r[i] in multiset(t) by {
        assert t[i] == r[i];
      }
      assert multiset(r) == multiset(t) + multiset{r[j]} by {
        assert r == r[..j] + [r[j]] + r[j + 1..];
      }
    }
  }

  lemma {:induction false} DistinctCount<T>(s: seq<T>, x: T)
    requires Distinct(s) && x in s
    ensures multiset(s)[x] == 1
    decreases |s|
  {
    var last := s[|s| - 1];
    var init := s[..|s| - 1];
    assert s == init + [last];
    if x == last {
      assert x !in init;
      assert x !in multiset(init);
    } else {
      DistinctCount(init, x);
    }
  }

  /** The number of members before the first open one. */
  function FirstOpen(b: Board, ms: seq<Coord>): (h: nat)
    requires Members(b, ms)
    ensures h <= |ms| && (forall i :: 0 <= i < h ==> b[ms[i]].value.Some?)
    ensures h < |ms| ==> b[ms[h]].value.None?
  {
    if ms == [] || b[ms[0]].value.None? then 0 else 1 + FirstOpen(b, ms[1..])
  }

  /** After `AssignedFirst` ordering, the members from `FirstOpen` on are
      exactly the open ones. */
  lemma FirstOpenSplits(b: Board, ms: seq<Coord>)
    requires Members(b, ms) && AssignedFirst(b, ms)
    ensures forall i :: FirstOpen(b, ms) <= i < |ms| ==> b[ms[i]].value.None?
  {
  }

  /** The values of the first h members, all assigned. */
  function KnownValues(b: Board, ms: seq<Coord>, h: nat): (known: seq<int>)
    requires Members(b, ms) && h <= |ms| && forall i :: 0 <= i < h ==> b[ms[i]].value.Some?
    ensures |known| == h && forall i :: 0 <= i < h ==> b[ms[i]].value == Some(known[i])
  {
    seq(h, i requires 0 <= i < h => b[ms[i]].value.value)
  }

  /** The board after narrowing members |known| .. i-1, one at a time, to
      what they reach on b0. */
  ghost function PruneUpTo(b0: Board, ms: seq<Coord>, known: seq<int>, total: int, i: int): (p: Board)
    requires Members(b0, ms) && |known| < |ms| && |known| <= i <= |ms|
    ensures p.Keys == b0.Keys
    decreases i
  {
    if i == |known| then b0
    else
      var p := PruneUpTo(b0, ms, known, total, i - 1);
      var c := ms[i - 1];
      p[c := p[c].(candidates := p[c].candidates * Reach(b0, ms, known, total, i - 1))]
  }

  /** The board after every open member is narrowed. */
  ghost function Prune(b: Board, ms: seq<Coord>, known: seq<int>, total: int): Board
    requires Members(b, ms) && |known| < |ms|
  {
    PruneUpTo(b, ms, known, total, |ms|)
  }

  /** The last open member whose reach is a single value: the cell the
      source returns as the next one to assign. */
  ghost function LastSingle(b: Board, ms: seq<Coord>, known: seq<int>, total: int, i: int): Option<Coord>
    requires Members(b, ms) && |known| < |ms| && |known| <= i <= |ms|
    decreases i
  {
    if i == |known| then None
    else if |Reach(b, ms, known, total, i - 1)| == 1 then Some(ms[i - 1])
    else LastSingle(b, ms, known, total, i - 1)
  }

  /** The cell `LastSingle` returns is one of the members |known| .. i-1
      whose reach is a single value, and no later member has one; it is
      None exactly when none of them has. */
  lemma {:induction false} LastSingleSpec(b: Board, ms: seq<Coord>, known: seq<int>, total: int, i: int)
    requires Members(b, ms) && |known| < |ms| && |known| <= i <= |ms|
    ensures var r := LastSingle(b, ms, known, total, i);
      (r.Some? ==> exists j :: |known| <= j < i && r.value == ms[j] && |Reach(b, ms, known, total, j)| == 1
                                && (forall l :: j < l < i ==> |Reach(b, ms, known, total, l)| != 1))
      && (r.None? <==> forall j :: |known| <= j < i ==> |Reach(b, ms, known, total, j)| != 1)
    decreases i
  {
    if i > |known| {
      LastSingleSpec(b, ms, known, total, i - 1);
    }
  }

  /** Narrowing member ms[i] with its reach leaves it exactly its reach,
      which was already within its candidates. */
  lemma ReachWithinCandidates(b: Board, ms: seq<Coord>, known: seq<int>, total: int, i: int)
    requires Members(b, ms) && |known| <= i < |ms|
    ensures b[ms[i]].candidates * Reach(b, ms, known, total, i) == Reach(b, ms, known, total, i)
  {
  }

  /** What `Prune` does cell by cell on distinct members: every open member
      keeps exactly its reach, every other cell is untouched. */
  lemma {:induction false} PruneUpToAt(b: Board, ms: seq<Coord>, known: seq<int>, total: int, i: int)
    requires Members(b, ms) && Distinct(ms) && |known| < |ms| && |known| <= i <= |ms|
    ensures forall j :: |known| <= j < i ==>
      PruneUpTo(b, ms, known, total, i)[ms[j]] == b[ms[j]].(candidates := Reach(b, ms, known, total, j))
    ensures forall c :: c in b && (forall j :: |known| <= j < i ==> ms[j] != c) ==>
      PruneUpTo(b, ms, known, total, i)[c] == b[c]
    decreases i
  {
    if i > |known| {
      PruneUpToAt(b, ms, known, total, i - 1);
      ReachWithinCandidates(b, ms, known, total, i - 1);
    }
  }

  lemma PruneAt(b: Board, ms: seq<Coord>, known: seq<int>, total: int)
    requires Members(b, ms) && Distinct(ms) && |known| < |ms|
    ensures forall j :: |known| <= j < |ms| ==>
      Prune(b, ms, known, total)[ms[j]] == b[ms[j]].(candidates := Reach(b, ms, known, total, j))
    ensures forall c :: c in b && (forall j :: |known| <= j < |ms| ==> ms[j] != c) ==>
      Prune(b, ms, known, total)[c] == b[c]
  {
    PruneUpToAt(b, ms, known, total, |ms|);
  }

  /** Pruning never widens a cell and changes nothing but candidates. */
  lemma PruneShrinks(b: Board, ms: seq<Coord>, known: seq<int>, total: int)
    requires Members(b, ms) && Distinct(ms) && |known| < |ms|
    ensures Prune(b, ms, known, total).Keys == b.Keys
    ensures forall c :: c in b ==>
      Prune(b, ms, known, total)[c] == b[c].(candidates := Prune(b, ms, known, total)[c].candidates)
      && Prune(b, ms, known, total)[c].candidates <= b[c].candidates
  {
    PruneAt(b, ms, known, total);
  }

  /** A completion of the cage uses, at each open member, a value of its
      reach. */
  lemma CompletionInReach(b: Board, ms: seq<Coord>, known: seq<int>, total: int, ext: seq<int>, j: int)
    requires Members(b, ms) && |known| < |ms| && Completes(b, ms, known, total, ext)
    requires |known| <= j < |ms|
    ensures ext[j - |known|] in Reach(b, ms, known, total, j)
  {
    CompletesUsesCandidates(b, ms, known, total, ext);
    assert ext[0] in b[ms[|known| + 0]].candidates;
    assert ext[j - |known|] in b[ms[|known| + (j - |known|)]].candidates;
  }

  /** Pruning is sound and keeps nothing useless: a sequence of values
      completes the cage on the pruned board exactly when it does on the
      original one. */
  lemma PruneKeepsCompletions(b: Board, ms: seq<Coord>, known: seq<int>, total: int, ext: seq<int>)
    requires Members(b, ms) && Distinct(ms) && |known| < |ms| && PositiveFrom(b, ms, |known|)
    ensures Members(Prune(b, ms, known, total), ms)
    ensures Completes(b, ms, known, total, ext) ==> Completes(Prune(b, ms, known, total), ms, known, total, ext)
    ensures Completes(Prune(b, ms, known, total), ms, known, total, ext) ==> Completes(b, ms, known, total, ext)
  {
    var p := Prune(b, ms, known, total);
    var k := |known|;
    PruneAt(b, ms, known, total);
    assert PositiveFrom(p, ms, k);
    CompletesIffFills(b, ms, known, total, ext);
    CompletesIffFills(p, ms, known, total, ext);
    if Completes(b, ms, known, total, ext) {
      forall i | k <= i < |ms|
        ensures Allowed(p, ms, known + ext, i)
      {
        assert Allowed(b, ms, known + ext, i);
        CompletionInReach(b, ms, known, total, ext, i);
        assert (known + ext)[i] == ext[i - k];
      }
    }
    if Completes(p, ms, known, total, ext) {
      forall i | k <= i < |ms|
        ensures Allowed(b, ms, known + ext, i)
      {
        assert Allowed(p, ms, known + ext, i);
      }
    }
  }

  /** The two-index pass stops at the first open member of the order it
      leaves. */
  lemma {:induction false} FirstOpenIs(b: Board, ms: seq<Coord>, h: nat)
    requires Members(b, ms) && h <= |ms|
    requires forall i :: 0 <= i < h ==> b[ms[i]].value.Some?
    requires h < |ms| ==> b[ms[h]].value.None?
    ensures FirstOpen(b, ms) == h
    decreases h
  {
    if h > 0 {
      assert b[ms[0]].value.Some?;
      FirstOpenIs(b, ms[1..], h - 1);
    }
  }

  /** The board `update_cage_valid_values` leaves for the cage with members
      ms and sum total: after the members are ordered with the assigned ones
      first, each open member is narrowed to the values it takes in some
      completion of the cage; nothing changes when every member is
      assigned. */
  ghost function Narrowed(b: Board, ms: seq<Coord>, total: int): (r: Board)
    requires Members(b, ms)
    ensures r.Keys == b.Keys
  {
    var p := Partition(b, ms);
    assert Members(b, p);
    var h := FirstOpen(b, p);
    if h == |p| then b else Prune(b, p, KnownValues(b, p, h), total)
  }

  /** The cell `update_cage_valid_values` returns: the last open member,
      in the order it leaves, whose reach is a single value. */
  ghost function Forced(b: Board, ms: seq<Coord>, total: int): Option<Coord>
    requires Members(b, ms)
  {
    var p := Partition(b, ms);
    assert Members(b, p);
    var h := FirstOpen(b, p);
    if h == |p| then None else LastSingle(b, p, KnownValues(b, p, h), total, |p|)
  }

  lemma {:induction false} PruneUpToNarrows(b: Board, ms: seq<Coord>, known: seq<int>, total: int, i: int)
    requires Members(b, ms) && |known| < |ms| && |known| <= i <= |ms|
    ensures Narrower(b, PruneUpTo(b, ms, known, total, i))
    decreases i
  {
    if i > |known| {
      PruneUpToNarrows(b, ms, known, total, i - 1);
    }
  }

  /** Narrowing a cage only removes candidates. */
  lemma NarrowedNarrows(b: Board, ms: seq<Coord>, total: int)
    requires Members(b, ms)
    ensures Narrower(b, Narrowed(b, ms, total))
  {
    var p := Partition(b, ms);
    PartitionPermutes(b, ms);
    var h := FirstOpen(b, p);
    if h < |p| {
      PruneUpToNarrows(b, p, KnownValues(b, p, h), total, |p|);
    }
  }

  /** With every member assigned, nothing changes and no cell is returned. */
  lemma NarrowedAllAssigned(b: Board, ms: seq<Coord>, total: int)
    requires Members(b, ms) && forall i :: 0 <= i < |ms| ==> b[ms[i]].value.Some?
    ensures Narrowed(b, ms, total) == b && Forced(b, ms, total) == None
  {
    var p := Partition(b, ms);
    PartitionPermutes(b, ms);
    forall i | 0 <= i < |p| ensures b[p[i]].value.Some? {
      assert p[i] in multiset(ms);
    }
    FirstOpenIs(b, p, |p|);
  }

  /** When some member is open, the order `update_cage_valid_values`
      leaves has every assigned member before every open one, and at least
      one open member. */
  lemma PartitionSplits(b: Board, ms: seq<Coord>)
    requires Members(b, ms) && exists i :: 0 <= i < |ms| && b[ms[i]].value.None?
    ensures var p := Partition(b, ms);
      var h := FirstOpen(b, p);
      Members(b, p) && h < |p|
      && (forall i :: 0 <= i < h ==> b[p[i]].value.Some?)
      && (forall i :: h <= i < |p| ==> b[p[i]].value.None?)
  {
    var p := Partition(b, ms);
    PartitionPermutes(b, ms);
    var i :| 0 <= i < |ms| && b[ms[i]].value.None?;
    assert ms[i] in multiset(p);
    FirstOpenSplits(b, p);
  }

  /** On distinct members with one open, every open member keeps exactly
      its reach on the known values and every other cell is untouched. */
  lemma NarrowedExact(b: Board, ms: seq<Coord>, total: int)
    requires Members(b, ms) && Distinct(ms)
    requires exists i :: 0 <= i < |ms| && b[ms[i]].value.None?
    ensures var p := Partition(b, ms);
      var h := FirstOpen(b, p);
      Members(b, p) && h < |p|
      && (forall j :: h <= j < |p| ==>
            Narrowed(b, ms, total)[p[j]] == b[p[j]].(candidates := Reach(b, p, KnownValues(b, p, h), total, j)))
      && (forall c :: c in b && c !in ms ==> Narrowed(b, ms, total)[c] == b[c])
  {
    var p := Partition(b, ms);
    PartitionPermutes(b, ms);
    PartitionSplits(b, ms);
    var h := FirstOpen(b, p);
    var known := KnownValues(b, p, h);
    PruneAt(b, p, known, total);
    forall c | c in b && c !in ms
      ensures forall j :: h <= j < |p| ==> p[j] != c
    {
      forall j | h <= j < |p| ensures p[j] != c {
        assert p[j] in multiset(ms);
      }
    }
  }

  /** The cell `update_cage_valid_values` returns is an open member, in
      the order it leaves, whose reach is a single value, and no later
      member's reach is. */
  lemma ForcedSingle(b: Board, ms: seq<Coord>, total: int)
    requires Members(b, ms)
    ensures var p := Partition(b, ms);
      var h := FirstOpen(b, p);
      Forced(b, ms, total).Some? ==>
        Members(b, p) && h < |p|
        && exists j :: h <= j < |p| && Forced(b, ms, total).value == p[j]
                       && |Reach(b, p, KnownValues(b, p, h), total, j)| == 1
                       && (forall l :: j < l < |p| ==> |Reach(b, p, KnownValues(b, p, h), total, l)| != 1)
  {
    var p := Partition(b, ms);
    PartitionPermutes(b, ms);
    var h := FirstOpen(b, p);
    if h < |p| {
      LastSingleSpec(b, p, KnownValues(b, p, h), total, |p|);
    }
  }

  /** What `update_valid_values` does, one indirect cage after another:
      the board after narrowing b with each cage of ics in turn. */
  ghost function NarrowAll(b: Board, ics: seq<IndirectCage>): (r: Board)
    requires b.Keys == AllCoords() && WellFormed(ics)
    ensures r.Keys == b.Keys
    decreases |ics|
  {
    if ics == [] then b
    else
      var last := ics[|ics| - 1];
      var init := ics[..|ics| - 1];
      assert WellFormed(init) by {
        assert forall k :: 0 <= k < |init| ==> init[k] == ics[k];
      }
      Narrowed(NarrowAll(b, init), last.entries, last.sum)
  }

  /** The cell `update_valid_values` returns: the result of the last cage
      that returns one, or first if none does. */
  ghost function ForcedAll(b: Board, ics: seq<IndirectCage>, first: Option<Coord>): Option<Coord>
    requires b.Keys == AllCoords() && WellFormed(ics)
    decreases |ics|
  {
    if ics == [] then first
    else
      var last := ics[|ics| - 1];
      var init := ics[..|ics| - 1];
      assert WellFormed(init) by {
        assert forall k :: 0 <= k < |init| ==> init[k] == ics[k];
      }
      var r := Forced(NarrowAll(b, init), last.entries, last.sum);
      if r.Some? then r else ForcedAll(b, init, first)
  }

  /** The indirect cages of a cell after each has had its members ordered
      with the assigned ones first. */
  ghost function Reordered(b: Board, ics: seq<IndirectCage>): (r: seq<IndirectCage>)
    requires b.Keys == AllCoords() && WellFormed(ics)
    ensures |r| == |ics|
    decreases |ics|
  {
    if ics == [] then []
    else
      var last := ics[|ics| - 1];
      var init := ics[..|ics| - 1];
      assert WellFormed(init) by {
        assert forall k :: 0 <= k < |init| ==> init[k] == ics[k];
      }
      Reordered(b, init) + [last.(entries := Partition(b, last.entries))]
  }

  /** Boards with the same values order a cage the same way. */
  lemma {:induction false} PartitionFromSameValues(b: Board, r: Board, s: seq<Coord>, h: nat, n: nat)
    requires h <= n <= |s| && forall i :: 0 <= i < |s| ==> s[i] in b
    requires r.Keys == b.Keys && forall c :: c in b ==> r[c].value == b[c].value
    ensures PartitionFrom(r, s, h, n) == PartitionFrom(b, s, h, n)
    decreases n - h
  {
    if h < n {
      if b[s[h]].value.Some? {
        PartitionFromSameValues(b, r, s, h + 1, n);
      } else {
        PartitionFromSameValues(b, r, s[h := s[n - 1]][n - 1 := s[h]], h, n - 1);
      }
    }
  }

  lemma {:induction false} NarrowAllNarrows(b: Board, ics: seq<IndirectCage>)
    requires b.Keys == AllCoords() && WellFormed(ics)
    ensures Narrower(b, NarrowAll(b, ics))
    decreases |ics|
  {
    if ics != [] {
      var last := ics[|ics| - 1];
      var init := ics[..|ics| - 1];
      assert forall k :: 0 <= k < |init| ==> init[k] == ics[k];
      NarrowAllNarrows(b, init);
      NarrowedNarrows(NarrowAll(b, init), last.entries, last.sum);
      NarrowerTrans(b, NarrowAll(b, init), NarrowAll(b, ics));
    }
  }

  /** Reordering keeps each indirect cage's members distinct cells of the
      grid. */
  lemma {:induction false} ReorderedWellFormed(b: Board, ics: seq<IndirectCage>)
    requires b.Keys == AllCoords() && WellFormed(ics)
    ensures WellFormed(Reordered(b, ics))
    ensures forall k :: 0 <= k < |ics| ==>
      Reordered(b, ics)[k].sum == ics[k].sum && multiset(Reordered(b, ics)[k].entries) == multiset(ics[k].entries)
    decreases |ics|
  {
    if ics != [] {
      var last := ics[|ics| - 1];
      var init := ics[..|ics| - 1];
      assert forall k :: 0 <= k < |init| ==> init[k] == ics[k];
      ReorderedWellFormed(b, init);
      assert Members(b, last.entries);
      PartitionPermutes(b, last.entries);
    }
  }

  /** The cell `update_cage_valid_values` returns is a member of the
      cage. */
  lemma ForcedIsMember(b: Board, ms: seq<Coord>, total: int)
    requires Members(b, ms)
    ensures Forced(b, ms, total).Some? ==> Forced(b, ms, total).value in ms
  {
    var p := Partition(b, ms);
    PartitionPermutes(b, ms);
    var h := FirstOpen(b, p);
    if h < |p| {
      LastSingleSpec(b, p, KnownValues(b, p, h), total, |p|);
    }
    if Forced(b, ms, total).Some? {
      var j :| 0 <= j < |p| && Forced(b, ms, total).value == p[j];
      assert p[j] in multiset(ms);
    }
  }

  lemma {:induction false} ForcedAllInGrid(b: Board, ics: seq<IndirectCage>, first: Option<Coord>)
    requires b.Keys == AllCoords() && WellFormed(ics)
    requires first.Some? ==> InGrid(first.value)
    ensures ForcedAll(b, ics, first).Some? ==> InGrid(ForcedAll(b, ics, first).value)
    decreases |ics|
  {
    if ics != [] {
      var last := ics[|ics| - 1];
      var init := ics[..|ics| - 1];
      assert forall k :: 0 <= k < |init| ==> init[k] == ics[k];
      ForcedAllInGrid(b, init, first);
      ForcedIsMember(NarrowAll(b, init), last.entries, last.sum);
    }
  }

  /** The board after `update_valid_values` on cell c, whose cage mates
      are listed in order: the direct cage order + [c] is narrowed, then
      each indirect cage of c in turn, and c's indirect cages are left
      reordered. */
  ghost function Updated(b: Board, c: Coord, order: seq<Coord>): (r: Board)
    requires b.Keys == AllCoords() && InGrid(c) && InGridAll(order) && WellFormed(b[c].indirectCages)
    ensures r.Keys == b.Keys
  {
    assert InGridAll(order + [c]);
    var b1 := Narrowed(b, order + [c], b[c].cageSum);
    var ics := b[c].indirectCages;
    var b2 := NarrowAll(b1, ics);
    b2[c := b2[c].(indirectCages := Reordered(b, ics))]
  }

  /** The cell `update_valid_values` on c returns. */
  ghost function UpdatedNext(b: Board, c: Coord, order: seq<Coord>): Option<Coord>
    requires b.Keys == AllCoords() && InGrid(c) && InGridAll(order) && WellFormed(b[c].indirectCages)
  {
    assert InGridAll(order + [c]);
    var b1 := Narrowed(b, order + [c], b[c].cageSum);
    ForcedAll(b1, b[c].indirectCages, Forced(b, order + [c], b[c].cageSum))
  }

  /** `update_valid_values` keeps a board sound and keeps every value. */
  lemma UpdatedKeepsSound(b: Board, c: Coord, order: seq<Coord>)
    requires Sound(b) && InGrid(c) && InGridAll(order)
    ensures Sound(Updated(b, c, order)) && Extends(b, Updated(b, c, order))
  {
    var ms := order + [c];
    assert InGridAll(ms);
    var b1 := Narrowed(b, ms, b[c].cageSum);
    var ics := b[c].indirectCages;
    var b2 := NarrowAll(b1, ics);
    NarrowedNarrows(b, ms, b[c].cageSum);
    NarrowAllNarrows(b1, ics);
    NarrowerTrans(b, b1, b2);
    NarrowerKeepsSound(b, b2);
    ReorderedWellFormed(b, ics);
    ReorderKeepsSound(b2, c, Reordered(b, ics));
  }

  /** `update_valid_values` keeps a board well-shaped, keeps every value
      and every cage of each cell, and only narrows candidates. */
  lemma UpdatedKeepsShape(b: Board, c: Coord, order: seq<Coord>)
    requires Shape(b) && InGrid(c) && InGridAll(order)
    ensures var r := Updated(b, c, order);
      Shape(r)
      && forall d :: d in b ==>
           r[d].value == b[d].value && r[d].candidates <= b[d].candidates
           && r[d].cageSum == b[d].cageSum && r[d].cageEntries == b[d].cageEntries
  {
    var ms := order + [c];
    assert InGridAll(ms);
    var b1 := Narrowed(b, ms, b[c].cageSum);
    var ics := b[c].indirectCages;
    var b2 := NarrowAll(b1, ics);
    NarrowedNarrows(b, ms, b[c].cageSum);
    NarrowAllNarrows(b1, ics);
    NarrowerTrans(b, b1, b2);
    ReorderedWellFormed(b, ics);
  }

  /** Replacing the indirect cages of one cell by well-formed ones keeps a
      board sound. */
  lemma ReorderKeepsSound(b: Board, c: Coord, ics: seq<IndirectCage>)
    requires Sound(b) && c in b && WellFormed(ics)
    ensures Sound(b[c := b[c].(indirectCages := ics)]) && Extends(b, b[c := b[c].(indirectCages := ics)])
  {
    var r := b[c := b[c].(indirectCages := ics)];
    assert forall d :: d in b ==> r[d].value == b[d].value && r[d].candidates == b[d].candidates;
  }

  /** The cell `update_valid_values` returns is a cell of the grid. */
  lemma UpdatedNextInGrid(b: Board, c: Coord, order: seq<Coord>)
    requires b.Keys == AllCoords() && InGrid(c) && InGridAll(order) && WellFormed(b[c].indirectCages)
    ensures UpdatedNext(b, c, order).Some? ==> InGrid(UpdatedNext(b, c, order).value)
  {
    var ms := order + [c];
    assert InGridAll(ms);
    ForcedIsMember(b, ms, b[c].cageSum);
    ForcedAllInGrid(Narrowed(b, ms, b[c].cageSum), b[c].indirectCages, Forced(b, ms, b[c].cageSum));
  }

  /** One more member narrowed. */
  lemma PruneUpToNext(b: Board, ms: seq<Coord>, known: seq<int>, total: int, i: int, r: set<int>)
    requires Members(b, ms) && |known| < |ms| && |known| <= i < |ms|
    requires r == Reach(b, ms, known, total, i)
    ensures var p := PruneUpTo(b, ms, known, total, i);
      PruneUpTo(b, ms, known, total, i + 1) == p[ms[i] := p[ms[i]].(candidates := p[ms[i]].candidates * r)]
    ensures LastSingle(b, ms, known, total, i + 1) == if |r| == 1 then Some(ms[i]) else LastSingle(b, ms, known, total, i)
  {
  }

  /** One more indirect cage. */
  lemma CascadeStep(b: Board, b1: Board, ics: seq<IndirectCage>, k: int, first: Option<Coord>)
    requires b.Keys == AllCoords() && b1.Keys == AllCoords() && WellFormed(ics) && 0 <= k < |ics|
    ensures WellFormed(ics[..k]) && WellFormed(ics[..k + 1])
    ensures NarrowAll(b1, ics[..k + 1]) == Narrowed(NarrowAll(b1, ics[..k]), ics[k].entries, ics[k].sum)
    ensures ForcedAll(b1, ics[..k + 1], first) ==
      var r := Forced(NarrowAll(b1, ics[..k]), ics[k].entries, ics[k].sum);
      if r.Some? then r else ForcedAll(b1, ics[..k], first)
    ensures Reordered(b, ics[..k + 1]) == Reordered(b, ics[..k]) + [ics[k].(entries := Partition(b, ics[k].entries))]
  {
    assert ics[..k + 1][..k] == ics[..k];
    assert forall j :: 0 <= j <= k ==> ics[..k + 1][j] == ics[j];
  }

  /** Narrowing a board that only lost candidates since b orders a cage
      as on b and loses more candidates. */
  lemma NarrowedFrom(b: Board, bk: Board, ms: seq<Coord>, total: int)
    requires Members(b, ms) && Narrower(b, bk)
    ensures Partition(bk, ms) == Partition(b, ms) && Narrower(b, Narrowed(bk, ms, total))
  {
    PartitionFromSameValues(b, bk, ms, 0, |ms|);
    NarrowedNarrows(bk, ms, total);
    NarrowerTrans(b, bk, Narrowed(bk, ms, total));
  }

  /** Where `update_valid_values` stands after the first k indirect cages
      of ics, starting from board b1 (itself narrower than b): the board
      e, the cell it would report and the cages reordered so far. */
  ghost predicate Cascaded(b: Board, b1: Board, ics: seq<IndirectCage>, first: Option<Coord>, k: int,
                           e: Board, next: Option<Coord>, reordered: seq<IndirectCage>)
  {
    b.Keys == AllCoords() && b1.Keys == AllCoords() && WellFormed(ics) && 0 <= k <= |ics|
    && WellFormed(ics[..k]) && Narrower(b, e)
    && e == NarrowAll(b1, ics[..k]) && next == ForcedAll(b1, ics[..k], first)
    && reordered == Reordered(b, ics[..k])
  }

  lemma CascadeStart(b: Board, b1: Board, ics: seq<IndirectCage>, first: Option<Coord>)
    requires b.Keys == AllCoords() && WellFormed(ics) && Narrower(b, b1)
    ensures Cascaded(b, b1, ics, first, 0, b1, first, [])
  {
    assert ics[..0] == [];
  }

  /** One more indirect cage narrowed. */
  lemma CascadeNext(b: Board, b1: Board, ics: seq<IndirectCage>, first: Option<Coord>, k: int,
                    e: Board, next: Option<Coord>, reordered: seq<IndirectCage>)
    requires Cascaded(b, b1, ics, first, k, e, next, reordered) && k < |ics|
    ensures Members(e, ics[k].entries)
    ensures var r := Forced(e, ics[k].entries, ics[k].sum);
      Cascaded(b, b1, ics, first, k + 1, Narrowed(e, ics[k].entries, ics[k].sum), if r.Some? then r else next,
               reordered + [ics[k].(entries := Partition(e, ics[k].entries))])
  {
    CascadeStep(b, b1, ics, k, first);
    NarrowedFrom(b, e, ics[k].entries, ics[k].sum);
  }

  lemma CascadeEnd(b: Board, b1: Board, ics: seq<IndirectCage>, first: Option<Coord>,
                   e: Board, next: Option<Coord>, reordered: seq<IndirectCage>)
    requires Cascaded(b, b1, ics, first, |ics|, e, next, reordered)
    ensures e == NarrowAll(b1, ics) && Narrower(b, e)
    ensures next == ForcedAll(b1, ics, first) && reordered == Reordered(b, ics)
  {
    assert ics[..|ics|] == ics;
  }
}
