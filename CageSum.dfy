/** The cage-sum enumeration of Killer puzzles.

    The members of a cage are a sequence `ms`; the first |known| of them
    have the values `known`, and the enumeration extends `known` one member
    at a time.  `Completes` follows that enumeration: the last member is
    forced to the remaining sum, each earlier member takes a candidate that
    leaves the running total below the cage sum, and no member repeats the
    value of an earlier member that is its peer.  `Fills` says the same
    thing without the enumeration's order and pruning, and
    `CompletesIffFills` proves the two agree when candidates are positive. */
module CageSum {
  import opened Grid
  import opened Board

  function Sum(s: seq<int>): int {
    if s == [] then 0 else Sum(s[..|s| - 1]) + s[|s| - 1]
  }

  lemma {:induction false} SumConcat(a: seq<int>, b: seq<int>)
    ensures Sum(a + b) == Sum(a) + Sum(b)
    decreases |b|
  {
    if b == [] {
      assert a + b == a;
    } else {
      var c := b[..|b| - 1];
      SumConcat(a, c);
      assert (a + b)[..|a + b| - 1] == a + c;
    }
  }

  lemma {:induction false} SumPositive(s: seq<int>)
    requires forall i :: 0 <= i < |s| ==> s[i] > 0
    ensures Sum(s) >= |s|
    decreases |s|
  {
    if s != [] {
      SumPositive(s[..|s| - 1]);
    }
  }

  /** The members are cells of the board. */
  ghost predicate Members(b: Board, ms: seq<Coord>) {
    b.Keys == AllCoords() && forall i :: 0 <= i < |ms| ==> InGrid(ms[i])
  }

  /** v may go to member ms[|known|]: it is one of its candidates, and no
      earlier member that is its peer holds v. */
  ghost predicate Fits(b: Board, ms: seq<Coord>, known: seq<int>, v: int)
    requires Members(b, ms) && |known| < |ms|
  {
    v in b[ms[|known|]].candidates
    && forall j :: 0 <= j < |known| && ms[j] in Peers(ms[|known|]) ==> known[j] != v
  }

  /** The cut that prunes a member that is not the last: its value must
      leave the running total below the cage sum. */
  ghost predicate Admits(b: Board, ms: seq<Coord>, known: seq<int>, total: int, v: int)
    requires Members(b, ms) && |known| < |ms|
  {
    Fits(b, ms, known, v) && v + Sum(known) < total
  }

  /** ext gives the values of ms[|known|..] along one successful branch of
      the enumeration. */
  ghost predicate Completes(b: Board, ms: seq<Coord>, known: seq<int>, total: int, ext: seq<int>)
    requires Members(b, ms) && |known| < |ms|
    decreases |ms| - |known|
  {
    |ext| == |ms| - |known|
    && if |known| == |ms| - 1 then
         Fits(b, ms, known, ext[0]) && ext[0] == total - Sum(known)
       else
         Admits(b, ms, known, total, ext[0]) && Completes(b, ms, known + [ext[0]], total, ext[1..])
  }

  /** Some branch of the enumeration succeeds. */
  ghost predicate Solvable(b: Board, ms: seq<Coord>, known: seq<int>, total: int)
    requires Members(b, ms) && |known| < |ms|
  {
    exists ext :: Completes(b, ms, known, total, ext)
  }

  /** The branches whose first value is in S succeed for some value of S. */
  ghost predicate SolvableFrom(b: Board, ms: seq<Coord>, known: seq<int>, total: int, S: set<int>)
    requires Members(b, ms) && |known| < |ms|
  {
    exists ext :: Completes(b, ms, known, total, ext) && ext[0] in S
  }

  /** The values member ms[j] takes on the successful branches whose first
      value is in S. */
  ghost function ReachFrom(b: Board, ms: seq<Coord>, known: seq<int>, total: int, j: int, S: set<int>): set<int>
    requires Members(b, ms) && |known| <= j < |ms|
  {
    set v | v in b[ms[j]].candidates
      && exists ext :: Completes(b, ms, known, total, ext) && ext[0] in S && ext[j - |known|] == v
  }

  /** The values member ms[j] takes in some completion of `known`. */
  ghost function Reach(b: Board, ms: seq<Coord>, known: seq<int>, total: int, j: int): set<int>
    requires Members(b, ms) && |known| <= j < |ms|
  {
    ReachFrom(b, ms, known, total, j, b[ms[|known|]].candidates)
  }

  /** Every value of a completion is a candidate of its member. */
  lemma {:induction false} CompletesUsesCandidates(b: Board, ms: seq<Coord>, known: seq<int>, total: int, ext: seq<int>)
    requires Members(b, ms) && |known| < |ms| && Completes(b, ms, known, total, ext)
    ensures forall i :: 0 <= i < |ext| ==> ext[i] in b[ms[|known| + i]].candidates
    decreases |ms| - |known|
  {
    if |known| < |ms| - 1 {
      CompletesUsesCandidates(b, ms, known + [ext[0]], total, ext[1..]);
      forall i | 0 <= i < |ext|
        ensures ext[i] in b[ms[|known| + i]].candidates
      {
        if i > 0 {
          assert ext[1..][i - 1] == ext[i];
        }
      }
    }
  }

  /** All successful branches start with a candidate of the first member. */
  lemma SolvableFromCandidates(b: Board, ms: seq<Coord>, known: seq<int>, total: int)
    requires Members(b, ms) && |known| < |ms|
    ensures SolvableFrom(b, ms, known, total, b[ms[|known|]].candidates)
      ==> Solvable(b, ms, known, total)
    ensures Solvable(b, ms, known, total)
      ==> SolvableFrom(b, ms, known, total, b[ms[|known|]].candidates)
  {
    if ext :| Completes(b, ms, known, total, ext) {
      CompletesUsesCandidates(b, ms, known, total, ext);
      assert ext[0] in b[ms[|known| + 0]].candidates;
    }
  }

  /** The last member is forced to the remaining sum. */
  lemma LastMember(b: Board, ms: seq<Coord>, known: seq<int>, total: int)
    requires Members(b, ms) && |known| == |ms| - 1
    ensures Solvable(b, ms, known, total) ==> Fits(b, ms, known, total - Sum(known))
    ensures Fits(b, ms, known, total - Sum(known)) ==> Solvable(b, ms, known, total)
    ensures Reach(b, ms, known, total, |known|)
      == if Fits(b, ms, known, total - Sum(known)) then {total - Sum(known)} else {}
  {
    var v := total - Sum(known);
    var S := b[ms[|known|]].candidates;
    if Fits(b, ms, known, v) {
      var ext := [v];
      assert Completes(b, ms, known, total, ext) && ext[0] in S && ext[0] == v;
      assert v in Reach(b, ms, known, total, |known|);
    }
    forall w | w in Reach(b, ms, known, total, |known|)
      ensures w == v && Fits(b, ms, known, v)
    {
      var ext :| Completes(b, ms, known, total, ext) && ext[0] in S && ext[0] == w;
    }
  }

  /** Splitting off the first value of a branch. */
  lemma Unfold(b: Board, ms: seq<Coord>, known: seq<int>, total: int, v: int, e: seq<int>)
    requires Members(b, ms) && |known| < |ms| - 1
    ensures Completes(b, ms, known, total, [v] + e)
      <==> Admits(b, ms, known, total, v) && Completes(b, ms, known + [v], total, e)
  {
    assert ([v] + e)[1..] == e;
  }

  /** Adding the branch of first value v to S. */
  lemma SolvableFromAdd(b: Board, ms: seq<Coord>, known: seq<int>, total: int, S: set<int>, v: int)
    requires Members(b, ms) && |known| < |ms| - 1
    ensures SolvableFrom(b, ms, known, total, S + {v})
      <==> SolvableFrom(b, ms, known, total, S)
           || (Admits(b, ms, known, total, v) && Solvable(b, ms, known + [v], total))
  {
    if SolvableFrom(b, ms, known, total, S + {v}) && !SolvableFrom(b, ms, known, total, S) {
      var ext :| Completes(b, ms, known, total, ext) && ext[0] in S + {v};
      assert ext == [v] + ext[1..];
      Unfold(b, ms, known, total, v, ext[1..]);
    }
    if Admits(b, ms, known, total, v) && Solvable(b, ms, known + [v], total) {
      var e :| Completes(b, ms, known + [v], total, e);
      Unfold(b, ms, known, total, v, e);
      assert ([v] + e)[0] == v;
    }
  }

  /** What the branch of first value v contributes to member j. */
  ghost function Gain(b: Board, ms: seq<Coord>, known: seq<int>, total: int, j: int, v: int): set<int>
    requires Members(b, ms) && |known| < |ms| - 1 && |known| <= j < |ms|
  {
    if !Admits(b, ms, known, total, v) then {}
    else if j == |known| then (if Solvable(b, ms, known + [v], total) then {v} else {})
    else Reach(b, ms, known + [v], total, j)
  }

  /** Adding the branch of first value v to S, seen from member j. */
  lemma ReachFromAdd(b: Board, ms: seq<Coord>, known: seq<int>, total: int, j: int, S: set<int>, v: int)
    requires Members(b, ms) && |known| < |ms| - 1 && |known| <= j < |ms|
    ensures ReachFrom(b, ms, known, total, j, S + {v})
      == ReachFrom(b, ms, known, total, j, S) + Gain(b, ms, known, total, j, v)
  {
    ReachFromAddWithin(b, ms, known, total, j, S, v);
    ReachFromAddKeeps(b, ms, known, total, j, S, v);
    ReachFromAddGains(b, ms, known, total, j, S, v);
  }

  lemma ReachFromAddWithin(b: Board, ms: seq<Coord>, known: seq<int>, total: int, j: int, S: set<int>, v: int)
    requires Members(b, ms) && |known| < |ms| - 1 && |known| <= j < |ms|
    ensures ReachFrom(b, ms, known, total, j, S + {v})
      <= ReachFrom(b, ms, known, total, j, S) + Gain(b, ms, known, total, j, v)
  {
    var k := |known|;
    forall w | w in ReachFrom(b, ms, known, total, j, S + {v})
      ensures w in ReachFrom(b, ms, known, total, j, S) + Gain(b, ms, known, total, j, v)
    {
      var ext :| Completes(b, ms, known, total, ext) && ext[0] in S + {v} && ext[j - k] == w;
      if ext[0] !in S {
        assert ext == [v] + ext[1..];
        Unfold(b, ms, known, total, v, ext[1..]);
        var e := ext[1..];
        if j > k {
          CompletesUsesCandidates(b, ms, known + [v], total, e);
          assert e[0] in b[ms[(k + 1) + 0]].candidates;
          assert e[j - (k + 1)] == w;
          assert w in Reach(b, ms, known + [v], total, j);
        } else {
          assert w == v && Completes(b, ms, known + [v], total, e);
        }
      }
    }
  }

  lemma ReachFromAddKeeps(b: Board, ms: seq<Coord>, known: seq<int>, total: int, j: int, S: set<int>, v: int)
    requires Members(b, ms) && |known| < |ms| - 1 && |known| <= j < |ms|
    ensures ReachFrom(b, ms, known, total, j, S) <= ReachFrom(b, ms, known, total, j, S + {v})
  {
    var k := |known|;
    forall w | w in ReachFrom(b, ms, known, total, j, S)
      ensures w in ReachFrom(b, ms, known, total, j, S + {v})
    {
      var ext :| Completes(b, ms, known, total, ext) && ext[0] in S && ext[j - k] == w;
      assert ext[0] in S + {v};
    }
  }

  lemma ReachFromAddGains(b: Board, ms: seq<Coord>, known: seq<int>, total: int, j: int, S: set<int>, v: int)
    requires Members(b, ms) && |known| < |ms| - 1 && |known| <= j < |ms|
    ensures Gain(b, ms, known, total, j, v) <= ReachFrom(b, ms, known, total, j, S + {v})
  {
    var k := |known|;
    forall w | w in Gain(b, ms, known, total, j, v)
      ensures w in ReachFrom(b, ms, known, total, j, S + {v})
    {
      if j == k {
        var e :| Completes(b, ms, known + [v], total, e);
        Unfold(b, ms, known, total, v, e);
        assert ([v] + e)[0] == v;
      } else {
        var e :| Completes(b, ms, known + [v], total, e) && e[0] in b[ms[k + 1]].candidates && e[j - (k + 1)] == w;
        Unfold(b, ms, known, total, v, e);
        assert ([v] + e)[0] == v && ([v] + e)[j - k] == w;
      }
    }
  }

  /** vals[i] is a candidate of member ms[i] and differs from the value of
      every earlier member that is its peer. */
  ghost predicate Allowed(b: Board, ms: seq<Coord>, vals: seq<int>, i: int)
    requires Members(b, ms) && |vals| == |ms| && 0 <= i < |ms|
  {
    vals[i] in b[ms[i]].candidates
    && forall j :: 0 <= j < i && ms[j] in Peers(ms[i]) ==> vals[j] != vals[i]
  }

  /** The flat reading of a completion: values for the remaining members
      such that the values of the whole cage add up to its sum and each is
      allowed where it stands. */
  ghost predicate Fills(b: Board, ms: seq<Coord>, known: seq<int>, total: int, ext: seq<int>)
    requires Members(b, ms) && |known| <= |ms|
  {
    |known| + |ext| == |ms|
    && Sum(known + ext) == total
    && forall i :: |known| <= i < |ms| ==> Allowed(b, ms, known + ext, i)
  }

  /** Every candidate of the members still open is positive. */
  ghost predicate PositiveFrom(b: Board, ms: seq<Coord>, k: int)
    requires Members(b, ms)
  {
    forall i, v :: 0 <= k <= i < |ms| && v in b[ms[i]].candidates ==> v > 0
  }

  lemma FitsAllowed(b: Board, ms: seq<Coord>, known: seq<int>, v: int, rest: seq<int>)
    requires Members(b, ms) && |known| + 1 + |rest| == |ms|
    ensures Fits(b, ms, known, v) <==> Allowed(b, ms, known + [v] + rest, |known|)
  {
    var vals := known + [v] + rest;
    assert vals[|known|] == v;
    assert forall j :: 0 <= j < |known| ==> vals[j] == known[j];
  }

  /** The values of the open members sum to at least their number. */
  lemma OpenSum(b: Board, ms: seq<Coord>, known: seq<int>, total: int, e: seq<int>)
    requires Members(b, ms) && |known| <= |ms| && PositiveFrom(b, ms, |known|)
    requires Fills(b, ms, known, total, e)
    ensures Sum(e) >= |e|
  {
    forall i | 0 <= i < |e| ensures e[i] > 0 {
      assert Allowed(b, ms, known + e, |known| + i);
      assert (known + e)[|known| + i] == e[i];
    }
    SumPositive(e);
  }

  /** With positive candidates the enumeration's pruning loses nothing: its
      successful branches are exactly the flat completions. */
  lemma {:induction false} CompletesIffFills(b: Board, ms: seq<Coord>, known: seq<int>, total: int, ext: seq<int>)
    requires Members(b, ms) && |known| < |ms| && PositiveFrom(b, ms, |known|)
    ensures Completes(b, ms, known, total, ext) ==> Fills(b, ms, known, total, ext)
    ensures Fills(b, ms, known, total, ext) ==> Completes(b, ms, known, total, ext)
    decreases |ms| - |known|
  {
    var k := |known|;
    if |ext| == |ms| - k {
      var v := ext[0];
      var e := ext[1..];
      var vals := known + ext;
      assert ext == [v] + e;
      assert vals == (known + [v]) + e;
      FitsAllowed(b, ms, known, v, e);
      SumConcat(known, [v]);
      SumConcat(known + [v], e);
      assert Sum([v]) == v;
      if k == |ms| - 1 {
        assert e == [] && vals == known + [v];
      } else {
        Unfold(b, ms, known, total, v, e);
        CompletesIffFills(b, ms, known + [v], total, e);
        if Fills(b, ms, known + [v], total, e) {
          OpenSum(b, ms, known + [v], total, e);
        }
      }
    }
  }

  lemma UnionShift(x: set<int>, p: set<int>, a: set<int>, r: set<int>, g: set<int>)
    requires x == p + g && p == a + r
    ensures x == a + (r + g)
  {
  }

  /** The checks `update_cage` makes on the value forced on the last
      member. */
  method FitsLast(b: Board, known: seq<int>, ms: seq<Coord>, value: int) returns (ok: bool)
    requires Members(b, ms) && |known| < |ms|
    ensures ok <==> Fits(b, ms, known, value)
  {
    var k := |known|;
    var me := ms[k];
    if value !in b[me].candidates {
      return false;
    }
    var j := 0;
    while j < k
      invariant 0 <= j <= k
      invariant forall i :: 0 <= i < j && ms[i] in Peers(me) ==> known[i] != value
    {
      if ms[j] in Peers(me) && value == known[j] {
        return false;
      }
      j := j + 1;
    }
    return true;
  }

  /** acc holds what orig held plus the reach of the branches with first
      value in S. */
  ghost predicate Accumulated(b: Board, ms: seq<Coord>, known: seq<int>, total: int,
                              orig: seq<set<int>>, acc: seq<set<int>>, S: set<int>)
    requires Members(b, ms) && |known| < |ms|
  {
    |orig| == |acc| == |ms|
    && forall j :: |known| <= j < |ms| ==> acc[j] == orig[j] + ReachFrom(b, ms, known, total, j, S)
  }

  /** post holds what pre held plus the gain of the branch of first value v. */
  ghost predicate Gained(b: Board, ms: seq<Coord>, known: seq<int>, total: int, v: int,
                         pre: seq<set<int>>, post: seq<set<int>>)
    requires Members(b, ms) && |known| < |ms| - 1
  {
    |pre| == |post| == |ms|
    && forall j :: |known| <= j < |ms| ==> post[j] == pre[j] + Gain(b, ms, known, total, j, v)
  }

  lemma AccumulatedStep(b: Board, ms: seq<Coord>, known: seq<int>, total: int,
                        orig: seq<set<int>>, pre: seq<set<int>>, post: seq<set<int>>, S: set<int>, v: int)
    requires Members(b, ms) && |known| < |ms| - 1
    requires Accumulated(b, ms, known, total, orig, pre, S)
    requires Gained(b, ms, known, total, v, pre, post)
    ensures Accumulated(b, ms, known, total, orig, post, S + {v})
  {
    forall j | |known| <= j < |ms|
      ensures post[j] == orig[j] + ReachFrom(b, ms, known, total, j, S + {v})
    {
      ReachFromAdd(b, ms, known, total, j, S, v);
      UnionShift(post[j], pre[j], orig[j], ReachFrom(b, ms, known, total, j, S), Gain(b, ms, known, total, j, v));
    }
  }

  /** The source's `update_cage`, run on member ms[|known|]: enumerates the
      values of the open members, adds to acc[j] every value member ms[j]
      takes on a successful branch, and reports whether there is one. */
  method UpdateCage(b: Board, known: seq<int>, ms: seq<Coord>, acc: array<set<int>>, total: int)
    returns (ok: bool)
    requires Members(b, ms) && |known| < |ms| == acc.Length
    modifies acc
    ensures ok <==> Solvable(b, ms, known, total)
    ensures forall j :: 0 <= j < |known| ==> acc[j] == old(acc[j])
    ensures forall j :: |known| <= j < |ms| ==> acc[j] == old(acc[j]) + Reach(b, ms, known, total, j)
    decreases |ms| - |known|, 2
  {
    if |known| == |ms| - 1 {
      ok := UpdateLast(b, known, ms, acc, total);
    } else {
      ok := UpdateOpen(b, known, ms, acc, total);
    }
  }

  /** `update_cage` on the last member: its value is forced to the rest of
      the sum and is recorded when it fits. */
  method UpdateLast(b: Board, known: seq<int>, ms: seq<Coord>, acc: array<set<int>>, total: int)
    returns (ok: bool)
    requires Members(b, ms) && |known| == |ms| - 1 && |ms| == acc.Length
    modifies acc
    ensures ok <==> Solvable(b, ms, known, total)
    ensures forall j :: 0 <= j < |known| ==> acc[j] == old(acc[j])
    ensures acc[|known|] == old(acc[|known|]) + Reach(b, ms, known, total, |known|)
  {
    var k := |known|;
    LastMember(b, ms, known, total);
    var value := total - Sum(known);
    ok := FitsLast(b, known, ms, value);
    if ok {
      acc[k] := acc[k] + {value};
    }
  }

  /** `update_cage` on a member that is not the last: the loop over its
      candidates. */
  method UpdateOpen(b: Board, known: seq<int>, ms: seq<Coord>, acc: array<set<int>>, total: int)
    returns (ok: bool)
    requires Members(b, ms) && |known| < |ms| - 1 && |ms| == acc.Length
    modifies acc
    ensures ok <==> Solvable(b, ms, known, total)
    ensures forall j :: 0 <= j < |known| ==> acc[j] == old(acc[j])
    ensures forall j :: |known| <= j < |ms| ==> acc[j] == old(acc[j]) + Reach(b, ms, known, total, j)
    decreases |ms| - |known|, 1
  {
    var k := |known|;
    var me := ms[k];
    var result := false;
    var todo := b[me].candidates;
    ghost var done: set<int> := {};
    ghost var orig := acc[..];
    while todo != {}
      invariant todo + done == b[me].candidates && todo !! done
      invariant result <==> SolvableFrom(b, ms, known, total, done)
      invariant |orig| == |ms| && forall j :: 0 <= j < k ==> acc[j] == orig[j]
      invariant Accumulated(b, ms, known, total, orig, acc[..], done)
      decreases todo
    {
      ghost var w := Pick(todo);
      var v :| v in todo;
      todo := todo - {v};
      ghost var pre := acc[..];
      var sub := Branch(b, known, ms, acc, total, v);
      result := result || sub;
      SolvableFromAdd(b, ms, known, total, done, v);
      AccumulatedStep(b, ms, known, total, orig, pre, acc[..], done, v);
      done := done + {v};
    }
    assert forall j :: k <= j < |ms| ==> acc[..][j] == acc[j];
    SolvableFromCandidates(b, ms, known, total);
    return result;
  }

  /** One pass of the loop of `update_cage`: tries value v on member
      ms[|known|] and, when the rest of the cage can be completed, records
      v for that member. */
  method Branch(b: Board, known: seq<int>, ms: seq<Coord>, acc: array<set<int>>, total: int, v: int)
    returns (ok: bool)
    requires Members(b, ms) && |known| < |ms| - 1 && |ms| == acc.Length
    requires v in b[ms[|known|]].candidates
    modifies acc
    ensures ok <==> Admits(b, ms, known, total, v) && Solvable(b, ms, known + [v], total)
    ensures forall j :: 0 <= j < |known| ==> acc[j] == old(acc[j])
    ensures Gained(b, ms, known, total, v, old(acc[..]), acc[..])
    decreases |ms| - |known|, 0
  {
    var k := |known|;
    var me := ms[k];
    ok := false;
    if v + Sum(known) < total && forall i :: 0 <= i < k ==> ms[i] !in Peers(me) || v != known[i]
    {
      var sub := UpdateCage(b, known + [v], ms, acc, total);
      if sub {
        acc[k] := acc[k] + {v};
        ok := true;
      }
    }
  }
}
