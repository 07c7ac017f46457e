/** Three generic searches over a state space (search.py). The callers'
    heuristic, move listing and move application are Dafny function values,
    so they are pure; a move listing that keeps a memo between calls takes
    the memo as an argument and returns the updated memo. */
module Search {
  import opened Common

  /** The outcome of a search run on a budget of expansions. */
  datatype SearchResult<T> = Found(value: T) | NotFound | OutOfFuel

  // ---------------------------------------------------------------------
  // The priority queue: Python compares the queued tuples field by field,
  // which for integer fields and integer-tuple moves is the lexicographic
  // order on the flattened integers.

  /** Lexicographic "less than" on integer sequences; a proper prefix is smaller. */
  predicate LexLess(a: seq<int>, b: seq<int>)
  {
    if |a| == 0 then |b| > 0
    else if |b| == 0 then false
    else a[0] < b[0] || (a[0] == b[0] && LexLess(a[1..], b[1..]))
  }

  lemma {:induction false} LexLessIrreflexive(a: seq<int>)
    ensures !LexLess(a, a)
  {
    if |a| > 0 {
      LexLessIrreflexive(a[1..]);
    }
  }

  lemma {:induction false} LexLessTransitive(a: seq<int>, b: seq<int>, c: seq<int>)
    requires LexLess(a, b) && LexLess(b, c)
    ensures LexLess(a, c)
  {
    if |a| > 0 && a[0] == b[0] && b[0] == c[0] {
      LexLessTransitive(a[1..], b[1..], c[1..]);
    }
  }

  lemma {:induction false} LexLessTotal(a: seq<int>, b: seq<int>)
    ensures a == b || LexLess(a, b) || LexLess(b, a)
  {
    if |a| > 0 && |b| > 0 && a[0] == b[0] {
      LexLessTotal(a[1..], b[1..]);
      if a[1..] == b[1..] {
        assert a == [a[0]] + a[1..] && b == [b[0]] + b[1..];
      }
    }
  }

  lemma {:induction false} LexLessAsymmetric(a: seq<int>, b: seq<int>)
    requires LexLess(a, b)
    ensures !LexLess(b, a)
  {
    if |a| > 0 && |b| > 0 && a[0] == b[0] {
      LexLessAsymmetric(a[1..], b[1..]);
    }
  }

  /** A key below the current minimum is below every key the minimum was not above. */
  lemma NewMinimum(kj: seq<int>, ki: seq<int>, kk: seq<int>)
    requires !LexLess(kj, ki) && LexLess(kk, ki)
    ensures !LexLess(kj, kk) && LexLess(kk, kj)
  {
    LexLessTotal(kj, ki);
    if kj != ki {
      LexLessTransitive(kk, ki, kj);
    }
    LexLessAsymmetric(kk, kj);
  }

  /** `get` on the queue: the first entry whose key no other entry's key is below. */
  method PopMin<T>(q: seq<T>, key: T -> seq<int>) returns (i: nat)
    requires |q| > 0
    ensures i < |q|
    ensures forall j :: 0 <= j < |q| ==> !LexLess(key(q[j]), key(q[i]))
    ensures forall j :: 0 <= j < i ==> LexLess(key(q[i]), key(q[j]))
  {
    i := 0;
    LexLessIrreflexive(key(q[0]));
    var k := 1;
    while k < |q|
      invariant 0 <= i < k <= |q|
      invariant forall j :: 0 <= j < k ==> !LexLess(key(q[j]), key(q[i]))
      invariant forall j :: 0 <= j < i ==> LexLess(key(q[i]), key(q[j]))
    {
      if LexLess(key(q[k]), key(q[i])) {
        forall j | 0 <= j < k
          ensures !LexLess(key(q[j]), key(q[k])) && LexLess(key(q[k]), key(q[j]))
        {
          NewMinimum(key(q[j]), key(q[i]), key(q[k]));
        }
        LexLessIrreflexive(key(q[k]));
        i := k;
      }
      k := k + 1;
    }
  }

  // ---------------------------------------------------------------------
  // Replaying moves.

  /** Applies the moves one after another; once a move fails the result stays `None`. */
  function Replay<S, M>(apply: (S, M) -> Option<S>, s: S, moves: seq<M>): Option<S>
    decreases |moves|
  {
    if |moves| == 0 then Some(s)
    else
      match apply(s, moves[0])
      case None => None
      case Some(t) => Replay(apply, t, moves[1..])
  }

  /** Replay from a state that may already be `None`. */
  function Then<S, M>(apply: (S, M) -> Option<S>, s: Option<S>, moves: seq<M>): Option<S>
  {
    if s.None? then None else Replay(apply, s.value, moves)
  }

  /** Replaying two move lists in turn is replaying their concatenation. */
  lemma {:induction false} ReplayConcat<S, M>(apply: (S, M) -> Option<S>, s: S, a: seq<M>, b: seq<M>)
    ensures Replay(apply, s, a + b) == Then(apply, Replay(apply, s, a), b)
    decreases |a|
  {
    if |a| == 0 {
      assert a + b == b;
    } else {
      assert (a + b)[0] == a[0] && (a + b)[1..] == a[1..] + b;
      match apply(s, a[0]) {
        case None =>
        case Some(t) => ReplayConcat(apply, t, a[1..], b);
      }
    }
  }

  lemma ReplayOne<S, M>(apply: (S, M) -> Option<S>, s: S, m: M)
    ensures Replay(apply, s, [m]) == apply(s, m)
  {
    assert [m][1..] == [];
    match apply(s, m) {
      case None =>
      case Some(u) => assert Replay(apply, u, []) == Some(u);
    }
  }

  /** One more move on top of a replay. */
  lemma ThenSnoc<S, M>(apply: (S, M) -> Option<S>, s: Option<S>, a: seq<M>, m: M)
    ensures Then(apply, s, a + [m]) ==
      (var t := Then(apply, s, a); if t.None? then None else apply(t.value, m))
  {
    if s.Some? {
      ReplayConcat(apply, s.value, a, [m]);
      var t := Replay(apply, s.value, a);
      if t.Some? {
        ReplayOne(apply, t.value, m);
      }
    }
  }

  /** The lazy-replay invariant: a queued entry's base state is the replay of
      its first `na` moves, so replaying the rest from the base gives the same
      state as replaying the whole list from the start. This is why the copy
      interval cannot change the output. */
  lemma LazyReplay<S, M>(apply: (S, M) -> Option<S>, start: S, moves: seq<M>, na: nat, base: S)
    requires na <= |moves| && Replay(apply, start, moves[..na]) == Some(base)
    ensures Then(apply, Some(base), moves[na..]) == Replay(apply, start, moves)
  {
    ReplayConcat(apply, start, moves[..na], moves[na..]);
    assert moves[..na] + moves[na..] == moves;
  }

  // ---------------------------------------------------------------------
  // original_a_star_search

  /** Removing one queued entry leaves only entries that were queued. */
  lemma RemoveAt<T>(q: seq<T>, i: nat)
    requires i < |q|
    ensures forall x :: x in q[..i] + q[i + 1..] ==> x in q
  {
    forall x | x in q[..i] + q[i + 1..] ensures x in q {
      var k :| 0 <= k < |q[..i] + q[i + 1..]| && (q[..i] + q[i + 1..])[k] == x;
      if k < i {
        assert q[k] == x;
      } else {
        assert q[k + 1] == x;
      }
    }
  }

  /** A queued tuple `(ranking, counter, move_list, num_applied_moves, base_state)`. */
  datatype Node<S, M> = Node(rank: int, counter: nat, moves: seq<M>, numApplied: nat, base: S)

  /** The flattened integers Python compares when it orders move lists. */
  function MovesKey<M>(moveKey: M -> seq<int>, moves: seq<M>): seq<int>
  {
    if |moves| == 0 then [] else moveKey(moves[0]) + MovesKey(moveKey, moves[1..])
  }

  function NodeKey<S, M>(moveKey: M -> seq<int>, n: Node<S, M>): seq<int>
  {
    [n.rank, n.counter] + MovesKey(moveKey, n.moves)
  }

  /** Every move of the list was offered by the move listing (for some memo)
      in the state the earlier moves lead to. */
  ghost predicate Offered<S, M, C(!new)>(listMoves: (C, S) -> (C, seq<M>), apply: (S, M) -> Option<S>,
                                   start: S, moves: seq<M>)
  {
    forall k :: 0 <= k < |moves| ==>
      Replay(apply, start, moves[..k]).Some? &&
      exists c: C :: moves[k] in listMoves(c, Replay(apply, start, moves[..k]).value).1
  }

  lemma OfferedSnoc<S, M, C(!new)>(listMoves: (C, S) -> (C, seq<M>), apply: (S, M) -> Option<S>,
                             start: S, moves: seq<M>, m: M, c: C)
    requires Offered(listMoves, apply, start, moves)
    requires Replay(apply, start, moves).Some?
    requires m in listMoves(c, Replay(apply, start, moves).value).1
    ensures Offered(listMoves, apply, start, moves + [m])
  {
    var ext := moves + [m];
    forall k | 0 <= k < |ext|
      ensures Replay(apply, start, ext[..k]).Some? &&
        exists c': C :: ext[k] in listMoves(c', Replay(apply, start, ext[..k]).value).1
    {
      if k < |moves| {
        assert ext[..k] == moves[..k] && ext[k] == moves[k];
      } else {
        assert ext[..k] == moves && ext[k] == m;
      }
    }
  }

  /** What holds of every queued entry. */
  ghost predicate NodeOk<S, M, C(!new)>(start: S, heuristic: S -> int, listMoves: (C, S) -> (C, seq<M>),
                                  apply: (S, M) -> Option<S>, n: Node<S, M>)
  {
    n.numApplied <= |n.moves| &&
    Replay(apply, start, n.moves[..n.numApplied]) == Some(n.base) &&
    Replay(apply, start, n.moves).Some? &&
    (|n.moves| > 0 ==> n.rank == |n.moves| + heuristic(Replay(apply, start, n.moves).value)) &&
    Offered(listMoves, apply, start, n.moves)
  }

  /** One move offered in the state of an expanded entry: a move that cannot
      be applied is skipped; otherwise the extended move list is the answer
      when its state has heuristic 0 and is queued as `child` when not. A
      child past the copy interval stores its own state as the base. */
  method TryMove<S, M, C(!new)>(start: S, heuristic: S -> int, listMoves: (C, S) -> (C, seq<M>),
                                apply: (S, M) -> Option<S>, node: Node<S, M>, st: S, memo: C, move: M,
                                counter: nat, copyInterval: int)
    returns (found: bool, child: Option<Node<S, M>>)
    requires NodeOk(start, heuristic, listMoves, apply, node)
    requires Replay(apply, start, node.moves) == Some(st)
    requires move in listMoves(memo, st).1
    ensures found ==>
      Replay(apply, start, node.moves + [move]).Some? &&
      heuristic(Replay(apply, start, node.moves + [move]).value) == 0 &&
      Offered(listMoves, apply, start, node.moves + [move])
    ensures child.Some? ==> NodeOk(start, heuristic, listMoves, apply, child.value)
  {
    found, child := false, None;
    var cost := |node.moves| + 1;
    var newPath := node.moves + [move];
    var newState := apply(st, move);
    if newState.None? {
      return;
    }
    var hv := heuristic(newState.value);
    ReplayConcat(apply, start, node.moves, [move]);
    ReplayOne(apply, st, move);
    OfferedSnoc(listMoves, apply, start, node.moves, move, memo);
    if hv == 0 {
      found := true;
      return;
    }
    if copyInterval >= 0 && cost - node.numApplied > copyInterval {
      child := Some(Node(cost + hv, counter, newPath, |newPath|, newState.value));
      assert newPath[..|newPath|] == newPath;
    } else {
      child := Some(Node(cost + hv, counter, newPath, node.numApplied, node.base));
      assert newPath[..node.numApplied] == node.moves[..node.numApplied];
    }
  }

  /** `original_a_star_search`: expands move lists in order of
      `(length + heuristic, counter, move list)` and returns the first move
      list whose final state has heuristic 0. The start state itself is never
      tested. A positive `searchLimit` stops the search after that many
      expansions; `fuel` bounds the expansions otherwise. */
  method OriginalAStarSearch<S, M, C(!new)>(start: S, heuristic: S -> int, listMoves: (C, S) -> (C, seq<M>),
                                      apply: (S, M) -> Option<S>, moveKey: M -> seq<int>, memo: C,
                                      copyInterval: int, searchLimit: int, fuel: nat)
    returns (r: SearchResult<seq<M>>, ghost dequeued: nat)
    ensures r.Found? ==>
      |r.value| > 0 && Replay(apply, start, r.value).Some? &&
      heuristic(Replay(apply, start, r.value).value) == 0
    ensures r.Found? ==> Offered(listMoves, apply, start, r.value)
    ensures searchLimit > 0 ==> dequeued <= searchLimit
    ensures r.OutOfFuel? ==> dequeued == fuel && (searchLimit <= 0 || fuel < searchLimit)
  {
    var fringe: seq<Node<S, M>> := [Node(0, 0, [], 0, start)];
    var counter: nat := 0;
    var c := memo;
    dequeued := 0;
    while |fringe| > 0
      invariant dequeued == counter <= fuel
      invariant searchLimit > 0 ==> counter <= searchLimit
      invariant forall n :: n in fringe ==> NodeOk(start, heuristic, listMoves, apply, n)
      decreases fuel - counter
    {
      counter := counter + 1;
      if searchLimit > 0 && counter > searchLimit {
        return NotFound, dequeued;
      }
      if counter - 1 == fuel {
        return OutOfFuel, dequeued;
      }
      var i := PopMin(fringe, n => NodeKey(moveKey, n));
      var node := fringe[i];
      assert node in fringe;
      RemoveAt(fringe, i);
      fringe := fringe[..i] + fringe[i + 1..];
      dequeued := dequeued + 1;

      // Re-construct the current state from the entry's base state.
      var state: Option<S> := Some(node.base);
      for k := node.numApplied to |node.moves|
        invariant state == Then(apply, Some(node.base), node.moves[node.numApplied..k])
      {
        if state.Some? {
          state := apply(state.value, node.moves[k]);
        }
        ThenSnoc(apply, Some(node.base), node.moves[node.numApplied..k], node.moves[k]);
        assert node.moves[node.numApplied..k + 1] == node.moves[node.numApplied..k] + [node.moves[k]];
      }
      assert node.moves[node.numApplied..|node.moves|] == node.moves[node.numApplied..];
      LazyReplay(apply, start, node.moves, node.numApplied, node.base);
      if state.None? {
        continue;
      }
      var st := state.value;
      var memoBefore := c;
      var listed := listMoves(c, st);
      c := listed.0;
      var possible := listed.1;
      for j := 0 to |possible|
        invariant forall n :: n in fringe ==> NodeOk(start, heuristic, listMoves, apply, n)
      {
        var found, child := TryMove(start, heuristic, listMoves, apply, node, st, memoBefore, possible[j],
                                    counter, copyInterval);
        if found {
          return Found(node.moves + [possible[j]]), dequeued;
        }
        if child.Some? {
          fringe := fringe + [child.value];
        }
      }
    }
    return NotFound, dequeued;
  }

  // ---------------------------------------------------------------------
  // a_star_search

  /** The linked path `(state, parent)`, ending in `False` at the start. */
  datatype Trail<S> = Origin | Step(state: S, prev: Trail<S>)

  /** The states of a linked path, oldest first. */
  function States<S>(t: Trail<S>): seq<S>
  {
    match t
    case Origin => []
    case Step(s, p) => States(p) + [s]
  }

  /** `s[::-1]`. */
  function Reversed<T>(s: seq<T>): (r: seq<T>)
    ensures |r| == |s|
    ensures forall i :: 0 <= i < |s| ==> r[i] == s[|s| - 1 - i]
  {
    if |s| == 0 then [] else Reversed(s[1..]) + [s[0]]
  }

  lemma {:induction false} ReversedSnoc<T>(s: seq<T>, x: T)
    ensures Reversed(s + [x]) == [x] + Reversed(s)
  {
    if |s| > 0 {
      assert (s + [x])[1..] == s[1..] + [x];
      ReversedSnoc(s[1..], x);
    } else {
      assert [x][1..] == [];
    }
  }

  /** `collapse_path`: walks the linked path from its newest state back to the
      start and reverses what it collected, giving the states oldest first. */
  method CollapsePath<S>(t: Trail<S>) returns (res: seq<S>)
    ensures res == States(t)
  {
    var acc: seq<S> := [];
    var x := t;
    while x.Step?
      invariant States(t) == States(x) + Reversed(acc)
      decreases x
    {
      ReversedSnoc(acc, x.state);
      acc := acc + [x.state];
      x := x.prev;
    }
    res := Reversed(acc);
  }

  /** A queued tuple `(ranking, counter, state, cost, path)`. */
  datatype Entry<S> = Entry(rank: int, counter: nat, state: S, cost: nat, path: Trail<S>)

  /** A walk from `start` along `listAdjacent` that visits no state twice. */
  ghost predicate IsWalk<S>(listAdjacent: S -> seq<S>, start: S, p: seq<S>)
  {
    |p| > 0 && p[0] == start &&
    (forall i :: 0 <= i < |p| - 1 ==> p[i + 1] in listAdjacent(p[i])) &&
    (forall i, j :: 0 <= i < j < |p| ==> p[i] != p[j])
  }

  /** What holds of every queued entry of `a_star_search`. */
  ghost predicate EntryOk<S>(start: S, heuristic: S -> int, listAdjacent: S -> seq<S>,
                             explored: set<S>, e: Entry<S>)
  {
    var p := States(e.path);
    IsWalk(listAdjacent, start, p) && p[|p| - 1] == e.state &&
    (forall i :: 0 <= i < |p| ==> p[i] in explored) &&
    e.cost == |p| - 1 &&
    (e.cost > 0 ==> e.rank == e.cost - 1 + heuristic(e.state))
  }

  lemma WalkSnoc<S>(listAdjacent: S -> seq<S>, start: S, p: seq<S>, explored: set<S>, s: S)
    requires IsWalk(listAdjacent, start, p)
    requires forall i :: 0 <= i < |p| ==> p[i] in explored
    requires s !in explored && s in listAdjacent(p[|p| - 1])
    ensures IsWalk(listAdjacent, start, p + [s])
  {
  }

  lemma {:induction false} SubsetCard<S>(a: set<S>, b: set<S>)
    requires a <= b
    ensures |a| <= |b|
    decreases a
  {
    if a != {} {
      var y :| y in a;
      SubsetCard(a - {y}, b - {y});
    }
  }

  /** A sequence has no more distinct elements than entries. */
  lemma {:induction false} SeqSetCard<T>(xs: seq<T>)
    ensures |set x | x in xs| <= |xs|
  {
    if |xs| > 0 {
      var init := xs[..|xs| - 1];
      SeqSetCard(init);
      assert (set x | x in xs) == (set x | x in init) + {xs[|xs| - 1]} by {
        assert xs == init + [xs[|xs| - 1]];
      }
    }
  }

  lemma StrictSubsetSmaller<S>(u: set<S>, a: set<S>, b: set<S>)
    requires a < b && b <= u
    ensures |u - b| < |u - a|
  {
    var x :| x in b && x !in a;
    assert x in u - a && x !in u - b;
    SubsetCard(u - b, (u - a) - {x});
    assert |(u - a) - {x}| == |u - a| - 1;
  }

  /** Queued entries stay valid as more states are explored. */
  lemma EntriesGrow<S>(start: S, heuristic: S -> int, listAdjacent: S -> seq<S>,
                       explored: set<S>, explored': set<S>, fringe: seq<Entry<S>>)
    requires explored <= explored'
    requires forall e :: e in fringe ==> EntryOk(start, heuristic, listAdjacent, explored, e)
    ensures forall e :: e in fringe ==> EntryOk(start, heuristic, listAdjacent, explored', e)
  {
  }

  /** One adjacent state `newState` of the expanded entry `node`: a state not
      yet explored is explored, and is either the goal or queued. */
  method Discover<S(==)>(start: S, heuristic: S -> int, listAdjacent: S -> seq<S>,
                         node: Entry<S>, newState: S, counter: nat,
                         explored: set<S>, fringe: seq<Entry<S>>)
    returns (explored': set<S>, fringe': seq<Entry<S>>, found: Option<seq<S>>)
    requires newState in listAdjacent(node.state)
    requires forall e :: e in fringe ==> EntryOk(start, heuristic, listAdjacent, explored, e)
    requires EntryOk(start, heuristic, listAdjacent, explored, node)
    ensures explored' == explored || explored' == explored + {newState}
    ensures explored' == explored ==> fringe' == fringe
    ensures explored' != explored ==> newState !in explored && |fringe'| <= |fringe| + 1
    ensures forall e :: e in fringe' ==> EntryOk(start, heuristic, listAdjacent, explored', e)
    ensures found.Some? ==>
      |found.value| >= 2 && IsWalk(listAdjacent, start, found.value) &&
      heuristic(found.value[|found.value| - 1]) == 0
  {
    explored', fringe', found := explored, fringe, None;
    if newState in explored {
      return;
    }
    explored' := explored + {newState};
    var hv := heuristic(newState);
    var newCost := node.cost + 1;
    var newPath := Step(newState, node.path);
    WalkSnoc(listAdjacent, start, States(node.path), explored, newState);
    EntriesGrow(start, heuristic, listAdjacent, explored, explored', fringe);
    if hv == 0 {
      var p := CollapsePath(newPath);
      found := Some(p);
      return;
    }
    var child := Entry(node.cost + hv, counter, newState, newCost, newPath);
    assert EntryOk(start, heuristic, listAdjacent, explored', child);
    fringe' := fringe + [child];
  }

  /** `a_star_search`: expands states in order of `(ranking, counter)`,
      never queues a state twice, and returns the path of states to the first
      newly reached state whose heuristic is 0. At most `fuel` states are
      expanded; `outOfFuel` says the bound stopped the search. Each queued
      state is new, so when every state reachable from `start` lies in a
      finite `universe` of at most `fuel` states, the bound is never hit. */
  method AStarSearch<S(==)>(start: S, heuristic: S -> int, listAdjacent: S -> seq<S>, fuel: nat,
                            ghost universe: set<S>)
    returns (r: Option<seq<S>>, outOfFuel: bool)
    ensures r.Some? ==>
      |r.value| >= 2 && IsWalk(listAdjacent, start, r.value) &&
      heuristic(r.value[|r.value| - 1]) == 0
    ensures outOfFuel ==> r.None?
    ensures start in universe && |universe| <= fuel &&
            (forall s, t :: s in universe && t in listAdjacent(s) ==> t in universe)
            ==> !outOfFuel
  {
    ghost var closed := start in universe &&
      forall s, t :: s in universe && t in listAdjacent(s) ==> t in universe;
    var explored: set<S> := {start};
    var counter: nat := 0;
    var fringe: seq<Entry<S>> := [Entry(0, counter, start, 0, Step(start, Origin))];
    assert States(Step(start, Origin)) == [start];
    var remaining := fuel;
    while |fringe| > 0
      invariant closed ==> explored <= universe
      invariant fuel - remaining + |fringe| <= |explored|
      invariant forall e :: e in fringe ==> EntryOk(start, heuristic, listAdjacent, explored, e)
      decreases remaining
    {
      if remaining == 0 {
        if closed {
          SubsetCard(explored, universe);
        }
        return None, true;
      }
      remaining := remaining - 1;
      var i := PopMin(fringe, (e: Entry<S>) => [e.rank, e.counter]);
      var node := fringe[i];
      assert node in fringe;
      RemoveAt(fringe, i);
      fringe := fringe[..i] + fringe[i + 1..];
      var adjacent := listAdjacent(node.state);
      assert node.state in explored by {
        var p := States(node.path);
        assert p[|p| - 1] in explored;
      }
      for j := 0 to |adjacent|
        invariant closed ==> explored <= universe
        invariant fuel - remaining + |fringe| <= |explored|
        invariant node.state in explored
        invariant forall e :: e in fringe ==> EntryOk(start, heuristic, listAdjacent, explored, e)
        invariant EntryOk(start, heuristic, listAdjacent, explored, node)
      {
        counter := counter + 1;
        var found;
        ghost var before := explored;
        explored, fringe, found := Discover(start, heuristic, listAdjacent, node, adjacent[j], counter, explored, fringe);
        if found.Some? {
          return found, false;
        }
        EntriesGrow(start, heuristic, listAdjacent, before, explored, [node]);
        assert node in [node];
      }
    }
    return None, false;
  }

  // ---------------------------------------------------------------------
  // explore_state_space

  /** Every move of the list was offered in the state the earlier moves lead to. */
  ghost predicate Legal<S, M>(listMoves: S -> seq<M>, apply: (S, M) -> Option<S>, start: S, path: seq<M>)
  {
    forall k :: 0 <= k < |path| ==>
      Replay(apply, start, path[..k]).Some? &&
      path[k] in listMoves(Replay(apply, start, path[..k]).value)
  }

  lemma LegalSnoc<S, M>(listMoves: S -> seq<M>, apply: (S, M) -> Option<S>, start: S, path: seq<M>, m: M)
    requires Legal(listMoves, apply, start, path)
    requires Replay(apply, start, path).Some?
    requires m in listMoves(Replay(apply, start, path).value)
    ensures Legal(listMoves, apply, start, path + [m])
  {
    var ext := path + [m];
    forall k | 0 <= k < |ext|
      ensures Replay(apply, start, ext[..k]).Some? &&
        ext[k] in listMoves(Replay(apply, start, ext[..k]).value)
    {
      if k < |path| {
        assert ext[..k] == path[..k] && ext[k] == path[k];
      } else {
        assert ext[..k] == path && ext[k] == m;
      }
    }
  }

  /** `max(depth, 1)`: the length of every collected path. */
  function FullLength(depth: int): nat
  {
    if depth < 1 then 1 else depth
  }

  /** A collected candidate: a legal move list of full length and the state it reaches. */
  ghost predicate Candidate<S, M>(listMoves: S -> seq<M>, apply: (S, M) -> Option<S>, start: S,
                                  depth: int, st: S, path: seq<M>)
  {
    |path| == FullLength(depth) && Replay(apply, start, path) == Some(st) &&
    Legal(listMoves, apply, start, path)
  }

  /** The number of fringe entries the depth-first walk can still pop below
      state `s` with `rem` moves to go: the termination measure. */
  function TreeSize<S, M>(listMoves: S -> seq<M>, apply: (S, M) -> Option<S>, s: S, rem: int): nat
    decreases if rem < 0 then 0 else rem, 1, 0
  {
    1 + ChildrenSize(listMoves, apply, s, listMoves(s), rem)
  }

  function ChildrenSize<S, M>(listMoves: S -> seq<M>, apply: (S, M) -> Option<S>, s: S,
                              ms: seq<M>, rem: int): nat
    decreases if rem < 0 then 0 else rem, 0, |ms|
  {
    if |ms| == 0 then 0
    else
      ChildrenSize(listMoves, apply, s, ms[..|ms| - 1], rem) +
      (var child := apply(s, ms[|ms| - 1]);
       if rem >= 2 && child.Some? then TreeSize(listMoves, apply, child.value, rem - 1) else 0)
  }

  function FringeSize<S, M>(listMoves: S -> seq<M>, apply: (S, M) -> Option<S>, depth: int,
                            fringe: seq<(S, seq<M>)>): nat
  {
    if |fringe| == 0 then 0
    else
      FringeSize(listMoves, apply, depth, fringe[..|fringe| - 1]) +
      TreeSize(listMoves, apply, fringe[|fringe| - 1].0, depth - |fringe[|fringe| - 1].1|)
  }

  lemma FringePush<S, M>(listMoves: S -> seq<M>, apply: (S, M) -> Option<S>, depth: int,
                         fringe: seq<(S, seq<M>)>, e: (S, seq<M>))
    ensures FringeSize(listMoves, apply, depth, fringe + [e]) ==
      FringeSize(listMoves, apply, depth, fringe) + TreeSize(listMoves, apply, e.0, depth - |e.1|)
  {
    assert (fringe + [e])[..|fringe|] == fringe;
  }

  /** A fringe entry: a legal move list shorter than the full length and the state it reaches. */
  ghost predicate Pending<S, M>(listMoves: S -> seq<M>, apply: (S, M) -> Option<S>, start: S,
                                depth: int, e: (S, seq<M>))
  {
    |e.1| < FullLength(depth) && Replay(apply, start, e.1) == Some(e.0) &&
    Legal(listMoves, apply, start, e.1)
  }

  ghost predicate AllCandidates<S, M>(listMoves: S -> seq<M>, apply: (S, M) -> Option<S>, start: S,
                                      depth: int, toCheck: seq<(S, seq<M>)>)
  {
    forall i :: 0 <= i < |toCheck| ==> Candidate(listMoves, apply, start, depth, toCheck[i].0, toCheck[i].1)
  }

  ghost predicate AllPending<S, M>(listMoves: S -> seq<M>, apply: (S, M) -> Option<S>, start: S,
                                   depth: int, fringe: seq<(S, seq<M>)>)
  {
    forall i :: 0 <= i < |fringe| ==> Pending(listMoves, apply, start, depth, fringe[i])
  }

  /** One move out of a fringe entry: the extended list is legal and reaches the new state. */
  lemma ExtendEntry<S, M>(listMoves: S -> seq<M>, apply: (S, M) -> Option<S>, start: S,
                          depth: int, e: (S, seq<M>), m: M, t: S)
    requires Pending(listMoves, apply, start, depth, e)
    requires m in listMoves(e.0) && apply(e.0, m) == Some(t)
    ensures |e.1 + [m]| >= depth ==> Candidate(listMoves, apply, start, depth, t, e.1 + [m])
    ensures |e.1 + [m]| < depth ==> Pending(listMoves, apply, start, depth, (t, e.1 + [m]))
  {
    ReplayConcat(apply, start, e.1, [m]);
    ReplayOne(apply, e.0, m);
    LegalSnoc(listMoves, apply, start, e.1, m);
  }

  /** The stack and the candidates found so far after the move `m` out of
      the entry `top`: a move that fails is skipped, one that reaches the
      depth is a candidate, and any other is pushed on the stack. */
  ghost function MoveStep<S, M>(apply: (S, M) -> Option<S>, depth: int, top: (S, seq<M>), m: M,
                            acc: (seq<(S, seq<M>)>, seq<(S, seq<M>)>)): (seq<(S, seq<M>)>, seq<(S, seq<M>)>)
  {
    var child := apply(top.0, m);
    if child.None? then acc
    else if |top.1 + [m]| >= depth then (acc.0, acc.1 + [(child.value, top.1 + [m])])
    else (acc.0 + [(child.value, top.1 + [m])], acc.1)
  }

  /** The stack and the new candidates after the moves `ms` out of `top`,
      taken in order, starting from the stack `fringe`. */
  ghost function Expand<S, M>(apply: (S, M) -> Option<S>, depth: int, top: (S, seq<M>), ms: seq<M>,
                              fringe: seq<(S, seq<M>)>): (seq<(S, seq<M>)>, seq<(S, seq<M>)>)
    decreases |ms|
  {
    if |ms| == 0 then (fringe, [])
    else MoveStep(apply, depth, top, ms[|ms| - 1], Expand(apply, depth, top, ms[..|ms| - 1], fringe))
  }

  /** The candidates the depth-first walk of `explore_state_space` collects
      from the stack `fringe`, in order: pop the top entry, try each of its
      listed moves, and carry on with the stack that leaves. */
  ghost function ToCheck<S, M>(listMoves: S -> seq<M>, apply: (S, M) -> Option<S>, depth: int,
                               fringe: seq<(S, seq<M>)>): seq<(S, seq<M>)>
    decreases FringeSize(listMoves, apply, depth, fringe)
  {
    if |fringe| == 0 then []
    else
      var top := fringe[|fringe| - 1];
      var next := Expand(apply, depth, top, listMoves(top.0), fringe[..|fringe| - 1]);
      ExpandSize(listMoves, apply, depth, top, listMoves(top.0), fringe[..|fringe| - 1]);
      next.1 + ToCheck(listMoves, apply, depth, next.0)
  }

  /** Expanding an entry replaces it on the stack by the walks below its
      children, so the walk terminates. */
  lemma {:induction false} ExpandSize<S, M>(listMoves: S -> seq<M>, apply: (S, M) -> Option<S>, depth: int,
                                            top: (S, seq<M>), ms: seq<M>, fringe: seq<(S, seq<M>)>)
    ensures FringeSize(listMoves, apply, depth, Expand(apply, depth, top, ms, fringe).0) ==
      FringeSize(listMoves, apply, depth, fringe) + ChildrenSize(listMoves, apply, top.0, ms, depth - |top.1|)
    decreases |ms|
  {
    if |ms| > 0 {
      var prev := Expand(apply, depth, top, ms[..|ms| - 1], fringe);
      ExpandSize(listMoves, apply, depth, top, ms[..|ms| - 1], fringe);
      var m := ms[|ms| - 1];
      var child := apply(top.0, m);
      if child.Some? && |top.1 + [m]| < depth {
        FringePush(listMoves, apply, depth, prev.0, (child.value, top.1 + [m]));
      }
    }
  }

  /** A step only appends, to the stack or to the candidates. */
  lemma StepAppends<S, M>(apply: (S, M) -> Option<S>, depth: int, top: (S, seq<M>), m: M,
                          acc: (seq<(S, seq<M>)>, seq<(S, seq<M>)>))
    ensures var next := MoveStep(apply, depth, top, m, acc);
      |acc.0| <= |next.0| && next.0[..|acc.0|] == acc.0 && |acc.1| <= |next.1| && next.1[..|acc.1|] == acc.1
  {
  }

  /** Expanding by more moves only appends, to the stack and to the candidates. */
  lemma {:induction false} ExpandPrefix<S, M>(apply: (S, M) -> Option<S>, depth: int, top: (S, seq<M>),
                                              ms: seq<M>, fringe: seq<(S, seq<M>)>, j: nat)
    requires j <= |ms|
    ensures var short, long := Expand(apply, depth, top, ms[..j], fringe), Expand(apply, depth, top, ms, fringe);
      |short.0| <= |long.0| && long.0[..|short.0|] == short.0 &&
      |short.1| <= |long.1| && long.1[..|short.1|] == short.1
    decreases |ms|
  {
    if j == |ms| {
      assert ms[..j] == ms;
    } else {
      var init := ms[..|ms| - 1];
      assert init[..j] == ms[..j];
      ExpandPrefix(apply, depth, top, init, fringe, j);
      var short, mid := Expand(apply, depth, top, ms[..j], fringe), Expand(apply, depth, top, init, fringe);
      var long := Expand(apply, depth, top, ms, fringe);
      StepAppends(apply, depth, top, ms[|ms| - 1], mid);
      assert long.0[..|short.0|] == long.0[..|mid.0|][..|short.0|];
      assert long.1[..|short.1|] == long.1[..|mid.1|][..|short.1|];
    }
  }

  /** Expanding a stack entry by some of its listed moves gives stack
      entries and candidates only. */
  lemma {:induction false} ExpandSound<S, M>(listMoves: S -> seq<M>, apply: (S, M) -> Option<S>, start: S,
                                             depth: int, top: (S, seq<M>), ms: seq<M>, fringe: seq<(S, seq<M>)>)
    requires Pending(listMoves, apply, start, depth, top)
    requires forall k :: 0 <= k < |ms| ==> ms[k] in listMoves(top.0)
    requires AllPending(listMoves, apply, start, depth, fringe)
    ensures AllPending(listMoves, apply, start, depth, Expand(apply, depth, top, ms, fringe).0)
    ensures AllCandidates(listMoves, apply, start, depth, Expand(apply, depth, top, ms, fringe).1)
    decreases |ms|
  {
    if |ms| > 0 {
      var init := ms[..|ms| - 1];
      ExpandSound(listMoves, apply, start, depth, top, init, fringe);
      var m := ms[|ms| - 1];
      var child := apply(top.0, m);
      if child.Some? {
        ExtendEntry(listMoves, apply, start, depth, top, m, child.value);
      }
    }
  }

  /** Every entry the walk collects from a stack of entries is a candidate. */
  lemma {:induction false} ToCheckSound<S, M>(listMoves: S -> seq<M>, apply: (S, M) -> Option<S>, start: S,
                                              depth: int, fringe: seq<(S, seq<M>)>)
    requires AllPending(listMoves, apply, start, depth, fringe)
    ensures AllCandidates(listMoves, apply, start, depth, ToCheck(listMoves, apply, depth, fringe))
    decreases FringeSize(listMoves, apply, depth, fringe)
  {
    if |fringe| > 0 {
      var top := fringe[|fringe| - 1];
      var rest := fringe[..|fringe| - 1];
      var next := Expand(apply, depth, top, listMoves(top.0), rest);
      assert Pending(listMoves, apply, start, depth, top);
      assert AllPending(listMoves, apply, start, depth, rest) by {
        forall i | 0 <= i < |rest| ensures Pending(listMoves, apply, start, depth, rest[i]) {
          assert rest[i] == fringe[i];
        }
      }
      ExpandSound(listMoves, apply, start, depth, top, listMoves(top.0), rest);
      ExpandSize(listMoves, apply, depth, top, listMoves(top.0), rest);
      ToCheckSound(listMoves, apply, start, depth, next.0);
      assert ToCheck(listMoves, apply, depth, fringe) == next.1 + ToCheck(listMoves, apply, depth, next.0);
    }
  }

  /** The walk from a stack collects every candidate that extends one of the
      stack's entries. */
  lemma {:induction false} ToCheckComplete<S, M>(listMoves: S -> seq<M>, apply: (S, M) -> Option<S>, start: S,
                                                 depth: int, fringe: seq<(S, seq<M>)>, i: nat, path: seq<M>)
    requires i < |fringe| && Replay(apply, start, fringe[i].1) == Some(fringe[i].0)
    requires |fringe[i].1| < |path| == FullLength(depth) && path[..|fringe[i].1|] == fringe[i].1
    requires Legal(listMoves, apply, start, path) && Replay(apply, start, path).Some?
    ensures (Replay(apply, start, path).value, path) in ToCheck(listMoves, apply, depth, fringe)
    decreases FringeSize(listMoves, apply, depth, fringe)
  {
    var top := fringe[|fringe| - 1];
    var rest := fringe[..|fringe| - 1];
    var ms := listMoves(top.0);
    var next := Expand(apply, depth, top, ms, rest);
    ExpandSize(listMoves, apply, depth, top, ms, rest);
    assert ToCheck(listMoves, apply, depth, fringe) == next.1 + ToCheck(listMoves, apply, depth, next.0);
    if i < |fringe| - 1 {
      ExpandKeeps(apply, depth, top, ms, rest, i);
      ToCheckComplete(listMoves, apply, start, depth, next.0, i, path);
    } else {
      var m := path[|top.1|];
      TopChild(listMoves, apply, start, depth, top, path);
      var k :| 0 <= k < |ms| && ms[k] == m;
      ExpandAt(apply, depth, top, ms, rest, k);
      if |top.1 + [m]| < depth {
        ToCheckComplete(listMoves, apply, start, depth, next.0, |Expand(apply, depth, top, ms[..k], rest).0|, path);
      }
    }
  }

  /** Expanding the top entry keeps the entries below it in place. */
  lemma ExpandKeeps<S, M>(apply: (S, M) -> Option<S>, depth: int, top: (S, seq<M>), ms: seq<M>,
                          rest: seq<(S, seq<M>)>, i: nat)
    requires i < |rest|
    ensures i < |Expand(apply, depth, top, ms, rest).0| && Expand(apply, depth, top, ms, rest).0[i] == rest[i]
  {
    ExpandPrefix(apply, depth, top, ms, rest, 0);
    assert ms[..0] == [];
    var next := Expand(apply, depth, top, ms, rest);
    assert next.0[i] == next.0[..|rest|][i];
  }

  /** The move `ms[k]` out of `top`, when it succeeds, leaves its candidate,
      or its stack entry, where the walk finds it after all of `ms`. */
  lemma ExpandAt<S, M>(apply: (S, M) -> Option<S>, depth: int, top: (S, seq<M>), ms: seq<M>,
                       rest: seq<(S, seq<M>)>, k: nat)
    requires k < |ms| && apply(top.0, ms[k]).Some?
    ensures var before, next := Expand(apply, depth, top, ms[..k], rest), Expand(apply, depth, top, ms, rest);
      var entry := (apply(top.0, ms[k]).value, top.1 + [ms[k]]);
      (|top.1 + [ms[k]]| >= depth ==> |before.1| < |next.1| && next.1[|before.1|] == entry) &&
      (|top.1 + [ms[k]]| < depth ==> |before.0| < |next.0| && next.0[|before.0|] == entry)
  {
    ExpandPrefix(apply, depth, top, ms, rest, k + 1);
    assert ms[..k + 1][..k] == ms[..k];
    var before := Expand(apply, depth, top, ms[..k], rest);
    var after := Expand(apply, depth, top, ms[..k + 1], rest);
    var next := Expand(apply, depth, top, ms, rest);
    assert after == MoveStep(apply, depth, top, ms[k], before);
    if |top.1 + [ms[k]]| >= depth {
      assert next.1[|before.1|] == next.1[..|after.1|][|before.1|];
    } else {
      assert next.0[|before.0|] == next.0[..|after.0|][|before.0|];
    }
  }

  /** A candidate that extends the entry `top` does so by a listed move that
      succeeds; that move completes it at the depth, or leaves an entry the
      candidate still extends. */
  lemma TopChild<S, M>(listMoves: S -> seq<M>, apply: (S, M) -> Option<S>, start: S, depth: int,
                       top: (S, seq<M>), path: seq<M>)
    requires Replay(apply, start, top.1) == Some(top.0)
    requires |top.1| < |path| == FullLength(depth) && path[..|top.1|] == top.1
    requires Legal(listMoves, apply, start, path) && Replay(apply, start, path).Some?
    ensures var m := path[|top.1|];
      m in listMoves(top.0) && apply(top.0, m).Some? &&
      Replay(apply, start, top.1 + [m]) == apply(top.0, m) &&
      path[..|top.1 + [m]|] == top.1 + [m] &&
      (|top.1 + [m]| >= depth ==> top.1 + [m] == path)
  {
    var n := |top.1|;
    var m := path[n];
    ReplayConcat(apply, start, top.1, [m]);
    ReplayOne(apply, top.0, m);
    assert path[..n + 1] == top.1 + [m];
    if n + 1 == |path| {
      assert path[..n + 1] == path;
    } else {
      assert Replay(apply, start, path[..n + 1]).Some?;
    }
  }

  /** The walk from the start collects exactly the candidates: legal move
      lists of full length, each with the state it reaches. */
  lemma ToCheckExact<S, M>(listMoves: S -> seq<M>, apply: (S, M) -> Option<S>, start: S, depth: int,
                           st: S, path: seq<M>)
    ensures (st, path) in ToCheck(listMoves, apply, depth, [(start, [])]) <==>
      Candidate(listMoves, apply, start, depth, st, path)
  {
    var fringe: seq<(S, seq<M>)> := [(start, [])];
    StartPending(listMoves, apply, start, depth);
    ToCheckSound(listMoves, apply, start, depth, fringe);
    if Candidate(listMoves, apply, start, depth, st, path) {
      ToCheckComplete(listMoves, apply, start, depth, fringe, 0, path);
    }
  }

  /** The walk starts from the empty move list at the start. */
  lemma StartPending<S, M>(listMoves: S -> seq<M>, apply: (S, M) -> Option<S>, start: S, depth: int)
    ensures AllPending(listMoves, apply, start, depth, [(start, [])])
  {
    assert Replay(apply, start, []) == Some(start);
    assert Pending(listMoves, apply, start, depth, (start, []));
  }

  /** The depth-first walk of `explore_state_space`: collects, in the order
      the stack produces them, the states and move lists that reach the
      depth or, for a depth below 1, take one move. */
  method CollectCandidates<S, M>(start: S, listMoves: S -> seq<M>, apply: (S, M) -> Option<S>, depth: int)
    returns (toCheck: seq<(S, seq<M>)>)
    ensures toCheck == ToCheck(listMoves, apply, depth, [(start, [])])
    ensures forall i :: 0 <= i < |toCheck| ==>
      Candidate(listMoves, apply, start, depth, toCheck[i].0, toCheck[i].1)
  {
    var fringe: seq<(S, seq<M>)> := [(start, [])];
    toCheck := [];
    while |fringe| > 0
      invariant toCheck + ToCheck(listMoves, apply, depth, fringe) == ToCheck(listMoves, apply, depth, [(start, [])])
      decreases FringeSize(listMoves, apply, depth, fringe)
    {
      ghost var popped, before := fringe, toCheck;
      var top := fringe[|fringe| - 1];
      var state, path := top.0, top.1;
      fringe := fringe[..|fringe| - 1];
      ghost var rest := fringe;
      var moves := listMoves(state);
      for j := 0 to |moves|
        invariant fringe == Expand(apply, depth, top, moves[..j], rest).0
        invariant toCheck == before + Expand(apply, depth, top, moves[..j], rest).1
      {
        assert moves[..j + 1][..j] == moves[..j];
        var newState := apply(state, moves[j]);
        var newPath := path + [moves[j]];
        if newState.Some? {
          if |newPath| >= depth {
            toCheck := toCheck + [(newState.value, newPath)];
          } else {
            fringe := fringe + [(newState.value, newPath)];
          }
        }
      }
      assert moves[..|moves|] == moves;
      ExpandSize(listMoves, apply, depth, top, moves, rest);
      assert ToCheck(listMoves, apply, depth, popped) == Expand(apply, depth, top, moves, rest).1 +
        ToCheck(listMoves, apply, depth, fringe);
    }
    StartPending(listMoves, apply, start, depth);
    ToCheckSound(listMoves, apply, start, depth, [(start, [])]);
  }

  function Score<S, M>(heuristic: S -> int, c: (S, seq<M>)): int
  {
    heuristic(c.0)
  }

  /** The selection loop of `explore_state_space`: the first candidate whose
      score is above 0 and above that of every earlier candidate, and at
      least that of every later one. */
  method BestCandidate<S, M>(toCheck: seq<(S, seq<M>)>, heuristic: S -> int)
    returns (best: Option<seq<M>>, ghost index: nat)
    ensures best.None? <==> forall i :: 0 <= i < |toCheck| ==> Score(heuristic, toCheck[i]) <= 0
    ensures best.Some? ==>
      index < |toCheck| && best.value == toCheck[index].1 && Score(heuristic, toCheck[index]) > 0 &&
      (forall j :: 0 <= j < |toCheck| ==> Score(heuristic, toCheck[j]) <= Score(heuristic, toCheck[index])) &&
      (forall j :: 0 <= j < index ==> Score(heuristic, toCheck[j]) < Score(heuristic, toCheck[index]))
  {
    var bestScore := 0;
    best := None;
    index := 0;
    for k := 0 to |toCheck|
      invariant best.None? ==> bestScore == 0 && forall i :: 0 <= i < k ==> Score(heuristic, toCheck[i]) <= 0
      invariant best.Some? ==>
        index < k && best.value == toCheck[index].1 && bestScore == Score(heuristic, toCheck[index]) > 0 &&
        (forall j :: 0 <= j < k ==> Score(heuristic, toCheck[j]) <= bestScore) &&
        (forall j :: 0 <= j < index ==> Score(heuristic, toCheck[j]) < bestScore)
    {
      var score := heuristic(toCheck[k].0);
      if bestScore < score {
        bestScore := score;
        best := Some(toCheck[k].1);
        index := k;
      }
    }
  }

  /** `explore_state_space`: the best-scoring legal move list of full length,
      or `None` when no candidate scores above 0. */
  method ExploreStateSpace<S, M>(start: S, listMoves: S -> seq<M>, apply: (S, M) -> Option<S>,
                                 heuristic: S -> int, depth: int)
    returns (best: Option<seq<M>>)
    ensures var candidates := ToCheck(listMoves, apply, depth, [(start, [])]);
      forall i :: 0 <= i < |candidates| ==>
        Candidate(listMoves, apply, start, depth, candidates[i].0, candidates[i].1)
    ensures var candidates := ToCheck(listMoves, apply, depth, [(start, [])]);
      best.None? <==> forall i :: 0 <= i < |candidates| ==> Score(heuristic, candidates[i]) <= 0
    ensures var candidates := ToCheck(listMoves, apply, depth, [(start, [])]);
      best.Some? ==>
        exists i :: 0 <= i < |candidates| && best.value == candidates[i].1 &&
          Score(heuristic, candidates[i]) > 0 &&
          (forall j :: 0 <= j < |candidates| ==> Score(heuristic, candidates[j]) <= Score(heuristic, candidates[i])) &&
          (forall j :: 0 <= j < i ==> Score(heuristic, candidates[j]) < Score(heuristic, candidates[i]))
  {
    var toCheck := CollectCandidates(start, listMoves, apply, depth);
    ghost var index;
    best, index := BestCandidate(toCheck, heuristic);
  }
}
