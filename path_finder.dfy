/**
 * KnightPathFinder.find_shortest_paths: a breadth-first search whose queue
 * entries carry their whole path. It returns every knight walk of the fewest
 * squares from `start` to `end`, each once, and nothing when `end` cannot be
 * reached.
 */
module PathFinder {
  import opened Wrappers
  import opened Board
  import opened Knight
  import opened SearchState

  /**
   * Every shortest knight walk from `start` to `end`, each exactly once. The
   * result is empty exactly when no walk reaches `end` (for one, when `end`
   * is off the board), and is `[[start]]` when the two squares are equal.
   */
  method FindShortestPaths(start: Square, end: Square) returns (shortestPaths: seq<Path>)
    ensures forall p :: p in shortestPaths <==> IsShortestWalk(p, start, end)
    ensures forall i, j :: 0 <= i < j < |shortestPaths| ==> shortestPaths[i] != shortestPaths[j]
    ensures forall p, q :: p in shortestPaths && q in shortestPaths ==> |p| == |q|
    ensures shortestPaths == [] <==> forall p :: !IsKnightWalk(p, start, end)
    ensures start == end ==> shortestPaths == [[start]]
  {
    var queue: seq<Entry> := [(start, [start])];
    shortestPaths := [];
    var visited: map<Square, nat> := map[];
    var minLength: Option<nat> := None;
    ghost var history: seq<Path> := [[start]];
    ghost var popped: nat := 0;
    ghost var origin: map<Square, nat> := map[];
    ghost var layer: nat := 1;
    ghost var pending: nat := CountLength(queue, layer);
    Init(start, end);
    while queue != []
      invariant SearchInv(start, end, queue, visited, shortestPaths, minLength, history, popped, origin, layer)
      invariant ParentsPopped(history, popped)
      invariant Closed(history, visited, popped, end, minLength)
      invariant pending == CountLength(queue, layer)
      decreases Size * Size + 1 - layer, pending
    {
      queue, visited, shortestPaths, minLength, history, popped, origin, layer, pending :=
        SearchStep(start, end, queue, visited, shortestPaths, minLength, history, popped, origin, layer, pending);
    }
    Finish(start, end, visited, shortestPaths, minLength, history, origin, layer);
  }

  /**
   * One turn of the main loop: pop the head of the queue; pass over it when
   * it is longer than `min_length`; take it as a result when it reaches
   * `end`; otherwise explore its moves. The loop invariant holds again, and
   * the termination measure has fallen.
   */
  method SearchStep(ghost start: Square, end: Square, queue: seq<Entry>, visited: map<Square, nat>,
                    shortestPaths: seq<Path>, minLength: Option<nat>,
                    ghost history: seq<Path>, ghost popped: nat, ghost origin: map<Square, nat>, ghost layer: nat, ghost pending: nat)
    returns (queue': seq<Entry>, visited': map<Square, nat>, shortestPaths': seq<Path>, minLength': Option<nat>,
             ghost history': seq<Path>, ghost popped': nat, ghost origin': map<Square, nat>, ghost layer': nat, ghost pending': nat)
    requires queue != []
    requires SearchInv(start, end, queue, visited, shortestPaths, minLength, history, popped, origin, layer)
    requires ParentsPopped(history, popped)
    requires Closed(history, visited, popped, end, minLength)
    requires pending == CountLength(queue, layer)
    ensures SearchInv(start, end, queue', visited', shortestPaths', minLength', history', popped', origin', layer')
    ensures ParentsPopped(history', popped')
    ensures Closed(history', visited', popped', end, minLength')
    ensures pending' == CountLength(queue', layer')
    ensures 0 <= Size * Size + 1 - layer'
    ensures Size * Size + 1 - layer' < Size * Size + 1 - layer || (layer' == layer && pending' < pending)
    ensures queue[0].1 != [] && queue[0].0 == Last(queue[0].1)
    // a path longer than `min_length` is dropped and nothing else changes
    ensures minLength.Some? && |queue[0].1| > minLength.value ==>
      queue' == queue[1..] && visited' == visited && shortestPaths' == shortestPaths && minLength' == minLength
    // an arrival within `min_length` resets the results or joins them
    ensures WithinMin(|queue[0].1|, minLength) && queue[0].0 == end ==>
      queue' == queue[1..] && visited' == visited &&
      if minLength.None? || |queue[0].1| < minLength.value then
        shortestPaths' == [queue[0].1] && minLength' == Some(|queue[0].1|)
      else
        shortestPaths' == shortestPaths + [queue[0].1] && minLength' == minLength
    // otherwise the path's moves are explored
    ensures WithinMin(|queue[0].1|, minLength) && queue[0].0 != end ==>
      shortestPaths' == shortestPaths && minLength' == minLength &&
      Children(queue[1..], queue', queue[0].1) && Extends(visited, visited') &&
      MovesTaken(queue[0].1, visited, queue', visited')
  {
    var current, path := queue[0].0, queue[0].1;
    Pop(start, end, queue, visited, shortestPaths, minLength, history, popped, origin, layer);
    queue', visited', shortestPaths', minLength' := queue[1..], visited, shortestPaths, minLength;
    history', popped', origin', layer' := history, popped + 1, origin, |path|;
    if minLength.Some? && |path| > minLength.value {
      // longer than the shortest paths already found
      Skip(start, end, queue', visited, shortestPaths, minLength, history, popped', origin, layer', path);
      pending' := MeasureFalls(queue, layer, pending, queue', layer');
    } else if current == end {
      if minLength.None? || |path| < minLength.value {
        shortestPaths' := [path];
        minLength' := Some(|path|);
      } else if |path| == minLength.value {
        shortestPaths' := shortestPaths + [path];
      }
      Arrive(start, end, queue', visited, shortestPaths, minLength, shortestPaths', minLength', history, popped', origin, layer', path);
      pending' := MeasureFalls(queue, layer, pending, queue', layer');
    } else {
      BeginExplore(start, end, queue', visited, shortestPaths, minLength, history, popped', origin, layer', path);
      queue', visited', history', origin' :=
        ExploreNeighbours(start, end, current, path, queue', visited, shortestPaths, minLength, history, popped', origin, layer');
      pending' := MeasureFalls(queue, layer, pending, queue', layer');
    }
  }

  /**
   * One turn of the main loop lowers the measure `(Size * Size + 1 - layer,
   * CountLength(queue, layer))`: the layer grows, or it stays and the path
   * just popped is one fewer of that length in the queue.
   */
  lemma MeasureFalls(oldQueue: seq<Entry>, oldLayer: nat, oldPending: nat, queue: seq<Entry>, layer: nat) returns (pending: nat)
    requires oldQueue != [] && layer == |oldQueue[0].1| && oldLayer <= layer <= Size * Size + 1
    requires oldPending == CountLength(oldQueue, oldLayer)
    requires CountLength(queue, layer) == CountLength(oldQueue[1..], layer)
    ensures pending == CountLength(queue, layer)
    ensures 0 <= Size * Size + 1 - layer
    ensures Size * Size + 1 - layer < Size * Size + 1 - oldLayer || (layer == oldLayer && pending < oldPending)
  {
    pending := CountLength(queue, layer);
  }

  /**
   * The loop over the eight moves: each on-board target whose recorded best
   * length is not below the extended path's length gets that length, and the
   * extended path is queued. The queue only grows, by one-move extensions of
   * `path`.
   */
  method ExploreNeighbours(ghost start: Square, end: Square, current: Square, path: Path,
                           queue: seq<Entry>, visited: map<Square, nat>,
                           ghost paths: seq<Path>, ghost minLength: Option<nat>,
                           ghost history: seq<Path>, ghost popped: nat, ghost origin: map<Square, nat>, ghost layer: nat)
    returns (queue': seq<Entry>, visited': map<Square, nat>, ghost history': seq<Path>, ghost origin': map<Square, nat>)
    requires Exploring(start, end, path, queue, visited, history, paths, minLength, popped, origin, layer)
    requires current == Last(path)
    ensures SearchInv(start, end, queue', visited', paths, minLength, history', popped, origin', layer)
    ensures ParentsPopped(history', popped)
    ensures Closed(history', visited', popped, end, minLength)
    ensures CountLength(queue', layer) == CountLength(queue, layer)
    ensures Children(queue, queue', path)
    ensures Extends(visited, visited')
    ensures |history| <= |history'| && history'[..|history|] == history && history'[popped - 1] == path
    ensures MovesTaken(path, visited, queue', visited')
  {
    queue', visited', history', origin' := queue, visited, history, origin;
    ExploreStart(start, end, path, queue, visited, history, paths, minLength, popped, origin, layer);
    for k := 0 to |KnightMoves|
      invariant MoveLoop(start, end, path, queue, visited, history, paths, minLength, popped, layer,
                         k, queue', visited', history', origin')
      invariant Admitted(path, queue, visited, k, queue', visited')
    {
      queue', visited', history', origin' :=
        ExploreMove(start, end, current, path, queue, visited, paths, minLength, history, popped, origin, layer,
                    k, queue', visited', history', origin');
    }
    ExploreEnd(start, end, path, queue, visited, history, paths, minLength, popped, origin, layer,
               queue', visited', history', origin');
    NoChildQueued(path, queue, history, popped);
    AdmittedAll(path, queue, visited, queue', visited');
  }

  /**
   * One pass of the loop over the moves: when the target of move `k` is on
   * the board and no shorter path to it has been recorded, its length is
   * recorded and the extended path is queued; otherwise nothing changes.
   */
  method ExploreMove(ghost start: Square, end: Square, current: Square, path: Path,
                     ghost queue0: seq<Entry>, ghost visited0: map<Square, nat>,
                     ghost paths: seq<Path>, ghost minLength: Option<nat>,
                     ghost history0: seq<Path>, ghost popped: nat, ghost origin0: map<Square, nat>, ghost layer: nat,
                     k: nat, queue: seq<Entry>, visited: map<Square, nat>, ghost history: seq<Path>, ghost origin: map<Square, nat>)
    returns (queue': seq<Entry>, visited': map<Square, nat>, ghost history': seq<Path>, ghost origin': map<Square, nat>)
    requires Exploring(start, end, path, queue0, visited0, history0, paths, minLength, popped, origin0, layer)
    requires current == Last(path) && k < |KnightMoves|
    requires MoveLoop(start, end, path, queue0, visited0, history0, paths, minLength, popped, layer, k, queue, visited, history, origin)
    requires Admitted(path, queue0, visited0, k, queue, visited)
    ensures MoveLoop(start, end, path, queue0, visited0, history0, paths, minLength, popped, layer, k + 1, queue', visited', history', origin')
    ensures Admitted(path, queue0, visited0, k + 1, queue', visited')
    ensures var v := Add(current, KnightMoves[k]);
      if Admits(visited, |path|, v) then queue' == queue + [(v, path + [v])] && visited' == visited[v := |path| + 1]
      else queue' == queue && visited' == visited
  {
    queue', visited', history', origin' := queue, visited, history, origin;
    var move := KnightMoves[k];
    var newPos := Add(current, move);
    if IsValid(newPos.0, newPos.1) {
      // only a path no longer than the best recorded for `newPos` is queued
      if newPos !in visited || |path| + 1 <= visited[newPos] {
        Enqueued(start, end, path, queue0, visited0, history0, paths, minLength, popped, origin0, layer,
                 k, queue, visited, history, origin, newPos);
        AdmittedTake(path, queue0, visited0, k, queue, visited, newPos);
        visited' := visited[newPos := |path| + 1];
        queue' := queue + [(newPos, path + [newPos])];
        origin' := origin[newPos := |history|];
        history' := history + [path + [newPos]];
      } else {
        PassedOver(start, end, path, queue0, visited0, history0, paths, minLength, popped, layer,
                   k, queue, visited, history, origin, newPos);
        AdmittedSkip(path, queue0, visited0, k, queue, visited, newPos);
      }
    } else {
      PassedOver(start, end, path, queue0, visited0, history0, paths, minLength, popped, layer,
                 k, queue, visited, history, origin, newPos);
      AdmittedSkip(path, queue0, visited0, k, queue, visited, newPos);
    }
  }

  /**
   * The test a move must pass to be queued: its target is on the board, and
   * no shorter path to it has been recorded.
   */
  predicate Admits(visited: map<Square, nat>, len: nat, v: Square) {
    IsValid(v.0, v.1) && (v !in visited || len + 1 <= visited[v])
  }

  /**
   * What the loop over the moves from the end of `path` has done, judged
   * against `visited`, the table before the loop: for each move, the
   * extension to its target is queued exactly when the target passes the
   * test, and then the target's recorded length is the extension's length;
   * `visited'` has no new key other than such a target.
   */
  ghost predicate MovesTaken(path: Path, visited: map<Square, nat>, queue': seq<Entry>, visited': map<Square, nat>)
    requires path != []
  {
    && (forall j :: 0 <= j < |KnightMoves| ==>
          var v := Add(Last(path), KnightMoves[j]);
          ((v, path + [v]) in queue' <==> Admits(visited, |path|, v)) &&
          (Admits(visited, |path|, v) ==> v in visited' && visited'[v] == |path| + 1))
    && (forall w :: w in visited' && w !in visited ==> (w, path + [w]) in queue')
  }

  /**
   * What the first `k` moves from the end of `path` have done, move by move,
   * judged against `visited0`, the table before the loop over the moves:
   * every appended entry passed the test; the target of each of the first `k`
   * moves that passes it is queued and recorded with the extended path's
   * length; and every key `visited` gained is such a target.
   */
  ghost predicate Admitted(path: Path, queue0: seq<Entry>, visited0: map<Square, nat>,
                           k: nat, queue: seq<Entry>, visited: map<Square, nat>)
  {
    && path != [] && k <= |KnightMoves| && |queue0| <= |queue|
    && QueuedPass(path, queue0, visited0, queue)
    && MovesRecorded(path, queue0, visited0, k, queue, visited)
    && KeysFromMoves(path, queue0, visited0, k, queue, visited)
  }

  /** Every entry appended after `queue0` passed the test against `visited0`. */
  ghost predicate QueuedPass(path: Path, queue0: seq<Entry>, visited0: map<Square, nat>, queue: seq<Entry>) {
    forall i :: |queue0| <= i < |queue| ==> Admits(visited0, |path|, queue[i].0)
  }

  /** The target of each of the first `k` moves that passes the test is queued and recorded with the extended length. */
  ghost predicate MovesRecorded(path: Path, queue0: seq<Entry>, visited0: map<Square, nat>,
                                k: nat, queue: seq<Entry>, visited: map<Square, nat>)
    requires path != [] && k <= |KnightMoves| && |queue0| <= |queue|
  {
    forall j :: 0 <= j < k ==>
      var v := Add(Last(path), KnightMoves[j]);
      Admits(visited0, |path|, v) ==> (v, path + [v]) in queue[|queue0|..] && v in visited && visited[v] == |path| + 1
  }

  /** Every key `visited` gained over `visited0` is the target of one of the first `k` moves, and its extension is queued. */
  ghost predicate KeysFromMoves(path: Path, queue0: seq<Entry>, visited0: map<Square, nat>,
                                k: nat, queue: seq<Entry>, visited: map<Square, nat>)
    requires path != [] && k <= |KnightMoves| && |queue0| <= |queue|
  {
    forall w :: w in visited && w !in visited0 ==>
      OffsetBetween(Last(path), w) in KnightMoves[..k] && (w, path + [w]) in queue[|queue0|..]
  }

  /**
   * Move `k` passes the test against the table as the loop has updated it
   * exactly when it passes against the table before the loop: the earlier
   * moves only touched their own targets, and the moves are distinct.
   */
  lemma SameVerdict(path: Path, queue0: seq<Entry>, visited0: map<Square, nat>,
                    k: nat, queue: seq<Entry>, visited: map<Square, nat>, v: Square)
    requires Admitted(path, queue0, visited0, k, queue, visited) && Extends(visited0, visited)
    requires k < |KnightMoves| && v == Add(Last(path), KnightMoves[k])
    ensures Admits(visited, |path|, v) <==> Admits(visited0, |path|, v)
  {
    KnightMovesDistinct();
    assert OffsetBetween(Last(path), v) == KnightMoves[k];
    assert KnightMoves[k] !in KnightMoves[..k];
  }

  /** Queuing the target of move `k` keeps `Admitted`. */
  lemma AdmittedTake(path: Path, queue0: seq<Entry>, visited0: map<Square, nat>,
                     k: nat, queue: seq<Entry>, visited: map<Square, nat>, v: Square)
    requires Admitted(path, queue0, visited0, k, queue, visited) && Extends(visited0, visited)
    requires k < |KnightMoves| && v == Add(Last(path), KnightMoves[k])
    requires Admits(visited, |path|, v)
    ensures Admitted(path, queue0, visited0, k + 1, queue + [(v, path + [v])], visited[v := |path| + 1])
  {
    SameVerdict(path, queue0, visited0, k, queue, visited, v);
    TakeMoves(path, queue0, visited0, k, queue, visited, v);
    TakeKeys(path, queue0, visited0, k, queue, visited, v);
  }

  /** The first `k + 1` moves are recorded once the target of move `k` is queued and recorded. */
  lemma TakeMoves(path: Path, queue0: seq<Entry>, visited0: map<Square, nat>,
                  k: nat, queue: seq<Entry>, visited: map<Square, nat>, v: Square)
    requires path != [] && k < |KnightMoves| && |queue0| <= |queue|
    requires MovesRecorded(path, queue0, visited0, k, queue, visited)
    requires v == Add(Last(path), KnightMoves[k])
    ensures MovesRecorded(path, queue0, visited0, k + 1, queue + [(v, path + [v])], visited[v := |path| + 1])
  {
    var queue' := queue + [(v, path + [v])];
    assert queue'[|queue0|..] == queue[|queue0|..] + [(v, path + [v])];
    KnightMovesDistinct();
    forall j | 0 <= j < k
      ensures Add(Last(path), KnightMoves[j]) != v
    {
      assert OffsetBetween(Last(path), Add(Last(path), KnightMoves[j])) == KnightMoves[j] != KnightMoves[k];
    }
  }

  /** The only key recording the target of move `k` adds is that target, whose extension is queued. */
  lemma TakeKeys(path: Path, queue0: seq<Entry>, visited0: map<Square, nat>,
                 k: nat, queue: seq<Entry>, visited: map<Square, nat>, v: Square)
    requires path != [] && k < |KnightMoves| && |queue0| <= |queue|
    requires KeysFromMoves(path, queue0, visited0, k, queue, visited)
    requires v == Add(Last(path), KnightMoves[k])
    ensures KeysFromMoves(path, queue0, visited0, k + 1, queue + [(v, path + [v])], visited[v := |path| + 1])
  {
    var queue' := queue + [(v, path + [v])];
    assert queue'[|queue0|..] == queue[|queue0|..] + [(v, path + [v])];
    assert KnightMoves[..k + 1] == KnightMoves[..k] + [KnightMoves[k]];
    assert OffsetBetween(Last(path), v) == KnightMoves[k];
  }

  /** Passing over move `k` keeps `Admitted`. */
  lemma AdmittedSkip(path: Path, queue0: seq<Entry>, visited0: map<Square, nat>,
                     k: nat, queue: seq<Entry>, visited: map<Square, nat>, v: Square)
    requires Admitted(path, queue0, visited0, k, queue, visited) && Extends(visited0, visited)
    requires k < |KnightMoves| && v == Add(Last(path), KnightMoves[k])
    requires !Admits(visited, |path|, v)
    ensures Admitted(path, queue0, visited0, k + 1, queue, visited)
  {
    SameVerdict(path, queue0, visited0, k, queue, visited, v);
    assert KnightMoves[..k + 1] == KnightMoves[..k] + [KnightMoves[k]];
  }

  /** No path queued before the loop over the moves extends `path`, the path just popped. */
  lemma NoChildQueued(path: Path, queue: seq<Entry>, history: seq<Path>, popped: nat)
    requires 1 <= popped && QueueMatches(queue, history, popped) && ParentsPopped(history, popped - 1)
    requires path == history[popped - 1] && path != []
    ensures forall i, v :: 0 <= i < |queue| ==> queue[i].1 != path + [v]
  {
    forall i, v | 0 <= i < |queue|
      ensures queue[i].1 != path + [v]
    {
      assert DropLast(path + [v]) == path;
      assert queue[i].1 == history[popped + i];
      assert |history[popped + i]| >= 2 ==> DropLast(history[popped + i]) != history[popped - 1];
    }
  }

  /**
   * After all eight moves: the target of a move is queued exactly when it
   * passes the test against the table before the loop, it then has the
   * extended path's length, and no other square gains a key.
   */
  lemma AdmittedAll(path: Path, queue0: seq<Entry>, visited0: map<Square, nat>, queue: seq<Entry>, visited: map<Square, nat>)
    requires Admitted(path, queue0, visited0, |KnightMoves|, queue, visited)
    requires queue[..|queue0|] == queue0
    requires forall i, v :: 0 <= i < |queue0| ==> queue0[i].1 != path + [v]
    ensures MovesTaken(path, visited0, queue, visited)
  {
    forall j | 0 <= j < |KnightMoves|
      ensures var v := Add(Last(path), KnightMoves[j]);
        (v, path + [v]) in queue ==> Admits(visited0, |path|, v)
    {
      var v := Add(Last(path), KnightMoves[j]);
      if (v, path + [v]) in queue {
        var i :| 0 <= i < |queue| && queue[i] == (v, path + [v]);
        assert forall m :: 0 <= m < |queue0| ==> queue[m] == queue0[m];
        assert |queue0| <= i;
      }
    }
  }

  /** `queue'` is `queue` followed by one-move extensions of `path`, each to an on-board square. */
  ghost predicate Children(queue: seq<Entry>, queue': seq<Entry>, path: Path)
    requires path != []
  {
    |queue| <= |queue'| && queue'[..|queue|] == queue &&
    forall i :: |queue| <= i < |queue'| ==> queue'[i].1 == path + [queue'[i].0] && IsMove(Last(path), queue'[i].0)
  }

  /** The search state before a loop iteration: the invariant of the main loop. */
  lemma Init(start: Square, end: Square)
    ensures SearchInv(start, end, [(start, [start])], map[], [], None, [[start]], 0, map[], 1)
    ensures ParentsPopped([[start]], 0) && Closed([[start]], map[], 0, end, None)
  {
    assert [[start]][..0] == [];
  }

  /**
   * The state just after the head of the queue, the `popped`-th path of the
   * history, has been taken off: everything of the search invariant except
   * that the result list and the closure only account for the paths before it.
   */
  ghost predicate Popped(start: Square, end: Square, queue: seq<Entry>, visited: map<Square, nat>,
                         paths: seq<Path>, minLength: Option<nat>,
                         history: seq<Path>, popped: nat, origin: map<Square, nat>, layer: nat, path: Path)
  {
    && 1 <= popped <= |history|
    && QueueMatches(queue, history, popped)
    && HistoryWalks(history, start)
    && Distinct(history)
    && Layered(history, popped, layer)
    && VisitedTracks(visited, origin, history)
    && LengthBounded(visited, history, layer)
    && ResultsTrack(paths, minLength, history, popped - 1, end)
    && ParentsPopped(history, popped - 1)
    && Closed(history, visited, popped - 1, end, minLength)
    && history[popped - 1] == path && path != [] && |path| == layer
  }

  /** Taking the head of the queue: it is the next path of the history, at most one layer on. */
  lemma Pop(start: Square, end: Square, queue: seq<Entry>, visited: map<Square, nat>,
            paths: seq<Path>, minLength: Option<nat>,
            history: seq<Path>, popped: nat, origin: map<Square, nat>, layer: nat)
    requires SearchInv(start, end, queue, visited, paths, minLength, history, popped, origin, layer)
    requires ParentsPopped(history, popped) && Closed(history, visited, popped, end, minLength)
    requires queue != []
    ensures popped < |history| && queue[0].1 == history[popped] && queue[0].1 != [] && queue[0].0 == Last(queue[0].1)
    ensures layer <= |queue[0].1| <= Size * Size + 1
    ensures Popped(start, end, queue[1..], visited, paths, minLength, history, popped + 1, origin, |queue[0].1|, queue[0].1)
  {
    PopHead(start, end, queue, visited, paths, minLength, history, popped, origin, layer);
    PopQueue(queue, history, popped);
    PopLayered(start, end, queue, visited, paths, minLength, history, popped, origin, layer);
    PopBounded(start, end, queue, visited, paths, minLength, history, popped, origin, layer);
  }

  lemma PopHead(start: Square, end: Square, queue: seq<Entry>, visited: map<Square, nat>,
                paths: seq<Path>, minLength: Option<nat>,
                history: seq<Path>, popped: nat, origin: map<Square, nat>, layer: nat)
    requires SearchInv(start, end, queue, visited, paths, minLength, history, popped, origin, layer)
    requires queue != []
    ensures popped < |history| && queue[0].1 == history[popped] && queue[0].1 != [] && queue[0].0 == Last(queue[0].1)
    ensures layer <= |queue[0].1| <= Size * Size + 1
  {
  }

  lemma PopQueue(queue: seq<Entry>, history: seq<Path>, popped: nat)
    requires QueueMatches(queue, history, popped) && queue != []
    ensures QueueMatches(queue[1..], history, popped + 1)
  {
    forall i | 0 <= i < |queue[1..]|
      ensures queue[1..][i] == queue[i + 1]
    {
    }
  }

  lemma PopLayered(start: Square, end: Square, queue: seq<Entry>, visited: map<Square, nat>,
                   paths: seq<Path>, minLength: Option<nat>,
                   history: seq<Path>, popped: nat, origin: map<Square, nat>, layer: nat)
    requires SearchInv(start, end, queue, visited, paths, minLength, history, popped, origin, layer)
    requires queue != []
    ensures Layered(history, popped + 1, |queue[0].1|)
  {
  }

  lemma PopBounded(start: Square, end: Square, queue: seq<Entry>, visited: map<Square, nat>,
                   paths: seq<Path>, minLength: Option<nat>,
                   history: seq<Path>, popped: nat, origin: map<Square, nat>, layer: nat)
    requires SearchInv(start, end, queue, visited, paths, minLength, history, popped, origin, layer)
    requires queue != []
    ensures LengthBounded(visited, history, |queue[0].1|)
  {
  }

  /** The results do not change when the path just popped does not reach `end` within the shortest length. */
  lemma PassOver(paths: seq<Path>, minLength: Option<nat>, history: seq<Path>, popped: nat, end: Square)
    requires 1 <= popped <= |history| && ResultsTrack(paths, minLength, history, popped - 1, end)
    requires var p := history[popped - 1];
      p == [] || Last(p) != end || (minLength.Some? && |p| > minLength.value)
    ensures ResultsTrack(paths, minLength, history, popped, end)
  {
    assert history[..popped][..popped - 1] == history[..popped - 1];
  }

  /** Skipping a path longer than the shortest found so far keeps the invariant. */
  lemma Skip(start: Square, end: Square, queue: seq<Entry>, visited: map<Square, nat>,
             paths: seq<Path>, minLength: Option<nat>,
             history: seq<Path>, popped: nat, origin: map<Square, nat>, layer: nat, path: Path)
    requires Popped(start, end, queue, visited, paths, minLength, history, popped, origin, layer, path)
    requires minLength.Some? && |path| > minLength.value
    ensures SearchInv(start, end, queue, visited, paths, minLength, history, popped, origin, layer)
    ensures ParentsPopped(history, popped) && Closed(history, visited, popped, end, minLength)
  {
    PassOver(paths, minLength, history, popped, end);
    ParentsShrink(history, popped);
    ClosedPast(history, visited, popped, end, minLength);
  }

  lemma ParentsShrink(history: seq<Path>, popped: nat)
    requires 1 <= popped <= |history| && ParentsPopped(history, popped - 1)
    ensures ParentsPopped(history, popped)
  {
  }

  /** A popped path the loop does not explore needs no closing. */
  lemma ClosedPast(history: seq<Path>, visited: map<Square, nat>, popped: nat, end: Square, minLength: Option<nat>)
    requires 1 <= popped <= |history| && Closed(history, visited, popped - 1, end, minLength)
    requires var p := history[popped - 1]; p == [] || Last(p) == end || !WithinMin(|p|, minLength)
    ensures Closed(history, visited, popped, end, minLength)
  {
  }

  /** A path that reaches `end` within the shortest length found so far restarts or extends the results. */
  lemma ArriveResults(paths: seq<Path>, minLength: Option<nat>, paths': seq<Path>, minLength': Option<nat>,
                      history: seq<Path>, popped: nat, end: Square)
    requires 1 <= popped <= |history| && ResultsTrack(paths, minLength, history, popped - 1, end)
    requires history[popped - 1] != [] && Last(history[popped - 1]) == end && WithinMin(|history[popped - 1]|, minLength)
    requires var p := history[popped - 1];
      if minLength.None? || |p| < minLength.value then paths' == [p] && minLength' == Some(|p|)
      else paths' == paths + [p] && minLength' == minLength
    ensures ResultsTrack(paths', minLength', history, popped, end)
  {
    var p := history[popped - 1];
    var before := history[..popped - 1];
    assert history[..popped][..popped - 1] == before;
    if minLength.None? || |p| < minLength.value {
      ArrivalsNone(before, end, |p|);
    }
    assert Arrivals(history[..popped], end, minLength'.value) == Arrivals(before, end, minLength'.value) + [p];
  }

  /** Taking a path that reaches `end` and is not longer than the shortest so far keeps the invariant. */
  lemma Arrive(start: Square, end: Square, queue: seq<Entry>, visited: map<Square, nat>,
               paths: seq<Path>, minLength: Option<nat>, paths': seq<Path>, minLength': Option<nat>,
               history: seq<Path>, popped: nat, origin: map<Square, nat>, layer: nat, path: Path)
    requires Popped(start, end, queue, visited, paths, minLength, history, popped, origin, layer, path)
    requires Last(path) == end && WithinMin(|path|, minLength)
    requires if minLength.None? || |path| < minLength.value then paths' == [path] && minLength' == Some(|path|)
      else paths' == paths + [path] && minLength' == minLength
    ensures SearchInv(start, end, queue, visited, paths', minLength', history, popped, origin, layer)
    ensures ParentsPopped(history, popped) && Closed(history, visited, popped, end, minLength')
  {
    ArriveResults(paths, minLength, paths', minLength', history, popped, end);
    ParentsShrink(history, popped);
    ClosedNarrows(history, visited, popped, end, minLength, minLength');
  }

  /** Lowering `min_length` and popping a path that reaches `end` keeps the closure. */
  lemma ClosedNarrows(history: seq<Path>, visited: map<Square, nat>, popped: nat, end: Square,
                      minLength: Option<nat>, minLength': Option<nat>)
    requires 1 <= popped <= |history| && Closed(history, visited, popped - 1, end, minLength)
    requires history[popped - 1] != [] && Last(history[popped - 1]) == end
    requires minLength'.Some? && (minLength.Some? ==> minLength'.value <= minLength.value)
    ensures Closed(history, visited, popped, end, minLength')
  {
  }

  /** The facts about the path being explored (the last one popped) that the loop over the moves relies on. */
  ghost predicate Exploring(start: Square, end: Square, path: Path, queue0: seq<Entry>, visited0: map<Square, nat>, history0: seq<Path>,
                            paths: seq<Path>, minLength: Option<nat>, popped: nat, origin0: map<Square, nat>, layer: nat)
  {
    && 1 <= popped <= |history0|
    && SearchInv(start, end, queue0, visited0, paths, minLength, history0, popped, origin0, layer)
    && ParentsPopped(history0, popped - 1)
    && Closed(history0, visited0, popped - 1, end, minLength)
    && path == history0[popped - 1] && path != [] && Last(path) != end
    && |path| == layer && WithinMin(|path|, minLength)
  }

  /** The path popped does not reach `end` and is within the shortest length: it is explored. */
  lemma BeginExplore(start: Square, end: Square, queue: seq<Entry>, visited: map<Square, nat>,
                     paths: seq<Path>, minLength: Option<nat>,
                     history: seq<Path>, popped: nat, origin: map<Square, nat>, layer: nat, path: Path)
    requires Popped(start, end, queue, visited, paths, minLength, history, popped, origin, layer, path)
    requires Last(path) != end && WithinMin(|path|, minLength)
    ensures Exploring(start, end, path, queue, visited, history, paths, minLength, popped, origin, layer)
  {
    PassOver(paths, minLength, history, popped, end);
  }

  /** The history grows only by one-move extensions of `path`, by the first `k` moves. */
  ghost predicate NewEntries(history0: seq<Path>, history: seq<Path>, path: Path, k: nat)
    requires path != [] && k <= |KnightMoves|
  {
    |history0| <= |history| && history[..|history0|] == history0 &&
    forall j :: |history0| <= j < |history| ==>
      |history[j]| == |path| + 1 && DropLast(history[j]) == path &&
      OffsetBetween(Last(path), Last(history[j])) in KnightMoves[..k]
  }

  /** The first `k` moves from the end of `path` have been dealt with. */
  ghost predicate MovesClosed(history: seq<Path>, visited: map<Square, nat>, path: Path, k: nat)
    requires path != [] && k <= |KnightMoves|
  {
    forall j :: 0 <= j < k ==> StepClosed(history, visited, path, j)
  }

  /** What the loop over the moves keeps beside the search invariant. */
  ghost predicate ExploreFrame(end: Square, path: Path, queue0: seq<Entry>, visited0: map<Square, nat>, history0: seq<Path>,
                               minLength: Option<nat>, popped: nat, layer: nat,
                               k: nat, queue: seq<Entry>, visited: map<Square, nat>, history: seq<Path>)
  {
    && path != [] && 1 <= popped <= |history| && k <= |KnightMoves|
    && history[popped - 1] == path
    && NewEntries(history0, history, path, k)
    && Extends(visited0, visited)
    && Closed(history, visited, popped - 1, end, minLength)
    && MovesClosed(history, visited, path, k)
    && CountLength(queue, layer) == CountLength(queue0, layer)
    && Children(queue0, queue, path)
  }

  /** The invariant of the loop over the moves: the search invariant and the frame. */
  ghost predicate MoveLoop(start: Square, end: Square, path: Path, queue0: seq<Entry>, visited0: map<Square, nat>, history0: seq<Path>,
                           paths: seq<Path>, minLength: Option<nat>, popped: nat, layer: nat,
                           k: nat, queue: seq<Entry>, visited: map<Square, nat>, history: seq<Path>, origin: map<Square, nat>)
  {
    && path != [] && k <= |KnightMoves|
    && SearchInv(start, end, queue, visited, paths, minLength, history, popped, origin, layer)
    && ExploreFrame(end, path, queue0, visited0, history0, minLength, popped, layer, k, queue, visited, history)
  }

  /** Before the first move nothing has been queued. */
  lemma ExploreStart(start: Square, end: Square, path: Path, queue0: seq<Entry>, visited0: map<Square, nat>, history0: seq<Path>,
                     paths: seq<Path>, minLength: Option<nat>, popped: nat, origin0: map<Square, nat>, layer: nat)
    requires Exploring(start, end, path, queue0, visited0, history0, paths, minLength, popped, origin0, layer)
    ensures MoveLoop(start, end, path, queue0, visited0, history0, paths, minLength, popped, layer, 0, queue0, visited0, history0, origin0)
  {
    assert history0[..|history0|] == history0;
    assert queue0[..|queue0|] == queue0;
  }

  /** The extension of `path` by move `k` has not been queued yet. */
  lemma FreshChild(history0: seq<Path>, history: seq<Path>, popped: nat, path: Path, k: nat, v: Square)
    requires k < |KnightMoves| && path != [] && v == Add(Last(path), KnightMoves[k])
    requires 1 <= popped <= |history0| && ParentsPopped(history0, popped - 1)
    requires path == history0[popped - 1]
    requires NewEntries(history0, history, path, k)
    ensures forall j :: 0 <= j < |history| ==> history[j] != path + [v]
  {
    var child := path + [v];
    assert DropLast(child) == path;
    KnightMovesDistinct();
    assert KnightMoves[k] !in KnightMoves[..k];
    assert OffsetBetween(Last(path), Last(child)) == KnightMoves[k];
    forall j | 0 <= j < |history|
      ensures history[j] != child
    {
      if j < |history0| {
        assert history[j] == history0[j];
      } else {
        assert OffsetBetween(Last(path), Last(history[j])) in KnightMoves[..k];
      }
    }
  }

  /** The path being explored is still at its place in the grown history, and move `k` is a knight move from it. */
  lemma PathStays(start: Square, history0: seq<Path>, history: seq<Path>, popped: nat, path: Path, k: nat, v: Square)
    requires k < |KnightMoves| && path != [] && v == Add(Last(path), KnightMoves[k]) && IsValid(v.0, v.1)
    requires 1 <= popped <= |history0| && path == history0[popped - 1] && HistoryWalks(history0, start)
    requires NewEntries(history0, history, path, k)
    ensures popped <= |history| && history[popped - 1] == path
    ensures IsWalkFrom(path, start) && IsMove(Last(path), v)
  {
    assert history[popped - 1] == history[..|history0|][popped - 1];
    assert OffsetBetween(Last(path), v) == KnightMoves[k];
  }

  /** Queuing the extension of `path` by move `k` keeps the search invariant. */
  lemma EnqueueStep(start: Square, end: Square, path: Path, queue0: seq<Entry>, visited0: map<Square, nat>, history0: seq<Path>,
                    paths: seq<Path>, minLength: Option<nat>, popped: nat, origin0: map<Square, nat>, layer: nat,
                    k: nat, queue: seq<Entry>, visited: map<Square, nat>, history: seq<Path>, origin: map<Square, nat>, v: Square)
    requires Exploring(start, end, path, queue0, visited0, history0, paths, minLength, popped, origin0, layer)
    requires SearchInv(start, end, queue, visited, paths, minLength, history, popped, origin, layer)
    requires ExploreFrame(end, path, queue0, visited0, history0, minLength, popped, layer, k, queue, visited, history)
    requires k < |KnightMoves| && v == Add(Last(path), KnightMoves[k])
    requires Admits(visited, |path|, v)
    ensures v in visited ==> visited[v] == |path| + 1
    ensures SearchInv(start, end, queue + [(v, path + [v])], visited[v := |path| + 1], paths, minLength,
                      history + [path + [v]], popped, origin[v := |history|], layer)
  {
    FreshChild(history0, history, popped, path, k, v);
    PathStays(start, history0, history, popped, path, k, v);
    EnqueueLength(visited, origin, history, popped, layer, path, v);
    EnqueueQueue(queue, history, popped, path, v);
    EnqueueWalks(history, start, path, v);
    EnqueueDistinct(history, path + [v]);
    EnqueueLayered(history, popped, layer, path + [v]);
    EnqueueVisited(visited, origin, history, path, v);
    EnqueueBounded(visited, origin, history, layer, path, v);
    EnqueueResults(paths, minLength, history, popped, end, path + [v]);
  }

  /** A square already reached is recorded with the length of the path being extended, plus one. */
  lemma EnqueueLength(visited: map<Square, nat>, origin: map<Square, nat>, history: seq<Path>, popped: nat, layer: nat,
                      path: Path, v: Square)
    requires Layered(history, popped, layer) && popped <= |history| && VisitedTracks(visited, origin, history)
    requires |path| == layer && (v !in visited || |path| + 1 <= visited[v])
    ensures v in visited ==> visited[v] == |path| + 1
  {
    if v in visited {
      var o := origin[v];
      if o >= popped {
        assert layer <= |history[o]| <= layer + 1;
      }
    }
  }

  lemma EnqueueQueue(queue: seq<Entry>, history: seq<Path>, popped: nat, path: Path, v: Square)
    requires QueueMatches(queue, history, popped)
    ensures QueueMatches(queue + [(v, path + [v])], history + [path + [v]], popped)
  {
    var queue', history' := queue + [(v, path + [v])], history + [path + [v]];
    forall i | 0 <= i < |queue'|
      ensures queue'[i].1 == history'[popped + i] && |queue'[i].1| > 0 && queue'[i].0 == Last(queue'[i].1)
    {
      if i < |queue| {
        assert queue'[i] == queue[i] && history'[popped + i] == history[popped + i];
      }
    }
  }

  lemma EnqueueWalks(history: seq<Path>, start: Square, path: Path, v: Square)
    requires HistoryWalks(history, start) && IsWalkFrom(path, start) && IsMove(Last(path), v)
    ensures HistoryWalks(history + [path + [v]], start)
  {
    var child := path + [v];
    forall i | 0 < i < |child|
      ensures IsMove(child[i - 1], child[i])
    {
      if i < |path| {
        assert child[i - 1] == path[i - 1] && child[i] == path[i];
      }
    }
    var history' := history + [child];
    forall i | 0 <= i < |history'|
      ensures IsWalkFrom(history'[i], start)
    {
      if i < |history| {
        assert history'[i] == history[i];
      }
    }
  }

  lemma EnqueueDistinct(history: seq<Path>, child: Path)
    requires Distinct(history)
    requires forall j :: 0 <= j < |history| ==> history[j] != child
    ensures Distinct(history + [child])
  {
    var history' := history + [child];
    forall i, j | 0 <= i < j < |history'|
      ensures history'[i] != history'[j]
    {
      assert history'[i] == history[i];
    }
  }

  lemma EnqueueLayered(history: seq<Path>, popped: nat, layer: nat, child: Path)
    requires Layered(history, popped, layer) && popped <= |history| && |child| == layer + 1
    ensures Layered(history + [child], popped, layer)
  {
    var history' := history + [child];
    forall i | 0 <= i < |history|
      ensures |history[i]| <= layer + 1
    {
      if i >= popped {
        assert layer <= |history[i]| <= layer + 1;
      }
    }
    forall i, j | 0 <= i < j < |history'|
      ensures |history'[i]| <= |history'[j]|
    {
      assert history'[i] == history[i];
    }
  }

  lemma EnqueueVisited(visited: map<Square, nat>, origin: map<Square, nat>, history: seq<Path>, path: Path, v: Square)
    requires VisitedTracks(visited, origin, history)
    requires path != [] && IsValid(v.0, v.1)
    requires v in visited ==> visited[v] == |path| + 1
    ensures VisitedTracks(visited[v := |path| + 1], origin[v := |history|], history + [path + [v]])
  {
    var child := path + [v];
    var visited', origin', history' := visited[v := |child|], origin[v := |history|], history + [child];
    forall u | u in visited'
      ensures IsValid(u.0, u.1) && u in origin' && origin'[u] < |history'| &&
        |history'[origin'[u]]| >= 2 && Last(history'[origin'[u]]) == u &&
        visited'[u] == |history'[origin'[u]]|
    {
      if u != v {
        assert history'[origin'[u]] == history[origin[u]];
      }
    }
    forall i | 0 <= i < |history'| && |history'[i]| >= 2
      ensures Last(history'[i]) in visited' && visited'[Last(history'[i])] == |history'[i]|
    {
      if i < |history| {
        assert history'[i] == history[i];
      }
    }
  }

  lemma EnqueueBounded(visited: map<Square, nat>, origin: map<Square, nat>, history: seq<Path>, layer: nat, path: Path, v: Square)
    requires LengthBounded(visited, history, layer) && VisitedTracks(visited, origin, history)
    requires IsValid(v.0, v.1) && |path| == layer
    requires v in visited ==> visited[v] == |path| + 1
    ensures LengthBounded(visited[v := |path| + 1], history + [path + [v]], layer)
  {
    var visited', history' := visited[v := |path| + 1], history + [path + [v]];
    if v in visited {
      assert visited'.Keys == visited.Keys;
      assert |history[origin[v]]| <= |visited.Keys| + 1;
    } else {
      assert visited'.Keys == visited.Keys + {v};
      assert |visited'.Keys| == |visited.Keys| + 1;
    }
    BoardSquaresBound(visited'.Keys);
    forall i | 0 <= i < |history'|
      ensures |history'[i]| <= |visited'.Keys| + 1
    {
      if i < |history| {
        assert history'[i] == history[i];
      }
    }
  }

  lemma EnqueueResults(paths: seq<Path>, minLength: Option<nat>, history: seq<Path>, popped: nat, end: Square, child: Path)
    requires ResultsTrack(paths, minLength, history, popped, end)
    ensures ResultsTrack(paths, minLength, history + [child], popped, end)
  {
    var history' := history + [child];
    assert history'[..popped] == history[..popped];
    forall i | 0 <= i < popped
      ensures history'[i] == history[i]
    {
    }
  }

  lemma StepClosedGrows(history: seq<Path>, visited: map<Square, nat>, history': seq<Path>, visited': map<Square, nat>, p: Path, k: nat)
    requires p != [] && k < |KnightMoves| && StepClosed(history, visited, p, k)
    requires |history| <= |history'| && history'[..|history|] == history
    requires Extends(visited, visited')
    ensures StepClosed(history', visited', p, k)
  {
    var v := Add(Last(p), KnightMoves[k]);
    if IsValid(v.0, v.1) && visited[v] == |p| + 1 {
      var j :| 0 <= j < |history| && history[j] == p + [v];
      assert history'[j] == p + [v];
    }
  }

  /** Queuing the extension of `path` by move `k` deals with move `k` and keeps the loop's frame. */
  lemma FrameStep(end: Square, path: Path, queue0: seq<Entry>, visited0: map<Square, nat>, history0: seq<Path>,
                  minLength: Option<nat>, popped: nat, layer: nat,
                  k: nat, queue: seq<Entry>, visited: map<Square, nat>, history: seq<Path>, v: Square)
    requires ExploreFrame(end, path, queue0, visited0, history0, minLength, popped, layer, k, queue, visited, history)
    requires k < |KnightMoves| && v == Add(Last(path), KnightMoves[k]) && IsValid(v.0, v.1)
    requires |path| == layer && (v in visited ==> visited[v] == |path| + 1)
    ensures ExploreFrame(end, path, queue0, visited0, history0, minLength, popped, layer, k + 1,
                         queue + [(v, path + [v])], visited[v := |path| + 1], history + [path + [v]])
  {
    var child := path + [v];
    var queue', visited', history' := queue + [(v, child)], visited[v := |path| + 1], history + [child];
    FrameEntries(history0, history, path, k, v);
    assert (history + [path + [v]])[popped - 1] == path;
    FrameExtends(visited0, visited, v, |path| + 1);
    ClosedGrows(history, visited, history', visited', popped - 1, end, minLength);
    FrameMoves(history, visited, path, k, v);
    CountLengthAppend(queue, (v, child), layer);
    FrameChildren(queue0, queue, path, k, v);
  }

  lemma FrameEntries(history0: seq<Path>, history: seq<Path>, path: Path, k: nat, v: Square)
    requires k < |KnightMoves| && path != [] && v == Add(Last(path), KnightMoves[k])
    requires NewEntries(history0, history, path, k)
    ensures NewEntries(history0, history + [path + [v]], path, k + 1)
  {
    var history' := history + [path + [v]];
    assert history'[..|history0|] == history0 by {
      assert history'[..|history|] == history;
    }
    assert KnightMoves[..k + 1] == KnightMoves[..k] + [KnightMoves[k]];
    assert OffsetBetween(Last(path), v) == KnightMoves[k];
    forall j | |history0| <= j < |history'|
      ensures |history'[j]| == |path| + 1 && DropLast(history'[j]) == path &&
        OffsetBetween(Last(path), Last(history'[j])) in KnightMoves[..k + 1]
    {
      if j < |history| {
        assert history'[j] == history[j];
      }
    }
  }

  lemma FrameExtends(visited0: map<Square, nat>, visited: map<Square, nat>, v: Square, len: nat)
    requires Extends(visited0, visited) && (v in visited ==> visited[v] == len)
    ensures Extends(visited0, visited[v := len])
  {
  }

  lemma FrameMoves(history: seq<Path>, visited: map<Square, nat>, path: Path, k: nat, v: Square)
    requires k < |KnightMoves| && path != [] && v == Add(Last(path), KnightMoves[k]) && IsValid(v.0, v.1)
    requires MovesClosed(history, visited, path, k)
    requires v in visited ==> visited[v] == |path| + 1
    ensures MovesClosed(history + [path + [v]], visited[v := |path| + 1], path, k + 1)
  {
    var history', visited' := history + [path + [v]], visited[v := |path| + 1];
    assert history'[..|history|] == history;
    forall j | 0 <= j < k + 1
      ensures StepClosed(history', visited', path, j)
    {
      if j < k {
        StepClosedGrows(history, visited, history', visited', path, j);
      } else {
        assert history'[|history|] == path + [v];
      }
    }
  }

  lemma FrameChildren(queue0: seq<Entry>, queue: seq<Entry>, path: Path, k: nat, v: Square)
    requires k < |KnightMoves| && path != [] && v == Add(Last(path), KnightMoves[k]) && IsValid(v.0, v.1)
    requires Children(queue0, queue, path)
    ensures Children(queue0, queue + [(v, path + [v])], path)
  {
    var queue' := queue + [(v, path + [v])];
    assert queue'[..|queue0|] == queue0 by {
      assert queue'[..|queue|] == queue;
    }
    assert OffsetBetween(Last(path), v) == KnightMoves[k];
    forall i | |queue0| <= i < |queue'|
      ensures queue'[i].1 == path + [queue'[i].0] && IsMove(Last(path), queue'[i].0)
    {
      if i < |queue| {
        assert queue'[i] == queue[i];
      }
    }
  }

  /** Move `k` leads off the board or to a square already reached by a shorter path: nothing is queued. */
  lemma SkipMove(end: Square, path: Path, queue0: seq<Entry>, visited0: map<Square, nat>, history0: seq<Path>,
                 minLength: Option<nat>, popped: nat, layer: nat,
                 k: nat, queue: seq<Entry>, visited: map<Square, nat>, history: seq<Path>, v: Square)
    requires ExploreFrame(end, path, queue0, visited0, history0, minLength, popped, layer, k, queue, visited, history)
    requires k < |KnightMoves| && v == Add(Last(path), KnightMoves[k])
    requires !Admits(visited, |path|, v)
    ensures ExploreFrame(end, path, queue0, visited0, history0, minLength, popped, layer, k + 1, queue, visited, history)
  {
    SkipEntries(history0, history, path, k);
  }

  lemma SkipEntries(history0: seq<Path>, history: seq<Path>, path: Path, k: nat)
    requires k < |KnightMoves| && path != []
    requires NewEntries(history0, history, path, k)
    ensures NewEntries(history0, history, path, k + 1)
  {
    assert KnightMoves[..k + 1] == KnightMoves[..k] + [KnightMoves[k]];
    forall j | |history0| <= j < |history|
      ensures OffsetBetween(Last(path), Last(history[j])) in KnightMoves[..k + 1]
    {
      assert OffsetBetween(Last(path), Last(history[j])) in KnightMoves[..k];
    }
  }

  /** After the eight moves the explored path is closed. */
  lemma ExploreClosed(history: seq<Path>, visited: map<Square, nat>, popped: nat, path: Path, end: Square, minLength: Option<nat>)
    requires 1 <= popped <= |history| && history[popped - 1] == path && path != []
    requires Closed(history, visited, popped - 1, end, minLength)
    requires MovesClosed(history, visited, path, |KnightMoves|)
    ensures Closed(history, visited, popped, end, minLength)
  {
    assert Expanded(history, visited, history[popped - 1]);
  }

  /** After the eight moves no queued path extends a path still in the queue. */
  lemma ExploreParents(start: Square, end: Square, path: Path, queue0: seq<Entry>, visited0: map<Square, nat>, history0: seq<Path>,
                       paths: seq<Path>, minLength: Option<nat>, popped: nat, origin0: map<Square, nat>, layer: nat,
                       history: seq<Path>)
    requires 1 <= popped <= |history0| && path == history0[popped - 1] && path != [] && |path| == layer
    requires ParentsPopped(history0, popped - 1) && Layered(history0, popped, layer)
    requires Distinct(history) && NewEntries(history0, history, path, |KnightMoves|) && history[popped - 1] == path
    ensures ParentsPopped(history, popped)
  {
    forall j, m | 0 <= j < |history| && popped <= m < |history| && |history[j]| >= 2
      ensures DropLast(history[j]) != history[m]
    {
      if j >= |history0| {
        assert DropLast(history[j]) == history[popped - 1];
      } else if m >= |history0| {
        assert history[j] == history[..|history0|][j];
        if j >= popped {
          assert |history0[j]| <= layer + 1;
        }
      } else {
        assert history[j] == history[..|history0|][j] && history[m] == history[..|history0|][m];
      }
    }
  }

  /** Queuing the extension of `path` by move `k` keeps the invariant of the loop over the moves. */
  lemma Enqueued(start: Square, end: Square, path: Path, queue0: seq<Entry>, visited0: map<Square, nat>, history0: seq<Path>,
                 paths: seq<Path>, minLength: Option<nat>, popped: nat, origin0: map<Square, nat>, layer: nat,
                 k: nat, queue: seq<Entry>, visited: map<Square, nat>, history: seq<Path>, origin: map<Square, nat>, v: Square)
    requires Exploring(start, end, path, queue0, visited0, history0, paths, minLength, popped, origin0, layer)
    requires MoveLoop(start, end, path, queue0, visited0, history0, paths, minLength, popped, layer, k, queue, visited, history, origin)
    requires k < |KnightMoves| && v == Add(Last(path), KnightMoves[k])
    requires Admits(visited, |path|, v)
    ensures MoveLoop(start, end, path, queue0, visited0, history0, paths, minLength, popped, layer, k + 1,
                     queue + [(v, path + [v])], visited[v := |path| + 1], history + [path + [v]], origin[v := |history|])
  {
    EnqueueStep(start, end, path, queue0, visited0, history0, paths, minLength, popped, origin0, layer,
                k, queue, visited, history, origin, v);
    FrameStep(end, path, queue0, visited0, history0, minLength, popped, layer, k, queue, visited, history, v);
  }

  /** Passing over move `k` keeps the invariant of the loop over the moves. */
  lemma PassedOver(start: Square, end: Square, path: Path, queue0: seq<Entry>, visited0: map<Square, nat>, history0: seq<Path>,
                   paths: seq<Path>, minLength: Option<nat>, popped: nat, layer: nat,
                   k: nat, queue: seq<Entry>, visited: map<Square, nat>, history: seq<Path>, origin: map<Square, nat>, v: Square)
    requires MoveLoop(start, end, path, queue0, visited0, history0, paths, minLength, popped, layer, k, queue, visited, history, origin)
    requires k < |KnightMoves| && v == Add(Last(path), KnightMoves[k])
    requires !Admits(visited, |path|, v)
    ensures MoveLoop(start, end, path, queue0, visited0, history0, paths, minLength, popped, layer, k + 1, queue, visited, history, origin)
  {
    SkipMove(end, path, queue0, visited0, history0, minLength, popped, layer, k, queue, visited, history, v);
  }

  /** After the eight moves: what ExploreNeighbours promises. */
  lemma ExploreEnd(start: Square, end: Square, path: Path, queue0: seq<Entry>, visited0: map<Square, nat>, history0: seq<Path>,
                   paths: seq<Path>, minLength: Option<nat>, popped: nat, origin0: map<Square, nat>, layer: nat,
                   queue: seq<Entry>, visited: map<Square, nat>, history: seq<Path>, origin: map<Square, nat>)
    requires Exploring(start, end, path, queue0, visited0, history0, paths, minLength, popped, origin0, layer)
    requires MoveLoop(start, end, path, queue0, visited0, history0, paths, minLength, popped, layer,
                      |KnightMoves|, queue, visited, history, origin)
    ensures SearchInv(start, end, queue, visited, paths, minLength, history, popped, origin, layer)
    ensures ParentsPopped(history, popped)
    ensures Closed(history, visited, popped, end, minLength)
    ensures CountLength(queue, layer) == CountLength(queue0, layer)
    ensures Children(queue0, queue, path)
    ensures Extends(visited0, visited)
    ensures |history0| <= |history| && history[..|history0|] == history0 && history[popped - 1] == path
  {
    ExploreClosed(history, visited, popped, path, end, minLength);
    ExploreParents(start, end, path, queue0, visited0, history0, paths, minLength, popped, origin0, layer, history);
  }

  /** When the queue has run dry: what FindShortestPaths promises. */
  lemma Finish(start: Square, end: Square, visited: map<Square, nat>,
               paths: seq<Path>, minLength: Option<nat>,
               history: seq<Path>, origin: map<Square, nat>, layer: nat)
    requires SearchInv(start, end, [], visited, paths, minLength, history, |history|, origin, layer)
    requires Closed(history, visited, |history|, end, minLength)
    ensures forall p :: p in paths <==> IsShortestWalk(p, start, end)
    ensures forall i, j :: 0 <= i < j < |paths| ==> paths[i] != paths[j]
    ensures forall p, q :: p in paths && q in paths ==> |p| == |q|
    ensures paths == [] <==> forall p :: !IsKnightWalk(p, start, end)
    ensures start == end ==> paths == [[start]]
  {
    SearchComplete(start, end, visited, paths, minLength, history, origin, layer);
    if start == end {
      OnlyTrivialWalk(start, paths);
    }
  }

  /** A duplicate-free list of exactly the shortest walks from a square to itself is `[[start]]`. */
  lemma OnlyTrivialWalk(start: Square, paths: seq<Path>)
    requires forall p :: p in paths <==> IsShortestWalk(p, start, start)
    requires Distinct(paths)
    ensures paths == [[start]]
  {
    TrivialWalk(start);
    DistinctCard(paths);
    assert (set p | p in paths) == {[start]};
    assert paths[0] in paths;
  }

  /** Stepping from explored paths reaches every square of a walk no later than the walk does. */
  lemma {:induction false} Reach(start: Square, end: Square, visited: map<Square, nat>, minLength: Option<nat>,
                                 history: seq<Path>, origin: map<Square, nat>, w: Path)
    returns (i: nat)
    requires HistoryWalks(history, start) && VisitedTracks(visited, origin, history)
    requires Closed(history, visited, |history|, end, minLength)
    requires IsWalkFrom(w, start) && WithinMin(|w|, minLength)
    requires forall j :: 0 <= j < |w| - 1 ==> w[j] != end
    ensures i < |history| && history[i] != [] && Last(history[i]) == Last(w) && |history[i]| <= |w|
    decreases |w|
  {
    if |w| == 1 {
      i := 0;
    } else {
      var w' := DropLast(w);
      PrefixIsWalk(w, start, |w| - 1);
      var i' := Reach(start, end, visited, minLength, history, origin, w');
      var h := history[i'];
      assert IsMove(w[|w| - 2], w[|w| - 1]);
      assert Expanded(history, visited, h);
      i := ReachStep(visited, history, origin, h, Last(w));
    }
  }

  /** A legal move from the end of an explored path leads to a square some history entry reaches in at most one more square. */
  lemma ReachStep(visited: map<Square, nat>, history: seq<Path>, origin: map<Square, nat>, h: Path, v: Square)
    returns (i: nat)
    requires VisitedTracks(visited, origin, history)
    requires h != [] && Expanded(history, visited, h) && IsMove(Last(h), v)
    ensures i < |history| && history[i] != [] && Last(history[i]) == v && |history[i]| <= |h| + 1
  {
    var k :| 0 <= k < |KnightMoves| && KnightMoves[k] == OffsetBetween(Last(h), v);
    assert StepClosed(history, visited, h, k);
    i := origin[v];
  }

  /** No history entry reaches a square of `w` in fewer squares than `w` does. */
  ghost predicate Tight(w: Path, history: seq<Path>) {
    forall j, i :: 0 <= j < |w| && 0 <= i < |history| && history[i] != [] && Last(history[i]) == w[j] ==> j + 1 <= |history[i]|
  }

  /** A walk no history entry beats at any of its squares has itself been queued. */
  lemma {:induction false} ReachTight(start: Square, end: Square, visited: map<Square, nat>, minLength: Option<nat>,
                                      history: seq<Path>, origin: map<Square, nat>, w: Path)
    requires HistoryWalks(history, start) && VisitedTracks(visited, origin, history)
    requires Closed(history, visited, |history|, end, minLength)
    requires IsWalkFrom(w, start) && WithinMin(|w|, minLength)
    requires forall j :: 0 <= j < |w| - 1 ==> w[j] != end
    requires Tight(w, history)
    ensures w in history
    decreases |w|
  {
    if |w| == 1 {
      assert w == [start] == history[0];
    } else {
      var w' := DropLast(w);
      PrefixIsWalk(w, start, |w| - 1);
      assert Tight(w', history);
      ReachTight(start, end, visited, minLength, history, origin, w');
      assert IsMove(w[|w| - 2], w[|w| - 1]);
      assert w' + [Last(w)] == w;
      ExtendTight(end, visited, minLength, history, origin, w', Last(w));
    }
  }

  /** One move on from an explored path, to a square no queued path reaches sooner, is itself queued. */
  lemma ExtendTight(end: Square, visited: map<Square, nat>, minLength: Option<nat>,
                    history: seq<Path>, origin: map<Square, nat>, w: Path, v: Square)
    requires VisitedTracks(visited, origin, history)
    requires Closed(history, visited, |history|, end, minLength)
    requires w in history && w != [] && Last(w) != end && WithinMin(|w|, minLength)
    requires IsMove(Last(w), v)
    requires forall i :: 0 <= i < |history| && history[i] != [] && Last(history[i]) == v ==> |w| + 1 <= |history[i]|
    ensures w + [v] in history
  {
    var i :| 0 <= i < |history| && history[i] == w;
    var k :| 0 <= k < |KnightMoves| && KnightMoves[k] == OffsetBetween(Last(w), v);
    assert Expanded(history, visited, history[i]);
    assert StepClosed(history, visited, w, k);
    assert |history[origin[v]]| >= |w| + 1;
  }

  lemma {:induction false} FirstOccurrence(q: Path, x: Square) returns (j: nat)
    requires x in q
    ensures j < |q| && q[j] == x && forall k :: 0 <= k < j ==> q[k] != x
  {
    if q[0] == x {
      j := 0;
    } else {
      var j' := FirstOccurrence(q[1..], x);
      j := j' + 1;
    }
  }

  /** No knight walk reaches `end` in fewer squares than `min_length`, and when one exists `min_length` is set. */
  lemma NoShorterWalk(start: Square, end: Square, visited: map<Square, nat>,
                      paths: seq<Path>, minLength: Option<nat>,
                      history: seq<Path>, origin: map<Square, nat>, q: Path)
    requires HistoryWalks(history, start) && VisitedTracks(visited, origin, history)
    requires Closed(history, visited, |history|, end, minLength)
    requires ResultsTrack(paths, minLength, history, |history|, end)
    requires IsKnightWalk(q, start, end)
    ensures minLength.Some? && minLength.value <= |q|
  {
    assert q[|q| - 1] == end;
    var j := FirstOccurrence(q, end);
    var w := q[..j + 1];
    PrefixIsWalk(q, start, j + 1);
    if WithinMin(|w|, minLength) {
      var i := Reach(start, end, visited, minLength, history, origin, w);
    }
  }

  /** When the queue has run dry, the result list is exactly the set of shortest walks, each once. */
  lemma SearchComplete(start: Square, end: Square, visited: map<Square, nat>,
                       paths: seq<Path>, minLength: Option<nat>,
                       history: seq<Path>, origin: map<Square, nat>, layer: nat)
    requires SearchInv(start, end, [], visited, paths, minLength, history, |history|, origin, layer)
    requires Closed(history, visited, |history|, end, minLength)
    ensures forall p :: p in paths <==> IsShortestWalk(p, start, end)
    ensures Distinct(paths)
    ensures paths == [] <==> forall p :: !IsKnightWalk(p, start, end)
  {
    assert history[..|history|] == history;
    if minLength.Some? {
      ArrivalsDistinct(history, end, minLength.value);
    }
    forall p | p in paths
      ensures IsShortestWalk(p, start, end)
    {
      ArrivalsMembership(history, end, minLength.value, p);
      forall q | IsKnightWalk(q, start, end)
        ensures |p| <= |q|
      {
        NoShorterWalk(start, end, visited, paths, minLength, history, origin, q);
      }
    }
    forall p | IsShortestWalk(p, start, end)
      ensures p in paths
    {
      ShortestIsFound(start, end, visited, paths, minLength, history, origin, p);
    }
    if paths == [] {
      forall p | IsKnightWalk(p, start, end)
        ensures false
      {
        NoShorterWalk(start, end, visited, paths, minLength, history, origin, p);
      }
    } else {
      assert paths[0] in paths;
    }
  }

  /** Every shortest walk was queued, popped and kept. */
  lemma ShortestIsFound(start: Square, end: Square, visited: map<Square, nat>,
                        paths: seq<Path>, minLength: Option<nat>,
                        history: seq<Path>, origin: map<Square, nat>, p: Path)
    requires HistoryWalks(history, start) && VisitedTracks(visited, origin, history)
    requires Closed(history, visited, |history|, end, minLength)
    requires ResultsTrack(paths, minLength, history, |history|, end)
    requires IsShortestWalk(p, start, end)
    ensures p in paths
  {
    assert history[..|history|] == history;
    NoShorterWalk(start, end, visited, paths, minLength, history, origin, p);
    var m := minLength.value;
    var r := paths[0];
    ArrivalsMembership(history, end, m, r);
    assert IsKnightWalk(r, start, end);
    assert |p| == m;
    forall j | 0 <= j < |p| - 1
      ensures p[j] != end
    {
      PrefixIsWalk(p, start, j + 1);
      var prefix := p[..j + 1];
      assert Last(prefix) == p[j] && |prefix| < |p|;
      assert p[j] == end ==> IsKnightWalk(prefix, start, end);
    }
    forall j, i | 0 <= j < |p| && 0 <= i < |history| && history[i] != [] && Last(history[i]) == p[j]
      ensures j + 1 <= |history[i]|
    {
      assert IsWalkFrom(history[i], start);
      SpliceWalks(history[i], p, start, j);
      assert IsKnightWalk(history[i] + p[j + 1..], start, end);
    }
    ReachTight(start, end, visited, minLength, history, origin, p);
    ArrivalsMembership(history, end, m, p);
  }
}
