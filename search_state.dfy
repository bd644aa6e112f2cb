/**
 * The state of find_shortest_paths and the invariant its loop keeps.
 *
 * Beside the program's own state (the queue of (square, path) entries, the
 * `visited` table of best path lengths, the result list and `min_length`),
 * the proof keeps a ghost history: every path ever put in the queue, in
 * order. The first `popped` of them have left the queue; the others are the
 * queue. `origin` names, for every square in `visited`, the history entry
 * whose length `visited` records.
 */
module SearchState {
  import opened Wrappers
  import opened Board
  import opened Knight

  /** A queue entry: the square a path ends on, and the path. */
  type Entry = (Square, Path)

  /** `len <= min_length`, where None stands for the initial float('inf'). */
  predicate WithinMin(len: int, minLength: Option<nat>) {
    minLength.None? || len <= minLength.value
  }

  ghost predicate Distinct<T>(s: seq<T>) {
    forall i, j :: 0 <= i < j < |s| ==> s[i] != s[j]
  }

  /** A duplicate-free sequence has as many different elements as entries. */
  lemma {:induction false} DistinctCard<T>(s: seq<T>)
    requires Distinct(s)
    ensures |set x | x in s| == |s|
  {
    if s != [] {
      var init, y := s[..|s| - 1], s[|s| - 1];
      DistinctCard(init);
      assert s == init + [y];
      assert (set x | x in s) == (set x | x in init) + {y};
      assert y !in init by {
        forall i | 0 <= i < |init|
          ensures init[i] != y
        {
          assert init[i] == s[i];
        }
      }
    }
  }

  /** The queue is the part of the history that has not been popped yet. */
  ghost predicate QueueMatches(queue: seq<Entry>, history: seq<Path>, popped: nat) {
    popped <= |history| && |queue| == |history| - popped &&
    forall i :: 0 <= i < |queue| ==>
      queue[i].1 == history[popped + i] && |queue[i].1| > 0 && queue[i].0 == Last(queue[i].1)
  }

  /** Every path ever queued is a walk from `start`; the first is `[start]` alone. */
  ghost predicate HistoryWalks(history: seq<Path>, start: Square) {
    |history| > 0 && history[0] == [start] &&
    forall i :: 0 <= i < |history| ==> IsWalkFrom(history[i], start)
  }

  /** Paths are queued in order of length, and `layer` is the length being popped. */
  ghost predicate Layered(history: seq<Path>, popped: nat, layer: nat) {
    (forall i, j :: 0 <= i < j < |history| ==> |history[i]| <= |history[j]|) &&
    (forall i :: 0 <= i < popped && i < |history| ==> |history[i]| <= layer) &&
    (forall i :: popped <= i < |history| ==> layer <= |history[i]| <= layer + 1)
  }

  /**
   * `visited` holds on-board squares only; each recorded length is the length
   * of a queued path to that square, and every queued path of two or more
   * squares ends on a square whose recorded length is its own length.
   */
  ghost predicate VisitedTracks(visited: map<Square, nat>, origin: map<Square, nat>, history: seq<Path>) {
    (forall v :: v in visited ==>
      IsValid(v.0, v.1) && v in origin && origin[v] < |history| &&
      |history[origin[v]]| >= 2 && Last(history[origin[v]]) == v &&
      visited[v] == |history[origin[v]]|) &&
    (forall i :: 0 <= i < |history| && |history[i]| >= 2 ==>
      Last(history[i]) in visited && visited[Last(history[i])] == |history[i]|)
  }

  /** Paths grow by one square only when a new square enters `visited`: the bound that ends the search. */
  ghost predicate LengthBounded(visited: map<Square, nat>, history: seq<Path>, layer: nat) {
    (forall i :: 0 <= i < |history| ==> |history[i]| <= |visited.Keys| + 1) &&
    1 <= layer <= |visited.Keys| + 1 && |visited.Keys| <= Size * Size
  }

  /**
   * The paths of `s`, in order, that end on `end` and have `len` squares:
   * the popped paths the result list should hold.
   */
  function Arrivals(s: seq<Path>, end: Square, len: nat): (r: seq<Path>)
    ensures |r| <= |s|
  {
    if s == [] then []
    else
      var p := s[|s| - 1];
      Arrivals(s[..|s| - 1], end, len) + (if p != [] && Last(p) == end && |p| == len then [p] else [])
  }

  /**
   * `min_length` is set exactly when some popped path has reached `end`; it
   * is the length of the shortest such path, and the result list holds
   * every popped path to `end` of that length, in the order they were popped.
   */
  ghost predicate ResultsTrack(paths: seq<Path>, minLength: Option<nat>, history: seq<Path>, popped: nat, end: Square) {
    popped <= |history| &&
    (forall i :: 0 <= i < popped && history[i] != [] && Last(history[i]) == end ==>
      minLength.Some? && minLength.value <= |history[i]|) &&
    if minLength.None? then paths == []
    else paths != [] && paths == Arrivals(history[..popped], end, minLength.value)
  }

  /** No queued path extends a path at position `n` or later: every parent was popped among the first `n`. */
  ghost predicate ParentsPopped(history: seq<Path>, n: nat) {
    n <= |history| &&
    forall j, m :: 0 <= j < |history| && n <= m < |history| && |history[j]| >= 2 ==> DropLast(history[j]) != history[m]
  }

  /**
   * Move `k` from the end of `p` has been dealt with: its target, if on the
   * board, is in `visited` with a length at most one more than `p`'s, and when
   * exactly one more, `p` extended by it has been queued.
   */
  ghost predicate StepClosed(history: seq<Path>, visited: map<Square, nat>, p: Path, k: nat)
    requires p != [] && k < |KnightMoves|
  {
    var v := Add(Last(p), KnightMoves[k]);
    IsValid(v.0, v.1) ==>
      v in visited && visited[v] <= |p| + 1 && (visited[v] == |p| + 1 ==> p + [v] in history)
  }

  ghost predicate Expanded(history: seq<Path>, visited: map<Square, nat>, p: Path)
    requires p != []
  {
    forall k :: 0 <= k < |KnightMoves| ==> StepClosed(history, visited, p, k)
  }

  /** Every one of the first `n` popped paths that the loop explores has had all eight moves dealt with. */
  ghost predicate Closed(history: seq<Path>, visited: map<Square, nat>, n: nat, end: Square, minLength: Option<nat>) {
    n <= |history| &&
    forall i {:trigger Expanded(history, visited, history[i])} ::
      0 <= i < n && |history[i]| > 0 && Last(history[i]) != end && WithinMin(|history[i]|, minLength) ==>
      Expanded(history, visited, history[i])
  }

  ghost predicate SearchInv(start: Square, end: Square, queue: seq<Entry>, visited: map<Square, nat>,
                            paths: seq<Path>, minLength: Option<nat>,
                            history: seq<Path>, popped: nat, origin: map<Square, nat>, layer: nat) {
    && QueueMatches(queue, history, popped)
    && HistoryWalks(history, start)
    && Distinct(history)
    && Layered(history, popped, layer)
    && VisitedTracks(visited, origin, history)
    && LengthBounded(visited, history, layer)
    && ResultsTrack(paths, minLength, history, popped, end)
  }

  lemma {:induction false} ArrivalsMembership(s: seq<Path>, end: Square, len: nat, x: Path)
    ensures x in Arrivals(s, end, len) <==> x in s && x != [] && Last(x) == end && |x| == len
  {
    if s != [] {
      ArrivalsMembership(s[..|s| - 1], end, len, x);
      assert s == s[..|s| - 1] + [s[|s| - 1]];
    }
  }

  lemma {:induction false} ArrivalsDistinct(s: seq<Path>, end: Square, len: nat)
    requires Distinct(s)
    ensures Distinct(Arrivals(s, end, len))
  {
    if s != [] {
      var init, p := s[..|s| - 1], s[|s| - 1];
      ArrivalsDistinct(init, end, len);
      if p != [] && Last(p) == end && |p| == len {
        ArrivalsMembership(init, end, len, p);
        assert p !in init;
      }
    }
  }

  lemma {:induction false} ArrivalsNone(s: seq<Path>, end: Square, len: nat)
    requires forall i :: 0 <= i < |s| && s[i] != [] && Last(s[i]) == end ==> |s[i]| != len
    ensures Arrivals(s, end, len) == []
  {
    if s != [] {
      ArrivalsNone(s[..|s| - 1], end, len);
    }
  }

  /** The number of queue entries whose path has `len` squares: the second part of the loop's termination measure. */
  function CountLength(queue: seq<Entry>, len: nat): nat {
    if queue == [] then 0 else (if |queue[0].1| == len then 1 else 0) + CountLength(queue[1..], len)
  }

  lemma {:induction false} CountLengthAppend(queue: seq<Entry>, e: Entry, len: nat)
    requires |e.1| != len
    ensures CountLength(queue + [e], len) == CountLength(queue, len)
  {
    if queue != [] {
      assert (queue + [e])[1..] == queue[1..] + [e];
      CountLengthAppend(queue[1..], e, len);
    }
  }

  /** `visited` keeps every recorded length of `visited0`. */
  ghost predicate Extends(visited0: map<Square, nat>, visited: map<Square, nat>) {
    forall v :: v in visited0 ==> v in visited && visited[v] == visited0[v]
  }

  /** A history that grows at the end and a `visited` that only gains keys keep every move already dealt with. */
  lemma ExpandedGrows(history: seq<Path>, visited: map<Square, nat>, history': seq<Path>, visited': map<Square, nat>, p: Path)
    requires p != [] && Expanded(history, visited, p)
    requires |history| <= |history'| && history'[..|history|] == history
    requires Extends(visited, visited')
    ensures Expanded(history', visited', p)
  {
    forall k | 0 <= k < |KnightMoves|
      ensures StepClosed(history', visited', p, k)
    {
      assert StepClosed(history, visited, p, k);
      var v := Add(Last(p), KnightMoves[k]);
      if IsValid(v.0, v.1) && visited[v] == |p| + 1 {
        var j :| 0 <= j < |history| && history[j] == p + [v];
        assert history'[j] == p + [v];
      }
    }
  }

  lemma ClosedGrows(history: seq<Path>, visited: map<Square, nat>, history': seq<Path>, visited': map<Square, nat>,
                    n: nat, end: Square, minLength: Option<nat>)
    requires Closed(history, visited, n, end, minLength)
    requires |history| <= |history'| && history'[..|history|] == history
    requires Extends(visited, visited')
    ensures Closed(history', visited', n, end, minLength)
  {
    forall i | 0 <= i < n && |history'[i]| > 0 && Last(history'[i]) != end && WithinMin(|history'[i]|, minLength)
      ensures Expanded(history', visited', history'[i])
    {
      assert history'[i] == history[i];
      ExpandedGrows(history, visited, history', visited', history[i]);
    }
  }
}
