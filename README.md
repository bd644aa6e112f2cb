# Knight's shortest paths, modelled in Dafny

`knight_tour.py` finds every shortest sequence of knight moves between two
squares of an 8 by 8 chessboard. Its core consists of:

- the board helpers `is_valid`, `to_algebraic` and `from_algebraic`, which
  test bounds and translate between coordinate pairs `(x, y)` and algebraic
  names such as `"a1"` (`x` is the rank index, `y` the file index);
- the table `knight_moves` of the eight knight offsets;
- `KnightPathFinder.find_shortest_paths`, a breadth-first search. Each queue
  entry carries its whole path. A `visited` table holds the best path length
  recorded for each square, and a running `min_length` holds the length of the
  shortest arrival found so far.

This project has four modules plus an `Option` datatype (`wrappers.dfy`):

- `Board` (`board.dfy`) holds the helpers as pure functions. `Option` results
  stand for the exceptions Python raises.
- `Knight` (`knight.dfy`) holds the move table and the notion of a knight walk:
  - a walk starts at `start`;
  - every later square is reached by one of the eight offsets and is on the
    board;
  - a shortest walk has no more squares than any other walk to the same target.
- `SearchState` (`search_state.dfy`) holds the state of the search and its
  loop invariant. Besides the program's own queue, `visited` table, result
  list and `min_length`, the proof keeps ghost state:
  - the history of every path ever queued;
  - the number of paths popped so far;
  - for each visited square, the history entry that set its length;
  - the current layer, which is the length being popped.
- `PathFinder` (`path_finder.dfy`) holds the search as an imperative method.
  - The queue is a `seq` that the method pops and appends to, and `visited`
    is a `map`.
  - One turn of the main loop is the method `SearchStep`. The loop over the
    eight moves is the method `ExploreNeighbours`, and one move of that loop
    is `ExploreMove`.
  - Each step is justified by a lemma about the search state.
  - After the loop, a completeness argument shows the result is exactly the
    set of shortest walks.

Python's `float('inf')` is modelled as an absent key in `visited` and as
`None` for `min_length`. The search takes the board as fixed at 8 by 8, with no
bounds check on input squares.

The board size is fixed at 8 by 8: `is_valid` compares against the constant 8
and nothing configures it. The search raises no error of its own:

- An off-board target such as the result of `from_algebraic("z9")`, which is
  (8, 25), is searched for like any other square. The search returns `[]`,
  unless the start is that same square: `find_shortest_paths((8, 25), (8, 25))`
  returns `[[(8, 25)]]`, because the start is compared with the target before
  any bounds check.
- A target no knight walk reaches also gives `[]`.

The search terminates because of two facts:

- Every queued path has at most one square more than the number of squares in
  `visited`.
- That number is at most 64.

So the layer length is bounded, and within one layer the number of queued
paths of that length strictly falls. This is the measure the main loop
decreases.

## Model

| member | source | states |
|---|---|---|
| Board.IsValid | knight_tour.py:21-25 | a pair that passes `is_valid` is one of the 64 squares: its row-major number `8 * x + y` lies in 0..63 |
| Board.IntToString | knight_tour.py:32 | the numeral the f-string writes for the rank number begins with `-` exactly when the number is negative. Its digits (after the sign, if any) denote the number's absolute value with no leading zero, and it is one character long exactly when the number is 0 to 9 |
| Board.ToAlgebraic | knight_tour.py:27-32 | `to_algebraic` succeeds exactly when the file's code point `y + ord('a')` lies in [0, 0x110000); otherwise `chr` fails, modelled as `None`. The name begins with that character, has at least two characters, and has exactly two when the rank index is -1 to 8; its second character is `-` exactly when the rank index is below -1 |
| Board.FromAlgebraic | knight_tour.py:34-39 | `from_algebraic` succeeds exactly when the name has at least two characters and its second is a digit. The rank index is then between -1 and 8, and the file index is the first character's offset from `a`, with no bounds check |
| Board.ValidIffStandardName | knight_tour.py:21-32 | a pair passes `is_valid` exactly when its algebraic name is one file letter a-h followed by one rank digit 1-8 |
| Board.OnBoardNames | knight_tour.py:21-39 | `from_algebraic` yields an on-board pair exactly when the name has a first character a-h and a second character 1-8 |
| Board.BoardSquaresBound | knight_tour.py:21-25 | any set of squares that pass `is_valid` has at most 64 elements |
| Board.NatToString | knight_tour.py:32 | the decimal numeral `str` writes for a natural number is a non-empty string of digits that denotes the number, has no leading zero, and is one character long exactly when the number is at most 9 |
| Board.RoundTrip | knight_tour.py:27-39 | for every rank index from -1 to 8 and every file whose code point is one `chr` accepts (outside the surrogates), `to_algebraic` succeeds with a two-character name and `from_algebraic` of that name gives the pair back |
| Board.ParseThenFormat | knight_tour.py:27-39 | a two-character name with a digit second is parsed, and formatting the parsed pair gives the same name back |
| Board.ReadsFirstTwoCharacters | knight_tour.py:34-39 | `from_algebraic` reads only `pos[0]` and `pos[1]`: anything appended after two characters leaves the result unchanged |
| Board.FromAlgebraicFails | knight_tour.py:34-39 | `from_algebraic` fails exactly when the name is shorter than two characters (the IndexError of `pos[1]`) or its second character is not a digit (the ValueError of `int`) |
| Board.NamedExamples | knight_tour.py:27-39 | (0, 0) formats as "a1", (9, 0) as "a10" and (-3, 7) as "h-2"; "a1" parses to (0, 0) and "h8" to (7, 7); "z9" parses to the off-board (8, 25) without complaint; "a10" reads as "a1"; "a" and "ax" fail |
| Knight.KnightMovesAreLShapes | knight_tour.py:50-51 | an offset is in `knight_moves` exactly when it is an L-shaped jump: 1 and 2, or 2 and 1, in absolute value |
| Knight.KnightMovesDistinct | knight_tour.py:50-51 | the table has eight pairwise different entries |
| Knight.IsMove | knight_tour.py:81-83 | a step the search can take (an offset of `knight_moves` whose target passes `is_valid`) is exactly an L-shaped jump that lands on the board |
| Knight.IsShortestWalk | knight_tour.py:53-55 | a shortest walk begins at `start` and ends at `end`, and it is the single square `[start]` exactly when `start == end` |
| Knight.OneMoveWalk | knight_tour.py:50-51 | a1 to b3 (from (0, 0) to (2, 1)) is one knight move; that two-square walk is a shortest walk and the only one |
| Knight.CutLoop | knight_tour.py:53-55 | cutting out the stretch of a walk between two visits to the same square leaves a strictly shorter walk between the same squares |
| Knight.ShortestWalkIsSimple | knight_tour.py:53-55 | a shortest walk never visits a square twice |
| Knight.OffBoardUnreachable | knight_tour.py:83-87 | only on-board squares are ever stepped onto, so no walk reaches an off-board target different from the start |
| Knight.TrivialWalk | knight_tour.py:59-78 | `[start]` is a shortest walk from a square to itself, and the only one |
| PathFinder.FindShortestPaths | knight_tour.py:53-89 | it returns exactly the shortest knight walks from `start` to `end`. No walk appears twice, and all have the same length. The result is `[]` exactly when no walk reaches `end`, and it is `[[start]]` when `start == end` |
| PathFinder.SearchStep | knight_tour.py:64-87 | one turn of the main loop pops exactly the head of the queue. A path longer than `min_length` is dropped and nothing else changes. An arrival at `end` leaves `visited` alone, and either resets the results to `[path]` with `min_length = len(path)` or appends it. Any other path leaves the results and `min_length` alone: the queue gains exactly the one-move extensions the move test admits against `visited`, and `visited` keeps its old entries and gains only those targets, at `len(path) + 1`. The turn keeps the loop invariant and lowers the termination measure: the popped length grows, or it stays and one fewer path of that length is queued |
| PathFinder.MeasureFalls | knight_tour.py:64-65 | popping the head of the queue lowers the pair (65 - current length, number of queued paths of that length) when the rest of the turn leaves that number unchanged |
| PathFinder.ExploreNeighbours | knight_tour.py:80-87 | after the eight moves, `visited` keeps every old key with its old length. For each move of `knight_moves` with target `v`: `(v, path + [v])` is in the queue exactly when `v` passes `is_valid` and the old `visited` has no length for `v` below `len(path) + 1`; if so, `visited[v]` becomes `len(path) + 1`. `visited` gains no other key. The old queue is a prefix of the new one, and every appended entry is a one-move extension of `path`. The search invariant holds, the explored path is closed, and the number of queued paths of the current length is unchanged |
| PathFinder.ExploreMove | knight_tour.py:82-87 | one move: when its target is on the board and has no recorded length below `len(path) + 1` (the `<=` test), the extended path is appended and the target's length becomes `len(path) + 1`; otherwise the queue and `visited` are unchanged. The search invariant and the move-by-move record hold for one more move |
| PathFinder.SameVerdict | knight_tour.py:83-85 | the test on move `k`'s target gives the same answer against `visited` as the loop has updated it as against `visited` before the loop, because the eight moves have distinct targets |
| PathFinder.AdmittedTake | knight_tour.py:83-87 | queuing the target of move `k` that passed the test extends the move-by-move record to `k + 1` moves |
| PathFinder.AdmittedSkip | knight_tour.py:83-85 | passing over a target that fails the test extends the move-by-move record to `k + 1` moves |
| PathFinder.NoChildQueued | knight_tour.py:64-65 | no path still in the queue when a path is popped is a one-move extension of it |
| PathFinder.AdmittedAll | knight_tour.py:80-87 | after all eight moves, a move's extension is in the queue exactly when the target passed the test against the old `visited`, the target then has length `len(path) + 1`, and every key `visited` gained belongs to a queued extension |
| PathFinder.Init | knight_tour.py:59-62 | the initial queue `[(start, [start])]`, the empty `visited`, the empty result and the infinite `min_length` satisfy the loop invariant |
| PathFinder.Pop | knight_tour.py:64-65 | the head of the queue is the next path of the history and ends on the square it is queued with. Its length is at least the current layer and at most 65 |
| PathFinder.Skip | knight_tour.py:67-69 | dropping a path longer than `min_length` keeps the invariant with results and `min_length` unchanged |
| PathFinder.ArriveResults | knight_tour.py:72-77 | a shorter arrival resets the results to `[path]` and sets `min_length` to its length; an equal-length arrival is appended. Either way the results are the popped arrivals of length `min_length`, in popping order |
| PathFinder.Arrive | knight_tour.py:71-78 | taking a path that reaches `end` within `min_length` keeps the whole loop invariant |
| PathFinder.BeginExplore | knight_tour.py:80-81 | a popped path that does not reach `end` and is within `min_length` is the one whose moves are explored |
| PathFinder.EnqueueLength | knight_tour.py:85-86 | when the `<=` test lets a move through to a square already in `visited`, that square's recorded length was exactly the extended path's length, never more |
| PathFinder.EnqueueStep | knight_tour.py:83-87 | recording `len(path) + 1` for the new square and queuing the extended path keeps the search invariant. The queued paths stay walks from `start`, stay distinct and stay ordered by length |
| PathFinder.Enqueued | knight_tour.py:83-87 | queuing the extension by move `k` keeps both the search invariant and the inner loop's frame |
| PathFinder.SkipMove | knight_tour.py:83-85 | an off-board target, or one already reached by a shorter path, queues nothing and still counts as dealt with |
| PathFinder.ExploreEnd | knight_tour.py:81-87 | after all eight moves the explored path is closed, and no queued path extends a path that is still in the queue |
| PathFinder.Reach | knight_tour.py:64-87 | once the queue is empty, take a walk from `start` that is within `min_length` and does not pass through `end` before its last square. Some queued path ends on the same square as that walk and is no longer than it |
| PathFinder.ReachStep | knight_tour.py:81-87 | a legal move from the end of an explored path leads to a square that some queued path reaches with at most one square more than the explored path |
| PathFinder.ReachTight | knight_tour.py:64-87 | a walk that no queued path beats at any of its squares was itself queued |
| PathFinder.ExtendTight | knight_tour.py:81-87 | extending an explored path by one legal move, to a square no queued path reaches sooner, gives a path that was queued |
| PathFinder.NoShorterWalk | knight_tour.py:64-78 | when the search ends, `min_length` is set whenever a knight walk to `end` exists, and it is no longer than any such walk |
| PathFinder.ShortestIsFound | knight_tour.py:64-87 | when the search ends, every shortest walk is in the result list |
| PathFinder.SearchComplete | knight_tour.py:64-89 | when the queue is empty, the result list holds exactly the shortest walks, without repeats. It is empty exactly when no walk reaches `end` |
| PathFinder.Finish | knight_tour.py:64-89 | the post-loop conclusion: all of `FindShortestPaths`'s promises follow from the invariant with an empty queue |
| PathFinder.OnlyTrivialWalk | knight_tour.py:59-78 | a duplicate-free list of exactly the shortest walks from a square to itself is `[[start]]` |

## Left out

- `generate_graph` (knight_tour.py:91-111) is not part of this model: it renders a Graphviz image through a foreign library.
- `visualize_path` and `visualize_board` (knight_tour.py:113-166) are not part of this model: matplotlib plotting and display.
- `main` (knight_tour.py:168-220) is not part of this model: argument parsing, the JSON configuration file, interactive input, logging and printing.
- Exceptions are modelled as `None`. The `None` of `Board.FromAlgebraic` stands for the IndexError or ValueError of `from_algebraic`, which `main` catches (knight_tour.py:198-203). The `None` of `Board.ToAlgebraic` stands for the failure of `chr` (knight_tour.py:32); nothing catches it, and `main` calls `to_algebraic` unguarded when it prints a path (knight_tour.py:214).
- The logging set-up (knight_tour.py:18) is left out, and so are the `logging` calls of `main`.
- `float('inf')` is not modelled as a float: an absent `visited` key and `None` stand for it.
- `KnightPathFinder` is not modelled as a class. Its only field, `knight_moves`, is set once in `__init__` and never changed, so it is the module constant `Knight.KnightMoves`, and `find_shortest_paths` is a module-level method.
- `Board.FromAlgebraic`: Python's `int` also accepts a single non-ASCII decimal digit, such as an Arabic-Indic digit. The model accepts only the ASCII digits '0' to '9' as the second character.
- `Board.FromAlgebraic`: a Python name can hold a lone surrogate (command-line arguments and input decoded with surrogateescape), and `from_algebraic` reads it like any other first character, e.g. `"\udcff1"` gives (0, 0xDCFF - 97). A Dafny `string` cannot hold such a name, so these names are outside the model.
- `Board.FromAlgebraicFails`: "not a digit" means not one of the ASCII digits '0' to '9', so a second character that is a non-ASCII decimal digit counts as a failure here, while Python's `int` reads it.
- `Board.ToAlgebraic`: `chr` accepts the surrogate code points U+D800 to U+DFFF, which a Dafny `char` cannot hold. The function requires the file letter's code point to lie outside that range.
- `Board.ToAlgebraic`: which exception `chr` raises is not modelled. It raises ValueError for a code point outside [0, 0x110000) that fits a C `int`, and OverflowError beyond that range, e.g. `chr(2**31)`; both are the one `None`.
- `Board.ToAlgebraic`: Python refuses to write an integer of more than 4300 decimal digits as a string (the `int_max_str_digits` limit) and raises ValueError. So `to_algebraic(10**4300, 0)` fails where the model returns a name, because the model's numeral has no length limit. `main` formats only squares of walks from a parsed square, whose rank numbers are single digits 0 to 9.
- `Board.RoundTrip` covers rank indices -1 to 8, where the rank number is one character. Larger or more negative ranks give names of three or more characters, whose second character `from_algebraic` reads as the rank, so no round trip exists for them. File code points outside [0, 0x110000) make `to_algebraic` fail, and the surrogates are outside the model (see `Board.ToAlgebraic` above).
- `PathFinder.ExploreNeighbours` and `PathFinder.FindShortestPaths` take Python's `deque` as a sequence. `popleft` is dropping the first element, and `append` is concatenation.
- `PathFinder.FindShortestPaths`: its contract gives the result as exactly the shortest walks, each once, but not their order. The list holds them in the order they were popped from the queue, which follows `knight_moves` move by move; that order is kept only inside the proof.
- `PathFinder.ExploreNeighbours`: its contract says which extensions are appended but not their order. The order, which follows `knight_moves`, is fixed move by move in `PathFinder.ExploreMove`.
