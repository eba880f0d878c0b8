# A* route search over a chained hash table

This project models the core of a small route planner. Cities are stored in a
fixed-size hash table with separate chaining. A best-first search then looks
for a route between two cities, and the route is rebuilt from back-links.

The Dafny files are:

- `wrappers.dfy` (module `Wrappers`): `Option`, which stands for Python's `None` next to a present value.
- `hash_table.dfy` (module `HashTables`): the class `HashTable`.
  - Its buckets are an `array<seq<Entry>>`, and `Contents` is the abstract key-to-value map.
  - `Insert`, `Get` and `Contains` are methods over the buckets, and `Index` is `_hash`.
  - `Find`, `Value` and `Put` describe one bucket as a value. The bucket lemmas are proved about them.
- `open_list.dfy` (module `OpenLists`): the open list of `(priority, city)` pairs.
  - A priority is a finite score or infinity.
  - `list.sort` is modelled as a stable insertion sort. Every stable sort of a list gives the same result.
- `astar.dfy` (module `AStar`): the city map as a graph, the search and the path reconstruction.
  - `a_star_search` becomes `AStarSearch`. It runs one `SearchPass` per turn of its loop.
  - Inside a pass, the neighbour loop is `RelaxNeighbors`, and one neighbour is handled by `RelaxNeighbor`.
    Its score update is `ImproveNeighbor`. The predicates `RelaxEffect` and `ImproveEffect` state their whole effect.
    `RelaxStep` computes that effect as a value, and `RelaxAll` folds it over a neighbour list from first to last.
  - The goal branch of a pass is `PathToGoal`.
  - `reconstruct_path` becomes `ReconstructPath`.

What is proved about the search:

- A returned path is a route from the start to the goal along neighbour links.
- `None` is returned only when no such route exists.
- When the start is the goal, the result is the one-city path.
- No city is taken off the open list twice. The first city popped is the start, and a successful search pops the goal last.
- Every popped city is reachable from the start, so there are at most as many passes as reachable cities.
- The open list never holds a city twice.
- g-scores never rise from one pass to the next.
- A back-link is only ever set along a neighbour link, from a closed city, and never for the start.

The proofs also bring out how this search orders its work. A neighbour is
appended with `f_score.get(neighbor, inf)`, and a city that is neither closed
nor open has no f-score yet. So every entry after the start's has priority
infinity. The stable sort then never reorders the list, and each pass takes
the oldest entry. `SearchPass` states this: the popped city is the head of the
list as it stood before the sort.

## Model

| member | source | states |
|---|---|---|
| HashTables.HashTable.constructor | Astar.py:7-9 | a table of `size` empty buckets (size defaults to 100) whose abstract contents are empty |
| HashTables.HashTable.Index | Astar.py:11-12 | `_hash`: the bucket index `hash(key) % size` lies in `[0, size)` |
| HashTables.Find | Astar.py:16-17 | scanning a bucket finds the first entry holding the key, and no entry before it holds the key |
| HashTables.Put | Astar.py:14-20 | after `insert`, the key's first entry holds the new value, or a new entry at the end does when the key was absent; every other entry keeps its position and content, and the bucket grows by one exactly when the key was absent |
| HashTables.Value | Astar.py:22-27 | what `get` returns from a bucket: `None` when no entry holds the key; the value of the key's entry when no key repeats |
| HashTables.HashTable.Insert | Astar.py:14-20 | the contents map the key to the new value and keep every other key; only the key's bucket changes, overwritten in place or appended to; the table invariant (right bucket, no key twice) is kept |
| HashTables.ValueOfPutSame | Astar.py:14-20 | after inserting a key into a bucket, the bucket holds the key with the new value |
| HashTables.ValueOfPutOther | Astar.py:14-20 | inserting one key leaves what a bucket reports for every other key unchanged |
| HashTables.PutKeepsDistinctKeys | Astar.py:16-20 | overwriting a present key or appending an absent one keeps the keys of a bucket distinct |
| HashTables.HashTable.Get | Astar.py:22-27 | returns the stored value of the key, or `None` for a key never inserted |
| HashTables.HashTable.Contains | Astar.py:29-30 | true exactly when the key is stored with a value other than `None` |
| OpenLists.Nodes | Astar.py:62 | `[i[1] for i in open_list]` has one node per entry, the i-th entry's node in position i |
| OpenLists.InsertByPriority | Astar.py:48 | one insertion step of the stable sort adds exactly its entry to the list |
| OpenLists.SortByPriority | Astar.py:48 | the sort only rearranges the open list: the result holds the same entries, each as often |
| OpenLists.InsertSortedPermutation | Astar.py:48 | inserting into a list sorted by priority keeps it sorted and adds just the new entry |
| OpenLists.SortIsSortedPermutation | Astar.py:48 | the sort orders the open list by priority and is a permutation of it |
| OpenLists.SortHeadIsEarliestMinimum | Astar.py:48-49 | the entry popped after the sort is the earliest entry of least priority |
| OpenLists.SortOfUniform | Astar.py:48 | a list whose priorities are all equal is left unchanged by the stable sort |
| OpenLists.PopNodes | Astar.py:49 | popping the head of a list without repeated cities removes just that city |
| AStar.Reverse | Astar.py:80 | `total_path[::-1]` has the same length, starts with the last element and ends with the first |
| AStar.ReverseReverse | Astar.py:80 | reversing twice gives the list back, so the reversal loses nothing |
| AStar.ReconstructPath | Astar.py:75-80 | ends at `current`, starts at a city without back-link, and each city is the back-link of the next; without a back-link it is `[current]` |
| AStar.ReconstructedPathUnique | Astar.py:75-80 | at most one list meets the contract of `ReconstructPath`, so that contract fixes the result |
| AStar.ScoreOrInfinity | Astar.py:63 | `f_score.get(neighbor, inf)`: infinity exactly when the city has no f-score, else its f-score |
| AStar.RelaxNeighbor | Astar.py:57-70 | the whole new state (`RelaxEffect`): a closed neighbour changes nothing; otherwise the neighbour is appended with `f_score.get(neighbor, inf)` unless already open; when `g_score[current] + cost` is below its g-score or it has none, its back-link becomes the current city, its g-score that sum and its f-score the sum plus the heuristic to the goal, and nothing else changes. From this: it ends up closed or open, a new entry has priority infinity, and g-scores only fall |
| AStar.ImproveNeighbor | Astar.py:65-70 | the score update (`ImproveEffect`): with `tentative` below the neighbour's g-score or no g-score, the back-link, g-score and f-score of the neighbour are set as the program sets them; otherwise all three maps are unchanged |
| AStar.RelaxedNeighbor | Astar.py:57-70 | the effect of one neighbour keeps the open-list bookkeeping, only appends neighbours at priority infinity, only lowers g-scores, and leaves the neighbour closed or open |
| AStar.RelaxStep | Astar.py:57-70 | the state after one turn of the neighbour loop, as `RelaxEffect` describes it; g-scores are never removed |
| AStar.RelaxAll | Astar.py:56-70 | the neighbour loop's turns applied to the links in list order; g-scores are never removed |
| AStar.RelaxEffectIsStep | Astar.py:57-70 | `RelaxEffect` holds of exactly one new state, the one `RelaxStep` computes, so the single step is fully determined |
| AStar.RelaxAllOneMore | Astar.py:56-70 | relaxing link `k` after the first `k` links gives the fold over the first `k + 1` links, so the loop runs in list order |
| AStar.RelaxAllClosed | Astar.py:57-58 | when every neighbour is already closed, the neighbour loop leaves the open list, scores and back-links as they were |
| AStar.RelaxNeighbors | Astar.py:56-70 | the new open list, g-scores, f-scores and back-links are exactly `RelaxAll` over the current city's neighbour list, in its order and with its costs; from this, every neighbour of the current city ends up closed or open, the open list only grows, by neighbours at priority infinity, without repeats, g-scores only fall, and back-links are only added along links from the current city |
| AStar.PassKeepsSearchState | Astar.py:47-70 | a pass that does not meet the goal keeps the search invariant: open cities distinct and not closed, back-links along edges from earlier-closed cities, start without back-link, every neighbour of a closed city closed or open |
| AStar.PassKeepsPopped | Astar.py:49-54 | closing the popped city keeps the popped list in order: distinct, all closed, the start first |
| AStar.LinkedCityReachable | Astar.py:47-70 | following the back-links from a closed or open city ends at the start, so the start reaches that city |
| AStar.PoppedReachable | Astar.py:49 | every popped city is reachable from the start |
| AStar.PoppedWithinReachable | Astar.py:47-49 | distinct popped cities that the start reaches number at most the reachable cities, and so at most the cities of the table; `AStarSearch`'s ensures meet its requires |
| AStar.PathToGoal | Astar.py:51-52 | at the goal, the path is the back-link chain `reconstruct_path` builds (`FollowsBackLinks`, which with `ReconstructedPathUnique` fixes it), it is a route from the start, `[start]` when start is the goal, and the popped list ending in the goal starts at the start, has no repeats and is reachable |
| AStar.BackLinksGiveRoute | Astar.py:52-53 | the list rebuilt from the back-links at the popped city is a route from the start to that city |
| AStar.BackLinksRanked | Astar.py:75-80 | each back-link leads to a city closed earlier, so `reconstruct_path` terminates |
| AStar.GoalReached | Astar.py:52-53 | at the goal the rebuilt list is a route, and it is `[start]` when start is the goal; the popped list with the goal appended starts at the start, has no repeats and holds only reachable cities |
| AStar.ExhaustedUnreachable | Astar.py:47-72 | when the open list runs out, the goal cannot be reached from the start |
| AStar.RouteStaysInClosedSet | Astar.py:47-72 | a set that holds the start and every neighbour of its members holds every city reachable from the start |
| AStar.SearchPass | Astar.py:47-70 | one pass pops the head of the list (the sort never reorders it) and returns a path exactly when that head is the goal; the path is the back-link chain of `cameFrom` ending at the goal (`FollowsBackLinks`), so `ReconstructedPathUnique` fixes it, and it is a route, and the popped list then starts at the start, has no repeats and is reachable; otherwise it closes just the popped city, its new state is exactly `RelaxAll` over that city's neighbour list applied to the rest of the list, the open list only grows at its end, g-scores only fall, and the search invariant is kept |
| AStar.AStarSearch | Astar.py:39-72 | a result is a route from start to goal; `None` only if the goal is unreachable; `[start]` when start is the goal; the popped list starts with the start, ends with the goal on success, has no repeats, and holds only cities reachable from the start |
| AStar.DistinctWithin | Astar.py:47-54 | a repetition-free list drawn from a set is no longer than the set, which bounds the number of passes |

## Left out

- `main` and the command-line handling are not part of this model. Neither is `read_map`, which fills the table from a hard-coded data set: the table is a parameter.
- `heuristic`: it calls `math.hypot` on float coordinates. It is a parameter `(Coord, Coord) -> real`, and nothing proved depends on its values.
- Python's built-in `hash` is a parameter `K -> int` fixed at construction. Its actual values, which vary per process for strings, are not modelled.
- Floats are modelled as `real`. Rounding, NaN and infinite costs are not modelled. Python's `float('inf')` in priorities is the `Infinite` constructor.
- HashTables.HashTable.constructor: requires `size > 0`. With size 0 the program raises `ZeroDivisionError` on the first `_hash`, and that error is not modelled.
- AStar.AStarSearch: requires the start and goal to be stored, and the whole table to be `WellFormed`: every city has data and every listed neighbour is stored. The table that `read_map` builds meets this. The program itself reads only the start, the goal and the cities it expands or relaxes; when one of those is missing it raises `TypeError` on subscripting `None`, and that crash is not modelled.
- AStar.AStarSearch: states no optimality. Because every pushed entry after the start has priority infinity, the search expands cities in first-in, first-out order, and the returned route need not be the cheapest.
- AStar.ReconstructPath: takes a ghost `rank` that decreases along every back-link, as a termination witness, so it requires the whole `came_from` map to be free of cycles. The program loops forever only on a cycle reachable from `current`; a cycle elsewhere does not stop it. The search supplies the closing order as the rank.
- Mutation of the `[key, value]` pair lists inside a bucket is modelled by replacing the bucket's sequence. No other code holds references to those pairs, so aliasing plays no part.
