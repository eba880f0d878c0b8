/**
 * The best-first search over the city table and the reconstruction of its
 * path. The heuristic (a straight-line distance in the program) is a
 * parameter: nothing proved here depends on its values. The search promises
 * a route whenever one exists and nothing about its length.
 */
module AStar {
  import opened Wrappers
  import opened HashTables
  import opened OpenLists

  type City = string

  /** A city's map coordinates. */
  type Coord = (real, real)

  /** One `(neighbor, cost)` pair of a city's neighbour list. */
  datatype Link = Link(neighbor: City, cost: real)

  /** What the city table stores per city. */
  datatype CityInfo = CityInfo(coords: Coord, neighbors: seq<Link>)

  /** The abstract contents of the city table. */
  type Cities = map<City, Option<CityInfo>>

  /** Every stored city has data, and every neighbour it lists is itself stored. */
  ghost predicate WellFormed(g: Cities)
  {
    forall c | c in g ::
      g[c].Some? && forall k | 0 <= k < |g[c].value.neighbors| :: g[c].value.neighbors[k].neighbor in g
  }

  /** `b` appears in the neighbour list of `a`. */
  ghost predicate HasEdge(g: Cities, a: City, b: City)
  {
    a in g && g[a].Some? &&
    exists k :: 0 <= k < |g[a].value.neighbors| && g[a].value.neighbors[k].neighbor == b
  }

  /** `p` leads from `start` to `goal`, each step along a neighbour link. */
  ghost predicate IsRoute(g: Cities, p: seq<City>, start: City, goal: City)
  {
    && |p| > 0
    && p[0] == start
    && p[|p| - 1] == goal
    && forall i | 0 <= i < |p| - 1 :: HasEdge(g, p[i], p[i + 1])
  }

  ghost predicate Reachable(g: Cities, start: City, goal: City)
  {
    exists p :: IsRoute(g, p, start, goal)
  }

  /** The cities of the table that `start` can reach. */
  ghost function ReachableFrom(g: Cities, start: City): (r: set<City>)
    ensures r <= g.Keys
  {
    set c | c in g && Reachable(g, start, c)
  }

  /** A route to `a` followed by a link from `a` to `b` is a route to `b`. */
  lemma ExtendRoute(g: Cities, p: seq<City>, start: City, a: City, b: City)
    requires IsRoute(g, p, start, a) && HasEdge(g, a, b)
    ensures IsRoute(g, p + [b], start, b)
  {
    var q := p + [b];
    forall i | 0 <= i < |q| - 1 ensures HasEdge(g, q[i], q[i + 1]) {
      if i < |p| - 1 {
        assert q[i] == p[i] && q[i + 1] == p[i + 1];
      }
    }
  }

  /** A set that holds `start` and every neighbour of its members holds every city reachable from `start`. */
  lemma {:induction false} RouteStaysInClosedSet(g: Cities, s: set<City>, p: seq<City>, start: City, goal: City)
    requires start in s
    requires forall a, b | a in s && HasEdge(g, a, b) :: b in s
    requires IsRoute(g, p, start, goal)
    ensures goal in s
  {
    if |p| > 1 {
      RouteStaysInClosedSet(g, s, p[..|p| - 1], start, p[|p| - 2]);
    }
  }

  /** A list without repetitions drawn from a set is no longer than the set. */
  lemma {:induction false} DistinctWithin<T>(s: seq<T>, universe: set<T>)
    requires Distinct(s)
    requires forall i | 0 <= i < |s| :: s[i] in universe
    ensures |s| <= |universe|
  {
    if s != [] {
      DistinctWithin(s[1..], universe - {s[0]});
    }
  }

  /** `total_path[::-1]`: the same elements, last first. */
  function Reverse<T>(s: seq<T>): (r: seq<T>)
    ensures |r| == |s|
    ensures s != [] ==> r[0] == s[|s| - 1] && r[|r| - 1] == s[0]
  {
    seq(|s|, i requires 0 <= i < |s| => s[|s| - 1 - i])
  }

  /** Reversing twice gives the list back. */
  lemma ReverseReverse<T>(s: seq<T>)
    ensures Reverse(Reverse(s)) == s
  {
  }

  /**
   * `p` is the chain `reconstruct_path` builds: it starts at a city without a
   * back-link, and each later city's back-link is the city before it.
   */
  ghost predicate FollowsBackLinks(cameFrom: map<City, City>, p: seq<City>)
  {
    && |p| > 0
    && p[0] !in cameFrom
    && forall i | 0 < i < |p| :: p[i] in cameFrom && cameFrom[p[i]] == p[i - 1]
  }

  /**
   * `reconstruct_path`: follows the `cameFrom` links back from `current` and
   * returns them in forward order. `rank` witnesses that the links have no
   * cycle: each link leads to a city of smaller rank.
   */
  method ReconstructPath(cameFrom: map<City, City>, current: City, ghost rank: City -> nat) returns (path: seq<City>)
    requires forall n | n in cameFrom :: rank(cameFrom[n]) < rank(n)
    ensures |path| > 0 && path[|path| - 1] == current
    ensures FollowsBackLinks(cameFrom, path)
    ensures current !in cameFrom ==> path == [current]
  {
    var totalPath := [current];
    var node := current;
    while node in cameFrom
      invariant |totalPath| > 0 && totalPath[0] == current && totalPath[|totalPath| - 1] == node
      invariant forall i | 0 <= i < |totalPath| - 1 ::
        totalPath[i] in cameFrom && cameFrom[totalPath[i]] == totalPath[i + 1]
      decreases rank(node)
    {
      node := cameFrom[node];
      totalPath := totalPath + [node];
    }
    path := Reverse(totalPath);
  }

  /** Two lists that both meet the contract of `ReconstructPath` are the same list. */
  lemma {:induction false} ReconstructedPathUnique(cameFrom: map<City, City>, current: City, p: seq<City>, q: seq<City>)
    requires FollowsBackLinks(cameFrom, p) && p[|p| - 1] == current
    requires FollowsBackLinks(cameFrom, q) && q[|q| - 1] == current
    ensures p == q
    decreases |p|
  {
    if current in cameFrom {
      assert |p| > 1 && |q| > 1;
      ReconstructedPathUnique(cameFrom, cameFrom[current], p[..|p| - 1], q[..|q| - 1]);
      assert p == p[..|p| - 1] + [current];
      assert q == q[..|q| - 1] + [current];
    } else {
      assert |p| == 1 && |q| == 1;
    }
  }

  /**
   * The bookkeeping the loop keeps about the open list: no city twice, none
   * of them closed, a g-score exactly for the closed and open cities, and an
   * f-score only where there is a g-score.
   */
  ghost predicate Frontier(closed: set<City>, open: seq<OpenEntry<City>>, gScore: map<City, real>, fScore: map<City, real>)
  {
    && Distinct(Nodes(open))
    && (forall n | n in Nodes(open) :: n !in closed)
    && (forall n :: n in gScore <==> n in closed || n in Nodes(open))
    && (forall n | n in fScore :: n in gScore)
  }

  /**
   * Expanding `current` only appends to the open list, and only neighbours
   * of `current`, with priority infinity.
   */
  ghost predicate OpenGrows(g: Cities, current: City, open: seq<OpenEntry<City>>, open': seq<OpenEntry<City>>)
  {
    && |open| <= |open'| && open'[..|open|] == open
    && (forall n | n in Nodes(open') && n !in Nodes(open) :: HasEdge(g, current, n))
    && (forall i | |open| <= i < |open'| :: open'[i].priority == Infinite)
  }

  /**
   * Expanding `current` never raises a g-score and leaves those of closed
   * cities alone; a g-score changes only together with a back-link to
   * `current`; back-links are only added or redirected to `current`, for
   * cities that are not closed and that `current` links to.
   */
  ghost predicate ScoresImprove(g: Cities, current: City, closed: set<City>,
                                gScore: map<City, real>, cameFrom: map<City, City>,
                                gScore': map<City, real>, cameFrom': map<City, City>)
  {
    && (forall n | n in gScore :: n in gScore' && gScore'[n] <= gScore[n])
    && (forall n | n in closed && n in gScore :: gScore'[n] == gScore[n])
    && (forall n | n in gScore' && (n !in gScore || gScore'[n] != gScore[n]) :: n in cameFrom' && cameFrom'[n] == current)
    && (forall n | n in cameFrom :: n in cameFrom')
    && (forall n | n in cameFrom' ::
          (n in cameFrom && cameFrom'[n] == cameFrom[n]) ||
          (cameFrom'[n] == current && n !in closed && HasEdge(g, current, n)))
  }

  lemma OpenGrowsTransitive(g: Cities, current: City,
                            open: seq<OpenEntry<City>>, open': seq<OpenEntry<City>>, open'': seq<OpenEntry<City>>)
    requires OpenGrows(g, current, open, open') && OpenGrows(g, current, open', open'')
    ensures OpenGrows(g, current, open, open'')
  {
    assert open''[..|open|] == open''[..|open'|][..|open|];
    ExtendNodes(open, open');
  }

  lemma ScoresImproveTransitive(g: Cities, current: City, closed: set<City>,
                                gScore: map<City, real>, cameFrom: map<City, City>,
                                gScore': map<City, real>, cameFrom': map<City, City>,
                                gScore'': map<City, real>, cameFrom'': map<City, City>)
    requires ScoresImprove(g, current, closed, gScore, cameFrom, gScore', cameFrom')
    requires ScoresImprove(g, current, closed, gScore', cameFrom', gScore'', cameFrom'')
    ensures ScoresImprove(g, current, closed, gScore, cameFrom, gScore'', cameFrom'')
  {
  }

  /** Appending a city that is neither closed nor open keeps the open list free of repeats and of closed cities. */
  lemma AppendKeepsOpen(closed: set<City>, open: seq<OpenEntry<City>>, e: OpenEntry<City>)
    requires Distinct(Nodes(open)) && (forall n | n in Nodes(open) :: n !in closed)
    requires e.node !in closed && e.node !in Nodes(open)
    ensures Distinct(Nodes(open + [e])) && (forall n | n in Nodes(open + [e]) :: n !in closed)
    ensures forall n :: n in Nodes(open + [e]) <==> n in Nodes(open) || n == e.node
  {
    AppendNodes(open, e);
  }

  /** `f_score.get(n, float('inf'))`: infinity exactly for a city without an f-score. */
  function ScoreOrInfinity(fScore: map<City, real>, n: City): (p: Priority)
    ensures p == Infinite <==> n !in fScore
    ensures n in fScore ==> p.score == fScore[n]
  {
    if n in fScore then Finite(fScore[n]) else Infinite
  }

  /**
   * The outcome of the body of the neighbour loop of `a_star_search` for one
   * `(neighbor, cost)` pair of `current`: a closed neighbour is skipped;
   * otherwise it is appended to the open list unless it is there, with
   * `f_score.get(neighbor, inf)`, and when the route through `current` is
   * strictly cheaper than the known one (or there is none) the back-link,
   * g-score and f-score of the neighbour are set; nothing else changes.
   */
  ghost predicate RelaxEffect(
    g: Cities, heuristic: (Coord, Coord) -> real, goal: City, current: City, neighbor: City, cost: real,
    closed: set<City>, open: seq<OpenEntry<City>>,
    gScore: map<City, real>, fScore: map<City, real>, cameFrom: map<City, City>,
    open': seq<OpenEntry<City>>, gScore': map<City, real>, fScore': map<City, real>, cameFrom': map<City, City>)
  {
    if neighbor in closed then
      open' == open && gScore' == gScore && fScore' == fScore && cameFrom' == cameFrom
    else
      && open' == (if neighbor in Nodes(open) then open else open + [OpenEntry(ScoreOrInfinity(fScore, neighbor), neighbor)])
      && current in gScore
      && ImproveEffect(g, heuristic, goal, current, neighbor, gScore[current] + cost,
                       gScore, fScore, cameFrom, gScore', fScore', cameFrom')
  }

  /**
   * The score update of that loop body, given `tentative_g_score`: when it is
   * below the neighbour's g-score, or the neighbour has none, the neighbour's
   * back-link becomes `current`, its g-score `tentative` and its f-score
   * `tentative` plus the heuristic estimate to the goal; otherwise nothing changes.
   */
  ghost predicate ImproveEffect(
    g: Cities, heuristic: (Coord, Coord) -> real, goal: City, current: City, neighbor: City, tentative: real,
    gScore: map<City, real>, fScore: map<City, real>, cameFrom: map<City, City>,
    gScore': map<City, real>, fScore': map<City, real>, cameFrom': map<City, City>)
  {
    && neighbor in g && g[neighbor].Some? && goal in g && g[goal].Some?
    && if neighbor !in gScore || tentative < gScore[neighbor] then
         && cameFrom' == cameFrom[neighbor := current]
         && gScore' == gScore[neighbor := tentative]
         && fScore' == fScore[neighbor := tentative + heuristic(g[neighbor].value.coords, g[goal].value.coords)]
       else
         cameFrom' == cameFrom && gScore' == gScore && fScore' == fScore
  }

  /** The open list, g-scores, f-scores and back-links that the neighbour loop updates. */
  type Work = (seq<OpenEntry<City>>, map<City, real>, map<City, real>, map<City, City>)

  /**
   * The state after the neighbour loop's body for `link`, as `RelaxEffect`
   * describes it, computed from the state `w` before it. The two methods of
   * the loop body are specified by the predicates, which split the step
   * where the methods split it; the fold over the loop needs a value, and
   * `RelaxEffectIsStep` shows that both forms describe the same state.
   */
  ghost function RelaxStep(g: Cities, heuristic: (Coord, Coord) -> real, goal: City, current: City,
                           closed: set<City>, link: Link, w: Work): (r: Work)
    requires current in w.1 && goal in g && g[goal].Some?
    requires link.neighbor in g && g[link.neighbor].Some?
    ensures w.1.Keys <= r.1.Keys
  {
    var (open, gScore, fScore, cameFrom) := w;
    var n := link.neighbor;
    if n in closed then w
    else
      var open' := if n in Nodes(open) then open else open + [OpenEntry(ScoreOrInfinity(fScore, n), n)];
      var tentative := gScore[current] + link.cost;
      if n !in gScore || tentative < gScore[n] then
        (open', gScore[n := tentative], fScore[n := tentative + heuristic(g[n].value.coords, g[goal].value.coords)],
         cameFrom[n := current])
      else
        (open', gScore, fScore, cameFrom)
  }

  /** The links a neighbour loop may run over: every far end is stored with data. */
  ghost predicate LinksStored(g: Cities, links: seq<Link>)
  {
    forall k | 0 <= k < |links| :: links[k].neighbor in g && g[links[k].neighbor].Some?
  }

  /** The neighbour loop's body applied to `links` from first to last, starting from `w`. */
  ghost function RelaxAll(g: Cities, heuristic: (Coord, Coord) -> real, goal: City, current: City,
                          closed: set<City>, links: seq<Link>, w: Work): (r: Work)
    requires current in w.1 && goal in g && g[goal].Some? && LinksStored(g, links)
    ensures w.1.Keys <= r.1.Keys
    decreases |links|
  {
    if links == [] then w
    else
      var last := links[|links| - 1];
      RelaxStep(g, heuristic, goal, current, closed, last, RelaxAll(g, heuristic, goal, current, closed, links[..|links| - 1], w))
  }

  /** `RelaxEffect` describes exactly one state: the one `RelaxStep` computes. */
  lemma RelaxEffectIsStep(
    g: Cities, heuristic: (Coord, Coord) -> real, goal: City, current: City, link: Link,
    closed: set<City>, w: Work, w': Work)
    requires current in w.1 && goal in g && g[goal].Some? && link.neighbor in g && g[link.neighbor].Some?
    ensures RelaxEffect(g, heuristic, goal, current, link.neighbor, link.cost, closed, w.0, w.1, w.2, w.3, w'.0, w'.1, w'.2, w'.3)
        <==> w' == RelaxStep(g, heuristic, goal, current, closed, link, w)
  {
  }

  /** When every far end is already closed, the neighbour loop changes nothing. */
  lemma {:induction false} RelaxAllClosed(g: Cities, heuristic: (Coord, Coord) -> real, goal: City, current: City,
                                          closed: set<City>, links: seq<Link>, w: Work)
    requires current in w.1 && goal in g && g[goal].Some? && LinksStored(g, links)
    requires forall k | 0 <= k < |links| :: links[k].neighbor in closed
    ensures RelaxAll(g, heuristic, goal, current, closed, links, w) == w
    decreases |links|
  {
    if links != [] {
      RelaxAllClosed(g, heuristic, goal, current, closed, links[..|links| - 1], w);
    }
  }

  /** One more turn of the neighbour loop extends the fold by the next link. */
  lemma RelaxAllOneMore(
    g: Cities, heuristic: (Coord, Coord) -> real, goal: City, current: City,
    closed: set<City>, links: seq<Link>, k: nat, w: Work, w': Work, w'': Work)
    requires k < |links| && current in w.1 && goal in g && g[goal].Some? && LinksStored(g, links)
    requires w' == RelaxAll(g, heuristic, goal, current, closed, links[..k], w)
    requires RelaxEffect(g, heuristic, goal, current, links[k].neighbor, links[k].cost, closed,
                         w'.0, w'.1, w'.2, w'.3, w''.0, w''.1, w''.2, w''.3)
    ensures w'' == RelaxAll(g, heuristic, goal, current, closed, links[..k + 1], w)
  {
    assert links[..k + 1][..k] == links[..k];
    RelaxEffectIsStep(g, heuristic, goal, current, links[k], closed, w', w'');
  }

  /**
   * The body of the neighbour loop of `a_star_search` for one `(neighbor, cost)`
   * pair of the closed city `current`. It does what `RelaxEffect` says,
   * and so keeps the open-list bookkeeping and only lowers g-scores.
   */
  method RelaxNeighbor(
    cities: HashTable<City, CityInfo>, heuristic: (Coord, Coord) -> real, goal: City, current: City,
    neighbor: City, cost: real, closed: set<City>, open: seq<OpenEntry<City>>,
    gScore: map<City, real>, fScore: map<City, real>, cameFrom: map<City, City>)
    returns (open': seq<OpenEntry<City>>, gScore': map<City, real>, fScore': map<City, real>, cameFrom': map<City, City>)
    requires cities.Valid() && WellFormed(cities.Contents)
    requires goal in cities.Contents && current in closed
    requires HasEdge(cities.Contents, current, neighbor)
    requires Frontier(closed, open, gScore, fScore)
    ensures RelaxEffect(cities.Contents, heuristic, goal, current, neighbor, cost, closed, open, gScore, fScore, cameFrom,
                        open', gScore', fScore', cameFrom')
    ensures Frontier(closed, open', gScore', fScore')
    ensures OpenGrows(cities.Contents, current, open, open')
    ensures ScoresImprove(cities.Contents, current, closed, gScore, cameFrom, gScore', cameFrom')
    ensures neighbor in closed || neighbor in Nodes(open')
  {
    open', gScore', fScore', cameFrom' := open, gScore, fScore, cameFrom;
    if neighbor !in closed {
      LinkTargetStored(cities.Contents, current, neighbor);
      var tentative := gScore[current] + cost;
      if neighbor !in Nodes(open) {
        open' := open + [OpenEntry(ScoreOrInfinity(fScore, neighbor), neighbor)];
      }
      gScore', fScore', cameFrom' := ImproveNeighbor(cities, heuristic, goal, current, neighbor, tentative, gScore, fScore, cameFrom);
    }
    RelaxedNeighbor(cities.Contents, heuristic, goal, current, neighbor, cost, closed, open, gScore, fScore, cameFrom,
                    open', gScore', fScore', cameFrom');
  }

  /**
   * The end of the neighbour loop's body: unless `tentative_g_score >=
   * g_score.get(neighbor, inf)` skips it, the neighbour's back-link, g-score
   * and f-score are set.
   */
  method ImproveNeighbor(
    cities: HashTable<City, CityInfo>, heuristic: (Coord, Coord) -> real, goal: City, current: City,
    neighbor: City, tentative: real, gScore: map<City, real>, fScore: map<City, real>, cameFrom: map<City, City>)
    returns (gScore': map<City, real>, fScore': map<City, real>, cameFrom': map<City, City>)
    requires cities.Valid()
    requires neighbor in cities.Contents && cities.Contents[neighbor].Some?
    requires goal in cities.Contents && cities.Contents[goal].Some?
    ensures ImproveEffect(cities.Contents, heuristic, goal, current, neighbor, tentative,
                          gScore, fScore, cameFrom, gScore', fScore', cameFrom')
  {
    gScore', fScore', cameFrom' := gScore, fScore, cameFrom;
    if neighbor !in gScore || tentative < gScore[neighbor] {
      cameFrom' := cameFrom[neighbor := current];
      gScore' := gScore[neighbor := tentative];
      var neighborInfo := cities.Get(neighbor);
      var goalInfo := cities.Get(goal);
      fScore' := fScore[neighbor := gScore'[neighbor] + heuristic(neighborInfo.value.coords, goalInfo.value.coords)];
    }
  }

  /** The far end of a neighbour link is stored, with data. */
  lemma LinkTargetStored(g: Cities, a: City, b: City)
    requires WellFormed(g) && HasEdge(g, a, b)
    ensures b in g && g[b].Some?
  {
    var k :| 0 <= k < |g[a].value.neighbors| && g[a].value.neighbors[k].neighbor == b;
  }

  /** Relaxing one link keeps the bookkeeping and only improves. */
  lemma RelaxedNeighbor(
    g: Cities, heuristic: (Coord, Coord) -> real, goal: City, current: City, neighbor: City, cost: real,
    closed: set<City>, open: seq<OpenEntry<City>>,
    gScore: map<City, real>, fScore: map<City, real>, cameFrom: map<City, City>,
    open': seq<OpenEntry<City>>, gScore': map<City, real>, fScore': map<City, real>, cameFrom': map<City, City>)
    requires current in closed && HasEdge(g, current, neighbor)
    requires Frontier(closed, open, gScore, fScore)
    requires RelaxEffect(g, heuristic, goal, current, neighbor, cost, closed, open, gScore, fScore, cameFrom,
                         open', gScore', fScore', cameFrom')
    ensures Frontier(closed, open', gScore', fScore')
    ensures OpenGrows(g, current, open, open')
    ensures ScoresImprove(g, current, closed, gScore, cameFrom, gScore', cameFrom')
    ensures neighbor in closed || neighbor in Nodes(open')
  {
    if neighbor !in closed && neighbor !in Nodes(open) {
      // a city that is neither closed nor open has no f-score yet
      assert ScoreOrInfinity(fScore, neighbor) == Infinite;
      AppendKeepsOpen(closed, open, OpenEntry(Infinite, neighbor));
    }
  }

  /**
   * The neighbour loop of `a_star_search`: relaxes every neighbour link of the closed
   * city `current`, in list order. Afterwards every neighbour of `current`
   * is closed or open.
   */
  method RelaxNeighbors(
    cities: HashTable<City, CityInfo>, heuristic: (Coord, Coord) -> real, goal: City, current: City,
    closed: set<City>, open: seq<OpenEntry<City>>,
    gScore: map<City, real>, fScore: map<City, real>, cameFrom: map<City, City>)
    returns (open': seq<OpenEntry<City>>, gScore': map<City, real>, fScore': map<City, real>, cameFrom': map<City, City>)
    requires cities.Valid() && WellFormed(cities.Contents)
    requires current in cities.Contents && goal in cities.Contents
    requires current in closed
    requires Frontier(closed, open, gScore, fScore)
    ensures Frontier(closed, open', gScore', fScore')
    ensures OpenGrows(cities.Contents, current, open, open')
    ensures ScoresImprove(cities.Contents, current, closed, gScore, cameFrom, gScore', cameFrom')
    ensures forall n | HasEdge(cities.Contents, current, n) :: n in closed || n in Nodes(open')
    ensures NeighborsStored(cities.Contents, current) &&
            (open', gScore', fScore', cameFrom') ==
            RelaxAll(cities.Contents, heuristic, goal, current, closed, cities.Contents[current].value.neighbors,
                     (open, gScore, fScore, cameFrom))
  {
    ghost var g := cities.Contents;
    var info := cities.Get(current);
    var neighbors := info.value.neighbors;
    NeighborLinksStored(g, current);
    open', gScore', fScore', cameFrom' := open, gScore, fScore, cameFrom;
    for k := 0 to |neighbors|
      invariant RelaxedUpTo(g, current, closed, neighbors, k, open, gScore, cameFrom, open', gScore', fScore', cameFrom')
      invariant (open', gScore', fScore', cameFrom') ==
                RelaxAll(g, heuristic, goal, current, closed, neighbors[..k], (open, gScore, fScore, cameFrom))
    {
      assert HasEdge(g, current, neighbors[k].neighbor);
      var open2, gScore2, fScore2, cameFrom2 :=
        RelaxNeighbor(cities, heuristic, goal, current, neighbors[k].neighbor, neighbors[k].cost,
                      closed, open', gScore', fScore', cameFrom');
      RelaxedOneMore(g, current, closed, neighbors, k, open, gScore, cameFrom,
                     open', gScore', fScore', cameFrom', open2, gScore2, fScore2, cameFrom2);
      RelaxAllOneMore(g, heuristic, goal, current, closed, neighbors, k, (open, gScore, fScore, cameFrom),
                      (open', gScore', fScore', cameFrom'), (open2, gScore2, fScore2, cameFrom2));
      open', gScore', fScore', cameFrom' := open2, gScore2, fScore2, cameFrom2;
    }
    assert neighbors[..|neighbors|] == neighbors;
    RelaxedAll(g, current, closed, neighbors, open, gScore, cameFrom, open', gScore', fScore', cameFrom');
  }

  /** `current` is stored with data, and so is the far end of each of its links. */
  ghost predicate NeighborsStored(g: Cities, current: City)
  {
    current in g && g[current].Some? && LinksStored(g, g[current].value.neighbors)
  }

  lemma NeighborLinksStored(g: Cities, current: City)
    requires WellFormed(g) && current in g
    ensures NeighborsStored(g, current)
  {
  }

  /** The loop invariant of `RelaxNeighbors` after the first `k` links. */
  ghost predicate RelaxedUpTo(g: Cities, current: City, closed: set<City>, neighbors: seq<Link>, k: nat,
                              open: seq<OpenEntry<City>>, gScore: map<City, real>, cameFrom: map<City, City>,
                              open': seq<OpenEntry<City>>, gScore': map<City, real>, fScore': map<City, real>,
                              cameFrom': map<City, City>)
  {
    && k <= |neighbors|
    && Frontier(closed, open', gScore', fScore')
    && OpenGrows(g, current, open, open')
    && ScoresImprove(g, current, closed, gScore, cameFrom, gScore', cameFrom')
    && forall m | 0 <= m < k :: neighbors[m].neighbor in closed || neighbors[m].neighbor in Nodes(open')
  }

  lemma RelaxedOneMore(g: Cities, current: City, closed: set<City>, neighbors: seq<Link>, k: nat,
                       open: seq<OpenEntry<City>>, gScore: map<City, real>, cameFrom: map<City, City>,
                       open': seq<OpenEntry<City>>, gScore': map<City, real>, fScore': map<City, real>,
                       cameFrom': map<City, City>,
                       open2: seq<OpenEntry<City>>, gScore2: map<City, real>, fScore2: map<City, real>,
                       cameFrom2: map<City, City>)
    requires k < |neighbors|
    requires RelaxedUpTo(g, current, closed, neighbors, k, open, gScore, cameFrom, open', gScore', fScore', cameFrom')
    requires Frontier(closed, open2, gScore2, fScore2)
    requires OpenGrows(g, current, open', open2)
    requires ScoresImprove(g, current, closed, gScore', cameFrom', gScore2, cameFrom2)
    requires neighbors[k].neighbor in closed || neighbors[k].neighbor in Nodes(open2)
    ensures RelaxedUpTo(g, current, closed, neighbors, k + 1, open, gScore, cameFrom, open2, gScore2, fScore2, cameFrom2)
  {
    OpenGrowsTransitive(g, current, open, open', open2);
    ScoresImproveTransitive(g, current, closed, gScore, cameFrom, gScore', cameFrom', gScore2, cameFrom2);
    ExtendNodes(open', open2);
  }

  lemma RelaxedAll(g: Cities, current: City, closed: set<City>, neighbors: seq<Link>,
                   open: seq<OpenEntry<City>>, gScore: map<City, real>, cameFrom: map<City, City>,
                   open': seq<OpenEntry<City>>, gScore': map<City, real>, fScore': map<City, real>,
                   cameFrom': map<City, City>)
    requires current in g && g[current].Some? && neighbors == g[current].value.neighbors
    requires RelaxedUpTo(g, current, closed, neighbors, |neighbors|, open, gScore, cameFrom, open', gScore', fScore', cameFrom')
    ensures forall n | HasEdge(g, current, n) :: n in closed || n in Nodes(open')
  {
  }

  /**
   * What holds of the search state at the head of each pass of the loop.
   * `order` gives each closed city the position at which it was taken off
   * the open list; `popped` lists those cities in that order.
   */
  ghost predicate SearchState(g: Cities, start: City, goal: City,
                              open: seq<OpenEntry<City>>, closed: set<City>,
                              gScore: map<City, real>, fScore: map<City, real>, cameFrom: map<City, City>,
                              order: map<City, nat>, popped: seq<City>)
  {
    && Frontier(closed, open, gScore, fScore)
    && InTable(g, open, closed)
    && goal !in closed
    && PriorityShape(start, open, closed, cameFrom)
    && BackLinks(g, start, open, closed, cameFrom, order, popped)
    && NeighborsSeen(g, open, closed)
    && PoppedInOrder(start, closed, popped)
  }

  /**
   * The cities popped so far, in order: the closed cities, none twice, the
   * start first.
   */
  ghost predicate PoppedInOrder(start: City, closed: set<City>, popped: seq<City>)
  {
    && Distinct(popped) && (forall i | 0 <= i < |popped| :: popped[i] in closed)
    && (popped == [] <==> closed == {})
    && (popped != [] ==> popped[0] == start)
  }

  /** Every closed or open city is in the table. */
  ghost predicate InTable(g: Cities, open: seq<OpenEntry<City>>, closed: set<City>)
  {
    closed <= g.Keys && forall n | n in Nodes(open) :: n in g
  }

  /**
   * Before the first pass only the start is open, at priority 0; afterwards
   * the start is closed and every open entry has priority infinity.
   */
  ghost predicate PriorityShape(start: City, open: seq<OpenEntry<City>>, closed: set<City>, cameFrom: map<City, City>)
  {
    && (closed == {} ==> open == [OpenEntry(Finite(0.0), start)] && cameFrom == map[])
    && (closed != {} ==> start in closed && forall i | 0 <= i < |open| :: open[i].priority == Infinite)
  }

  /** Every neighbour of a closed city is closed or open. */
  ghost predicate NeighborsSeen(g: Cities, open: seq<OpenEntry<City>>, closed: set<City>)
  {
    forall a, b | a in closed && HasEdge(g, a, b) :: b in closed || b in Nodes(open)
  }

  /**
   * The back-links: every closed or open city but the start has one; each
   * leads along a neighbour link from a closed city that was closed earlier.
   */
  ghost predicate BackLinks(g: Cities, start: City, open: seq<OpenEntry<City>>, closed: set<City>,
                            cameFrom: map<City, City>, order: map<City, nat>, popped: seq<City>)
  {
    && start !in cameFrom
    && (forall n | n in closed && n != start :: n in cameFrom)
    && (forall n | n in Nodes(open) && n != start :: n in cameFrom)
    && (forall n | n in cameFrom :: cameFrom[n] in closed && HasEdge(g, cameFrom[n], n))
    && order.Keys == closed && (forall n | n in order :: order[n] < |popped|)
    && (forall n | n in cameFrom && n in closed :: order[cameFrom[n]] < order[n])
  }

  /** Closing the head of the open list keeps the open-list bookkeeping. */
  lemma PopKeepsFrontier(closed: set<City>, open: seq<OpenEntry<City>>, gScore: map<City, real>, fScore: map<City, real>)
    requires Frontier(closed, open, gScore, fScore) && open != []
    ensures Frontier(closed + {open[0].node}, open[1..], gScore, fScore)
  {
    PopNodes(open);
  }

  lemma PassKeepsInTable(g: Cities, open: seq<OpenEntry<City>>, closed: set<City>, open': seq<OpenEntry<City>>)
    requires WellFormed(g) && InTable(g, open, closed) && open != [] && Distinct(Nodes(open))
    requires OpenGrows(g, open[0].node, open[1..], open')
    ensures InTable(g, open', closed + {open[0].node})
  {
    PopNodes(open);
  }

  lemma PassKeepsPriorityShape(start: City, open: seq<OpenEntry<City>>, closed: set<City>, cameFrom: map<City, City>,
                               g: Cities, open': seq<OpenEntry<City>>, cameFrom': map<City, City>)
    requires PriorityShape(start, open, closed, cameFrom) && open != []
    requires OpenGrows(g, open[0].node, open[1..], open')
    ensures PriorityShape(start, open', closed + {open[0].node}, cameFrom')
  {
    forall i | 0 <= i < |open'| ensures open'[i].priority == Infinite {
      if i < |open| - 1 {
        assert open'[i] == open[i + 1];
      }
    }
  }

  lemma PassKeepsNeighborsSeen(g: Cities, open: seq<OpenEntry<City>>, closed: set<City>, open': seq<OpenEntry<City>>)
    requires NeighborsSeen(g, open, closed) && open != [] && Distinct(Nodes(open))
    requires |open| - 1 <= |open'| && open'[..|open| - 1] == open[1..]
    requires forall n | HasEdge(g, open[0].node, n) :: n in closed + {open[0].node} || n in Nodes(open')
    ensures NeighborsSeen(g, open', closed + {open[0].node})
  {
    PopNodes(open);
    ExtendNodes(open[1..], open');
  }

  lemma PassKeepsBackLinks(g: Cities, start: City, open: seq<OpenEntry<City>>, closed: set<City>,
                           cameFrom: map<City, City>, order: map<City, nat>, popped: seq<City>,
                           open': seq<OpenEntry<City>>, cameFrom': map<City, City>)
    requires BackLinks(g, start, open, closed, cameFrom, order, popped)
    requires open != [] && open[0].node !in closed && Distinct(Nodes(open))
    requires closed == {} ==> open == [OpenEntry(Finite(0.0), start)]
    requires closed != {} ==> start in closed
    requires |open| - 1 <= |open'| && open'[..|open| - 1] == open[1..]
    requires forall n | n in Nodes(open') && n !in Nodes(open[1..]) :: n in cameFrom'
    requires forall n | n in cameFrom :: n in cameFrom'
    requires forall n | n in cameFrom' ::
          (n in cameFrom && cameFrom'[n] == cameFrom[n]) ||
          (cameFrom'[n] == open[0].node && n !in closed + {open[0].node} && HasEdge(g, open[0].node, n))
    ensures BackLinks(g, start, open', closed + {open[0].node}, cameFrom',
                      order[open[0].node := |popped|], popped + [open[0].node])
  {
    PassKeepsLinked(g, start, open, closed, cameFrom, order, popped, open', cameFrom');
    PassKeepsLinkOrder(g, start, open, closed, cameFrom, order, popped, cameFrom');
  }

  /** After a pass every closed or open city but the start still has a back-link, and the start has none. */
  lemma PassKeepsLinked(g: Cities, start: City, open: seq<OpenEntry<City>>, closed: set<City>,
                        cameFrom: map<City, City>, order: map<City, nat>, popped: seq<City>,
                        open': seq<OpenEntry<City>>, cameFrom': map<City, City>)
    requires BackLinks(g, start, open, closed, cameFrom, order, popped)
    requires open != [] && open[0].node !in closed && Distinct(Nodes(open))
    requires closed == {} ==> open == [OpenEntry(Finite(0.0), start)]
    requires closed != {} ==> start in closed
    requires forall n | n in Nodes(open') && n !in Nodes(open[1..]) :: n in cameFrom'
    requires forall n | n in cameFrom :: n in cameFrom'
    requires forall n | n in cameFrom' ::
          (n in cameFrom && cameFrom'[n] == cameFrom[n]) || (cameFrom'[n] == open[0].node && n !in closed + {open[0].node})
    ensures start !in cameFrom'
    ensures forall n | n in closed + {open[0].node} && n != start :: n in cameFrom'
    ensures forall n | n in Nodes(open') && n != start :: n in cameFrom'
  {
    var closed' := closed + {open[0].node};
    PopNodes(open);
    assert start in closed';
    forall n | n in closed' && n != start ensures n in cameFrom' {
      assert n in cameFrom;
    }
    forall n | n in Nodes(open') && n != start ensures n in cameFrom' {
      if n in Nodes(open[1..]) {
        assert n in cameFrom;
      }
    }
  }

  /** After a pass each back-link still leads along a link from a city closed earlier. */
  lemma PassKeepsLinkOrder(g: Cities, start: City, open: seq<OpenEntry<City>>, closed: set<City>,
                           cameFrom: map<City, City>, order: map<City, nat>, popped: seq<City>,
                           cameFrom': map<City, City>)
    requires BackLinks(g, start, open, closed, cameFrom, order, popped)
    requires open != [] && open[0].node !in closed
    requires forall n | n in cameFrom' ::
          (n in cameFrom && cameFrom'[n] == cameFrom[n]) ||
          (cameFrom'[n] == open[0].node && n !in closed + {open[0].node} && HasEdge(g, open[0].node, n))
    ensures forall n | n in cameFrom' :: cameFrom'[n] in closed + {open[0].node} && HasEdge(g, cameFrom'[n], n)
    ensures forall n | n in cameFrom' && n in closed + {open[0].node} ::
      order[open[0].node := |popped|][cameFrom'[n]] < order[open[0].node := |popped|][n]
  {
    var current := open[0].node;
    var closed', order' := closed + {current}, order[current := |popped|];
    forall n | n in cameFrom' && n in closed' ensures order'[cameFrom'[n]] < order'[n] {
      assert cameFrom'[n] == cameFrom[n] && cameFrom[n] in closed;
    }
  }

  /** One pass of the loop that does not reach the goal keeps `SearchState`. */
  lemma PassKeepsSearchState(g: Cities, start: City, goal: City,
                             open: seq<OpenEntry<City>>, closed: set<City>,
                             gScore: map<City, real>, fScore: map<City, real>, cameFrom: map<City, City>,
                             order: map<City, nat>, popped: seq<City>,
                             open': seq<OpenEntry<City>>, gScore': map<City, real>, fScore': map<City, real>,
                             cameFrom': map<City, City>)
    requires SearchState(g, start, goal, open, closed, gScore, fScore, cameFrom, order, popped)
    requires WellFormed(g) && open != [] && open[0].node != goal
    requires Frontier(closed + {open[0].node}, open', gScore', fScore')
    requires OpenGrows(g, open[0].node, open[1..], open')
    requires ScoresImprove(g, open[0].node, closed + {open[0].node}, gScore, cameFrom, gScore', cameFrom')
    requires forall n | HasEdge(g, open[0].node, n) :: n in closed + {open[0].node} || n in Nodes(open')
    ensures SearchState(g, start, goal, open', closed + {open[0].node}, gScore', fScore', cameFrom',
                        order[open[0].node := |popped|], popped + [open[0].node])
  {
    var current := open[0].node;
    PopNodes(open);
    PassKeepsInTable(g, open, closed, open');
    PassKeepsPriorityShape(start, open, closed, cameFrom, g, open', cameFrom');
    PassKeepsNeighborsSeen(g, open, closed, open');
    NewlyOpenLinked(g, current, closed + {current}, open[1..], gScore, cameFrom, open', gScore', fScore', cameFrom');
    PassKeepsBackLinks(g, start, open, closed, cameFrom, order, popped, open', cameFrom');
    PassKeepsPopped(start, popped, closed, current);
  }

  /** A city the pass puts on the open list had no g-score, so it gets one and a back-link. */
  lemma NewlyOpenLinked(g: Cities, current: City, closed: set<City>, open: seq<OpenEntry<City>>,
                        gScore: map<City, real>, cameFrom: map<City, City>,
                        open': seq<OpenEntry<City>>, gScore': map<City, real>, fScore': map<City, real>,
                        cameFrom': map<City, City>)
    requires forall n | n in gScore :: n in closed || n in Nodes(open)
    requires Frontier(closed, open', gScore', fScore')
    requires ScoresImprove(g, current, closed, gScore, cameFrom, gScore', cameFrom')
    ensures forall n | n in Nodes(open') && n !in Nodes(open) :: n in cameFrom'
  {
    forall n | n in Nodes(open') && n !in Nodes(open) ensures n in cameFrom' {
      assert n !in gScore;
    }
  }

  /** Closing a city that was not closed keeps the list of popped cities free of repeats. */
  lemma PassKeepsPopped(start: City, popped: seq<City>, closed: set<City>, current: City)
    requires PoppedInOrder(start, closed, popped)
    requires current !in closed && (closed == {} ==> current == start)
    ensures PoppedInOrder(start, closed + {current}, popped + [current])
  {
  }

  /** A list that follows the back-links to the head of the open list is a route to it from the start. */
  lemma BackLinksGiveRoute(g: Cities, start: City, open: seq<OpenEntry<City>>, closed: set<City>,
                           cameFrom: map<City, City>, order: map<City, nat>, popped: seq<City>, p: seq<City>)
    requires BackLinks(g, start, open, closed, cameFrom, order, popped)
    requires open != [] && |p| > 0 && p[|p| - 1] == open[0].node && p[0] !in cameFrom
    requires forall i | 0 < i < |p| :: p[i] in cameFrom && cameFrom[p[i]] == p[i - 1]
    ensures IsRoute(g, p, start, open[0].node)
  {
    HeadInNodes(open);
    if |p| > 1 {
      assert p[0] == cameFrom[p[1]];
    }
    forall i | 0 <= i < |p| - 1
      ensures HasEdge(g, p[i], p[i + 1])
    {
      assert cameFrom[p[i + 1]] == p[i];
    }
  }

  /** A closed city's position in the order of closing; later than all of them for any other city. */
  ghost function PopRank(order: map<City, nat>, popped: seq<City>, n: City): nat
  {
    if n in order then order[n] else |popped|
  }

  /** Each back-link leads to a city closed earlier, so following them ends. */
  lemma BackLinksRanked(g: Cities, start: City, open: seq<OpenEntry<City>>, closed: set<City>,
                        cameFrom: map<City, City>, order: map<City, nat>, popped: seq<City>)
    requires BackLinks(g, start, open, closed, cameFrom, order, popped)
    ensures forall n | n in cameFrom :: PopRank(order, popped, cameFrom[n]) < PopRank(order, popped, n)
  {
  }

  /** Following the back-links from a closed or open city leads to the start, so the start reaches it. */
  lemma {:induction false} LinkedCityReachable(g: Cities, start: City, open: seq<OpenEntry<City>>, closed: set<City>,
                                               cameFrom: map<City, City>, order: map<City, nat>, popped: seq<City>,
                                               n: City)
    requires BackLinks(g, start, open, closed, cameFrom, order, popped)
    requires n in closed || n in Nodes(open)
    ensures Reachable(g, start, n)
    decreases PopRank(order, popped, n)
  {
    if n == start {
      assert IsRoute(g, [start], start, start);
    } else {
      var m := cameFrom[n];
      assert PopRank(order, popped, m) < PopRank(order, popped, n);
      LinkedCityReachable(g, start, open, closed, cameFrom, order, popped, m);
      var p :| IsRoute(g, p, start, m);
      ExtendRoute(g, p, start, m, n);
    }
  }

  /** Every popped city is reachable from the start, so there are at most as many pops as reachable cities. */
  lemma PoppedReachable(g: Cities, start: City, open: seq<OpenEntry<City>>, closed: set<City>,
                        cameFrom: map<City, City>, order: map<City, nat>, popped: seq<City>)
    requires BackLinks(g, start, open, closed, cameFrom, order, popped)
    requires Distinct(popped) && forall i | 0 <= i < |popped| :: popped[i] in g && (popped[i] in closed || popped[i] in Nodes(open))
    ensures forall i | 0 <= i < |popped| :: Reachable(g, start, popped[i])
  {
    forall i | 0 <= i < |popped| ensures Reachable(g, start, popped[i]) {
      LinkedCityReachable(g, start, open, closed, cameFrom, order, popped, popped[i]);
    }
  }

  /**
   * A list of distinct cities that the start reaches, such as the cities
   * `AStarSearch` pops, is no longer than the set of reachable cities, which
   * bounds the number of passes.
   */
  lemma PoppedWithinReachable(g: Cities, start: City, popped: seq<City>)
    requires Distinct(popped)
    requires forall i | 0 <= i < |popped| :: popped[i] in g && Reachable(g, start, popped[i])
    ensures |popped| <= |ReachableFrom(g, start)| <= |g|
  {
    var r := ReachableFrom(g, start);
    DistinctWithin(popped, r);
    assert g.Keys == r + (g.Keys - r);
    assert |g.Keys| == |g|;
  }

  /** The state before the first pass. */
  lemma InitialSearchState(g: Cities, start: City, goal: City, h: real)
    requires start in g
    ensures SearchState(g, start, goal, [OpenEntry(Finite(0.0), start)], {}, map[start := 0.0], map[start := h],
                        map[], map[], [])
  {
    assert Nodes([OpenEntry(Finite(0.0), start)]) == [start];
  }

  /** When the open list runs out, the closed cities are all that the start can reach. */
  lemma ExhaustedUnreachable(g: Cities, start: City, goal: City, closed: set<City>,
                             gScore: map<City, real>, fScore: map<City, real>, cameFrom: map<City, City>,
                             order: map<City, nat>, popped: seq<City>)
    requires SearchState(g, start, goal, [], closed, gScore, fScore, cameFrom, order, popped)
    ensures !Reachable(g, start, goal)
  {
    if Reachable(g, start, goal) {
      var p :| IsRoute(g, p, start, goal);
      RouteStaysInClosedSet(g, closed, p, start, goal);
      assert false;
    }
  }

  /** At the goal, the path rebuilt from the back-links is a route, and just the start when it is the goal. */
  lemma GoalReached(g: Cities, start: City, goal: City, open: seq<OpenEntry<City>>, closed: set<City>,
                    gScore: map<City, real>, fScore: map<City, real>, cameFrom: map<City, City>,
                    order: map<City, nat>, popped: seq<City>, p: seq<City>)
    requires SearchState(g, start, goal, open, closed, gScore, fScore, cameFrom, order, popped)
    requires open != [] && open[0].node == goal
    requires |p| > 0 && p[|p| - 1] == goal && p[0] !in cameFrom
    requires forall i | 0 < i < |p| :: p[i] in cameFrom && cameFrom[p[i]] == p[i - 1]
    requires goal !in cameFrom ==> p == [goal]
    ensures IsRoute(g, p, start, goal)
    ensures start == goal ==> p == [start]
    ensures Distinct(popped + [goal]) && forall i | 0 <= i < |popped + [goal]| :: (popped + [goal])[i] in g
    ensures (popped + [goal])[0] == start
    ensures forall i | 0 <= i < |popped + [goal]| :: Reachable(g, start, (popped + [goal])[i])
  {
    BackLinksGiveRoute(g, start, open, closed, cameFrom, order, popped, p);
    HeadInNodes(open);
    PoppedReachable(g, start, open, closed, cameFrom, order, popped + [goal]);
  }

  /**
   * `return reconstruct_path(came_from, current)` once the goal is popped:
   * the back-links rebuild a route from the start, and the popped cities,
   * the goal last, are distinct and reachable.
   */
  method PathToGoal(ghost g: Cities, ghost start: City, goal: City, ghost open: seq<OpenEntry<City>>, ghost closed: set<City>,
                    ghost gScore: map<City, real>, ghost fScore: map<City, real>, cameFrom: map<City, City>,
                    ghost order: map<City, nat>, ghost popped: seq<City>)
    returns (p: seq<City>)
    requires SearchState(g, start, goal, open, closed, gScore, fScore, cameFrom, order, popped)
    requires open != [] && open[0].node == goal
    ensures IsRoute(g, p, start, goal)
    ensures FollowsBackLinks(cameFrom, p)
    ensures start == goal ==> p == [start]
    ensures (popped + [goal])[0] == start
    ensures Distinct(popped + [goal]) && forall i | 0 <= i < |popped + [goal]| :: (popped + [goal])[i] in g
    ensures forall i | 0 <= i < |popped + [goal]| :: Reachable(g, start, (popped + [goal])[i])
  {
    BackLinksRanked(g, start, open, closed, cameFrom, order, popped);
    p := ReconstructPath(cameFrom, goal, n => PopRank(order, popped, n));
    GoalReached(g, start, goal, open, closed, gScore, fScore, cameFrom, order, popped, p);
  }

  /**
   * One pass of the loop of `a_star_search`: sort the open list, pop its
   * head; at the goal return the back-links' path, otherwise close the city
   * and relax its neighbours. A pass that does not finish closes one more
   * city of the table.
   */
  method SearchPass(
    cities: HashTable<City, CityInfo>, heuristic: (Coord, Coord) -> real, start: City, goal: City,
    open: seq<OpenEntry<City>>, closed: set<City>,
    gScore: map<City, real>, fScore: map<City, real>, cameFrom: map<City, City>,
    ghost order: map<City, nat>, ghost popped: seq<City>)
    returns (found: Option<seq<City>>, open': seq<OpenEntry<City>>, closed': set<City>,
             gScore': map<City, real>, fScore': map<City, real>, cameFrom': map<City, City>,
             ghost order': map<City, nat>, ghost popped': seq<City>)
    requires cities.Valid() && WellFormed(cities.Contents) && goal in cities.Contents
    requires SearchState(cities.Contents, start, goal, open, closed, gScore, fScore, cameFrom, order, popped)
    requires open != []
    ensures found.Some? ==> IsRoute(cities.Contents, found.value, start, goal)
    ensures found.Some? ==> FollowsBackLinks(cameFrom, found.value)
    ensures start == goal ==> found == Some([start])
    ensures popped' == popped + [open[0].node]
    ensures found.Some? <==> open[0].node == goal
    ensures found.Some? ==> popped'[0] == start
    ensures found.Some? ==> Distinct(popped') && (forall i | 0 <= i < |popped'| :: popped'[i] in cities.Contents)
    ensures found.Some? ==> forall i | 0 <= i < |popped'| :: Reachable(cities.Contents, start, popped'[i])
    ensures found.None? ==> closed' == closed + {open[0].node}
    ensures found.None? ==> OpenGrows(cities.Contents, open[0].node, open[1..], open')
    ensures found.None? ==> ScoresImprove(cities.Contents, open[0].node, closed', gScore, cameFrom, gScore', cameFrom')
    ensures found.None? ==>
              && NeighborsStored(cities.Contents, open[0].node) && open[0].node in gScore
              && (open', gScore', fScore', cameFrom') ==
                 RelaxAll(cities.Contents, heuristic, goal, open[0].node, closed', cities.Contents[open[0].node].value.neighbors,
                          (open[1..], gScore, fScore, cameFrom))
    ensures found.None? ==> SearchState(cities.Contents, start, goal, open', closed', gScore', fScore', cameFrom', order', popped')
    ensures found.None? ==> cities.Contents.Keys - closed' < cities.Contents.Keys - closed
  {
    ghost var g := cities.Contents;
    // only the start's entry is ever finite, so the sort keeps the list as it is
    SortOfUniform(open, open[0].priority);
    var sorted := SortByPriority(open);
    var current := sorted[0].node;
    open', closed', gScore', fScore', cameFrom', order' := sorted[1..], closed, gScore, fScore, cameFrom, order;
    popped' := popped + [current];
    if current == goal {
      var p := PathToGoal(g, start, goal, open, closed, gScore, fScore, cameFrom, order, popped);
      found := Some(p);
      return;
    }
    PopKeepsFrontier(closed, open, gScore, fScore);
    PopNodes(open);
    closed' := closed + {current};
    open', gScore', fScore', cameFrom' :=
      RelaxNeighbors(cities, heuristic, goal, current, closed', open', gScore, fScore, cameFrom);
    PassKeepsSearchState(g, start, goal, open, closed, gScore, fScore, cameFrom, order, popped,
                         open', gScore', fScore', cameFrom');
    order' := order[current := |popped|];
    found := None;
    assert current in g.Keys - closed;
  }

  /**
   * `a_star_search`: starting from the start city at priority 0, runs passes
   * until one reaches the goal, and returns `None` when the open list runs
   * out. `popped` lists the cities taken off the open list, in order.
   */
  method AStarSearch(cities: HashTable<City, CityInfo>, heuristic: (Coord, Coord) -> real, start: City, goal: City)
    returns (path: Option<seq<City>>, ghost popped: seq<City>)
    requires cities.Valid() && WellFormed(cities.Contents)
    requires start in cities.Contents && goal in cities.Contents
    ensures path.Some? ==> IsRoute(cities.Contents, path.value, start, goal)
    ensures path.None? ==> !Reachable(cities.Contents, start, goal)
    ensures start == goal ==> path == Some([start])
    ensures |popped| > 0 && popped[0] == start
    ensures path.Some? ==> popped[|popped| - 1] == goal
    ensures Distinct(popped) && forall i | 0 <= i < |popped| :: popped[i] in cities.Contents
    ensures forall i | 0 <= i < |popped| :: Reachable(cities.Contents, start, popped[i])
  {
    ghost var g := cities.Contents;
    var open := [OpenEntry(Finite(0.0), start)];
    var closed: set<City> := {};
    var cameFrom: map<City, City> := map[];
    var gScore := map[start := 0.0];
    var startInfo := cities.Get(start);
    var goalInfo := cities.Get(goal);
    var fScore := map[start := heuristic(startInfo.value.coords, goalInfo.value.coords)];
    ghost var order: map<City, nat> := map[];
    popped := [];
    InitialSearchState(g, start, goal, fScore[start]);

    while open != []
      invariant SearchState(g, start, goal, open, closed, gScore, fScore, cameFrom, order, popped)
      decreases g.Keys - closed
    {
      var found;
      found, open, closed, gScore, fScore, cameFrom, order, popped :=
        SearchPass(cities, heuristic, start, goal, open, closed, gScore, fScore, cameFrom, order, popped);
      if found.Some? {
        return found, popped;
      }
    }
    ExhaustedUnreachable(g, start, goal, closed, gScore, fScore, cameFrom, order, popped);
    PoppedReachable(g, start, open, closed, cameFrom, order, popped);
    path := None;
  }
}
