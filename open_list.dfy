/**
 * The search's open list: `(priority, node)` pairs, ordered by Python's
 * `list.sort(key=lambda x: x[0])`. That sort is stable, and any stable sort
 * of a list yields the same result, so it is modelled by a stable insertion
 * sort. Priorities are floats that may be `float('inf')`.
 */
module OpenLists {

  /** A priority: a finite score, or `float('inf')`. */
  datatype Priority = Finite(score: real) | Infinite

  /** Python's `<=` on priorities: infinity is above every finite score and equal to itself. */
  predicate AtMost(a: Priority, b: Priority)
  {
    match (a, b)
    case (_, Infinite) => true
    case (Infinite, Finite(_)) => false
    case (Finite(x), Finite(y)) => x <= y
  }

  /** One `(priority, node)` pair of the open list. */
  datatype OpenEntry<N> = OpenEntry(priority: Priority, node: N)

  /** The nodes of the open list, in order: `[i[1] for i in open_list]`. */
  function Nodes<N>(open: seq<OpenEntry<N>>): (r: seq<N>)
    ensures |r| == |open|
    ensures forall i | 0 <= i < |open| :: r[i] == open[i].node
  {
    seq(|open|, i requires 0 <= i < |open| => open[i].node)
  }

  /** No element occurs twice. */
  ghost predicate Distinct<T>(s: seq<T>)
  {
    forall i, j | 0 <= i < j < |s| :: s[i] != s[j]
  }

  /** Ascending by priority. */
  ghost predicate SortedByPriority<N>(s: seq<OpenEntry<N>>)
  {
    forall i, j | 0 <= i < j < |s| :: AtMost(s[i].priority, s[j].priority)
  }

  /** `s[i]` is the first entry of `s` whose priority is the least. */
  ghost predicate EarliestMinimum<N>(s: seq<OpenEntry<N>>, i: int)
  {
    && 0 <= i < |s|
    && (forall j | 0 <= j < |s| :: AtMost(s[i].priority, s[j].priority))
    && (forall j | 0 <= j < i :: !AtMost(s[j].priority, s[i].priority))
  }

  /** Places `x` in front of the first entry of `t` whose priority is not below its own. */
  function InsertByPriority<N>(x: OpenEntry<N>, t: seq<OpenEntry<N>>): (r: seq<OpenEntry<N>>)
    ensures multiset(r) == multiset(t) + multiset{x}
  {
    if t == [] || AtMost(x.priority, t[0].priority) then [x] + t
    else
      assert t == [t[0]] + t[1..];
      [t[0]] + InsertByPriority(x, t[1..])
  }

  /** `open_list.sort(key=lambda x: x[0])`: a stable sort by priority. It only rearranges the list. */
  function SortByPriority<N>(s: seq<OpenEntry<N>>): (r: seq<OpenEntry<N>>)
    ensures multiset(r) == multiset(s)
  {
    if s == [] then []
    else
      assert s == [s[0]] + s[1..];
      InsertByPriority(s[0], SortByPriority(s[1..]))
  }

  lemma {:induction false} InsertSortedPermutation<N>(x: OpenEntry<N>, t: seq<OpenEntry<N>>)
    requires SortedByPriority(t)
    ensures SortedByPriority(InsertByPriority(x, t))
    ensures multiset(InsertByPriority(x, t)) == multiset(t) + multiset{x}
  {
    if t != [] && !AtMost(x.priority, t[0].priority) {
      InsertSortedPermutation(x, t[1..]);
      var r := InsertByPriority(x, t[1..]);
      forall j | 0 <= j < |r| ensures AtMost(t[0].priority, r[j].priority) {
        assert r[j] in multiset(r);
        if r[j] != x {
          assert r[j] in t[1..];
        }
      }
      assert t == [t[0]] + t[1..];
    }
  }

  /** The sort orders the list by priority and only rearranges it. */
  lemma {:induction false} SortIsSortedPermutation<N>(s: seq<OpenEntry<N>>)
    ensures SortedByPriority(SortByPriority(s))
    ensures multiset(SortByPriority(s)) == multiset(s)
  {
    if s != [] {
      SortIsSortedPermutation(s[1..]);
      InsertSortedPermutation(s[0], SortByPriority(s[1..]));
      assert s == [s[0]] + s[1..];
    }
  }

  /** The head after inserting `x`: `x` itself unless the first entry of `t` has a smaller priority. */
  lemma InsertHead<N>(x: OpenEntry<N>, t: seq<OpenEntry<N>>)
    ensures InsertByPriority(x, t)[0] == if t == [] || AtMost(x.priority, t[0].priority) then x else t[0]
  {
  }

  /** The head is the earliest minimum when its priority is at most that of the rest's earliest minimum. */
  lemma EarliestAtHead<N>(s: seq<OpenEntry<N>>, k: int)
    requires |s| > 1 && EarliestMinimum(s[1..], k) && AtMost(s[0].priority, s[k + 1].priority)
    ensures EarliestMinimum(s, 0)
  {
    forall j | 0 <= j < |s| ensures AtMost(s[0].priority, s[j].priority) {
      if j > 0 {
        assert AtMost(s[k + 1].priority, s[1..][j - 1].priority);
      }
    }
  }

  /** Otherwise the rest's earliest minimum is the earliest minimum of the whole list. */
  lemma EarliestBehindHead<N>(s: seq<OpenEntry<N>>, k: int)
    requires |s| > 1 && EarliestMinimum(s[1..], k) && !AtMost(s[0].priority, s[k + 1].priority)
    ensures EarliestMinimum(s, k + 1)
  {
    forall j | 0 <= j < |s| ensures AtMost(s[k + 1].priority, s[j].priority) {
      if j > 0 {
        assert s[1..][j - 1] == s[j];
      }
    }
    forall j | 0 <= j < k + 1 ensures !AtMost(s[j].priority, s[k + 1].priority) {
      if j > 0 {
        assert s[1..][j - 1] == s[j];
      }
    }
  }

  /** `pop(0)` after the sort takes the earliest entry of least priority. */
  lemma {:induction false} SortHeadIsEarliestMinimum<N>(s: seq<OpenEntry<N>>)
    requires s != []
    ensures exists i :: EarliestMinimum(s, i) && SortByPriority(s)[0] == s[i]
  {
    var t := SortByPriority(s[1..]);
    var r := SortByPriority(s);
    assert r == InsertByPriority(s[0], t);
    InsertHead(s[0], t);
    if s[1..] == [] {
      assert EarliestMinimum(s, 0);
    } else {
      SortHeadIsEarliestMinimum(s[1..]);
      var k :| EarliestMinimum(s[1..], k) && t[0] == s[1..][k];
      assert t[0] == s[k + 1];
      if AtMost(s[0].priority, t[0].priority) {
        EarliestAtHead(s, k);
      } else {
        EarliestBehindHead(s, k);
      }
    }
  }

  /** When all entries share one priority the sort leaves the list as it is. */
  lemma {:induction false} SortOfUniform<N>(s: seq<OpenEntry<N>>, p: Priority)
    requires forall i | 0 <= i < |s| :: s[i].priority == p
    ensures SortByPriority(s) == s
  {
    if s != [] {
      SortOfUniform(s[1..], p);
      assert s == [s[0]] + s[1..];
    }
  }

  /** The head's node is among the nodes. */
  lemma HeadInNodes<N>(open: seq<OpenEntry<N>>)
    requires open != []
    ensures open[0].node in Nodes(open)
  {
    assert Nodes(open)[0] == open[0].node;
  }

  /** `pop(0)` removes exactly the head's node from the nodes of a list without repetitions. */
  lemma PopNodes<N>(open: seq<OpenEntry<N>>)
    requires open != [] && Distinct(Nodes(open))
    ensures Distinct(Nodes(open[1..]))
    ensures open[0].node in Nodes(open)
    ensures forall n :: n in Nodes(open[1..]) <==> n in Nodes(open) && n != open[0].node
  {
    var s, t := Nodes(open), Nodes(open[1..]);
    assert s == [s[0]] + t;
    assert s[0] == open[0].node;
    forall i, j | 0 <= i < j < |t| ensures t[i] != t[j] {
      assert t[i] == s[i + 1] && t[j] == s[j + 1];
    }
    forall n | n in t ensures n != open[0].node {
      var i :| 0 <= i < |t| && t[i] == n;
      assert s[i + 1] == n;
    }
  }

  /** `append` adds the new entry's node at the end of the nodes. */
  lemma AppendNodes<N>(open: seq<OpenEntry<N>>, e: OpenEntry<N>)
    ensures Nodes(open + [e]) == Nodes(open) + [e.node]
  {
  }

  /** Extending a list keeps every node it had. */
  lemma ExtendNodes<N>(open: seq<OpenEntry<N>>, open': seq<OpenEntry<N>>)
    requires |open| <= |open'| && open'[..|open|] == open
    ensures forall n | n in Nodes(open) :: n in Nodes(open')
  {
    forall n | n in Nodes(open) ensures n in Nodes(open') {
      var i :| 0 <= i < |open| && Nodes(open)[i] == n;
      assert Nodes(open')[i] == n;
    }
  }
}
