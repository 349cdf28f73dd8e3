/** The interval tree: intervals kept in insertion order, with a sorted index and
    a balanced tree of maximal ends that are rebuilt when a query needs them. */
module IntervalTrees {
  import opened Options
  import opened Sequences

  datatype Interval = Interval(start: int, end: int)
  {
    predicate Overlaps(other: Interval) {
      end >= other.start && start <= other.end
    }
  }

  predicate Contains(i: Interval, x: int) {
    i.start <= x <= i.end
  }

  /** Some point lies in both closed intervals. */
  ghost predicate SharesPoint(a: Interval, b: Interval) {
    exists x :: Contains(a, x) && Contains(b, x)
  }

  /** Intervals that are not reversed overlap exactly when they share a point. */
  lemma OverlapsPoints(a: Interval, b: Interval)
    requires a.start <= a.end && b.start <= b.end
    ensures a.Overlaps(b) <==> SharesPoint(a, b)
  {
    if a.Overlaps(b) {
      var x := if a.start < b.start then b.start else a.start;
      assert Contains(a, x) && Contains(b, x);
    }
  }

  datatype Stored<T> = Stored(interval: Interval, value: T)

  datatype Node = Node(begin: nat, end: nat, left: nat, right: nat, maxEnd: int)

  const InvalidNode: nat := 0xFFFF_FFFF_FFFF_FFFF

  // Sorting.

  function Insert<X>(x: X, s: seq<X>, less: (X, X) -> bool): seq<X> {
    if |s| == 0 || !less(s[0], x) then [x] + s else [s[0]] + Insert(x, s[1..], less)
  }

  /** The stable sort: equal elements keep their order. */
  function Sort<X>(s: seq<X>, less: (X, X) -> bool): (r: seq<X>)
    ensures |r| == |s|
  {
    if |s| == 0 then [] else InsertLength(s[0], Sort(s[1..], less), less); Insert(s[0], Sort(s[1..], less), less)
  }

  lemma {:induction false} InsertLength<X>(x: X, s: seq<X>, less: (X, X) -> bool)
    ensures |Insert(x, s, less)| == |s| + 1
  {
    if |s| > 0 && less(s[0], x) {
      InsertLength(x, s[1..], less);
    }
  }

  /** No element comes before a smaller one. */
  ghost predicate Ordered<X(!new)>(s: seq<X>, less: (X, X) -> bool) {
    forall i, j :: 0 <= i < j < |s| ==> !less(s[j], s[i])
  }

  /** `less` is a strict weak order on the elements of `s`. */
  ghost predicate OrdersElements<X(!new)>(s: multiset<X>, less: (X, X) -> bool) {
    && (forall x, y :: x in s && y in s && less(x, y) ==> !less(y, x))
    && (forall x, y, z :: x in s && y in s && z in s && !less(y, x) && !less(z, y) ==> !less(z, x))
  }

  lemma {:induction false} InsertMultiset<X>(x: X, s: seq<X>, less: (X, X) -> bool)
    ensures multiset(Insert(x, s, less)) == multiset(s) + multiset{x}
  {
    if |s| > 0 && less(s[0], x) {
      InsertMultiset(x, s[1..], less);
      assert s == [s[0]] + s[1..];
    }
  }

  lemma {:induction false} SortMultiset<X>(s: seq<X>, less: (X, X) -> bool)
    ensures multiset(Sort(s, less)) == multiset(s)
  {
    if |s| > 0 {
      SortMultiset(s[1..], less);
      InsertMultiset(s[0], Sort(s[1..], less), less);
      assert s == [s[0]] + s[1..];
    }
  }

  lemma OrdersPart<X(!new)>(s: multiset<X>, t: multiset<X>, less: (X, X) -> bool)
    requires OrdersElements(s, less) && t <= s
    ensures OrdersElements(t, less)
  {
  }

  lemma AtLeastHead<X(!new)>(x: X, s: seq<X>, less: (X, X) -> bool)
    requires OrdersElements(multiset(s) + multiset{x}, less) && Ordered(s, less) && |s| > 0 && !less(s[0], x)
    ensures forall y :: y in multiset(s) ==> !less(y, x)
  {
    forall y | y in multiset(s) ensures !less(y, x) {
      var j :| 0 <= j < |s| && s[j] == y;
      var all := multiset(s) + multiset{x};
      assert x in all && s[0] in all && y in all;
      assert j > 0 ==> !less(s[j], s[0]);
    }
  }

  lemma AboveHead<X(!new)>(x: X, s: seq<X>, less: (X, X) -> bool)
    requires OrdersElements(multiset(s) + multiset{x}, less) && Ordered(s, less) && |s| > 0 && less(s[0], x)
    ensures Ordered(s[1..], less) && forall y :: y in multiset(s[1..]) + multiset{x} ==> !less(y, s[0])
  {
    var all := multiset(s) + multiset{x};
    assert x in all && s[0] in all;
    forall y | y in multiset(s[1..]) ensures !less(y, s[0]) {
      var j :| 0 <= j < |s[1..]| && s[1..][j] == y;
      assert s[j + 1] == y;
    }
  }

  lemma {:induction false} InsertOrdered<X(!new)>(x: X, s: seq<X>, less: (X, X) -> bool)
    requires OrdersElements(multiset(s) + multiset{x}, less) && Ordered(s, less)
    ensures Ordered(Insert(x, s, less), less)
    decreases |s|
  {
    hide OrdersElements;
    if |s| == 0 {
    } else if less(s[0], x) {
      AboveHead(x, s, less);
      assert s == [s[0]] + s[1..];
      OrdersPart(multiset(s) + multiset{x}, multiset(s[1..]) + multiset{x}, less);
      InsertOrdered(x, s[1..], less);
      InsertMultiset(x, s[1..], less);
      HeadFirst(s[0], Insert(x, s[1..], less), less);
    } else {
      AtLeastHead(x, s, less);
      HeadFirst(x, s, less);
    }
  }

  lemma HeadFirst<X(!new)>(x: X, t: seq<X>, less: (X, X) -> bool)
    requires Ordered(t, less) && forall y :: y in multiset(t) ==> !less(y, x)
    ensures Ordered([x] + t, less)
  {
    assert forall j :: 0 <= j < |t| ==> t[j] in multiset(t);
  }

  lemma {:induction false} SortOrdered<X(!new)>(s: seq<X>, less: (X, X) -> bool)
    requires OrdersElements(multiset(s), less)
    ensures Ordered(Sort(s, less), less)
  {
    if |s| > 0 {
      assert s == [s[0]] + s[1..];
      SortOrdered(s[1..], less);
      SortMultiset(s[1..], less);
      assert multiset(Sort(s[1..], less)) + multiset{s[0]} == multiset(s);
      InsertOrdered(s[0], Sort(s[1..], less), less);
    }
  }

  // The index.

  /** Ascending by start, then by end. */
  predicate Before(a: Interval, b: Interval) {
    a.start < b.start || (a.start == b.start && a.end < b.end)
  }

  function ByStart<T>(intervals: seq<Stored<T>>): (nat, nat) -> bool {
    (i: nat, j: nat) => i < |intervals| && j < |intervals| && Before(intervals[i].interval, intervals[j].interval)
  }

  /** The order of query results: start descending, end ascending. */
  predicate Precedes<T>(a: Stored<T>, b: Stored<T>) {
    a.interval.start > b.interval.start || (a.interval.start == b.interval.start && a.interval.end < b.interval.end)
  }

  function Iota(n: nat): seq<nat> {
    seq(n, i => i)
  }

  ghost predicate SortedIndex<T>(intervals: seq<Stored<T>>, sorted: seq<nat>) {
    && |sorted| == |intervals|
    && multiset(sorted) == multiset(Iota(|intervals|))
    && Indexes(intervals, sorted)
    && forall i, j :: 0 <= i < j < |sorted| ==> !Before(intervals[sorted[j]].interval, intervals[sorted[i]].interval)
  }

  lemma StartOrders<T>(intervals: seq<Stored<T>>)
    ensures OrdersElements(multiset(Iota(|intervals|)), ByStart(intervals))
  {
  }

  lemma SortGivesIndex<T>(intervals: seq<Stored<T>>)
    ensures SortedIndex(intervals, Sort(Iota(|intervals|), ByStart(intervals)))
  {
    var iota, less := Iota(|intervals|), ByStart(intervals);
    var sorted := Sort(iota, less);
    StartOrders(intervals);
    hide OrdersElements;
    SortMultiset(iota, less);
    SortOrdered(iota, less);
    forall i | 0 <= i < |sorted| ensures sorted[i] < |intervals| {
      assert sorted[i] in multiset(sorted);
      assert sorted[i] in multiset(iota);
    }
    forall i, j | 0 <= i < j < |sorted| ensures !Before(intervals[sorted[j]].interval, intervals[sorted[i]].interval) {
      assert !less(sorted[j], sorted[i]);
    }
  }

  function Max(x: int, y: int): int {
    if x < y then y else x
  }

  /** The subtree at node `i` covers the sorted positions [begin, end), split in
      halves, with the maximal interval end of its range in every node. Its
      nodes are the 2 * (end - begin) - 1 from `i` on. */
  ghost predicate Tree<T>(intervals: seq<Stored<T>>, sorted: seq<nat>, nodes: seq<Node>, i: nat, begin: nat, end: nat)
    requires Indexes(intervals, sorted)
    decreases end - begin
  {
    && begin < end <= |sorted| && i + 2 * (end - begin) - 1 <= |nodes|
    && nodes[i].begin == begin && nodes[i].end == end
    && if end - begin == 1 then nodes[i].maxEnd == intervals[sorted[begin]].interval.end
       else
         var middle := begin + (end - begin) / 2;
         && nodes[i].left == i + 1 && nodes[i].right == i + 2 * (middle - begin)
         && Tree(intervals, sorted, nodes, nodes[i].left, begin, middle)
         && Tree(intervals, sorted, nodes, nodes[i].right, middle, end)
         && nodes[i].maxEnd == Max(nodes[nodes[i].left].maxEnd, nodes[nodes[i].right].maxEnd)
  }

  ghost predicate IndexOk<T>(intervals: seq<Stored<T>>, sorted: seq<nat>, nodes: seq<Node>) {
    SortedIndex(intervals, sorted) && (|intervals| > 0 ==> Tree(intervals, sorted, nodes, 0, 0, |sorted|))
  }

  /** A subtree depends on its own nodes only. */
  lemma {:induction false} TreeFrame<T>(intervals: seq<Stored<T>>, sorted: seq<nat>, nodes: seq<Node>, nodes': seq<Node>, i: nat, begin: nat, end: nat)
    requires Indexes(intervals, sorted)
    requires Tree(intervals, sorted, nodes, i, begin, end) && i + 2 * (end - begin) - 1 <= |nodes'|
    requires forall k :: i <= k < i + 2 * (end - begin) - 1 ==> nodes'[k] == nodes[k]
    ensures Tree(intervals, sorted, nodes', i, begin, end)
    decreases end - begin
  {
    if end - begin > 1 {
      var middle := begin + (end - begin) / 2;
      TreeFrame(intervals, sorted, nodes, nodes', nodes[i].left, begin, middle);
      TreeFrame(intervals, sorted, nodes, nodes', nodes[i].right, middle, end);
    }
  }

  /** maxEnd is the true maximum of the range. */
  lemma {:induction false} MaxEndIsMaximum<T>(intervals: seq<Stored<T>>, sorted: seq<nat>, nodes: seq<Node>, i: nat, begin: nat, end: nat)
    requires Indexes(intervals, sorted)
    requires Tree(intervals, sorted, nodes, i, begin, end)
    ensures forall k :: begin <= k < end ==> intervals[sorted[k]].interval.end <= nodes[i].maxEnd
    ensures exists k :: begin <= k < end && intervals[sorted[k]].interval.end == nodes[i].maxEnd
    decreases end - begin
  {
    if end - begin == 1 {
      assert intervals[sorted[begin]].interval.end == nodes[i].maxEnd;
    } else {
      var middle := begin + (end - begin) / 2;
      MaxEndIsMaximum(intervals, sorted, nodes, nodes[i].left, begin, middle);
      MaxEndIsMaximum(intervals, sorted, nodes, nodes[i].right, middle, end);
    }
  }

  // Queries against a linear scan.

  function Hit<T>(x: Stored<T>, query: Interval): seq<Stored<T>> {
    if query.Overlaps(x.interval) then [x] else []
  }

  ghost predicate Indexes<T>(intervals: seq<Stored<T>>, s: seq<nat>) {
    forall k :: 0 <= k < |s| ==> s[k] < |intervals|
  }

  /** The overlapping intervals among those listed by `indices`, in their order. */
  ghost function Scan<T>(intervals: seq<Stored<T>>, indices: seq<nat>, query: Interval): seq<Stored<T>>
    requires Indexes(intervals, indices)
  {
    if |indices| == 0 then [] else Hit(intervals[indices[0]], query) + Scan(intervals, indices[1..], query)
  }

  /** The linear scan over the intervals as inserted. */
  function LinearScan<T>(intervals: seq<Stored<T>>, query: Interval): seq<Stored<T>> {
    if |intervals| == 0 then []
    else LinearScan(intervals[..|intervals| - 1], query) + Hit(intervals[|intervals| - 1], query)
  }

  /** What is found, counted: all stored copies of an overlapping entry, none of any other. */
  lemma {:induction false} LinearScanCounts<T>(intervals: seq<Stored<T>>, query: Interval, v: Stored<T>)
    ensures multiset(LinearScan(intervals, query))[v] == if query.Overlaps(v.interval) then multiset(intervals)[v] else 0
  {
    if |intervals| > 0 {
      var n := |intervals| - 1;
      LinearScanCounts(intervals[..n], query, v);
      assert intervals == intervals[..n] + [intervals[n]];
    }
  }

  lemma {:induction false} ScanConcat<T>(intervals: seq<Stored<T>>, s: seq<nat>, t: seq<nat>, query: Interval)
    requires Indexes(intervals, s) && Indexes(intervals, t)
    ensures Indexes(intervals, s + t)
    ensures Scan(intervals, s + t, query) == Scan(intervals, s, query) + Scan(intervals, t, query)
  {
    hide Hit;
    if |s| == 0 {
      assert s + t == t;
    } else {
      assert (s + t)[1..] == s[1..] + t;
      ScanConcat(intervals, s[1..], t, query);
      Associate(Hit(intervals[s[0]], query), Scan(intervals, s[1..], query), Scan(intervals, t, query));
    }
  }

  lemma {:induction false} ScanNothing<T>(intervals: seq<Stored<T>>, s: seq<nat>, query: Interval)
    requires Indexes(intervals, s) && forall k :: 0 <= k < |s| ==> !query.Overlaps(intervals[s[k]].interval)
    ensures Scan(intervals, s, query) == []
  {
    if |s| > 0 {
      ScanNothing(intervals, s[1..], query);
    }
  }

  lemma SplitAt<X>(t: seq<X>, k: nat)
    requires k < |t|
    ensures t == t[..k] + ([t[k]] + t[k + 1..])
    ensures multiset(t[..k] + t[k + 1..]) == multiset(t) - multiset{t[k]}
  {
    assert t == t[..k] + ([t[k]] + t[k + 1..]);
  }

  /** Taking an index out of the list takes its hit out of the result. */
  lemma ScanWithout<T>(intervals: seq<Stored<T>>, t: seq<nat>, k: nat, query: Interval)
    requires k < |t| && Indexes(intervals, t)
    ensures Indexes(intervals, t[..k] + t[k + 1..])
    ensures multiset(Scan(intervals, t, query))
         == multiset(Hit(intervals[t[k]], query)) + multiset(Scan(intervals, t[..k] + t[k + 1..], query))
  {
    hide Hit;
    SplitAt(t, k);
    ScanConcat(intervals, t[..k], t[k + 1..], query);
    var tail := [t[k]] + t[k + 1..];
    assert tail[1..] == t[k + 1..];
    ScanConcat(intervals, t[..k], tail, query);
  }

  /** The order of the indices does not change what is found. */
  lemma {:induction false} ScanPermuted<T>(intervals: seq<Stored<T>>, s: seq<nat>, t: seq<nat>, query: Interval)
    requires Indexes(intervals, s) && Indexes(intervals, t) && multiset(s) == multiset(t)
    ensures multiset(Scan(intervals, s, query)) == multiset(Scan(intervals, t, query))
    decreases |s|
  {
    hide Hit, Scan;
    if |s| == 0 {
      assert |multiset(t)| == 0;
    } else {
      assert s[0] in multiset(t);
      var k :| 0 <= k < |t| && t[k] == s[0];
      SplitAt(s, 0);
      SplitAt(t, k);
      ScanWithout(intervals, s, 0, query);
      ScanWithout(intervals, t, k, query);
      ScanPermuted(intervals, s[..0] + s[1..], t[..k] + t[k + 1..], query);
    }
  }

  lemma {:induction false} ScanIota<T>(intervals: seq<Stored<T>>, n: nat, query: Interval)
    requires n <= |intervals|
    ensures Scan(intervals, Iota(n), query) == LinearScan(intervals[..n], query)
  {
    if n > 0 {
      ScanIota(intervals, n - 1, query);
      assert Iota(n) == Iota(n - 1) + [n - 1];
      ScanConcat(intervals, Iota(n - 1), [n - 1], query);
      assert intervals[..n][..n - 1] == intervals[..n - 1];
    }
  }

  lemma ScanHalves<T>(intervals: seq<Stored<T>>, sorted: seq<nat>, begin: nat, middle: nat, end: nat, query: Interval)
    requires Indexes(intervals, sorted) && begin <= middle <= end <= |sorted|
    ensures Scan(intervals, sorted[begin..end], query)
         == Scan(intervals, sorted[begin..middle], query) + Scan(intervals, sorted[middle..end], query)
  {
    assert sorted[begin..end] == sorted[begin..middle] + sorted[middle..end];
    ScanConcat(intervals, sorted[begin..middle], sorted[middle..end], query);
  }

  /** What the pruning skips overlaps nothing. */
  lemma PrunedRange<T>(intervals: seq<Stored<T>>, sorted: seq<nat>, nodes: seq<Node>, i: nat, begin: nat, end: nat, query: Interval)
    requires SortedIndex(intervals, sorted) && Tree(intervals, sorted, nodes, i, begin, end)
    requires nodes[i].maxEnd < query.start || intervals[sorted[begin]].interval.start > query.end
    ensures Scan(intervals, sorted[begin..end], query) == []
  {
    MaxEndIsMaximum(intervals, sorted, nodes, i, begin, end);
    var maxEnd := nodes[i].maxEnd;
    hide Tree, Scan;
    forall k | begin <= k < end ensures !query.Overlaps(intervals[sorted[k]].interval) {
      StartsFrom(intervals, sorted, begin, k);
    }
    hide SortedIndex;
    ScanNothing(intervals, sorted[begin..end], query);
  }

  lemma StartsFrom<T>(intervals: seq<Stored<T>>, sorted: seq<nat>, i: nat, j: nat)
    requires SortedIndex(intervals, sorted) && i <= j < |sorted|
    ensures intervals[sorted[i]].interval.start <= intervals[sorted[j]].interval.start
  {
    if i < j {
      assert !Before(intervals[sorted[j]].interval, intervals[sorted[i]].interval);
    }
  }

  /** What a search reads off the node of a range. */
  lemma AtNode<T>(intervals: seq<Stored<T>>, sorted: seq<nat>, nodes: seq<Node>, i: nat, begin: nat, end: nat)
    requires Indexes(intervals, sorted) && Tree(intervals, sorted, nodes, i, begin, end)
    ensures i < |nodes| && begin < end <= |sorted| && nodes[i].begin == begin && nodes[i].end == end
    ensures end - begin > 1 ==>
      var middle := begin + (end - begin) / 2;
      Tree(intervals, sorted, nodes, nodes[i].left, begin, middle) && Tree(intervals, sorted, nodes, nodes[i].right, middle, end)
  {
  }

  lemma ScanOne<T>(intervals: seq<Stored<T>>, sorted: seq<nat>, begin: nat, query: Interval)
    requires Indexes(intervals, sorted) && begin < |sorted|
    ensures Scan(intervals, sorted[begin..begin + 1], query) == Hit(intervals[sorted[begin]], query)
  {
    var one := sorted[begin..begin + 1];
    assert one[1..] == [];
    assert Scan(intervals, one, query) == Hit(intervals[one[0]], query) + Scan(intervals, one[1..], query);
  }

  lemma ScanAll<T>(intervals: seq<Stored<T>>, sorted: seq<nat>, query: Interval)
    requires SortedIndex(intervals, sorted)
    ensures multiset(Scan(intervals, sorted, query)) == multiset(LinearScan(intervals, query))
  {
    ScanPermuted(intervals, sorted, Iota(|intervals|), query);
    ScanIota(intervals, |intervals|, query);
    assert intervals[..|intervals|] == intervals;
  }

  lemma ResultOrders<T(!new)>(s: multiset<Stored<T>>)
    ensures OrdersElements(s, (a: Stored<T>, b: Stored<T>) => Precedes(a, b))
  {
  }

  lemma Listed(n: nat, sorted: seq<nat>, i: nat)
    requires i < n && multiset(sorted) == multiset(Iota(n))
    ensures exists k :: 0 <= k < |sorted| && sorted[k] == i
  {
    assert Iota(n)[i] == i;
    assert i in multiset(sorted);
  }

  /** A node whose subtrees have been appended behind it. */
  lemma Joined<T>(intervals: seq<Stored<T>>, sorted: seq<nat>, withLeft: seq<Node>, withRight: seq<Node>, nodes: seq<Node>, i: nat, begin: nat, middle: nat, end: nat)
    requires Indexes(intervals, sorted) && middle == begin + (end - begin) / 2 && begin < middle < end
    requires |withLeft| == i + 2 * (middle - begin) && |withRight| == |nodes| == i + 2 * (end - begin) - 1
    requires withRight[..|withLeft|] == withLeft
    requires Tree(intervals, sorted, withLeft, i + 1, begin, middle)
    requires Tree(intervals, sorted, withRight, i + 2 * (middle - begin), middle, end)
    requires nodes == withRight[i := nodes[i]] && nodes[i].begin == begin && nodes[i].end == end
    requires nodes[i].left == i + 1 && nodes[i].right == i + 2 * (middle - begin)
    requires nodes[i].maxEnd == Max(withRight[i + 1].maxEnd, withRight[i + 2 * (middle - begin)].maxEnd)
    ensures Tree(intervals, sorted, nodes, i, begin, end)
  {
    hide Tree;
    forall k | i + 1 <= k < i + 1 + 2 * (middle - begin) - 1 ensures nodes[k] == withLeft[k] {
      assert withRight[..|withLeft|][k] == withLeft[k];
    }
    TreeFrame(intervals, sorted, withLeft, nodes, i + 1, begin, middle);
    TreeFrame(intervals, sorted, withRight, nodes, i + 2 * (middle - begin), middle, end);
    Assembled(intervals, sorted, nodes, i, begin, middle, end);
  }

  lemma Leaf<T>(intervals: seq<Stored<T>>, sorted: seq<nat>, nodes: seq<Node>, i: nat, begin: nat)
    requires Indexes(intervals, sorted) && begin < |sorted| && i < |nodes|
    requires nodes[i].begin == begin && nodes[i].end == begin + 1 && nodes[i].maxEnd == intervals[sorted[begin]].interval.end
    ensures Tree(intervals, sorted, nodes, i, begin, begin + 1)
  {
  }

  lemma PrefixKept(before: seq<Node>, node: Node, withLeft: seq<Node>, withRight: seq<Node>, node': Node)
    requires |before| < |withLeft| <= |withRight|
    requires withLeft[..|before| + 1] == before + [node] && withRight[..|withLeft|] == withLeft
    ensures withRight[|before| := node'][..|before|] == before
  {
    var n := |before|;
    assert withRight[|before| := node'][..n] == withRight[..n] == withRight[..|withLeft|][..n];
    assert withLeft[..n] == withLeft[..n + 1][..n];
  }

  lemma Assembled<T>(intervals: seq<Stored<T>>, sorted: seq<nat>, nodes: seq<Node>, i: nat, begin: nat, middle: nat, end: nat)
    requires Indexes(intervals, sorted) && middle == begin + (end - begin) / 2 && begin < middle < end
    requires |nodes| == i + 2 * (end - begin) - 1 && nodes[i].begin == begin && nodes[i].end == end
    requires nodes[i].left == i + 1 && nodes[i].right == i + 2 * (middle - begin)
    requires Tree(intervals, sorted, nodes, nodes[i].left, begin, middle)
    requires Tree(intervals, sorted, nodes, nodes[i].right, middle, end)
    requires nodes[i].maxEnd == Max(nodes[nodes[i].left].maxEnd, nodes[nodes[i].right].maxEnd)
    ensures Tree(intervals, sorted, nodes, i, begin, end)
  {
  }

  class IntervalTree<T(==,!new)> {
    var intervals: seq<Stored<T>>
    var sorted: seq<nat>
    var nodes: seq<Node>
    var indexValid: bool

    /** A valid index is the one of the current intervals. */
    ghost predicate Valid()
      reads this
    {
      indexValid ==> IndexOk(intervals, sorted, nodes)
    }

    constructor ()
      ensures Valid() && intervals == []
    {
      intervals, sorted, nodes, indexValid := [], [], [], true;
    }

    method Insert(interval: Interval, value: T)
      requires Valid()
      modifies this
      ensures Valid() && intervals == old(intervals) + [Stored(interval, value)] && !indexValid
    {
      intervals := intervals + [Stored(interval, value)];
      indexValid := false;
    }

    method Clear()
      requires Valid()
      modifies this
      ensures Valid() && intervals == [] && indexValid
    {
      intervals, sorted, nodes, indexValid := [], [], [], true;
    }

    method EnsureIndex()
      requires Valid()
      modifies this
      ensures Valid() && indexValid && intervals == old(intervals)
    {
      if indexValid {
        return;
      }
      SortGivesIndex(intervals);
      sorted := Sort(Iota(|intervals|), ByStart(intervals));
      nodes := [];
      if |sorted| > 0 {
        var root := BuildNode(0, |sorted|);
      }
      indexValid := true;
    }

    /** Appends the subtree of a range; its root is the first node appended. */
    method BuildNode(begin: nat, end: nat) returns (nodeIndex: nat)
      requires begin < end <= |sorted| && Indexes(intervals, sorted)
      modifies this`nodes
      ensures nodeIndex == |old(nodes)| && |nodes| == nodeIndex + 2 * (end - begin) - 1
      ensures nodes[..nodeIndex] == old(nodes)
      ensures Tree(intervals, sorted, nodes, nodeIndex, begin, end)
      decreases end - begin
    {
      hide Tree;
      nodeIndex := |nodes|;
      ghost var before := nodes;
      var node := Node(begin, end, InvalidNode, InvalidNode, 0);
      nodes := nodes + [node];
      if end - begin == 1 {
        nodes := nodes[nodeIndex := nodes[nodeIndex].(maxEnd := intervals[sorted[begin]].interval.end)];
        Leaf(intervals, sorted, nodes, nodeIndex, begin);
      } else {
        var middle := begin + (end - begin) / 2;
        var left := BuildNode(begin, middle);
        ghost var withLeft := nodes;
        var right := BuildNode(middle, end);
        ghost var withRight := nodes;
        nodes := nodes[nodeIndex := nodes[nodeIndex].(left := left, right := right, maxEnd := Max(nodes[left].maxEnd, nodes[right].maxEnd))];
        Joined(intervals, sorted, withLeft, withRight, nodes, nodeIndex, begin, middle, end);
        PrefixKept(before, node, withLeft, withRight, nodes[nodeIndex]);
      }
    }

    /** The recursive search: appends the overlapping intervals of the node's range. */
    method Search(nodeIndex: nat, query: Interval, result: seq<Stored<T>>, ghost begin: nat, ghost end: nat) returns (found: seq<Stored<T>>)
      requires SortedIndex(intervals, sorted) && Tree(intervals, sorted, nodes, nodeIndex, begin, end)
      ensures found == result + Scan(intervals, sorted[begin..end], query)
      decreases end - begin
    {
      hide Tree, Scan;
      AtNode(intervals, sorted, nodes, nodeIndex, begin, end);
      var node := nodes[nodeIndex];
      var minStart := intervals[sorted[node.begin]].interval.start;
      if node.maxEnd < query.start || minStart > query.end {
        PrunedRange(intervals, sorted, nodes, nodeIndex, begin, end, query);
        return result;
      }
      hide SortedIndex;
      if node.end - node.begin == 1 {
        var stored := intervals[sorted[node.begin]];
        ScanOne(intervals, sorted, begin, query);
        found := result;
        if query.Overlaps(stored.interval) {
          found := found + [stored];
        }
      } else {
        ghost var middle := begin + (end - begin) / 2;
        ScanHalves(intervals, sorted, begin, middle, end, query);
        found := Search(node.left, query, result, begin, middle);
        found := Search(node.right, query, found, middle, end);
      }
    }

    /** The overlapping intervals: what a linear scan finds, ordered by start
        descending, then by end ascending. */
    method Overlapping(query: Interval) returns (result: seq<Stored<T>>)
      requires Valid()
      modifies this
      ensures Valid() && intervals == old(intervals)
      ensures multiset(result) == multiset(LinearScan(intervals, query))
      ensures forall v: Stored<T> :: query.start <= query.end && v.interval.start <= v.interval.end ==>
        multiset(result)[v] == if SharesPoint(v.interval, query) then multiset(intervals)[v] else 0
      ensures forall i, j :: 0 <= i < j < |result| ==>
        var a, b := result[i].interval, result[j].interval;
        a.start > b.start || (a.start == b.start && a.end <= b.end)
    {
      forall v: Stored<T> | query.start <= query.end && v.interval.start <= v.interval.end
        ensures multiset(LinearScan(intervals, query))[v] == if SharesPoint(v.interval, query) then multiset(intervals)[v] else 0
      {
        LinearScanCounts(intervals, query, v);
        OverlapsPoints(query, v.interval);
      }
      if |intervals| == 0 {
        return [];
      }
      EnsureIndex();
      result := Search(0, query, [], 0, |sorted|);
      assert sorted[0..|sorted|] == sorted;
      ScanAll(intervals, sorted, query);
      var less := (a: Stored<T>, b: Stored<T>) => Precedes(a, b);
      SortMultiset(result, less);
      ResultOrders(multiset(result));
      SortOrdered(result, less);
      result := Sort(result, less);
      forall i, j | 0 <= i < j < |result| ensures !Precedes(result[j], result[i]) {
        assert !less(result[j], result[i]);
      }
    }

    /** The nearest start strictly after `index`; among equal starts the smallest end. */
    method NextInterval(index: int) returns (r: Option<Stored<T>>)
      requires Valid()
      modifies this
      ensures Valid() && intervals == old(intervals)
      ensures r.None? ==> forall i :: 0 <= i < |intervals| ==> intervals[i].interval.start <= index
      ensures r.Some? ==> r.value in intervals && r.value.interval.start > index
      ensures r.Some? ==> forall i :: 0 <= i < |intervals| && intervals[i].interval.start > index ==>
        var a, b := r.value.interval, intervals[i].interval;
        a.start < b.start || (a.start == b.start && a.end <= b.end)
    {
      EnsureIndex();
      var first, count := 0, |sorted|;
      while count > 0
        invariant 0 <= first <= first + count <= |sorted|
        invariant forall k :: 0 <= k < first ==> intervals[sorted[k]].interval.start <= index
        invariant forall k :: first + count <= k < |sorted| ==> intervals[sorted[k]].interval.start > index
      {
        var step := count / 2;
        if index < intervals[sorted[first + step]].interval.start {
          count := step;
        } else {
          first, count := first + step + 1, count - (step + 1);
        }
      }
      r := if first == |sorted| then None else Some(intervals[sorted[first]]);
      forall i | 0 <= i < |intervals| && intervals[i].interval.start > index
        ensures r.Some? && !Before(intervals[i].interval, r.value.interval)
      {
        Listed(|intervals|, sorted, i);
      }
    }

    /** The nearest start strictly before `index`; among equal starts the largest end. */
    method PrevInterval(index: int) returns (r: Option<Stored<T>>)
      requires Valid()
      modifies this
      ensures Valid() && intervals == old(intervals)
      ensures r.None? ==> forall i :: 0 <= i < |intervals| ==> intervals[i].interval.start >= index
      ensures r.Some? ==> r.value in intervals && r.value.interval.start < index
      ensures r.Some? ==> forall i :: 0 <= i < |intervals| && intervals[i].interval.start < index ==>
        var a, b := r.value.interval, intervals[i].interval;
        a.start > b.start || (a.start == b.start && a.end >= b.end)
    {
      EnsureIndex();
      var first, count := 0, |sorted|;
      while count > 0
        invariant 0 <= first <= first + count <= |sorted|
        invariant forall k :: 0 <= k < first ==> intervals[sorted[k]].interval.start < index
        invariant forall k :: first + count <= k < |sorted| ==> intervals[sorted[k]].interval.start >= index
      {
        var step := count / 2;
        if intervals[sorted[first + step]].interval.start < index {
          first, count := first + step + 1, count - (step + 1);
        } else {
          count := step;
        }
      }
      r := if first == 0 then None else Some(intervals[sorted[first - 1]]);
      forall i | 0 <= i < |intervals| && intervals[i].interval.start < index
        ensures r.Some? && !Before(r.value.interval, intervals[i].interval)
      {
        Listed(|intervals|, sorted, i);
      }
    }
  }
}