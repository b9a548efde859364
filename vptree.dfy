/** Vantage-point tree construction and the bounded k-nearest walk of
    `src/vptree.rs`.

    The caller's metric (`BoundedMetricItem::bounded_distance`) is the
    parameter `dist`, with exact real values. The random index drawn by
    `select_vantage_point` comes from `draws`, a stream of numbers the
    construction consumes one per internal node, in pre-order. */
module VPTree {
  import opened Wrappers

  /** `TaggedItem`: an item and its distance to the vantage point of the
      current level (the last entry of `hist`, the only one ever read). */
  datatype Tagged<T> = Tagged(item: T, dist: real)

  /** `VPNode`: a leaf has neither child nor `mu`; an internal node has
      an `inner` child, maybe an `outer` one, and `mu`. */
  datatype Node<T> = Node(inner: Option<Node<T>>, outer: Option<Node<T>>, center: T, mu: Option<real>)

  /** `VPTree`: the root node. */
  datatype Tree<T> = Tree(root: Node<T>)

  /** `HeapElem`: a distance and the node whose center produced it. */
  datatype HeapElem<T> = HeapElem(dist: real, item: Node<T>)

  // ---------------------------------------------------------------------
  // Sequences of tagged items

  /** The items of a tagged sequence, in order. */
  function Items<T>(s: seq<Tagged<T>>): (r: seq<T>)
    ensures |r| == |s| && forall k :: 0 <= k < |s| ==> r[k] == s[k].item
  {
    seq(|s|, k requires 0 <= k < |s| => s[k].item)
  }

  lemma ItemsAppend<T>(a: seq<Tagged<T>>, b: seq<Tagged<T>>)
    ensures Items(a + b) == Items(a) + Items(b)
  {
  }

  /** Permuting tagged items permutes their items. */
  lemma {:induction false} ItemsPermutation<T>(s: seq<Tagged<T>>, t: seq<Tagged<T>>)
    requires multiset(s) == multiset(t)
    ensures multiset(Items(s)) == multiset(Items(t))
    decreases |s|
  {
    if s == [] {
      assert |t| == |multiset(t)| == 0;
    } else {
      var x := s[0];
      assert x in multiset(t);
      var j :| 0 <= j < |t| && t[j] == x;
      var t' := t[..j] + t[j + 1..];
      assert t == t[..j] + [x] + t[j + 1..];
      assert s == [x] + s[1..];
      assert multiset(s) == multiset{x} + multiset(s[1..]);
      assert multiset(t) == multiset(t[..j]) + multiset{x} + multiset(t[j + 1..]);
      assert multiset(t') == multiset(t[..j]) + multiset(t[j + 1..]);
      assert multiset(s[1..]) == multiset(s) - multiset{x};
      assert multiset(t') == multiset(t) - multiset{x};
      assert multiset(s[1..]) == multiset(t');
      ItemsPermutation(s[1..], t');
      ItemsAppend([x], s[1..]);
      ItemsAppend(t[..j], t[j + 1..]);
      ItemsAppend(t[..j] + [x], t[j + 1..]);
      ItemsAppend(t[..j], [x]);
    }
  }

  // ---------------------------------------------------------------------
  // Vec::swap_remove

  /** `Vec::swap_remove(i)`: the element at `i`, and the vector with the
      last element moved into slot `i`. */
  function SwapRemove<T>(s: seq<T>, i: nat): (r: (T, seq<T>))
    requires i < |s|
    ensures r.0 == s[i] && |r.1| == |s| - 1
    ensures forall k :: 0 <= k < |r.1| && k != i ==> r.1[k] == s[k]
    ensures i < |r.1| ==> r.1[i] == s[|s| - 1]
    ensures multiset(r.1) + multiset{r.0} == multiset(s)
  {
    if i == |s| - 1 then
      assert s == s[..i] + [s[i]];
      (s[i], s[..i])
    else
      var last := |s| - 1;
      assert s == s[..i] + [s[i]] + s[i + 1..last] + [s[last]];
      (s[i], s[..i] + [s[last]] + s[i + 1..last])
  }

  // ---------------------------------------------------------------------
  // sort_by on the tagged distance (a stable sort)

  ghost predicate SortedByDist<T>(s: seq<Tagged<T>>) {
    forall i, j :: 0 <= i < j < |s| ==> s[i].dist <= s[j].dist
  }

  /** Insert `x` in front of the first element whose distance is not
      smaller, so that equal distances keep their original order. */
  function Insert<T>(x: Tagged<T>, s: seq<Tagged<T>>): (r: seq<Tagged<T>>)
    requires SortedByDist(s)
    ensures SortedByDist(r)
    ensures |r| == |s| + 1
    ensures multiset(r) == multiset(s) + multiset{x}
  {
    if s == [] || x.dist <= s[0].dist then
      [x] + s
    else
      var rest := Insert(x, s[1..]);
      assert s == [s[0]] + s[1..];
      HeadBelowRest(s, x, rest);
      ConsSorted(s[0], rest);
      [s[0]] + rest
  }

  /** The head of a sorted `s` is no farther than anything of its tail,
      nor than `x` when `x` is farther than the head. */
  lemma HeadBelowRest<T>(s: seq<Tagged<T>>, x: Tagged<T>, rest: seq<Tagged<T>>)
    requires SortedByDist(s) && s != [] && s[0].dist < x.dist
    requires multiset(rest) == multiset(s[1..]) + multiset{x}
    ensures forall k :: 0 <= k < |rest| ==> s[0].dist <= rest[k].dist
  {
    forall k | 0 <= k < |rest|
      ensures s[0].dist <= rest[k].dist
    {
      assert rest[k] in multiset(rest);
      if rest[k] != x {
        assert rest[k] in multiset(s[1..]);
        var j :| 0 <= j < |s[1..]| && s[1..][j] == rest[k];
        assert s[j + 1] == rest[k];
      }
    }
  }

  lemma ConsSorted<T>(a: Tagged<T>, s: seq<Tagged<T>>)
    requires SortedByDist(s)
    requires forall k :: 0 <= k < |s| ==> a.dist <= s[k].dist
    ensures SortedByDist([a] + s)
  {
    forall i, j | 0 <= i < j < |[a] + s|
      ensures ([a] + s)[i].dist <= ([a] + s)[j].dist
    {
      assert ([a] + s)[j] == s[j - 1];
      if i > 0 {
        assert ([a] + s)[i] == s[i - 1];
      }
    }
  }

  /** `sort_by` comparing the tagged distances: a stable sort. */
  function SortByDist<T>(s: seq<Tagged<T>>): (r: seq<Tagged<T>>)
    ensures SortedByDist(r)
    ensures |r| == |s|
    ensures multiset(r) == multiset(s)
  {
    if s == [] then
      []
    else
      assert s == [s[0]] + s[1..];
      Insert(s[0], SortByDist(s[1..]))
  }

  // ---------------------------------------------------------------------
  // select_vantage_point

  /** The fold of `select_vantage_point` over positions `j..` of
      `items`: the accumulator is replaced only by a strictly smaller
      distance from the probe item `p`. */
  function FoldNearest<T>(items: seq<Tagged<T>>, dist: (T, T) -> real, p: T, j: nat, acc: (real, nat)): (r: (real, nat))
    requires j <= |items| && acc.1 < |items|
    ensures r.1 < |items| && r.0 <= acc.0
    ensures forall k :: j <= k < |items| ==> r.0 <= dist(p, items[k].item)
    ensures r == acc ||
            (j <= r.1 && r.0 == dist(p, items[r.1].item) && r.0 < acc.0 &&
             forall k :: j <= k < r.1 ==> r.0 < dist(p, items[k].item))
    decreases |items| - j
  {
    if j == |items| then
      acc
    else
      var d := dist(p, items[j].item);
      FoldNearest(items, dist, p, j + 1, if d < acc.0 then (d, j) else acc)
  }

  /** `select_vantage_point` with the random index `probe`: the index of
      the item NEAREST to the probe item (the first such index), or
      `probe` itself when nothing is strictly nearer than the probe is
      to itself. */
  function SelectVantagePoint<T>(items: seq<Tagged<T>>, dist: (T, T) -> real, probe: nat): (r: nat)
    requires probe < |items|
    ensures r < |items|
    ensures forall k :: 0 <= k < |items| ==>
              dist(items[probe].item, items[r].item) <= dist(items[probe].item, items[k].item)
    ensures r == probe ||
            (dist(items[probe].item, items[r].item) < dist(items[probe].item, items[probe].item) &&
             forall k :: 0 <= k < r ==> dist(items[probe].item, items[r].item) < dist(items[probe].item, items[k].item))
  {
    var p := items[probe].item;
    FoldNearest(items, dist, p, 0, (dist(p, p), probe)).1
  }

  /** Under the metric axioms `d(x, x) == 0` and `d >= 0`, the selected
      vantage point is the random probe itself. */
  lemma SelectsProbe<T>(items: seq<Tagged<T>>, dist: (T, T) -> real, probe: nat)
    requires probe < |items|
    requires dist(items[probe].item, items[probe].item) == 0.0
    requires forall k :: 0 <= k < |items| ==> 0.0 <= dist(items[probe].item, items[k].item)
    ensures SelectVantagePoint(items, dist, probe) == probe
  {
  }

  /** The same fold keeping strictly LARGER distances: the running
      maximum from `acc` over `items[j..]`. */
  function FoldFarthest<T>(items: seq<Tagged<T>>, dist: (T, T) -> real, p: T, j: nat, acc: (real, nat)): (r: (real, nat))
    requires j <= |items| && acc.1 < |items|
    ensures r.1 < |items| && acc.0 <= r.0
    ensures forall k :: j <= k < |items| ==> dist(p, items[k].item) <= r.0
    ensures r == acc ||
            (j <= r.1 && r.0 == dist(p, items[r.1].item) && acc.0 < r.0 &&
             forall k :: j <= k < r.1 ==> dist(p, items[k].item) < r.0)
    decreases |items| - j
  {
    if j == |items| then
      acc
    else
      var d := dist(p, items[j].item);
      FoldFarthest(items, dist, p, j + 1, if d > acc.0 then (d, j) else acc)
  }

  /** The selection the doc comment of `select_vantage_point` describes:
      the index of the item FARTHEST from the probe item (the first such
      index), or `probe` itself when nothing is strictly farther from the
      probe than the probe is from itself. */
  function SelectFarthest<T>(items: seq<Tagged<T>>, dist: (T, T) -> real, probe: nat): (r: nat)
    requires probe < |items|
    ensures r < |items|
    ensures forall k :: 0 <= k < |items| ==>
              dist(items[probe].item, items[k].item) <= dist(items[probe].item, items[r].item)
    ensures r == probe ||
            (dist(items[probe].item, items[probe].item) < dist(items[probe].item, items[r].item) &&
             forall k :: 0 <= k < r ==> dist(items[probe].item, items[k].item) < dist(items[probe].item, items[r].item))
  {
    var p := items[probe].item;
    FoldFarthest(items, dist, p, 0, (dist(p, p), probe)).1
  }

  /** Under the metric axioms, as soon as one item lies at a positive
      distance from the probe, the code's selection (the probe itself)
      and the documented one (a farthest item) differ. */
  lemma SelectionsDiffer<T>(items: seq<Tagged<T>>, dist: (T, T) -> real, probe: nat)
    requires probe < |items|
    requires dist(items[probe].item, items[probe].item) == 0.0
    requires forall k :: 0 <= k < |items| ==> 0.0 <= dist(items[probe].item, items[k].item)
    requires exists k :: 0 <= k < |items| && 0.0 < dist(items[probe].item, items[k].item)
    ensures SelectVantagePoint(items, dist, probe) == probe
    ensures SelectFarthest(items, dist, probe) != probe
  {
    SelectsProbe(items, dist, probe);
    var k :| 0 <= k < |items| && 0.0 < dist(items[probe].item, items[k].item);
    var r := SelectFarthest(items, dist, probe);
    assert dist(items[probe].item, items[k].item) <= dist(items[probe].item, items[r].item);
  }

  /** The absolute difference of two reals, a metric on `real`. */
  function RealDist(x: real, y: real): real {
    if x < y then y - x else x - y
  }

  /** Two points on the real line, probe at index 0: the code selects
      the probe, the documented selection is the other point. */
  lemma SelectionsDifferOnTwoPoints()
    ensures SelectVantagePoint([Tagged(0.0, 0.0), Tagged(1.0, 0.0)], RealDist, 0) == 0
    ensures SelectFarthest([Tagged(0.0, 0.0), Tagged(1.0, 0.0)], RealDist, 0) == 1
  {
  }

  // ---------------------------------------------------------------------
  // The shape of a built tree

  function Size<T>(node: Node<T>): (r: nat)
    decreases node
  {
    1 + (if node.inner.Some? then Size(node.inner.value) else 0)
      + (if node.outer.Some? then Size(node.outer.value) else 0)
  }

  /** The multiset of centers stored in a subtree. */
  ghost function Centers<T>(node: Node<T>): multiset<T>
    decreases node
  {
    multiset{node.center}
      + (if node.inner.Some? then Centers(node.inner.value) else multiset{})
      + (if node.outer.Some? then Centers(node.outer.value) else multiset{})
  }

  lemma {:induction false} CentersCount<T>(node: Node<T>)
    ensures |Centers(node)| == Size(node)
    decreases node
  {
    if node.inner.Some? { CentersCount(node.inner.value); }
    if node.outer.Some? { CentersCount(node.outer.value); }
  }

  /** Every node is a leaf (no child, no `mu`) or an internal node with
      `mu`, an inner child of `(n + 1) / 2` nodes, where `n` is the size
      of the node, and an outer child exactly when `n > 3`. */
  ghost predicate Shaped<T>(node: Node<T>)
    decreases node
  {
    match node
    case Node(None, None, _, None) => true
    case Node(Some(inner), outer, _, Some(_)) =>
      Size(inner) == (Size(node) + 1) / 2 &&
      (outer.None? <==> Size(node) <= 3) &&
      Shaped(inner) &&
      (outer.Some? ==> Shaped(outer.value))
    case _ => false
  }

  /** At every internal node, `mu` is the largest distance from an inner
      center to the node's center, and no outer center is nearer than
      `mu`. */
  ghost predicate Separated<T>(node: Node<T>, dist: (T, T) -> real)
    decreases node
  {
    match node
    case Node(Some(inner), outer, c, Some(mu)) =>
      (forall x :: x in Centers(inner) ==> dist(x, c) <= mu) &&
      (exists x :: x in Centers(inner) && dist(x, c) == mu) &&
      (outer.Some? ==> forall y :: y in Centers(outer.value) ==> mu <= dist(y, c)) &&
      Separated(inner, dist) &&
      (outer.Some? ==> Separated(outer.value, dist))
    case _ => true
  }

  /** The sizes of the two halves of an internal node of a shaped tree. */
  lemma ShapedHalves<T>(node: Node<T>)
    requires Shaped(node)
    ensures node.mu.None? <==> Size(node) == 1
    ensures node.mu.Some? ==>
              node.inner.Some? &&
              Size(node.inner.value) == (Size(node) + 1) / 2 &&
              (node.outer.Some? ==> Size(node.outer.value) == Size(node) - 1 - (Size(node) + 1) / 2) &&
              (node.outer.None? <==> Size(node) <= 3)
  {
  }

  // ---------------------------------------------------------------------
  // VPNode::new

  /** `node` is a well-formed subtree over exactly the items `items`. */
  ghost predicate Built<T>(node: Node<T>, items: seq<Tagged<T>>, dist: (T, T) -> real) {
    Size(node) == |items| && Centers(node) == multiset(Items(items)) && Shaped(node) && Separated(node, dist)
  }

  /** `VPNode::new`: build a subtree over `items`. The random index of
      each `select_vantage_point` call is read from `draws`, starting at
      position `next`; `next'` is the first position left unread. */
  method BuildNode<T>(items: seq<Tagged<T>>, dist: (T, T) -> real, draws: seq<nat>, next: nat)
    returns (node: Node<T>, next': nat)
    requires |items| >= 1
    requires next + |items| <= |draws| + 1
    ensures |items| == 1 ==> node == Node(None, None, items[0].item, None)
    ensures |items| >= 2 ==> node.center == items[SelectVantagePoint(items, dist, draws[next] % |items|)].item
    ensures Built(node, items, dist)
    ensures next <= next' < next + |items|
    decreases |items|, 0
  {
    if |items| == 1 {
      LeafBuilt(items, dist);
      return Node(None, None, items[0].item, None), next;
    }

    var vp, innerItems, rightItems, mu := SplitAtVantagePoint(items, dist, draws[next] % |items|);

    var inner, outer;
    inner, next' := BuildChild(innerItems, dist, draws, next + 1);
    outer, next' := BuildChild(rightItems, dist, draws, next');
    node := Node(inner, outer, vp, Some(mu));
    AssembleNode(items, vp, innerItems, rightItems, mu, inner.value, outer, dist);
  }

  /** A single item makes a leaf. */
  lemma LeafBuilt<T>(items: seq<Tagged<T>>, dist: (T, T) -> real)
    requires |items| == 1
    ensures Built(Node(None, None, items[0].item, None), items, dist)
  {
    assert Items(items) == [items[0].item];
  }

  /** A child of an internal node: none for no items, otherwise the
      subtree `VPNode::new` builds over them. */
  method BuildChild<T>(items: seq<Tagged<T>>, dist: (T, T) -> real, draws: seq<nat>, next: nat)
    returns (child: Option<Node<T>>, next': nat)
    requires next + |items| <= |draws| + 1
    ensures child.None? <==> |items| == 0
    ensures child.Some? ==> Built(child.value, items, dist)
    ensures next <= next' && (|items| == 0 ==> next' == next) && (|items| > 0 ==> next' < next + |items|)
    decreases |items|, 1
  {
    if |items| == 0 {
      return None, next;
    }
    var node;
    node, next' := BuildNode(items, dist, draws, next);
    child := Some(node);
  }

  /** The node `VPNode::new` assembles from the vantage point `vp`, `mu`
      and the subtrees built over the two halves has the size, centers,
      shape and separation its items call for. */
  lemma AssembleNode<T>(items: seq<Tagged<T>>, vp: T, innerItems: seq<Tagged<T>>, rightItems: seq<Tagged<T>>,
                        mu: real, inner: Node<T>, outer: Option<Node<T>>, dist: (T, T) -> real)
    requires |items| >= 2
    requires |innerItems| == (|items| + 1) / 2 && |rightItems| == |items| - 1 - (|items| + 1) / 2
    requires multiset{vp} + multiset(Items(innerItems)) + multiset(Items(rightItems)) == multiset(Items(items))
    requires forall x :: x in multiset(Items(innerItems)) ==> dist(x, vp) <= mu
    requires exists x :: x in multiset(Items(innerItems)) && dist(x, vp) == mu
    requires forall y :: y in multiset(Items(rightItems)) ==> mu <= dist(y, vp)
    requires Built(inner, innerItems, dist)
    requires outer.None? <==> |rightItems| == 0
    requires outer.Some? ==> Built(outer.value, rightItems, dist)
    ensures Built(Node(Some(inner), outer, vp, Some(mu)), items, dist)
  {
    assert |rightItems| == 0 ==> multiset(Items(rightItems)) == multiset{};
    InternalShaped(inner, outer, vp, mu, |items|);
    var w :| w in multiset(Items(innerItems)) && dist(w, vp) == mu;
    InternalSeparated(inner, outer, vp, mu, dist, w);
  }

  /** The steps of `VPNode::new` before the recursion, on two or more
      items: select the vantage point (with random index `probe`), take
      it out with `swap_remove`, tag the others with their distance to
      it, sort them by that distance and cut them at `(n + 1) / 2`, where
      `n` counts the vantage point; `mu` is the last inner distance. */
  method SplitAtVantagePoint<T>(items: seq<Tagged<T>>, dist: (T, T) -> real, probe: nat)
    returns (vp: T, innerItems: seq<Tagged<T>>, rightItems: seq<Tagged<T>>, mu: real)
    requires |items| >= 2 && probe < |items|
    ensures vp == items[SelectVantagePoint(items, dist, probe)].item
    ensures |innerItems| == (|items| + 1) / 2 && |rightItems| == |items| - 1 - (|items| + 1) / 2
    ensures multiset{vp} + multiset(Items(innerItems)) + multiset(Items(rightItems)) == multiset(Items(items))
    ensures forall x :: x in multiset(Items(innerItems)) ==> dist(x, vp) <= mu
    ensures exists x :: x in multiset(Items(innerItems)) && dist(x, vp) == mu
    ensures forall y :: y in multiset(Items(rightItems)) ==> mu <= dist(y, vp)
  {
    var selIndex := SelectVantagePoint(items, dist, probe);
    var n := |items|;
    var removed := SwapRemove(items, selIndex);
    var vpTagged, remaining := removed.0, removed.1;
    vp := vpTagged.item;

    var tagged := TagDistances(remaining, vp, dist);
    var sorted := SortByDist(tagged);
    var split := (n + 1) / 2;
    assert |sorted| == n - 1 && 1 <= split <= n - 1;
    innerItems, rightItems := sorted[..split], sorted[split..];
    mu := innerItems[|innerItems| - 1].dist;
    SplitFacts(items, remaining, vpTagged, tagged, sorted, split, dist, vp, innerItems, rightItems, mu);
  }

  /** What the steps of `SplitAtVantagePoint` establish, from what each
      step promises on its own. */
  lemma SplitFacts<T>(items: seq<Tagged<T>>, remaining: seq<Tagged<T>>, vpTagged: Tagged<T>,
                      tagged: seq<Tagged<T>>, sorted: seq<Tagged<T>>, split: nat, dist: (T, T) -> real,
                      vp: T, innerItems: seq<Tagged<T>>, rightItems: seq<Tagged<T>>, mu: real)
    requires multiset(remaining) + multiset{vpTagged} == multiset(items) && vp == vpTagged.item
    requires Items(tagged) == Items(remaining)
    requires forall k :: 0 <= k < |tagged| ==> tagged[k].dist == dist(tagged[k].item, vp)
    requires SortedByDist(sorted) && multiset(sorted) == multiset(tagged)
    requires 0 < split <= |sorted| && innerItems == sorted[..split] && rightItems == sorted[split..]
    requires mu == innerItems[|innerItems| - 1].dist
    ensures multiset{vp} + multiset(Items(innerItems)) + multiset(Items(rightItems)) == multiset(Items(items))
    ensures forall x :: x in multiset(Items(innerItems)) ==> dist(x, vp) <= mu
    ensures exists x :: x in multiset(Items(innerItems)) && dist(x, vp) == mu
    ensures forall y :: y in multiset(Items(rightItems)) ==> mu <= dist(y, vp)
  {
    BuildKeepsItems(items, remaining, vpTagged, tagged, sorted, split);
    PermutationKeepsTags(sorted, tagged, vp, dist);
    SplitSeparates(sorted, split, vp, dist);
    assert innerItems[|innerItems| - 1] == sorted[split - 1];
  }

  /** The loop of `VPNode::new` that records, for every remaining item,
      its distance to the vantage point `c`. */
  method TagDistances<T>(remaining: seq<Tagged<T>>, c: T, dist: (T, T) -> real) returns (tagged: seq<Tagged<T>>)
    ensures Items(tagged) == Items(remaining)
    ensures forall k :: 0 <= k < |tagged| ==> tagged[k].dist == dist(tagged[k].item, c)
  {
    tagged := remaining;
    var i := 0;
    while i < |tagged|
      invariant 0 <= i <= |tagged| == |remaining|
      invariant Items(tagged) == Items(remaining)
      invariant forall k :: 0 <= k < i ==> tagged[k].dist == dist(tagged[k].item, c)
    {
      tagged := tagged[i := Tagged(tagged[i].item, dist(tagged[i].item, c))];
      i := i + 1;
    }
  }

  /** The items of the vantage point and of the two halves are the
      items the node was built from. */
  lemma BuildKeepsItems<T>(items: seq<Tagged<T>>, remaining: seq<Tagged<T>>, vp: Tagged<T>,
                           tagged: seq<Tagged<T>>, sorted: seq<Tagged<T>>, split: nat)
    requires multiset(remaining) + multiset{vp} == multiset(items)
    requires Items(tagged) == Items(remaining)
    requires multiset(sorted) == multiset(tagged)
    requires split <= |sorted|
    ensures multiset{vp.item} + multiset(Items(sorted[..split])) + multiset(Items(sorted[split..]))
            == multiset(Items(items))
  {
    assert sorted == sorted[..split] + sorted[split..];
    ItemsAppend(sorted[..split], sorted[split..]);
    ItemsPermutation(sorted, tagged);
    assert multiset(remaining + [vp]) == multiset(items);
    ItemsPermutation(remaining + [vp], items);
    ItemsAppend(remaining, [vp]);
  }

  /** Reordering tagged items keeps each one's tag. */
  lemma PermutationKeepsTags<T>(s: seq<Tagged<T>>, t: seq<Tagged<T>>, c: T, dist: (T, T) -> real)
    requires multiset(s) == multiset(t)
    requires forall k :: 0 <= k < |t| ==> t[k].dist == dist(t[k].item, c)
    ensures forall k :: 0 <= k < |s| ==> s[k].dist == dist(s[k].item, c)
  {
    forall k | 0 <= k < |s|
      ensures s[k].dist == dist(s[k].item, c)
    {
      assert s[k] in multiset(t);
      var j :| 0 <= j < |t| && t[j] == s[k];
    }
  }

  /** Cutting the sorted, tagged items at `split`: every inner item is
      within the last inner tag of `c`, the last inner item is exactly
      that far, and every outer item is at least that far. */
  lemma SplitSeparates<T>(sorted: seq<Tagged<T>>, split: nat, c: T, dist: (T, T) -> real)
    requires 0 < split <= |sorted| && SortedByDist(sorted)
    requires forall k :: 0 <= k < |sorted| ==> sorted[k].dist == dist(sorted[k].item, c)
    ensures forall x :: x in multiset(Items(sorted[..split])) ==> dist(x, c) <= sorted[split - 1].dist
    ensures sorted[split - 1].item in multiset(Items(sorted[..split]))
    ensures dist(sorted[split - 1].item, c) == sorted[split - 1].dist
    ensures forall y :: y in multiset(Items(sorted[split..])) ==> sorted[split - 1].dist <= dist(y, c)
  {
    var inner, outer := sorted[..split], sorted[split..];
    forall x | x in multiset(Items(inner))
      ensures dist(x, c) <= sorted[split - 1].dist
    {
      var k :| 0 <= k < |inner| && Items(inner)[k] == x;
      assert inner[k] == sorted[k];
    }
    assert Items(inner)[split - 1] == sorted[split - 1].item;
    forall y | y in multiset(Items(outer))
      ensures sorted[split - 1].dist <= dist(y, c)
    {
      var k :| 0 <= k < |outer| && Items(outer)[k] == y;
      assert outer[k] == sorted[split + k];
    }
  }

  /** An internal node over `n >= 2` items whose inner child holds
      `(n + 1) / 2` of them and whose outer child, present exactly when
      anything is left, holds the rest, is shaped. */
  lemma InternalShaped<T>(inner: Node<T>, outer: Option<Node<T>>, c: T, mu: real, n: nat)
    requires n >= 2 && Size(inner) == (n + 1) / 2 && Shaped(inner)
    requires outer.None? <==> n - 1 - (n + 1) / 2 == 0
    requires outer.Some? ==> Size(outer.value) == n - 1 - (n + 1) / 2 && Shaped(outer.value)
    ensures Size(Node(Some(inner), outer, c, Some(mu))) == n
    ensures Shaped(Node(Some(inner), outer, c, Some(mu)))
  {
    assert n - 1 - (n + 1) / 2 == 0 <==> n <= 3;
  }

  /** An internal node is separated when its own `mu` splits its two
      children and the children are separated. */
  lemma InternalSeparated<T>(inner: Node<T>, outer: Option<Node<T>>, c: T, mu: real, dist: (T, T) -> real, w: T)
    requires forall x :: x in Centers(inner) ==> dist(x, c) <= mu
    requires w in Centers(inner) && dist(w, c) == mu
    requires outer.Some? ==> forall y :: y in Centers(outer.value) ==> mu <= dist(y, c)
    requires Separated(inner, dist) && (outer.Some? ==> Separated(outer.value, dist))
    ensures Separated(Node(Some(inner), outer, c, Some(mu)), dist)
  {
  }

  // ---------------------------------------------------------------------
  // VPTree::new

  /** `VPTree::new`: no tree for no items; otherwise a tree built over
      all of them. */
  method NewTree<T>(items: seq<T>, dist: (T, T) -> real, draws: seq<nat>) returns (tree: Option<Tree<T>>)
    requires |items| <= |draws| + 1
    ensures tree.None? <==> |items| == 0
    ensures tree.Some? ==>
              Size(tree.value.root) == |items| &&
              Centers(tree.value.root) == multiset(items) &&
              Shaped(tree.value.root) &&
              Separated(tree.value.root, dist)
  {
    var n := |items|;
    if n > 0 {
      var tagged := seq(n, k requires 0 <= k < n => Tagged(items[k], 0.0));
      assert Items(tagged) == items;
      var root, _ := BuildNode(tagged, dist, draws, 0);
      tree := Some(Tree(root));
    } else {
      tree := None;
    }
  }

  // ---------------------------------------------------------------------
  // HeapElem ordering and the max-heap

  /** `HeapElem::cmp`: elements are ordered (and equal) by distance
      alone; the node they refer to plays no part. */
  function Cmp<T>(a: HeapElem<T>, b: HeapElem<T>): (r: Ordering)
    ensures r == Less <==> a.dist < b.dist
    ensures r == Equal <==> a.dist == b.dist
    ensures r == Greater <==> b.dist < a.dist
  {
    if a.dist < b.dist then Less else if a.dist == b.dist then Equal else Greater
  }

  /** `Cmp` is a total preorder that agrees with the order of distances. */
  lemma CmpIsTotalPreorder<T>(a: HeapElem<T>, b: HeapElem<T>, c: HeapElem<T>)
    ensures Cmp(a, b) != Greater <==> a.dist <= b.dist
    ensures Cmp(a, b) == Equal <==> a.dist == b.dist
    ensures Cmp(a, b) == Less <==> Cmp(b, a) == Greater
    ensures Cmp(a, b) != Greater && Cmp(b, c) != Greater ==> Cmp(a, c) != Greater
  {
  }

  /** `m` is a greatest element of `h` under `Cmp`. */
  predicate IsGreatest<T(==)>(m: HeapElem<T>, h: multiset<HeapElem<T>>) {
    m in h && forall x :: x in h ==> Cmp(x, m) != Greater
  }

  lemma {:induction false} GreatestExists<T>(h: multiset<HeapElem<T>>)
    requires h != multiset{}
    ensures exists m :: IsGreatest(m, h)
    decreases |h|
  {
    var x :| x in h;
    var h' := h - multiset{x};
    assert forall y :: y in h ==> y == x || y in h';
    if h' == multiset{} {
      assert IsGreatest(x, h);
    } else {
      GreatestExists(h');
      var m' :| IsGreatest(m', h');
      if m'.dist <= x.dist {
        assert IsGreatest(x, h);
      } else {
        assert IsGreatest(m', h);
      }
    }
  }

  /** The distance at the top of a non-empty heap. */
  ghost function MaxDist<T(!new)>(h: multiset<HeapElem<T>>): (r: real)
    requires h != multiset{}
    ensures exists m :: IsGreatest(m, h) && m.dist == r
    ensures forall x :: x in h ==> x.dist <= r
  {
    GreatestExists(h);
    var m :| IsGreatest(m, h);
    m.dist
  }

  /** `BinaryHeap<HeapElem>`: a max-heap, kept as the multiset of its
      elements. */
  class MaxHeap<T(==)> {
    var elems: multiset<HeapElem<T>>

    /** `BinaryHeap::new`. */
    constructor ()
      ensures elems == multiset{}
    {
      elems := multiset{};
    }

    /** `BinaryHeap::peek`: a greatest element, `None` when empty. */
    method Peek() returns (top: Option<HeapElem<T>>)
      ensures top.None? <==> elems == multiset{}
      ensures top.Some? ==> IsGreatest(top.value, elems)
    {
      if elems == multiset{} {
        top := None;
      } else {
        GreatestExists(elems);
        var m :| IsGreatest(m, elems);
        top := Some(m);
      }
    }

    /** `BinaryHeap::push`. */
    method Push(e: HeapElem<T>)
      modifies this
      ensures elems == old(elems) + multiset{e}
    {
      elems := elems + multiset{e};
    }

    /** `BinaryHeap::replace`: pop a greatest element and push `e`; on
        an empty heap, only push. */
    method Replace(e: HeapElem<T>) returns (popped: Option<HeapElem<T>>)
      modifies this
      ensures old(elems) == multiset{} ==> popped.None? && elems == multiset{e}
      ensures old(elems) != multiset{} ==>
                popped.Some? && IsGreatest(popped.value, old(elems)) &&
                elems == old(elems) - multiset{popped.value} + multiset{e}
    {
      if elems == multiset{} {
        popped := None;
        elems := multiset{e};
      } else {
        GreatestExists(elems);
        var m :| IsGreatest(m, elems);
        popped := Some(m);
        elems := elems - multiset{m} + multiset{e};
      }
    }
  }

  // ---------------------------------------------------------------------
  // push_up_to_max

  /** The heaps `h'` that `push_up_to_max(h, n, e)` may leave: `e` added
      while there is room; otherwise a greatest element replaced by `e`
      when it is strictly farther; otherwise `h` unchanged. An empty heap
      with no room (`n == 0`) panics, and has no outcome. */
  ghost predicate PushOutcome<T(!new)>(h: multiset<HeapElem<T>>, n: nat, e: HeapElem<T>, h': multiset<HeapElem<T>>) {
    if |h| < n then
      h' == h + multiset{e}
    else if h == multiset{} then
      false
    else if MaxDist(h) > e.dist then
      exists m :: IsGreatest(m, h) && h' == h - multiset{m} + multiset{e}
    else
      h' == h
  }

  /** `push_up_to_max`. */
  method PushUpToMax<T(==,!new)>(heap: MaxHeap<T>, n: nat, elem: HeapElem<T>)
    requires |heap.elems| < n || heap.elems != multiset{}
    modifies heap
    ensures PushOutcome(old(heap.elems), n, elem, heap.elems)
  {
    if |heap.elems| < n {
      heap.Push(elem);
    } else {
      var top := heap.Peek();
      assert top.value.dist == MaxDist(heap.elems);
      if top.value.dist > elem.dist {
        var _ := heap.Replace(elem);
      }
    }
  }

  /** `h` holds the `n` smallest distances of `s`: it is part of `s`,
      holds `min(n, |s|)` elements, and none of what it leaves out is
      nearer than what it keeps. */
  ghost predicate KeepsSmallest<T>(h: multiset<HeapElem<T>>, n: nat, s: multiset<HeapElem<T>>) {
    h <= s &&
    |h| == (if n < |s| then n else |s|) &&
    forall x, y :: x in h && y in s - h ==> x.dist <= y.dist
  }

  lemma SubMultisetOfSameSize<T>(h: multiset<T>, s: multiset<T>)
    requires h <= s && |h| == |s|
    ensures h == s
  {
    assert s == h + (s - h);
    assert |s - h| == 0;
  }

  /** The heap never grows past `max(n, old size)`. */
  lemma PushSize<T(!new)>(h: multiset<HeapElem<T>>, n: nat, e: HeapElem<T>, h': multiset<HeapElem<T>>)
    requires PushOutcome(h, n, e, h')
    ensures |h| < n ==> |h'| == |h| + 1
    ensures n <= |h| ==> |h'| == |h|
  {
    if n <= |h| && MaxDist(h) > e.dist {
      var m :| IsGreatest(m, h) && h' == h - multiset{m} + multiset{e};
      assert |h - multiset{m}| == |h| - 1;
    }
  }

  /** Pushing keeps the `n` smallest of everything offered so far. */
  lemma PushKeepsSmallest<T(!new)>(h: multiset<HeapElem<T>>, n: nat, s: multiset<HeapElem<T>>,
                             e: HeapElem<T>, h': multiset<HeapElem<T>>)
    requires KeepsSmallest(h, n, s) && PushOutcome(h, n, e, h')
    ensures KeepsSmallest(h', n, s + multiset{e})
  {
    if |h| < n {
      AppendKeepsSmallest(h, n, s, e);
    } else {
      var top := MaxDist(h);
      if top > e.dist {
        var m :| IsGreatest(m, h) && h' == h - multiset{m} + multiset{e};
        ReplaceKeepsSmallest(h, n, s, e, m);
      } else {
        KeepKeepsSmallest(h, n, s, e);
      }
    }
  }

  /** Room left: the heap held everything offered, and still does. */
  lemma AppendKeepsSmallest<T>(h: multiset<HeapElem<T>>, n: nat, s: multiset<HeapElem<T>>, e: HeapElem<T>)
    requires KeepsSmallest(h, n, s) && |h| < n
    ensures KeepsSmallest(h + multiset{e}, n, s + multiset{e})
  {
    SubMultisetOfSameSize(h, s);
    assert (s + multiset{e}) - (h + multiset{e}) == multiset{};
  }

  /** Full heap, strictly nearer element: replacing a greatest element
      `m` by `e` keeps the `n` smallest. */
  lemma ReplaceKeepsSmallest<T>(h: multiset<HeapElem<T>>, n: nat, s: multiset<HeapElem<T>>,
                                e: HeapElem<T>, m: HeapElem<T>)
    requires KeepsSmallest(h, n, s) && n <= |h|
    requires IsGreatest(m, h) && e.dist < m.dist
    ensures KeepsSmallest(h - multiset{m} + multiset{e}, n, s + multiset{e})
  {
    var h', s' := h - multiset{m} + multiset{e}, s + multiset{e};
    assert |h - multiset{m}| == |h| - 1;
    assert h' <= s' by {
      forall z ensures h'[z] <= s'[z] {
        assert h[z] <= s[z];
      }
    }
    assert s' - h' == (s - h) + multiset{m} by {
      forall z ensures (s' - h')[z] == ((s - h) + multiset{m})[z] {
        assert h[z] <= s[z];
      }
    }
    forall x, y | x in h' && y in s' - h'
      ensures x.dist <= y.dist
    {
      assert x == e || x in h;
      assert y == m || y in s - h;
      if y != m {
        assert m.dist <= y.dist;
      }
    }
  }

  /** Full heap, element no nearer than the top: nothing changes. */
  lemma KeepKeepsSmallest<T>(h: multiset<HeapElem<T>>, n: nat, s: multiset<HeapElem<T>>, e: HeapElem<T>)
    requires KeepsSmallest(h, n, s) && n <= |h|
    requires forall x :: x in h ==> x.dist <= e.dist
    ensures KeepsSmallest(h, n, s + multiset{e})
  {
    var s' := s + multiset{e};
    assert s' - h == (s - h) + multiset{e} by {
      forall z ensures (s' - h)[z] == ((s - h) + multiset{e})[z] {
        assert h[z] <= s[z];
      }
    }
  }

  // ---------------------------------------------------------------------
  // VPNode::nearest_neighbors

  /** What the walk offers the heap: one element per node of the
      subtree, carrying the distance from `obj` to the node's center. */
  ghost function Offers<T>(node: Node<T>, obj: T, dist: (T, T) -> real): multiset<HeapElem<T>>
    decreases node
  {
    multiset{HeapElem(dist(obj, node.center), node)}
      + (if node.inner.Some? then Offers(node.inner.value, obj, dist) else multiset{})
      + (if node.outer.Some? then Offers(node.outer.value, obj, dist) else multiset{})
  }

  /** Every node is offered exactly once, with its true distance. */
  lemma OffersCoverTree<T>(node: Node<T>, obj: T, dist: (T, T) -> real)
    ensures |Offers(node, obj, dist)| == Size(node)
    ensures forall o :: o in Offers(node, obj, dist) ==>
              o.dist == dist(obj, o.item.center) && o.item.center in Centers(node)
    ensures forall x :: x in Centers(node) ==>
              exists o :: o in Offers(node, obj, dist) && o.item.center == x
  {
    OffersCount(node, obj, dist);
    forall o | o in Offers(node, obj, dist)
      ensures o.dist == dist(obj, o.item.center) && o.item.center in Centers(node)
    {
      OfferIsTrue(node, obj, dist, o);
    }
    forall x | x in Centers(node)
      ensures exists o :: o in Offers(node, obj, dist) && o.item.center == x
    {
      CenterIsOffered(node, obj, dist, x);
    }
  }

  lemma {:induction false} OffersCount<T>(node: Node<T>, obj: T, dist: (T, T) -> real)
    ensures |Offers(node, obj, dist)| == Size(node)
    decreases node
  {
    if node.inner.Some? { OffersCount(node.inner.value, obj, dist); }
    if node.outer.Some? { OffersCount(node.outer.value, obj, dist); }
  }

  /** A center of a child is a center of its parent. */
  lemma ChildCenter<T>(node: Node<T>, child: Node<T>, x: T)
    requires node.inner == Some(child) || node.outer == Some(child)
    requires x in Centers(child)
    ensures x in Centers(node)
  {
  }

  /** An offer made in a child's walk is made in its parent's. */
  lemma ChildOffer<T>(node: Node<T>, child: Node<T>, obj: T, dist: (T, T) -> real, o: HeapElem<T>)
    requires node.inner == Some(child) || node.outer == Some(child)
    requires o in Offers(child, obj, dist)
    ensures o in Offers(node, obj, dist)
  {
  }

  /** An offer carries the distance from `obj` to its node's center,
      and that center is one of the subtree's. */
  lemma {:induction false} OfferIsTrue<T>(node: Node<T>, obj: T, dist: (T, T) -> real, o: HeapElem<T>)
    requires o in Offers(node, obj, dist)
    ensures o.dist == dist(obj, o.item.center) && o.item.center in Centers(node)
    decreases node
  {
    if node.inner.Some? && o in Offers(node.inner.value, obj, dist) {
      OfferIsTrue(node.inner.value, obj, dist, o);
      ChildCenter(node, node.inner.value, o.item.center);
    } else if node.outer.Some? && o in Offers(node.outer.value, obj, dist) {
      OfferIsTrue(node.outer.value, obj, dist, o);
      ChildCenter(node, node.outer.value, o.item.center);
    }
  }

  /** Every center of the subtree is offered. */
  lemma {:induction false} CenterIsOffered<T>(node: Node<T>, obj: T, dist: (T, T) -> real, x: T)
    requires x in Centers(node)
    ensures exists o :: o in Offers(node, obj, dist) && o.item.center == x
    decreases node
  {
    if node.inner.Some? && x in Centers(node.inner.value) {
      CenterIsOffered(node.inner.value, obj, dist, x);
      var o :| o in Offers(node.inner.value, obj, dist) && o.item.center == x;
      ChildOffer(node, node.inner.value, obj, dist, o);
    } else if node.outer.Some? && x in Centers(node.outer.value) {
      CenterIsOffered(node.outer.value, obj, dist, x);
      var o :| o in Offers(node.outer.value, obj, dist) && o.item.center == x;
      ChildOffer(node, node.outer.value, obj, dist, o);
    } else {
      assert HeapElem(dist(obj, node.center), node) in Offers(node, obj, dist);
    }
  }

  /** `VPNode::nearest_neighbors`: visit every node (no pruning), pushing
      each center's distance from `obj` into the bounded heap. If the
      heap held the `n` smallest of what was offered before, it holds the
      `n` smallest of that and the whole subtree afterwards. */
  method NearestNeighbors<T(==,!new)>(node: Node<T>, obj: T, dist: (T, T) -> real, n: nat,
                             heap: MaxHeap<T>, ghost offered: multiset<HeapElem<T>>)
    requires 1 <= n && KeepsSmallest(heap.elems, n, offered)
    modifies heap
    ensures KeepsSmallest(heap.elems, n, offered + Offers(node, obj, dist))
    decreases node
  {
    var d := dist(obj, node.center);
    var elem := HeapElem(d, node);
    ghost var before := heap.elems;
    PushUpToMax(heap, n, elem);
    PushKeepsSmallest(before, n, offered, elem, heap.elems);
    ghost var seen := offered + multiset{elem};
    ghost var io := if node.inner.Some? then Offers(node.inner.value, obj, dist) else multiset{};
    ghost var oo := if node.outer.Some? then Offers(node.outer.value, obj, dist) else multiset{};

    if node.inner.Some? {
      NearestNeighbors(node.inner.value, obj, dist, n, heap, seen);
    } else {
      assert seen + io == seen;
    }
    if node.outer.Some? {
      NearestNeighbors(node.outer.value, obj, dist, n, heap, seen + io);
    } else {
      assert seen + io + oo == seen + io;
    }
    WalkOffers(node, obj, dist, offered);
  }

  /** What one call of the walk offers: its own node, then the inner
      child's offers, then the outer child's. */
  lemma WalkOffers<T>(node: Node<T>, obj: T, dist: (T, T) -> real, offered: multiset<HeapElem<T>>)
    ensures offered + multiset{HeapElem(dist(obj, node.center), node)}
              + (if node.inner.Some? then Offers(node.inner.value, obj, dist) else multiset{})
              + (if node.outer.Some? then Offers(node.outer.value, obj, dist) else multiset{})
            == offered + Offers(node, obj, dist)
  {
    Regroup(offered, multiset{HeapElem(dist(obj, node.center), node)},
            if node.inner.Some? then Offers(node.inner.value, obj, dist) else multiset{},
            if node.outer.Some? then Offers(node.outer.value, obj, dist) else multiset{});
  }

  lemma Regroup<U>(a: multiset<U>, b: multiset<U>, c: multiset<U>, d: multiset<U>)
    ensures a + b + c + d == a + (b + c + d)
  {
    assert forall z :: (a + b + c + d)[z] == (a + (b + c + d))[z];
  }

  /** Started from an empty heap, the walk leaves `min(n, size)` entries
      in it, and they are the nearest centers of the whole tree. */
  lemma WalkFromEmptyHeap<T>(node: Node<T>, obj: T, dist: (T, T) -> real, n: nat, h: multiset<HeapElem<T>>)
    requires KeepsSmallest(h, n, multiset{} + Offers(node, obj, dist))
    ensures |h| == if n < Size(node) then n else Size(node)
    ensures forall x :: x in h ==> x.dist == dist(obj, x.item.center) && x.item.center in Centers(node)
    ensures forall x, y :: x in h && y in Offers(node, obj, dist) - h ==> x.dist <= y.dist
  {
    OffersCoverTree(node, obj, dist);
    assert multiset{} + Offers(node, obj, dist) == Offers(node, obj, dist);
  }

  /** A `k`-nearest query on a whole tree: a fresh empty heap walked by
      `nearest_neighbors` holds the `min(n, size)` centers nearest to
      `obj`, each with its true distance. */
  method NearestInTree<T(==,!new)>(root: Node<T>, obj: T, dist: (T, T) -> real, n: nat) returns (heap: MaxHeap<T>)
    requires 1 <= n
    ensures |heap.elems| == if n < Size(root) then n else Size(root)
    ensures forall x :: x in heap.elems ==> x.dist == dist(obj, x.item.center) && x.item.center in Centers(root)
    ensures forall x, y :: x in heap.elems && y in Offers(root, obj, dist) - heap.elems ==> x.dist <= y.dist
  {
    heap := new MaxHeap();
    NearestNeighbors(root, obj, dist, n, heap, multiset{});
    WalkFromEmptyHeap(root, obj, dist, n, heap.elems);
  }
}
