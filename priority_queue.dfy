/** The sorted-list priority queue of priority_queue.py: Push appends and
    stable-sorts by weight, Pop takes the last (heaviest) node. */
module PriorityQueues {
  import opened Wrappers

  datatype Node<V> = Node(value: V, weight: int)

  /** Ascending by weight. */
  ghost predicate SortedByWeight<V>(q: seq<Node<V>>)
  {
    forall i, j :: 0 <= i < j < |q| ==> q[i].weight <= q[j].weight
  }

  /** One step of a stable insertion sort: `n` goes after every node whose
      weight is not greater than its own. */
  function InsertStable<V>(q: seq<Node<V>>, n: Node<V>): (r: seq<Node<V>>)
    ensures |r| == |q| + 1
    ensures multiset(r) == multiset(q) + multiset{n}
  {
    if q == [] then [n]
    else if n.weight < q[|q| - 1].weight then
      assert q == q[..|q| - 1] + [q[|q| - 1]];
      InsertStable(q[..|q| - 1], n) + [q[|q| - 1]]
    else q + [n]
  }

  /** A stable sort by weight (insertion sort), the reference for what
      `list.sort(key=_Weight)` computes. */
  function StableSort<V>(s: seq<Node<V>>): (r: seq<Node<V>>)
    ensures |r| == |s|
    ensures multiset(r) == multiset(s)
  {
    if s == [] then []
    else
      assert s == s[..|s| - 1] + [s[|s| - 1]];
      InsertStable(StableSort(s[..|s| - 1]), s[|s| - 1])
  }

  /** On a sorted list the insertion point is the first node heavier than n. */
  lemma {:induction false} InsertStableAt<V>(q: seq<Node<V>>, n: Node<V>, k: nat)
    requires k <= |q|
    requires forall i :: 0 <= i < k ==> q[i].weight <= n.weight
    requires forall i :: k <= i < |q| ==> n.weight < q[i].weight
    ensures InsertStable(q, n) == q[..k] + [n] + q[k..]
    decreases |q|
  {
    if q == [] {
    } else if n.weight < q[|q| - 1].weight {
      var init := q[..|q| - 1];
      InsertStableAt(init, n, k);
      assert init[..k] == q[..k];
      assert q[k..] == init[k..] + [q[|q| - 1]];
    } else {
      assert k == |q|;
    }
  }

  lemma {:induction false} InsertStableSorted<V>(q: seq<Node<V>>, n: Node<V>)
    requires SortedByWeight(q)
    ensures SortedByWeight(InsertStable(q, n))
    decreases |q|
  {
    if q == [] {
    } else if n.weight < q[|q| - 1].weight {
      var init := q[..|q| - 1];
      InsertStableSorted(init, n);
      var r := InsertStable(init, n);
      assert multiset(r) == multiset(init) + multiset{n};
      forall i | 0 <= i < |r|
        ensures r[i].weight <= q[|q| - 1].weight
      {
        assert r[i] in multiset(r);
        if r[i] == n {
        } else {
          assert r[i] in multiset(init);
          var j :| 0 <= j < |init| && init[j] == r[i];
          assert q[j] == init[j];
        }
      }
    } else {
    }
  }

  /** Sorting an already sorted list changes nothing. */
  lemma {:induction false} StableSortOfSorted<V>(q: seq<Node<V>>)
    requires SortedByWeight(q)
    ensures StableSort(q) == q
    decreases |q|
  {
    if q != [] {
      var init := q[..|q| - 1];
      assert SortedByWeight(init);
      StableSortOfSorted(init);
      InsertStableAt(init, q[|q| - 1], |init|);
      assert init + [q[|q| - 1]] == q;
    }
  }

  /** The reference sort is a sort: its result is ordered by weight. */
  lemma {:induction false} StableSortSorted<V>(s: seq<Node<V>>)
    ensures SortedByWeight(StableSort(s))
    decreases |s|
  {
    if s != [] {
      StableSortSorted(s[..|s| - 1]);
      InsertStableSorted(StableSort(s[..|s| - 1]), s[|s| - 1]);
    }
  }

  /** Sorted by weight, and among equal weights in push order. */
  ghost predicate QueueState<V>(queue: seq<Node<V>>, stamps: seq<nat>, pushes: nat)
  {
    && |stamps| == |queue|
    && SortedByWeight(queue)
    && (forall i :: 0 <= i < |stamps| ==> stamps[i] < pushes)
    && (forall i, j :: 0 <= i < j < |queue| && queue[i].weight == queue[j].weight
          ==> stamps[i] < stamps[j])
  }

  /** Inserting the newest node at its stable position keeps the state. */
  lemma InsertKeepsState<V>(q: seq<Node<V>>, stamps: seq<nat>, pushes: nat, n: Node<V>, k: nat)
    requires QueueState(q, stamps, pushes)
    requires k <= |q|
    requires forall i :: 0 <= i < k ==> q[i].weight <= n.weight
    requires forall i :: k <= i < |q| ==> n.weight < q[i].weight
    ensures QueueState(q[..k] + [n] + q[k..], stamps[..k] + [pushes] + stamps[k..], pushes + 1)
  {
    var q' := q[..k] + [n] + q[k..];
    var s' := stamps[..k] + [pushes] + stamps[k..];
    forall i, j | 0 <= i < j < |q'|
      ensures q'[i].weight <= q'[j].weight
      ensures q'[i].weight == q'[j].weight ==> s'[i] < s'[j]
    {
      if j < k {
        assert q'[i] == q[i] && q'[j] == q[j] && s'[i] == stamps[i] && s'[j] == stamps[j];
      } else if j == k {
        assert q'[i] == q[i] && s'[i] == stamps[i];
      } else if i < k {
        assert q'[i] == q[i] && q'[j] == q[j - 1] && s'[i] == stamps[i] && s'[j] == stamps[j - 1];
      } else if i == k {
        assert q'[j] == q[j - 1];
      } else {
        assert q'[i] == q[i - 1] && q'[j] == q[j - 1] && s'[i] == stamps[i - 1] && s'[j] == stamps[j - 1];
      }
    }
    forall i | 0 <= i < |s'|
      ensures s'[i] < pushes + 1
    {
      if i < k { assert s'[i] == stamps[i]; }
      else if i > k { assert s'[i] == stamps[i - 1]; }
    }
  }

  class PriorityQueue<V> {
    var queue: seq<Node<V>>
    /** Push order of each node (0 for the first push), and the number of
        pushes so far; both exist only for the specification. */
    ghost var stamps: seq<nat>
    ghost var pushes: nat

    ghost predicate Valid()
      reads this
    {
      QueueState(queue, stamps, pushes)
    }

    constructor ()
      ensures Valid() && queue == [] && pushes == 0
    {
      queue := [];
      stamps := [];
      pushes := 0;
    }

    /** Append, then stable-sort by weight. */
    method Push(value: V, weight: int)
      requires Valid()
      modifies this
      ensures Valid()
      ensures queue == StableSort(old(queue) + [Node(value, weight)])
      ensures multiset(queue) == multiset(old(queue)) + multiset{Node(value, weight)}
      ensures |queue| == |old(queue)| + 1
      ensures pushes == old(pushes) + 1
    {
      var node := Node(value, weight);
      var q := queue;
      var k := |q|;
      while k > 0 && weight < q[k - 1].weight
        invariant 0 <= k <= |q|
        invariant forall i :: k <= i < |q| ==> weight < q[i].weight
        decreases k
      {
        k := k - 1;
      }
      forall i | 0 <= i < k
        ensures q[i].weight <= weight
      {
        assert q[i].weight <= q[k - 1].weight;
      }
      InsertStableAt(q, node, k);
      StableSortOfSorted(q);
      assert (q + [node])[..|q|] == q;
      InsertKeepsState(q, stamps, pushes, node, k);
      queue := q[..k] + [node] + q[k..];
      stamps := stamps[..k] + [pushes] + stamps[k..];
      pushes := pushes + 1;
    }

    /** Removes the last node; on an empty queue `list.pop` raises. */
    method Pop() returns (r: Option<(V, int)>)
      requires Valid()
      modifies this
      ensures Valid()
      ensures r.None? <==> old(queue) == []
      ensures r.None? ==> queue == old(queue)
      ensures r.Some? ==> queue == old(queue)[..|old(queue)| - 1]
      ensures r.Some? ==> Node(r.value.0, r.value.1) == old(queue)[|old(queue)| - 1]
      ensures r.Some? ==> forall i :: 0 <= i < |old(queue)| ==> old(queue)[i].weight <= r.value.1
      ensures r.Some? ==> forall i :: 0 <= i < |old(queue)| - 1 && old(queue)[i].weight == r.value.1
                            ==> old(stamps)[i] < old(stamps)[|old(queue)| - 1]
    {
      if queue == [] {
        return None;
      }
      var node := queue[|queue| - 1];
      queue := queue[..|queue| - 1];
      stamps := stamps[..|stamps| - 1];
      r := Some((node.value, node.weight));
    }

    /** __len__ */
    function Len(): (n: nat)
      reads this
      ensures n == 0 <==> queue == []
    {
      |queue|
    }

    /** values(): the node values in ascending weight order. */
    function Values(): (vs: seq<V>)
      reads this
      ensures |vs| == |queue|
      ensures forall i :: 0 <= i < |vs| ==> vs[i] == queue[i].value
    {
      seq(|queue|, i requires 0 <= i < |queue| reads this => queue[i].value)
    }
  }
}
