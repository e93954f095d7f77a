/**
 * Greedy Huffman tree construction (`makeTreeFromCounts`). The priority
 * queue is a sequence of trees; removing from it takes a tree of least
 * weight (the first one, where several weigh the same).
 */
module TreeBuilding {
  import opened Huff

  /** The symbols i < k whose count is positive, each once. */
  function PositiveBag(counts: seq<int>, k: nat): multiset<int>
    requires k <= |counts|
  {
    if k == 0 then multiset{}
    else PositiveBag(counts, k - 1) + (if counts[k - 1] > 0 then multiset{k - 1} else multiset{})
  }

  /** The sum of the positive counts below k. */
  function PositiveSum(counts: seq<int>, k: nat): int
    requires k <= |counts|
  {
    if k == 0 then 0
    else PositiveSum(counts, k - 1) + (if counts[k - 1] > 0 then counts[k - 1] else 0)
  }

  lemma {:induction false} PositiveBagCount(counts: seq<int>, k: nat, v: int)
    requires k <= |counts|
    ensures PositiveBag(counts, k)[v] == if 0 <= v < k && counts[v] > 0 then 1 else 0
  {
    if k > 0 {
      PositiveBagCount(counts, k - 1, v);
      var step := if counts[k - 1] > 0 then multiset{k - 1} else multiset{};
      assert PositiveBag(counts, k) == PositiveBag(counts, k - 1) + step;
      assert step[v] == if v == k - 1 && counts[k - 1] > 0 then 1 else 0;
    }
  }

  /** Every leaf of t is some symbol i of the table, weighted counts[i]. */
  predicate LeavesFrom(t: HuffNode, counts: seq<int>)
  {
    match t
    case Leaf(v, w) => 0 <= v < |counts| && w == counts[v]
    case Node(_, _, l, r) => LeavesFrom(l, counts) && LeavesFrom(r, counts)
  }

  /** The leaf symbols of all trees in the queue together. */
  function QueueBag(q: seq<HuffNode>): multiset<int>
  {
    if q == [] then multiset{} else ValueBag(q[0]) + QueueBag(q[1..])
  }

  /** The total weight of the trees in the queue. */
  function QueueWeight(q: seq<HuffNode>): int
  {
    if q == [] then 0 else q[0].weight + QueueWeight(q[1..])
  }

  lemma {:induction false} QueueConcat(a: seq<HuffNode>, b: seq<HuffNode>)
    ensures QueueBag(a + b) == QueueBag(a) + QueueBag(b)
    ensures QueueWeight(a + b) == QueueWeight(a) + QueueWeight(b)
  {
    if a == [] {
      assert a + b == b;
    } else {
      assert (a + b)[1..] == a[1..] + b;
      QueueConcat(a[1..], b);
    }
  }

  /** The queue after removing its k-th tree. */
  function Without(q: seq<HuffNode>, k: nat): (q': seq<HuffNode>)
    requires k < |q|
    ensures |q'| == |q| - 1
    ensures forall n | n in q' :: n in q
  {
    q[..k] + q[k + 1..]
  }

  /** Removing a tree from the queue removes exactly its leaves and weight. */
  lemma {:induction false} QueueRemove(q: seq<HuffNode>, k: nat)
    requires k < |q|
    ensures QueueBag(q) == ValueBag(q[k]) + QueueBag(Without(q, k))
    ensures QueueWeight(q) == q[k].weight + QueueWeight(Without(q, k))
  {
    var a, b := q[..k], q[k + 1..];
    assert q == (a + [q[k]]) + b;
    QueueConcat(a + [q[k]], b);
    QueueConcat(a, [q[k]]);
    QueueConcat(a, b);
    assert [q[k]][1..] == [];
  }

  /** The position of the first tree of least weight. */
  function MinIndex(q: seq<HuffNode>): (k: nat)
    requires |q| > 0
    ensures k < |q|
    ensures forall j | 0 <= j < |q| :: q[k].weight <= q[j].weight
  {
    if |q| == 1 then 0
    else
      var k := MinIndex(q[1..]) + 1;
      if q[0].weight <= q[k].weight then 0 else k
  }

  /** The trees of the queue are well weighted and their leaves come from
      the count table. */
  predicate QueueFrom(q: seq<HuffNode>, counts: seq<int>)
  {
    forall n | n in q :: WellWeighted(n) && LeavesFrom(n, counts)
  }

  lemma QueueFromAppend(q: seq<HuffNode>, t: HuffNode, counts: seq<int>)
    requires QueueFrom(q, counts) && WellWeighted(t) && LeavesFrom(t, counts)
    ensures QueueFrom(q + [t], counts)
  {
    forall n | n in q + [t]
      ensures WellWeighted(n) && LeavesFrom(n, counts)
    {
      if n != t {
        assert n in q;
      }
    }
  }

  /** The leaves the first loop puts in the queue, for the symbols below k
      with a positive count, in symbol order. */
  function InitialLeaves(counts: seq<int>, k: nat): seq<HuffNode>
    requires k <= |counts|
  {
    if k == 0 then []
    else InitialLeaves(counts, k - 1) + (if counts[k - 1] > 0 then [Leaf(k - 1, counts[k - 1])] else [])
  }

  lemma {:induction false} InitialLeavesNonEmpty(counts: seq<int>, k: nat, i: nat)
    requires i < k <= |counts| && counts[i] > 0
    ensures |InitialLeaves(counts, k)| > 0
  {
    if i < k - 1 {
      InitialLeavesNonEmpty(counts, k - 1, i);
    }
  }

  /** One merge round as a value: the lightest tree (the first, on ties) and
      then the lightest of the rest become the children of a new tree
      appended at the end. */
  function MergeStep(pq: seq<HuffNode>): (next: seq<HuffNode>)
    requires |pq| > 1
    ensures |next| == |pq| - 1
  {
    var rest := Without(pq, MinIndex(pq));
    var left, right := pq[MinIndex(pq)], rest[MinIndex(rest)];
    Without(rest, MinIndex(rest)) + [Node(0, left.weight + right.weight, left, right)]
  }

  /** The tree left after merging until one tree remains. */
  function Greedy(pq: seq<HuffNode>): HuffNode
    requires |pq| > 0
    decreases |pq|
  {
    if |pq| == 1 then pq[0] else Greedy(MergeStep(pq))
  }

  /** One round of the merge loop: remove a lightest tree (position k), then
      a lightest of the rest (position k' of what is left), and add back the
      tree with the first on the left and the second on the right. All other
      trees stay, in order; the queue keeps its leaves and total weight. */
  method MergeLightest(pq: seq<HuffNode>, ghost counts: seq<int>)
    returns (next: seq<HuffNode>, ghost k: nat, ghost k': nat)
    requires |pq| > 1
    requires QueueFrom(pq, counts)
    ensures k < |pq| && k' < |pq| - 1
    ensures forall j | 0 <= j < |pq| :: pq[k].weight <= pq[j].weight
    ensures forall j | 0 <= j < |pq| - 1 :: Without(pq, k)[k'].weight <= Without(pq, k)[j].weight
    ensures var left, right := pq[k], Without(pq, k)[k'];
      next == Without(Without(pq, k), k') + [Node(0, left.weight + right.weight, left, right)]
    ensures QueueBag(next) == QueueBag(pq)
    ensures QueueWeight(next) == QueueWeight(pq)
    ensures QueueFrom(next, counts)
    ensures next == MergeStep(pq)
  {
    var i := MinIndex(pq);
    var rest := Without(pq, i);
    var j := MinIndex(rest);
    var left, right := pq[i], rest[j];
    next := Without(rest, j) + [Node(0, left.weight + right.weight, left, right)];
    k, k' := i, j;
    MergeKeepsQueue(pq, i, j, counts);
  }

  /** Merging the trees at positions i and then j of the rest keeps the
      queue's leaves, its total weight and the shape of its trees. */
  lemma MergeKeepsQueue(pq: seq<HuffNode>, i: nat, j: nat, counts: seq<int>)
    requires i < |pq| && j < |pq| - 1
    requires QueueFrom(pq, counts)
    ensures var rest := Without(pq, i);
      var left, right := pq[i], rest[j];
      var next := Without(rest, j) + [Node(0, left.weight + right.weight, left, right)];
      QueueBag(next) == QueueBag(pq) && QueueWeight(next) == QueueWeight(pq) && QueueFrom(next, counts)
  {
    var rest := Without(pq, i);
    var left, right := pq[i], rest[j];
    var t := Node(0, left.weight + right.weight, left, right);
    MergeKeepsTotals(pq, i, j, t);
    assert right in pq;
    QueueFromAppend(Without(rest, j), t, counts);
  }

  /** Replacing the trees at positions i and then j of the rest by a tree
      holding both keeps the queue's leaves and total weight. */
  lemma MergeKeepsTotals(pq: seq<HuffNode>, i: nat, j: nat, t: HuffNode)
    requires i < |pq| && j < |pq| - 1
    requires t == Node(0, pq[i].weight + Without(pq, i)[j].weight, pq[i], Without(pq, i)[j])
    ensures QueueBag(Without(Without(pq, i), j) + [t]) == QueueBag(pq)
    ensures QueueWeight(Without(Without(pq, i), j) + [t]) == QueueWeight(pq)
  {
    var rest := Without(pq, i);
    QueueRemove(pq, i);
    QueueRemove(rest, j);
    AppendMerged(pq, rest, Without(rest, j), t);
  }

  /** The totals step of a merge: the queue without the two lightest trees,
      with their merge appended, has the leaves and weight of the whole. */
  lemma AppendMerged(pq: seq<HuffNode>, rest: seq<HuffNode>, rest': seq<HuffNode>, t: HuffNode)
    requires t.Node? && t.weight == t.left.weight + t.right.weight
    requires QueueBag(pq) == ValueBag(t.left) + QueueBag(rest)
    requires QueueWeight(pq) == t.left.weight + QueueWeight(rest)
    requires QueueBag(rest) == ValueBag(t.right) + QueueBag(rest')
    requires QueueWeight(rest) == t.right.weight + QueueWeight(rest')
    ensures QueueBag(rest' + [t]) == QueueBag(pq)
    ensures QueueWeight(rest' + [t]) == QueueWeight(pq)
  {
    QueueConcat(rest', [t]);
    assert [t][1..] == [];
  }

  /** The initial leaves hold exactly the symbols with a positive count,
      weighted by their counts. */
  lemma {:induction false} InitialLeavesFacts(counts: seq<int>, k: nat)
    requires k <= |counts|
    ensures QueueBag(InitialLeaves(counts, k)) == PositiveBag(counts, k)
    ensures QueueWeight(InitialLeaves(counts, k)) == PositiveSum(counts, k)
    ensures QueueFrom(InitialLeaves(counts, k), counts)
    ensures forall n | n in InitialLeaves(counts, k) :: n.Leaf?
  {
    if k > 0 {
      var pq := InitialLeaves(counts, k - 1);
      InitialLeavesFacts(counts, k - 1);
      var i := k - 1;
      if counts[i] > 0 {
        var leaf := Leaf(i, counts[i]);
        QueueConcat(pq, [leaf]);
        assert [leaf][1..] == [];
        assert QueueBag([leaf]) == multiset{i};
        assert QueueWeight([leaf]) == counts[i];
        QueueFromAppend(pq, leaf, counts);
      } else {
        assert InitialLeaves(counts, k) == pq + [];
        assert pq + [] == pq;
      }
    }
  }

  /** The first loop of the construction: one leaf per symbol with a
      positive count, in symbol order. */
  method InitialQueue(counts: seq<int>) returns (pq: seq<HuffNode>)
    ensures QueueBag(pq) == PositiveBag(counts, |counts|)
    ensures QueueWeight(pq) == PositiveSum(counts, |counts|)
    ensures QueueFrom(pq, counts)
    ensures forall n | n in pq :: n.Leaf?
    ensures pq == InitialLeaves(counts, |counts|)
  {
    pq := [];
    for i := 0 to |counts|
      invariant pq == InitialLeaves(counts, i)
    {
      if counts[i] > 0 {
        pq := pq + [Leaf(i, counts[i])];
      }
    }
    InitialLeavesFacts(counts, |counts|);
  }

  /** Builds the Huffman tree: one leaf per symbol with a positive count, then
      the two lightest trees are merged (first removed on the left) until one
      tree is left. With no positive count the final removal fails. */
  method MakeTreeFromCounts(counts: seq<int>) returns (r: Result<HuffNode>)
    ensures r.Err? <==> forall i | 0 <= i < |counts| :: counts[i] <= 0
    ensures r.Err? ==> r.error == EmptyQueue
    ensures r.Ok? ==> WellWeighted(r.value) && LeavesFrom(r.value, counts)
    ensures r.Ok? ==>
      forall v :: ValueBag(r.value)[v] == if 0 <= v < |counts| && counts[v] > 0 then 1 else 0
    ensures r.Ok? ==> r.value.weight == PositiveSum(counts, |counts|)
    ensures r.Ok? ==> |InitialLeaves(counts, |counts|)| > 0 && r.value == Greedy(InitialLeaves(counts, |counts|))
  {
    var pq := InitialQueue(counts);
    ghost var initial := pq;
    while |pq| > 1
      invariant |pq| > 0 <==> |initial| > 0
      invariant |pq| > 0 ==> Greedy(pq) == Greedy(initial)
      invariant QueueBag(pq) == PositiveBag(counts, |counts|)
      invariant QueueWeight(pq) == PositiveSum(counts, |counts|)
      invariant QueueFrom(pq, counts)
      decreases |pq|
    {
      ghost var k, k';
      pq, k, k' := MergeLightest(pq, counts);
    }
    if |pq| == 0 {
      forall i | 0 <= i < |counts|
        ensures counts[i] <= 0
      {
        PositiveBagCount(counts, |counts|, i);
      }
      return Err(EmptyQueue);
    }
    var root := pq[0];
    assert pq == [root] && pq[1..] == [];
    assert QueueBag(pq) == ValueBag(root);
    assert QueueWeight(pq) == root.weight;
    forall v
      ensures ValueBag(root)[v] == if 0 <= v < |counts| && counts[v] > 0 then 1 else 0
    {
      PositiveBagCount(counts, |counts|, v);
    }
    var v := LeftmostValue(root);
    assert 0 <= v < |counts| && counts[v] > 0;
    r := Ok(root);
  }
}
