/** Building a Huffman tree from a table of symbol frequencies: the
    constructor HuffmanCode(int[] frequencies). The priority queue is a
    sequence of trees whose order carries no meaning; removing from it takes
    some tree of least frequency, and which one on a tie is left open. */
module Builder {
  import opened HuffmanTree

  /** Why building can fail: taking the final root out of an empty queue. */
  datatype BuildError = EmptyQueue

  datatype Result<T> = Success(value: T) | Failure(error: BuildError)

  /** The invariant of every tree the builder makes: leaves carry a positive
      frequency; an interior node has symbol 0, two children, the sum of
      their frequencies, and a zero child no heavier than its one child. */
  predicate WellWeighted(t: HuffmanNode)
  {
    t.Node? &&
    if IsLeaf(t) then t.frequency > 0
    else
      t.data == 0 && WellWeighted(t.zeroLeft) && WellWeighted(t.oneRight) &&
      t.frequency == t.zeroLeft.frequency + t.oneRight.frequency &&
      t.zeroLeft.frequency <= t.oneRight.frequency
  }

  /** Every leaf of `t` holds an index of the frequency table and carries
      that index's frequency. */
  predicate LeafWeights(t: HuffmanNode, frequencies: seq<int>)
  {
    t.Null? ||
    if IsLeaf(t) then 0 <= t.data < |frequencies| && t.frequency == frequencies[t.data]
    else LeafWeights(t.zeroLeft, frequencies) && LeafWeights(t.oneRight, frequencies)
  }

  /** `s` is a subtree of `t` (or `t` itself). */
  predicate Contains(t: HuffmanNode, s: HuffmanNode)
    decreases t
  {
    t == s || (t.Node? && (Contains(t.zeroLeft, s) || Contains(t.oneRight, s)))
  }

  /** The greedy choice of the first merge: `s` joins two leaves, a zero
      child no heavier than any positive frequency and a one child no
      heavier than any positive frequency of another index. */
  predicate LightestPair(s: HuffmanNode, frequencies: seq<int>)
  {
    s.Node? && IsLeaf(s.zeroLeft) && IsLeaf(s.oneRight) &&
    (forall j :: 0 <= j < |frequencies| && frequencies[j] > 0 ==>
       s.zeroLeft.frequency <= frequencies[j]) &&
    (forall j :: 0 <= j < |frequencies| && frequencies[j] > 0 && j != s.zeroLeft.data ==>
       s.oneRight.frequency <= frequencies[j])
  }

  /** The indices whose frequency is positive, each once. */
  function PositiveSymbols(frequencies: seq<int>): multiset<int>
  {
    if frequencies == [] then multiset{}
    else
      var last := |frequencies| - 1;
      PositiveSymbols(frequencies[..last]) +
      (if frequencies[last] > 0 then multiset{last} else multiset{})
  }

  /** The sum of the positive frequencies. */
  function PositiveTotal(frequencies: seq<int>): nat
  {
    if frequencies == [] then 0
    else
      var last := |frequencies| - 1;
      PositiveTotal(frequencies[..last]) +
      (if frequencies[last] > 0 then frequencies[last] else 0)
  }

  /** The symbols held by all trees of a queue. */
  function QueueSymbols(q: seq<HuffmanNode>): multiset<int>
  {
    if q == [] then multiset{} else LeafSymbols(q[0]) + QueueSymbols(q[1..])
  }

  /** The total frequency of all trees of a queue. */
  function QueueWeight(q: seq<HuffmanNode>): nat
  {
    if q == [] then 0
    else (if q[0].Node? then q[0].frequency else 0) + QueueWeight(q[1..])
  }

  /** A well-weighted tree is full. */
  lemma {:induction false} WellWeightedIsFull(t: HuffmanNode)
    requires WellWeighted(t)
    ensures Full(t)
  {
    if !IsLeaf(t) {
      WellWeightedIsFull(t.zeroLeft);
      WellWeightedIsFull(t.oneRight);
    }
  }

  /** Each index occurs once in PositiveSymbols when its frequency is
      positive, and never otherwise. */
  lemma {:induction false} PositiveSymbolsCount(frequencies: seq<int>, i: int)
    ensures PositiveSymbols(frequencies)[i] ==
            if 0 <= i < |frequencies| && frequencies[i] > 0 then 1 else 0
  {
    if frequencies != [] {
      var last := |frequencies| - 1;
      PositiveSymbolsCount(frequencies[..last], i);
    }
  }

  /** When i is the only index with a positive frequency, it is the only
      symbol. */
  lemma SinglePositive(frequencies: seq<int>, i: nat)
    requires i < |frequencies| && frequencies[i] > 0
    requires forall j :: 0 <= j < |frequencies| && j != i ==> frequencies[j] <= 0
    ensures PositiveSymbols(frequencies) == multiset{i}
  {
    forall j: int ensures PositiveSymbols(frequencies)[j] == multiset{i}[j] {
      PositiveSymbolsCount(frequencies, j);
    }
  }

  /** When a and b are the only indices with a positive frequency, they
      are the symbols. */
  lemma TwoPositive(frequencies: seq<int>, a: nat, b: nat)
    requires a < |frequencies| && b < |frequencies| && a != b
    requires frequencies[a] > 0 && frequencies[b] > 0
    requires forall j :: 0 <= j < |frequencies| && j != a && j != b ==> frequencies[j] <= 0
    ensures PositiveSymbols(frequencies) == multiset{a, b}
  {
    forall j: int ensures PositiveSymbols(frequencies)[j] == multiset{a, b}[j] {
      PositiveSymbolsCount(frequencies, j);
    }
  }

  /** Extending the frequency table by one entry adds that entry's index
      and frequency when the frequency is positive. */
  lemma PositiveStep(frequencies: seq<int>, i: nat)
    requires i < |frequencies|
    ensures PositiveSymbols(frequencies[..i + 1]) ==
            PositiveSymbols(frequencies[..i]) + (if frequencies[i] > 0 then multiset{i} else multiset{})
    ensures PositiveTotal(frequencies[..i + 1]) ==
            PositiveTotal(frequencies[..i]) + (if frequencies[i] > 0 then frequencies[i] else 0)
  {
    assert frequencies[..i + 1][..i] == frequencies[..i];
  }

  lemma {:induction false} QueueAppend(a: seq<HuffmanNode>, b: seq<HuffmanNode>)
    ensures QueueSymbols(a + b) == QueueSymbols(a) + QueueSymbols(b)
    ensures QueueWeight(a + b) == QueueWeight(a) + QueueWeight(b)
  {
    if a == [] {
      assert a + b == b;
    } else {
      assert (a + b)[1..] == a[1..] + b;
      QueueAppend(a[1..], b);
    }
  }

  /** Taking the tree at position k out of a queue removes exactly its
      symbols and its weight. */
  lemma {:induction false} QueueRemove(q: seq<HuffmanNode>, k: nat)
    requires k < |q|
    ensures QueueSymbols(q) == LeafSymbols(q[k]) + QueueSymbols(q[..k] + q[k + 1..])
    ensures QueueWeight(q) == QueueWeight([q[k]]) + QueueWeight(q[..k] + q[k + 1..])
  {
    var front, back := q[..k], q[k + 1..];
    assert q == front + [q[k]] + back;
    QueueAppend(front + [q[k]], back);
    QueueAppend(front, [q[k]]);
    QueueAppend(front, back);
    assert QueueSymbols([q[k]]) == LeafSymbols(q[k]);
  }

  /** What the merge loop keeps: every queued tree is well weighted with
      leaves that carry their own frequencies, and together the trees hold
      the positive symbols and their total weight. */
  predicate QueueInvariant(q: seq<HuffmanNode>, frequencies: seq<int>)
  {
    (forall x :: x in q ==> WellWeighted(x) && LeafWeights(x, frequencies)) &&
    QueueSymbols(q) == PositiveSymbols(frequencies) &&
    QueueWeight(q) == PositiveTotal(frequencies)
  }

  /** Merging two well-weighted trees, the lighter one as the zero child,
      gives a well-weighted tree, and its leaves still carry their own
      frequencies; it may join other such trees. */
  lemma MergeKeepsWeighted(rest: seq<HuffmanNode>, frequencies: seq<int>, node1: HuffmanNode, node2: HuffmanNode)
    requires WellWeighted(node1) && WellWeighted(node2)
    requires LeafWeights(node1, frequencies) && LeafWeights(node2, frequencies)
    requires node1.frequency <= node2.frequency
    requires forall x :: x in rest ==> WellWeighted(x) && LeafWeights(x, frequencies)
    ensures forall x :: x in rest + [Merge(node1, node2)] ==> WellWeighted(x) && LeafWeights(x, frequencies)
  {
    assert WellWeighted(Merge(node1, node2));
  }

  /** Queueing the merge of two trees holds their symbols and weight. */
  lemma MergeKeepsContents(rest: seq<HuffmanNode>, node1: HuffmanNode, node2: HuffmanNode)
    requires node1.Node? && node2.Node?
    ensures QueueSymbols(rest + [Merge(node1, node2)]) ==
            LeafSymbols(node1) + (LeafSymbols(node2) + QueueSymbols(rest))
    ensures QueueWeight(rest + [Merge(node1, node2)]) ==
            node1.frequency + (node2.frequency + QueueWeight(rest))
  {
    var merged := Merge(node1, node2);
    QueueAppend(rest, [merged]);
    assert QueueSymbols([merged]) == LeafSymbols(merged);
    assert QueueWeight([merged]) == merged.frequency;
  }

  /** One round of the merge loop keeps the invariant: two removals, the
      lighter tree first, then the queueing of their merge. */
  lemma MergeStep(q: seq<HuffmanNode>, frequencies: seq<int>,
                  node1: HuffmanNode, rest1: seq<HuffmanNode>,
                  node2: HuffmanNode, rest2: seq<HuffmanNode>)
    requires QueueInvariant(q, frequencies)
    requires node1 in q && forall x :: x in rest1 ==> x in q
    requires node2 in rest1 && forall x :: x in rest2 ==> x in rest1
    requires QueueSymbols(q) == LeafSymbols(node1) + QueueSymbols(rest1)
    requires QueueSymbols(rest1) == LeafSymbols(node2) + QueueSymbols(rest2)
    requires QueueWeight(q) == node1.frequency + QueueWeight(rest1)
    requires QueueWeight(rest1) == node2.frequency + QueueWeight(rest2)
    requires node1.frequency <= node2.frequency
    ensures QueueInvariant(rest2 + [Merge(node1, node2)], frequencies)
  {
    MergeKeepsWeighted(rest2, frequencies, node1, node2);
    MergeKeepsContents(rest2, node1, node2);
  }

  /** Taking out the tree at position k leaves exactly the other trees. */
  lemma RemoveKeepsOthers(q: seq<HuffmanNode>, k: nat)
    requires k < |q|
    ensures multiset(q) == multiset(q[..k] + q[k + 1..]) + multiset{q[k]}
    ensures forall x :: x in q[..k] + q[k + 1..] ==> x in q
  {
    assert q == q[..k] + [q[k]] + q[k + 1..];
    forall x | x in q[..k] + q[k + 1..] ensures x in q {
      assert x in multiset(q[..k] + q[k + 1..]);
    }
  }

  /** A symbol held by a queue is held by one of its trees, at position k. */
  lemma {:induction false} SymbolHolder(q: seq<HuffmanNode>, symbol: int) returns (k: nat)
    requires symbol in QueueSymbols(q)
    ensures k < |q| && symbol in LeafSymbols(q[k])
  {
    if symbol in LeafSymbols(q[0]) {
      k := 0;
    } else {
      var j := SymbolHolder(q[1..], symbol);
      k := j + 1;
    }
  }

  /** A queue of leaves holds one symbol per tree. */
  lemma {:induction false} LeafQueueSize(q: seq<HuffmanNode>)
    requires forall x :: x in q ==> IsLeaf(x)
    ensures |QueueSymbols(q)| == |q|
  {
    if q != [] {
      assert q[0] in q;
      LeafQueueSize(q[1..]);
    }
  }

  /** In a queue of leaves that carry their own frequencies, a leaf no
      heavier than every other queued tree is no heavier than the frequency
      of any symbol the queue holds. */
  lemma LightestIn(q: seq<HuffmanNode>, frequencies: seq<int>, m: HuffmanNode, rest: seq<HuffmanNode>)
    requires forall x :: x in q ==> IsLeaf(x) && LeafWeights(x, frequencies)
    requires m.Node? && forall x :: x in rest ==> x.Node? && m.frequency <= x.frequency
    requires multiset(q) == multiset(rest) + multiset{m}
    ensures forall j :: j in QueueSymbols(q) ==> 0 <= j < |frequencies| && m.frequency <= frequencies[j]
  {
    forall j | j in QueueSymbols(q)
      ensures 0 <= j < |frequencies| && m.frequency <= frequencies[j]
    {
      var k := SymbolHolder(q, j);
      var x := q[k];
      assert x in q && x in multiset(q);
      assert LeafSymbols(x) == multiset{x.data};
      if x != m {
        assert x in multiset(rest);
        assert x in rest;
      }
    }
  }

  /** The first round, on a queue of leaves, merges a lightest pair: the
      lightest leaf and the lightest of the others. */
  lemma FirstMerge(q: seq<HuffmanNode>, frequencies: seq<int>,
                   node1: HuffmanNode, rest1: seq<HuffmanNode>,
                   node2: HuffmanNode, rest2: seq<HuffmanNode>)
    requires QueueInvariant(q, frequencies) && forall x :: x in q ==> IsLeaf(x)
    requires node1 in q && node2 in rest1 && forall x :: x in rest1 ==> x in q
    requires forall x :: x in rest1 ==> x.Node? && node1.frequency <= x.frequency
    requires forall x :: x in rest2 ==> x.Node? && node2.frequency <= x.frequency
    requires multiset(q) == multiset(rest1) + multiset{node1}
    requires multiset(rest1) == multiset(rest2) + multiset{node2}
    requires QueueSymbols(q) == LeafSymbols(node1) + QueueSymbols(rest1)
    ensures LightestPair(Merge(node1, node2), frequencies)
  {
    assert IsLeaf(node1) && IsLeaf(node2);
    LightestIn(q, frequencies, node1, rest1);
    LightestIn(rest1, frequencies, node2, rest2);
    forall j | 0 <= j < |frequencies| && frequencies[j] > 0
      ensures j in QueueSymbols(q)
    {
      PositiveSymbolsCount(frequencies, j);
    }
  }

  /** A subtree held by the queue before a round is held after it. */
  lemma KeepsHeld(q: seq<HuffmanNode>, pair: HuffmanNode, holder: HuffmanNode,
                  node1: HuffmanNode, rest1: seq<HuffmanNode>,
                  node2: HuffmanNode, rest2: seq<HuffmanNode>)
    returns (holder': HuffmanNode)
    requires node1.Node? && node2.Node?
    requires holder in q && Contains(holder, pair)
    requires multiset(q) == multiset(rest1) + multiset{node1}
    requires multiset(rest1) == multiset(rest2) + multiset{node2}
    ensures holder' in rest2 + [Merge(node1, node2)] && Contains(holder', pair)
  {
    var merged := Merge(node1, node2);
    if holder == node1 || holder == node2 {
      holder' := merged;
    } else {
      assert holder in multiset(q);
      assert holder in multiset(rest1);
      assert holder in multiset(rest2);
      holder' := holder;
    }
  }

  /** One round of the merge loop keeps a lightest pair in the queue: the
      first round merges one, and later rounds keep the tree that holds it
      or merge that tree into a new one. */
  lemma GreedyRound(q: seq<HuffmanNode>, frequencies: seq<int>,
                    merged: bool, pair: HuffmanNode, holder: HuffmanNode,
                    node1: HuffmanNode, rest1: seq<HuffmanNode>,
                    node2: HuffmanNode, rest2: seq<HuffmanNode>)
    returns (pair': HuffmanNode, holder': HuffmanNode)
    requires QueueInvariant(q, frequencies)
    requires !merged ==> forall x :: x in q ==> IsLeaf(x)
    requires merged ==> holder in q && Contains(holder, pair) && LightestPair(pair, frequencies)
    requires node1 in q && forall x :: x in rest1 ==> x in q && CompareTo(node1, x) <= 0
    requires node2 in rest1 && forall x :: x in rest2 ==> x in rest1 && CompareTo(node2, x) <= 0
    requires multiset(q) == multiset(rest1) + multiset{node1}
    requires multiset(rest1) == multiset(rest2) + multiset{node2}
    requires QueueSymbols(q) == LeafSymbols(node1) + QueueSymbols(rest1)
    ensures holder' in rest2 + [Merge(node1, node2)] && Contains(holder', pair')
    ensures LightestPair(pair', frequencies)
  {
    var m := Merge(node1, node2);
    if !merged {
      FirstMerge(q, frequencies, node1, rest1, node2, rest2);
      pair', holder' := m, m;
      assert holder' in rest2 + [m];
    } else {
      pair' := pair;
      holder' := KeepsHeld(q, pair, holder, node1, rest1, node2, rest2);
    }
  }

  /** A queue of present trees is empty exactly when it holds no symbol. */
  lemma {:induction false} QueueSymbolsEmpty(q: seq<HuffmanNode>)
    requires forall x :: x in q ==> x.Node?
    ensures QueueSymbols(q) == multiset{} <==> q == []
  {
    if q != [] {
      LeafSymbolsNonEmpty(q[0]);
    }
  }

  /** The position of a tree of least frequency in a non-empty queue; only
      its existence is used, to justify the queue's removal. */
  ghost function LightestIndex(q: seq<HuffmanNode>): (k: nat)
    requires |q| > 0 && forall x :: x in q ==> x.Node?
    ensures k < |q| && forall j :: 0 <= j < |q| ==> q[k].frequency <= q[j].frequency
  {
    if |q| == 1 then 0
    else
      var k := LightestIndex(q[1..]);
      assert q[k + 1] == q[1..][k];
      assert forall j :: 1 <= j < |q| ==> q[j] == q[1..][j - 1];
      if q[0].frequency <= q[k + 1].frequency then 0 else k + 1
  }

  /** The queue's remove(): takes out a tree of least frequency. */
  method RemoveMin(q: seq<HuffmanNode>) returns (m: HuffmanNode, rest: seq<HuffmanNode>)
    requires |q| > 0 && forall x :: x in q ==> x.Node?
    ensures m in q && |rest| == |q| - 1
    ensures forall x :: x in rest ==> x in q && CompareTo(m, x) <= 0
    ensures multiset(q) == multiset(rest) + multiset{m}
    ensures QueueSymbols(q) == LeafSymbols(m) + QueueSymbols(rest)
    ensures QueueWeight(q) == m.frequency + QueueWeight(rest)
  {
    ghost var lightest := LightestIndex(q);
    assert forall j :: 0 <= j < |q| ==> CompareTo(q[lightest], q[j]) <= 0;
    var k :| 0 <= k < |q| && forall j :: 0 <= j < |q| ==> CompareTo(q[k], q[j]) <= 0;
    m := q[k];
    rest := q[..k] + q[k + 1..];
    QueueRemove(q, k);
    RemoveKeepsOthers(q, k);
  }

  /** The first loop of the frequency constructor: one leaf per index with a
      positive frequency, in index order. */
  method LeafQueue(frequencies: seq<int>) returns (prioQueue: seq<HuffmanNode>)
    ensures forall x :: x in prioQueue ==> IsLeaf(x) && WellWeighted(x) && LeafWeights(x, frequencies)
    ensures QueueSymbols(prioQueue) == PositiveSymbols(frequencies)
    ensures QueueWeight(prioQueue) == PositiveTotal(frequencies)
  {
    prioQueue := [];
    for i := 0 to |frequencies|
      invariant forall x :: x in prioQueue ==> IsLeaf(x) && WellWeighted(x) && LeafWeights(x, frequencies)
      invariant QueueSymbols(prioQueue) == PositiveSymbols(frequencies[..i])
      invariant QueueWeight(prioQueue) == PositiveTotal(frequencies[..i])
    {
      PositiveStep(frequencies, i);
      var frequency := frequencies[i];
      if frequency > 0 {
        var leaf := NewLeaf(i, frequency);
        QueueAppend(prioQueue, [leaf]);
        assert QueueSymbols([leaf]) == multiset{i};
        prioQueue := prioQueue + [leaf];
      }
    }
    assert frequencies[..|frequencies|] == frequencies;
  }

  /** The frequency constructor: queue the leaves, then merge the two
      lightest trees (the first removed becomes the zero child) until one
      tree is left, and take that tree out as the root. With no positive
      frequency the final removal fails. */
  method BuildTree(frequencies: seq<int>) returns (result: Result<HuffmanNode>)
    ensures result.Failure? <==> PositiveSymbols(frequencies) == multiset{}
    ensures result.Success? ==>
              WellWeighted(result.value) && LeafWeights(result.value, frequencies) &&
              LeafSymbols(result.value) == PositiveSymbols(frequencies) &&
              result.value.frequency == PositiveTotal(frequencies)
    ensures result.Success? && |PositiveSymbols(frequencies)| >= 2 ==>
              exists pair :: Contains(result.value, pair) && LightestPair(pair, frequencies)
  {
    var prioQueue := LeafQueue(frequencies);
    ghost var merged := false;
    ghost var pair, holder := Null, Null;
    while |prioQueue| > 1
      invariant QueueInvariant(prioQueue, frequencies)
      invariant !merged ==> forall x :: x in prioQueue ==> IsLeaf(x)
      invariant merged ==> holder in prioQueue && Contains(holder, pair) && LightestPair(pair, frequencies)
      decreases |prioQueue|
    {
      var node1, rest1 := RemoveMin(prioQueue);
      var node2, rest2 := RemoveMin(rest1);
      assert CompareTo(node1, node2) <= 0;
      MergeStep(prioQueue, frequencies, node1, rest1, node2, rest2);
      pair, holder := GreedyRound(prioQueue, frequencies, merged, pair, holder, node1, rest1, node2, rest2);
      merged := true;
      prioQueue := rest2 + [Merge(node1, node2)];
    }
    QueueSymbolsEmpty(prioQueue);
    if prioQueue == [] {
      return Failure(EmptyQueue);
    }
    if !merged {
      LeafQueueSize(prioQueue);
    }
    var root, rest := RemoveMin(prioQueue);
    assert rest == [];
    assert merged ==> holder == root;
    return Success(root);
  }
}
