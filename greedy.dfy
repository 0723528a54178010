/**
  The greedy choice of the merge loop of `buildTree`, recorded as a trace: the
  successive contents of the queue, as multisets, and the parent pushed in
  each round. Every round pops a node no heavier than any node in the queue,
  then a node no heavier than any node left, and pushes their parent. A
  Huffman tree for a table is a code tree that such a run builds from one
  leaf per recorded character.
 */
module GreedyMerge {
  import opened HuffmanTree

  /** One round of the merge loop: `p` joins a lightest node of `q` (left)
      and a lightest node of the rest (right), and `next` is `q` with the two
      replaced by `p`. */
  ghost predicate GreedyStep(q: multiset<Node>, p: Node, next: multiset<Node>)
  {
    && p.Internal?
    && p.frequency == p.left.frequency + p.right.frequency
    && p.left in q
    && (forall t :: t in q ==> p.left.frequency <= t.frequency)
    && p.right in q - multiset{p.left}
    && (forall t :: t in q - multiset{p.left} ==> p.right.frequency <= t.frequency)
    && next == q - multiset{p.left} - multiset{p.right} + multiset{p}
  }

  /** `queues[i + 1]` follows from `queues[i]` by a greedy round that pushes
      `parents[i]`. */
  ghost predicate GreedyTrace(queues: seq<multiset<Node>>, parents: seq<Node>)
  {
    && |queues| == |parents| + 1
    && forall i :: 0 <= i < |parents| ==> GreedyStep(queues[i], parents[i], queues[i + 1])
  }

  /** A complete run: the trace ends with the single node `root`. */
  ghost predicate GreedyRun(queues: seq<multiset<Node>>, parents: seq<Node>, root: Node)
  {
    GreedyTrace(queues, parents) && queues[|parents|] == multiset{root}
  }

  /** The queue after the leaf loop: one `Leaf(c, freq[c])` per recorded
      character and nothing else. */
  ghost predicate LeafQueue(q: multiset<Node>, freq: map<char, int>)
  {
    forall t :: q[t] == if t.Leaf? && t.character in freq && t.frequency == freq[t.character] then 1 else 0
  }

  /** A Huffman tree for `freq`: a code tree that greedy merging builds from
      the leaves of `freq`, for some resolution of the ties. */
  ghost predicate IsHuffmanTree(t: Node, freq: map<char, int>)
  {
    && IsCodeTree(t, freq)
    && exists queues, parents :: GreedyRun(queues, parents, t) && LeafQueue(queues[0], freq)
  }

  /** A node of the queue after a round, other than the new parent, was
      already in the queue and was not one of the two popped. */
  lemma Survives(q: multiset<Node>, p: Node, next: multiset<Node>, n: Node)
    requires GreedyStep(q, p, next) && n in next && n != p
    ensures n in q - multiset{p.left} && n in q - multiset{p.left} - multiset{p.right} && n in q
  {
  }

  /** A trace grows by one greedy round. */
  lemma TraceExtend(queues: seq<multiset<Node>>, parents: seq<Node>, p: Node, next: multiset<Node>)
    requires GreedyTrace(queues, parents)
    requires GreedyStep(queues[|parents|], p, next)
    ensures GreedyTrace(queues + [next], parents + [p])
  {
    var qs, ps := queues + [next], parents + [p];
    forall i | 0 <= i < |ps| ensures GreedyStep(qs[i], ps[i], qs[i + 1]) {
      if i < |parents| {
        assert qs[i] == queues[i] && ps[i] == parents[i] && qs[i + 1] == queues[i + 1];
      }
    }
  }

  /** Merging nodes of positive weight keeps every weight positive. */
  lemma {:induction false} TracePositive(queues: seq<multiset<Node>>, parents: seq<Node>, i: int)
    requires GreedyTrace(queues, parents)
    requires forall t :: t in queues[0] ==> t.frequency > 0
    requires 0 <= i <= |parents|
    ensures forall t :: t in queues[i] ==> t.frequency > 0
  {
    if i > 0 {
      TracePositive(queues, parents, i - 1);
      var q, p := queues[i - 1], parents[i - 1];
      assert GreedyStep(q, p, queues[i]);
      forall t | t in queues[i] ensures t.frequency > 0 {
        if t != p {
          Survives(q, p, queues[i], t);
        }
      }
    }
  }

  /** The greedy choice in numbers: each round merges a pair no lighter than
      the pair merged before it. */
  lemma ParentsNonDecreasing(queues: seq<multiset<Node>>, parents: seq<Node>, i: int)
    requires GreedyTrace(queues, parents)
    requires forall t :: t in queues[0] ==> t.frequency > 0
    requires 0 <= i < |parents| - 1
    ensures parents[i].frequency <= parents[i + 1].frequency
  {
    TracePositive(queues, parents, i + 1);
    var q, p, p' := queues[i], parents[i], parents[i + 1];
    var next := queues[i + 1];
    assert GreedyStep(q, p, next) && GreedyStep(next, p', queues[i + 2]);
    var l, r, l', r' := p.left, p.right, p'.left, p'.right;
    var kept := q - multiset{l} - multiset{r};
    assert next == kept + multiset{p};
    // every node that survived the round is at least as heavy as l and r
    forall t | t in kept ensures l.frequency <= t.frequency && r.frequency <= t.frequency {
      assert t in q - multiset{l};
    }
    if l' != p {
      assert l' in kept;
      if r' != p {
        assert r' in next;
        assert r' in kept;
      }
    }
  }

  /** A leaf is never pushed, only popped: a leaf in a later queue was in
      every earlier one. */
  lemma {:induction false} LeafPersists(queues: seq<multiset<Node>>, parents: seq<Node>, t: Node, j: int, i: int)
    requires GreedyTrace(queues, parents)
    requires t.Leaf? && 0 <= j <= i <= |parents| && t in queues[i]
    ensures t in queues[j]
    decreases i
  {
    if j < i {
      var p := parents[i - 1];
      assert GreedyStep(queues[i - 1], p, queues[i]);
      Survives(queues[i - 1], p, queues[i], t);
      LeafPersists(queues, parents, t, j, i - 1);
    }
  }

  /** The greedy invariant: a leaf still waiting in the queue is no lighter
      than either child of any parent built before. */
  lemma SurvivorNotLighter(queues: seq<multiset<Node>>, parents: seq<Node>, t: Node, j: int, i: int)
    requires GreedyTrace(queues, parents)
    requires t.Leaf? && 0 <= j < i <= |parents| && t in queues[i]
    ensures parents[j].Internal?
    ensures parents[j].left.frequency <= t.frequency && parents[j].right.frequency <= t.frequency
  {
    LeafPersists(queues, parents, t, j + 1, i);
    var p := parents[j];
    assert GreedyStep(queues[j], p, queues[j + 1]);
    Survives(queues[j], p, queues[j + 1], t);
  }

  /** Every internal node in a queue that was not in the first one is the
      parent pushed by some earlier round. */
  lemma {:induction false} BuiltBy(queues: seq<multiset<Node>>, parents: seq<Node>, n: Node, i: int) returns (j: int)
    requires GreedyTrace(queues, parents)
    requires 0 <= i <= |parents| && n in queues[i] && n !in queues[0]
    ensures 0 <= j < i && parents[j] == n
    decreases i
  {
    var p := parents[i - 1];
    assert GreedyStep(queues[i - 1], p, queues[i]);
    if n == p {
      j := i - 1;
    } else {
      Survives(queues[i - 1], p, queues[i], n);
      j := BuiltBy(queues, parents, n, i - 1);
    }
  }

  /** A run that merges at least once ends with the last parent pushed. */
  lemma RootIsLastParent(queues: seq<multiset<Node>>, parents: seq<Node>, root: Node)
    requires GreedyRun(queues, parents, root) && |parents| > 0
    ensures parents[|parents| - 1] == root
  {
    var k := |parents|;
    assert GreedyStep(queues[k - 1], parents[k - 1], queues[k]);
  }

  /** Four characters of count 1: the tree that gives one character a 1-bit
      code and another a 3-bit code is a code tree, but greedy merging never
      builds it, since it first pairs off the four leaves. */
  lemma SkewedTreeNotGreedy()
    ensures IsCodeTree(Skewed(), Ones()) && !IsHuffmanTree(Skewed(), Ones())
  {
    assert multiset(Ones().Keys) == multiset{'a', 'b', 'c', 'd'};
    forall queues, parents | GreedyRun(queues, parents, Skewed()) && LeafQueue(queues[0], Ones())
      ensures false
    {
      SkewedNotBuilt(queues, parents);
    }
  }

  function Ones(): map<char, int>
  {
    map['a' := 1, 'b' := 1, 'c' := 1, 'd' := 1]
  }

  function Skewed(): Node
  {
    Internal(4, Leaf('a', 1), Internal(3, Leaf('b', 1), Internal(2, Leaf('c', 1), Leaf('d', 1))))
  }

  /** No greedy run from the four leaves ends in `Skewed()`: the leaf 'a'
      would still be waiting when the parent with a child of weight 2 was
      built. */
  lemma SkewedNotBuilt(queues: seq<multiset<Node>>, parents: seq<Node>)
    ensures !(GreedyRun(queues, parents, Skewed()) && LeafQueue(queues[0], Ones()))
  {
    var t := Skewed();
    if GreedyRun(queues, parents, t) && LeafQueue(queues[0], Ones()) {
      var k := |parents|;
      assert queues[0][t] == 0;
      RootIsLastParent(queues, parents, t);
      assert GreedyStep(queues[k - 1], t, queues[k]);
      assert queues[0][t.right] == 0;
      var j := BuiltBy(queues, parents, t.right, k - 1);
      SurvivorNotLighter(queues, parents, t.left, j, k - 1);
    }
  }
}
