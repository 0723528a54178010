/**
  Step 2 of `buildTree`: one leaf per counted character goes into the
  min-priority queue, then the two lightest nodes are merged under a new
  parent until a single node, the root, is left.
 */
module TreeBuilder {
  import opened HuffmanTree
  import opened PriorityQueue
  import opened Frequencies
  import opened GreedyMerge

  /** `for (auto& p : frequencies) pq.push(new Node(p.first, p.second))`:
      one leaf per recorded character, in an unspecified order. */
  method MakeLeaves(freq: map<char, int>) returns (pq: seq<Node>)
    requires forall c :: c in freq ==> freq[c] > 0
    ensures forall t :: t in pq ==> t.Leaf? && WellFormed(t, freq)
    ensures ForestLeaves(pq) == multiset(freq.Keys)
    ensures forall c :: ForestBag(pq)[c] == CountOf(freq, c)
    ensures LeafQueue(multiset(pq), freq)
  {
    pq := [];
    var pending := freq.Keys;
    ghost var done: set<char> := {};
    assert Restrict(freq, done) == map[];
    while pending != {}
      invariant pending + done == freq.Keys && pending !! done
      invariant LeavesPushed(pq, freq, done)
      decreases pending
    {
      var c :| c in pending;
      PushLeaf(pq, freq, done, c);
      MoveKey(pending, done, freq.Keys, c);
      pq := pq + [Leaf(c, freq[c])];
      pending := pending - {c};
      done := done + {c};
    }
    assert Restrict(freq, done) == freq;
  }

  /** Proof helper: moving one key from the pending set to the done set
      keeps the two a partition of the table's keys. Spelled out so that the
      leaf loop's proof stays small. */
  lemma MoveKey(pending: set<char>, done: set<char>, keys: set<char>, c: char)
    requires pending + done == keys && pending !! done && c in pending
    ensures (pending - {c}) + (done + {c}) == keys && (pending - {c}) !! (done + {c})
  {
  }

  /** The queue after pushing the leaves of the characters `done`: each
      leaf valid, one per character, carrying its count. */
  ghost predicate LeavesPushed(pq: seq<Node>, freq: map<char, int>, done: set<char>)
  {
    && done <= freq.Keys
    && (forall t :: t in pq ==> t.Leaf? && WellFormed(t, freq))
    && ForestLeaves(pq) == multiset(done)
    && (forall x :: ForestBag(pq)[x] == if x in done then freq[x] else 0)
    && LeafQueue(multiset(pq), Restrict(freq, done))
  }

  /** One round of the leaf loop. */
  lemma PushLeaf(pq: seq<Node>, freq: map<char, int>, done: set<char>, c: char)
    requires c in freq && freq[c] > 0 && c !in done
    requires LeavesPushed(pq, freq, done)
    ensures LeavesPushed(pq + [Leaf(c, freq[c])], freq, done + {c})
  {
    var leaf := Leaf(c, freq[c]);
    LeafAdded(pq, leaf, done);
    LeafQueueAdded(multiset(pq), freq, done, c);
    assert multiset(pq + [leaf]) == multiset(pq) + multiset{leaf};
    forall x ensures ForestBag(pq + [leaf])[x] == if x in done + {c} then freq[x] else 0 {
      if x != c {
        assert ForestBag(pq)[x] == if x in done then freq[x] else 0;
      }
    }
  }

  /** The table `freq` cut down to the characters `keys`. */
  function Restrict(freq: map<char, int>, keys: set<char>): map<char, int>
  {
    map c | c in freq && c in keys :: freq[c]
  }

  /** Pushing the leaf of one more character extends the queue of leaves by
      that character. */
  lemma LeafQueueAdded(q: multiset<Node>, freq: map<char, int>, done: set<char>, c: char)
    requires c in freq && c !in done
    requires LeafQueue(q, Restrict(freq, done))
    ensures LeafQueue(q + multiset{Leaf(c, freq[c])}, Restrict(freq, done + {c}))
  {
    var before, after := Restrict(freq, done), Restrict(freq, done + {c});
    forall t ensures (q + multiset{Leaf(c, freq[c])})[t] ==
      if t.Leaf? && t.character in after && t.frequency == after[t.character] then 1 else 0
    {
      assert q[t] == if t.Leaf? && t.character in before && t.frequency == before[t.character] then 1 else 0;
    }
  }

  /** Pushing the leaf of a character not yet in the queue adds that
      character to the queue's leaves and its count to the queue's bag. */
  lemma LeafAdded(pq: seq<Node>, leaf: Node, done: set<char>)
    requires leaf.Leaf? && leaf.frequency > 0 && leaf.character !in done
    requires ForestLeaves(pq) == multiset(done)
    ensures ForestLeaves(pq + [leaf]) == multiset(done + {leaf.character})
    ensures forall x :: (ForestBag(pq + [leaf])[x] ==
      if x == leaf.character then ForestBag(pq)[x] + leaf.frequency else ForestBag(pq)[x])
  {
    ForestSplit(pq, [leaf]);
    ForestSingle(leaf);
  }

  /** Proof helper, multiset algebra only: spelled out so that the merge
      loop's proof stays small. */
  lemma Regather(p: multiset<char>, a: multiset<char>, b: multiset<char>, x: multiset<char>, y: multiset<char>)
    requires a + x == p && b + y == a
    ensures b + (x + y) == p
  {
  }

  /** A parent over two valid nodes, the lighter on the left, is valid. */
  lemma ParentKeepsInvariant(left: Node, right: Node, freq: map<char, int>)
    requires WellFormed(left, freq) && Ordered(left)
    requires WellFormed(right, freq) && Ordered(right)
    requires left.frequency <= right.frequency
    ensures WellFormed(Internal(left.frequency + right.frequency, left, right), freq)
    ensures Ordered(Internal(left.frequency + right.frequency, left, right))
  {
  }

  /** One round of the merge loop keeps the loop's invariant: after taking
      the two lightest nodes out of `q0` (leaving `q1`, then `q2`) and
      pushing their parent, every node is still valid and the queue still
      holds the same leaves and counted characters. */
  lemma MergeStep(q0: seq<Node>, q1: seq<Node>, q2: seq<Node>, left: Node, right: Node, freq: map<char, int>)
    requires forall t :: t in q0 ==> WellFormed(t, freq) && Ordered(t)
    requires left in q0 && right in q1
    requires forall t :: t in q1 ==> t in q0 && left.frequency <= t.frequency
    requires forall t :: t in q2 ==> t in q1
    requires ForestLeaves(q1) + Leaves(left) == ForestLeaves(q0)
    requires ForestLeaves(q2) + Leaves(right) == ForestLeaves(q1)
    requires ForestBag(q1) + Bag(left) == ForestBag(q0)
    requires ForestBag(q2) + Bag(right) == ForestBag(q1)
    ensures var q := q2 + [Internal(left.frequency + right.frequency, left, right)];
      && (forall t :: t in q ==> WellFormed(t, freq) && Ordered(t))
      && ForestLeaves(q) == ForestLeaves(q0)
      && ForestBag(q) == ForestBag(q0)
  {
    var parent := Internal(left.frequency + right.frequency, left, right);
    ParentKeepsInvariant(left, right, freq);
    ForestSplit(q2, [parent]);
    ForestSingle(parent);
    Regather(ForestLeaves(q0), ForestLeaves(q1), ForestLeaves(q2), Leaves(left), Leaves(right));
    Regather(ForestBag(q0), ForestBag(q1), ForestBag(q2), Bag(left), Bag(right));
  }

  /** `while (pq.size() > 1) { ... } root = pq.top();`: merges the two
      lightest nodes, the first one taken becoming the left child, until one
      tree is left. The result keeps every leaf and every counted character of
      the queue, the sum invariant, and left-no-heavier-than-right at every
      parent. The ghost outputs record the run: the queue's contents before
      and after every round and the parent each round pushed, every round a
      greedy step. */
  method MergeAll(pq: seq<Node>, freq: map<char, int>)
    returns (root: Node, ghost queues: seq<multiset<Node>>, ghost parents: seq<Node>)
    requires |pq| >= 1
    requires forall t :: t in pq ==> WellFormed(t, freq) && Ordered(t)
    ensures WellFormed(root, freq) && Ordered(root)
    ensures Leaves(root) == ForestLeaves(pq)
    ensures Bag(root) == ForestBag(pq)
    ensures GreedyRun(queues, parents, root) && queues[0] == multiset(pq)
  {
    var queue := pq;
    queues, parents := [multiset(pq)], [];
    while |queue| > 1
      invariant |queue| >= 1
      invariant forall t :: t in queue ==> WellFormed(t, freq) && Ordered(t)
      invariant ForestLeaves(queue) == ForestLeaves(pq)
      invariant ForestBag(queue) == ForestBag(pq)
      invariant GreedyTrace(queues, parents) && queues[0] == multiset(pq)
      invariant queues[|parents|] == multiset(queue)
      decreases |queue|
    {
      ghost var q0 := queue;
      var left, right;
      left, queue := PopMin(queue);
      ghost var q1 := queue;
      right, queue := PopMin(queue);
      var parent := Internal(left.frequency + right.frequency, left, right);
      MergeStep(q0, q1, queue, left, right, freq);
      GreedyPops(q0, q1, queue, left, right);
      TraceExtend(queues, parents, parent, multiset(queue + [parent]));
      queue := queue + [parent];
      queues, parents := queues + [multiset(queue)], parents + [parent];
    }
    root := queue[0];
    assert queue == [root];
    ForestSingle(root);
  }

  /** The two pops of a round take a lightest node and then a lightest node
      of the rest: the round is a greedy step. */
  lemma GreedyPops(q0: seq<Node>, q1: seq<Node>, q2: seq<Node>, left: Node, right: Node)
    requires multiset(q1) + multiset{left} == multiset(q0)
    requires forall t :: t in q1 ==> left.frequency <= t.frequency
    requires multiset(q2) + multiset{right} == multiset(q1)
    requires forall t :: t in q2 ==> right.frequency <= t.frequency
    ensures var parent := Internal(left.frequency + right.frequency, left, right);
      GreedyStep(multiset(q0), parent, multiset(q2 + [parent]))
  {
    var parent := Internal(left.frequency + right.frequency, left, right);
    var m0 := multiset(q0);
    assert m0 - multiset{left} == multiset(q1);
    assert multiset(q1) - multiset{right} == multiset(q2);
    assert multiset(q2 + [parent]) == multiset(q2) + multiset{parent};
    forall t | t in m0 ensures left.frequency <= t.frequency {
      if t != left {
        assert t in multiset(q1);
      }
    }
    forall t | t in multiset(q1) ensures right.frequency <= t.frequency {
      if t != right {
        assert t in multiset(q2);
      }
    }
  }

  /** The built tree for a table of counts: a Huffman tree for the table
      whose root frequency is the total number of characters counted. */
  lemma BuiltTree(root: Node, freq: map<char, int>, counts: multiset<char>, pq: seq<Node>,
                  queues: seq<multiset<Node>>, parents: seq<Node>)
    requires CountsOf(freq, counts)
    requires WellFormed(root, freq) && Ordered(root)
    requires Leaves(root) == ForestLeaves(pq) == multiset(freq.Keys)
    requires Bag(root) == ForestBag(pq)
    requires forall c :: ForestBag(pq)[c] == CountOf(freq, c)
    requires GreedyRun(queues, parents, root) && queues[0] == multiset(pq)
    requires LeafQueue(multiset(pq), freq)
    ensures IsHuffmanTree(root, freq)
    ensures root.frequency == |counts|
  {
    forall c ensures Bag(root)[c] == counts[c] {
      if c !in freq {
        assert c !in counts;
      }
    }
    assert Bag(root) == counts;
    FrequencyIsWeight(root, freq);
  }

  /** Step 2 of `buildTree` as a whole (lines 53 to 72): from a non-empty
      table of counts, a Huffman tree for the table whose root frequency is
      the number of characters counted. */
  method BuildHuffmanTree(freq: map<char, int>, ghost counts: multiset<char>) returns (root: Node)
    requires CountsOf(freq, counts) && freq != map[]
    ensures IsHuffmanTree(root, freq)
    ensures root.frequency == |counts|
  {
    var pq := MakeLeaves(freq);
    assert pq != [] by {
      var c :| c in freq;
      assert c in ForestLeaves(pq);
    }
    ghost var queues, parents;
    root, queues, parents := MergeAll(pq, freq);
    BuiltTree(root, freq, counts, pq, queues, parents);
  }
}
