/**
  The min-priority queue `priority_queue<Node*, vector<Node*>, Compare>` of
  `buildTree`. `Compare` looks only at frequencies, so among nodes of equal
  minimum frequency any one may come out first; the queue is a sequence and
  `PopMin` chooses such a node without fixing which.
 */
module PriorityQueue {
  import opened HuffmanTree

  /** The leaf characters of every tree in the queue. */
  function ForestLeaves(pq: seq<Node>): multiset<char>
  {
    if pq == [] then multiset{} else Leaves(pq[0]) + ForestLeaves(pq[1..])
  }

  /** The counted characters that the trees in the queue stand for. */
  function ForestBag(pq: seq<Node>): multiset<char>
  {
    if pq == [] then multiset{} else Bag(pq[0]) + ForestBag(pq[1..])
  }

  /** Position `k` holds a node whose frequency no node in the queue
      undercuts: what `Compare` lets `pq.top()` return. */
  predicate IsMinAt(pq: seq<Node>, k: int)
  {
    0 <= k < |pq| && forall j :: 0 <= j < |pq| ==> pq[k].frequency <= pq[j].frequency
  }

  lemma {:induction false} ForestSplit(a: seq<Node>, b: seq<Node>)
    ensures ForestLeaves(a + b) == ForestLeaves(a) + ForestLeaves(b)
    ensures ForestBag(a + b) == ForestBag(a) + ForestBag(b)
  {
    if a == [] {
      assert a + b == b;
    } else {
      assert (a + b)[1..] == a[1..] + b;
      ForestSplit(a[1..], b);
    }
  }

  /** A non-empty queue has a top. */
  lemma {:induction false} MinExists(pq: seq<Node>)
    requires |pq| > 0
    ensures exists k :: IsMinAt(pq, k)
  {
    if |pq| > 1 {
      MinExists(pq[1..]);
      var k :| IsMinAt(pq[1..], k);
      if pq[0].frequency <= pq[k + 1].frequency {
        assert IsMinAt(pq, 0);
      } else {
        assert IsMinAt(pq, k + 1);
      }
    } else {
      assert IsMinAt(pq, 0);
    }
  }

  /** Proof helper: the aggregates of a one-node queue. */
  lemma ForestSingle(x: Node)
    ensures ForestLeaves([x]) == Leaves(x) && ForestBag([x]) == Bag(x)
  {
    assert [x][1..] == [];
  }

  /** Proof helper, multiset algebra only: spelled out so that the removal
      lemmas stay small. */
  lemma MultisetUnion(p: multiset<char>, q: multiset<char>, a: multiset<char>, b: multiset<char>, x: multiset<char>)
    requires p == a + x + b && q == a + b
    ensures q + x == p
  {
  }

  lemma QueueRemove(pq: seq<Node>, k: int)
    requires 0 <= k < |pq|
    ensures multiset(pq[..k] + pq[k + 1..]) + multiset{pq[k]} == multiset(pq)
  {
    assert pq == (pq[..k] + [pq[k]]) + pq[k + 1..];
  }

  /** Taking out the element at position `k` takes its leaves out of the
      queue's leaves. */
  lemma LeavesRemove(pq: seq<Node>, k: int)
    requires 0 <= k < |pq|
    ensures ForestLeaves(pq[..k] + pq[k + 1..]) + Leaves(pq[k]) == ForestLeaves(pq)
  {
    var a, b, x := pq[..k], pq[k + 1..], pq[k];
    var xb := [x] + b;
    assert pq == a + xb;
    assert xb[0] == x && xb[1..] == b;
    ForestSplit(a, xb);
    ForestSplit(a, b);
    MultisetUnion(ForestLeaves(pq), ForestLeaves(a + b), ForestLeaves(a), ForestLeaves(b), Leaves(x));
  }

  /** Taking out the element at position `k` takes its counted characters
      out of the queue's. */
  lemma BagRemove(pq: seq<Node>, k: int)
    requires 0 <= k < |pq|
    ensures ForestBag(pq[..k] + pq[k + 1..]) + Bag(pq[k]) == ForestBag(pq)
  {
    var a, b, x := pq[..k], pq[k + 1..], pq[k];
    var xb := [x] + b;
    assert pq == a + xb;
    assert xb[0] == x && xb[1..] == b;
    ForestSplit(a, xb);
    ForestSplit(a, b);
    MultisetUnion(ForestBag(pq), ForestBag(a + b), ForestBag(a), ForestBag(b), Bag(x));
  }

  /** `pq.top(); pq.pop();`: removes and returns a node of least frequency;
      the rest of the queue is left as it was. */
  method PopMin(pq: seq<Node>) returns (m: Node, rest: seq<Node>)
    requires |pq| > 0
    ensures multiset(rest) + multiset{m} == multiset(pq)
    ensures |rest| == |pq| - 1
    ensures m in pq && forall t :: t in rest ==> t in pq
    ensures forall t :: t in rest ==> m.frequency <= t.frequency
    ensures ForestLeaves(rest) + Leaves(m) == ForestLeaves(pq)
    ensures ForestBag(rest) + Bag(m) == ForestBag(pq)
  {
    MinExists(pq);
    var k :| IsMinAt(pq, k);
    m := pq[k];
    rest := pq[..k] + pq[k + 1..];
    QueueRemove(pq, k);
    LeavesRemove(pq, k);
    BagRemove(pq, k);
    forall t | t in rest ensures t in pq && m.frequency <= t.frequency {
      var j :| 0 <= j < |rest| && rest[j] == t;
      if j < k { assert t == pq[j]; } else { assert t == pq[j + 1]; }
    }
  }
}
