/**
  The Huffman tree of `huffman-coding.cpp`. A C++ `Node` is a leaf when both
  child pointers are null; every node the coder creates is either such a leaf
  (one per distinct character) or a parent with two children whose frequency
  is the sum of theirs. The datatype keeps exactly those two shapes.
 */
module HuffmanTree {

  /** A leaf carries a character and its count; an internal node carries the
      combined count of its two children. */
  datatype Node =
    | Leaf(character: char, frequency: int)
    | Internal(frequency: int, left: Node, right: Node)

  /** The characters at the leaves, one occurrence per leaf. */
  function Leaves(t: Node): multiset<char>
  {
    match t
    case Leaf(c, _) => multiset{c}
    case Internal(_, l, r) => Leaves(l) + Leaves(r)
  }

  /** Number of internal (two-child) nodes. */
  function InternalCount(t: Node): nat
  {
    match t
    case Leaf(_, _) => 0
    case Internal(_, l, r) => 1 + InternalCount(l) + InternalCount(r)
  }

  /** The characters of the counted text, each as often as a leaf's frequency
      says (a negative frequency counts as none). */
  function Bag(t: Node): multiset<char>
  {
    match t
    case Leaf(c, f) => multiset{}[c := if f < 0 then 0 else f]
    case Internal(_, l, r) => Bag(l) + Bag(r)
  }

  /** No character labels two leaves. */
  predicate DistinctLeaves(t: Node)
  {
    forall c :: Leaves(t)[c] <= 1
  }

  /** The sum invariant of the tree: every leaf holds the recorded (positive)
      frequency of its character, every internal node the sum of its
      children's frequencies. */
  predicate WellFormed(t: Node, freq: map<char, int>)
  {
    match t
    case Leaf(c, f) => c in freq && freq[c] == f && f > 0
    case Internal(f, l, r) =>
      f == l.frequency + r.frequency && WellFormed(l, freq) && WellFormed(r, freq)
  }

  /** Every parent's left child weighs no more than its right child: the left
      one was taken from the queue first. */
  predicate Ordered(t: Node)
  {
    match t
    case Leaf(_, _) => true
    case Internal(_, l, r) => l.frequency <= r.frequency && Ordered(l) && Ordered(r)
  }

  /** The shape of what the coder builds for the frequency table `freq`: a
      well-formed, ordered tree with exactly one leaf per recorded character.
      Which such tree it builds is fixed by the greedy merging, stated
      separately in `GreedyMerge`. */
  predicate IsCodeTree(t: Node, freq: map<char, int>)
  {
    WellFormed(t, freq) && Ordered(t) && Leaves(t) == multiset(freq.Keys)
  }

  /** A binary tree in which every internal node has two children has one
      internal node fewer than it has leaves. */
  lemma {:induction false} InternalNodesCount(t: Node)
    ensures |Leaves(t)| >= 1
    ensures InternalCount(t) == |Leaves(t)| - 1
  {
    match t
    case Leaf(_, _) =>
    case Internal(_, l, r) =>
      InternalNodesCount(l);
      InternalNodesCount(r);
  }

  /** Frequency conservation within the tree: a well-formed node's frequency
      is the number of characters it stands for. */
  lemma {:induction false} FrequencyIsWeight(t: Node, freq: map<char, int>)
    requires WellFormed(t, freq)
    ensures t.frequency == |Bag(t)|
  {
    match t
    case Leaf(c, f) =>
      assert Bag(t) == multiset{}[c := f];
    case Internal(_, l, r) =>
      FrequencyIsWeight(l, freq);
      FrequencyIsWeight(r, freq);
  }

  /** A tree for the table `freq` labels its leaves with exactly the recorded
      characters, each once; so a table of k characters gives k - 1 internal
      nodes. */
  lemma CodeTreeShape(t: Node, freq: map<char, int>)
    requires IsCodeTree(t, freq)
    ensures DistinctLeaves(t)
    ensures forall c :: c in Leaves(t) <==> c in freq
    ensures InternalCount(t) == |freq| - 1
  {
    InternalNodesCount(t);
  }

  /** The two subtrees of a tree with distinct leaves have distinct leaves
      and share no character. */
  lemma DistinctSubtrees(t: Node)
    requires t.Internal? && DistinctLeaves(t)
    ensures DistinctLeaves(t.left) && DistinctLeaves(t.right)
    ensures forall c :: c in Leaves(t.left) ==> c !in Leaves(t.right)
  {
    forall c ensures Leaves(t.left)[c] <= 1 && Leaves(t.right)[c] <= 1 {
      assert Leaves(t)[c] == Leaves(t.left)[c] + Leaves(t.right)[c];
    }
    forall c | c in Leaves(t.left) ensures c !in Leaves(t.right) {
      assert Leaves(t)[c] == Leaves(t.left)[c] + Leaves(t.right)[c];
    }
  }
}
