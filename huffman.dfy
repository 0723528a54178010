/**
  The class `HuffmanCoding` of `huffman-coding.cpp`: a coder object whose
  members `root`, `codes` and `frequencies` are set by `buildTree` and read by
  `encode` and `decode`. Neither map is ever cleared, so building again adds
  the new text's counts to the old ones and builds the tree for all the text
  counted so far.
 */
module Huffman {
  import opened HuffmanTree
  import opened TreeBuilder
  import opened GreedyMerge
  import opened Frequencies
  import opened Codes
  import opened Decoding

  datatype Option<T> = None | Some(value: T)

  /** `codes` holds the code of every leaf character of `root`, and "" for
      every other character it mentions. */
  ghost predicate CodesFor(root: Option<Node>, codes: map<char, string>)
  {
    && (root.Some? ==> forall c :: c in Leaves(root.value) ==>
          c in codes && codes[c] == CodeOf(root.value, c))
    && (forall c :: c in codes && (root.None? || c !in Leaves(root.value)) ==> codes[c] == "")
  }

  /** The state of a coder that has counted the text `counted`: the table
      counts it, the tree is a Huffman tree for the table whose frequency is
      the number of characters counted, and the code map agrees with the
      tree. */
  ghost predicate CoderState(root: Option<Node>, codes: map<char, string>,
                             frequencies: map<char, int>, counted: string)
  {
    && CountsOf(frequencies, multiset(counted))
    && (root.None? <==> counted == [])
    && (root.Some? ==> IsHuffmanTree(root.value, frequencies) && root.value.frequency == |counted|)
    && CodesFor(root, codes)
  }

  class HuffmanCoding {
    /** `None` until the first `BuildTree` (the C++ pointer is uninitialised). */
    var root: Option<Node>
    var codes: map<char, string>
    var frequencies: map<char, int>
    /** Every text passed to `BuildTree` so far, in order. */
    ghost var counted: string

    ghost predicate Valid()
      reads this
    {
      CoderState(root, codes, frequencies, counted)
    }

    constructor ()
      ensures Valid()
      ensures root == None && codes == map[] && frequencies == map[] && counted == []
    {
      root := None;
      codes := map[];
      frequencies := map[];
      counted := [];
    }

    /** `generateCodes(node, code)`: writes the code of every leaf below
        `node` into `codes`, with `code` as the path so far. */
    method GenerateCodes(node: Node, code: string)
      modifies this`codes
      ensures codes == old(codes) + CodeTable(node, code)
      decreases node
    {
      if node.Leaf? {
        codes := codes[node.character := if code == [] then "0" else code];
        return;
      }
      GenerateCodes(node.left, code + "0");
      GenerateCodes(node.right, code + "1");
    }

    /** `buildTree(text)`: counts the text into `frequencies`, builds a tree
        for all counts so far by greedy merging, and writes its codes. The
        queue is empty, and `pq.top()` undefined, when nothing has been
        counted. */
    method BuildTree(text: string)
      requires Valid()
      requires text != [] || frequencies != map[]
      modifies this
      ensures Valid()
      ensures counted == old(counted) + text
      ensures forall c :: CountOf(frequencies, c) == CountOf(old(frequencies), c) + multiset(text)[c]
      ensures root.Some? && codes == old(codes) + CodeTable(root.value, [])
    {
      var freq, t := CountAndBuild(root, codes, frequencies, counted, text);
      frequencies, counted, root := freq, counted + text, Some(t);
      GenerateCodes(t, []);
    }

    /** `encode(text)`: the codes of the text's characters in order. Reading
        `codes[c]` inserts an empty code for a character that has none. */
    method Encode(text: string) returns (result: string)
      requires Valid()
      modifies this`codes
      ensures Valid()
      ensures result == EncodeWith(old(codes), text)
      ensures codes == WithBlanks(old(codes), text)
    {
      result := "";
      ghost var before := codes;
      for i := 0 to |text|
        invariant codes == WithBlanks(before, text[..i])
        invariant result == EncodeWith(before, text[..i])
      {
        var c := text[i];
        assert text[..i + 1][..i] == text[..i];
        WithBlanksKeepsCodes(before, text[..i]);
        if c !in codes {
          codes := codes[c := ""];
        }
        EncodePrefix(before, text, i);
        result := result + codes[c];
      }
      assert text[..|text|] == text;
      WithBlanksKeepsCodes(before, text);
      EncodeKeepsCodes(root, before, codes);
    }

    /** `decode(encoded)`: walks the tree from the root, one step per
        character, and emits a character at every leaf. A root that is a leaf
        has no child to step to, so then nothing may be decoded. */
    method Decode(encoded: string) returns (result: string)
      requires Valid()
      requires encoded == [] || (root.Some? && root.value.Internal?)
      ensures root.None? ==> result == []
      ensures root.Some? ==> result == Walk(root.value, root.value, encoded)
    {
      result := "";
      if root.None? {
        return;
      }
      var top := root.value;
      var current := top;
      for i := 0 to |encoded|
        invariant encoded != [] ==> current.Internal?
        invariant result + Walk(top, current, encoded[i..]) == Walk(top, top, encoded)
      {
        ghost var from := current;
        assert encoded[i..][1..] == encoded[i + 1..];
        current := if encoded[i] == '0' then current.left else current.right;
        if current.Leaf? {
          ghost var rest := Walk(top, top, encoded[i + 1..]);
          assert Walk(top, from, encoded[i..]) == [current.character] + rest;
          Regroup(result, [current.character], rest);
          result := result + [current.character];
          current := top;
        } else {
          assert Walk(top, from, encoded[i..]) == Walk(top, current, encoded[i + 1..]);
        }
      }
      assert encoded[|encoded|..] == [];
    }
  }

  /** The counting and tree-building steps of `buildTree`, on the coder's
      state as values: the new table and tree, with which the old code map
      updated by the new tree's codes is again a consistent state. */
  method CountAndBuild(root: Option<Node>, codes: map<char, string>, frequencies: map<char, int>,
                       ghost counted: string, text: string) returns (freq: map<char, int>, t: Node)
    requires CoderState(root, codes, frequencies, counted)
    requires text != [] || frequencies != map[]
    ensures CoderState(Some(t), codes + CodeTable(t, []), freq, counted + text)
    ensures forall c :: CountOf(freq, c) == CountOf(frequencies, c) + multiset(text)[c]
  {
    freq := CountFrequencies(frequencies, text);
    CountsExtend(frequencies, freq, counted, text);
    assert freq != map[] by {
      if text != [] { assert text[0] in freq; }
    }
    t := BuildHuffmanTree(freq, multiset(counted + text));
    Rebuilt(root, codes, frequencies, counted, text, freq, t);
  }

  /** After a rebuild the coder is again in a consistent state. In
      particular the code map agrees with the new tree: the old tree's
      characters are all in the new one, so their codes are rewritten, and
      every other character the map mentions already read "". */
  lemma Rebuilt(oldRoot: Option<Node>, oldCodes: map<char, string>, oldFreq: map<char, int>,
                oldCounted: string, text: string, freq: map<char, int>, t: Node)
    requires CoderState(oldRoot, oldCodes, oldFreq, oldCounted)
    requires CountsOf(freq, multiset(oldCounted + text)) && freq != map[]
    requires forall c :: c in oldFreq ==> c in freq
    requires IsHuffmanTree(t, freq) && t.frequency == |oldCounted + text|
    ensures CoderState(Some(t), oldCodes + CodeTable(t, []), freq, oldCounted + text)
  {
    CodeTreeShape(t, freq);
    GeneratedCodes(t);
    if oldRoot.Some? {
      CodeTreeShape(oldRoot.value, oldFreq);
    }
    var c :| c in freq;
    assert c in oldCounted + text;
  }

  /** Adding "" entries for characters that had no code keeps the code map
      in agreement with the tree. */
  lemma EncodeKeepsCodes(root: Option<Node>, before: map<char, string>, after: map<char, string>)
    requires CodesFor(root, before)
    requires forall c :: c in before ==> c in after
    requires forall c :: Lookup(after, c) == Lookup(before, c)
    ensures CodesFor(root, after)
  {
    forall c | c in after
      ensures after[c] == Lookup(before, c)
    {
      assert Lookup(after, c) == after[c];
    }
  }

  /** What a coder built from `text` alone knows: the tree's leaves are the
      text's characters, and each has its path as its code. */
  lemma BuiltFromText(root: Node, codes: map<char, string>, frequencies: map<char, int>, text: string)
    requires CoderState(Some(root), codes, frequencies, text)
    requires exists i, j :: 0 <= i < |text| && 0 <= j < |text| && text[i] != text[j]
    ensures root.Internal?
    ensures forall i :: 0 <= i < |text| ==> text[i] in Leaves(root)
    ensures forall c :: c in Leaves(root) ==> c in codes && codes[c] == PathIn(root, c)
  {
    CodeTreeShape(root, frequencies);
    var i, j :| 0 <= i < |text| && 0 <= j < |text| && text[i] != text[j];
    assert text[i] in multiset(text) && text[j] in multiset(text);
  }

  /** What `main` does before printing: build a coder for the text, encode
      the text, decode the result. With two distinct characters or more the
      decoded text is the original and the encoding has at least one bit per
      character. */
  method CompressAndRestore(text: string) returns (encoded: string, decoded: string)
    requires exists i, j :: 0 <= i < |text| && 0 <= j < |text| && text[i] != text[j]
    ensures decoded == text
    ensures |encoded| >= |text|
  {
    var huffman := new HuffmanCoding();
    huffman.BuildTree(text);
    var t := huffman.root.value;
    ghost var codes := huffman.codes;
    assert huffman.counted == text;
    BuiltFromText(t, codes, huffman.frequencies, text);
    encoded := huffman.Encode(text);
    assert huffman.root == Some(t);
    assert encoded == EncodeWith(codes, text);
    RoundTrip(t, codes, text);
    EncodingNotShorter(codes, text);
    decoded := huffman.Decode(encoded);
    assert decoded == Walk(t, t, encoded);
  }
}
