/**
  Step 5, `decode`: a cursor starts at the root; each character of the
  encoded string moves it to the left child when it is '0' and to the right
  child otherwise; on reaching a leaf its character is emitted and the cursor
  returns to the root. The walk is defined only while the cursor sits on an
  internal node: from a leaf the C++ code follows a null child pointer.
 */
module Decoding {
  import opened HuffmanTree
  import opened Codes

  /** What `decode` emits for `bits` when its cursor is at `cur`. */
  function Walk(root: Node, cur: Node, bits: string): string
    requires bits == [] || (root.Internal? && cur.Internal?)
    decreases |bits|
  {
    if bits == [] then []
    else
      var next := if bits[0] == '0' then cur.left else cur.right;
      if next.Leaf? then [next.character] + Walk(root, root, bits[1..])
      else Walk(root, next, bits[1..])
  }

  /** Following the path of a leaf emits that leaf's character and brings
      the cursor back to the root. */
  lemma {:induction false} PathWalk(root: Node, cur: Node, c: char, rest: string)
    requires root.Internal? && cur.Internal? && c in Leaves(cur)
    ensures Walk(root, cur, PathIn(cur, c) + rest) == [c] + Walk(root, root, rest)
  {
    var goLeft := c in Leaves(cur.left);
    var child := if goLeft then cur.left else cur.right;
    var bits := PathIn(cur, c) + rest;
    var step := [if goLeft then '0' else '1'];
    assert PathIn(cur, c) == step + PathIn(child, c);
    Regroup(step, PathIn(child, c), rest);
    assert bits[0] == step[0] && bits[1..] == PathIn(child, c) + rest;
    if child.Leaf? {
      assert child.character == c && PathIn(child, c) == [];
    } else {
      PathWalk(root, child, c, rest);
    }
  }

  /** Decoding the code of the first character emits that character. */
  lemma DecodeFirst(root: Node, codes: map<char, string>, text: string, rest: string)
    requires root.Internal? && text != []
    requires text[0] in Leaves(root) && text[0] in codes && codes[text[0]] == PathIn(root, text[0])
    ensures Walk(root, root, EncodeWith(codes, text) + rest) ==
      [text[0]] + Walk(root, root, EncodeWith(codes, text[1..]) + rest)
  {
    var c, e := text[0], EncodeWith(codes, text[1..]);
    assert EncodeWith(codes, text) == PathIn(root, c) + e;
    Regroup(PathIn(root, c), e, rest);
    PathWalk(root, root, c, e + rest);
  }

  /** Decoding an encoding followed by more bits gives back the text and
      then decodes the remaining bits from the root. */
  lemma {:induction false} DecodeEncodePrefix(root: Node, codes: map<char, string>, text: string, rest: string)
    requires root.Internal?
    requires forall c :: c in Leaves(root) ==> c in codes && codes[c] == PathIn(root, c)
    requires forall i :: 0 <= i < |text| ==> text[i] in Leaves(root)
    ensures Walk(root, root, EncodeWith(codes, text) + rest) == text + Walk(root, root, rest)
  {
    if text == [] {
      assert EncodeWith(codes, text) + rest == rest;
    } else {
      var c, tail, w := text[0], text[1..], Walk(root, root, rest);
      assert Walk(root, root, EncodeWith(codes, tail) + rest) == tail + w by {
        DecodeEncodePrefix(root, codes, tail, rest);
      }
      assert Walk(root, root, EncodeWith(codes, text) + rest) ==
        [c] + Walk(root, root, EncodeWith(codes, tail) + rest) by {
        DecodeFirst(root, codes, text, rest);
      }
      assert [c] + (tail + w) == text + w by {
        Regroup([c], tail, w);
        assert text == [c] + tail;
      }
    }
  }

  /** The round trip: with at least two distinct characters (so the root is
      internal), decoding the encoding of a text over the tree's characters
      gives the text back. */
  lemma RoundTrip(root: Node, codes: map<char, string>, text: string)
    requires root.Internal?
    requires forall c :: c in Leaves(root) ==> c in codes && codes[c] == PathIn(root, c)
    requires forall i :: 0 <= i < |text| ==> text[i] in Leaves(root)
    ensures Walk(root, root, EncodeWith(codes, text)) == text
  {
    DecodeEncodePrefix(root, codes, text, []);
    assert EncodeWith(codes, text) + [] == EncodeWith(codes, text);
  }

  /** A walk that stops part-way down a leaf's path emits nothing. */
  lemma {:induction false} IncompletePathSilent(root: Node, cur: Node, c: char, p: string)
    requires root.Internal? && cur.Internal? && c in Leaves(cur)
    requires |p| < |PathIn(cur, c)| && p == PathIn(cur, c)[..|p|]
    ensures Walk(root, cur, p) == []
  {
    if p != [] {
      var goLeft := c in Leaves(cur.left);
      var child := if goLeft then cur.left else cur.right;
      var step, below := [if goLeft then '0' else '1'], PathIn(child, c);
      assert PathIn(cur, c) == step + below;
      assert p[0] == step[0] && p[1..] == below[..|p| - 1];
      IncompletePathSilent(root, child, c, p[1..]);
    }
  }

  /** `decode` drops a trailing incomplete code: an encoding followed by a
      proper prefix of some code decodes to the text alone. */
  lemma TrailingIncompleteDropped(root: Node, codes: map<char, string>, text: string, c: char, p: string)
    requires root.Internal?
    requires forall c :: c in Leaves(root) ==> c in codes && codes[c] == PathIn(root, c)
    requires forall i :: 0 <= i < |text| ==> text[i] in Leaves(root)
    requires c in Leaves(root) && |p| < |codes[c]| && p == codes[c][..|p|]
    ensures Walk(root, root, EncodeWith(codes, text) + p) == text
  {
    DecodeEncodePrefix(root, codes, text, p);
    IncompletePathSilent(root, root, c, p);
    assert text + [] == text;
  }

  /** Every character that is not '0' taken as '1'. */
  function AsBits(s: string): (b: string)
    ensures |b| == |s|
    ensures forall i :: 0 <= i < |s| ==> b[i] == (if s[i] == '0' then '0' else '1')
  {
    if s == [] then [] else [if s[0] == '0' then '0' else '1'] + AsBits(s[1..])
  }

  /** `decode` treats any character other than '0' as a step to the right. */
  lemma {:induction false} NonZeroIsRight(root: Node, cur: Node, bits: string)
    requires bits == [] || (root.Internal? && cur.Internal?)
    ensures Walk(root, cur, bits) == Walk(root, cur, AsBits(bits))
    decreases |bits|
  {
    if bits != [] {
      var b := AsBits(bits);
      assert b[1..] == AsBits(bits[1..]);
      var next := if bits[0] == '0' then cur.left else cur.right;
      if next.Leaf? {
        NonZeroIsRight(root, root, bits[1..]);
      } else {
        NonZeroIsRight(root, next, bits[1..]);
      }
    }
  }

  /** One character is emitted per leaf reached, and reaching a leaf takes at
      least one bit. */
  lemma {:induction false} DecodedNotLonger(root: Node, cur: Node, bits: string)
    requires bits == [] || (root.Internal? && cur.Internal?)
    ensures |Walk(root, cur, bits)| <= |bits|
    decreases |bits|
  {
    if bits != [] {
      var next := if bits[0] == '0' then cur.left else cur.right;
      if next.Leaf? {
        DecodedNotLonger(root, root, bits[1..]);
      } else {
        DecodedNotLonger(root, next, bits[1..]);
      }
    }
  }
}
