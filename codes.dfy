/**
  Step 3 (`generateCodes`) and step 4 (`encode`) of the coder. A code is a
  string of '0' and '1' characters: '0' for every step to a left child, '1'
  for every step to a right child, from the root down to the leaf.
 */
module Codes {
  import opened HuffmanTree

  /** The root-to-leaf path of a leaf labelled `c`. */
  function PathIn(t: Node, c: char): (p: string)
    requires c in Leaves(t)
    ensures t.Internal? ==> |p| > 0
  {
    match t
    case Leaf(_, _) => []
    case Internal(_, l, r) =>
      if c in Leaves(l) then "0" + PathIn(l, c) else "1" + PathIn(r, c)
  }

  /** The code the coder assigns to `c`: its path, or "0" when the root is
      itself a leaf and the path is empty. */
  function CodeOf(t: Node, c: char): string
    requires c in Leaves(t)
  {
    if t.Leaf? then "0" else PathIn(t, c)
  }

  /** The entries `generateCodes(t, code)` writes into the code map, in the
      order it writes them (a later write to the same key wins). */
  function CodeTable(t: Node, code: string): map<char, string>
  {
    match t
    case Leaf(c, _) => map[c := if code == [] then "0" else code]
    case Internal(_, l, r) => CodeTable(l, code + "0") + CodeTable(r, code + "1")
  }

  predicate IsPrefix(a: string, b: string)
  {
    |a| <= |b| && a == b[..|a|]
  }

  /** The traversal writes a code for every leaf character and for nothing
      else. */
  lemma {:induction false} CodeTableKeys(t: Node, code: string)
    ensures forall c :: c in CodeTable(t, code) <==> c in Leaves(t)
  {
    match t
    case Leaf(_, _) =>
    case Internal(_, l, r) =>
      CodeTableKeys(l, code + "0");
      CodeTableKeys(r, code + "1");
  }

  /** Proof helper: associativity of concatenation, stated once so that the
      path and decoding proofs can cite it. */
  lemma Regroup(a: string, b: string, c: string)
    ensures (a + b) + c == a + (b + c)
  {
  }

  /** With distinct leaves the code written for each leaf is the prefix
      followed by the leaf's path. */
  lemma {:induction false} CodeTablePaths(t: Node, code: string, c: char)
    requires DistinctLeaves(t) && c in Leaves(t)
    ensures c in CodeTable(t, code)
    ensures CodeTable(t, code)[c] == if t.Leaf? && code == [] then "0" else code + PathIn(t, c)
  {
    match t
    case Leaf(_, _) =>
    case Internal(_, l, r) =>
      DistinctSubtrees(t);
      CodeTableKeys(l, code + "0");
      CodeTableKeys(r, code + "1");
      var tl, tr := CodeTable(l, code + "0"), CodeTable(r, code + "1");
      assert CodeTable(t, code) == tl + tr;
      if c in Leaves(l) {
        CodeTablePaths(l, code + "0", c);
        assert c !in tr;
        assert CodeTable(t, code)[c] == tl[c];
        Regroup(code, "0", PathIn(l, c));
      } else {
        CodeTablePaths(r, code + "1", c);
        assert CodeTable(t, code)[c] == tr[c];
        Regroup(code, "1", PathIn(r, c));
      }
  }

  /** `generateCodes(root, "")` gives every leaf character exactly one code,
      namely `CodeOf`, and gives no code to anything else. */
  lemma GeneratedCodes(t: Node)
    requires DistinctLeaves(t)
    ensures forall c :: c in CodeTable(t, []) <==> c in Leaves(t)
    ensures forall c :: c in Leaves(t) ==> CodeTable(t, [])[c] == CodeOf(t, c)
    ensures forall c :: c in Leaves(t) ==> |CodeOf(t, c)| > 0
  {
    CodeTableKeys(t, []);
    forall c | c in Leaves(t) ensures CodeTable(t, [])[c] == CodeOf(t, c) {
      CodeTablePaths(t, [], c);
      assert [] + PathIn(t, c) == PathIn(t, c);
    }
  }

  lemma PrefixCons(b: char, x: string, y: string)
    ensures IsPrefix([b] + x, [b] + y) ==> IsPrefix(x, y)
  {
    if IsPrefix([b] + x, [b] + y) {
      assert x == ([b] + x)[1..] == ([b] + y)[1..|x| + 1] == y[..|x|];
    }
  }

  /** Paths to leaves with different characters branch apart: neither is a
      prefix of the other. */
  lemma {:induction false} PathsPrefixFree(t: Node, c1: char, c2: char)
    requires c1 in Leaves(t) && c2 in Leaves(t) && c1 != c2
    ensures !IsPrefix(PathIn(t, c1), PathIn(t, c2))
  {
    match t
    case Leaf(_, _) =>
    case Internal(_, l, r) =>
      var p1, p2 := PathIn(t, c1), PathIn(t, c2);
      if c1 in Leaves(l) && c2 in Leaves(l) {
        PathsPrefixFree(l, c1, c2);
        PrefixCons('0', PathIn(l, c1), PathIn(l, c2));
      } else if c1 !in Leaves(l) && c2 !in Leaves(l) {
        PathsPrefixFree(r, c1, c2);
        PrefixCons('1', PathIn(r, c1), PathIn(r, c2));
      } else {
        assert p1[0] != p2[0];
      }
  }

  /** The generated code map is prefix-free, and every code in it is
      non-empty. */
  lemma CodesPrefixFree(t: Node)
    requires DistinctLeaves(t)
    ensures forall c :: c in CodeTable(t, []) ==> |CodeTable(t, [])[c]| > 0
    ensures forall c1, c2 :: c1 in CodeTable(t, []) && c2 in CodeTable(t, []) && c1 != c2 ==>
      !IsPrefix(CodeTable(t, [])[c1], CodeTable(t, [])[c2])
  {
    GeneratedCodes(t);
    forall c1, c2 | c1 in CodeTable(t, []) && c2 in CodeTable(t, []) && c1 != c2
      ensures !IsPrefix(CodeTable(t, [])[c1], CodeTable(t, [])[c2])
    {
      if t.Internal? {
        PathsPrefixFree(t, c1, c2);
      }
    }
  }

  /** `codes[c]` in `encode`: a character without a code reads as "". */
  function Lookup(codes: map<char, string>, c: char): string
  {
    if c in codes then codes[c] else ""
  }

  /** The code map after `encode` has read `codes[c]` for every character
      of `s`: a character without an entry gets an empty one. */
  function WithBlanks(codes: map<char, string>, s: string): map<char, string>
  {
    if s == [] then codes
    else
      var m, c := WithBlanks(codes, s[..|s| - 1]), s[|s| - 1];
      if c in m then m else m[c := ""]
  }

  /** Reading codes only adds keys, those of the text's characters, and
      changes no code as `Lookup` sees it. */
  lemma {:induction false} WithBlanksKeepsCodes(codes: map<char, string>, s: string)
    ensures forall c :: c in WithBlanks(codes, s) <==> c in codes || c in s
    ensures forall c :: Lookup(WithBlanks(codes, s), c) == Lookup(codes, c)
  {
    if s != [] {
      var init := s[..|s| - 1];
      WithBlanksKeepsCodes(codes, init);
      assert s == init + [s[|s| - 1]];
    }
  }

  /** The specification of `encode`: the codes of the text's characters,
      concatenated in input order. */
  function EncodeWith(codes: map<char, string>, text: string): string
  {
    if text == [] then [] else Lookup(codes, text[0]) + EncodeWith(codes, text[1..])
  }

  lemma {:induction false} EncodeAppend(codes: map<char, string>, text: string, c: char)
    ensures EncodeWith(codes, text + [c]) == EncodeWith(codes, text) + Lookup(codes, c)
  {
    if text == [] {
      assert EncodeWith(codes, [c]) == Lookup(codes, c) + EncodeWith(codes, []);
    } else {
      assert (text + [c])[1..] == text[1..] + [c];
      EncodeAppend(codes, text[1..], c);
    }
  }

  /** One more character of the text adds its code to the encoding. */
  lemma EncodePrefix(codes: map<char, string>, text: string, i: int)
    requires 0 <= i < |text|
    ensures EncodeWith(codes, text[..i + 1]) == EncodeWith(codes, text[..i]) + Lookup(codes, text[i])
  {
    assert text[..i + 1] == text[..i] + [text[i]];
    EncodeAppend(codes, text[..i], text[i]);
  }

  /** Encoding a concatenation concatenates the encodings. */
  lemma {:induction false} EncodeConcat(codes: map<char, string>, a: string, b: string)
    ensures EncodeWith(codes, a + b) == EncodeWith(codes, a) + EncodeWith(codes, b)
  {
    if a == [] {
      assert a + b == b;
    } else {
      assert (a + b)[1..] == a[1..] + b;
      EncodeConcat(codes, a[1..], b);
    }
  }

  /** The size of the encoding computed per distinct character: the sum, over
      the characters `cs`, of each one's count in `counts` times the length of
      its code. */
  function WeightedLength(codes: map<char, string>, counts: multiset<char>, cs: seq<char>): int
  {
    if cs == [] then 0
    else counts[cs[0]] * |Lookup(codes, cs[0])| + WeightedLength(codes, counts, cs[1..])
  }

  predicate NoDuplicates(cs: seq<char>)
  {
    forall i, j :: 0 <= i < j < |cs| ==> cs[i] != cs[j]
  }

  lemma {:induction false} WeightedLengthAdd(codes: map<char, string>, counts: multiset<char>, cs: seq<char>, c: char)
    requires NoDuplicates(cs)
    ensures WeightedLength(codes, counts + multiset{c}, cs) ==
      WeightedLength(codes, counts, cs) + if c in cs then |Lookup(codes, c)| else 0
  {
    if cs != [] {
      WeightedLengthAdd(codes, counts, cs[1..], c);
      assert c in cs[1..] ==> c != cs[0];
      assert c in cs <==> c == cs[0] || c in cs[1..];
    }
  }

  /** The length of the encoding is the sum, over the distinct characters, of
      frequency times code length. */
  lemma {:induction false} EncodedLength(codes: map<char, string>, text: string, cs: seq<char>)
    requires NoDuplicates(cs)
    requires forall i :: 0 <= i < |text| ==> text[i] in cs
    ensures |EncodeWith(codes, text)| == WeightedLength(codes, multiset(text), cs)
  {
    if text == [] {
      WeightedLengthZero(codes, cs);
    } else {
      EncodedLength(codes, text[1..], cs);
      assert text == [text[0]] + text[1..];
      assert multiset(text) == multiset(text[1..]) + multiset{text[0]};
      WeightedLengthAdd(codes, multiset(text[1..]), cs, text[0]);
    }
  }

  lemma {:induction false} WeightedLengthZero(codes: map<char, string>, cs: seq<char>)
    ensures WeightedLength(codes, multiset{}, cs) == 0
  {
    if cs != [] {
      WeightedLengthZero(codes, cs[1..]);
    }
  }

  /** When every character of the text has a non-empty code, the encoding
      has at least one bit per character. */
  lemma {:induction false} EncodingNotShorter(codes: map<char, string>, text: string)
    requires forall i :: 0 <= i < |text| ==> |Lookup(codes, text[i])| > 0
    ensures |EncodeWith(codes, text)| >= |text|
  {
    if text != [] {
      EncodingNotShorter(codes, text[1..]);
    }
  }
}
