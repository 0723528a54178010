/**
  Step 1 of `buildTree`: `frequencies[c]++` for every character of the text.
  The map is a member of the coder and is never cleared, so the counts of a
  second text are added to those already there. The number of occurrences of
  `c` in `s` is written `multiset(s)[c]`.
 */
module Frequencies {

  /** The count recorded for `c`; `operator[]` reads a missing key as 0. */
  function CountOf(freq: map<char, int>, c: char): int
  {
    if c in freq then freq[c] else 0
  }

  /** Adds one to the count of every character of `text`, in order. */
  method CountFrequencies(freq: map<char, int>, text: string) returns (r: map<char, int>)
    ensures forall c :: c in r <==> c in freq || c in text
    ensures forall c :: CountOf(r, c) == CountOf(freq, c) + multiset(text)[c]
  {
    r := freq;
    for i := 0 to |text|
      invariant forall c :: c in r <==> c in freq || c in text[..i]
      invariant forall c :: CountOf(r, c) == CountOf(freq, c) + multiset(text[..i])[c]
    {
      var c := text[i];
      assert text[..i + 1] == text[..i] + [c];
      r := r[c := CountOf(r, c) + 1];
    }
    assert text[..|text|] == text;
  }

  /** `freq` records exactly the characters of `counts`, each with its
      number of occurrences. */
  ghost predicate CountsOf(freq: map<char, int>, counts: multiset<char>)
  {
    && (forall c :: c in freq <==> c in counts)
    && (forall c :: c in freq ==> freq[c] == counts[c])
  }

  /** Counting a text into a table that holds the counts of `s` gives the
      counts of `s + text`: a second count adds to the first. */
  lemma CountsExtend(freq: map<char, int>, r: map<char, int>, s: string, text: string)
    requires CountsOf(freq, multiset(s))
    requires forall c :: c in r <==> c in freq || c in text
    requires forall c :: CountOf(r, c) == CountOf(freq, c) + multiset(text)[c]
    ensures CountsOf(r, multiset(s + text))
  {
    assert multiset(s + text) == multiset(s) + multiset(text);
    forall c | c in r ensures r[c] == multiset(s + text)[c] {
      assert CountOf(r, c) == r[c];
    }
  }
}
