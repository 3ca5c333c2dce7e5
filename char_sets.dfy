/**
  Character sets derived from the text: `getUniqueChars` collects the
  dictionary glyphs of the text into a JavaScript `Set`, whose iteration order
  is insertion order, and returns them as an array. So the result holds each
  glyph once, in the order of its first occurrence.
*/
module CharSets {

  predicate NoDuplicates(s: seq<char>)
  {
    forall i, j | 0 <= i < j < |s| :: s[i] != s[j]
  }

  /** The glyphs `getUniqueChars` returns for `s`, built up as the loop reads it. */
  function UniqueChars(keys: set<char>, s: string): (r: seq<char>)
    ensures forall c :: c in r <==> c in keys && c in s
    ensures NoDuplicates(r)
  {
    if s == [] then []
    else
      var u := UniqueChars(keys, s[..|s| - 1]);
      var c := s[|s| - 1];
      assert forall d | d in s :: d in s[..|s| - 1] || d == c;
      if c in keys && c !in u then u + [c] else u
  }

  /** The position of the first occurrence of `c` in `s`. */
  function FirstIndex(s: string, c: char): (k: nat)
    requires c in s
    ensures k < |s| && s[k] == c && c !in s[..k]
  {
    if s[0] == c then 0
    else
      var k := 1 + FirstIndex(s[1..], c);
      assert s[..k] == [s[0]] + s[1..][..k - 1];
      k
  }

  lemma FirstIndexUnique(s: string, c: char, k: nat)
    requires k < |s| && s[k] == c && c !in s[..k]
    ensures FirstIndex(s, c) == k
  {
    var f := FirstIndex(s, c);
    NotBefore(s, c, k);
    NotBefore(s, c, f);
  }

  lemma NotBefore(s: string, c: char, k: nat)
    requires k <= |s| && c !in s[..k]
    ensures forall j | 0 <= j < k :: s[j] != c
  {
    forall j | 0 <= j < k
      ensures s[j] != c
    {
      assert s[..k][j] == s[j];
    }
  }

  /** Appending characters does not move the first occurrence of a glyph already present. */
  lemma FirstIndexOfPrefix(p: string, q: string, c: char)
    requires c in p
    ensures FirstIndex(p + q, c) == FirstIndex(p, c)
  {
    var k := FirstIndex(p, c);
    assert (p + q)[..k] == p[..k];
    FirstIndexUnique(p + q, c, k);
  }

  /** The unique glyphs come in the order of their first occurrence in the text. */
  lemma {:induction false} UniqueCharsInFirstOccurrenceOrder(keys: set<char>, s: string)
    ensures forall i, j | 0 <= i < j < |UniqueChars(keys, s)| ::
              FirstIndex(s, UniqueChars(keys, s)[i]) < FirstIndex(s, UniqueChars(keys, s)[j])
  {
    if s != [] {
      var p, c := s[..|s| - 1], s[|s| - 1];
      assert s == p + [c];
      var u := UniqueChars(keys, p);
      var r := UniqueChars(keys, s);
      UniqueCharsInFirstOccurrenceOrder(keys, p);
      forall x | x in u
        ensures FirstIndex(s, x) == FirstIndex(p, x) < |p|
      {
        FirstIndexOfPrefix(p, [c], x);
      }
      if r != u {
        assert r == u + [c] && c !in p;
        FirstIndexUnique(s, c, |p|);
        forall i, j | 0 <= i < j < |r|
          ensures FirstIndex(s, r[i]) < FirstIndex(s, r[j])
        {
          assert r[i] in u;
          if j < |u| {
            assert r[j] in u;
          }
        }
      }
    }
  }

  /** A duplicate-free sequence has as many elements as its set. */
  lemma {:induction false} NoDuplicatesCardinality(s: seq<char>)
    requires NoDuplicates(s)
    ensures |set c | c in s| == |s|
  {
    if s != [] {
      var t := s[..|s| - 1];
      NoDuplicatesCardinality(t);
      assert (set c | c in s) == (set c | c in t) + {s[|s| - 1]};
      assert s[|s| - 1] !in t;
    }
  }

  /** The number of unique glyphs is the number of distinct dictionary glyphs of the text. */
  lemma UniqueCharsCount(keys: set<char>, s: string)
    ensures |UniqueChars(keys, s)| == |keys * set c | c in s|
  {
    var r := UniqueChars(keys, s);
    NoDuplicatesCardinality(r);
    assert (set c | c in r) == keys * set c | c in s;
  }

  /** The loop of `getUniqueChars`: a `Set` filled in reading order (a sequence here, to keep that order). */
  method CollectUniqueChars(keys: set<char>, text: string) returns (chars: seq<char>)
    ensures chars == UniqueChars(keys, text)
  {
    chars := [];
    for i := 0 to |text|
      invariant chars == UniqueChars(keys, text[..i])
    {
      assert text[..i + 1][..i] == text[..i];
      if text[i] in keys && text[i] !in chars {
        chars := chars + [text[i]];
      }
    }
    assert text[..|text|] == text;
  }

  /** The search box accepts exactly one character of the range U+4E00 to U+9FAF (一 to 龯). */
  predicate IsSearchQuery(q: string)
  {
    |q| == 1 && '一' <= q[0] <= '龯'
  }
}
