/**
  The vocabulary book of the enhanced reader: an ordered list of
  records of glyph, pinyin and meaning copied from the table, at most one per
  glyph, with index-based removal and a search filter for display.
*/
module VocabBook {
  import opened EnhancedDictionary

  datatype VocabEntry = VocabEntry(glyph: char, pinyin: string, meaning: string)

  /** Some record of the book is for glyph `c`. */
  predicate InVocab(vocab: seq<VocabEntry>, c: char)
  {
    exists i | 0 <= i < |vocab| :: vocab[i].glyph == c
  }

  /** The record `addCharToVocab` copies out of the table for `c`. */
  function EntryFor(c: char): VocabEntry
    requires c in Dictionary
  {
    VocabEntry(c, Dictionary[c].pinyin, Dictionary[c].meaning)
  }

  /** The book's invariant: every record is the table's record for its glyph, and no glyph is there twice. */
  predicate WellFormed(vocab: seq<VocabEntry>)
  {
    && (forall i | 0 <= i < |vocab| :: vocab[i].glyph in Dictionary && vocab[i] == EntryFor(vocab[i].glyph))
    && (forall i, j | 0 <= i < j < |vocab| :: vocab[i].glyph != vocab[j].glyph)
  }

  /** The update of `addCharToVocab(c)`. */
  function AddToVocab(vocab: seq<VocabEntry>, c: char): (r: seq<VocabEntry>)
    ensures InVocab(r, c) <==> c in Dictionary || InVocab(vocab, c)
    // the old records stay, in order, and at most one record is appended
    ensures |vocab| <= |r| <= |vocab| + 1 && r[..|vocab|] == vocab
    ensures |r| == |vocab| + 1 <==> c in Dictionary && !InVocab(vocab, c)
    ensures |r| == |vocab| + 1 ==> r[|vocab|] == EntryFor(c)
    ensures WellFormed(vocab) ==> WellFormed(r)
  {
    if c in Dictionary && !InVocab(vocab, c) then
      var r := vocab + [EntryFor(c)];
      assert r[|vocab|].glyph == c;
      assert forall d | InVocab(vocab, d) :: InVocab(r, d) by {
        forall d | InVocab(vocab, d) ensures InVocab(r, d) {
          var i :| 0 <= i < |vocab| && vocab[i].glyph == d;
          assert r[i] == vocab[i];
        }
      }
      r
    else vocab
  }

  /** Adding a glyph twice is the same as adding it once. */
  lemma AddToVocabIdempotent(vocab: seq<VocabEntry>, c: char)
    ensures AddToVocab(AddToVocab(vocab, c), c) == AddToVocab(vocab, c)
  {
  }

  /** Every element except the one at position `index`, in order. */
  function RemoveAt<T>(s: seq<T>, index: nat): (r: seq<T>)
    ensures index < |s| ==> |r| == |s| - 1
    ensures index < |s| ==> forall k | 0 <= k < |r| :: r[k] == if k < index then s[k] else s[k + 1]
    ensures index >= |s| ==> r == s
  {
    if index < |s| then s[..index] + s[index + 1..] else s
  }

  /** Removal keeps the book well formed and takes out exactly the glyph at that position. */
  lemma RemoveAtWellFormed(vocab: seq<VocabEntry>, index: nat)
    requires index < |vocab|
    ensures WellFormed(vocab) ==> WellFormed(RemoveAt(vocab, index))
    ensures WellFormed(vocab) ==>
              forall c :: InVocab(RemoveAt(vocab, index), c) <==> InVocab(vocab, c) && c != vocab[index].glyph
  {
    if !WellFormed(vocab) {
      return;
    }
    var r := RemoveAt(vocab, index);
    forall c
      ensures InVocab(r, c) <==> InVocab(vocab, c) && c != vocab[index].glyph
    {
      if InVocab(r, c) {
        var i :| 0 <= i < |r| && r[i].glyph == c;
        assert r[i] == if i < index then vocab[i] else vocab[i + 1];
      }
      if InVocab(vocab, c) && c != vocab[index].glyph {
        var i :| 0 <= i < |vocab| && vocab[i].glyph == c;
        assert vocab[i] == if i < index then r[i] else r[i - 1];
      }
    }
  }

  /** Removing the record just appended gives the book back. */
  lemma RemoveAfterAdd(vocab: seq<VocabEntry>, c: char)
    requires c in Dictionary && !InVocab(vocab, c)
    ensures RemoveAt(AddToVocab(vocab, c), |vocab|) == vocab
  {
  }

  // ---------------------------------------------------------------------
  // The search filter of the vocabulary view. `toLowerCase` is Unicode case
  // folding, which is not modelled: it is the parameter `fold`.
  // ---------------------------------------------------------------------

  predicate IsPrefix(q: string, s: string)
  {
    |q| <= |s| && s[..|q|] == q
  }

  /** Substring search: `q` occurs in `s` at some position (the empty string occurs everywhere). */
  predicate Contains(s: string, q: string)
  {
    IsPrefix(q, s) || (s != [] && Contains(s[1..], q))
  }

  /** A one-character query occurs exactly when that character does. */
  lemma {:induction false} ContainsOneChar(s: string, c: char)
    ensures Contains(s, [c]) <==> c in s
  {
    if s != [] {
      ContainsOneChar(s[1..], c);
      assert s == [s[0]] + s[1..];
    }
  }

  /** A record matches when its glyph contains the query, or its folded pinyin or meaning contains the folded query. */
  predicate Matches(w: VocabEntry, query: string, fold: string -> string)
  {
    Contains([w.glyph], query) || Contains(fold(w.pinyin), fold(query)) || Contains(fold(w.meaning), fold(query))
  }

  /** The records the vocabulary view lists for `query`. */
  function FilterVocab(vocab: seq<VocabEntry>, query: string, fold: string -> string): (r: seq<VocabEntry>)
    ensures query == "" ==> r == vocab
    ensures |r| <= |vocab|
    ensures forall w | w in r :: w in vocab && (query == "" || Matches(w, query, fold))
    ensures forall w | w in vocab && (query == "" || Matches(w, query, fold)) :: w in r
  {
    if vocab == [] then []
    else (if query == "" || Matches(vocab[0], query, fold) then [vocab[0]] else [])
         + FilterVocab(vocab[1..], query, fold)
  }

  /**
    The positions in the whole book of the records the filter lists: the
    filtered list is the subsequence of the book at these increasing positions.
  */
  function ShownIndices(vocab: seq<VocabEntry>, query: string, fold: string -> string): (r: seq<nat>)
    ensures |r| == |FilterVocab(vocab, query, fold)|
    ensures forall k | 0 <= k < |r| :: r[k] < |vocab| && vocab[r[k]] == FilterVocab(vocab, query, fold)[k]
    ensures forall k, l | 0 <= k < l < |r| :: r[k] < r[l]
  {
    if vocab == [] then []
    else
      var head := if query == "" || Matches(vocab[0], query, fold) then [vocab[0]] else [];
      var rest := ShownIndices(vocab[1..], query, fold);
      ShownStep(vocab, head, rest, FilterVocab(vocab[1..], query, fold));
      (if head == [] then [] else [0]) + Shift(rest)
  }

  /** One step of `ShownIndices`: positions in the tail, moved up by one, behind position 0 when the head is shown. */
  lemma ShownStep(vocab: seq<VocabEntry>, head: seq<VocabEntry>, rest: seq<nat>, g: seq<VocabEntry>)
    requires vocab != [] && (head == [] || head == [vocab[0]])
    requires |rest| == |g|
    requires forall k | 0 <= k < |rest| :: rest[k] < |vocab| - 1 && vocab[1..][rest[k]] == g[k]
    requires forall k, l | 0 <= k < l < |rest| :: rest[k] < rest[l]
    ensures var r := (if head == [] then [] else [0]) + Shift(rest);
            && |r| == |head + g|
            && (forall k | 0 <= k < |r| :: r[k] < |vocab| && vocab[r[k]] == (head + g)[k])
            && (forall k, l | 0 <= k < l < |r| :: r[k] < r[l])
  {
  }

  /** Every position moved one place up. */
  function Shift(idx: seq<nat>): (r: seq<nat>)
    ensures |r| == |idx| && forall k | 0 <= k < |idx| :: r[k] == idx[k] + 1
  {
    seq(|idx|, k requires 0 <= k < |idx| => idx[k] + 1)
  }

  /**
    As written at src/TextReader-Enhanced.js:2210: the delete button of row
    `row` of the FILTERED list removes position `row` of the WHOLE book.
  */
  function RemoveShownAsWritten(vocab: seq<VocabEntry>, query: string, fold: string -> string, row: nat): (r: seq<VocabEntry>)
    requires row < |FilterVocab(vocab, query, fold)|
    ensures r == vocab[..row] + vocab[row + 1..]
  {
    RemoveAt(vocab, row)
  }

  /** The evident intent: the delete button of a listed row removes the record that row shows. */
  function RemoveShown(vocab: seq<VocabEntry>, query: string, fold: string -> string, row: nat): (r: seq<VocabEntry>)
    requires row < |FilterVocab(vocab, query, fold)|
    ensures |r| == |vocab| - 1
    ensures WellFormed(vocab) ==> WellFormed(r)
    ensures WellFormed(vocab) ==> forall c ::
              InVocab(r, c) <==> InVocab(vocab, c) && c != FilterVocab(vocab, query, fold)[row].glyph
  {
    var j := ShownIndices(vocab, query, fold)[row];
    RemoveAtWellFormed(vocab, j);
    RemoveAt(vocab, j)
  }

  /** With an empty query the two agree: every row shows the record at its own position. */
  lemma RemoveShownWithoutQuery(vocab: seq<VocabEntry>, fold: string -> string, row: nat)
    requires row < |vocab|
    ensures RemoveShown(vocab, "", fold, row) == RemoveShownAsWritten(vocab, "", fold, row)
  {
    var idx := ShownIndices(vocab, "", fold);
    StrictlyIncreasingIsIdentity(idx, |vocab|);
  }

  lemma StrictlyIncreasingIsIdentity(idx: seq<nat>, n: nat)
    requires |idx| == n
    requires forall k | 0 <= k < |idx| :: idx[k] < n
    requires forall k, l | 0 <= k < l < |idx| :: idx[k] < idx[l]
    ensures forall k | 0 <= k < |idx| :: idx[k] == k
  {
    forall k | 0 <= k < |idx|
      ensures idx[k] == k
    {
      AtLeastPosition(idx, k);
      AtMostPosition(idx, n, k);
    }
  }

  lemma {:induction false} AtLeastPosition(idx: seq<nat>, k: nat)
    requires k < |idx|
    requires forall a, b | 0 <= a < b < |idx| :: idx[a] < idx[b]
    ensures idx[k] >= k
  {
    if k > 0 {
      AtLeastPosition(idx, k - 1);
    }
  }

  lemma {:induction false} AtMostPosition(idx: seq<nat>, n: nat, k: nat)
    requires k < |idx| == n
    requires forall a | 0 <= a < |idx| :: idx[a] < n
    requires forall a, b | 0 <= a < b < |idx| :: idx[a] < idx[b]
    ensures idx[k] <= k
    decreases n - k
  {
    if k < n - 1 {
      AtMostPosition(idx, n, k + 1);
    }
  }

  function Identity(s: string): string
  {
    s
  }

  /**
    The discrepancy on a concrete book: with the records of 学 and 京 and the
    query "京", the view lists only 京, yet its delete button removes 学.
  */
  lemma RemoveShownAsWrittenDeletesWrongEntry()
    ensures var vocab := [EntryFor('学'), EntryFor('京')];
            && FilterVocab(vocab, "京", Identity) == [EntryFor('京')]
            && RemoveShownAsWritten(vocab, "京", Identity, 0) == [EntryFor('京')]
            && RemoveShown(vocab, "京", Identity, 0) == [EntryFor('学')]
  {
    var xue, jing := EntryFor('学'), EntryFor('京');
    FilterOfExample(xue, jing);
    DeletesWrongEntry(xue, jing, "京", Identity);
  }

  /** Any book of a hidden record followed by a shown one: the filtered view's row 0 deletes the hidden record. */
  lemma DeletesWrongEntry(hidden: VocabEntry, shown: VocabEntry, query: string, fold: string -> string)
    requires query != "" && !Matches(hidden, query, fold) && Matches(shown, query, fold)
    ensures && FilterVocab([hidden, shown], query, fold) == [shown]
            && RemoveShownAsWritten([hidden, shown], query, fold, 0) == [shown]
            && RemoveShown([hidden, shown], query, fold, 0) == [hidden]
  {
    var vocab := [hidden, shown];
    assert vocab[1..] == [shown];
    assert vocab[1..][1..] == [];
    assert FilterVocab(vocab, query, fold) == [shown];
    var j := ShownIndices(vocab, query, fold)[0];
    assert vocab[j] == shown && j < 2;
    assert hidden != shown;
    assert j == 1;
  }

  lemma FilterOfExample(xue: VocabEntry, jing: VocabEntry)
    requires xue == EntryFor('学') && jing == EntryFor('京')
    ensures !Matches(xue, "京", Identity) && Matches(jing, "京", Identity)
  {
    assert xue == VocabEntry('学', "xué", "1. 学习，模仿 2. 学问，知识 3. 学校");
    assert jing.glyph == '京';
    NotInExample(xue);
    ContainsOneChar([jing.glyph], '京');
  }

  lemma NotInExample(xue: VocabEntry)
    requires xue == VocabEntry('学', "xué", "1. 学习，模仿 2. 学问，知识 3. 学校")
    ensures !Matches(xue, "京", Identity)
  {
    LacksGlyph([xue.glyph], '京');
    LacksGlyph(xue.pinyin, '京');
    LacksGlyph(xue.meaning, '京');
  }

  lemma LacksGlyph(s: string, c: char)
    requires c !in s
    ensures !Contains(s, [c]) && !Contains(Identity(s), Identity([c]))
  {
    ContainsOneChar(s, c);
  }
}
