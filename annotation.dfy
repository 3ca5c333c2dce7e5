/**
  The annotator shared by both reader components. It scans the text one code
  point at a time, wraps every dictionary glyph in a highlight span and copies
  every other character verbatim, without escaping. The enhanced reader nests
  an audio icon inside each span; the basic reader does not.

  A dictionary is given here by its key set: the readers test `DICTIONARY[char]`,
  and every entry is a (truthy) record, so the test is key membership.
*/
module Annotation {

  /** Everything of a highlight span that comes before the glyph in its `data-char` attribute. */
  const SpanOpen: string := "<span class=\"highlighted-char\" data-char=\""

  /** The speaker icon the enhanced reader puts after the glyph inside each span. */
  const AudioIcon: string := "<span class=\"audio-icon\" title=\"播放读音\">🔊</span>"

  /** The markup emitted for one dictionary glyph. */
  function Span(c: char, audioIcon: bool): (r: string)
    ensures |r| == SpanWidth(audioIcon)
    ensures r[..|SpanOpen|] == SpanOpen
    // the data-char attribute and the visible text both carry the glyph
    ensures r[|SpanOpen|] == c && r[|SpanOpen| + 3] == c
  {
    SpanOpen + [c] + "\">" + [c] + (if audioIcon then AudioIcon else "") + "</span>"
  }

  /** The length of every highlight span, whatever glyph it carries. */
  function SpanWidth(audioIcon: bool): nat
  {
    |SpanOpen| + 11 + (if audioIcon then |AudioIcon| else 0)
  }

  /** What one input character becomes in the markup. */
  function Piece(keys: set<char>, c: char, audioIcon: bool): string
  {
    if c in keys then Span(c, audioIcon) else [c]
  }

  /** The markup `highlightCharacters` builds for `s`. */
  function Annotate(keys: set<char>, s: string, audioIcon: bool): (r: string)
    ensures |r| >= |s|
    // a text without dictionary glyphs annotates to itself
    ensures (forall c | c in s :: c !in keys) ==> r == s
  {
    if s == [] then [] else Piece(keys, s[0], audioIcon) + Annotate(keys, s[1..], audioIcon)
  }

  /** The number of positions of `s` that hold a dictionary glyph. */
  function Occurrences(keys: set<char>, s: string): nat
  {
    if s == [] then 0 else (if s[0] in keys then 1 else 0) + Occurrences(keys, s[1..])
  }

  /** Annotation distributes over concatenation: it is a per-character map. */
  lemma {:induction false} AnnotateAppend(keys: set<char>, s: string, t: string, audioIcon: bool)
    ensures Annotate(keys, s + t, audioIcon) == Annotate(keys, s, audioIcon) + Annotate(keys, t, audioIcon)
  {
    if s == [] {
      assert s + t == t;
    } else {
      assert (s + t)[0] == s[0];
      assert (s + t)[1..] == s[1..] + t;
      AnnotateAppend(keys, s[1..], t, audioIcon);
    }
  }

  /** Each dictionary occurrence lengthens the text by one span less its one glyph. */
  lemma {:induction false} AnnotateLength(keys: set<char>, s: string, audioIcon: bool)
    ensures |Annotate(keys, s, audioIcon)| == |s| + Occurrences(keys, s) * (SpanWidth(audioIcon) - 1)
  {
    if s != [] {
      var w := SpanWidth(audioIcon) - 1;
      var b := if s[0] in keys then 1 else 0;
      var rest := Annotate(keys, s[1..], audioIcon);
      AnnotateLength(keys, s[1..], audioIcon);
      assert Annotate(keys, s, audioIcon) == Piece(keys, s[0], audioIcon) + rest;
      assert |Piece(keys, s[0], audioIcon)| == 1 + b * w;
      assert Occurrences(keys, s) == b + Occurrences(keys, s[1..]);
      MulDistributes(b, Occurrences(keys, s[1..]), w);
    }
  }

  lemma MulDistributes(a: nat, b: nat, w: nat)
    ensures (a + b) * w == a * w + b * w
  {
  }

  /** The loop of `highlightCharacters`: a string accumulator, one piece per code point. */
  method HighlightCharacters(keys: set<char>, text: string, audioIcon: bool) returns (highlighted: string)
    ensures highlighted == Annotate(keys, text, audioIcon)
  {
    highlighted := "";
    for i := 0 to |text|
      invariant highlighted == Annotate(keys, text[..i], audioIcon)
    {
      assert text[..i + 1] == text[..i] + [text[i]];
      AnnotateAppend(keys, text[..i], [text[i]], audioIcon);
      assert Annotate(keys, [text[i]], audioIcon) == Piece(keys, text[i], audioIcon);
      highlighted := highlighted + Piece(keys, text[i], audioIcon);
    }
    assert text[..|text|] == text;
  }

  // ---------------------------------------------------------------------
  // The same annotation seen as a token sequence: one token per character,
  // marked exactly when the character is a dictionary key.
  // ---------------------------------------------------------------------

  datatype Token = Plain(glyph: char) | Marked(glyph: char)

  function Tokenize(keys: set<char>, s: string): (r: seq<Token>)
    ensures |r| == |s|
    ensures forall i | 0 <= i < |s| :: r[i].glyph == s[i] && (r[i].Marked? <==> s[i] in keys)
  {
    if s == [] then []
    else [if s[0] in keys then Marked(s[0]) else Plain(s[0])] + Tokenize(keys, s[1..])
  }

  /** The literal glyphs of a token sequence, concatenated. */
  function Glyphs(ts: seq<Token>): string
  {
    if ts == [] then [] else [ts[0].glyph] + Glyphs(ts[1..])
  }

  /** The markup of a token sequence. */
  function Render(ts: seq<Token>, audioIcon: bool): string
  {
    if ts == [] then []
    else (match ts[0] case Marked(c) => Span(c, audioIcon) case Plain(c) => [c]) + Render(ts[1..], audioIcon)
  }

  function MarkedCount(ts: seq<Token>): nat
  {
    if ts == [] then 0 else (if ts[0].Marked? then 1 else 0) + MarkedCount(ts[1..])
  }

  /** Round trip: the glyphs of the tokens reproduce the input exactly. */
  lemma {:induction false} GlyphsOfTokenize(keys: set<char>, s: string)
    ensures Glyphs(Tokenize(keys, s)) == s
  {
    if s != [] {
      GlyphsOfTokenize(keys, s[1..]);
    }
  }

  /** Rendering the tokens gives exactly the markup of `highlightCharacters`. */
  lemma {:induction false} RenderOfTokenize(keys: set<char>, s: string, audioIcon: bool)
    ensures Render(Tokenize(keys, s), audioIcon) == Annotate(keys, s, audioIcon)
  {
    if s != [] {
      var ts := Tokenize(keys, s);
      assert ts[1..] == Tokenize(keys, s[1..]);
      RenderOfTokenize(keys, s[1..], audioIcon);
    }
  }

  /** There are as many highlight spans as dictionary-glyph occurrences. */
  lemma {:induction false} MarkedCountOfTokenize(keys: set<char>, s: string)
    ensures MarkedCount(Tokenize(keys, s)) == Occurrences(keys, s)
  {
    if s != [] {
      var ts := Tokenize(keys, s);
      assert ts[1..] == Tokenize(keys, s[1..]);
      MarkedCountOfTokenize(keys, s[1..]);
    }
  }

  /** The glyph in a span's data-char attribute identifies the span. */
  lemma SpanInjective(c: char, d: char, audioIcon: bool)
    requires Span(c, audioIcon) == Span(d, audioIcon)
    ensures c == d
  {
    assert Span(c, audioIcon)[|SpanOpen|] == c;
  }
}
