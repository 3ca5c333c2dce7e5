/**
  The basic reader component: the text and its markup (without audio icons),
  the selected glyph with its detail card, the one-glyph search and study
  progress. The component has its own character table; the fields kept here
  are the ones its card shows besides the stroke list and example words.
*/
module BasicReader {
  import opened Wrappers
  import opened Annotation
  import opened CharSets
  import opened Progress

  datatype Entry = Entry(pinyin: string, meaning: string)

  const Dictionary: map<char, Entry> := map[
    '学' := Entry("xué", "1. 学习，模仿 2. 学问，知识 3. 学校"),
    '京' := Entry("jīng", "1. 国都，首都 2. 大 3. 古代数目名"),
    '剧' := Entry("jù", "1. 戏剧，文艺的一种形式 2. 夸大，猛烈"),
    '很' := Entry("hěn", "1. 表示程度深 2. 非常，十分"),
    '好' := Entry("hǎo", "1. 优点多，使人满意 2. 友爱，和睦 3. 易，便于"),
    '看' := Entry("kàn", "1. 使视线接触到人或物 2. 观察，判断 3. 认为，以为"),
    '跟' := Entry("gēn", "1. 脚的后部 2. 在后面紧接着向同一方向行动 3. 和，同"),
    '老' := Entry("lǎo", "1. 年纪大，时间长 2. 陈旧 3. 原来的"),
    '师' := Entry("shī", "1. 教人的人 2. 榜样 3. 擅长某种技术的人"),
    '唱' := Entry("chàng", "1. 发出声音，依照乐律发出声音 2. 高呼，叫"),
    '戏' := Entry("xì", "1. 玩耍，游戏 2. 嘲笑，开玩笑 3. 戏剧，歌舞等表演")
  ]

  /** The text the reader starts with. */
  const SampleText: string := "我学京剧。京剧很好看。我跟老师学唱戏。"

  /** No annotation runs at start-up, so the initial empty markup is not the sample text's markup. */
  lemma InitialMarkupIsStale()
    ensures Annotate(Dictionary.Keys, SampleText, false) != ""
  {
  }

  /** The search accepts any one glyph of the range, in the table or not: 龙 is accepted though it has no entry. */
  lemma SearchAcceptsGlyphOutsideTable()
    ensures IsSearchQuery("龙") && '龙' !in Dictionary
  {
  }

  /**
    The element a click lands on in the rendered markup: its class list and
    its `data-char` attribute, which is absent on most elements.
  */
  datatype ClickTarget = ClickTarget(classes: set<string>, dataChar: Option<string>)

  const HighlightClass: string := "highlighted-char"

  /** The element the markup's highlight span for a marked token becomes. */
  function SpanTarget(t: Token): (r: ClickTarget)
    requires t.Marked?
    ensures HighlightClass in r.classes && r.dataChar == Some([t.glyph])
  {
    ClickTarget({HighlightClass}, Some([t.glyph]))
  }

  /** A span the annotator emitted carries a table key in its `data-char`, so a click on it selects that key. */
  lemma AnnotatorSpanCarriesKey(text: string, t: Token)
    requires t in Tokenize(Dictionary.Keys, text) && t.Marked?
    ensures SpanTarget(t).dataChar == Some([t.glyph]) && t.glyph in Dictionary
  {
    var tokens := Tokenize(Dictionary.Keys, text);
    var i :| 0 <= i < |tokens| && tokens[i] == t;
    assert text[i] == t.glyph;
  }

  /**
    In a consistent session the markup is the rendering of the annotator's
    tokens for the text it was built from, and every highlight span among
    them carries a table key.
  */
  lemma MarkupSpansCarryKeys(r: Reader)
    requires r.Valid()
    ensures r.highlightedText == Render(Tokenize(Dictionary.Keys, r.annotatedText), false)
    ensures forall t | t in Tokenize(Dictionary.Keys, r.annotatedText) && t.Marked? ::
              t.glyph in Dictionary && SpanTarget(t).dataChar == Some([t.glyph])
  {
    RenderOfTokenize(Dictionary.Keys, r.annotatedText, false);
    forall t | t in Tokenize(Dictionary.Keys, r.annotatedText) && t.Marked?
      ensures t.glyph in Dictionary
    {
      AnnotatorSpanCarriesKey(r.annotatedText, t);
    }
  }

  /**
    Markup text a user can type: it holds no table glyph, so the annotator
    copies it verbatim, and the browser renders it as an element with the
    highlight class whose `data-char` is not a table key.
  */
  const InjectedSpan: string := InjectedOpen + HighlightClass + InjectedClose

  const InjectedOpen: string := "<i class=\""
  const InjectedClose: string := "\" data-char=\"xyz\">x</i>"

  lemma InjectedSpanIsKept()
    ensures Annotate(Dictionary.Keys, InjectedSpan, false) == InjectedSpan
  {
    InjectedSpanBelowHan();
    assert forall k | k in Dictionary :: '一' <= k;
    assert forall c | c in InjectedSpan :: c !in Dictionary;
  }

  lemma InjectedSpanBelowHan()
    ensures forall c | c in InjectedSpan :: c < '一'
  {
    PieceBelowHan(InjectedOpen);
    PieceBelowHan(HighlightClass);
    PieceBelowHan(InjectedClose);
  }

  lemma PieceBelowHan(s: string)
    requires s == InjectedOpen || s == HighlightClass || s == InjectedClose
    ensures forall c | c in s :: c < '一'
  {
  }

  class Reader {
    var inputText: string
    var highlightedText: string
    var selectedChar: Option<string>
    var searchChar: string
    var searchResult: Option<Entry>
    var studyProgress: map<char, bool>
    /** The text the current markup was built from. */
    ghost var annotatedText: string

    ghost predicate Valid()
      reads this
    {
      highlightedText == Annotate(Dictionary.Keys, annotatedText, false)
    }

    /** The initial state: the sample text with an empty markup. */
    constructor ()
      ensures Valid()
      ensures inputText == SampleText && highlightedText == "" && annotatedText == ""
      ensures selectedChar == None && searchChar == "" && searchResult == None && studyProgress == map[]
    {
      inputText := SampleText;
      highlightedText := "";
      selectedChar := None;
      searchChar := "";
      searchResult := None;
      studyProgress := map[];
      annotatedText := "";
    }

    /** `handleTextChange`: the new text and its markup come from the same string. */
    method HandleTextChange(text: string)
      modifies this`inputText, this`highlightedText, this`annotatedText
      ensures Valid()
      ensures inputText == text && annotatedText == text
      ensures highlightedText == Annotate(Dictionary.Keys, inputText, false)
    {
      inputText := text;
      highlightedText := HighlightCharacters(Dictionary.Keys, text, false);
      annotatedText := text;
    }

    /**
      `handleCharClick` on the element `target` of the rendered markup: an
      element with the highlight class selects whatever its `data-char`
      attribute holds (nothing, when it has none); any other element is
      ignored.
    */
    method HandleCharClick(target: ClickTarget)
      modifies this`selectedChar
      ensures HighlightClass in target.classes ==> selectedChar == target.dataChar
      ensures HighlightClass !in target.classes ==> selectedChar == old(selectedChar)
    {
      if HighlightClass in target.classes {
        selectedChar := target.dataChar;
      }
    }

    /** A click in the side list of the text's glyphs. */
    method SelectFromList(c: char)
      requires c in UniqueChars(Dictionary.Keys, inputText)
      modifies this`selectedChar
      ensures selectedChar == Some([c]) && c in Dictionary
    {
      selectedChar := Some([c]);
    }

    /** The close button and the overlay of the detail card. */
    method CloseDetails()
      modifies this`selectedChar
      ensures selectedChar == None
    {
      selectedChar := None;
    }

    method SetSearchChar(query: string)
      modifies this`searchChar
      ensures searchChar == query
    {
      searchChar := query;
    }

    /** `handleSearch` */
    method HandleSearch()
      modifies this`searchResult, this`selectedChar
      ensures IsSearchQuery(searchChar) ==>
                && selectedChar == Some(searchChar)
                && searchResult == if searchChar[0] in Dictionary then Some(Dictionary[searchChar[0]]) else None
      ensures !IsSearchQuery(searchChar) ==> searchResult == None && selectedChar == old(selectedChar)
    {
      if IsSearchQuery(searchChar) {
        var c := searchChar[0];
        searchResult := if c in Dictionary then Some(Dictionary[c]) else None;
        selectedChar := Some(searchChar);
      } else {
        searchResult := None;
      }
    }

    /** `handleSearchClear` */
    method HandleSearchClear()
      modifies this`searchChar, this`searchResult
      ensures searchChar == "" && searchResult == None
    {
      searchChar := "";
      searchResult := None;
    }

    /** `toggleCharacterProgress(c)` */
    method ToggleCharacterProgress(c: char)
      modifies this`studyProgress
      ensures studyProgress == Toggle(old(studyProgress), c)
    {
      studyProgress := studyProgress[c := !(c in studyProgress && studyProgress[c])];
    }

    /** `getUniqueChars` */
    method GetUniqueChars() returns (chars: seq<char>)
      ensures chars == UniqueChars(Dictionary.Keys, inputText)
      ensures NoDuplicates(chars)
      ensures forall c :: c in chars <==> c in Dictionary && c in inputText
    {
      chars := CollectUniqueChars(Dictionary.Keys, inputText);
    }
  }
}
