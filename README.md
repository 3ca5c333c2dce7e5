# 随文识字 reader core, modelled in Dafny

The repository is a browser-based Chinese literacy trainer. The user types or
pastes a text. The reader highlights every character that its built-in
character table (`DICTIONARY`) knows, and the user can click a character to
see its details. The reader also keeps study progress, a vocabulary book and
a small practice quiz.

This project models the logic behind two reader components:
`src/TextReader.js` (the basic reader) and `src/TextReader-Enhanced.js` (the
enhanced reader). The UI around that logic is not modelled.

- **Annotation** (`annotation.dfy`, module `Annotation`). `highlightCharacters`
  scans the text one code point at a time. It wraps each table glyph in a
  highlight span and copies every other character verbatim. The enhanced
  reader also nests an audio-icon span inside each highlight span. The
  specification is the recursive function `Annotate`, and the source's
  accumulator loop is the method `HighlightCharacters`. The same text can also
  be read as one token per character (`Tokenize`). That reading gives the
  round trip, the marking rule and the span count.
- **Derived character sets** (`char_sets.dfy`, `EnhancedReader.Bucket`).
  `getUniqueChars` returns the table glyphs of the text, each once, in
  first-occurrence order. `getCharsByLevel` sorts those glyphs into buckets by
  their level.
- **Study progress** (`progress.dfy`). The toggle, and the count of mastered
  glyphs.
- **Vocabulary book** (`vocab_book.dfy`). Add-if-absent, removal by position,
  and the search filter of the vocabulary view.
- **Practice** (`practice.dfy`, `EnhancedReader.Reader`). `startPractice`,
  `generateQuestion` and `submitAnswer`, with the score and a newest-first
  history of at most ten records.
- **Pinyin tone marks** (`pinyin.dfy`). The `addToneMark` table, and the
  keystroke handlers. On a digit key 1 to 5 with an empty selection, a handler
  replaces the nearest vowel before the cursor with its marked form.
- **Session state** (`enhanced_reader.dfy`, `basic_reader.dfy`). Each
  component is a class. Its fields are the component's state variables, and
  each handler is a method that modifies only the fields that handler sets.

Two invariants are tied to specific paths, as in the source:

- The enhanced reader annotates the sample text when it mounts. Its
  `handleTextChange` sets the text and the markup from the same string.
  Clearing the text or loading a file sets only the text, so after those
  paths the markup is stale.
- The basic reader starts with an empty markup beside a non-empty sample
  text.

Behaviour of the code worth knowing, modelled as written:

- The write-mode prompt asks for the glyph's pinyin
  (src/TextReader-Enhanced.js:1331). But `submitAnswer` compares the typed
  answer with the glyph itself (line 603), so no pinyin answer is ever
  judged correct (`EnhancedReader.WriteModeRejectsPinyin`).
- `handleSearch` selects any single character in U+4E00 to U+9FAF, whether
  or not the table has it. So a selected glyph need not be a table key
  (`BasicReader.SearchAcceptsGlyphOutsideTable`).
- A click in the basic reader's text selects whatever the `data-char`
  attribute of an element with the `highlighted-char` class holds. The spans
  the annotator emits carry a table key there
  (`BasicReader.AnnotatorSpanCarriesKey`). The markup is inserted as raw
  HTML, however, and characters that are not table glyphs are copied
  without escaping. So a user can type an element of that class that
  carries any attribute value, a table key included
  (`BasicReader.InjectedSpanIsKept`).
- The vocabulary book's removal works by row position, not by glyph.
- The tone-key handlers use the tone table as written, so key 1 leaves the
  vowel bare (`Pinyin.ToneKeyOneOnMa`). The keystroke function is proved
  for any tone table, the corrected one included.

## Model

| member | source | states |
|---|---|---|
| `Annotation.Span` | src/TextReader-Enhanced.js:379 | The span for a glyph opens with the `highlighted-char` class, carries the glyph in `data-char` and as its text, and has the same length for every glyph. |
| `Annotation.SpanInjective` | src/TextReader.js:92 | Different glyphs get different spans, so the `data-char` attribute identifies the glyph. |
| `Annotation.Annotate` | src/TextReader.js:88-98 | The markup is never shorter than the text. A text with no table glyph annotates to itself. |
| `Annotation.AnnotateAppend` | src/TextReader-Enhanced.js:375-385 | Annotating `s + t` gives the markup of `s` followed by the markup of `t`. The annotation is a per-character map. |
| `Annotation.AnnotateLength` | src/TextReader-Enhanced.js:377-383 | The markup's length is the text's length plus one span-width less one for every table-glyph occurrence. |
| `Annotation.HighlightCharacters` | src/TextReader-Enhanced.js:375-385 | The string-accumulator loop produces exactly `Annotate` of its text. The audio flag selects the enhanced variant. |
| `Annotation.Tokenize` | src/TextReader.js:90-96 | There is one token per input character, carrying that character. A token is marked iff its character is a table key. |
| `Annotation.GlyphsOfTokenize` | src/TextReader.js:90-96 | Round trip: the glyphs of the tokens, concatenated, reproduce the input exactly. |
| `Annotation.RenderOfTokenize` | src/TextReader.js:90-96 | Rendering the tokens gives exactly the markup `highlightCharacters` builds. |
| `Annotation.MarkedCountOfTokenize` | src/TextReader.js:90-96 | The number of highlight spans equals the number of table-glyph occurrences in the text. |
| `CharSets.UniqueChars` | src/TextReader.js:146-154 | The result has no duplicates. A glyph is in it iff it is a table key occurring in the text. |
| `CharSets.FirstIndex` | src/TextReader-Enhanced.js:560-566 | Gives the position of the first occurrence of a glyph. This is the order a JavaScript `Set` keeps. |
| `CharSets.UniqueCharsInFirstOccurrenceOrder` | src/TextReader-Enhanced.js:559-567 | The unique glyphs are ordered by their first occurrence in the text. |
| `CharSets.UniqueCharsCount` | src/TextReader-Enhanced.js:559-567 | The number of unique glyphs is the number of distinct table glyphs in the text. |
| `CharSets.CollectUniqueChars` | src/TextReader-Enhanced.js:559-567 | The loop that fills the `Set` returns exactly `UniqueChars` of the text. |
| `Progress.Toggle` | src/TextReader.js:138-143 | The toggle adds `c` as a key and negates `c`'s truthiness, where an absent key counts as false. Every other key keeps its value. |
| `Progress.MasteredCount` | src/TextReader.js:230 | The "mastered" figure (also at src/TextReader-Enhanced.js:1277) never exceeds the number of keys. It is 0 iff no glyph is mastered. |
| `Progress.ToggleMasteredSet` | src/TextReader-Enhanced.js:1277 | The set of true keys gains or loses exactly `c`. |
| `Progress.ToggleMasteredCount` | src/TextReader.js:230 | The mastered count moves by exactly one on each toggle. |
| `Progress.ToggleTwice` | src/TextReader-Enhanced.js:551-556 | Two toggles restore every glyph's truthiness and the mastered count. A glyph that had no key comes back as `false`. |
| `EnhancedDictionary.Dictionary` | src/TextReader-Enhanced.js:9-152 | The enhanced reader's table: eleven glyphs with pinyin, meaning and level. |
| `EnhancedDictionary.LevelsInRange` | src/TextReader-Enhanced.js:19-149 | Every table entry has level 1, 2 or 3. |
| `EnhancedDictionary.PinyinLongerThanOneChar` | src/TextReader-Enhanced.js:11-145 | Every table pinyin is longer than one character. |
| `VocabBook.AddToVocab` | src/TextReader-Enhanced.js:506-532 | The glyph is in the book afterwards iff it is a table key or was already there. The old records stay in order. Exactly one table record is appended iff the glyph is a key not yet in the book. The update keeps the book free of duplicate glyphs and keeps every record copied from the table. |
| `VocabBook.AddToVocabIdempotent` | src/TextReader-Enhanced.js:507 | Adding a glyph twice gives the same book as adding it once. |
| `VocabBook.RemoveAt` | src/TextReader-Enhanced.js:1941 | Exactly position `index` is removed. The rest keep their order. An index out of range changes nothing. |
| `VocabBook.RemoveAtWellFormed` | src/TextReader-Enhanced.js:1941 | Removal keeps the book well formed. Afterwards the removed glyph is absent and every other glyph keeps its membership. |
| `VocabBook.RemoveAfterAdd` | src/TextReader-Enhanced.js:506-532 | Removing the record that an add just appended gives back the original book. |
| `VocabBook.FilterVocab` | src/TextReader-Enhanced.js:2168-2176 | An empty query keeps the whole book. Otherwise exactly the matching records are kept, and nothing else. |
| `VocabBook.Matches` | src/TextReader-Enhanced.js:2170-2174 | A record matches when its glyph contains the raw query, or its folded pinyin or folded meaning contains the folded query. |
| `VocabBook.ShownIndices` | src/TextReader-Enhanced.js:2168-2176 | The filtered list is the subsequence of the book at strictly increasing positions. |
| `VocabBook.RemoveShownAsWritten` | src/TextReader-Enhanced.js:2190-2210 | As written, row `row` of the filtered view deletes position `row` of the whole book. |
| `VocabBook.RemoveShown` | src/TextReader-Enhanced.js:2190-2210 | Corrected: the book loses one record, the one the clicked row shows, and stays well formed. |
| `VocabBook.RemoveShownWithoutQuery` | src/TextReader-Enhanced.js:2169 | With an empty query, the as-written and corrected removals agree. |
| `VocabBook.RemoveShownAsWrittenDeletesWrongEntry` | src/TextReader-Enhanced.js:2210 | Book [学, 京], query "京": the view lists only 京, but the as-written delete removes 学. |
| `VocabBook.DeletesWrongEntry` | src/TextReader-Enhanced.js:2190-2210 | For any book of a non-matching record followed by a matching one, the view lists only the second record. Its row 0 deletes the first record as written, and the second with the correction. |
| `Practice.IsCorrect` | src/TextReader-Enhanced.js:603 | An answer is correct iff it is exactly the one-character question glyph, in every mode. |
| `Practice.PushRecord` | src/TextReader-Enhanced.js:615 | The new history is the ten newest records, newest first. It never holds more than ten. |
| `Practice.PushRecordCorrectCount` | src/TextReader-Enhanced.js:600-617 | Pushing a record adds at most that record's correctness to the count of correct records. |
| `Practice.PickQuestion` | src/TextReader-Enhanced.js:590-597 | There is no question iff there are no glyphs. A question's glyph is one of the offered glyphs, in the requested mode. |
| `Practice.EveryGlyphCanBeDrawn` | src/TextReader-Enhanced.js:594 | Every offered glyph is drawn by some random value. |
| `Pinyin.VowelClassIsTableDomain` | src/TextReader-Enhanced.js:728 | The vowel character class is exactly the key set of both tone tables, and every row has five forms. So the table branch is always taken for a vowel, and `tone - 1` always indexes a form. |
| `Pinyin.IsVowel` | src/TextReader-Enhanced.js:728 | The vowel character class of both keystroke handlers (lines 728 and 789): a, e, i, o, u, v and ü, in either case. |
| `Pinyin.ToneTableAsWritten` | src/TextReader-Enhanced.js:753-768 | The `vowelMap` rows as written, form by form. |
| `Pinyin.ToneTable` | src/TextReader-Enhanced.js:753-768 | The same rows with the first-tone macron in the first form. |
| `Pinyin.AddToneMarkWith` | src/TextReader-Enhanced.js:770 | For any tone table: a character outside the vowel class is returned unchanged, and a vowel becomes one of its row's forms. |
| `Pinyin.AddToneMarkAsWritten` | src/TextReader-Enhanced.js:752-771 | A character that is not a key is returned unchanged. Tone 5 gives the bare vowel, with `v`/`V` read as `ü`/`Ü`. |
| `Pinyin.ToneOneAsWrittenIsUnmarked` | src/TextReader-Enhanced.js:754 | As written, tone 1 gives the bare vowel, the same as tone 5. |
| `Pinyin.AddToneMark` | src/TextReader-Enhanced.js:752-771 | With the corrected table: non-vowels come back unchanged, tone 5 gives the bare vowel, and tones 1 to 4 give a character outside the vowel class. |
| `Pinyin.ToneMarksDistinct` | src/TextReader-Enhanced.js:753-768 | With the corrected table, the five tones of a vowel give five different characters. |
| `Pinyin.LastVowelBefore` | src/TextReader-Enhanced.js:725-732 | Finds the nearest vowel strictly before the cursor. There is none iff no vowel precedes the cursor. |
| `Pinyin.ToneKeystroke` | src/TextReader-Enhanced.js:715-745 | For any tone table, the text keeps its length. Only the nearest vowel before the cursor may change, and it takes that table's form for the requested tone. With no tone keystroke (a digit 1 to 5 and an empty selection), or no vowel before the cursor, the text is unchanged. |
| `Pinyin.ApplyToneKey` | src/TextReader-Enhanced.js:715-745 | The backward scan and the substring splice compute exactly `ToneKeystroke`, for the table they are given. |
| `Pinyin.ToneKeyOneOnMa` | src/TextReader-Enhanced.js:735-740 | After "ma" with the cursor at the end, key 1 leaves "ma" with the table as written (the digit is swallowed). With the corrected table it gives "mā". |
| `Pinyin.ToneKeyOneAsWritten` | src/TextReader-Enhanced.js:733-745 | With the table as written, key 1 changes at most a typed `v`/`V` into `ü`/`Ü`. Every other text is left as it was. |
| `EnhancedReader.Bucket` | src/TextReader-Enhanced.js:570-578 | A glyph is in bucket `level` iff it is among the given glyphs and has that table level. |
| `EnhancedReader.BucketSizes` | src/TextReader-Enhanced.js:570-578 | The three bucket sizes add up to the number of glyphs. |
| `EnhancedReader.WriteModeRejectsPinyin` | src/TextReader-Enhanced.js:603 | In write mode, a glyph's table pinyin is never judged correct. |
| `EnhancedReader.Reader.constructor` | src/TextReader-Enhanced.js:160-263 | Initial state: the sample text and its markup (the mount effect), empty progress, book and history, score 0, no question. |
| `EnhancedReader.Reader.HandleTextChange` | src/TextReader-Enhanced.js:388-392 | After the call, the markup is `Annotate` of the new text. |
| `EnhancedReader.Reader.ClearText` | src/TextReader-Enhanced.js:1075 | Only the text is emptied. The markup is left as it was. |
| `EnhancedReader.Reader.LoadText` | src/TextReader-Enhanced.js:833 | Only the text is replaced. The markup is left as it was. |
| `EnhancedReader.Reader.GetUniqueChars` | src/TextReader-Enhanced.js:559-567 | Returns the duplicate-free list of the text's table glyphs, in first-occurrence order. |
| `EnhancedReader.Reader.GetCharsByLevel` | src/TextReader-Enhanced.js:570-578 | Each bucket holds exactly the text's table glyphs of its level. The bucket sizes add up to the unique count. |
| `EnhancedReader.Reader.ToggleCharacterProgress` | src/TextReader-Enhanced.js:551-556 | Progress becomes `Toggle` of the old progress. No other field changes. |
| `EnhancedReader.Reader.AddCharToVocab` | src/TextReader-Enhanced.js:506-532 | The book becomes `AddToVocab` of the old book, and the session stays valid. |
| `EnhancedReader.Reader.RemoveVocabAt` | src/TextReader-Enhanced.js:1904-1941 | The book loses exactly position `index`, and the session stays valid. |
| `EnhancedReader.Reader.SetVocabSearch` | src/TextReader-Enhanced.js:2142 | The search field takes the typed query. |
| `EnhancedReader.Reader.RemoveShownVocab` | src/TextReader-Enhanced.js:2190-2222 | Corrected delete button of the filtered view: it removes the record the row shows. |
| `EnhancedReader.Reader.GenerateQuestion` | src/TextReader-Enhanced.js:590-597 | With no glyphs in the text, nothing changes. Otherwise the question is a glyph of the text in the given mode, and the answer is cleared. |
| `EnhancedReader.Reader.StartPractice` | src/TextReader-Enhanced.js:581-587 | Sets the mode, resets the score to 0 and the history to empty, then generates a question. |
| `EnhancedReader.Reader.SetUserAnswer` | src/TextReader-Enhanced.js:1319-1336 | The answer field takes the typed or clicked answer. |
| `EnhancedReader.Reader.SubmitAnswer` | src/TextReader-Enhanced.js:600-617 | With no question, nothing changes. Otherwise the score rises by 1 iff the answer is the glyph, the record is prepended to a history capped at ten, and a new question is drawn. The history's correct count stays within the score. |
| `EnhancedReader.Reader.HandlePinyinInput` | src/TextReader-Enhanced.js:709-749 | Outside write mode, nothing changes. In write mode, the answer becomes `ToneKeystroke` of the old answer, with the tone table as written. |
| `EnhancedReader.Reader.SetNewCharacterPinyin` | src/TextReader-Enhanced.js:5483 | The add-character pinyin field takes the typed text. |
| `EnhancedReader.Reader.HandleAddCharacterPinyinInput` | src/TextReader-Enhanced.js:774-810 | The add-character pinyin becomes `ToneKeystroke` of its old value, with the tone table as written, in every mode. |
| `BasicReader.Dictionary` | src/TextReader.js:6-73 | The basic reader's table: the same eleven glyphs, each with its pinyin and meaning. |
| `CharSets.IsSearchQuery` | src/TextReader.js:123 | The search test: exactly one character, in the range 一 to 龯. |
| `BasicReader.InitialMarkupIsStale` | src/TextReader.js:79-80 | The initial empty markup differs from the markup of the initial sample text. |
| `BasicReader.SearchAcceptsGlyphOutsideTable` | src/TextReader.js:122-129 | The search accepts 龙, which has no table entry. |
| `BasicReader.Reader.constructor` | src/TextReader.js:79-85 | Initial state: the sample text, empty markup, nothing selected, empty search and progress. |
| `BasicReader.Reader.HandleTextChange` | src/TextReader.js:101-105 | The text and the markup come from the same string: the markup is `Annotate` of the new text. |
| `BasicReader.Reader.HandleCharClick` | src/TextReader.js:108-111 | A click on any element with the `highlighted-char` class selects that element's `data-char` value (nothing, when the attribute is absent). A click on any other element changes nothing. |
| `BasicReader.SpanTarget` | src/TextReader.js:92 | The element made from an emitted span has the `highlighted-char` class and the glyph as its `data-char`. |
| `BasicReader.AnnotatorSpanCarriesKey` | src/TextReader.js:90-93 | Every span the annotator emits for a text carries a table key. The table-key guarantee covers only these spans. A typed element of the highlight class can carry any value, a table key included. |
| `BasicReader.MarkupSpansCarryKeys` | src/TextReader.js:88-105 | In a session whose markup was built by `handleTextChange` (or is the initial empty markup), the markup is the rendering of the annotator's tokens for the text it came from, and every highlight span among those tokens carries a table key. |
| `BasicReader.InjectedSpanIsKept` | src/TextReader.js:94 | The typed text `<i class="highlighted-char" data-char="xyz">x</i>` holds no table glyph, so the annotator copies it into the markup unchanged. The markup is rendered as raw HTML (line 200). |
| `BasicReader.Reader.SelectFromList` | src/TextReader.js:214 | A click in the glyph list selects that glyph, which is a table key. |
| `BasicReader.Reader.CloseDetails` | src/TextReader.js:238-242 | The selection is cleared. |
| `BasicReader.Reader.SetSearchChar` | src/TextReader.js:171 | The search field takes the typed query. |
| `BasicReader.Reader.HandleSearch` | src/TextReader.js:122-129 | A single character in U+4E00 to U+9FAF is selected, and its table entry (if any) becomes the search result. Any other query clears the result and keeps the selection. |
| `BasicReader.Reader.HandleSearchClear` | src/TextReader.js:132-135 | The query and the result are cleared. |
| `BasicReader.Reader.ToggleCharacterProgress` | src/TextReader.js:138-143 | Progress becomes `Toggle` of the old progress. No other field changes. |
| `BasicReader.Reader.GetUniqueChars` | src/TextReader.js:146-154 | Returns the duplicate-free list of the text's table glyphs, in first-occurrence order. |

## Findings

| source | as written | input that shows it | evidently intended | confidence | as-written member | corrected member |
|---|---|---|---|---|---|---|
| src/TextReader-Enhanced.js:754-767 | Each `vowelMap` row begins with the bare vowel, so tone 1 returns the vowel unmarked, the same as tone 5 | `addToneMark('a', 1)` returns `a` | tone 1 carries the macron: `ā`, `ē`, `ī`, `ō`, `ū`, `ǖ` (and capitals) | high, not executed | `Pinyin.ToneOneAsWrittenIsUnmarked` | `Pinyin.ToneMarksDistinct` |
| src/TextReader-Enhanced.js:2190-2210 | The delete button of row `index` of the filtered vocabulary list removes position `index` of the whole book | book [学, 京], search "京": the only listed row is 京, and deleting it removes 学 | delete the record the row shows | high, not executed | `VocabBook.RemoveShownAsWrittenDeletesWrongEntry` | `VocabBook.RemoveShown` |

`Pinyin.ToneKeyOneOnMa` shows the tone finding in the handler: key 1 after
"ma" leaves "ma" as written and gives "mā" with the corrected table. The
session's tone-key handlers keep the table as written, as the source does.
The corrected table is available through the table parameter of
`Pinyin.ToneKeystroke`. The filtered-view delete of the session class
(`EnhancedReader.Reader.RemoveShownVocab`) uses the corrected removal.

## Left out

- Dictionary fields other than pinyin, meaning and level (strokes, radical, stroke count, structure, examples, sentence, category, difficulty): only display code reads them (the detail card, and the click popup's example words and sentence), and no modelled operation reads them.
- Speech synthesis, repeat playback and its timers: browser APIs and `setTimeout`.
- Long-press timers, click-outside listeners, hover and context popups, and `getBoundingClientRect` positions: event plumbing.
- `BasicReader.Reader.HandleCharClick`: HTML parsing of the markup is not modelled. The clicked element is given by its class list and `data-char` attribute. Which elements the markup holds is not derived, and user text can inject elements of the highlight class (`BasicReader.InjectedSpanIsKept`).
- File open and save (FileReader, Blob, mammoth, XLSX) and JSON export. Only their effect on the text is kept (`EnhancedReader.Reader.LoadText`).
- The mocked login, the per-role version switch, and the per-role copy of the vocabulary book in `versionData`. The model keeps the current role's book only.
- Percentages computed with floating-point division and `Math.round`. The integer counts are modelled.
- `Math.random` in `generateQuestion`: the draw is a caller-supplied number `pick`, reduced modulo the number of glyphs.
- `new Date().toLocaleString()` in `submitAnswer`: the timestamp is a caller-supplied string `now`.
- `toLowerCase` in the vocabulary search: Unicode case folding is the caller-supplied function `fold`.
- The cursor placement after a tone mark (`setTimeout` on `selectionStart`): a DOM effect.
- `Pinyin.ToneKeystroke`: it models only the keydown handler. When no vowel precedes the cursor, the digit is not swallowed and reaches the box through its change handler (`EnhancedReader.Reader.SetUserAnswer`, `EnhancedReader.Reader.SetNewCharacterPinyin`). Likewise when the key is not a tone digit, and when a tone digit is typed over a non-empty selection: the handler then does nothing, and the digit replaces the selection through the change handler.
- Strings are sequences of Unicode code points. The pinyin handlers index JavaScript strings by UTF-16 code unit, which differs only for characters outside the Basic Multilingual Plane.
- `EnhancedReader.Reader.HandlePinyinInput`, `EnhancedReader.Reader.HandleAddCharacterPinyinInput`: the caret position is required to lie within the text, which the browser guarantees.
- JSX, theming, font size, view switching (`activeView`) and all styling.
