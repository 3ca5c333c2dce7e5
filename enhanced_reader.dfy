/**
  The session state of the enhanced reader component: the text and its
  markup, study progress, the vocabulary book, the practice loop and the two
  pinyin boxes with tone-mark entry. Each handler is a method that changes
  only the fields the component's handler sets.
*/
module EnhancedReader {
  import opened Wrappers
  import opened EnhancedDictionary
  import opened Annotation
  import opened CharSets
  import opened Progress
  import opened VocabBook
  import opened Practice
  import opened Pinyin

  /** The text the reader starts with. */
  const SampleText: string := "我学京剧。京剧很好看。我跟老师学唱戏。"

  /** The glyphs of `chars` whose table level is `level`, in the order of `chars`. */
  function Bucket(chars: seq<char>, level: nat): (r: seq<char>)
    requires forall c | c in chars :: c in Dictionary
    ensures forall c :: c in r <==> c in chars && Dictionary[c].level == level
  {
    if chars == [] then []
    else
      var b := Bucket(chars[..|chars| - 1], level);
      var c := chars[|chars| - 1];
      assert forall d | d in chars :: d in chars[..|chars| - 1] || d == c;
      if Dictionary[c].level == level then b + [c] else b
  }

  /** Every glyph lands in one of the three buckets, so their sizes add up to the number of glyphs. */
  lemma {:induction false} BucketSizes(chars: seq<char>)
    requires forall c | c in chars :: c in Dictionary
    ensures |Bucket(chars, 1)| + |Bucket(chars, 2)| + |Bucket(chars, 3)| == |chars|
  {
    if chars != [] {
      var c := chars[|chars| - 1];
      BucketSizes(chars[..|chars| - 1]);
      LevelsInRange();
      assert 1 <= Dictionary[c].level <= 3;
    }
  }

  /** In write mode the answer box takes pinyin, yet no table pinyin is ever accepted as correct. */
  lemma WriteModeRejectsPinyin(c: char)
    requires c in Dictionary
    ensures !IsCorrect(Dictionary[c].pinyin, Question(c, Write))
  {
    PinyinLongerThanOneChar();
  }

  class Reader {
    var inputText: string
    var highlightedText: string
    var studyProgress: map<char, bool>
    var vocabBook: seq<VocabEntry>
    var vocabSearch: string
    var practiceMode: Mode
    var currentQuestion: Option<Question>
    var userAnswer: string
    var score: nat
    var practiceHistory: seq<PracticeRecord>
    var newCharacterPinyin: string
    /** `toLowerCase`, used by the vocabulary search and not modelled. */
    const fold: string -> string

    ghost predicate Valid()
      reads this
    {
      && WellFormed(vocabBook)
      && |practiceHistory| <= HistoryLimit
      && CorrectCount(practiceHistory) <= score
      && (currentQuestion.Some? ==> currentQuestion.value.glyph in Dictionary)
    }

    /** The initial state, including the mount effect that annotates the sample text. */
    constructor (fold: string -> string)
      ensures Valid()
      ensures inputText == SampleText && highlightedText == Annotate(Dictionary.Keys, SampleText, true)
      ensures studyProgress == map[] && vocabBook == [] && vocabSearch == ""
      ensures practiceMode == Quiz && currentQuestion == None && userAnswer == ""
      ensures score == 0 && practiceHistory == [] && newCharacterPinyin == ""
      ensures this.fold == fold
    {
      var markup := HighlightCharacters(Dictionary.Keys, SampleText, true);
      inputText := SampleText;
      highlightedText := markup;
      studyProgress := map[];
      vocabBook := [];
      vocabSearch := "";
      practiceMode := Quiz;
      currentQuestion := None;
      userAnswer := "";
      score := 0;
      practiceHistory := [];
      newCharacterPinyin := "";
      this.fold := fold;
    }

    /** `handleTextChange`: the new text and its markup come from the same string. */
    method HandleTextChange(text: string)
      modifies this`inputText, this`highlightedText
      ensures inputText == text && highlightedText == Annotate(Dictionary.Keys, inputText, true)
    {
      inputText := text;
      highlightedText := HighlightCharacters(Dictionary.Keys, text, true);
    }

    /** The clear button: only the text is emptied, the markup is left as it was. */
    method ClearText()
      modifies this`inputText
      ensures inputText == ""
    {
      inputText := "";
    }

    /** A loaded file's text replaces the input without re-annotating it. */
    method LoadText(text: string)
      modifies this`inputText
      ensures inputText == text
    {
      inputText := text;
    }

    /** `getUniqueChars` */
    method GetUniqueChars() returns (chars: seq<char>)
      ensures chars == UniqueChars(Dictionary.Keys, inputText)
      ensures NoDuplicates(chars)
      ensures forall c :: c in chars <==> c in Dictionary && c in inputText
    {
      chars := CollectUniqueChars(Dictionary.Keys, inputText);
    }

    /** `getCharsByLevel`: the unique glyphs pushed one by one into the bucket of their level. */
    method GetCharsByLevel() returns (level1: seq<char>, level2: seq<char>, level3: seq<char>)
      ensures forall c :: c in level1 <==> c in Dictionary && c in inputText && Dictionary[c].level == 1
      ensures forall c :: c in level2 <==> c in Dictionary && c in inputText && Dictionary[c].level == 2
      ensures forall c :: c in level3 <==> c in Dictionary && c in inputText && Dictionary[c].level == 3
      ensures |level1| + |level2| + |level3| == |UniqueChars(Dictionary.Keys, inputText)|
    {
      var unique := GetUniqueChars();
      level1, level2, level3 := [], [], [];
      for i := 0 to |unique|
        invariant level1 == Bucket(unique[..i], 1)
        invariant level2 == Bucket(unique[..i], 2)
        invariant level3 == Bucket(unique[..i], 3)
      {
        var c := unique[i];
        assert unique[..i + 1][..i] == unique[..i];
        LevelsInRange();
        if Dictionary[c].level == 1 {
          level1 := level1 + [c];
        } else if Dictionary[c].level == 2 {
          level2 := level2 + [c];
        } else {
          level3 := level3 + [c];
        }
      }
      assert unique[..|unique|] == unique;
      BucketSizes(unique);
    }

    /** `toggleCharacterProgress(c)` */
    method ToggleCharacterProgress(c: char)
      modifies this`studyProgress
      ensures studyProgress == Toggle(old(studyProgress), c)
    {
      studyProgress := studyProgress[c := !(c in studyProgress && studyProgress[c])];
    }

    /** `addCharToVocab(c)` */
    method AddCharToVocab(c: char)
      requires Valid()
      modifies this`vocabBook
      ensures Valid()
      ensures vocabBook == AddToVocab(old(vocabBook), c)
    {
      vocabBook := AddToVocab(vocabBook, c);
    }

    /** The delete button of the unfiltered vocabulary list, row `index`. */
    method RemoveVocabAt(index: nat)
      requires Valid()
      modifies this`vocabBook
      ensures Valid()
      ensures vocabBook == RemoveAt(old(vocabBook), index)
    {
      if index < |vocabBook| {
        RemoveAtWellFormed(vocabBook, index);
      }
      vocabBook := RemoveAt(vocabBook, index);
    }

    method SetVocabSearch(query: string)
      modifies this`vocabSearch
      ensures vocabSearch == query
    {
      vocabSearch := query;
    }

    /** The delete button of row `row` of the filtered vocabulary view (corrected: it removes the row shown). */
    method RemoveShownVocab(row: nat)
      requires Valid()
      requires row < |FilterVocab(vocabBook, vocabSearch, fold)|
      modifies this`vocabBook
      ensures Valid()
      ensures vocabBook == RemoveShown(old(vocabBook), vocabSearch, fold, row)
    {
      vocabBook := RemoveShown(vocabBook, vocabSearch, fold, row);
    }

    /** `generateQuestion(mode)`, with the random draw supplied as `pick`. */
    method GenerateQuestion(mode: Mode, pick: nat)
      requires Valid()
      modifies this`currentQuestion, this`userAnswer
      ensures Valid()
      ensures var q := PickQuestion(UniqueChars(Dictionary.Keys, inputText), mode, pick);
              if q.None? then currentQuestion == old(currentQuestion) && userAnswer == old(userAnswer)
              else currentQuestion == q && userAnswer == ""
    {
      var chars := GetUniqueChars();
      if |chars| == 0 {
        return;
      }
      var randomChar := chars[pick % |chars|];
      currentQuestion := Some(Question(randomChar, mode));
      userAnswer := "";
    }

    /** `startPractice(mode)` */
    method StartPractice(mode: Mode, pick: nat)
      requires Valid()
      modifies this`practiceMode, this`score, this`practiceHistory, this`currentQuestion, this`userAnswer
      ensures Valid()
      ensures practiceMode == mode && score == 0 && practiceHistory == []
      ensures var q := PickQuestion(UniqueChars(Dictionary.Keys, inputText), mode, pick);
              if q.None? then currentQuestion == old(currentQuestion) && userAnswer == old(userAnswer)
              else currentQuestion == q && userAnswer == ""
    {
      practiceMode := mode;
      score := 0;
      practiceHistory := [];
      GenerateQuestion(mode, pick);
    }

    /** Typing in the answer box or clicking an option. */
    method SetUserAnswer(answer: string)
      modifies this`userAnswer
      ensures userAnswer == answer
    {
      userAnswer := answer;
    }

    /** `submitAnswer`, with the clock reading supplied as `now` and the next draw as `pick`. */
    method SubmitAnswer(pick: nat, now: string)
      requires Valid()
      modifies this`score, this`practiceHistory, this`currentQuestion, this`userAnswer
      ensures Valid()
      ensures old(currentQuestion).None? ==>
                && score == old(score) && practiceHistory == old(practiceHistory)
                && currentQuestion == old(currentQuestion) && userAnswer == old(userAnswer)
      ensures old(currentQuestion).Some? ==>
                var q := old(currentQuestion).value;
                var correct := IsCorrect(old(userAnswer), q);
                && score == old(score) + (if correct then 1 else 0)
                && practiceHistory == PushRecord(old(practiceHistory), PracticeRecord(q.glyph, old(userAnswer), correct, now))
                && var next := PickQuestion(UniqueChars(Dictionary.Keys, inputText), practiceMode, pick);
                   if next.None? then currentQuestion == old(currentQuestion) && userAnswer == old(userAnswer)
                   else currentQuestion == next && userAnswer == ""
    {
      if currentQuestion.None? {
        return;
      }
      var q := currentQuestion.value;
      var isCorrect := userAnswer == [q.glyph];
      if isCorrect {
        score := score + 1;
      }
      var newRecord := PracticeRecord(q.glyph, userAnswer, isCorrect, now);
      PushRecordCorrectCount(practiceHistory, newRecord);
      practiceHistory := [newRecord] + practiceHistory[..if |practiceHistory| < 9 then |practiceHistory| else 9];
      GenerateQuestion(practiceMode, pick);
    }

    /** `handlePinyinInput`: tone-mark entry in the answer box, active in write mode only, with the table as written. */
    method HandlePinyinInput(keyCode: int, selStart: nat, selEnd: nat)
      requires selStart <= |userAnswer|
      modifies this`userAnswer
      ensures practiceMode != Write ==> userAnswer == old(userAnswer)
      ensures practiceMode == Write ==> userAnswer == ToneKeystroke(ToneTableAsWritten, old(userAnswer), keyCode, selStart, selEnd)
    {
      if practiceMode != Write {
        return;
      }
      VowelClassIsTableDomain();
      userAnswer := ApplyToneKey(ToneTableAsWritten, userAnswer, keyCode, selStart, selEnd);
    }

    /** Typing in the pinyin box of the add-character form. */
    method SetNewCharacterPinyin(pinyin: string)
      modifies this`newCharacterPinyin
      ensures newCharacterPinyin == pinyin
    {
      newCharacterPinyin := pinyin;
    }

    /** `handleAddCharacterPinyinInput`: tone-mark entry in the add-character form, in every mode, with the table as written. */
    method HandleAddCharacterPinyinInput(keyCode: int, selStart: nat, selEnd: nat)
      requires selStart <= |newCharacterPinyin|
      modifies this`newCharacterPinyin
      ensures newCharacterPinyin == ToneKeystroke(ToneTableAsWritten, old(newCharacterPinyin), keyCode, selStart, selEnd)
    {
      VowelClassIsTableDomain();
      newCharacterPinyin := ApplyToneKey(ToneTableAsWritten, newCharacterPinyin, keyCode, selStart, selEnd);
    }
  }
}
