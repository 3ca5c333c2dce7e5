/**
  The practice loop of the enhanced reader: a question is a glyph drawn from
  the dictionary glyphs of the text, an answer is correct when it is exactly
  that glyph, and the history keeps the ten newest records, newest first.
*/
module Practice {
  import opened Wrappers

  datatype Mode = Quiz | Write | Listen

  datatype Question = Question(glyph: char, mode: Mode)

  datatype PracticeRecord = PracticeRecord(glyph: char, userAnswer: string, isCorrect: bool, timestamp: string)

  /** The history keeps at most this many records. */
  const HistoryLimit: nat := 10

  /** In every mode the answer is judged by strict equality with the question's glyph. */
  function IsCorrect(answer: string, q: Question): (r: bool)
    ensures r <==> |answer| == 1 && answer[0] == q.glyph
  {
    answer == [q.glyph]
  }

  /** The new record goes in front of the nine newest old records. */
  function PushRecord(history: seq<PracticeRecord>, rec: PracticeRecord): (r: seq<PracticeRecord>)
    // the ten newest records, newest first
    ensures r == ([rec] + history)[..if |history| + 1 < HistoryLimit then |history| + 1 else HistoryLimit]
    ensures |r| <= HistoryLimit
  {
    [rec] + history[..if |history| < 9 then |history| else 9]
  }

  /** The number of correct records. */
  function CorrectCount(history: seq<PracticeRecord>): nat
  {
    if history == [] then 0 else (if history[0].isCorrect then 1 else 0) + CorrectCount(history[1..])
  }

  lemma {:induction false} CorrectCountOfPrefix(history: seq<PracticeRecord>, n: nat)
    requires n <= |history|
    ensures CorrectCount(history[..n]) <= CorrectCount(history)
  {
    if n > 0 {
      assert history[..n][1..] == history[1..][..n - 1];
      CorrectCountOfPrefix(history[1..], n - 1);
    }
  }

  /** Pushing a record adds at most its own correctness to the correct count, since older records may drop off. */
  lemma PushRecordCorrectCount(history: seq<PracticeRecord>, rec: PracticeRecord)
    ensures CorrectCount(PushRecord(history, rec)) <= CorrectCount(history) + (if rec.isCorrect then 1 else 0)
  {
    var kept := history[..if |history| < 9 then |history| else 9];
    assert PushRecord(history, rec)[1..] == kept;
    CorrectCountOfPrefix(history, |kept|);
  }

  /** A question on a glyph drawn from `chars`, with the random draw supplied as `pick`; none when `chars` is empty. */
  function PickQuestion(chars: seq<char>, mode: Mode, pick: nat): (r: Option<Question>)
    ensures r.None? <==> chars == []
    ensures r.Some? ==> r.value.glyph in chars && r.value.mode == mode
  {
    if chars == [] then None else Some(Question(chars[pick % |chars|], mode))
  }

  /** Every glyph on offer can be drawn. */
  lemma EveryGlyphCanBeDrawn(chars: seq<char>, mode: Mode, k: nat)
    requires k < |chars|
    ensures PickQuestion(chars, mode, k) == Some(Question(chars[k], mode))
  {
  }
}
