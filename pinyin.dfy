/**
  Tone-mark entry for pinyin: pressing a digit key 1 to 5 with an empty
  selection replaces the nearest vowel before the cursor by that vowel
  carrying the tone mark.
*/
module Pinyin {
  import opened Wrappers

  /** The vowel character class of the keystroke handlers: a, e, i, o, u, v and ü in either case. */
  predicate IsVowel(c: char)
  {
    c in {'a', 'e', 'i', 'o', 'u', 'v', 'ü', 'A', 'E', 'I', 'O', 'U', 'V', 'Ü'}
  }

  /** The five forms of each vowel (tones 1 to 4, then the neutral tone) as `vowelMap` lists them. */
  const ToneTableAsWritten: map<char, string> := map[
    'a' := "aáǎàa", 'e' := "eéěèe", 'i' := "iíǐìi", 'o' := "oóǒòo", 'u' := "uúǔùu",
    'v' := "üǘǚǜü", 'ü' := "üǘǚǜü",
    'A' := "AÁǍÀA", 'E' := "EÉĚÈE", 'I' := "IÍǏÌI", 'O' := "OÓǑÒO", 'U' := "UÚǓÙU",
    'V' := "ÜǗǙǛÜ", 'Ü' := "ÜǗǙǛÜ"
  ]

  /** The same table with the first-tone macron each vowel evidently should carry. */
  const ToneTable: map<char, string> := map[
    'a' := "āáǎàa", 'e' := "ēéěèe", 'i' := "īíǐìi", 'o' := "ōóǒòo", 'u' := "ūúǔùu",
    'v' := "ǖǘǚǜü", 'ü' := "ǖǘǚǜü",
    'A' := "ĀÁǍÀA", 'E' := "ĒÉĚÈE", 'I' := "ĪÍǏÌI", 'O' := "ŌÓǑÒO", 'U' := "ŪÚǓÙU",
    'V' := "ǕǗǙǛÜ", 'Ü' := "ǕǗǙǛÜ"
  ]

  /** The bare vowel a key stands for: `v` is typed for `ü`. */
  function Unmarked(v: char): char
  {
    if v == 'v' then 'ü' else if v == 'V' then 'Ü' else v
  }

  /** A tone table: one row for each character of the vowel class, five forms per row. */
  predicate IsToneTable(table: map<char, string>)
  {
    && (forall c :: IsVowel(c) <==> c in table)
    && (forall c | c in table :: |table[c]| == 5)
  }

  /** Both tables have exactly the vowel class as keys, and every row has five forms. */
  lemma VowelClassIsTableDomain()
    ensures IsToneTable(ToneTableAsWritten) && IsToneTable(ToneTable)
  {
  }

  /** `addToneMark` over a given tone table: form `tone` of the vowel's row, or the character itself when it has no row. */
  function AddToneMarkWith(table: map<char, string>, v: char, tone: nat): (r: char)
    requires IsToneTable(table) && 1 <= tone <= 5
    ensures !IsVowel(v) ==> r == v
    ensures IsVowel(v) ==> r in table[v]
  {
    if v in table then table[v][tone - 1] else v
  }

  /** `addToneMark` as written. */
  function AddToneMarkAsWritten(v: char, tone: nat): (r: char)
    requires 1 <= tone <= 5
    ensures !IsVowel(v) ==> r == v
    ensures IsVowel(v) && tone == 5 ==> r == Unmarked(v)
  {
    AddToneMarkWith(ToneTableAsWritten, v, tone)
  }

  /** As written, tone 1 leaves the vowel bare, so it cannot be told from the neutral tone 5. */
  lemma ToneOneAsWrittenIsUnmarked(v: char)
    requires IsVowel(v)
    ensures AddToneMarkAsWritten(v, 1) == Unmarked(v) == AddToneMarkAsWritten(v, 5)
  {
  }

  /** `addToneMark` with the corrected table. */
  function AddToneMark(v: char, tone: nat): (r: char)
    requires 1 <= tone <= 5
    ensures !IsVowel(v) ==> r == v
    ensures IsVowel(v) && tone == 5 ==> r == Unmarked(v)
    // a marked vowel is no longer matched by the vowel class
    ensures IsVowel(v) && tone < 5 ==> !IsVowel(r)
  {
    AddToneMarkWith(ToneTable, v, tone)
  }

  /** With the corrected table the five tones of a vowel give five different characters. */
  lemma ToneMarksDistinct(v: char, t1: nat, t2: nat)
    requires IsVowel(v) && 1 <= t1 <= 5 && 1 <= t2 <= 5 && t1 != t2
    ensures AddToneMark(v, t1) != AddToneMark(v, t2)
  {
  }

  /** The nearest vowel strictly before `cursor`, if any. */
  function LastVowelBefore(text: string, cursor: nat): (r: Option<nat>)
    requires cursor <= |text|
    ensures r.Some? ==> r.value < cursor && IsVowel(text[r.value])
    ensures r.Some? ==> forall j | r.value < j < cursor :: !IsVowel(text[j])
    ensures r.None? <==> forall j | 0 <= j < cursor :: !IsVowel(text[j])
  {
    if cursor == 0 then None
    else if IsVowel(text[cursor - 1]) then Some(cursor - 1)
    else LastVowelBefore(text, cursor - 1)
  }

  /** Key codes of the digit keys 1 and 5. */
  const KeyDigitOne: int := 49
  const KeyDigitFive: int := 53

  /** Whether a keystroke asks for a tone mark: a digit key 1 to 5 with nothing selected. */
  predicate IsToneKeystroke(keyCode: int, selStart: nat, selEnd: nat)
  {
    KeyDigitOne <= keyCode <= KeyDigitFive && selStart == selEnd
  }

  /** The text after a keystroke in a pinyin box whose tone marks come from `table`. */
  function ToneKeystroke(table: map<char, string>, text: string, keyCode: int, selStart: nat, selEnd: nat): (r: string)
    requires IsToneTable(table) && selStart <= |text|
    ensures |r| == |text|
    // only the nearest vowel before the cursor may change, and it takes the requested tone
    ensures forall j | 0 <= j < |text| && (LastVowelBefore(text, selStart).None? || j != LastVowelBefore(text, selStart).value) ::
              r[j] == text[j]
    ensures IsToneKeystroke(keyCode, selStart, selEnd) && LastVowelBefore(text, selStart).Some? ==>
              var j := LastVowelBefore(text, selStart).value;
              r[j] == AddToneMarkWith(table, text[j], keyCode - KeyDigitOne + 1)
    // no tone keystroke, or no vowel before the cursor: nothing changes
    ensures !IsToneKeystroke(keyCode, selStart, selEnd) || LastVowelBefore(text, selStart).None? ==> r == text
  {
    if IsToneKeystroke(keyCode, selStart, selEnd) && LastVowelBefore(text, selStart).Some? then
      var j := LastVowelBefore(text, selStart).value;
      text[j := AddToneMarkWith(table, text[j], keyCode - KeyDigitOne + 1)]
    else text
  }

  /**
    The tone-insertion step shared by `handlePinyinInput` and
    `handleAddCharacterPinyinInput`: scan back from the cursor for a vowel,
    then splice in its marked form.
  */
  method ApplyToneKey(table: map<char, string>, text: string, keyCode: int, selStart: nat, selEnd: nat) returns (newText: string)
    requires IsToneTable(table) && selStart <= |text|
    ensures newText == ToneKeystroke(table, text, keyCode, selStart, selEnd)
  {
    newText := text;
    if KeyDigitOne <= keyCode <= KeyDigitFive {
      var tone := keyCode - 48;
      if selStart == selEnd {
        var vowelIndex := -1;
        var i := selStart - 1;
        while i >= 0
          invariant -1 <= i < selStart
          invariant forall j | i < j < selStart :: !IsVowel(text[j])
          invariant vowelIndex == -1
        {
          if IsVowel(text[i]) {
            vowelIndex := i;
            break;
          }
          i := i - 1;
        }
        if vowelIndex != -1 {
          assert LastVowelBefore(text, selStart) == Some(vowelIndex);
          var newChar := AddToneMarkWith(table, text[vowelIndex], tone);
          newText := text[..vowelIndex] + [newChar] + text[vowelIndex + 1..];
          assert newText == text[vowelIndex := newChar];
        }
      }
    }
  }

  /**
    The handlers as written: key 1 after "ma" finds the vowel and swallows the
    digit, but the answer stays "ma". With the corrected table it becomes "mā".
  */
  lemma ToneKeyOneOnMa()
    ensures ToneKeystroke(ToneTableAsWritten, "ma", KeyDigitOne, 2, 2) == "ma"
    ensures ToneKeystroke(ToneTable, "ma", KeyDigitOne, 2, 2) == "mā"
  {
    VowelClassIsTableDomain();
    assert LastVowelBefore("ma", 2) == Some(1);
  }

  /** As written, key 1 changes nothing but a typed `v` or `V`, which becomes `ü` or `Ü`. */
  lemma ToneKeyOneAsWritten(text: string, cursor: nat)
    requires cursor <= |text|
    ensures ToneKeystroke(ToneTableAsWritten, text, KeyDigitOne, cursor, cursor) ==
            match LastVowelBefore(text, cursor)
            case None => text
            case Some(j) => text[j := Unmarked(text[j])]
  {
    VowelClassIsTableDomain();
    var j := LastVowelBefore(text, cursor);
    if j.Some? {
      ToneOneAsWrittenIsUnmarked(text[j.value]);
    }
  }
}
