/**
  Study progress: an object from glyph to boolean. A toggle copies the
  object and stores the negation of the glyph's old value under its key. A
  glyph without a key reads as undefined, which is falsy, so its first toggle
  stores true. The "mastered" figure shown beside it counts the keys whose
  value is true.
*/
module Progress {

  /** The truthiness of `progress[c]`: an absent key counts as false. */
  predicate IsMastered(progress: map<char, bool>, c: char)
  {
    c in progress && progress[c]
  }

  function MasteredSet(progress: map<char, bool>): set<char>
  {
    set k | k in progress && progress[k]
  }

  /** The "mastered" figure: the number of keys whose value is true. */
  function MasteredCount(progress: map<char, bool>): (r: nat)
    ensures r <= |progress|
    ensures r == 0 <==> forall c :: !IsMastered(progress, c)
  {
    SubsetSize(MasteredSet(progress), progress.Keys);
    if MasteredSet(progress) != {} then
      var c :| c in MasteredSet(progress);
      assert IsMastered(progress, c);
      assert |MasteredSet(progress)| == |MasteredSet(progress) - {c}| + 1;
      |MasteredSet(progress)|
    else
      assert forall c | IsMastered(progress, c) :: c in MasteredSet(progress);
      |MasteredSet(progress)|
  }

  lemma {:induction false} SubsetSize<T>(a: set<T>, b: set<T>)
    requires a <= b
    ensures |a| <= |b|
  {
    if a != {} {
      var x :| x in a;
      SubsetSize(a - {x}, b - {x});
    }
  }

  /** The update of `toggleCharacterProgress(c)`. */
  function Toggle(progress: map<char, bool>, c: char): (r: map<char, bool>)
    ensures r.Keys == progress.Keys + {c}
    ensures IsMastered(r, c) == !IsMastered(progress, c)
    ensures forall d | d in progress && d != c :: r[d] == progress[d]
  {
    progress[c := !IsMastered(progress, c)]
  }

  /** A toggle adds `c` to the mastered glyphs or takes it out, and touches no other glyph. */
  lemma ToggleMasteredSet(progress: map<char, bool>, c: char)
    ensures MasteredSet(Toggle(progress, c)) ==
            if IsMastered(progress, c) then MasteredSet(progress) - {c} else MasteredSet(progress) + {c}
  {
  }

  /** The mastered count moves by exactly one on every toggle. */
  lemma ToggleMasteredCount(progress: map<char, bool>, c: char)
    ensures MasteredCount(Toggle(progress, c)) ==
            if IsMastered(progress, c) then MasteredCount(progress) - 1 else MasteredCount(progress) + 1
  {
    ToggleMasteredSet(progress, c);
  }

  /**
    Two toggles restore the truthiness of every glyph and the mastered count.
    The map itself need not come back: an absent key returns as `false`.
  */
  lemma ToggleTwice(progress: map<char, bool>, c: char)
    ensures forall d :: IsMastered(Toggle(Toggle(progress, c), c), d) == IsMastered(progress, d)
    ensures MasteredSet(Toggle(Toggle(progress, c), c)) == MasteredSet(progress)
    ensures MasteredCount(Toggle(Toggle(progress, c), c)) == MasteredCount(progress)
    ensures c !in progress ==> Toggle(Toggle(progress, c), c) == progress[c := false]
  {
    ToggleMasteredSet(progress, c);
    ToggleMasteredSet(Toggle(progress, c), c);
  }
}
