/**
  The character table of the enhanced reader. Only the fields the modelled
  operations read are kept: the pinyin and meaning copied into the vocabulary
  book, and the level used to bucket the glyphs of a text.
*/
module EnhancedDictionary {

  datatype Entry = Entry(pinyin: string, meaning: string, level: nat)

  const Dictionary: map<char, Entry> := map[
    '学' := Entry("xué", "1. 学习，模仿 2. 学问，知识 3. 学校", 1),
    '京' := Entry("jīng", "1. 国都，首都 2. 大 3. 古代数目名", 1),
    '剧' := Entry("jù", "1. 戏剧，文艺的一种形式 2. 夸大，猛烈", 2),
    '很' := Entry("hěn", "1. 表示程度深 2. 非常，十分", 1),
    '好' := Entry("hǎo", "1. 优点多，使人满意 2. 友爱，和睦 3. 易，便于", 1),
    '看' := Entry("kàn", "1. 使视线接触到人或物 2. 观察，判断 3. 认为，以为", 2),
    '跟' := Entry("gēn", "1. 脚的后部 2. 在后面紧接着向同一方向行动 3. 和，同", 2),
    '老' := Entry("lǎo", "1. 年纪大，时间长 2. 陈旧 3. 原来的", 1),
    '师' := Entry("shī", "1. 教人的人 2. 榜样 3. 擅长某种技术的人", 2),
    '唱' := Entry("chàng", "1. 发出声音，依照乐律发出声音 2. 高呼，叫", 2),
    '戏' := Entry("xì", "1. 玩耍，游戏 2. 嘲笑，开玩笑 3. 戏剧，歌舞等表演", 3)
  ]

  /** Every entry has level 1, 2 or 3, so `levels[entry.level]` always names a bucket. */
  lemma LevelsInRange()
    ensures forall c | c in Dictionary :: 1 <= Dictionary[c].level <= 3
  {
  }

  /** Every pinyin spelling is longer than one character. */
  lemma PinyinLongerThanOneChar()
    ensures forall c | c in Dictionary :: |Dictionary[c].pinyin| > 1
  {
  }
}
