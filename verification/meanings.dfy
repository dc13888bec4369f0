/**
 * The interpretation table: texts keyed by position (only "life_path" has
 * entries) and by number, with a placeholder text for every pair that has no
 * entry.
 */
module Meanings {
  import opened Reduction

  /** The text returned when the table has no entry. */
  const Placeholder: string := "この数と役割の組み合わせの意味はまだ用意されていません。"

  /** The life path interpretations, one per possible life path number. */
  const LifePathMeanings: map<int, string> := map[
    1 := "あなたの人生は『自立』と『リーダーシぶ』がテーマです。先頭に立って新しい道を切り開く運命にあります。",
    2 := "あなたの人生は『調和』と『共感』がテーマです。人との関わりを通じて、優しさと受容の力を育みます。",
    3 := "あなたの人生は『表現』と『創造性』がテーマです。楽しさを分かち合い、周囲に喜びを届ける存在です。",
    4 := "あなたの人生は『安定』と『継続』がテーマです。地道な努力と信頼で、着実に基盤を築いていきます。",
    5 := "あなたの人生は『自由』と『変化』がテーマです。新しい挑戦や刺激を求めて進むことで、道が開かれていくでしょう。",
    6 := "あなたの人生は『愛』と『責任』がテーマです。家族や仲間を支え、安心と調和を広げていきます。",
    7 := "あなたの人生は『探究』と『精神性』がテーマです。静けさの中で深い洞察を得て、真実を追い求めます。",
    8 := "あなたの人生は『達成』と『現実的な成功』がテーマです。実行力と戦略的思考で目標を現実化していきます。",
    9 := "あなたの人生は『奉仕』と『理想』がテーマです。広い視野で人や社会に貢献する使命があります。",
    11 := "あなたの人生は『直感』と『インスピレーション』がテーマです。高次の気づきを伝えるスピリチュアルな導き手です。",
    22 := "あなたの人生は『理想の具現化』がテーマです。大きなビジョンを現実に落とし込む使命があります。",
    33 := "あなたの人生は『無条件の愛』がテーマです。周囲に愛と癒しを届ける教師的な存在です。"
  ]

  /** The whole table, keyed by position name. */
  const MeaningTable: map<string, map<int, string>> := map["life_path" := LifePathMeanings]

  /**
   * The interpretation of `n` in role `position`: a table entry exactly when
   * the role is the life path and `n` is one of 1..9, 11, 22, 33; the
   * placeholder in every other case.
   */
  function GetNumberMeaning(position: string, n: int): (text: string)
    ensures text != Placeholder <==> position == "life_path" && IsReducedValue(n)
    ensures text != Placeholder ==> text in LifePathMeanings.Values
  {
    LifePathKeys();
    if position in MeaningTable && n in MeaningTable[position] then MeaningTable[position][n]
    else Placeholder
  }

  /** A life path number in the table gets its own entry. */
  lemma LifePathMeaningOf(n: int)
    requires IsReducedValue(n)
    ensures GetNumberMeaning("life_path", n) == LifePathMeanings[n]
  {
    LifePathKeys();
  }

  /** The life path table covers exactly the reduced values, none with the placeholder. */
  lemma LifePathKeys()
    ensures forall n :: n in LifePathMeanings <==> IsReducedValue(n)
    ensures forall n :: n in LifePathMeanings ==> LifePathMeanings[n] != Placeholder
  {
  }

  /** Different life path numbers have different interpretations. */
  lemma LifePathMeaningsDistinct(a: int, b: int)
    requires IsReducedValue(a) && IsReducedValue(b) && a != b
    ensures GetNumberMeaning("life_path", a) != GetNumberMeaning("life_path", b)
  {
  }
}
