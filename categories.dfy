/** The fixed list of twelve category labels, in menu order. */
module Categories {

  /**
   * education, technology, news, sports, entertainment, books, earning,
   * games, cooking, health, travel, design.
   */
  const Labels: seq<string> := [
    "تعليم", "تقنية", "أخبار", "رياضة", "ترفيه", "كتب",
    "ربح", "ألعاب", "طبخ", "صحة", "سفر", "تصميم"
  ]

  predicate IsCategory(s: string) {
    s in Labels
  }

  /** The labels are written in Arabic script: none holds a Latin letter, an underscore, '/' or '|'. */
  lemma LabelsAreArabic(i: nat)
    requires i < |Labels|
    ensures forall c :: c in Labels[i] ==> 0x0600 <= c as int <= 0x06FF
  {
  }
}
