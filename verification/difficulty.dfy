/**
 * The difficulty badge of a saved roadmap (DifficultyBadge in Sidebar.tsx):
 * a level string, compared without regard to case, picks one of four colour
 * pairs; the badge shows the level itself or 'N/A'.
 */
module Difficulty {
  import opened Wrappers
  import opened Text

  datatype Badge = Badge(caption: string, colour: string, background: string)

  /** The four colour classes. */
  datatype Class = Beginner | Intermediate | Advanced | Other

  const DefaultColour: string := "#a1a1aa"
  const DefaultBackground: string := "rgba(255,255,255,0.05)"

  function ColourOf(k: Class): (string, string) {
    match k
    case Beginner => ("#4ade80", "rgba(74, 222, 128, 0.1)")
    case Intermediate => ("#fbbf24", "rgba(251, 191, 36, 0.1)")
    case Advanced => ("#f87171", "rgba(248, 113, 113, 0.1)")
    case Other => (DefaultColour, DefaultBackground)
  }

  /** `level || ''`: a missing level and the empty string both read as empty. */
  function OrEmpty(level: Option<string>): string {
    match level
    case Some(s) => s
    case None => ""
  }

  /**
   * `(level || '').toLowerCase()`: same length, letter for letter the same up
   * to case, no capital left, and lower-casing again changes nothing.
   */
  function Normalise(level: Option<string>): (r: string)
    ensures |r| == |OrEmpty(level)|
    ensures forall i :: 0 <= i < |r| ==> r[i] == LowerChar(OrEmpty(level)[i])
    ensures forall i :: 0 <= i < |r| ==> !('A' <= r[i] <= 'Z')
    ensures ToLower(r) == r
  {
    var r := ToLower(OrEmpty(level));
    ToLowerIdempotent(OrEmpty(level));
    r
  }

  /** The badge: colours picked by the lower-cased level, and the level itself or 'N/A' as caption. */
  function Classify(level: Option<string>): (b: Badge)
    ensures b.caption == (if OrEmpty(level) == "" then "N/A" else OrEmpty(level))
    ensures Normalise(level) == "beginner" ==> (b.colour, b.background) == ColourOf(Beginner)
    ensures Normalise(level) == "intermediate" ==> (b.colour, b.background) == ColourOf(Intermediate)
    ensures Normalise(level) == "advanced" ==> (b.colour, b.background) == ColourOf(Advanced)
    ensures Normalise(level) !in {"beginner", "intermediate", "advanced"} ==>
              b.colour == DefaultColour && b.background == DefaultBackground
  {
    var lower := Normalise(level);
    var colour := if lower == "beginner" then "#4ade80"
      else if lower == "intermediate" then "#fbbf24"
      else if lower == "advanced" then "#f87171"
      else DefaultColour;
    var bg := if lower == "beginner" then "rgba(74, 222, 128, 0.1)"
      else if lower == "intermediate" then "rgba(251, 191, 36, 0.1)"
      else if lower == "advanced" then "rgba(248, 113, 113, 0.1)"
      else DefaultBackground;
    Badge(if OrEmpty(level) == "" then "N/A" else OrEmpty(level), colour, bg)
  }

  // ------------------------------------------------------------------ an independent reading

  /** s spells `word` (a lower-case word) in any mix of ASCII case. */
  predicate SpellsIgnoringCase(s: string, word: string) {
    |s| == |word| && forall i :: 0 <= i < |s| ==> LowerChar(s[i]) == word[i]
  }

  /** The class a level names, read letter by letter. */
  function ClassOf(s: string): Class {
    if SpellsIgnoringCase(s, "beginner") then Beginner
    else if SpellsIgnoringCase(s, "intermediate") then Intermediate
    else if SpellsIgnoringCase(s, "advanced") then Advanced
    else Other
  }

  lemma SpellsMeansNormalises(s: string, word: string)
    ensures SpellsIgnoringCase(s, word) <==> ToLower(s) == word
  {
    if ToLower(s) == word {
      assert |s| == |word|;
      forall i | 0 <= i < |s| ensures LowerChar(s[i]) == word[i] {
        assert ToLower(s)[i] == LowerChar(s[i]);
      }
    }
  }

  /** The badge's colours are those of the class the level names, whatever its case. */
  lemma ClassifyMatchesClass(level: Option<string>)
    ensures (Classify(level).colour, Classify(level).background) == ColourOf(ClassOf(OrEmpty(level)))
  {
    var s := OrEmpty(level);
    SpellsMeansNormalises(s, "beginner");
    SpellsMeansNormalises(s, "intermediate");
    SpellsMeansNormalises(s, "advanced");
  }

  /** Two spellings that differ only in case get the same colours. */
  lemma CaseInsensitive(a: string, b: string)
    requires ToLower(a) == ToLower(b)
    ensures Classify(Some(a)).colour == Classify(Some(b)).colour
    ensures Classify(Some(a)).background == Classify(Some(b)).background
  {
    assert Normalise(Some(a)) == Normalise(Some(b));
  }

  /** Each difficulty the search form offers is shown in its own, non-default colour. */
  lemma FormLevelsColoured()
    ensures Classify(Some("Beginner")).colour == "#4ade80" != DefaultColour
    ensures Classify(Some("Intermediate")).colour == "#fbbf24" != DefaultColour
    ensures Classify(Some("Advanced")).colour == "#f87171" != DefaultColour
  {
    assert SpellsIgnoringCase("Beginner", "beginner");
    SpellsMeansNormalises("Beginner", "beginner");
    assert SpellsIgnoringCase("Intermediate", "intermediate");
    SpellsMeansNormalises("Intermediate", "intermediate");
    assert SpellsIgnoringCase("Advanced", "advanced");
    SpellsMeansNormalises("Advanced", "advanced");
  }

  /** A missing or empty level shows 'N/A' in the default colours. */
  lemma MissingLevel()
    ensures Classify(None) == Badge("N/A", DefaultColour, DefaultBackground)
    ensures Classify(Some("")) == Badge("N/A", DefaultColour, DefaultBackground)
  {
  }
}
