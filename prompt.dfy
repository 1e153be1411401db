/**
 The two values `get_recommendation` splices into its prompt besides the
 age (recommend_music.py:19 and 22-25): the genre phrase and the
 instruction saying in which language the reasons are to be written.
 */
module PromptParts {
  import opened Wrappers
  import opened PyStr

  /** Used when the user leaves the genre blank: "the music most popular worldwide right now". */
  const DefaultGenre: string := "현재 전 세계적으로 가장 인기 있는 음악"

  /** The language choice meaning "no preference". */
  const NoLanguage: string := "선택 안 함"

  /** "Write the reasons in the most suitable language." */
  const AnyLanguageInstruction: string := "추천 이유를 가장 적절한 언어로 작성해 주세요."

  /** The template "Write the reasons in detail, necessarily in <language>": the text before the language ... */
  const InstructionHead: string := "추천 이유를 반드시 "

  /** ... and the text after it, which begins with the suffix "어" that turns a name into a language. */
  const InstructionTail: string := "어로 상세히 작성해 주세요."

  /**
   The genre phrase. A genre that `strip()` empties (empty or whitespace
   only) is replaced by the default phrase; any other genre is kept exactly,
   surrounding whitespace included.
   */
  function GenrePrompt(genre: string): (r: string)
    ensures AllWhitespace(genre) ==> r == DefaultGenre
    ensures !AllWhitespace(genre) ==> r == genre
  {
    TrimEmptyIff(genre);
    if Trim(genre) != [] then genre else DefaultGenre
  }

  lemma {:induction false} DefaultGenreNotBlank()
    ensures !AllWhitespace(DefaultGenre)
  {
    assert !IsWhitespace(DefaultGenre[0]);
  }

  /** The phrase that reaches the prompt is never blank. */
  lemma {:induction false} GenrePromptNotBlank(genre: string)
    ensures !AllWhitespace(GenrePrompt(genre))
  {
    DefaultGenreNotBlank();
  }

  /** Feeding the phrase back in changes nothing. */
  lemma {:induction false} GenrePromptIdempotent(genre: string)
    ensures GenrePrompt(GenrePrompt(genre)) == GenrePrompt(genre)
  {
    GenrePromptNotBlank(genre);
  }

  /** Two blank genres give the same phrase; a non-blank genre is never confused with another. */
  lemma {:induction false} GenrePromptSame(g1: string, g2: string)
    ensures GenrePrompt(g1) == GenrePrompt(g2) <==>
      g1 == g2 || (AllWhitespace(g1) && AllWhitespace(g2)) ||
      (AllWhitespace(g1) && g2 == DefaultGenre) || (AllWhitespace(g2) && g1 == DefaultGenre)
  {
    DefaultGenreNotBlank();
  }

  /**
   The language instruction: the fixed one for "no preference", otherwise
   the template with the choice inserted just before "어로".
   */
  function LanguageInstruction(language: string): (r: string)
    ensures language == NoLanguage ==> r == AnyLanguageInstruction
    ensures language != NoLanguage ==>
      |r| == |InstructionHead| + |language| + |InstructionTail| &&
      r[..|InstructionHead|] == InstructionHead &&
      r[|InstructionHead|..|InstructionHead| + |language|] == language &&
      r[|InstructionHead| + |language|..] == InstructionTail &&
      r[|InstructionHead| + |language|..][..2] == "어로"
  {
    if language == NoLanguage then
      AnyLanguageInstruction
    else
      var r := InstructionHead + language + InstructionTail;
      assert r[|InstructionHead| + |language|..] == InstructionTail;
      r
  }

  /**
   Reads the language choice back out of an instruction: `None` for the
   fixed instruction, `Some(language)` for a filled-in template, `None` for
   any other text.
   */
  function LanguageOf(instruction: string): (r: Option<string>)
    ensures r.Some? ==> |r.value| + |InstructionHead| + |InstructionTail| == |instruction|
  {
    var h, t := |InstructionHead|, |InstructionTail|;
    if instruction != AnyLanguageInstruction && |instruction| >= h + t &&
       instruction[..h] == InstructionHead && instruction[|instruction| - t..] == InstructionTail
    then
      Some(instruction[h..|instruction| - t])
    else
      None
  }

  /** The two kinds of instruction already differ in their eighth character. */
  lemma {:induction false} TemplateIsNotFixed(language: string)
    ensures InstructionHead + language + InstructionTail != AnyLanguageInstruction
  {
    assert (InstructionHead + language + InstructionTail)[7] == '반';
    assert AnyLanguageInstruction[7] == '가';
  }

  /** The choice can be read back from the instruction built from it. */
  lemma {:induction false} LanguageRoundTrip(language: string)
    ensures LanguageOf(LanguageInstruction(language)) ==
      if language == NoLanguage then None else Some(language)
  {
    if language != NoLanguage {
      var r := InstructionHead + language + InstructionTail;
      TemplateIsNotFixed(language);
      assert r[..|InstructionHead|] == InstructionHead;
      assert r[|r| - |InstructionTail|..] == InstructionTail;
      assert r[|InstructionHead|..|r| - |InstructionTail|] == language;
    }
  }

  /** Different choices give different instructions. */
  lemma {:induction false} LanguageInstructionInjective(a: string, b: string)
    requires LanguageInstruction(a) == LanguageInstruction(b)
    ensures a == b
  {
    LanguageRoundTrip(a);
    LanguageRoundTrip(b);
  }
}
