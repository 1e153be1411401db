/**
 `get_recommendation` (recommend_music.py:17-71) as a whole: the prompt
 parts, the call to the model, the clean-up of its reply, the parse, and the
 mapping of any exception to an error dict.

 The model call and `json.loads` are not modelled; they are parameters. Each
 returns its value or the text of the exception it raised. The prompt
 template's wording is not modelled either: the prompt is represented by
 the three values spliced into it.
 */
module Recommend {
  import opened Wrappers
  import opened PyStr
  import opened FenceExtract
  import opened PromptParts

  /** The only key of an error dict. */
  const ErrorKey: string := "error"

  /** The status code whose presence in an error message means the quota ran out. */
  const QuotaCode: string := "429"

  /** "The Google API quota is currently exhausted." */
  const QuotaNotice: string := "현재 Google API 할당량이 초과되었습니다."

  /** " Try again in a moment (about a minute), or use an API key of another Google account." */
  const QuotaAdvice: string := " 잠시 후(약 1분 뒤) 다시 시도하거나, 다른 구글 계정의 API 키를 사용해 보세요."

  /** The message shown when the quota ran out. */
  const QuotaMessage: string := QuotaNotice + QuotaAdvice

  /** "An error occurred while fetching recommendations: " — followed by the exception text. */
  const FailurePrefix: string := "추천을 가져오는 중 오류가 발생했습니다: "

  /** What the prompt is made from: the age and the two parts of `PromptParts`. */
  datatype Prompt = Prompt(age: int, genre: string, instruction: string)

  /** What `get_recommendation` returns: the parsed JSON, or a dict with only the key "error". */
  datatype Reply<J> = Recommendations(value: J) | ErrorDict(fields: map<string, string>)

  /**
   The error dict for an exception whose text is `message`: the quota
   message exactly when the text contains "429", otherwise the generic
   prefix followed by the text.
   */
  function ErrorReply(message: string): (r: map<string, string>)
    ensures r.Keys == {ErrorKey}
    ensures r[ErrorKey] == QuotaMessage <==> Contains(message, QuotaCode)
    ensures !Contains(message, QuotaCode) ==>
      |r[ErrorKey]| == |FailurePrefix| + |message| &&
      r[ErrorKey][..|FailurePrefix|] == FailurePrefix &&
      r[ErrorKey][|FailurePrefix|..] == message
  {
    if Contains(message, QuotaCode) then
      map[ErrorKey := QuotaMessage]
    else
      var text := FailurePrefix + message;
      assert text[0] == '추' && QuotaMessage[0] == '현';
      assert text[|FailurePrefix|..] == message;
      map[ErrorKey := text]
  }

  /** Reads the exception text back out of an error dict; `None` for the quota message. */
  function ErrorDetail(fields: map<string, string>): (r: Option<string>)
    ensures r.Some? ==> ErrorKey in fields && |r.value| + |FailurePrefix| == |fields[ErrorKey]|
  {
    if ErrorKey in fields && fields[ErrorKey] != QuotaMessage &&
       |fields[ErrorKey]| >= |FailurePrefix| && fields[ErrorKey][..|FailurePrefix|] == FailurePrefix
    then
      Some(fields[ErrorKey][|FailurePrefix|..])
    else
      None
  }

  /** The exception text survives in the error dict unless it mentions "429". */
  lemma {:induction false} ErrorDetailRoundTrip(message: string)
    ensures ErrorDetail(ErrorReply(message)) ==
      if Contains(message, QuotaCode) then None else Some(message)
  {
  }

  /** Two messages without "429" give the same dict only if they are the same message. */
  lemma {:induction false} ErrorReplyInjective(a: string, b: string)
    requires !Contains(a, QuotaCode) && !Contains(b, QuotaCode)
    requires ErrorReply(a) == ErrorReply(b)
    ensures a == b
  {
    ErrorDetailRoundTrip(a);
    ErrorDetailRoundTrip(b);
  }

  /** The prompt `get_recommendation` sends for these inputs. */
  function PromptFor(age: int, genre: string, language: string): (p: Prompt)
    ensures p.age == age
    ensures !AllWhitespace(p.genre)
    ensures AllWhitespace(genre) ==> p.genre == DefaultGenre
    ensures !AllWhitespace(genre) ==> p.genre == genre
    ensures language == NoLanguage ==> p.instruction == AnyLanguageInstruction
    ensures LanguageOf(p.instruction) == if language == NoLanguage then None else Some(language)
  {
    GenrePromptNotBlank(genre);
    LanguageRoundTrip(language);
    Prompt(age, GenrePrompt(genre), LanguageInstruction(language))
  }

  /**
   The `try` block of `get_recommendation` for a given prompt. `generate`
   stands for the model call (including reading the reply's text) and
   `parse` for `json.loads`; the clean-up between them cannot raise.
   Whatever raises is turned into an error dict; otherwise the parsed value
   is returned.
   */
  function Respond<J>(prompt: Prompt, generate: Prompt -> Result<string>, parse: string -> Result<J>): (r: Reply<J>)
    ensures r.ErrorDict? ==> r.fields.Keys == {ErrorKey}
    ensures r.Recommendations? <==>
      generate(prompt).Success? && parse(ExtractJson(generate(prompt).value)).Success?
    ensures r.Recommendations? ==> r.value == parse(ExtractJson(generate(prompt).value)).value
    ensures generate(prompt).Failure? ==> r == ErrorDict(ErrorReply(generate(prompt).error))
    ensures generate(prompt).Success? && parse(ExtractJson(generate(prompt).value)).Failure? ==>
      r == ErrorDict(ErrorReply(parse(ExtractJson(generate(prompt).value)).error))
  {
    match generate(prompt)
    case Failure(e) => ErrorDict(ErrorReply(e))
    case Success(text) =>
      match parse(ExtractJson(text))
      case Failure(e) => ErrorDict(ErrorReply(e))
      case Success(v) => Recommendations(v)
  }

  /**
   One run of `get_recommendation`: the prompt parts, then the `try` block.
   The parsed value comes back when both calls succeed; the first exception
   raised, by the model call or by the parse, becomes the error dict.
   */
  function GetRecommendation<J>(age: int, genre: string, language: string,
                                generate: Prompt -> Result<string>,
                                parse: string -> Result<J>): (r: Reply<J>)
    ensures r.ErrorDict? ==> r.fields.Keys == {ErrorKey}
    ensures var reply := generate(PromptFor(age, genre, language));
      reply.Failure? ==> r == ErrorDict(ErrorReply(reply.error))
    ensures var reply := generate(PromptFor(age, genre, language));
      reply.Success? ==>
        var parsed := parse(ExtractJson(reply.value));
        (parsed.Success? ==> r == Recommendations(parsed.value)) &&
        (parsed.Failure? ==> r == ErrorDict(ErrorReply(parsed.error)))
  {
    Respond(PromptFor(age, genre, language), generate, parse)
  }

  /**
   All blank genres send the same prompt, so for a given model call the
   outcome does not depend on which blank genre was typed.
   */
  lemma {:induction false} BlankGenresAgree<J>(age: int, g1: string, g2: string, language: string,
                                               generate: Prompt -> Result<string>,
                                               parse: string -> Result<J>)
    requires AllWhitespace(g1) && AllWhitespace(g2)
    ensures PromptFor(age, g1, language) == PromptFor(age, g2, language)
    ensures GetRecommendation(age, g1, language, generate, parse) ==
            GetRecommendation(age, g2, language, generate, parse)
  {
  }

  /**
   The "429" test looks at any exception text, not only the model call's:
   a parse error whose text mentions 429 (a line or column number, say) is
   also reported as an exhausted quota.
   */
  lemma {:induction false} ParseErrorMentioning429<J>(prompt: Prompt, text: string, message: string,
                                                     generate: Prompt -> Result<string>,
                                                     parse: string -> Result<J>)
    requires generate(prompt) == Success(text)
    requires parse(ExtractJson(text)) == Failure(message)
    requires Contains(message, QuotaCode)
    ensures Respond(prompt, generate, parse) == ErrorDict(map[ErrorKey := QuotaMessage])
  {
  }

  /** The parser sees exactly the cleaned-up reply: two replies that clean up alike give the same outcome. */
  lemma {:induction false} SameCleanedReply<J>(prompt: Prompt, text1: string, text2: string,
                                              generate1: Prompt -> Result<string>,
                                              generate2: Prompt -> Result<string>,
                                              parse: string -> Result<J>)
    requires generate1(prompt) == Success(text1) && generate2(prompt) == Success(text2)
    requires ExtractJson(text1) == ExtractJson(text2)
    ensures Respond(prompt, generate1, parse) == Respond(prompt, generate2, parse)
  {
  }
}
