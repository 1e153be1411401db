# Music recommender: reply handling, verified

A Dafny model of the string logic inside `get_recommendation` in
`recommend_music.py`, the Streamlit app that asks Gemini for three songs
that suit a user's age, genre and language. The model covers:

- **the prompt parts.** The genre falls back to a fixed phrase when blank.
  The language instruction is fixed for "선택 안 함" ("no preference") and
  otherwise is filled in from a template.
- **the clean-up of the model's reply before `json.loads`.** The reply is
  stripped. Then one of three texts is kept. With a "```json" tag, it is the
  text after the first tag up to the first "```" that comes before the next
  "```json", or up to that next tag, or to the end when neither follows.
  Without the tag, it is the text between the first two bare "```" markers,
  or from the only marker to the end. With no marker at all, it is the
  stripped reply itself. The result is stripped again.
- **the mapping of any exception to an error dict.** The dict has the single
  key `"error"`. Its value is the quota message when the exception text
  contains "429", and otherwise a fixed prefix followed by that text.
- **the YouTube search link.** It is the search URL followed by
  `urllib.parse.quote_plus` of the title, a space and the artist.

Files:

- `pystr.dfy` holds the Python string operations the code relies on: the
  whitespace set, `strip`, `in` and `split`.
- `extract.dfy` holds the reply clean-up and worked examples of reply
  shapes.
- `prompt.dfy` holds the genre and language parts.
- `recommend.dfy` holds the error mapping and `get_recommendation` as a whole.
- `searchlink.dfy` holds the link, UTF-8 and `quote_plus`.
- `wrappers.dfy` holds `Option` and `Result`.
- `seqfacts.dfy` holds facts about sequences of any element type that the
  string and byte proofs use.

The two external calls, the Gemini request and `json.loads`, are
parameters of `GetRecommendation`. Each returns its value or the text of
the exception it raised. The prompt is represented by the three values
spliced into it.

Notes on how the code was read:

- **No brace fallback.** The clean-up has no brace-matching fallback, such
  as taking the text from the first "{" to the last "}". A reply that is neither fenced nor bare JSON reaches
  the parser unchanged apart from stripping.
- **`quote_plus`.** The code calls `urllib.parse.quote_plus`, and the model
  follows Python's implementation:
  - ASCII letters, digits and `_ . - ~` are kept;
  - a space becomes "+";
  - every other UTF-8 byte becomes "%XX", with upper-case hex digits.

  The form-urlencoded serializer of the WHATWG URL Standard (section 5.2)
  differs on two characters: it keeps "*" and escapes "~".
- **Whitespace.** `strip()` removes exactly the characters for which
  `str.isspace` holds. The model spells that set out:
  - U+0009–U+000D;
  - U+001C–U+0020;
  - U+0085 and U+00A0;
  - U+1680;
  - U+2000–U+200A;
  - U+2028 and U+2029;
  - U+202F and U+205F;
  - U+3000.

## Model

| member | source | states |
|---|---|---|
| FenceExtract.ExtractJson | recommend_music.py:58-62 | never fails, since each `[1]` is guarded by its containment test; the result has no whitespace at either end; in both fenced branches it holds no "```"; with no "```" it is exactly the stripped reply |
| FenceExtract.ExtractTaggedBlock | recommend_music.py:58-60 | when the stripped reply holds "```json" first at `i`, the result is the stripped text from just after that tag up to the first "```" that comes before the next "```json", or up to that next tag |
| FenceExtract.ExtractTaggedSingle | recommend_music.py:58-60 | with a single "```json" tag, the result is the stripped text between the tag and the next "```", or up to the end when none follows |
| FenceExtract.ExtractBareBlock | recommend_music.py:61-62 | with "```" but no "```json", the result is the stripped text between the first and second "```", or up to the end when there is only one |
| FenceExtract.ExtractIdempotent | recommend_music.py:58-62 | applying the clean-up to its own output returns it unchanged |
| FenceExtract.ExtractIsSlice | recommend_music.py:58-62 | the result is a contiguous piece of the raw reply |
| FenceExtract.TagContainsFence | recommend_music.py:59-61 | a reply holding "```json" also holds "```", so the tagged branch is taken before the bare one could be |
| FenceExamples.NoBacktickReply | recommend_music.py:58-62 | a reply without backticks reaches the parser only stripped |
| FenceExamples.TaggedEnvelope | recommend_music.py:59-60 | "```json" + text without backticks + "```" yields the stripped text |
| FenceExamples.TaggedReply | recommend_music.py:59-60 | the usual fenced answer (tag, newline, body, newline, fence) yields the body exactly |
| FenceExamples.BareEnvelope | recommend_music.py:61-62 | "```" + text that has no backticks and does not start with "j" + "```" yields the stripped text |
| FenceExamples.UpperCaseTagReply | recommend_music.py:59-62 | an upper-case "```JSON" tag misses the case-sensitive test, takes the bare branch, and the parser receives text starting with "JSON" |
| FenceExamples.BacktickBeforeSecondTag | recommend_music.py:60 | the first split also stops at a second "```json", so a backtick glued in front of that second tag stays at the end of the result |
| PyStr.Trim | recommend_music.py:58 | `strip()` gives a contiguous piece of the input with no whitespace at either end |
| PyStr.TrimRemovesWhitespace | recommend_music.py:58 | everything `strip()` removes is whitespace |
| PyStr.TrimKeepsPrefix | recommend_music.py:58 | `strip()` keeps any leading part of the input that starts and ends with non-whitespace |
| PyStr.TrimIdempotent | recommend_music.py:60 | stripping twice is stripping once |
| PyStr.TrimPadded | recommend_music.py:60 | whitespace added around a stripped text is removed again |
| PyStr.TrimEmptyIff | recommend_music.py:19 | `strip()` returns the empty string exactly when the input is all whitespace |
| PyStr.Find | recommend_music.py:59 | finds the first occurrence of the pattern, or reports that there is none anywhere |
| PyStr.ContainsIff | recommend_music.py:59 | `in`, which `Contains` models for the tests at lines 59, 61 and 69, holds exactly when the pattern occurs at some position |
| PyStr.Split | recommend_music.py:60 | `split` gives at least one piece, the input alone when the separator is absent, and at least two pieces when it is present |
| PyStr.SplitUnfold | recommend_music.py:60 | when the first occurrence of the separator is at `i`, the pieces are the text before `i` followed by the pieces of the text after that occurrence |
| PyStr.SplitJoin | recommend_music.py:60 | joining the pieces with the separator gives the input back |
| PyStr.SplitPieceFree | recommend_music.py:60 | no piece contains the separator |
| PyStr.SplitFirst | recommend_music.py:60 | the first piece ends at the first occurrence, or is the whole input |
| PyStr.SplitSecond | recommend_music.py:60 | the second piece runs from the end of the first occurrence to the next one, or to the end |
| PyStr.SplitSecondThenFirst | recommend_music.py:60 | a split, its second piece split again, and the first piece of that is the text between the first opening marker and the first closing marker before the next opening one |
| PromptParts.GenrePrompt | recommend_music.py:19 | a blank genre is replaced by the default phrase; any other genre is kept exactly, surrounding whitespace included |
| PromptParts.GenrePromptNotBlank | recommend_music.py:19 | the phrase that reaches the prompt is never blank |
| PromptParts.GenrePromptIdempotent | recommend_music.py:19 | feeding the phrase back in changes nothing |
| PromptParts.GenrePromptSame | recommend_music.py:19 | two genres give the same phrase exactly when they are equal, both blank, or one is blank and the other is the default phrase |
| PromptParts.LanguageInstruction | recommend_music.py:22-25 | "선택 안 함" gives the fixed instruction; any other choice gives the template head, the choice, then the template tail that begins with "어로" |
| PromptParts.LanguageRoundTrip | recommend_music.py:22-25 | the choice can be read back from the instruction, and "no preference" reads back as no language |
| PromptParts.LanguageInstructionInjective | recommend_music.py:22-25 | different choices give different instructions |
| Recommend.ErrorReply | recommend_music.py:66-71 | the dict's only key is "error"; the value is the quota message exactly when the exception text contains "429", and otherwise the prefix followed by the text |
| Recommend.ErrorDetailRoundTrip | recommend_music.py:68-71 | the exception text can be read back from the error dict unless it contains "429" |
| Recommend.ErrorReplyInjective | recommend_music.py:71 | different exception texts without "429" give different error dicts |
| Recommend.PromptFor | recommend_music.py:19-25 | the prompt carries the age, a non-blank genre phrase, the fixed instruction for "선택 안 함", and an instruction from which any other language choice can be read back |
| Recommend.Respond | recommend_music.py:47-71 | a failing model call gives the error dict for its exception text; a failing parse of the cleaned-up reply gives the error dict for the parse's exception text; otherwise the result is the parsed value; every error dict has the single key "error" |
| Recommend.GetRecommendation | recommend_music.py:17-71 | for the prompt built from age, genre and language: a failing model call gives the error dict for its exception text; a failing parse gives the error dict for the parse's exception text; when both succeed the result is the parsed value |
| Recommend.BlankGenresAgree | recommend_music.py:19 | all blank genres send the same prompt, so for a given model call they lead to the same outcome |
| Recommend.ParseErrorMentioning429 | recommend_music.py:64-70 | a parse error whose text mentions 429 is also reported as an exhausted quota |
| Recommend.SameCleanedReply | recommend_music.py:58-64 | replies that clean up to the same text lead to the same outcome |
| SearchLink.Utf8 | recommend_music.py:110 | each character encodes to one to four bytes; a single byte only for ASCII, with the character's own value; the remaining bytes are continuation bytes |
| SearchLink.Utf8RoundTrip | recommend_music.py:110 | strict UTF-8 decoding of the encoding gives the text back |
| SearchLink.Utf8Injective | recommend_music.py:110 | different texts encode to different bytes |
| SearchLink.QuotePlus | recommend_music.py:110 | the output uses only unreserved characters, "+" and "%", and is at least as long as the input |
| SearchLink.QuotePlusKeepsPlain | recommend_music.py:110 | a text made only of ASCII letters, digits and `_ . - ~` is returned unchanged |
| SearchLink.QuotePlusSpace | recommend_music.py:110 | a space is written as "+" |
| SearchLink.QuotePlusUpperEscapes | recommend_music.py:110 | every "%" in the output is followed by two hex digits written in upper case |
| SearchLink.QuotePlusAppend | recommend_music.py:110 | the encoding of two texts joined is the two encodings joined |
| SearchLink.Query | recommend_music.py:109 | the search text is the title, one space, then the artist |
| SearchLink.UnquoteQuotePlus | recommend_music.py:110 | undoing "+" and the "%XX" escapes gives back the UTF-8 bytes of the input |
| SearchLink.SearchUrl | recommend_music.py:109-111 | the link starts with the search URL; the rest uses only form-safe characters and decodes back to the search text `Query` builds |
| SearchLink.SearchUrlParts | recommend_music.py:109-111 | the link is the search URL, the encoded title, "+", and the encoded artist |
| SearchLink.SearchUrlInjective | recommend_music.py:109-111 | different search texts give different links |
| SearchLink.QueryAmbiguous | recommend_music.py:109 | the link does not separate title from artist: moving a word across the joining space gives the same link |
| SearchLink.FormSafeExcludes | recommend_music.py:111 | the encoded text holds no space, "&", "#", "=" or "?", so it stays a single query parameter |

## Left out

- The Streamlit UI is not modelled (recommend_music.py:74-115): page setup, widgets, button, spinner, expanders and the loop that renders each recommendation. The link it shows per recommendation is modelled.
- API client set-up and secret lookup are not modelled (recommend_music.py:9-15), because they are configuration and environment access.
- The Gemini request is not modelled (recommend_music.py:47-55). It is the `generate` parameter of `GetRecommendation`, and a failure to read the reply's `text` counts as that call raising. So does a reply whose `text` is `None`: `.strip()` at recommend_music.py:58 then raises, and the `except` at lines 66-71 maps that exception like any other.
- The sampling of the model call is not modelled (recommend_music.py:49-55). The call runs at temperature 0.8 and the prompt asks for different songs on every press (recommend_music.py:30), so the same prompt can get different replies; the model takes the call as a function of the prompt. `BlankGenresAgree` therefore promises only that blank genres send the same prompt and, for one fixed reply function, give the same outcome.
- `json.loads` is not modelled (recommend_music.py:64). It is the `parse` parameter, an oracle that may fail with an exception text.
- The wording of the prompt template is not modelled (recommend_music.py:28-45). The prompt is the `Prompt` value of age, genre phrase and instruction.
- `age` is an unbounded integer. The UI bounds it to 1..100, and that bound is not modelled.
- Lone surrogates are not modelled: Dafny's `char` cannot hold them. Python's `quote_plus` raises on them (strict UTF-8), so they never reach a link.
- Title and artist values that are not strings are not modelled. Python formats them with `str()` before quoting; the model takes both as strings.
- The `"error" in data` test of the UI is not modelled (recommend_music.py:97). That test also fires on a parsed reply that happens to have an "error" key.
- recommender.py is not part of this model. It ranks songs by floating-point cosine similarity of sentence embeddings from external libraries.
- youtube.py is not part of this model. It is a wrapper around a network search whose only own logic is building a query string.
