# ManoSakhi response policy in Dafny

ManoSakhi is a single-page Streamlit chatbot offering emotional support. When
its send button is pressed with a message that is not blank (not all
whitespace), it does the following; a press with a blank message does nothing:

- It decides whether the message is a crisis. A message is a crisis when one of six fixed
  keywords ("suicide", "kill myself", "end my life", "self harm",
  "cut myself", "die") occurs in its lower-cased text as a substring.
- For a crisis it answers with a fixed safety message that gives the Indian helpline
  number and the global helpline directory. It does not contact the hosted model.
- Otherwise it wraps the message in a fixed prompt and asks a hosted text
  generator for a reply. It answers with that reply stripped of surrounding
  whitespace. If the call raises, it answers with a fixed apology.
- It then appends the message and then the reply to the session's chat history.

The model has two modules:

- `Text` (`text.dfy`) holds the string operations the policy relies on:
  - `str.lower()` restricted to ASCII letters (`Lower`).
  - `str.strip()`, as the CPython forward/backward scan over exactly the
    characters `str.isspace()` accepts (`Strip`).
  - `k in s` (`Contains`).
  Each has a specification (`IsTrimOf`, `IsStripped`, `IsSubstring`) and lemmas
  that tie the operation to it.
- `ModelEng` (`modeleng.dfy`) models `modeleng.py`:
  - `CrisisCheck`, `Prompt` and `ChatWithAi`.
  - `Session`, a class whose `chatHistory` field is the history and whose
    `Send` method is the send step.
  The hosted generator is a parameter `generate: string -> Outcome` applied to
  the exact prompt. `Outcome` is `Success(text)` or `Failure`, where `Failure`
  stands for any exception the call raises. "No call on the crisis path" becomes
  "the reply does not depend on `generate`". The invariant `IsTranscript` says the
  history is a series of exchanges. Each exchange is a non-blank user turn
  followed by a bot turn that is a possible reply to it. The constructor
  establishes this invariant and `Send` preserves it.

The safety message, the apology and the instruction lines of the prompt are
reproduced character for character. The two emoji are written as the code
points U+1F4DE and U+1F30D.

## Model

| member | source | states |
|---|---|---|
| `Text.Lower` | modeleng.py:39 | the lower-cased text has the same length and lower-cases each ASCII letter position by position |
| `Text.SameUpToCaseIffLowerEqual` | modeleng.py:39 | two texts have the same lower-cased form exactly when they have the same length and, position by position, the same character or the same ASCII letter in the other case |
| `Text.IsSpace` | modeleng.py:69 | the whitespace test of `strip()` accepts exactly the 29 characters of Python's whitespace table, listed one by one |
| `Text.Strip` | modeleng.py:69 | `strip()` returns the text minus a run of whitespace at each end and nothing else, and the result has no whitespace at either end |
| `Text.TrimUnique` | modeleng.py:69 | only one such trim exists, so the two properties of `Strip` determine its result |
| `Text.StripOfStripped` | modeleng.py:69 | a text without whitespace at its ends is its own `strip()` |
| `Text.StripIdempotent` | modeleng.py:69 | stripping twice is the same as stripping once |
| `Text.StripEmptyIffAllSpace` | modeleng.py:83 | `strip()` gives the empty string exactly when the text is all whitespace |
| `Text.Contains` | modeleng.py:39 | `k in s` holds exactly when `k` occurs in `s` as a contiguous run of characters |
| `ModelEng.AnyContains` | modeleng.py:39 | `any(k in s for k in keys)` holds exactly when some key occurs in `s` |
| `ModelEng.CrisisCheck` | modeleng.py:34-39 | `crisis_check` holds exactly when one of the six keywords occurs in the lower-cased text |
| `ModelEng.CrisisOfLower` | modeleng.py:39 | lower-casing the text first does not change the verdict |
| `ModelEng.CrisisCaseInsensitive` | modeleng.py:39 | texts that differ only in the case of ASCII letters get the same verdict |
| `ModelEng.CrisisMonotone` | modeleng.py:35-39 | adding text before or after a crisis message keeps it a crisis message |
| `ModelEng.DieAnywhereIsCrisis` | modeleng.py:37-39 | every text containing the letters "die" is a crisis, whatever surrounds them |
| `ModelEng.DietIsCrisis` | modeleng.py:37-39 | "diet" is classified as a crisis |
| `ModelEng.StudiedIsCrisis` | modeleng.py:37-39 | "I studied all night" is classified as a crisis |
| `ModelEng.ShoutedDieIsCrisis` | modeleng.py:37-39 | "I want to DIE" is classified as a crisis despite the upper case |
| `ModelEng.GreetingIsNotCrisis` | modeleng.py:35-39 | "hi" is not a crisis, so the check does not fire on every input |
| `ModelEng.Prompt` | modeleng.py:54-60 | the prompt is the three instruction lines and a blank line, then "User: ", then the message verbatim, then "\nAssistant:" |
| `ModelEng.PromptInjective` | modeleng.py:58 | different messages give different prompts, so the message is carried unmodified |
| `ModelEng.ChatWithAi` | modeleng.py:42-75 | a crisis gets the safety message. Otherwise a failed call gets the apology, and a successful call gets the generated text trimmed of its surrounding whitespace, with no whitespace left at either end |
| `ModelEng.SafetyMessageHasIndiaHelpline` | modeleng.py:47-51 | the safety message contains "9152987821" |
| `ModelEng.SafetyMessageHasHelplineDirectory` | modeleng.py:47-51 | the safety message contains "https://findahelpline.com" |
| `ModelEng.CrisisIgnoresGenerator` | modeleng.py:44-52 | for a crisis the reply is the safety message whatever the generator would do, so it is never consulted |
| `ModelEng.GeneratorSeesOnlyPrompt` | modeleng.py:54-68 | the reply depends on the generator only through its answer to the prompt for this message |
| `ModelEng.GeneratedReplyStable` | modeleng.py:62-69 | a generated reply equals the stripped generator text, and stripping it again changes nothing |
| `ModelEng.ApologyIsStripped` | modeleng.py:71-74 | the apology has no whitespace at its ends, so it is one of the stripped replies |
| `ModelEng.ReplyIsPossible` | modeleng.py:45-75 | every reply is the safety message for a crisis, and otherwise a text with no whitespace at its ends |
| `ModelEng.PossibleReplyIsGiven` | modeleng.py:62-75 | conversely, every such reply is produced by some generator behaviour |
| `ModelEng.BlankGenerationGivesEmptyReply` | modeleng.py:69 | a generator answering with whitespace only yields the empty reply for a non-crisis message |
| `ModelEng.GreetingReplies` | modeleng.py:62-75 | for "hi", a failing generator gives the apology and a blank answer gives the empty reply |
| `ModelEng.HasText` | modeleng.py:83 | `user_input.strip()` is truthy exactly when the message is not all whitespace |
| `ModelEng.TranscriptIffBuilt` | modeleng.py:83-86 | the history invariant `IsTranscript` (`Session.Valid`) holds of exactly the histories built from the empty one by appending a non-blank message and a possible reply to it |
| `ModelEng.TranscriptAlternates` | modeleng.py:83-86 | a history built by sends alternates user and bot turns, starting with the user |
| `ModelEng.TranscriptCrisisAnswered` | modeleng.py:45-52 | in such a history, a user turn that is a crisis is followed by the bot's safety message |
| `ModelEng.TranscriptExtend` | modeleng.py:85-86 | appending a non-blank message and a possible reply to it keeps the history well formed |
| `ModelEng.Session.constructor` | modeleng.py:30-31 | a session starts with an empty history, which is well formed |
| `ModelEng.Session.Send` | modeleng.py:83-86 | a click with non-blank input appends exactly `("user", input)` then `("bot", reply)` after the old entries. Otherwise the history is unchanged. The history stays well formed either way |

## Left out

- Streamlit page setup, the text field and the rendering of the history (modeleng.py:21-27, 78-81, 89-94) are display only. The button press is the `sendClicked` parameter of `Send`.
- Loading `HUGGINGFACE_API_KEY` and stopping the page when it is missing (modeleng.py:7-12) are environment access and process control.
- The `InferenceClient` set-up and the `text_generation` call (modeleng.py:15-18, 63-68) are a foreign network call. The model name, `max_new_tokens=150`, `temperature=0.7` and `top_p=0.9` only affect what the generator returns, and the `generate` parameter leaves that open.
- The generator is a function of the prompt within one `Send`. Different `Send` calls may be given different generators, which covers a remote service that answers the same prompt differently over time.
- `st.session_state` keeping the history across page reruns: the history is a field of one `Session` object.
- `Text.Lower`: only ASCII letters are lower-cased. Python's `str.lower()` also maps non-ASCII characters, some of them to ASCII letters or to two characters (KELVIN SIGN U+212A becomes "k"). So a keyword written with such characters is a crisis in the source and not in the model. Unicode case tables are out of scope.
- The multi-model fallback, the anti-repetition rule, the minimum reply length, the violence keyword set, grounding exercises, local template replies and a context window of earlier turns are described for other versions of the product. They do not appear in modeleng.py, and this model follows the code.
- Where the product's design goals and this code disagree, the model follows the code:
  - A design goal is that a reply is never empty. `chat_with_ai` returns `""` when the generator answers with whitespace only (`BlankGenerationGivesEmptyReply`, `GreetingReplies`).
  - A design goal is that a crisis reply includes a grounding exercise. The safety message in modeleng.py has none.
