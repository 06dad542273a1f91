# Quiz Challenge session model

A Dafny model of the quiz game in `chatbot_app.py`, a Streamlit script. The
player picks a topic and answers that topic's questions in order. The first
wrong answer loses the game. Answering every question correctly wins it.
Restart clears everything. The model keeps the script's game logic and drops
its user interface.

- `wrappers.dfy` (`Wrappers`): `Option`, which stands for Python's `None`.
- `text.dfy` (`Text`): Python's `str.strip()`. It removes the 29 code points
  for which `str.isspace()` is true from both ends of a string.
- `question_bank.dfy` (`QuestionBank`): the constant `TOPIC_QUESTIONS` as
  `TopicQuestions : map<string, seq<Question>>`. A question has a prompt,
  optional options, an answer and an optional image. The module also proves
  that this bank is well formed.
- `quiz_state.dfy` (`QuizState`): the seven session fields as a `Session`
  value (`started`, `topic`, `questions`, `step`, `failed`, `completed`,
  `history`). It also defines the invariant `Valid` that every reachable
  session keeps. The transitions are functions. `StartStep` is the Start
  button. `SubmitStep` submits one chat input. `Play` submits a sequence of
  inputs, one per script run. The lemmas about whole games are here too. The
  bank is a parameter, so these results hold for any well-formed bank.
- `quiz_app.dfy` (`QuizApp`): the class `QuizSession`. Its seven mutable
  fields replace `st.session_state`. Its methods are `Restart`, `Start` and
  `Submit`. Each method updates the fields in place, as the script does. Each
  is proved to move the fields exactly as the matching `QuizState` function
  moves a `Session`. The object reaches the shared, never-modified bank
  through the constant field `bank`, which the constructor sets to
  `TopicQuestions`.
- `quiz_scenarios.dfy` (`QuizScenarios`): concrete games on the real bank.

Each user action is one method call. The script reruns itself between
actions (`st.rerun()`, `st.stop()`); the model has no such reruns. Chat
input is `Option<string>`: `None` means nothing was submitted. The script
treats `None` and `""` the same way (`if user_input:`).

## Model

| member | source | states |
|---|---|---|
| `QuestionBank.TopicQuestionsWellFormed` | chatbot_app.py:20-33 | Every topic of the bank has at least one question. Every multiple-choice answer is one of its options. Every answer is non-empty and has no surrounding whitespace, so some input matches it. |
| `QuestionBank.TopicNamesListBank` | chatbot_app.py:67 | The topic list offered for selection holds exactly the bank's keys, each once. Its order is fixed by the hand-written literal `TopicNames`; the contract does not state it, since a map has no order. |
| `Text.WhitespaceIsListed` | chatbot_app.py:105 | `IsWhitespace`, the whitespace that `strip()` removes, accepts exactly the 29 code points of `str.isspace()`: U+0009-U+000D, U+001C-U+0020, U+0085, U+00A0, U+1680, U+2000-U+200A, U+2028, U+2029, U+202F, U+205F and U+3000, listed in increasing order with no repeats. |
| `Text.Strip` | chatbot_app.py:105 | `strip()` never lengthens a string. Its result neither starts nor ends with whitespace. |
| `Text.StripSlice` | chatbot_app.py:105 | Reference characterisation: when a trimmed slice `s[i..j]` has only whitespace before and after it, that slice is `strip(s)`. |
| `Text.StripIsSlice` | chatbot_app.py:105 | Converse: `strip(s)` is always a slice of `s` with only whitespace before and after it. |
| `Text.StripTrimmed` | chatbot_app.py:105 | A string with no surrounding whitespace is unchanged by `strip()`. |
| `Text.StripIdempotent` | chatbot_app.py:105 | Stripping twice gives the same result as stripping once. |
| `Text.StripPadded` | chatbot_app.py:105 | Whitespace padding around a trimmed string is removed, and nothing else. |
| `QuizState.IsCorrectCharacterised` | chatbot_app.py:105 | `IsCorrect(raw, q)`, the test `user_input.strip() == answer`, holds exactly when the answer has no surrounding whitespace and `raw` is that answer with only whitespace before and after it. Both directions are proved. |
| `QuizState.CorrectIsPadded` | chatbot_app.py:105 | A correct input contains the answer as a slice, with only whitespace around it. |
| `QuizState.PaddedIsCorrect` | chatbot_app.py:105 | Conversely, a trimmed answer with only whitespace around it is accepted. |
| `QuizState.Initial` | chatbot_app.py:36-49 | The initial field values (`False`, `None`, `[]`, `0`, `False`, `False`, `[]`) satisfy the invariant, and no question is shown. |
| `QuizState.Current` | chatbot_app.py:83-85 | A question is shown exactly while the game is in progress (started, not failed, not completed). Then `0 <= step < len(questions)`, so `questions[step]` is in bounds. |
| `QuizState.StartStep` | chatbot_app.py:65-71 | Start runs only before a topic is started. For a topic in the bank it sets `topic`, `questions = bank[topic]` and `started`, and changes nothing else. The invariant gives `step == 0` and an empty history at that point, which is why Start does not reset them. The game is then in progress. The invariant is kept. |
| `QuizState.SubmitStep` | chatbot_app.py:83-118 | Outside a game, or with empty or absent input, nothing changes. Otherwise exactly one record is appended: the prompt, the raw unstripped input and the question's image. The answer is correct exactly when `input.strip() == answer`. A correct answer adds one to `step` and sets `completed` exactly when `step` reaches `len(questions)`. A wrong answer sets `failed` and leaves `step`. The invariant is kept: `failed` and `completed` never both hold, and `len(history) == step + (1 if failed else 0)`. |
| `QuizState.CorrectKeepsValid` | chatbot_app.py:105-113 | The state after a correct answer satisfies the invariant. |
| `QuizState.IncorrectKeepsValid` | chatbot_app.py:114-115 | The state after a wrong answer satisfies the invariant. |
| `QuizState.Play` | chatbot_app.py:83-118 | After any sequence of submissions the invariant still holds. Topic and questions are unchanged, `step` never decreases, and earlier history records are unchanged (the old history is a prefix). `failed` and `completed` stay set once they are set. |
| `QuizState.NotInProgressIsFinal` | chatbot_app.py:83-123 | Once the game is lost, won or not yet started, no submission changes anything. |
| `QuizState.OneStrike` | chatbot_app.py:114-118 | A wrong answer ends the game at once, whatever is submitted afterwards. The wrong answer is the last record and no further question is shown. |
| `QuizState.LostOnSecond` | chatbot_app.py:105-118 | On a topic with at least two questions, the stored first answer advances the game. A non-empty wrong second answer then loses it, with two history records and no question shown. |
| `QuizState.ExactAnswerAccepted` | chatbot_app.py:105-113 | Submitting the shown question's stored answer is accepted. It moves `step` on by one, or wins when that was the last question. |
| `QuizState.ExactAnswersComplete` | chatbot_app.py:104-113 | From any point in a game, answering each remaining question with its stored answer wins, with one history record per question. |
| `QuizState.TopicCanBeWon` | chatbot_app.py:68-113 | For every topic of a well-formed bank, Start followed by the exact answers ends with `completed` and `len(history) == len(questions)`. |
| `QuizApp.QuizSession.constructor` | chatbot_app.py:36-49 | A fresh session has exactly the initial field values, satisfies the invariant, and reads the bank `TOPIC_QUESTIONS`. |
| `QuizApp.QuizSession.Restart` | chatbot_app.py:51-58 | From any state, all seven fields return to the initial values. Nothing survives. |
| `QuizApp.QuizSession.Start` | chatbot_app.py:65-71 | The in-place assignments to `topic`, `questions` and `started` give exactly the state and outcome of `StartStep`. The invariant is kept. |
| `QuizApp.QuizSession.Submit` | chatbot_app.py:83-118 | The in-place append to `history`, `step += 1` and the flag assignments give exactly the state and outcome of `SubmitStep`. The invariant is kept. |
| `QuizScenarios.MatchingIsStripThenExact` | chatbot_app.py:105 | `" Mars "` matches the answer `"Mars"`. `"mars"` does not: the comparison is case-sensitive. |
| `QuizScenarios.ListedTopicStarts` | chatbot_app.py:67-71 | Every topic the selection list offers starts a game from any valid unstarted session. The `UnknownTopic` branch of `StartStep` is never reached from the list. |
| `QuizScenarios.AstronomyWon` | chatbot_app.py:21-24 | Astronomy answered `"Mars"` then `"1"` is won, with two history records. |
| `QuizScenarios.HistoryLostOnSecond` | chatbot_app.py:25-28 | History answered `"1945"` then `"Thomas Jefferson"`: the first answer advances and the second is wrong. The game is lost with two records and no question shown. |
| `QuizScenarios.AstronomyThroughSession` | chatbot_app.py:65-113 | The session object, started on Astronomy and given `" Mars "` then `"1"`, reports an advance and then a win. The game then ends `completed`, not `failed`, with two history records. |

## Left out

- User interface and rendering are not modelled: page setup, title, caption, radio, buttons, chat input and messages, images, and the option list (lines 3, 61-67, 76-94, 110-122). Only what they feed into the game logic is kept.
- `play_sound` and the sound URLs (lines 6-17, 109, 116) are left out. They only emit audio tags.
- `st.rerun()` and `st.stop()` (lines 72-73, 113) are framework control flow. Each user action is one method call instead.
- The history display loop (lines 76-80) is left out. It only displays.
- Streamlit's `session_state` storage is replaced by plain object fields.
- `QuizSession.Start` and `QuizState.StartStep`, topic not in the bank: the script would assign `topic` and then raise `KeyError` at line 70. That cannot happen, because the radio offers only bank keys (`ListedTopicStarts`). The model returns `UnknownTopic` and changes nothing, so it does not leave the partial write.
- `QuizSession.Start` called while a topic is started, and `QuizSession.Submit` called outside a game: the script never offers these actions (the guard at line 65, `st.stop()` at line 73, the guard at line 83). The model returns `AlreadyStarted` or `NotInProgress` and changes nothing.
- `QuizSession.Restart` requires `WellFormedBank(bank)`. The script's `restart()` demands nothing. The requirement lets the method promise the invariant. It holds for every object, because the constructor sets `bank` to the proved-well-formed `TopicQuestions`.
- Assigning `questions = TOPIC_QUESTIONS[topic]` at line 70 shares the bank's list instead of copying it. Nothing ever mutates that list, so the model uses a `seq` value and does not capture the aliasing.
- The script does not validate the bank at load time (no "malformed bank" error exists). The model instead proves the one constant bank well formed (`TopicQuestionsWellFormed`).
- `Text.Strip` works on Dafny `char`s, which are Unicode scalar values. Python strings can also hold lone surrogates, which the model cannot represent. No surrogate is whitespace, so this does not affect the result.
