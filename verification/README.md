# Ada voice assistant: routing, utterance state machine, fenced-JSON extraction

A Dafny model of the decision logic of the "ada" personal voice assistant. It covers three parts:

- **Keyword activation and routing** (`src/ada/main.py`). The chunked listening loop checks for the activation keyword, ignoring case. It then takes the stripped text after the keyword's first occurrence and searches an ordered table of comma-separated keyword groups. The first group with a keyword that occurs in the lower-cased prompt selects the workflow. If no keyword occurs, no workflow runs.
- **The streaming recogniser's utterance state machine** (`src/ada/modules/voice_recorder.py`). The recorder is idle or recording. Each finalised fragment is tested against the lower-cased activation, end and stop keywords. The tests are case-sensitive substring tests, applied in that order. While recording, fragments are appended to a buffer, each after one space. The end keyword hands the buffer to the command processor and clears it. The stop keyword ends the listening loop.
- **Extraction of a JSON document from a model reply** (`src/ada/modules/parsers.py`). The reply is stripped. If the regular expression ```` ```json\s*(.*?)\s*``` ```` (dot matching newlines) finds a match, its group is taken; otherwise the whole stripped reply is. The result goes to a JSON decoder.

Modules:

| file | module | contents |
|---|---|---|
| `wrappers.dfy` | `Wrappers` | `Option` |
| `text.dfy` | `Text` | Python `str` operations: `isspace`, ASCII `lower`, `find`, `in`, `strip`, `split` with a one-character separator, `join` |
| `assistant.dfy` | `Assistant` | the router table, `get_first_keyword_in_prompt`, `text_after_keyword`, `on_activation_keyword_detected`, one iteration of the listening loop |
| `voice_recorder.dfy` | `VoiceRecorder` | the recorder's keywords and state, `process_result` and its helpers, the consumer loop of `continuous_listen` over a finite run of fragments |
| `parsers.dfy` | `Parsers` | the regular-expression search as a function, `parse_json_from_gemini` with the decoder as a parameter |

The regular expression is modelled by what it matches. `re.search` tries the first ```` ```json ```` first. That attempt succeeds exactly when a ```` ``` ```` follows at or after the end of that opening fence. The opening `\s*` takes the whole whitespace run, because a backtick is not whitespace. The lazy group then ends at the first closing fence after that run, and the trailing `\s*` takes back the group's trailing whitespace. `DelimitedAt` states this match as positions in the string. `FirstDelimited` computes it with `find`, a whitespace skip and a right strip, for any pair of delimiters whose closing one starts with a character that is not whitespace. `ExtractFenced` is its instance for the JSON fences.

Behaviour of the code that is easy to misread:

- Dictionary order is the search order, and "question" comes before "hello,hey,hi". A prompt holding both a greeting and "question" goes to the question workflow (`QuestionBeforeGreeting`).
- Keywords match as substrings, not words. "this" holds "hi" (`GreetingBySubstring`, `ThisHoldsOnlyHi`).
- `start_interaction` keeps the buffer, and the activating fragment is appended too. A full interaction's command therefore begins with a space and the activating fragment (`Interaction`).
- The stop keyword is only tested when neither of the first two branches fires. While recording, a fragment that holds the end keyword ends the interaction even if it also holds the stop keyword.
- Fragments are appended with a leading space. Three plain fragments "build", "the", "thing" leave " build the thing" in the buffer (`SpacedFragments`).
- The recorder's keywords are lower-cased, but fragments are not. A capitalised "Hello Ada" in a fragment does not activate the recorder (`CapitalisedActivationIgnored`).

## Model

| member | source | states |
|---|---|---|
| Text.Find | src/ada/main.py:767-770 | `find` returns the first index where the pattern occurs, or `None` (Python's -1) exactly when it occurs nowhere |
| Text.FindFirstOccurrence | src/ada/main.py:767 | any first occurrence of the pattern is the index `find` returns |
| Text.ContainsExists | src/ada/main.py:784 | Python's `in` holds exactly when the pattern occurs at some position of the text; the same test decides the keywords at src/ada/modules/voice_recorder.py:96-100 |
| Text.Strip | src/ada/main.py:772 | `strip` returns a slice of its argument with only whitespace around it and no whitespace at either end |
| Text.StripStripped | src/ada/modules/parsers.py:81 | stripping an already stripped string leaves it unchanged |
| Text.StripAbsorbsSpace | src/ada/modules/parsers.py:81 | whitespace added at either end does not change the result of `strip` |
| Text.StripContained | src/ada/main.py:772 | the stripped text occurs in the original string |
| Text.Split | src/ada/main.py:782 | `split(",")` yields at least one piece, and no piece holds the separator |
| Text.JoinSplit | src/ada/main.py:782 | joining the pieces of `split` with the separator gives back the original string |
| Text.SplitJoin | src/ada/main.py:782 | splitting a join of separator-free pieces gives back the pieces |
| Text.LowerEach | src/ada/main.py:784 | lower-casing maps each character on its own: position i of the result is the lower-case form of position i of the input, so 'A' becomes 'a' and every non-upper-case character is kept |
| Text.LowerIdempotent | src/ada/main.py:784 | lower-casing twice is the same as lower-casing once |
| Text.LowerIsLowerCase | src/ada/modules/voice_recorder.py:66-68 | the lower-cased keyword holds no upper-case letter |
| Text.RStripPadded | src/ada/modules/parsers.py:84 | the trailing `\s*` takes exactly the whitespace after a group that does not end in whitespace |
| Assistant.RouteKeywords | src/ada/main.py:124-136 | the alternatives of each table entry, in search order, as `split(",")` yields them |
| Assistant.FirstInGroup | src/ada/main.py:783-786 | the inner loop returns a keyword of the group that occurs in the text, or nothing exactly when none of the group occurs |
| Assistant.FirstInGroupIsFirst | src/ada/main.py:783-786 | the inner loop returns the earliest keyword of the group that occurs |
| Assistant.FirstKeywordInPrompt | src/ada/main.py:779-786 | against the lower-cased prompt, there is no hit exactly when no keyword of any group occurs in it, and a hit names a keyword that occurs; which hit wins is stated by Assistant.FirstHitSelected and Assistant.MatchIsFirstHit |
| Assistant.NoMatchIff | src/ada/main.py:779-787 | the router returns `(None, None)` exactly when no keyword of any group occurs in the lower-cased prompt |
| Assistant.FirstHitSelected | src/ada/main.py:779-787 | when a keyword is the first hit in table order and comma order, the router returns that keyword and its group's workflow |
| Assistant.MatchIsFirstHit | src/ada/main.py:779-787 | every keyword the router returns is the first hit in table order and comma order, and the returned workflow is that keyword's group's |
| Assistant.EarlierGroupWins | src/ada/main.py:779-787 | a keyword that occurs guarantees a match, from its own group or an earlier one |
| Assistant.RouteIgnoresCase | src/ada/main.py:784 | routing does not depend on the case of the prompt |
| Assistant.QuestionBeforeGreeting | src/ada/main.py:131-133 | a prompt that mentions "question" is never routed to small talk or to ending the conversation |
| Assistant.ShellBeforeQuestion | src/ada/main.py:130-132 | a prompt that mentions "shell" is never routed to question answering, small talk or ending the conversation |
| Assistant.QuestionRoute | src/ada/main.py:124-133 | "question", with no keyword of an earlier group present, selects the question workflow, whatever greeting is also present |
| Assistant.GreetingBySubstring | src/ada/main.py:133 | "hi" anywhere in the prompt, with no earlier keyword present, selects small talk with keyword "hi" |
| Assistant.ThisHoldsOnlyHi | src/ada/main.py:133 | "This" lower-cases to "this", which holds "hi" and no keyword searched before it |
| Assistant.TextAfterKeyword | src/ada/main.py:763-776 | the command text has no whitespace at either end and occurs in the transcript |
| Assistant.TextAfterMissingKeyword | src/ada/main.py:767-770 | with no case-insensitive occurrence of the keyword, the command text is empty |
| Assistant.TextAfterFirstOccurrence | src/ada/main.py:767-773 | with one, the command text is the stripped original-case remainder after the first occurrence |
| Assistant.HeardActivation | src/ada/main.py:757 | the activation test holds exactly when the lower-cased keyword occurs at some position of the lower-cased transcript |
| Assistant.ListenIteration | src/ada/main.py:757-759 | without the activation keyword in the transcript, ignoring case, nothing is dispatched; with it, the iteration does exactly what `on_activation_keyword_detected` does with the transcript |
| Assistant.DefaultActivationIgnoresCase | src/ada/main.py:757 | the default keyword "Ada" is heard in "ADA" and "ada" but not in "ad" |
| Assistant.OnActivationKeywordDetected | src/ada/main.py:789-804 | a dispatched workflow is given the text after the activation keyword |
| Assistant.DispatchNoneIff | src/ada/main.py:789-802 | no workflow runs exactly when no keyword occurs in the lower-cased command text |
| Assistant.DispatchRoutesCommandText | src/ada/main.py:789-804 | a workflow that runs is the one of the first keyword hit, in table and comma order, in the lower-cased command text rather than in the whole transcript |
| Assistant.ListenDispatchesRemainder | src/ada/main.py:757-804 | a workflow runs only after the activation keyword is heard, and is given the stripped original-case text after the keyword's first occurrence |
| VoiceRecorder.NewRecorder | src/ada/modules/voice_recorder.py:56-68 | each stored keyword is the given one with every character lower-cased, so it holds no upper-case letter |
| VoiceRecorder.DefaultKeywords | src/ada/modules/voice_recorder.py:60-68 | the default keywords are stored as "hello ada", "thanks" and "stop recording" |
| VoiceRecorder.StartInteraction | src/ada/modules/voice_recorder.py:106-108 | recording is switched on and the buffer is kept as it was |
| VoiceRecorder.StopInteraction | src/ada/modules/voice_recorder.py:110-114 | the whole buffer is handed on as the command, and the recorder goes back to idle with an empty buffer |
| VoiceRecorder.ProcessResult | src/ada/modules/voice_recorder.py:94-114 | a command is emitted exactly when recording and the end keyword occurs, and it is the whole buffer; listening stops exactly when neither earlier branch fires and the stop keyword occurs, and then nothing changes; otherwise the fragment is appended after a space exactly when recording afterwards |
| VoiceRecorder.ProcessResultKeepsValid | src/ada/modules/voice_recorder.py:69-70 | an idle recorder's buffer stays empty after any fragment |
| VoiceRecorder.ListenAppend | src/ada/modules/voice_recorder.py:85-92 | feeding two runs in turn: the second is fed only if the first did not stop, from the state the first left, and the commands come in emission order |
| VoiceRecorder.ListenBreaksAtStop | src/ada/modules/voice_recorder.py:89-92 | wherever the first fragment that answers "stop" sits in the run, the loop ends there with the state and commands from before it, and later fragments are never processed |
| VoiceRecorder.Listen | src/ada/modules/voice_recorder.py:85-92 | each fragment hands on at most one command; how runs compose and where the loop breaks is stated by VoiceRecorder.ListenAppend and VoiceRecorder.ListenBreaksAtStop |
| VoiceRecorder.ListenKeepsValid | src/ada/modules/voice_recorder.py:85-114 | an idle recorder's buffer stays empty over any run of fragments |
| VoiceRecorder.ListenAccumulates | src/ada/modules/voice_recorder.py:96-104 | while recording, fragments without the end or stop keyword are appended in order, each after a space, and no command is emitted |
| VoiceRecorder.ListenThenEnd | src/ada/modules/voice_recorder.py:98-114 | a fragment with the end keyword after such a run emits exactly one command, the buffer with the run appended, and leaves the recorder idle with an empty buffer |
| VoiceRecorder.Interaction | src/ada/modules/voice_recorder.py:94-114 | activation fragment, plain run and end fragment from the idle state emit exactly one command: the activating fragment and the run, each after a space |
| VoiceRecorder.ListenHalts | src/ada/modules/voice_recorder.py:89-92 | fragments after the one that answers "stop" are never processed |
| VoiceRecorder.CapitalisedActivationIgnored | src/ada/modules/voice_recorder.py:96 | with the default keywords, "Hello Ada" leaves the recorder idle, while "hello ada" starts recording |
| VoiceRecorder.SpacedFragments | src/ada/modules/voice_recorder.py:102-103 | "build", "the", "thing" fed while recording with an empty buffer leave " build the thing" |
| Parsers.SkipSpace | src/ada/modules/parsers.py:84 | `\s*` consumes the whole whitespace run: every character it passes is whitespace, and the next one is not |
| Parsers.ExtractFenced | src/ada/modules/parsers.py:84-87 | the group has no whitespace at either end and holds no closing fence |
| Parsers.MatchIff | src/ada/modules/parsers.py:84-86 | the search finds a match exactly when some "```json" is followed, at or after its end, by "```" |
| Parsers.FirstDelimited | src/ada/modules/parsers.py:84-87 | a group found is stripped and, for a non-empty closing delimiter, does not contain it; where it lies is pinned down by Parsers.FirstDelimitedIsBlock |
| Parsers.FirstDelimitedIsBlock | src/ada/modules/parsers.py:84-87 | the group is the text from the end of the whitespace after the first opening delimiter to the first closing delimiter from there, without its trailing whitespace |
| Parsers.DelimitedAtFound | src/ada/modules/parsers.py:84-87 | conversely, that text is what the search returns |
| Parsers.DelimitedAtUnique | src/ada/modules/parsers.py:84 | the search has at most one match |
| Parsers.ExtractWrapped | src/ada/modules/parsers.py:84-87 | a stripped block without a closing fence and not ending in a backtick, wrapped in "```json", any whitespace and "```", is extracted unchanged |
| Parsers.SelectJsonText | src/ada/modules/parsers.py:81-87 | the text handed to the decoder is stripped and holds no fenced block |
| Parsers.ParseJsonFromGemini | src/ada/modules/parsers.py:79-89 | the decoder gets the first fenced block of the stripped text when there is one and the stripped text otherwise; Parsers.ParseWithoutBlock and Parsers.ParseDecodesBlock state the two cases on the raw reply |
| Parsers.SelectIdempotent | src/ada/modules/parsers.py:81-87 | selecting from the selected text gives it back unchanged |
| Parsers.ParseWithoutBlock | src/ada/modules/parsers.py:81-89 | without a fenced block, the whole stripped reply is decoded |
| Parsers.ParseDecodesBlock | src/ada/modules/parsers.py:84-89 | with one, exactly the block's group is decoded |
| Parsers.ParseIgnoresSurroundingSpace | src/ada/modules/parsers.py:81-91 | whitespace around the reply does not change the parse result |

## Left out

- Audio capture, saving and deleting the WAV file, and speech-to-text (`record_audio`, `save_audio_file`, `transcribe_audio_file`). These are I/O, so the transcript is a parameter.
- The recogniser and audio stream of `continuous_listen`, including its queue, `AcceptWaveform` and `eval` of the result JSON. These are I/O and a foreign library. The loop is modelled over a finite sequence of finalised fragments.
- The workflows (configure, example code, view component, bash, shell, question, small talk, exit) and the remote model calls, editor and human-in-the-loop modules. These are foreign calls, so a workflow is a `Handler` value and a call is a `Dispatch`.
- `process_command` only prints. Its call is the emitted command.
- Reading `ACTIVATION_KEYWORD` from the environment. The keyword is a parameter, and `DefaultActivationKeyword` is the default. `main.py` passes the same keyword to the listening loop and to `on_activation_keyword_detected`, so the model uses one parameter for both.
- `json.loads`. JSON decoding is a parameter `decode` that returns `None` where the decoder raises `JSONDecodeError`. Two exceptions that escape the handler are not modelled: a `RecursionError` on deeply nested input, and the plain `ValueError` (not a `JSONDecodeError`) that `json.loads` raises for an integer literal longer than the interpreter's digit limit (4300 digits by default since Python 3.11). Neither is caught by the handler at src/ada/modules/parsers.py:90, so `parse_json_from_gemini` raises instead of returning `None`, and `decode: string -> Option<J>` cannot express a raise.
- The `AttributeError` path of `parse_json_from_gemini` and the `except` of `text_after_keyword`. The input is always a string in the model, and neither path can be reached with one.
- Text.Lower: lower-cases ASCII letters only. Python's `str.lower` also maps non-ASCII letters, and a few of them change length, so `text_after_keyword`'s index could then differ from the original-case string.
- Printing and logging.
