# healthcare-translator core, modelled in Dafny

The healthcare translator is a Next.js app. A patient and a provider each speak or type in
their own language, and a language model returns a corrected transcript, a translation
and suggestions. This project models the app's deterministic logic and proves properties
of it:

- **`parseOpenAIResponse`**. The `exec` loop of the global regular expression
  `\[([^\]]+)\]:\s*([\s\S]*?)(?=\n\[|$)` is modelled as a `while` loop over an explicit
  scanner. The scanner is proved to find exactly the matches the regular expression
  defines, leftmost first. The loop builds the list of trimmed `{heading, content}`
  sections and `corrected`.
- **`extractQuotedHeading`**: the first `"…"` run with at least one character, or the
  heading itself.
- **`getSpeechRecognitionErrorMessage`**: the SR-numbered message table.
- **`LANGUAGES`, `getLanguageLabel`, `getRoleLabel`**: the language table and the
  chat's display labels.
- **The `Panel` language guard**: the two drop-down handlers accept only table codes.
- **The useSpeechRecognition hook**: a class whose fields are `transcript`,
  `speechDetected`, `error`, `isListening`, the recognizer reference and the
  session's `fullTranscript`. Start, stop and the recognizer events are its methods.
  The `onresult` loop is proved against functions that describe the final text, the
  interim text and the `onFinalTranscript` calls.
- **The older `SpeechToText` component**: the same state machine, with the
  last-result rule and a fixed English recognizer.
- **`Home.handleTranslate`**: the three case-insensitive `Label:\s*(.*)` extractions,
  with the translation falling back to the whole reply.

ECMAScript semantics are written out by hand in `JsString`. `\s` and `trim` use the
WhiteSpace and LineTerminator code points of sections 12.2 and 12.3 of ECMA-262. The
RegExp `.` excludes line terminators. For ASCII labels, the `i` flag without `u`
ignores ASCII case only. Strings are sequences of Unicode scalar values. JavaScript
strings are UTF-16, but every character the core looks for lies in the Basic
Multilingual Plane and is not a surrogate, so the two views agree.

The browser's `SpeechRecognition` object is abstract: a `Recognizer` value holding the
settings a session gives it. Its events are method calls. Whether the browser provides
the constructor is a constructor argument. An exception thrown by the recognizer's
`start()` is a parameter, as is the engine's message for the `TypeError` the older
component catches.

## Model

| member | source | states |
|---|---|---|
| `Types.Role.Name` | src/types/index.ts:5 | A role is spelt `"Patient"` or `"Provider"` at run time. |
| `JsString.SkipSpace` | src/utils/parseOpenAIResponse.ts:3 | The greedy `\s*`: the run of white space from `i` is all white space, and it is followed by a non-space or the end. |
| `JsString.SkipSpaceBack` | src/utils/parseOpenAIResponse.ts:8-9 | The run of trailing white space before `j`, not going below `i`. |
| `JsString.Trim` | src/utils/parseOpenAIResponse.ts:8-9 | `.trim()` never lengthens a string, and what it returns has no white space at either edge. |
| `JsString.TrimSpec` | src/utils/parseOpenAIResponse.ts:8-9 | `trim` removes exactly the leading and trailing white space: what it keeps is a window whose two ends are white space only and whose first and last characters are not white space. |
| `JsString.TrimmedAtUnique` | src/utils/parseOpenAIResponse.ts:8-9 | Any two such windows of a string hold the same text, so the trimmed result is determined. |
| `JsString.TrimFixesExactlyEdgeFree` | src/utils/parseOpenAIResponse.ts:8-9 | `trim(s) == s` if and only if `s` has no white space at either edge. |
| `JsString.TrimIdempotent` | src/utils/parseOpenAIResponse.ts:8-9 | Trimming twice is trimming once. |
| `JsString.TrimIsWindow` | src/utils/parseOpenAIResponse.ts:8-9 | The trimmed string is a contiguous part of the original. |
| `JsString.WindowKeepsNoLineTerminator` | src/app/page.tsx:17-23 | A part of a string without line terminators has none either. |
| `JsString.TrimKeepsNoLineTerminator` | src/app/page.tsx:21-23 | Trimming a one-line string gives a one-line string. |
| `SectionParser.FindChar` | src/utils/parseOpenAIResponse.ts:3 | The first `]` (any character `c`) at or after `i`, or the end: no `c` before it. |
| `SectionParser.FindLineBracket` | src/utils/parseOpenAIResponse.ts:3 | Where the lazy content stops: the first `\n[` at or after `i`, or the end of the text. |
| `SectionParser.TryMatchAt` | src/utils/parseOpenAIResponse.ts:3 | A successful attempt anchored at `p` starts at `p` and lies inside the text. |
| `SectionParser.TryMatchAtSpec` | src/utils/parseOpenAIResponse.ts:3 | The anchored attempt succeeds exactly when the regular expression matches at `p`, and then returns that match. |
| `SectionParser.MatchIsUnique` | src/utils/parseOpenAIResponse.ts:3 | The regular expression matches at a position in at most one way, so backtracking order does not matter. |
| `SectionParser.Exec` | src/utils/parseOpenAIResponse.ts:3-6 | `exec` from `lastIndex`: a match found starts no earlier than `lastIndex`. |
| `SectionParser.ExecIsLeftmostMatch` | src/utils/parseOpenAIResponse.ts:3-6 | `exec` returns the leftmost match at or after `lastIndex`, and returns `null` only when there is none. |
| `SectionParser.Matches` | src/utils/parseOpenAIResponse.ts:6-11 | The chain of matches found by successive `exec` calls lies inside the text, at or after the starting index. |
| `SectionParser.MatchesAllMatch` | src/utils/parseOpenAIResponse.ts:3-11 | Every match in the chain is a match of the regular expression. |
| `SectionParser.MatchesOrdered` | src/utils/parseOpenAIResponse.ts:3-11 | The matches come in left-to-right order and do not overlap: an earlier one ends before a later one starts. |
| `SectionParser.ToSection` | src/utils/parseOpenAIResponse.ts:7-10 | The section one match adds: its heading and content are no longer than their captures and have no white space at their edges. |
| `SectionParser.MatchesStartsWithExec` | src/utils/parseOpenAIResponse.ts:6 | The chain is empty exactly when the first `exec` fails; otherwise it starts with that match. |
| `SectionParser.MatchesLinkByExec` | src/utils/parseOpenAIResponse.ts:6 | Each later match is what `exec` returns from the end of the match before it. |
| `SectionParser.MatchesEndWhenExecFails` | src/utils/parseOpenAIResponse.ts:6 | After the last match, `exec` returns `null`. |
| `SectionParser.SomeMatchIffMarker` | src/utils/parseOpenAIResponse.ts:3-6 | There is at least one section exactly when the text holds a `[heading]:` marker with a non-empty heading free of `]`. |
| `SectionParser.TrimKeepsNoCloseBracket` | src/utils/parseOpenAIResponse.ts:8 | Trimming a heading free of `]` leaves it free of `]`. |
| `SectionParser.TrimKeepsNoLineBracket` | src/utils/parseOpenAIResponse.ts:9 | Trimming content free of `\n[` leaves it free of `\n[`. |
| `SectionParser.MatchGivesHeading` | src/utils/parseOpenAIResponse.ts:3-8 | The heading a match yields holds no `]` and has no white space at its edges. |
| `SectionParser.MatchGivesContent` | src/utils/parseOpenAIResponse.ts:3-9 | The content a match yields holds no `\n[` and has no white space at its edges. |
| `SectionParser.MatchGivesWellFormedSection` | src/utils/parseOpenAIResponse.ts:3-9 | A match yields a heading without `]` and content without `\n[`, neither with white space at its edges. |
| `SectionParser.SectionsWellFormed` | src/utils/parseOpenAIResponse.ts:3-11 | Every section of every text is well formed in that sense. |
| `SectionParser.ExampleFirstExec` | src/utils/parseOpenAIResponse.ts:3-6 | The first `exec` on `"[A]: x\n[B]: y"` matches at 0 with heading `A` and content `x`, the content stopping at the `\n[`. |
| `SectionParser.ExampleSecondExec` | src/utils/parseOpenAIResponse.ts:3-6 | The next `exec`, resuming after the first match, matches at 7 with heading `B` and content `y`. |
| `SectionParser.ExampleTwoSectionsMatches` | src/utils/parseOpenAIResponse.ts:3-6 | `"[A]: x\n[B]: y"` has exactly two matches, at 0 and 7, with the content of the first ending at the `\n[`. |
| `SectionParser.ExampleTwoSections` | src/utils/parseOpenAIResponse.ts:7-11 | Those two matches of `"[A]: x\n[B]: y"` give the sections `(A, x)` and `(B, y)`, in that order. |
| `SectionParser.ExampleGreedySpaceMatches` | src/utils/parseOpenAIResponse.ts:3 | In `"[A]:\n[B]: y"`, the `\s*` consumes the newline, so there is one match running to the end. |
| `SectionParser.ExampleGreedySpace` | src/utils/parseOpenAIResponse.ts:3-11 | `"[A]:\n[B]: y"` gives the single section `(A, "[B]: y")`. |
| `SectionParser.ParseOpenAIResponse` | src/utils/parseOpenAIResponse.ts:1-17 | The sections are those of the leftmost-match chain from index 0, in order, each well formed. `corrected` is the first section's content, or `""` when there is no section or that content is empty. A text without a marker gives no sections and `corrected == ""`. |
| `QuotedHeading.NextQuote` | src/utils/extractQuotedHeading.ts:3 | The first `"` at or after `i`, or the end. |
| `QuotedHeading.FindQuoted` | src/utils/extractQuotedHeading.ts:3 | The search for `"([^"]+)"`: the leftmost pair of quotes with at least one character between them and no quote inside. It fails only when there is no such pair. |
| `QuotedHeading.ExtractQuotedHeading` | src/utils/extractQuotedHeading.ts:1-5 | The result is a substring of the heading, never longer. Without a quoted run it is the heading itself. With one, it is the inner text of the leftmost run, which is non-empty and holds no `"`. |
| `QuotedHeading.ExtractIdempotent` | src/utils/extractQuotedHeading.ts:3-4 | Applying the extraction to its own result changes nothing. |
| `QuotedHeading.TwoOccurrences` | src/utils/extractQuotedHeading.ts:3 | A quoted run needs two `"` characters. |
| `QuotedHeading.FewQuotesUnchanged` | src/utils/extractQuotedHeading.ts:3-4 | A heading with fewer than two `"` comes back unchanged. |
| `QuotedHeading.ExampleQuoted` | src/utils/extractQuotedHeading.ts:3-4 | `Heading ("Translation")` gives `Translation`. |
| `QuotedHeading.ExampleEmptyQuotesSkipped` | src/utils/extractQuotedHeading.ts:3 | Empty quotes are no match: `""ab"` gives `ab`. |
| `SpeechErrors.Tag` | src/hooks/speechRecognitionErrors.ts:25-50 | The bracketed SR tag is five characters longer than its number. |
| `SpeechErrors.CodeIndex` | src/hooks/speechRecognitionErrors.ts:22-47 | The `switch`: the position of the code among the eight known ones, or 8 when it is none of them. |
| `SpeechErrors.KnownTextParts` | src/hooks/speechRecognitionErrors.ts:25-46 | A known-code message is made of its SR tag, `[code]`, a space and the description, in that order. |
| `SpeechErrors.UnknownTextParts` | src/hooks/speechRecognitionErrors.ts:50 | The unknown-code message is `[SR-004]`, the `[unknown]` text, then the code and `)`. |
| `SpeechErrors.GetSpeechRecognitionErrorMessage` | src/hooks/speechRecognitionErrors.ts:21-51 | Total: every code gets a message. The message opens with `[SR-`, is longer than the code plus its eight-character tag, and holds the code verbatim. `KnownMessage` and `UnknownMessage` give its exact parts. |
| `SpeechErrors.KnownMessage` | src/hooks/speechRecognitionErrors.ts:22-46 | Each of the eight codes maps to its own SR number, `[code]` and its fixed description. The message starts with `[SR-`. |
| `SpeechErrors.UnknownMessage` | src/hooks/speechRecognitionErrors.ts:47-50 | Any other code gives `[SR-004][unknown] Speech recognition error occurred (code: <code>)`, which holds the code verbatim. |
| `SpeechErrors.KnownCodesDistinct` | src/hooks/speechRecognitionErrors.ts:22-46 | The eight `case` labels are pairwise different. |
| `SpeechErrors.NumbersDistinct` | src/hooks/speechRecognitionErrors.ts:25-46 | The eight known codes have pairwise different SR numbers, and only `no-speech` has 004. |
| `SpeechErrors.ShapeOf` | src/hooks/speechRecognitionErrors.ts:21-51 | Every message carries its SR number at positions 4 to 7. It carries the code right after the second `[` when the code is known, or at the end when it is not. |
| `SpeechErrors.MessageIdentifiesCode` | src/hooks/speechRecognitionErrors.ts:21-51 | Different codes give different messages. |
| `SpeechErrors.SharesTag004` | src/hooks/speechRecognitionErrors.ts:22-46 | Among the known codes, the tag is `[SR-004]` exactly for `no-speech`. |
| `SpeechErrors.OnlyNoSpeechSharesUnknownTag` | src/hooks/speechRecognitionErrors.ts:25-50 | Among the known codes, exactly `no-speech` shares the `[SR-004]` tag with unknown codes. |
| `Languages.IsSupported` | src/components/Panel.tsx:39 | `LANGUAGES.some(l => l.code === v)`: true exactly when some entry has code `v`. |
| `Languages.TableOrder` | src/constants/languages.ts:10-21 | The table has ten entries: en-US, es-ES, fr-FR, de-DE, pt-PT, ru-RU, sv-SE, zh-CN, tr-TR and ko-KR, in that order. |
| `Languages.CodesDistinct` | src/constants/languages.ts:11-20 | The codes are pairwise distinct, so a lookup by code is unambiguous. |
| `Languages.LabelsDistinct` | src/constants/languages.ts:11-20 | The labels are pairwise distinct. |
| `Languages.EntriesNonEmpty` | src/constants/languages.ts:11-20 | Every code and every label is non-empty, and no label equals any code. |
| `ChatUtils.FindLanguage` | src/utils/chatUtils.ts:12 | `LANGUAGES.find`: an entry of the table with the given code, or nothing when no entry has it. |
| `ChatUtils.GetLanguageLabel` | src/utils/chatUtils.ts:11-19 | The label of a table entry whose code is the given one, or the code itself when no entry has it. |
| `ChatUtils.LanguageLabelOfEntry` | src/utils/chatUtils.ts:11-19 | An entry's code gets that entry's label. |
| `ChatUtils.LanguageLabelOfUnknown` | src/utils/chatUtils.ts:13-16 | A code not in the table comes back unchanged. |
| `ChatUtils.LanguageLabelIsNameOrCode` | src/utils/chatUtils.ts:11-19 | The result is always a table label or the code itself. It is the code exactly when the code is not in the table. |
| `ChatUtils.GetRoleLabel` | src/utils/chatUtils.ts:28-34 | `"Provider"` becomes `"Health Care Provider"`. Every other sender, `"Patient"` included, is returned unchanged. |
| `ChatUtils.RoleLabelsDistinct` | src/utils/chatUtils.ts:28-34 | `Patient` gives `"Patient"`, `Provider` gives `"Health Care Provider"`, so the two roles get different labels. |
| `Panel.LanguagePanel.constructor` | src/components/Panel.tsx:21-32 | A panel starts with the settings its parent passes. |
| `Panel.LanguagePanel.HandleInputLangChange` | src/components/Panel.tsx:37-44 | `setInputLang(v)` happens exactly when `v` is a table code. Otherwise `inputLang` is unchanged. `targetLang` is never touched, and valid settings stay valid. |
| `Panel.LanguagePanel.HandleTargetLangChange` | src/components/Panel.tsx:50-57 | `setTargetLang(v)` happens exactly when `v` is a table code. Otherwise `targetLang` is unchanged. `inputLang` is never touched, and valid settings stay valid. |
| `Panel.InitialSettingsValid` | src/components/DualPanelChat.tsx:12-18 | The panels' starting languages, `en-US` and `es-ES`, are table codes. |
| `Recognition.OnErrorMessage` | src/hooks/useSpeechRecognition.ts:49-58 | `onerror` shows the generic `Speech recognition error occurred` exactly for codes other than `no-speech`, `audio-capture` and `not-allowed`. |
| `Recognition.OnErrorMessageDistinct` | src/components/SpeechToText.tsx:52-61 | Each of those three codes has a message of its own. |
| `SpeechSession.Handled` | src/hooks/useSpeechRecognition.ts:35 | The results from `resultIndex` on, which are never more than the event's results. |
| `SpeechSession.FinalTextAppend` | src/hooks/useSpeechRecognition.ts:35-39 | Final text is appended result by result, in order: the text for a concatenation is the concatenation of the texts. |
| `SpeechSession.InterimTextAppend` | src/hooks/useSpeechRecognition.ts:42-44 | The same holds for the interim text. |
| `SpeechSession.FinalCallbacksAppend` | src/hooks/useSpeechRecognition.ts:38-41 | The `onFinalTranscript` calls for a concatenation are those for the first part, followed by those for the second part on top of what the first accumulated. |
| `SpeechSession.OneCallbackPerFinal` | src/hooks/useSpeechRecognition.ts:38-41 | `onFinalTranscript` is called exactly once per final result. |
| `SpeechSession.CallbacksTrimmed` | src/hooks/useSpeechRecognition.ts:41 | Every value passed to `onFinalTranscript` is trimmed. |
| `SpeechSession.InterimOnly` | src/hooks/useSpeechRecognition.ts:42-44 | Non-final results never change `fullTranscript` and trigger no callback. |
| `SpeechSession.FinalOnly` | src/hooks/useSpeechRecognition.ts:38-41 | Final results add nothing to the interim text. |
| `SpeechSession.SpeechRecognitionHook.constructor` | src/hooks/useSpeechRecognition.ts:7-11 | The hook starts with an empty transcript, no error, not listening and no recognizer. |
| `SpeechSession.SpeechRecognitionHook.StartListening` | src/hooks/useSpeechRecognition.ts:13-80 | With no browser support, the error is `Failed to start speech recognition: Speech recognition is not supported in this browser.` When already listening, it is `…: Already listening. Stop current session first.`, and a failing `start()` reports its own message. In each of those cases `isListening` becomes false and no session is created. Otherwise the new recognizer uses `inputLang` with continuous and interim results; `fullTranscript` is reset to `""`, listening starts and the error is cleared. |
| `SpeechSession.SpeechRecognitionHook.StopListening` | src/hooks/useSpeechRecognition.ts:82-94 | With no recognizer, the only change is the error `Error stopping recognition: No active recognition session`. Otherwise `isListening`, `speechDetected` and `error` are cleared. |
| `SpeechSession.StepState` | src/hooks/useSpeechRecognition.ts:36-44 | One more result moves the loop's final text, interim text and callback list to their values for the longer prefix of results. |
| `SpeechSession.HandleResults` | src/hooks/useSpeechRecognition.ts:33-45 | The loop over the results from `resultIndex` on gives the final text accumulated on top of the earlier one, the interim text of the event and one `onFinalTranscript` value per final result. |
| `SpeechSession.SpeechRecognitionHook.OnResult` | src/hooks/useSpeechRecognition.ts:33-47 | The results from `resultIndex` on, in order, are processed as follows. Each final one appends its text and a space to `fullTranscript`. `transcript` becomes `fullTranscript` followed by the interim texts. The `onFinalTranscript` values are one per final result. Nothing else changes, and `fullTranscript` remains a prefix of `transcript`. |
| `SpeechSession.SpeechRecognitionHook.OnError` | src/hooks/useSpeechRecognition.ts:49-61 | The error becomes the three-code message, and listening and speech detection stop. |
| `SpeechSession.SpeechRecognitionHook.OnSpeechStart` | src/hooks/useSpeechRecognition.ts:63 | `speechDetected` becomes true, nothing else changes. |
| `SpeechSession.SpeechRecognitionHook.OnSpeechEnd` | src/hooks/useSpeechRecognition.ts:64 | `speechDetected` becomes false, nothing else changes. |
| `SpeechSession.SpeechRecognitionHook.OnEnd` | src/hooks/useSpeechRecognition.ts:65-70 | `isListening` and `speechDetected` become false; the transcripts stay. |
| `SpeechSession.SpeechRecognitionHook.SetIsListening` | src/hooks/useSpeechRecognition.ts:101 | The exported setter changes `isListening` only. |
| `SpeechToText.LastResultDecides` | src/components/SpeechToText.tsx:44 | Results before the last one have no influence. |
| `SpeechToText.SpeechToTextComponent.constructor` | src/components/SpeechToText.tsx:19-22 | Empty transcript, no error, no recognizer. |
| `SpeechToText.SpeechToTextComponent.StartListening` | src/components/SpeechToText.tsx:24-81 | Unsupported, already listening, or a failing `start()`: the matching `Failed to start speech recognition: …` error is set, `isListening` becomes false and the recognizer is kept. Otherwise the recognizer is always `en-US`, continuous and without interim results; listening starts and the error is cleared. |
| `SpeechToText.SpeechToTextComponent.StopListening` | src/components/SpeechToText.tsx:83-96 | With no recognizer, only the `No active recognition session` error is set. Otherwise `isListening`, `speechDetected` and `error` are cleared. |
| `SpeechToText.SpeechToTextComponent.OnResult` | src/components/SpeechToText.tsx:42-50 | The last result's first alternative becomes `transcript`, and that same string is passed to `onTranscript`. When it does not exist, the error is `Error processing speech result: ` followed by the engine's message. |
| `SpeechToText.SpeechToTextComponent.OnError` | src/components/SpeechToText.tsx:52-64 | The error becomes the three-code message, and both flags are cleared. |
| `SpeechToText.SpeechToTextComponent.OnSpeechStart` | src/components/SpeechToText.tsx:66 | `speechDetected` becomes true. |
| `SpeechToText.SpeechToTextComponent.OnSpeechEnd` | src/components/SpeechToText.tsx:67 | `speechDetected` becomes false. |
| `SpeechToText.SpeechToTextComponent.OnEnd` | src/components/SpeechToText.tsx:68-71 | `isListening` and `speechDetected` become false. |
| `HomePage.FindLabel` | src/app/page.tsx:17-19 | The first position at or after `from` where the label occurs, ignoring ASCII case. It fails only when there is none. |
| `HomePage.LineEnd` | src/app/page.tsx:17-19 | The greedy `(.*)`: it stops at the first line terminator or at the end. |
| `HomePage.MatchLabel` | src/app/page.tsx:17-19 | `text.match(/label\s*(.*)/i)?.[1]`: a capture, when there is one, is no longer than the text and holds no line terminator. `MatchLabelSpec` and `MatchLabelCapture` give where it is taken. |
| `HomePage.MatchLabelSpec` | src/app/page.tsx:17-19 | A capture exists exactly when the label occurs somewhere, ASCII letter case ignored. |
| `HomePage.MatchLabelCapture` | src/app/page.tsx:17-19 | The capture is taken at the first occurrence of the label, after all the white space that follows it (newlines included), and runs up to the next line terminator, so it holds none. |
| `HomePage.CaptureIsOneLine` | src/app/page.tsx:17-23 | The capture, trimmed or not, holds no line terminator. |
| `HomePage.CaseInsensitive` | src/app/page.tsx:17-19 | Labels that differ only in ASCII case are found at the same position. |
| `HomePage.MatchIgnoresCase` | src/app/page.tsx:17-19 | Labels that differ only in ASCII case capture the same text. |
| `HomePage.FoldedIdempotent` | src/app/page.tsx:17-19 | Upper-casing the ASCII letters of a string twice is upper-casing them once. |
| `HomePage.MatchAsUpperCase` | src/app/page.tsx:17-19 | A label captures exactly what its ASCII upper-case spelling captures. |
| `HomePage.OneLabel` | src/app/page.tsx:17-23 | There is no capture exactly when the label is absent. A capture, once trimmed, is one line with no edge white space. |
| `HomePage.ExtractLabelled` | src/app/page.tsx:17-23 | The correction and the suggestions are single lines; the translation is a single line or the whole reply. |
| `HomePage.ExtractLabelledSpec` | src/app/page.tsx:17-23 | `correction` and `suggestions` are trimmed single lines, `""` when their label is absent. `translation` is a trimmed single line, or the whole reply when `Translation:` is absent. |
| `HomePage.ExampleNextLine` | src/app/page.tsx:17-19 | `translation:\n hola\nx` matches `Translation:` in lower case, skips the newline and captures `hola`. |

## Left out

- Streaming and network code are not modelled: the `fetch` calls and their stream readers, the API route with its Azure OpenAI client, `translateText`, and the middleware. They are I/O and remote calls.
- Rendering is not modelled: the JSX of every component, `ChatMessage`, `TranslationOutput`, `PrivacyNotice` (local storage) and speech synthesis.
- The `ParsedAIResponse` interface is not modelled, because `parseOpenAIResponse` never produces it. It returns only `sections` and `corrected`; the section records it does return are `Types.Section`.
- `console.error` logging is not modelled. It is observability only; the SR-004 log line of the unknown-code branch is one example.
- The calls `start()` and `stop()` on the recognizer are not modelled. A `start()` that throws is represented by the `startError` parameter. A throwing `stop()` is not modelled.
- Events from a recognizer whose session was replaced by a newer `startListening` are not modelled: each event is delivered to the current session.
- React's stale-closure reads of `isListening` and the batching of state updates are not modelled: each handler sees the latest state.
- An exception thrown synchronously by the `onTranscript` or `onFinalTranscript` callbacks is not modelled.
- In the hook, a result's text is the transcript of its first alternative, `result[0].transcript`. A result without alternatives, which would throw there, is not modelled.
- JavaScript strings are modelled as sequences of Unicode scalar values rather than UTF-16 code units.
- `SpeechErrors.GetSpeechRecognitionErrorMessage`: the message is assembled as tag + `[code] ` + description from the constant tables, in the order of the `switch`. Each assembled string is character for character the source's literal. The contracts state each message through its parts (`KnownMessage`, `UnknownMessage`) rather than as one string literal.
- `Languages.Language`: the entry field `label` is called `name`, because `label` is a reserved word in Dafny.
