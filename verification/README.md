# AI language tutor relay: a Dafny model of its string and history logic

The relay backend (`backend/server.js`) receives transcribed speech and
translates it to English with DeepL. It asks a local Ollama model for a reply
and post-processes that reply. It then translates the reply back and returns
everything as JSON. Around these network calls sit a few pure pieces, and
this project models and proves them:

- `Emoji.RemoveEmojis`: emoji stripping. It deletes six fixed code-point
  ranges and keeps everything else in order.
- `ReplyFilter.FilterToApprovedWords`: the reply post-processing. It returns a
  fixed fallback sentence for short replies. Otherwise it upper-cases the
  first character and appends a full stop. It never looks at the
  approved-word list.
- `Conversation`: the process-wide conversation memory. Each successful model
  call pushes a user entry and an assistant entry, and the buffer is cut back
  to 12 entries. Prompts read only its last 6 entries.
- `Prompt`: the approved-word list (first 50 words, joined by `", "`) and the
  prompt template with its optional "Recent conversation" block.
- `DeepL`: the per-language canned fallback when a translation fails.
- `Server`: the model call (`callOllamaQwen2`), the `wordsUsed` tokeniser and
  the route handler as one pure function. The two remote services and the
  Unicode case mappings are parameters.
- `JsText` and `Seqs`: the JavaScript primitives these rely on. They cover
  `.length` in UTF-16 code units, `trim()`, `split(/\s+/)`, `filter`, `join`
  and `slice(-n)`.

Strings are sequences of Unicode code points. `.length` is modelled as
`Utf16Length`, where a code point above U+FFFF counts two units, as in
JavaScript. A failed remote call is `None`. The proofs bring out these facts
about the code as written:

- The comparison with `"Error"` in `filterToApprovedWords` never decides
  anything, because that string is already shorter than 10 units.
- The fallback sentence is the only possible output that does not end in a
  full stop.
- The model's answer is trimmed before its emoji are removed. So an emoji at
  either end of the answer can leave whitespace at that end of the stored
  reply. The two ends then behave differently:
  - At the end, a space appears before the appended full stop
    (`StoredReplyCanEndInSpace`).
  - At the start, the whitespace becomes the "first character" that gets
    upper-cased. Upper-casing leaves whitespace as it is, so no letter of the
    reply is capitalised and the reply comes back with only a full stop
    appended (`StoredReplyCanStartWithSpace`).

## Model

| member | source | states |
|---|---|---|
| JsText.Utf16Length | backend/server.js:184 | `reply.length` counts code units: between one and two per code point, zero exactly for the empty string |
| JsText.Trim | backend/server.js:159 | `trim()` returns the infix left after removing whitespace from both ends; everything removed is whitespace; the result neither starts nor ends with whitespace; whitespace-free text is unchanged |
| JsText.TrimIdempotent | backend/server.js:159 | trimming twice equals trimming once |
| JsText.SplitOnSpaces | backend/server.js:79 | `split(/\s+/)` yields at least one piece; no piece holds whitespace; every piece but the first and last is non-empty; text without whitespace is one piece |
| JsText.SplitKeepsEverythingButSpaces | backend/server.js:79 | the pieces concatenated are exactly the input with whitespace removed (nothing lost, duplicated or reordered) |
| JsText.SplitRebuilds | backend/server.js:79 | every string is its split pieces with its whitespace runs put back between them; the runs are one fewer than the pieces, each non-empty and all whitespace |
| JsText.SplitRoundTrip | backend/server.js:79 | for any whitespace-free pieces (inner ones non-empty) separated by any non-empty whitespace runs, splitting the joined string gives back exactly those pieces; with `SplitRebuilds` this fixes where every cut falls |
| Emoji.RemoveEmojis | backend/server.js:120-122 | the result holds no code point of the six ranges and is no longer than the input |
| Emoji.RemoveEmojisCounts | backend/server.js:121 | every code point outside the ranges keeps its number of occurrences; every code point inside them is gone |
| Emoji.RemoveEmojisConcat | backend/server.js:121 | stripping works piecewise over concatenation, so kept code points stay in their original order |
| Emoji.RemoveEmojisKeepsEmojiFree | backend/server.js:121 | text with no emoji passes through unchanged |
| Emoji.RemoveEmojisIdempotent | backend/server.js:121 | stripping twice equals stripping once |
| ReplyFilter.FilterToApprovedWords | backend/server.js:183-189 | the result is the fallback sentence exactly when the reply is under 10 code units; otherwise it ends in `.` and everything before it is the upper-cased head followed by `reply[1..]` unchanged; the fallback does not end in `.`; no word list is consulted |
| ReplyFilter.UnchangedHeadKeepsReply | backend/server.js:184-188 | a reply of at least 10 code units whose first code point is above U+FFFF (its lone high surrogate is not case-mapped and `slice(1)` restores it) or has no upper-case form comes back as the reply itself plus `.` |
| ReplyFilter.ErrorMarkerIsShort | backend/server.js:184 | the string "Error" is shorter than 10 code units, so its own test is subsumed by the length test |
| Conversation.Record | backend/server.js:164-170 | after an update the history has min(old length + 2, 12) entries; the last two are the user entry (input, language) and the assistant entry (reply); the ones before are the most recent prior entries in order |
| Conversation.Recent | backend/server.js:128 | the prompt context is the last min(length, 6) entries of the history, in order |
| Conversation.RecordPreservesWellFormed | backend/server.js:164-170 | an update keeps the history at most 12 entries, even in length, with user entries at even and assistant entries at odd positions |
| Conversation.ReplayIsLastOfTranscript | backend/server.js:164-170 | from the empty start-up buffer, the history after any run of successful calls is exactly the last 12 entries of everything ever pushed |
| Conversation.ReplayWellFormed | backend/server.js:164-170 | from the empty start-up buffer, every reachable history is well formed (bounded, even, alternating user/assistant) |
| Conversation.RecentIsWholeExchanges | backend/server.js:128 | in a well-formed history the prompt context has an even number of entries and opens with a user entry |
| Prompt.ApprovedWordsList | backend/server.js:10 | the list is the full comma-joined word list when there are at most 50 words; otherwise the full list continues past it with one separator and the words from the 51st on |
| Prompt.ContextLine | backend/server.js:129 | a `role: content` line ends with `": "` and the content verbatim, and starts with `user: ` exactly for a user turn and with `assistant: ` exactly for an assistant turn; its length is that label's plus the content's, so nothing else sits between them |
| Prompt.ContextLines | backend/server.js:129 | one line per context entry, in order, line `i` ending with entry `i`'s content |
| Prompt.BuildPrompt | backend/server.js:131-141 | the prompt starts with the instructions followed by the word list and ends with the quoted input followed by the closing instruction |
| Prompt.RecentLinesInPrompt | backend/server.js:128-137 | the `role: content` line of each of the last six entries occurs somewhere in the prompt |
| Prompt.BlockInPrompt | backend/server.js:128-137 | with a non-empty history the prompt contains the heading `Recent conversation:`, then the last six entries' lines joined by line breaks, oldest first, then a blank line |
| Prompt.RecentLinesInOrder | backend/server.js:128-129 | the line of each recent entry is followed in the prompt, after one line break, by the line of the entry recorded after it |
| Prompt.ContextBlockIffHistory | backend/server.js:137 | the "Recent conversation" block is emitted exactly when the history is non-empty |
| Prompt.PromptWithoutHistory | backend/server.js:131-141 | with an empty history the prompt is instructions, word list, rules, and the quoted input, with no conversation block |
| Prompt.PromptIgnoresOlderEntries | backend/server.js:128-141 | entries older than the last 6 cannot change the prompt |
| DeepL.FallbackFor | backend/server.js:110-116 | the fallback is never empty; it is the canned greeting of a listed language, and the default sentence exactly for unlisted languages |
| DeepL.EnglishGreetingOnlyForEnglish | backend/server.js:110-116 | the English greeting is the fallback exactly for target "EN" |
| DeepL.Translate | backend/server.js:91-117 | a successful call returns the service's translation; a failed one returns a non-empty string that is the default sentence exactly when the target language has no canned reply; so an empty result can only come from the service itself |
| DeepL.FailureLooksLikeFallbackTranslation | backend/server.js:106-116 | a failed call and a call that translates to the canned reply give the caller the same string, so failures cannot be detected downstream |
| Server.CallModel | backend/server.js:125-179 | the history is either untouched or has exactly this exchange recorded, and a well-formed history stays well formed; failure gives "Error" and the untouched history; success stores an emoji-free reply |
| Server.CallModelKeepsAnswer | backend/server.js:159-161 | every code point of the trimmed answer that is not an emoji occurs in the stored reply exactly as often as in the answer; no emoji occurs in it |
| Server.WordsUsed | backend/server.js:79 | every reported word is non-empty, whitespace-free and longer than one code unit; a string is reported exactly when it is a piece of the split longer than one code unit, and as many times as it occurs in the split |
| Server.WordsUsedOfSpacedWords | backend/server.js:79 | for words separated by any non-empty whitespace runs, the report is exactly the words longer than one code unit, in order and with repeats; when every word is that long, the words come back unchanged |
| Server.ProcessSpeech | backend/server.js:49-87 | a request always yields a response echoing the text, the target language (default "ES") and the word count; the history either stays the same or records this request's English input and stored reply |
| Server.ProcessSpeechKeepsHistoryWellFormed | backend/server.js:49-87 | requests keep the shared history well formed |
| Server.ProcessSpeechReplyShape | backend/server.js:60-79 | the returned text is the fallback exactly when the stored reply is under 10 code units (always after a failed model call) and otherwise ends in `.`; reported words are whitespace-free and longer than one code unit |
| Server.ProcessSpeechFailures | backend/server.js:55-67 | a failed inbound translation makes the English input "Hello! How are you?"; a failed model call leaves the history unchanged and returns the fallback sentence |
| Server.AlwaysFailingTranslator | backend/server.js:55-67 | when every translation fails, the model is asked about "Hello! How are you?" and the user gets the canned reply for the practice language |
| Server.TrailingEmojiStripped | backend/server.js:159-161 | a visible-led, emoji-free text followed by one emoji is stored as that text, trailing whitespace included |
| Server.StoredReplyCanEndInSpace | backend/server.js:159-188 | such an answer is remembered as that text, and when it ends in whitespace the post-processed reply has whitespace right before its final `.` |
| Server.LeadingEmojiStripped | backend/server.js:159-161 | one emoji followed by an emoji-free text that ends visibly is stored as that text, leading whitespace included |
| Server.StoredReplyCanStartWithSpace | backend/server.js:159-188 | such an answer is remembered as that text, and when it starts with whitespace (which upper-casing leaves alone) the post-processed reply is that text plus `.`, with no letter capitalised |

## Left out

- The Express application, CORS, dotenv, the `/` and `/test` routes, `app.listen`, `process.exit` and all console logging: framework and process plumbing.
- The HTTP requests to DeepL and Ollama, with their headers, request bodies, model options and timeouts. They are external services. Each is a function parameter whose failure is `None`.
- The start-up file read of the word list. The list is a parameter.
- `approvedSet`: it is built at start-up but never read. The word list itself is a parameter of `ProcessSpeech`. It enters only the prompt text (`ApprovedWordsList`) and the reported `approvedWordsCount`, which is its length.
- Interleaving of concurrent requests on the shared history. The model has one sequential caller.
- Unicode case mapping. `toUpperCase` of one character and `toLowerCase` of a string are abstract parameters.
- Lone surrogates. JavaScript strings may hold them; the model's strings hold only Unicode scalar values.
- The HTTP 500 branch of the route. Every helper it calls catches its own failures, so within this model the handler always produces a response.
- A DeepL reply without a `text` field: the source returns `undefined` without throwing. The model treats every service answer as a string or a failure.
- Fallback lookup through inherited object properties, for example a target language of `"toString"`. The lookup is modelled as a plain map.
- An absent `reply` in `filterToApprovedWords`: its only caller always passes a string. The empty string is covered by the length test.
- Server.WordsUsed: states the reported words are pieces of the lower-cased text, not that each is itself lower-case, because lower-casing is an abstract parameter.
- Server.ProcessSpeech: its own contract states only "unchanged or one exchange recorded". The failure, well-formedness and reply-shape facts are in the three `ProcessSpeech…` lemmas.
- The browser client (`frontend/src/App.js`): React state, speech recognition and synthesis, and the speed slider. Its emoji regex sits in an inner function that is never called.
