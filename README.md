# QuickReply AI — a Dafny model of its key-rotating client and typewriter reveal

QuickReply AI is a single-page React app. It takes a pasted message, asks the
Gemini generative-language API for the message's language, for a subject line
and for a reply in the chosen tone, and then reveals the reply one character
at a time. There are two pieces of real logic, and this project models and
proves both.

- **The client `callGemini`, in `src/components/gemini.js`.**
  - It tries an ordered list of API keys.
  - After a thrown fetch or JSON error, or after a quota failure (HTTP 429, or
    "quota" anywhere in the error message, in any case), it moves on to the
    next key.
  - At any other failure it stops and returns `❌ Gemini error: …`.
  - On success it returns the trimmed text, or the empty-content sentinel when
    that text is missing or blank.
  - When every key fails it returns the exhaustion sentinel.
  - Two operations are built on it. `analyzeLanguageAndSubject` trims the
    language and cleans the subject (drop `* " ' .`, trim, keep 50
    characters). `generateSmartReply` passes the client's string through.
- **The page state, in `src/App.jsx`.**
  - The typewriter reveal is an interval timer that appends one character per
    tick and cancels itself at the end. Starting a new reveal cancels the old
    one.
  - The generate handler has a blank-message guard.
  - Clear resets the reply and the message, and the unmount cleanup closure
    cancels the timer.

Files:

- `wrappers.dfy` holds `Option`.
- `strings.dfy` holds the JavaScript string operations the code relies on:
  - `trim`, over the exact ECMAScript whitespace set;
  - `toLowerCase`;
  - `includes`, with a proof that it agrees with "occurs at some position";
  - `slice`.
- `gemini.dfy` models the client.
  - The HTTP endpoint is an oracle `Network`. It maps a `Request` (prompt, key,
    attempt index) to an `Outcome`: either `Throw`, or a response with status,
    `ok`, `error.message`, `statusText` and the first-part text of each
    candidate.
  - Each outcome is sorted into a `Verdict`.
  - `Complete` is the reference definition of a call.
  - `Settles` is the rotation rule stated declaratively.
  - `CallGemini` is the loop itself. It is proved to record the attempted
    indices `0, 1, …`, to obey the rule and to agree with `Complete`.
- `app.dfy` has the class `App`. Its fields are:
  - the React state;
  - `intervalRef`;
  - the set of live timers;
  - the reveal closure's `text`, `i` and `typed`.
  
  Its invariant `Valid` says two things. At most one timer is live, and it is
  the one `intervalRef` holds. Also, `typed == text[..i]` with
  `i <= |text|`.

Three consequences of the code are worth stating:

- **The analysis fallback is never taken.** The fallback `{English, ""}` is
  taken only when an exception escapes. `callGemini` never throws, since it
  turns every error into a string. So when every key fails, the language is
  the exhaustion sentinel (`AnalysisKeepsSentinel`). The language is never
  empty (`AnalysisLanguageShown`).
- **The subject cleanup is not idempotent.** Truncation to 50 characters can
  leave a trailing space, which a second cleaning trims
  (`CleanSubjectNotIdempotent`, `CleanSubjectTwice`). On clean input the
  cleanup changes nothing (`CleanSubjectKeepsClean`).
- **A running reveal races the generate handler.** `handleGenerate` is split
  at its two `await`s (`HandleGenerate`, `ReceiveAnalysis`, `ReceiveReply`),
  and `Generate` lets the reveal timer tick in between. A reveal that is still
  running when Generate is clicked overwrites "Generating..." with its own
  prefixes until the new reveal starts. So the progress text is promised only
  when no reveal was running (`Generate`, `GenerateRaceScenario`).

## Model

| member | source | states |
|---|---|---|
| Strings.Trim | src/components/gemini.js:42 | `trim()` leaves no whitespace at either end. Its result is the slice of the input that starts right after the leading whitespace, and everything outside that slice is whitespace. An already-trimmed string is unchanged. |
| Strings.TrimIdempotent | src/components/gemini.js:70 | Trimming twice gives what trimming once gives. |
| Strings.ToLower | src/components/gemini.js:35 | `toLowerCase()` keeps the length and lower-cases each letter in place. |
| Strings.Includes | src/components/gemini.js:35 | `includes(sub)` tries each start position from the left. The empty string is always included, and a match needs `sub` no longer than `s`. Its exact meaning is stated by `IncludesIff`. |
| Strings.TrimVisible | src/components/gemini.js:70 | Trimming a string that starts with a non-whitespace character keeps that character first, so the result is not empty. |
| Strings.IncludesIff | src/components/gemini.js:35 | `includes(sub)` holds exactly when `sub` occurs at some position. Both directions are proved. |
| Strings.IncludesAnyCase | src/components/gemini.js:35 | The lower-cased message contains "quota" whenever some slice of the message lower-cases to "quota", whatever its original case. |
| Strings.Take | src/components/gemini.js:67 | `slice(0, n)` is a prefix of length `min(|s|, n)`. |
| Gemini.PromptQuotes | src/components/gemini.js:56-97 | The language, subject and reply prompts each contain the message verbatim. The reply prompt also contains the tone and the language. |
| Gemini.Prompt.Text | src/components/gemini.js:56-97 | The three prompt templates, word for word. What they are proved to contain is stated by `PromptQuotes`. |
| Gemini.ErrorMessage | src/components/gemini.js:34 | The error text is `error.message` when it is present and non-empty. When the message is missing or empty, it is `statusText`, as with `\|\|`. It is empty only when `statusText` is. |
| Gemini.Classify | src/components/gemini.js:33-43 | Sorts an attempt's outcome into one of five verdicts. It has no contract of its own; its behaviour is pinned down by `RotatesIffTransient`, `HardErrorStops`, `SuccessStops` and `ClassifyEndsVisibly`. |
| Gemini.ClassifyEndsVisibly | src/components/gemini.js:39-43 | Every attempt that ends the call gives a string starting with a non-whitespace character. This covers the `❌` error string, the empty-content sentinel and the trimmed non-empty text. |
| Gemini.RotatesIffTransient | src/components/gemini.js:33-46 | An attempt moves on to the next key exactly when it threw, or when it failed with status 429 or with "quota" in its lower-cased message. |
| Gemini.SettleFrom | src/components/gemini.js:19-50 | From key `i` on, a call makes at least one attempt when a key is left, and never more attempts than there are keys. |
| Gemini.SettlesUnique | src/components/gemini.js:19-50 | The rotation rule admits one result and one attempt count per sequence of outcomes. |
| Gemini.SettleFromObeysRule | src/components/gemini.js:19-50 | The reference definition obeys the rotation rule: every attempt but the last rotated, and the last one either stopped the call with its reply, or the keys ran out and the result is the exhaustion sentinel. |
| Gemini.SkipRotating | src/components/gemini.js:33-46 | Attempts that throw or hit quota are skipped: the call goes on as if it started at the next key. |
| Gemini.StopsAt | src/components/gemini.js:39-43 | The first attempt that neither throws nor hits quota ends the call with its reply, after exactly that many attempts. |
| Gemini.ExhaustsAll | src/components/gemini.js:50 | When every attempt rotates, the result is the exhaustion sentinel after exactly as many attempts as there are keys. |
| Gemini.SettleFromVisible | src/components/gemini.js:19-50 | When every attempt that ends the call gives a visibly starting string, so does the call, the exhaustion sentinel included. |
| Gemini.ReplyStartsVisible | src/components/gemini.js:10-51 | Whatever the network does, the client's string is non-empty and starts with a non-whitespace character. |
| Gemini.CallGemini | src/components/gemini.js:10-51 | Keys are tried in list order. The attempted indices are exactly `0, …, k-1`, with `k` at most the number of keys, and no index repeats. Result and `k` obey the rotation rule and equal the reference `Complete`. The result is never empty. |
| Gemini.TransientsRotate | src/components/gemini.js:33-46 | Keys whose attempts throw or hit quota all rotate. |
| Gemini.AllKeysFail | src/components/gemini.js:19-50 | If every attempt throws or hits quota, the result is the exhaustion sentinel after all N keys. |
| Gemini.QuotaThenSuccess | src/components/gemini.js:19-50 | If keys 1 to N-1 hit quota and key N answers with text, the trimmed text comes back after exactly N attempts. |
| Gemini.HardErrorStops | src/components/gemini.js:33-39 | A non-quota failure at key k (a non-ok status, or ok with zero candidates) returns `❌ Gemini error: ` plus the error text after exactly k+1 attempts. No later key is tried. |
| Gemini.SuccessStops | src/components/gemini.js:42-43 | A successful response at key k returns the trimmed first-part text after exactly k+1 attempts. When that text is missing or blank, it returns the empty-content sentinel instead. |
| Gemini.StripNoise | src/components/gemini.js:65 | After `replace(/[*"'.]/g, '')` no `* " ' .` is left. The result is no longer than the input, and an input without them is unchanged. |
| Gemini.StripNoiseAppend | src/components/gemini.js:65 | Deleting the noise characters works piece by piece and keeps their order. |
| Gemini.StripNoiseKeepsText | src/components/gemini.js:65 | Every other character is kept as often as it occurs. |
| Gemini.CleanSubject | src/components/gemini.js:64-67 | The cleaned subject has at most 50 characters, no `* " ' .` and no leading whitespace. It is the prefix of length `min(|T|, 50)` of the stripped and trimmed subject `T`, so a shorter subject is kept whole. |
| Gemini.CleanSubjectKeepsClean | src/components/gemini.js:64-67 | A subject without noise characters, without surrounding whitespace and at most 50 characters long comes back unchanged. |
| Gemini.CleanSubjectIgnoresNoise | src/components/gemini.js:64-67 | Inserting a noise character anywhere does not change the cleaned subject. |
| Gemini.CleanSubjectTwice | src/components/gemini.js:66-67 | Cleaning a cleaned subject only trims it. |
| Gemini.CleanSubjectNotIdempotent | src/components/gemini.js:64-67 | There is a subject that a second cleaning changes: 49 letters, a space and a letter. |
| Gemini.SentinelsTrimmed | src/components/gemini.js:43-50 | The empty-content and exhaustion sentinels have no surrounding whitespace, so trimming keeps them. |
| Gemini.AnalysisOf | src/components/gemini.js:64-79 | An exception from either call gives the fallback `{English, ""}`. On both branches the language is trimmed and the subject has at most 50 characters and no noise characters. |
| Gemini.AnalyzeLanguageAndSubject | src/components/gemini.js:54-80 | The analysis is built from one reference call with the language prompt and one with the subject prompt. |
| Gemini.AnalysisKeepsSentinel | src/components/gemini.js:69-71 | When every key fails for the language call, the language is the exhaustion sentinel, not "English". |
| Gemini.AnalysisLanguageShown | src/components/gemini.js:69-70 | Whatever the network does, the detected language is non-empty, so the language line that App.jsx renders when `meta.language` is truthy always appears. |
| Gemini.GenerateSmartReply | src/components/gemini.js:83-100 | The reply is the reference call's string for the reply prompt, returned verbatim, error sentinels included. It is never empty. |
| App.Reveal | src/App.jsx:15-19 | After n ticks, n values have been published. |
| App.RevealPrefixes | src/App.jsx:16-19 | The k-th value published is the prefix of the text of length k+1. |
| App.RevealGrowsByOne | src/App.jsx:16-19 | Each published value extends the previous one by exactly one character, and the last value of a finished reveal is the whole text. |
| App.App.constructor | src/App.jsx:5-10 | The initial state: empty message and reply, tone "formal", empty metadata, not loading, no timer. |
| App.App.TypeWriterEffect | src/App.jsx:12-15 | Starting a reveal cancels the previous timer and schedules exactly one new one, held by `intervalRef`. Cursor and accumulator restart at the start of the text, and nothing else in the page state changes. |
| App.App.Tick | src/App.jsx:15-23 | While the cursor is inside the text, a tick appends one character, keeps `typed == text[..i]`, publishes it to `reply` and extends the published sequence by it. At the end it cancels its timer and publishes nothing. A cancelled timer does nothing. |
| App.App.HandleGenerate | src/App.jsx:26-30 | The handler up to its first `await`. A blank message (after trimming) only sets the warning, and metadata and loading are untouched. Otherwise loading starts, the reply shows "Generating..." and the metadata is reset. The reveal timer and its closure are untouched either way. |
| App.App.ReceiveAnalysis | src/App.jsx:33-34 | The resolved analysis becomes the metadata. Nothing else changes. |
| App.App.ReceiveReply | src/App.jsx:35-41 | The resolved reply starts a new reveal from its beginning, the previous timer is cancelled, and loading ends. Reply, message, tone and metadata are unchanged until the first tick. |
| App.App.Generate | src/App.jsx:26-43 | One click with any number of timer ticks during each `await`. For a blank message only the warning is set. Otherwise the metadata is the analysis of the clicked message. A reveal then starts of the reply generated for that message in its detected language and the clicked tone, and loading is off. The reply still shows "Generating..." when no reveal was running at the click. |
| App.App.HandleClear | src/App.jsx:46 | Reply and message become empty. Tone, metadata, loading and the timer handle are unchanged, and a running reveal goes on. |
| App.App.EditMessage | src/App.jsx:74 | Typing replaces the message. Reply, tone, metadata, loading and the reveal are unchanged. |
| App.App.SelectTone | src/App.jsx:82 | Choosing a tone replaces the tone. Message, reply, metadata, loading and the reveal are unchanged. |
| App.App.Unmount | src/App.jsx:52 | Teardown leaves no timer running. Reply, message, tone, metadata, loading and the reveal's text and cursor are unchanged. It is safe after a reveal has finished. |

## Left out

- **HTTP and JSON.** `fetch`, the URL and query string, the request body (`temperature`, `maxOutputTokens`) and `res.json()` are replaced by the `Network` oracle. So are the model name and the literal API keys, which become any `seq<Key>`.
- **Non-string JSON fields.** A non-string `error.message` or candidate text would make `toLowerCase`/`trim` throw and rotate. The model takes those fields as strings.
- **Concurrency.** `Promise.all` runs the two analysis calls concurrently. The model runs them one after the other, which gives the same result because the oracle is a pure function.
- **Re-entrant events.** The model does not cover user events arriving between the awaits of `handleGenerate`, nor the disabled state of the button while loading. Timer ticks between the awaits are modelled, by `Generate`.
- **A fetch that never resolves.** The `Network` oracle is total. A request that hangs forever, which would leave the call and `loading` hanging, cannot be expressed.
- **Default arguments of `generateSmartReply`.** The defaults `tone = 'formal'` and `lang = 'English'` are not modelled. `handleGenerate` always passes both arguments, so the defaults are never used.
- **Logging.** `console.warn` and `console.error` write only to the console.
- **React and the page.** Rendering, JSX, CSS animations, the dark-mode `matchMedia` check and the clipboard write of `handleCopy` are outside the logic. State setters are modelled as immediate field updates.
- **Timer pacing.** The 10 ms interval and real time are not modelled. A tick is a method call.
- **Encoding.** `charAt` and `length` count UTF-16 code units. The model counts Dafny characters, which are Unicode scalar values.
- **Strings.ToLower: ASCII only.** It lower-cases only the ASCII letters. This cannot change whether "quota" is found: no other character lower-cases to a string containing one of the letters q, u, o, t or a.
- **Unreachable catch branch of `handleGenerate`.** The client returns every error as a string, so neither that branch (`❌ An unexpected error occurred.`) nor the analysis fallback is reachable from the composed operations. The fallback rule itself is modelled by `AnalysisOf` over settled promises.
