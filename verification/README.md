# MongoDB v0 code generator — a Dafny model

This project models the code-generation path of a small web application. A user types a
description of an application on a form. The server wraps it in an instruction for a
generative model and reads a JSON file list out of the model's reply. It answers with a zip
archive named after the generated repository, and the form saves that archive. The three
parts are:

- `generateCode` in `app/services/geminiService.ts` (module `Gemini`, `gemini_service.dfy`):
  - the instruction template;
  - extraction of the first ```` ```json ```` fenced block;
  - the trailing-comma repair (`trim`, then `/,\s*}/g`, then `/,\s*]/g`);
  - the mapping of model and parse failures.
- `POST` in `app/api/generate/route.ts` (module `Route`, `route.dfy`):
  - the falsy-prompt check, answered with 400;
  - the fold of the generated files into an archive keyed by path;
  - the `Content-Disposition` header, and its refusal by the `Response` constructor when
    the value holds NUL, LF, CR or a character above U+00FF;
  - the prompt echo in the three log lines;
  - the 500 answer for every failure.
- `handleSubmit` in `app/page.tsx` (module `Page`, `page.dfy`):
  - the trimmed-prompt check;
  - the request body it sends;
  - the error message it shows;
  - the `isGenerating` flag;
  - recovery of the archive name with `/filename="(.+)"/`, defaulting to `mongodb-app.zip`.

Two more modules support these:

- `ClientServer` (`client_server.dfy`) connects the page to the handler. It proves the
  filename round trip between `route.ts:55` and `page.tsx:45`, and a whole submission end to
  end.
- `Text` (`text.dfy`) holds what the others share: the ECMAScript whitespace set used by
  `trim()` and `\s`, the line terminators `.` does not match, `trim()`, and substring search.
  `Wrappers` holds `Option` and `Result`.

The regular expressions are modelled with the semantics of a backtracking matcher, stated as
predicates:

- **The fence** (`FirstFence`): the leftmost opener, and the nearest closer after it (lazy
  `*?`).
- **The repair** (`SweepBefore`): a global left-to-right replacement that resumes after each
  match. It is proved equal to an index filter (`MatchFilter`) that deletes exactly the
  characters some match covers.
- **The filename** (`FirstCapture`): the leftmost `filename="` at which a match exists, and
  the last quote before the end of the line (greedy `.+`, which does not cross line
  terminators).

The external collaborators are parameters:

- the generative model is `model: string -> ModelReply`;
- `JSON.parse` is `parse: string -> Option<GeneratedCode>`;
- `fetch` is `Route.RequestBody -> Result<Page.Answer, string>`;
- `request.json()` is a `Result<RequestBody, string>` argument.

### What the server does not check

The model follows the code on three points a reader might expect otherwise.

- **A blank deployment preference.** The server tests the preference only for truthiness
  (`app/services/geminiService.ts:30`): `" "` passes and yields the line
  `The user prefers to deploy with:  `. Only the page trims the preference and drops it when
  blank (`app/page.tsx:31`, `Page.RequestBodyOf`).
- **A blank prompt.** The server rejects only a missing or empty prompt
  (`app/api/generate/route.ts:20`); `"  "` reaches the model (`Route.BlankPromptPassesGate`).
  Only the page trims the prompt (`app/page.tsx:15`).
- **The parsed reply's shape.** Nothing checks it: whatever `JSON.parse` returns is used as
  the generated code (`app/services/geminiService.ts:67-68`).

## Model

| member | source | states |
|---|---|---|
| Text.Trim | app/page.tsx:15 | `trim()` removes exactly the leading and trailing whitespace: the result is a slice of the input with only whitespace on both sides of it and no whitespace at either of its ends, and it is empty exactly when the input is all whitespace |
| Text.TrimIsUnique | app/page.tsx:15 | any string that meets that description is the one `Trim` returns, so the description pins `trim()` down |
| Gemini.DeployClause | app/services/geminiService.ts:30 | for a truthy preference the clause is "The user prefers to deploy with: " followed by the preference; for a missing or empty one it is empty |
| Gemini.RenderPrompt | app/services/geminiService.ts:25-52 | the instruction opens with the fixed text and then holds the user's prompt verbatim and unescaped, between double quotes; the lemmas below show it determines both the prompt and any truthy preference |
| Gemini.RenderPromptDeterminesPrompt | app/services/geminiService.ts:25-28 | two different prompts (with the same preference) never produce the same instruction |
| Gemini.DeploymentLine | app/services/geminiService.ts:30-52 | at the deployment line, the instruction continues with the preference clause followed by the fixed requirements exactly when the preference is truthy; otherwise the requirements follow at once, and the instruction is the one rendered with no preference |
| Gemini.RenderPromptDeterminesPreference | app/services/geminiService.ts:30 | an instruction tells a truthy preference from a falsy one, and from every other truthy preference |
| Gemini.ExtractCandidate | app/services/geminiService.ts:61-62 | the candidate is the interior of the match the engine reports (leftmost "```json\n", nearest "\n```" after it); when nothing matches it is the whole reply; if any match exists, the reported one exists |
| Gemini.FenceRoundTrip | app/services/geminiService.ts:61-62 | JSON text with no "\n```" in it comes back unchanged both from the fenced reply and from the bare reply |
| Gemini.CrlfFenceIsNotRecognised | app/services/geminiService.ts:61 | a fenced reply whose tag line ends in "\r\n" is not matched even though it contains a closing "\n```", so the whole reply is the candidate |
| Gemini.UpperCaseFenceIsNotRecognised | app/services/geminiService.ts:61 | the tag is case-sensitive: a "```JSON" fence does not match, so the whole reply is the candidate |
| Gemini.SweepBefore | app/services/geminiService.ts:65 | one global replacement of `/,\s*c/` by `c` never lengthens its input; `Gemini.SweepIsMatchFilter` shows it deletes exactly the characters a match covers and keeps all others, and `Gemini.SweepChangesOnlyDangling` that it is the identity exactly when the pattern matches nowhere |
| Gemini.SweepIsMatchFilter | app/services/geminiService.ts:65 | the sweep equals the independent index filter: a character is deleted exactly when it lies in a match of `/,\s*c/` before its closing character, and every other character, commas and whitespace included, is kept in order |
| Gemini.SweepChangesOnlyDangling | app/services/geminiService.ts:65 | one global replacement of `/,\s*c/` by `c` leaves its input unchanged when the pattern matches nowhere in it, and otherwise makes it strictly shorter |
| Gemini.RepairDeletesOnlyDanglingCommas | app/services/geminiService.ts:64-65 | the repair is the trim followed by the `}` filter and then the `]` filter, so exactly the characters those matches cover are deleted; it is no longer than the trimmed text, keeps every character other than commas and whitespace in order, and equals the trimmed text exactly when neither `,\s*}` nor `,\s*]` occurs in it |
| Gemini.RepairWithoutCommasOnlyTrims | app/services/geminiService.ts:65 | for text with no comma the repair is exactly `trim()` |
| Gemini.RepairDropsCommaBeforeBracket | app/services/geminiService.ts:64-65 | in comma-free text around ",]", with no whitespace at the outer ends, the repair deletes that comma and nothing else |
| Gemini.RepairRewritesStringContents | app/services/geminiService.ts:64-65 | the repair ignores JSON string boundaries: `{"k":"[v,]"}` becomes `{"k":"[v]"}`, changing the value of a string |
| Gemini.RepairIsASingleSweep | app/services/geminiService.ts:65 | each replacement is one pass: ",,}" becomes ",}", which still has a comma before `}` |
| Gemini.Repair | app/services/geminiService.ts:65 | `trim()` followed by the `}` sweep and the `]` sweep never lengthens its input; `Gemini.RepairDeletesOnlyDanglingCommas` shows it deletes exactly the characters of the `,\s*}` matches of the trimmed text and then of the `,\s*]` matches of the result, and nothing else |
| Gemini.ParsedText | app/services/geminiService.ts:61-65 | the text handed to `JSON.parse` is the repaired interior of the reported fence, or the whole reply repaired when no fence matches; `Gemini.FencedAndBareRepliesAgree` shows a fenced and a bare reply then agree |
| Gemini.GenerateCode | app/services/geminiService.ts:55-75 | a model failure propagates with its own message; otherwise the result is whatever the parser makes of the repaired candidate, and a parser rejection becomes "Failed to parse the generated code response" |
| Gemini.FencedAndBareRepliesAgree | app/services/geminiService.ts:61-68 | a reply that wraps fence-free JSON in a json fence gives the same result as the bare JSON, for any parser |
| Gemini.TrailingCommaReplyReachesParserClean | app/services/geminiService.ts:61-67 | a fenced one-file reply with a trailing comma after the file object reaches the parser with exactly that comma removed (for comma- and backtick-free values) |
| Route.Archive | app/api/generate/route.ts:35-40 | the archive's entry names are exactly the files' paths, and each path holds the content of the last file with that path |
| Route.ArchiveAppend | app/api/generate/route.ts:38-40 | adding one more file adds its entry or overwrites the one with the same path, and changes nothing else |
| Route.ArchiveOfDistinctPaths | app/api/generate/route.ts:38-40 | with distinct paths there is one entry per file, holding that file's content |
| Route.Truncate | app/api/generate/route.ts:17 | `substring(0, n)` plus "..." exactly when longer: a prompt no longer than `n` is echoed whole; a longer one as its first `n` characters and "...", `n + 3` characters in all |
| Route.ContentDisposition | app/api/generate/route.ts:55 | the header is `attachment; `, then `filename="`, then `<repositoryName>.zip`, then a closing quote, each at an offset fixed by the parts before it; `ClientServer.FilenameRoundTrip` reads the name back out |
| Route.HeaderSafeDisposition | app/api/generate/route.ts:52-57 | the `Response` constructor accepts the `Content-Disposition` value (every character at most U+00FF, none of NUL, LF, CR) exactly when it accepts the repository name, since the fixed parts are safe |
| Route.Preview | app/api/generate/route.ts:17-61 | for a present prompt and a positive limit the echo is the truncation; a missing or empty prompt is echoed as the fallback alone; a zero limit gives the fallback followed by "..." |
| Route.LogPreviews | app/api/generate/route.ts:17-61 | the info line echoes up to 100 characters, the success and error lines up to 50, each with "..." when cut; a missing or empty prompt shows as '' in the first two and as 'unknown' in the error line |
| Route.Post | app/api/generate/route.ts:10-66 | a body that does not parse gives 500 without calling the service; a missing or empty prompt gives 400 'Prompt is required' without calling it; any other prompt calls it with the prompt and preference as received, and a header the `Response` constructor refuses turns the answer into 500 |
| Route.PostInvokesIffTruthyPrompt | app/api/generate/route.ts:20-32 | the service is called exactly when the body parsed and the prompt is a non-empty string, and the answer is 400 exactly when the body parsed and the prompt is not |
| Route.BlankPromptPassesGate | app/api/generate/route.ts:20-32 | every non-empty whitespace-only prompt, with any preference, passes the server's check and reaches the service unchanged |
| Route.PostResponseShapes | app/api/generate/route.ts:20-66 | every answer is a zip attachment, or 400 'Prompt is required', or 500 'Failed to generate code' with details |
| Route.PostAfterGeneration | app/api/generate/route.ts:29-66 | after a successful generation whose repository name the header accepts, the answer has the zip content type, the `Content-Disposition` header for that name, and exactly the archive of the files; for any other name it is 500 'Failed to generate code'; after a failed generation it is 500 with the failure's message as details |
| Route.UnparsableReplyIs500 | app/api/generate/route.ts:58-66 | a reply the parser rejects surfaces as 500 with details "Failed to parse the generated code response" |
| Page.GreedyEnd | app/page.tsx:45 | at a `filename="`, every match starting there ends at or before the returned quote, which itself ends a match; None means no match starts there |
| Page.FindCapture | app/page.tsx:45 | the search from a position returns the match a backtracking matcher reports (leftmost start, longest capture), and None exactly when no match starts at or after that position |
| Page.ExtractFilename | app/page.tsx:44-46 | with a header, the name is the capture of the reported match, and a reported match exists whenever any match does; without a header, or with a header no match fits, it is "mongodb-app.zip"; the name never holds a line terminator |
| Page.HandleSubmit | app/page.tsx:12-33 | nothing is sent exactly when the prompt trims to nothing, and then only the error changes, to "Please enter a description of your application"; otherwise the request is the body built from the state, handled as below |
| Page.Settle | app/page.tsx:20-56 | while the request is out the flag is raised and the error cleared; afterwards the flag is lowered and the fields are kept; an archive is saved exactly when the answer is OK, and exactly then the error is empty |
| Page.RequestBodyOf | app/page.tsx:29-32 | the body carries the prompt untrimmed and the preference trimmed, leaving the preference out exactly when it is all whitespace |
| Page.NotOkMessage | app/page.tsx:35-53 | the message shown for a non-OK answer is never empty: it is the body's `error` text when that is non-empty, the message of a body that did not parse when that is non-empty, and "Failed to generate code" otherwise |
| Page.ShownError | app/page.tsx:35-53 | a non-OK answer shows its `error` text when non-empty, and "Failed to generate code" when it is empty or absent; a failed request, or a non-OK answer whose body does not parse, shows that error's message, or the same fallback when the message is empty |
| Page.SavedName | app/page.tsx:44-49 | an OK answer saves the archive under the recovered name, and under "mongodb-app.zip" when the header is absent or does not match |
| ClientServer.View | app/page.tsx:35-44 | the page sees an answer as OK exactly when its status is 2xx, and the archive answer as OK with its `Content-Disposition` |
| ClientServer.ConnectAnswers | app/page.tsx:24-38 | `fetch` wired to the handler (which reads the body at `app/api/generate/route.ts:12-14`) always yields an answer; the page sees it as OK exactly when the handler sent the archive, with its header, and otherwise sees the `error` field of the JSON body |
| ClientServer.FilenameRoundTrip | app/api/generate/route.ts:55 | the page recovers `<repositoryName>.zip` from the server's header exactly when the repository name has no line terminator |
| ClientServer.DispositionCapture | app/page.tsx:45 | in the server's header for such a name, the reported match starts at the only `filename="` and ends at the closing quote |
| ClientServer.LineBreakInNameFallsBack | app/page.tsx:45-46 | applied to the header string built for the name "a\nb", the expression finds no match and the name falls back to "mongodb-app.zip"; the handler never sends that string, since the `Response` constructor refuses the line feed |
| ClientServer.ErrorAnswersAsShown | app/page.tsx:35-38 | the server's 400 shows as "Prompt is required"; every 500 shows as "Failed to generate code", whatever its details |
| ClientServer.AcceptedPromptPassesGate | app/api/generate/route.ts:20-32 | a prompt the page accepts always passes the server's check: the service is called with the prompt as typed and the trimmed preference, and the answer is never 400 |
| ClientServer.SavedUnderRepositoryName | app/page.tsx:44-49 | the archive answer for a repository name the header accepts clears the error and is saved as `<repositoryName>.zip` |
| ClientServer.ServerFailureShown | app/page.tsx:35-53 | the handler's 500 shows "Failed to generate code" and saves nothing |
| ClientServer.SubmitEndToEnd | app/page.tsx:12-56 | when generation succeeds with a repository name the header accepts, the page clears the error and saves `<repositoryName>.zip`; for any other name, and when generation fails, it shows "Failed to generate code" and saves nothing; the flag ends lowered either way |

## Left out

- The Gemini client itself is left out: the model name, the API key, and the network call. It
  is the `model` parameter. Its failures are `ModelError(message)`, and the model passes them
  on unchanged.
- `JSON.parse` is the `parse` parameter. Its result is a well-typed `GeneratedCode`, so a
  parseable reply of the wrong shape is not modelled. In the source, a missing or non-iterable
  `files`, or a `null` entry in it, throws in the archive loop and becomes a 500. A missing or
  non-string `repositoryName` is answered 200, with the name stringified in the header (for
  example `undefined.zip`). What a non-string `path` or `content` does depends on JSZip, which
  is not part of this model.
- The zip encoding is left out: JSZip's bytes, `generateAsync`, `arrayBuffer` and a failure
  of any of them. The archive is its entries, a map from path to content. JSZip's folder
  entries and path normalisation are not modelled.
- The `GET` health-check handler is left out, because it is not part of the generation path.
- Timestamps, `console` output, and the `, deployment: …` part of the info log line are left
  out. Only the prompt echo in the three log lines is modelled.
- Request bodies whose `prompt` or `deploymentPreference` is a non-string JSON value are left
  out. The fields are optional strings.
- Throwing a value that is not an `Error` is left out. In the source, its `message` is
  `undefined`. The model always carries a string message.
- `response.blob()`, `saveAs` and React rendering are left out. The page's outcome records the
  name the archive would be saved under.
- JavaScript strings are UTF-16 code units, and the model's characters are Unicode scalar
  values. `substring(0, n)` could split a surrogate pair in the source, and the model does not
  show that.
- Route.Post: the `details` of the 500 for a refused header is a fixed text. In the source it
  is the message of the runtime's `TypeError`, whose wording depends on the runtime. The page
  shows "Failed to generate code" either way.
