# LoRA Dataset Curator, modelled in Dafny

The LoRA Dataset Curator is a single-page React app. It takes a queue of
images and a concept ("vintage school bus"). It asks a vision model (Gemini
through its SDK, or a local LM Studio server over HTTP) to score each image
against the concept. An image scoring at or above the acceptance threshold gets
an annotation: a one-sentence caption or a comma-separated tag list. The accepted
images are exported as a zip archive, each image followed by a `.txt` sidecar
holding its annotation.

This project models that core:

- `types.dfy` (module `Types`): the enums and records of `types.ts`.
- `js_text.dfy` (module `JsText`): the JavaScript string built-ins the core relies on, with their laws:
  - `trim` with the full ECMAScript white-space set;
  - `split` on one character and `join`;
  - `String(n)`;
  - `lastIndexOf` and `substring`.
- `tags.dfy` (module `Tags`): the tag normalisation LM Studio tag replies go through.
- `gemini_service.dfy` (module `GeminiService`): the provider adapter.
  - Every network or SDK call is replaced by the reply it would produce, supplied as a parameter.
  - What remains is the adapter's own logic: the choice of backend per model, the empty-key and empty-url guards, the error messages, and the validator verdicts.
- `curation.dfy` (module `Curation`): what `App.tsx` decides, as functions with their lemmas:
  - how one image is judged, and what a whole run produces and calls;
  - where a stop takes effect;
  - which selected files are queued, and under which id;
  - what the download archive holds;
  - which connection check applies.
- `app.dfy` (module `App`): the `App` component as the class `Curator`.
  - Each piece of React state is a field, and each handler a method that changes the fields the way the state setters do once the render settles.
  - `handleAnalyze` is the method `Analyze`, with the loop in `ProcessQueue` and `Iterate`. The loop is proved against `Curation.Processed`, `Curation.CallLog` and `Curation.FinalProgress`.
  - Two ghost fields record what is otherwise invisible:
    - `published` holds every list handed to `setResults`, so the incremental republishing can be stated;
    - `calls` holds every adapter call, so "annotation only when accepted" and "nothing after a stop" can be stated.

Inputs that come from outside the component are parameters:

- the provider replies for each image (`replies[i]`);
- the value each stop check reads (`stopReads[i]` at the top of iteration i, `stopAtEnd` at the end);
- the two environment variables;
- the object URLs made for selected files;
- whether the zip library is loaded.

## Model

| member | source | states |
|---|---|---|
| Types.Spread | types.ts:19-30 | A result built from an image carries that image's id, file and dataUrl unchanged, plus the given status and optional score, reason and annotation. |
| JsText.Trim | services/geminiService.ts:167 | The trimmed text has no white space at either end and is no longer than the input. |
| JsText.TrimSlice | services/geminiService.ts:167 | `trim` returns a contiguous slice of its input. What it removes before and after that slice is all white space. |
| JsText.TrimOfTrimmed | services/geminiService.ts:167 | Trimming text that has no white space at either end returns it unchanged. |
| JsText.TrimEmpty | App.tsx:556 | Text trims to nothing exactly when every character of it is white space. |
| JsText.TrimChars | services/geminiService.ts:167 | Trimming never introduces a character, so a trimmed piece of comma-split text has no comma. |
| JsText.Split | services/geminiService.ts:167 | Splitting on a character yields at least one piece, and no piece contains the separator. |
| JsText.JoinSplit | services/geminiService.ts:167-169 | Joining the pieces of a split with the same separator gives back the original text. |
| JsText.SplitJoin | services/geminiService.ts:167-169 | Separator-free parts joined with the separator split back into exactly those parts. |
| JsText.NatToString | services/geminiService.ts:103 | The decimal form of a status code: digits only, no leading zero, and it reads back as the number. |
| JsText.IntToString | App.tsx:469 | The decimal form of a modification time: a leading '-' exactly when it is negative, then digits only, with no leading zero, reading back as its magnitude. |
| JsText.IntToStringInjective | App.tsx:469 | Different integers are written differently. |
| JsText.LastIndexOf | App.tsx:540 | The result is the last position holding the character, or -1 when there is none. |
| JsText.Substring | App.tsx:540 | `substring` with a start within the string, or before or past it with an end within the string: in-range bounds give exactly that slice, reversed bounds are swapped, a negative bound counts as 0 and a bound past the string as its length. The result is never longer than the string. |
| Tags.MapTrim | services/geminiService.ts:167 | Piece k of the result is piece k of the input, trimmed. |
| Tags.DropEmpty | services/geminiService.ts:167 | The filter keeps exactly the non-empty pieces. |
| Tags.FirstIndex | services/geminiService.ts:168 | The position returned holds the tag, and no earlier position does. |
| Tags.Unique | services/geminiService.ts:168 | `[...new Set(xs)]` has no repeats and holds exactly the elements of `xs`. |
| Tags.UniqueOrder | services/geminiService.ts:168 | The Set keeps tags in the order of their first occurrence. |
| Tags.UniqueOfDistinct | services/geminiService.ts:168 | A list without repeats passes through the Set unchanged. |
| Tags.DropEmptyOrder | services/geminiService.ts:167 | Dropping empty pieces keeps the relative order of the pieces that stay. |
| Tags.TagListProperties | services/geminiService.ts:166-170 | The normalised tags are distinct, non-empty, trimmed and comma-free. They are exactly the non-empty trimmed pieces of the reply, ordered by first occurrence. |
| Tags.PiecesOfJoin | services/geminiService.ts:169 | Trimmed, comma-free tags joined with ", " split and trim back into themselves. |
| Tags.NormalizeIdempotent | services/geminiService.ts:166-170 | Normalising an already normalised tag annotation leaves it unchanged. |
| Tags.NormalizeRepeatedTag | services/geminiService.ts:166-170 | A reply shaped like "dog, dog , cat,dog" normalises to "dog, cat". |
| GeminiService.LmStudioFailureStatus | services/geminiService.ts:101-104 | The non-ok failure message is the fixed prefix, the status in decimal (which reads back as the status), ": ", then the response body. |
| GeminiService.ValidateApiKey | services/geminiService.ts:13-26 | An empty key is invalid without a call. Any other key is valid exactly when the probe call returns. |
| GeminiService.ValidateLmStudioServer | services/geminiService.ts:28-53 | The server is valid exactly when the url is non-empty and the discovery request is ok. An invalid server has no models. A valid one has the listed model ids, or none when the list is absent. |
| GeminiService.FromServer | services/geminiService.ts:95-107 | An ok LM Studio reply yields exactly its content. A thrown request or parse fails with its own message. A non-ok reply fails with the status message. |
| GeminiService.FromSdk | services/geminiService.ts:110-133 | An empty key fails with the key-required message before any call. With a key, a returned SDK call yields exactly its content and a thrown one fails with its message. |
| GeminiService.GetScoreAndReason | services/geminiService.ts:74-134 | Every case is fixed. LM Studio: an ok reply yields the parsed object as it came (unclamped, a missing score or reason stays missing), a throw fails with its message, a non-ok reply fails with the status message. Cloud: an empty key fails with the key-required message; with a key, the SDK's parsed reply or its thrown message. |
| GeminiService.GetAnnotation | services/geminiService.ts:136-186 | The failures are as for scoring. An ok LM Studio Caption reply and every returned cloud reply are passed on as they came, missing text included. An ok LM Studio Tags reply is normalised, and one without text fails with the TypeError of calling `split` on null. |
| GeminiService.ScoreBranchesOnModel | services/geminiService.ts:75 | LM Studio scoring depends only on the server reply. Cloud scoring depends only on the key and the SDK reply. |
| GeminiService.AnnotationBranchesOnModel | services/geminiService.ts:137 | LM Studio annotation depends only on the server reply. Cloud annotation depends only on the key and the SDK reply. |
| GeminiService.LocalTagsAreNormalized | services/geminiService.ts:161-171 | A successful LM Studio tag annotation is present and is a fixed point of the normalisation. |
| Curation.ErrorReason | App.tsx:511 | The reason of an Error result is the error message when that is non-empty and 'API call failed.' when it is empty, so it is never empty. |
| Curation.Progress.Text | App.tsx:488-518 | The line is empty exactly when the progress is cleared, as the final check at line 518 leaves it. The starting, stopped, scoring and annotating messages of lines 488, 494, 498 and 503 are never empty. |
| Curation.ProgressTextInjective | App.tsx:488-518 | No two progress values render the same line. So a scoring line names the image position, the queue length and the file name exactly, and an annotating line the position and the length. |
| Curation.JudgeRules | App.tsx:499-512 | A result keeps its image and is well formed. It is Accepted iff scoring succeeded with a score present and at least the threshold, and annotation succeeded. It is Rejected iff scoring succeeded with a score missing or below the threshold. Otherwise it is an Error with no score whose reason is the failing call's message. A judged result carries the reply's score and reason as they came, and an Accepted one the annotation as returned, missing ones included. |
| Curation.ProcessedAt | App.tsx:492-513 | Result j of a run is the judgement of image j from image j's own replies. |
| Curation.StopPoint | App.tsx:492-496 | The run processes the images before the first stop check that reads true, and only those. |
| Curation.StopPointAt | App.tsx:492-496 | A loop that exits at index i, after i false checks and either a true check or the end of the queue, exits at the stop point. |
| Curation.PrefixesAt | App.tsx:513 | The j-th list published during a run is the first j results. |
| Curation.ProcessedWellFormed | App.tsx:497-513 | Every result of a run carries its own image's fields and is terminal and well formed. |
| Curation.RunResults | App.tsx:492-514 | A run yields at most one result per image, and result j belongs to image j. Every image gets a result exactly when no stop check read true. |
| Curation.RunAcceptance | App.tsx:502-508 | For every processed image: Accepted iff scoring succeeded with a score present and at least the threshold and annotation succeeded; Rejected iff scoring succeeded with the score missing or below the threshold. A failed scoring gives an Error with no score and the message as reason. |
| Curation.CallLogContents | App.tsx:500-504 | Every processed image is scored, and no image past the stop point is. An annotation is requested exactly for processed images whose score reached the threshold. |
| Curation.CallLogNoRepeats | App.tsx:497-504 | No adapter call of a run is made twice, and every call concerns an image before the stop point. |
| Curation.CallLogCounts | App.tsx:497-504 | Counted with multiplicity: a processed image is scored exactly once, and annotated once when its score reached the threshold and never otherwise. An image past the stop point is neither scored nor annotated. |
| Curation.RunCalls | App.tsx:492-514 | No image past the stop point is scored. No Rejected image had an annotation requested. Every Accepted image did. |
| Curation.CapturedStopFlag | App.tsx:492-520 | With the stop flag captured at handler creation, a set flag ends the run before the first image and leaves the stop message. A clear flag processes every image and clears the progress. |
| Curation.ThreeImageScenario | App.tsx:502-508 | Scores 0.9, 0.5 and 0.95 at threshold 0.8 give Accepted, Rejected, Accepted. Annotation is requested for the first and third images only. |
| Curation.ServerErrorScenario | services/geminiService.ts:101-104 | HTTP 500 on the second of three LM Studio scorings makes that image an Error carrying the status message, while its neighbours are judged as usual. |
| Curation.StopAfterFirstScenario | App.tsx:492-496 | A stop seen before the second of five images leaves one result, only the first image's calls, and the stop message. |
| Curation.ImageId | App.tsx:469 | The id of a queued image is its file name, then '-', then the decimal form of its modification time. |
| Curation.ImageIdInjective | App.tsx:469 | Two files with the same name get the same id only when they have the same modification time. |
| Curation.SelectedAreImages | App.tsx:465-472 | Every queued entry is of an accepted image type and carries the id made from its own file. |
| Curation.SelectedKeepsImages | App.tsx:465-472 | Every selected file of type jpeg, png or webp is queued with its own URL. |
| Curation.SelectedComeFromFiles | App.tsx:466-472 | Every queued entry pairs a selected file with that file's URL. |
| Curation.SelectionOrder | App.tsx:465-472 | Queueing keeps selection order: entry k is the file at position idx[k], with its own id and URL. The positions increase and are exactly those of the jpeg, png and webp files, so each such file is queued once. |
| Curation.AcceptedMembers | App.tsx:528 | The download filter keeps exactly the Accepted results. |
| Curation.AcceptedOrder | App.tsx:528 | The download filter keeps the Accepted results in order and each once: entry k is the result at position idx[k], the positions increase, and they are exactly the positions of Accepted results. |
| Curation.AcceptedCountIsCount | App.tsx:342 | The count on the download button is the number of positions holding an Accepted result. |
| Curation.SidecarExtension | App.tsx:540 | Every sidecar name ends in ".txt". |
| Curation.SidecarOfDotted | App.tsx:540 | Only the extension after the last '.' is replaced. Earlier dots stay. |
| Curation.SidecarOfUndotted | App.tsx:540 | A name without '.' gives the sidecar name ".txt" exactly. |
| Curation.SidecarsCollide | App.tsx:540-542 | Two images whose names differ only in the extension get the same sidecar name, so both sidecar `zip.file` calls name one entry. |
| Curation.ArchiveLayout | App.tsx:538-543 | Entry 2k of the archive is accepted image k under its own name. Entry 2k+1 is its sidecar, holding the annotation or ''. |
| Curation.ArchiveOfResults | App.tsx:528-543 | The list of `zip.file` calls is empty exactly when no result is Accepted. Otherwise it has two calls per accepted result, as many as the count on the button. |
| Curation.DecideConnection | App.tsx:429-457 | LM Studio: the server check's verdict and models, with the key settings kept. A non-empty environment key is probed, and a failed probe falls back to the user source with a cleared key. A non-blank user key is probed and is valid exactly when the probe returns, with the key kept. A blank user key, an empty environment key or no key source is invalid without any request. Only a check can make the connection valid. |
| Curation.EnvKey | App.tsx:416 | The environment key is API_KEY when it is set and non-empty, and otherwise exactly GEMINI_API_KEY. It is empty only when both are. |
| App.Curator.constructor | App.tsx:395-410 | The initial state: empty key and concept, Caption, Gemini Flash, localhost:1234, threshold 0.80, nothing queued, not loading, validation pending. |
| App.Curator.InitializeApiKey | App.tsx:412-427 | For a cloud model, an environment key is adopted with source 'env'. Without one, the source becomes 'user' and the connection invalid. LM Studio changes nothing. |
| App.Curator.ValidateConnection | App.tsx:429-457 | The settled verdict, discovered models, key and key source are those `DecideConnection` gives, and loading has ended. |
| App.Curator.SelectFiles | App.tsx:464-475 | The selected images are appended after the queued ones and the results are cleared. The results-describe-the-queue invariant holds. |
| App.Curator.CanAnalyze | App.tsx:556-558 | Analysis is allowed exactly when the last verdict is true, at least one image is queued and the concept is not all white space. |
| App.Curator.ClearImages | App.tsx:477-480 | Both the queue and the results are emptied. |
| App.Curator.Stop | App.tsx:523-525 | The stop flag is raised. |
| App.Curator.Analyze | App.tsx:482-521 | Without a valid connection, a queued image and a non-blank concept, nothing changes. Otherwise the results are the judgements of the images before the stop point, in order. Each growing prefix is published. The calls are exactly the run's call log. The progress is what the final stop check leaves. Loading and stopping end false. |
| App.Curator.Run | App.tsx:485-520 | A run from the captured settings ends with the results, published lists, calls and progress of the specification functions, with loading and stopping false and every result well formed. |
| App.Curator.Begin | App.tsx:485-486 | Loading is set and the stop flag lowered. |
| App.Curator.Restart | App.tsx:487-488 | The results are emptied and published, and the progress says the analysis is starting. |
| App.Curator.ProcessQueue | App.tsx:490-514 | The loop leaves the results of the images before the stop point and publishes every prefix. It makes exactly their calls and leaves the stop message or the last item's message. |
| App.Curator.Iterate | App.tsx:490-514 | From the emptied list, the iterations end at the stop point. They leave the results of the images before it, publish every prefix and make exactly their calls. The progress is the stop message when a check read true, otherwise the last item's message. |
| App.Curator.Advance | App.tsx:497-513 | One iteration extends the results by image i's judgement, publishes the new list, logs its calls and sets its progress. |
| App.Curator.ProcessImage | App.tsx:497-512 | Image i is scored, and annotated only when a score is present and reaches the threshold. The result is its judgement, and the progress is the last message set. |
| App.Curator.Finish | App.tsx:516-520 | Loading and stopping end false. The progress is cleared unless the final stop check reads true. |
| App.Curator.Download | App.tsx:527-543 | No archive is made when nothing is Accepted or the zip library is missing. Otherwise the archive is the sequence of `zip.file` calls: each accepted result's image and then its sidecar, in order. |

## Left out

- Rendering: every component, icon and JSX element, the preview grid and the status texts of the connection indicator. These are UI only.
- Timing: the 500 ms debounce of the validation effect and the 90 s abort timer of the server discovery. Each validation is modelled as the effect body run to completion.
- Network and SDK calls, `response.json()` and `JSON.parse`: each is the reply it produces (`ServerReply`/`SdkReply`), including a thrown exception with its message. A parsed score reply is an object whose `score` and `reason` may each be missing; a missing score compares false with the threshold, so that image is Rejected. A reply whose `score` is not a number (compared by JavaScript coercion), or that parses to `null` or to a non-object, is not modelled.
- Prompts, the grading rubric, the model identifier passed to the SDK and the `local-model` name of the LM Studio payload: they are request content and no code checks them.
- `FileReader`, base64 data URLs and the image bytes: a file is its name, MIME type and modification time.
- `URL.createObjectURL`: the URLs are a parameter of `SelectFiles`.
- `process.env`: the two variables are parameters of `InitializeApiKey`.
- JSZip, blob generation and the anchor-click download with its file name: the archive is the list of entries in order. The missing-library alert is the `zipLoaded` flag.
- Curation.ArchiveEntries: the list is the sequence of `zip.file` calls. JSZip replaces an entry when a later call uses the same name, so images that differ only in extension (`SidecarsCollide`), a file queued twice, or several names without a '.' (each giving `.txt`) leave fewer entries in the real archive than in the list.
- Floating point: scores and the threshold are reals compared with `>=`. The slider's `parseFloat`, its 0.05 step and `toFixed` are not modelled.
- React batching and re-render timing: each handler applies its state updates in order. The stop flag a running handler sees is a parameter, `stopReads[i]` at each check and `stopAtEnd` at the end. Whether the Stop button reaches a running loop is therefore an input, not something the model derives.
- App.Curator.ValidateConnection: the transient `null` verdict and empty model list set while a validation is pending are overwritten before the method ends. Only the settled state is stated.
- App.Curator.Analyze: the progress line is kept as the `Progress` value saying which message it is. `Progress.Text()` renders the exact strings, and `ProgressTextInjective` shows the value can be read back from the line. The run's contracts speak of the value.
- Curation.SelectImages: its own contract only bounds the length. What it queues, in which order and how often is stated by `SelectionOrder`, with `SelectedAreImages`, `SelectedKeepsImages` and `SelectedComeFromFiles`.
- GeminiService.GetAnnotation: an LM Studio tag reply without text fails with the message the JavaScript engine gives for `null`. A reply whose `content` is absent rather than null would name `undefined` in that message, and the model does not tell the two apart. The wording itself is the V8 engine's; other JavaScript engines word this TypeError differently, so the Error reason shown depends on the browser.

## Findings

| source | as written | input that shows it | evidently intended | confidence | as-written member | corrected member |
|---|---|---|---|---|---|---|
| App.tsx:493 | The loop checks `isStopping` as it was when the handler was created (a stale closure), so pressing Stop during a run is never seen by that run. | Three queued images, with Stop pressed while the first is being scored. Every check reads the captured `false`, so all three are processed and the progress is cleared. | The loop stops at the first check after Stop is pressed, leaving only the results produced so far. | high; not executed | Curation.CapturedStopFlag | Curation.StopAfterFirstScenario |
