# Phone Saver: the save pipeline of `SaverActivity`

Phone Saver is an Android app that receives shared content (an image, a
video, a batch of images, or a piece of text that may be a URL) and saves it
into a folder the user picks. This project models what `SaverActivity` does
once a folder has been chosen. It covers:

- which intents are accepted (`testSupported`) and how they are dispatched
  (`useIntent`);
- the three handlers (`handleImageVideo`, `handleText`,
  `handleMultipleImages`);
- the four savers (`saveUri`, `saveUrl`, `saveStream`, `saveString`);
- how file names are derived (`getFilename`, both overloads) and joined to
  the folder (`safeAddPath`);
- the closing notice (`finishIntent`).

Modules:

- `Base`: Kotlin's nullable values (`Option`), bytes, and the file system as
  a map from path to contents. It also holds the per-destination I/O faults,
  which say which step throws an `IOException`.
- `Filenames`: `getFilename(String)`, modelled as the four Kotlin string
  operations it chains, and `getFilename(Uri)`. Also `safeAddPath` and
  `File.separatorChar`.
- `Intents`: `testSupported`, and the dispatch of `useIntent`. Both are
  related to one explicit, ordered decision table (`Classify`).
- `StreamCopy`: `saveStream`. There is a functional definition
  (`CopyToFile` / `Pump`) and a method with the do/while loop
  (`SaveStream` / `WriteLoop`). Lemmas give the exact file layout the loop
  produces.
- `Saver`: the savers, the handlers, `finishIntent`, and the whole
  `useIntent` run over a `Device`. A `Device` is the file system, the content
  resolver's display names and input streams, the I/O faults, and the
  download manager's queue.

The model follows the code in these places:

- **The space is kept.** `getFilename("My Photo.jpg")` is `"My "`.
  `replaceAfter(" ", "")` keeps the space, and the character filter allows
  spaces. `Filenames.GetFilenameKeepsFirstWord` states this for every such
  name.
- **A URL that is not media is not saved.** The URL branch of `handleText`
  only saves when the `Content-Type` starts with `image/` or `video/`.
  Otherwise the result stays `false` and nothing is written.
- **The copy is padded.** `saveStream` writes the whole 1024-byte buffer
  after every read, and it ignores the first read's count. The file is
  therefore a sequence of full 1024-byte blocks, one per chunk the stream
  delivered (one block for an empty stream). In each block, the bytes after
  a short chunk are stale. `StreamCopy.PaddedIsCopyIff` states exactly when
  the file is a byte-for-byte copy.
- **A failing `close` is caught after `success = true`.** It never changes
  the result. In `saveString` it still matters: the `BufferedWriter` writes
  the text to the file only when `close` flushes it. So a save can report
  true and leave the file empty. `Saver.SaveString` states both.

## Model

| member | source | states |
|---|---|---|
| Base.CreateIfAbsent | app/src/main/java/link/standen/michael/phonesaver/activity/SaverActivity.kt:306-308 | afterwards the destination exists; an existing file keeps its contents; a new one is empty; no other path changes |
| Filenames.StripDisallowed | app/src/main/java/link/standen/michael/phonesaver/activity/SaverActivity.kt:383 | the regex deletion never lengthens a name, leaves only characters of `[a-zA-Z0-9æøåÆØÅ_ -]`, keeps every allowed character as many times as the name has it, and changes nothing in a name already made of them |
| Filenames.ReplaceBeforeLast | app/src/main/java/link/standen/michael/phonesaver/activity/SaverActivity.kt:379 | without a slash the name is unchanged; otherwise the result is a suffix of the name that starts with its only slash |
| Filenames.ReplaceAfter | app/src/main/java/link/standen/michael/phonesaver/activity/SaverActivity.kt:381 | without a space the name is unchanged; otherwise the result is a prefix of the name that ends with its only space |
| Filenames.Truncate | app/src/main/java/link/standen/michael/phonesaver/activity/SaverActivity.kt:384-387 | the result has at most 100 characters; a shorter name is unchanged; a longer one is cut to its first 100 characters |
| Filenames.GetFilename | app/src/main/java/link/standen/michael/phonesaver/activity/SaverActivity.kt:369-392 | every derived name has at most 100 characters, contains only allowed characters, has no slash or dot, and has a space only as its last character |
| Filenames.SpaceStaysLast | app/src/main/java/link/standen/michael/phonesaver/activity/SaverActivity.kt:381-383 | the character filter keeps a space in last position when it was the only space |
| Filenames.GetFilenameIdempotent | app/src/main/java/link/standen/michael/phonesaver/activity/SaverActivity.kt:369-392 | deriving a name from a derived name gives the same name |
| Filenames.GetFilenameDropsDirectory | app/src/main/java/link/standen/michael/phonesaver/activity/SaverActivity.kt:379 | everything up to and including the last slash is ignored: `dir/name` gives the same name as `name` |
| Filenames.GetFilenameDropsAfterSpace | app/src/main/java/link/standen/michael/phonesaver/activity/SaverActivity.kt:381-387 | for a name `word rest` with no slash, only the first word and its trailing space survive, filtered and cut to 100 characters |
| Filenames.GetFilenameKeepsFirstWord | app/src/main/java/link/standen/michael/phonesaver/activity/SaverActivity.kt:377-387 | a short first word of allowed characters comes out with its space kept (`My Photo.jpg` gives `My `) |
| Filenames.GetFilenamePlain | app/src/main/java/link/standen/michael/phonesaver/activity/SaverActivity.kt:383-387 | a name with no slash and no space only loses its disallowed characters, the extension's dot among them |
| Filenames.StripAppend | app/src/main/java/link/standen/michael/phonesaver/activity/SaverActivity.kt:383 | the filter works character by character, so it distributes over concatenation |
| Filenames.GetUriFilename | app/src/main/java/link/standen/michael/phonesaver/activity/SaverActivity.kt:357-367 | a `content:` reference with a display name is named after that name; any other reference is named after its last path segment; both go through the string sanitiser |
| Filenames.SafeAddPath | app/src/main/java/link/standen/michael/phonesaver/activity/SaverActivity.kt:394-401 | without a location the name is used as it is; with one, the result always starts with the location, and the name is joined with `/` unless it already starts with the location |
| Filenames.SafeAddPathIdempotent | app/src/main/java/link/standen/michael/phonesaver/activity/SaverActivity.kt:394-401 | joining an already joined path changes nothing |
| Filenames.SanitisedNameIsJoined | app/src/main/java/link/standen/michael/phonesaver/activity/SaverActivity.kt:394-401 | a name from `getFilename` is always placed under a location that contains a slash, never taken for a path already under it |
| Intents.TestSupported | app/src/main/java/link/standen/michael/phonesaver/activity/SaverActivity.kt:70-89 | a missing MIME type, or an action other than SEND and SEND_MULTIPLE, is never supported |
| Intents.Dispatch | app/src/main/java/link/standen/michael/phonesaver/activity/SaverActivity.kt:91-118 | a missing type reaches no handler; the batch handler only runs for SEND_MULTIPLE, the single-item handlers only for SEND |
| Intents.FirstMatch | app/src/main/java/link/standen/michael/phonesaver/activity/SaverActivity.kt:77-87 | an ordered rule list classifies a pair by its first matching rule, and as unsupported when no rule matches |
| Intents.TableRows | app/src/main/java/link/standen/michael/phonesaver/activity/SaverActivity.kt:77-87 | the table reads as the source's if/else chain: image, video, plain text for SEND; image for SEND_MULTIPLE |
| Intents.TestSupportedFollowsTable | app/src/main/java/link/standen/michael/phonesaver/activity/SaverActivity.kt:70-89 | `testSupported` holds if and only if the table classifies the pair as a supported kind |
| Intents.DispatchFollowsTable | app/src/main/java/link/standen/michael/phonesaver/activity/SaverActivity.kt:91-118 | `useIntent` hands every pair to the handler for the kind the table gives it |
| Intents.DispatchAgreesWithTestSupported | app/src/main/java/link/standen/michael/phonesaver/activity/SaverActivity.kt:70-118 | `useIntent` calls a save handler exactly when `testSupported` accepts the intent |
| Intents.ImagesAccepted | app/src/main/java/link/standen/michael/phonesaver/activity/SaverActivity.kt:79-84 | any `image/` type is accepted both alone and in a batch |
| Intents.OnlyImagesInBatches | app/src/main/java/link/standen/michael/phonesaver/activity/SaverActivity.kt:79-84 | video and plain text are accepted alone but rejected in a batch |
| StreamCopy.Pump | app/src/main/java/link/standen/michael/phonesaver/activity/SaverActivity.kt:312-314 | the loop only ever writes whole buffers, so what it writes is a multiple of 1024 bytes |
| StreamCopy.CopyToFile | app/src/main/java/link/standen/michael/phonesaver/activity/SaverActivity.kt:301-328 | a save can only succeed when the file can be created and opened; no path other than the destination changes |
| StreamCopy.SaveStream | app/src/main/java/link/standen/michael/phonesaver/activity/SaverActivity.kt:301-328 | the method with its loop computes exactly the functional result, and closes the output stream once exactly when it was opened |
| StreamCopy.WriteLoop | app/src/main/java/link/standen/michael/phonesaver/activity/SaverActivity.kt:312-314 | the do/while loop computes exactly the outcome of the recursive loop definition |
| StreamCopy.PumpWithoutFaults | app/src/main/java/link/standen/michael/phonesaver/activity/SaverActivity.kt:312-314 | without faults the loop succeeds, writes its current buffer and then one block per remaining chunk, one write each |
| StreamCopy.LoopWithoutFaults | app/src/main/java/link/standen/michael/phonesaver/activity/SaverActivity.kt:310-314 | without faults the first read and the loop together write the padded blocks in max(1, chunks) writes |
| StreamCopy.CopyWithoutFaults | app/src/main/java/link/standen/michael/phonesaver/activity/SaverActivity.kt:301-328 | without faults the save succeeds, the destination holds the padded blocks, and there are max(1, chunks) writes |
| StreamCopy.PumpSucceedsIff | app/src/main/java/link/standen/michael/phonesaver/activity/SaverActivity.kt:312-314 | the loop succeeds if and only if none of its remaining reads throws and none of its remaining writes fails |
| StreamCopy.SaveStreamSucceedsIff | app/src/main/java/link/standen/michael/phonesaver/activity/SaverActivity.kt:301-328 | `saveStream` returns true if and only if the file opens, no read throws, and none of the max(1, chunks) writes throws |
| StreamCopy.BlocksLength | app/src/main/java/link/standen/michael/phonesaver/activity/SaverActivity.kt:312-314 | each chunk becomes exactly one 1024-byte block |
| StreamCopy.BlocksLayout | app/src/main/java/link/standen/michael/phonesaver/activity/SaverActivity.kt:310-314 | block j is block j-1 (the starting buffer for j = 0) with chunk j read over its start |
| StreamCopy.PaddedLayout | app/src/main/java/link/standen/michael/phonesaver/activity/SaverActivity.kt:310-314 | the saved file is 1024·max(1, chunks) bytes; an empty stream gives one zero block; each block starts with its whole chunk, and the rest of it is carried over from the block before (zeros in the first) |
| StreamCopy.FullBlocksAreChunks | app/src/main/java/link/standen/michael/phonesaver/activity/SaverActivity.kt:312-314 | when every chunk fills the buffer, the blocks are just the chunks back to back |
| StreamCopy.PaddedIsCopyIff | app/src/main/java/link/standen/michael/phonesaver/activity/SaverActivity.kt:310-314 | the file is a byte-for-byte copy of the stream if and only if the stream is non-empty and every read fills the whole buffer |
| StreamCopy.OneByteStreamExample | app/src/main/java/link/standen/michael/phonesaver/activity/SaverActivity.kt:310-314 | a one-byte stream is saved as 1024 bytes (the byte and 1023 zeros), not as one byte |
| Saver.SaveUri | app/src/main/java/link/standen/michael/phonesaver/activity/SaverActivity.kt:252-265 | a save changes only the file system; a reference without an input stream fails and changes nothing |
| Saver.SaveUriOnlyTouches | app/src/main/java/link/standen/michael/phonesaver/activity/SaverActivity.kt:252-265 | `saveUri` writes no file but the joined destination |
| Saver.SaveUriSucceedsIff | app/src/main/java/link/standen/michael/phonesaver/activity/SaverActivity.kt:252-265 | `saveUri` returns true if and only if there is a stream and the copy hits no fault; then the destination holds the stream's padded blocks |
| Saver.SaveString | app/src/main/java/link/standen/michael/phonesaver/activity/SaverActivity.kt:330-355 | only the destination changes; the save succeeds if and only if the file opens and the single write does not throw; then the file holds exactly the text, unless `close` throws, which leaves it empty |
| Saver.SaveUrl | app/src/main/java/link/standen/michael/phonesaver/activity/SaverActivity.kt:270-299 | when the placeholder's `createNewFile` does not throw and, with a location set, the URI is `http` or `https` (the only schemes `DownloadManager.Request` accepts), the result is never true; it is null exactly when a location is set, in which case a placeholder file exists and exactly one request for the URL is appended to the download queue; without a location nothing changes |
| Saver.HandleImageVideo | app/src/main/java/link/standen/michael/phonesaver/activity/SaverActivity.kt:199-204 | a missing stream fails without a change; a present one is the `saveUri` of that stream under the name derived from it, so the result is true if and only if that copy hits no fault; only that destination is written |
| Saver.SaveEach | app/src/main/java/link/standen/michael/phonesaver/activity/SaverActivity.kt:240-244 | once the running result is false, nothing more is saved; the batch succeeds if and only if every item was attempted and every attempt returned true |
| Saver.BatchStopsAtFirstFailure | app/src/main/java/link/standen/michael/phonesaver/activity/SaverActivity.kt:240-244 | every attempted save but the last returned true, and when items were skipped the last attempt returned false |
| Saver.HandleMultipleImages | app/src/main/java/link/standen/michael/phonesaver/activity/SaverActivity.kt:237-247 | a missing list fails without a change; an empty list succeeds without a change; otherwise saves run in order until one fails, and the result is true if and only if all saves ran and succeeded; the results are those of `saveUri` on exactly the items reached, the device is the one those saves leave, and only their destinations are written |
| Saver.BatchSavesAttempted | app/src/main/java/link/standen/michael/phonesaver/activity/SaverActivity.kt:240-244 | the batch's device is the device after calling `saveUri` on exactly the items it reached, in order; the items after the first failure are never saved |
| Saver.BatchResultsAreAttempts | app/src/main/java/link/standen/michael/phonesaver/activity/SaverActivity.kt:240-244 | the batch's results are those of calling `saveUri` on exactly the items it reached, in order |
| Saver.ReplayOnlyTouches | app/src/main/java/link/standen/michael/phonesaver/activity/SaverActivity.kt:240-244 | saving items in order writes no file but their destinations |
| Saver.BatchOnlyTouchesAttempted | app/src/main/java/link/standen/michael/phonesaver/activity/SaverActivity.kt:240-244 | a batch writes no file but the destinations of the items it reached |
| Saver.AllResolveIsResolvable | app/src/main/java/link/standen/michael/phonesaver/activity/SaverActivity.kt:241-243 | when every item's name resolves, the batch never hits an unresolvable name |
| Saver.BatchIsPrefixOfAttemptAll | app/src/main/java/link/standen/michael/phonesaver/activity/SaverActivity.kt:240-244 | the batch's save results are a prefix of those of attempting every item in order |
| Saver.BatchSucceedsIffAllWould | app/src/main/java/link/standen/michael/phonesaver/activity/SaverActivity.kt:240-244 | the batch succeeds if and only if attempting every item would have succeeded for every item |
| Saver.HandleText | app/src/main/java/link/standen/michael/phonesaver/activity/SaverActivity.kt:206-235 | no text means no task and no notice; text that is not a URL gets `saveString`'s result and device under the name from the subject or the text, changing only its destination; a media URL gets `saveUrl`'s result for the URI parsed from the text, so without a location it fails without a change and with one exactly one request is queued; any other URL fails without a change |
| Saver.FinishIntent | app/src/main/java/link/standen/michael/phonesaver/activity/SaverActivity.kt:173-184 | null gives the in-progress notice, true the success notice, and false the failure notice, each if and only if |
| Saver.FinishIntentDistinguishes | app/src/main/java/link/standen/michael/phonesaver/activity/SaverActivity.kt:173-184 | different results always give different notices |
| Saver.UseIntent | app/src/main/java/link/standen/michael/phonesaver/activity/SaverActivity.kt:91-118 | the notice is missing exactly for a text intent without text, which also changes nothing; it is in progress only for a text intent with a location set; an intent no handler takes fails without a change; otherwise the notice is `finishIntent` of the chosen handler's result, and the device is the handler's |
| Saver.SuccessNoticeIff | app/src/main/java/link/standen/michael/phonesaver/activity/SaverActivity.kt:91-118 | the success notice is shown if and only if the handler's saves hit no fault: a single item's copy succeeds; attempting every item of a batch would succeed for each; a text that is not a URL is written; a missing batch gets the failure notice |
| Saver.CleanSaveSucceeds | app/src/main/java/link/standen/michael/phonesaver/activity/SaverActivity.kt:99-102 | a supported single item whose stream reads without error, saved where no step fails, gets the success notice |
| Saver.UseIntentOnlySavesSupported | app/src/main/java/link/standen/michael/phonesaver/activity/SaverActivity.kt:70-118 | an intent `testSupported` rejects is never saved and gets the failure notice; an accepted one always reaches a save handler |
| Saver.SuccessNoticeMeansSaved | app/src/main/java/link/standen/michael/phonesaver/activity/SaverActivity.kt:91-118 | the success notice means the intent was supported; a single item had a readable stream; every item of a batch was saved; shared text was not a URL |

## Left out

- `onCreate`, `LocationHelper` and the folder list are not modelled. The
  chosen folder is the `location` parameter. `LocationHelper.addRoot` and
  `removeRoot` are not part of this model, and a download request records
  the location as given.
- `showNotSupported`, the toasts' text and `exitApplication` are UI. The
  model only keeps which of the three notices is shown.
- The `AsyncTask` of `handleText` runs synchronously in the model.
- The network is an input. The `Probe` says whether `URL(text)` throws
  `MalformedURLException`, and gives the `Content-Type` header the
  connection reports. `Uri.parse` is also an input, through the probe's
  `Uri`. Its text must be the shared text.
- `DownloadManager` is a queue of recorded requests. The download itself,
  and the description text resource, are not modelled.
- Logging (`Log.d`, `Log.e`) is not modelled.
- Text is a sequence of characters. The `FileWriter` character encoding is
  not modelled.
- `BufferedOutputStream` buffering is not modelled. After a failed write,
  the model's file holds every buffer handed to `write` before the failure.
  How much of that reaches the disk depends on flushing.
- Saver.SaveUriSucceedsIff: the destination holds every block handed to
  `write`, even when the final `close` throws. In the source, that `close`
  flushes the `BufferedOutputStream`, so up to its last 8192 bytes can be
  missing while the result is true. Modelling this needs the stream's
  flushing, which is left out (see the line above).
- Saver.SaveString: the `closeFails` fault stands for a `close` that throws
  before any of the text's bytes reach the file, so the file is empty. A
  `close` that throws later, after the bytes are written, looks the same as
  the `closeFails == false` case. A text whose encoded bytes overflow the
  writers' buffers (8192 characters, then 8192 bytes) partly reaches the
  file before `close`. The model does not represent that partial file.
- Filenames.GetUriFilename: requires the name to resolve. Any reference
  without a display-name row and without a last path segment (line 366)
  throws a `NullPointerException` in the source; that crash is excluded.
  A display-name row whose `DISPLAY_NAME` is null (line 362) also crashes in
  `getFilename`. The model's display names are plain strings, so it has no
  such row.
- Saver.HandleText: requires `TextRunnable`. A missing `Content-Type`
  header, or a URL with neither subject nor last path segment, throws a
  `NullPointerException` in the source. A failing `openConnection` throws an
  uncaught `IOException`. So does a failing `createNewFile` in `saveUrl`.
  `URL(text)` also accepts `file:`, `ftp:` and `jar:` texts, but
  `DownloadManager.Request` (line 286) throws `IllegalArgumentException` for
  any scheme other than `http` and `https`. These crashes of the background
  task are excluded.
- Saver.HandleMultipleImages: requires every item the batch reaches to have
  a resolvable name, for the same reason as `GetUriFilename`.
- Saver.SaveUrl: requires `PlaceholderCreates`, and `DownloadAccepted` when
  a location is set. A failing `createNewFile` throws an `IOException` that
  nothing catches. `DownloadManager.Request(uri)` (line 286) throws
  `IllegalArgumentException` for any scheme other than `http` and `https`,
  after the placeholder was created. Both crash the `AsyncTask`, so they are
  excluded like the other crashes.
- Saver.SaveUri: exceptions from closing the input stream in `use` are not
  modelled. `openInputStream` (line 260) throws `FileNotFoundException` for
  a reference it cannot open, and nothing catches it. The model has only
  the null-stream case: a reference outside `streams` gives false. The
  crash is left out.
