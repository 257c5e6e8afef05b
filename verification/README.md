# Mandible: verified model

Mandible is a small image uploader. A request processes an image through external commands,
takes a random id, and stores the image and its thumbnails in one or more image stores. This
project models the parts of it that are hard to get right and proves what they promise.

| file | what it models |
|---|---|
| `FanOut.dfy` | n goroutines, two buffered channels, one collector that may return early: `MultiImageStore.Save` and `Exists`, `asyncProcessType.Process`, `MultiOCRCommand.Run`, as a step machine over every schedule |
| `MultiGet.dfy` | `MultiImageStore.Get`: winner election with the one-slot `done` channel, publication on the one-slot `results` channel, losers closing their readers |
| `MultiStore.dfy` | whole histories of calls on n in-memory replicas, against one map |
| `MemoryStore.dfy` | `InMemoryImageStore` |
| `HashGenerator.dfy`, `HashUniform.dfy` | the rejection sampler, its specification as a filter on the byte stream, and its lack of bias |
| `KeySpace.dfy` | who writes which key, over all interleavings of the generator, uploads and thumbnail requests |
| `NamePathMapper.dfy` | the two-pass template replacement, regexp expansion, and exactly which objects share a path in the shipped configurations |
| `OcrText.dfy`, `MultiOcr.dfy` | the word filter, and the choice of the best OCR text |
| `Commands.dfy` | the external programs, as functions from contents to contents |
| `Files.dfy`, `UploadedFile.dfy`, `ImageScaler.dfy`, `ImageProcessor.dfy` | temporary files, their owners, the processing chain, the scaler, the strategies |
| `Interleaving.dfy` | threads of atomic steps: which interleavings end alike, and the one race, whose OCR result arrives first |
| `ParallelStage.dfy`, `ParallelOutcome.dfy` | OCR and thumbnails running at once on one image, the OCR runner waiting for its two commands, and the link from every interleaving to the order in which `ImageProcessor.dfy` writes them |
| `CommandRunner.dfy` | the race between a command, its waiting goroutine and the timeout |
| `Server.dfy` | `uploadFile` from a recognised temporary file to the answer |
| `Outcomes.dfy` | what the answer and the store of a request are, written out in the commands alone |
| `Crop.dfy` | the crop arithmetic over exact reals |
| `Pigeonhole.dfy`, `Wrappers.dfy` | counting facts, `Option` |

How the outside world enters the model. Every theorem holds for all external commands, where a
command with its arguments is any function from the contents of its input file to the contents
of its output file, or to failure; a command that fails may leave anything at its output path.
The speller and the answers of stores that are not modelled are likewise arbitrary. The random
source is the list of reads still to come; when the list is used up the next read fails, which is
the `break` at imagestore/hash.go:33.

With the commands fixed, a request has one specified outcome: `ImageProcessor.Processed` is the
image it stores, `Server.AfterUpload` the store it leaves, `Server.AnsweredOk` says when it is
answered 200, and the imperative code is proved to do exactly that. What this means for a client
is proved about the specification (`Server.OkMeansStored`, `Server.OtherKeysAreKept`,
`ImageProcessor.StepsKeepTheLimit`), and in `Outcomes.dfy` without naming it: which commands, on
which inputs and in which order, have made the bytes that a 200 has stored.

Concurrency is modelled by schedules. An action names one goroutine's next atomic step, an
action is enabled exactly when Go would not block on it, and a run is any list of enabled
actions. Each protocol has four results: what every step keeps, that no worker ever blocks,
that every run is bounded, and that a run that cannot go on has returned with everything
accounted for. The parallel stage of the processing chain is written in one order in
`ImageProcessor.dfy`; the contract of `RunParallel` says that the files and the thumbnails'
paths it leaves are those that every interleaving of the very same commands leaves, and the text
that of every interleaving in which the same OCR result arrives first.
`ParallelOutcome.OnlyTheseOutcomes` says that no other files would satisfy this, and that the
texts of the two orders of arrival are exactly those the schedules set. `CommandRunner.dfy`
justifies treating a command as one step: once the call has returned its process is gone.

What turned out not to hold, with the exact condition under which it does:

* A `Save` that fails on some replica can leave two schedules of one `Get` returning different
  bytes, but only for an id that was already stored with other bytes: under every schedule, and
  at every moment after the call has returned, the bytes that are read are the same exactly when
  the id is new, or held these bytes already, or all replicas accept the bytes, or none does
  (`MultiStore.SaveIsHarmlessIff`). A new upload is the first case; whether it is found at all
  can still change while a worker of the failed call is running.
* A stored original can be overwritten exactly when the generator finds a hash absent while an
  upload already holds it unsaved (`KeySpace.RedrawIsTheOnlyDanger`).
* The two replacement passes are one substitution for all templates exactly when
  `${ImageSize}` cannot begin inside the id (`NamePathMapper.TwoPassesAreOneSubstitution`).
* In the plain configuration the second pass also rewrites the id, so two objects share a path
  exactly when their sizes and their rewritten ids are equal
  (`NamePathMapper.PlainPathsCollideIff`); an object has its path to itself exactly when its id
  contains neither `${ImageSize}` nor the size's own text (`NamePathMapper.OwnPathIff`). Between
  uploads this never happens; two thumbnails of one upload can collide
  (`NamePathMapper.ThumbPathsCollideIff`).
* In the sharded configuration references such as `${1}` in a name are expanded as well. For
  every set of characters, all matching ids made of them have different paths if and only if
  `$` is not among them (`NamePathMapper.IdsSeparatedIff`), and so have all thumbnails with names
  made of them (`NamePathMapper.ThumbsSeparatedIff`); thumbnails of different uploads never
  collide. No matching id without `$` has its path to itself among all ids
  (`NamePathMapper.NoShardedPathIsOwn`). An id's sizes are kept apart exactly when the id matches
  the regular expression; other ids are mapped to themselves whatever the size
  (`NamePathMapper.SizesSeparatedIffMatched`), and meet the paths of matching ids only for sizes
  that do not begin with two alphanumerics (`NamePathMapper.MatchedMeetsUnmatchedIff`).
* The parallel stage leaves the same files under all schedules exactly when no thumbnail is
  named like an OCR scratch file (`ParallelStage.FilesAreFreeIffUnreserved`).
* The OCR text is a race: all schedules set the same text exactly when the two recognised texts
  have different numbers of words, or are equal after filtering
  (`ParallelStage.TextIsFreeIffNoTie`).
* A failed request leaves temporary files behind. `Clean` never knows the square of a circle whose
  second command failed, so it always stays; when a step of the chain fails at most one file
  stays; when every command succeeds none does (`Server.UploadFile`).
* A crop keeps the orientation of its ratio exactly when the side that fixes it is not too far
  below zero; a side that is not negative never is (`Crop.CropKeepsOrientation`).

The comment at imageprocessor/processorcommand/ocrcommands.go:111 speaks of an average; the code
returns the text with the most words, and so does the model.

## Model

| member | source | states |
|---|---|---|
| FanOut.RunKeepsInv | imagestore/store.go:17-41 | in every run each worker's message is in exactly one place (a channel, or received), and nothing is received after a message that ends the call |
| FanOut.WorkersNeverBlock | imagestore/store.go:18-29 | at every moment of every run an unfinished worker can step, even after the collector has gone |
| FanOut.RunsAreBounded | imagestore/store.go:20-38 | no run has more than 3n + 1 steps |
| FanOut.StuckMeansFinished | imagestore/store.go:31-40 | a run that cannot be extended has returned and all its workers have finished |
| FanOut.ReturnMeaning | imageprocessor/imageprocessor.go:53-62 | the collector stops early exactly when some worker's message tells it to; otherwise it has heard from every worker once |
| FanOut.AnyStopperCanDecide | imageprocessor/imageprocessor.go:53-60 | every worker that reports a stop can be the one that ends the call |
| FanOut.SucceedsIffAllDo | imageprocessor/imageprocessor.go:39-63 | under every schedule the parallel stage (and Save) succeeds exactly when every worker did, and then none is still at work; an error is a failing worker's |
| MultiGet.StepKeepsInv | imagestore/store.go:74-106 | every step keeps: the token has one holder, its reader is in one place, every error is in one place, a loser's reader is closed once |
| MultiGet.AtMostOnePublished | imagestore/store.go:85-90 | at most one reader is ever published; it is in the channel or with the caller, not both, and is not closed |
| MultiGet.WorkersNeverBlock | imagestore/store.go:79-93 | no goroutine of a Get can be stuck on `errs`, `done` or `results` |
| MultiGet.RunsAreBounded | imagestore/store.go:79-103 | no run of Get has more than 4n + 1 steps |
| MultiGet.ReturnsReaderIffSomeStoreHasIt | imagestore/store.go:97-105 | whenever Get has returned, it gave a reader exactly when some store has one; otherwise all n errors have arrived and it gave the last of them, and no error only with no stores |
| MultiGet.GivesUpWithTheLastError | imagestore/store.go:95-105 | over every run that ends without a reader: all n errors have been sent, and the one returned is that of the worker that was the last of all to send one |
| MultiGet.GivesUpWithTheLastReceived | imagestore/store.go:97-105 | that error is the one at the head of `errs` when the run's last receive takes it |
| MultiGet.StuckMeansNothingLost | imagestore/store.go:79-105 | a run that cannot be extended has returned, and every opened reader is the one returned and open, or was closed exactly once |
| MultiGet.AnyHolderCanAnswer | imagestore/store.go:85-100 | every store with a reader can win the election |
| MultiGet.AnswerIsFixedIffHoldersAgree | imagestore/store.go:74-106 | Get returns the same bytes under all schedules exactly when the stores that answer hold the same bytes |
| MultiStore.ExistsAnswers | imagestore/store.go:43-72 | Exists answers false exactly when all stores say absent; true only if some store has the object; an error only if some store fails |
| MultiStore.ExistsCanAnswer | imagestore/store.go:58-69 | every store that does not say absent can decide the answer, so a fault and a presence race |
| MultiStore.GetFindsIffExists | imagestore/store.go:43-106 | on any replicas, under any two schedules, Get finds a reader exactly when Exists answers true |
| MultiStore.ServeRefinesOne | imagestore/store.go:17-106 | one call on agreeing replicas answers as one map does, and leaves them agreeing |
| MultiStore.ReplicasRefineOneMap | imagestore/store.go:17-106 | over any history of calls that do not overlap, each under any schedule, in which every Save returned success, n >= 1 replicas answer as one map |
| MultiStore.GetReturnsTheLastSave | imagestore/store.go:17-106 | a Get that ends such a history returns the bytes of the last Save under its id, and with no such Save what the replicas held at the start, or nothing |
| MultiStore.SaveIsHarmlessIff | imagestore/store.go:17-41 | on replicas that agree, whatever a Save returns, under every schedule and at every moment after it: all the bytes read under any id are the same if and only if the id is new, or held these bytes already, or all stores accept them, or none does |
| MultiStore.FailedSaveSplitsReaders | imagestore/store.go:31-40 | otherwise, for any accepting and any refusing store, Save can fail and two schedules of Get return the new and the old bytes |
| MemoryStore.InMemoryImageStore.Exists | imagestore/memorystore.go:24-32 | true exactly for the stored ids; absence is no error |
| MemoryStore.InMemoryImageStore.Save | imagestore/memorystore.go:34-51 | on a readable source the id holds its bytes and nothing else changes; otherwise nothing changes |
| MemoryStore.InMemoryImageStore.Get | imagestore/memorystore.go:53-65 | the bytes last saved, or an error when there are none |
| HashGenerator.AddBatch | imagestore/hash.go:36-61 | one batch adds its halved alphanumeric bytes, up to the length |
| HashGenerator.Draw | imagestore/hash.go:24-63 | the nested loops yield the first `length` alphanumerics of the halved byte stream before the first failed read, whatever the batch boundaries; short only after a failed read; no batch is read once the string is full |
| HashGenerator.OutcomeIsHash | imagestore/hash.go:24-63 | the string is the beginning of what the stream's bytes give, made of the alphabet, and of exact length exactly when enough acceptable bytes came |
| HashGenerator.AlphabetIs | imagestore/hash.go:44-46 | of the strings of one character exactly the digits and the letters of both cases are made of the alphabet |
| HashGenerator.LetterAccepted | imagestore/hash.go:53-60 | each of these comes from the byte of twice its code and from the next one |
| HashGenerator.OtherByteRejected | imagestore/hash.go:53-60 | every other byte adds nothing |
| HashGenerator.GoodBytesAre | imagestore/hash.go:27-36 | the byte stream is that of the reads before the first failed one, ten bytes each, in order |
| HashGenerator.Generator.Turn | imagestore/hash.go:23-71 | a string is sent exactly when it was absent from the store when checked |
| HashUniform.StreamsAreReads | imagestore/hash.go:27-34 | byte streams of length 10n and runs of n successful reads correspond one to one |
| HashUniform.SwapIsInvolution | imagestore/hash.go:36-61 | exchanging the j-th characters of two strings in the accepted bytes, keeping dropped bits and rejected bytes, undoes itself |
| HashUniform.SwapMovesOutcome | imagestore/hash.go:36-61 | the exchange turns every stream that yields one string into a stream that yields the other |
| HashUniform.NoBias | imagestore/hash.go:24-63 | any two alphanumeric strings of one length are drawn from equally many byte streams of each length |
| HashUniform.EachHashHasItsShare | imagestore/hash.go:24-63 | of the streams that fill a string, each string gets exactly one in 62 to the power of its length |
| KeySpace.SentIsChecked | imagestore/hash.go:65-70 | what a turn of the generator appends to the strings it has sent is a legal run of the machine: nothing, or the Check of that string |
| KeySpace.ThumbKeyIsNoHash | server/server.go:461-462 | a thumbnail key is never a hash |
| KeySpace.StepKeepsInv | server/server.go:145-151 | each step of the generator, an upload or a thumbnail request keeps every original readable, unless it redraws an id in flight |
| KeySpace.OriginalsAreNeverOverwritten | server/server.go:145-151 | over every run without a redraw, an original stored at any moment reads back with its own bytes at every later moment |
| KeySpace.RedrawIsTheOnlyDanger | imagestore/hash.go:65-70 | accepting a draw opens the way to an overwritten original if and only if an upload holds that hash unsaved |
| NamePathMapper.FirstPass | imagestore/namepathmapper.go:26 | the first replacement fills exactly the name placeholders |
| NamePathMapper.SecondPass | imagestore/namepathmapper.go:27 | the second fills exactly the size placeholders, when none can begin in the id |
| NamePathMapper.TwoPassesAreOneSubstitution | imagestore/namepathmapper.go:25-27 | for each id: both passes equal one simultaneous substitution for all templates and sizes, if and only if the size placeholder cannot begin in the id |
| NamePathMapper.MatchesIs | config/default.conf.json:29 | the ids that match are those that begin with two digits or letters of either case |
| NamePathMapper.MatchIs | config/default.conf.json:29 | the groups of a match are the id's first two characters, and the match is its first line |
| NamePathMapper.EscapeExpands | imagestore/namepathmapper.go:30 | in the replacement text `$$` is a dollar sign |
| NamePathMapper.BracedExpands | imagestore/namepathmapper.go:30 | a name in braces after a dollar sign is the match, the first or the second group for 0, 1 and 2, and for every other name nothing |
| NamePathMapper.BareExpands | imagestore/namepathmapper.go:30 | a name right after a dollar sign means the same, and is as long as it can be |
| NamePathMapper.LoneDollarExpands | imagestore/namepathmapper.go:30 | a dollar sign before anything else, or at the end, is itself |
| NamePathMapper.OpenBraceExpands | imagestore/namepathmapper.go:30 | so is one before a brace that is not closed right after a name |
| NamePathMapper.PlainPath | config/default.conf.json:15 | for every id and size the path is size/id, with the size placeholder replaced in the id too |
| NamePathMapper.ShardedPath | config/default.conf.json:29-30 | for every matching id the path is size/c1/c2/ followed by the id after replacement and expansion, and a copy of what it has after its first line |
| NamePathMapper.PlainPathsCollideIff | config/default.conf.json:15 | any two objects share a path exactly when their sizes and their ids after replacement are equal |
| NamePathMapper.PlainPathsAreDistinct | config/default.conf.json:15 | two objects whose ids lack the placeholder share a path exactly when id and size are equal |
| NamePathMapper.OwnPathIff | imagestore/namepathmapper.go:26-27 | for sizes like the server's, no other object of any size has this object's path if and only if its id contains neither the placeholder nor the size |
| NamePathMapper.ServerSizesAreOrdinary | server/server.go:148 | the sizes `original` and `thumbnail` are such sizes |
| NamePathMapper.ShardedPathsCollideIff | config/default.conf.json:29-30 | any two objects of sizes like the server's share a path exactly when both ids match with sizes, first two characters and last elements equal, or neither matches and the ids are equal |
| NamePathMapper.MatchedMeetsUnmatchedIff | imagestore/namepathmapper.go:29-31 | some id that does not match has the path of a matching object if and only if the size of that one does not begin with two alphanumerics |
| NamePathMapper.ShardedPathsAreDistinct | config/default.conf.json:29-30 | two matching objects whose ids lack `$` share a path exactly when id and size are equal |
| NamePathMapper.IdsSeparatedIff | config/default.conf.json:29-30 | for every set of characters with an alphanumeric: all matching ids over it have different paths if and only if it lacks `$` |
| NamePathMapper.NoShardedPathIsOwn | imagestore/namepathmapper.go:29-31 | every matching id without `$` shares its path with another matching id |
| NamePathMapper.ReferencesCollide | server/server.go:527 | under every hash the thumbnail named `${1}` shares its sharded path with the one named by the hash's first character |
| NamePathMapper.SizesSeparatedIffMatched | imagestore/namepathmapper.go:29-31 | for every id, its sizes have different paths exactly when the id matches the regular expression |
| NamePathMapper.ThumbPathsCollideIff | server/server.go:527 | in the plain configuration two thumbnails of any names share a path exactly when they are of one upload and their names are equal after replacement |
| NamePathMapper.ShardedThumbsCollideIff | server/server.go:527 | in the sharded configuration two thumbnails of any names share a path exactly when they are of one upload and their last elements are equal |
| NamePathMapper.ThumbsSeparatedIff | server/server.go:527 | for every set of characters: all thumbnails of all uploads with names over it have different sharded paths if and only if it lacks `$` |
| NamePathMapper.ThumbNeverMeetsOriginal | server/server.go:526-529 | whatever its name, a thumbnail never has the path of an original, in either configuration |
| OcrText.TokensOfJoin | imageprocessor/processorcommand/ocrcommands.go:40-57 | tokenising the space-joined text of any words gives the words back |
| OcrText.TokensSplit | imageprocessor/processorcommand/ocrcommands.go:40-41 | a character that is not a word character separates the tokens on its two sides |
| OcrText.FilterKeepsASubsequence | imageprocessor/processorcommand/ocrcommands.go:45-55 | the filter's words are the kept words of the input, in order, and the word count never grows |
| OcrText.FilterIsIdempotent | imageprocessor/processorcommand/ocrcommands.go:26-58 | filtering twice is filtering once, for any fixed speller |
| OcrText.WordSurvivesIff | imageprocessor/processorcommand/ocrcommands.go:38-55 | a token survives exactly when it has three digits in a row, or is `a` or `i`, or has several characters and is in the speller's words; without a speller the text is as it was |
| OcrText.SurvivorsKeepTheirCount | imageprocessor/processorcommand/ocrcommands.go:45-55 | a token that survives does so as often as it occurs |
| OcrText.OneCharacter | imageprocessor/processorcommand/ocrcommands.go:40 | the characters tokens are made of are the digits, the letters of both cases and the underscore |
| OcrText.TrimSpaceIs | imageprocessor/processorcommand/ocrcommands.go:153 | trimming takes Unicode's white space off both ends, all of it and nothing else |
| OcrText.LongWordsCounts | imageprocessor/processorcommand/ocrcommands.go:65-70 | the count is that of the positions of words of more than one character |
| OcrText.OcrResult.RemoveNonWords | imageprocessor/processorcommand/ocrcommands.go:26-58 | the loop and the final trim leave the kept words joined by single spaces; without a speller the text is unchanged |
| OcrText.OcrResult.WordCount | imageprocessor/processorcommand/ocrcommands.go:60-73 | the number of tokens longer than one character |
| MultiOcr.Collect | imageprocessor/processorcommand/ocrcommands.go:92-112 | every result is filtered, and the one returned is the earliest of those with the most words |
| MultiOcr.EarliestBestOfTwo | imageprocessor/processorcommand/ocrcommands.go:95-112 | of two results the earliest best is the first, unless the second has more words |
| MultiOcr.BetterIsWordier | imageprocessor/processorcommand/ocrcommands.go:97-104 | that is the second filtered text when its words are more, and otherwise the first |
| MultiOcr.RunPicksTheBestOfAll | imageprocessor/processorcommand/ocrcommands.go:77-113 | under every schedule an error exactly when some command fails; otherwise the earliest best of the arrivals scores at least as much as every command |
| CommandRunner.RunKeepsInv | imageprocessor/processorcommand/runner.go:19-37 | in every run the process's result is in one place, a sent result means an exited process, and no run can go on for ever |
| CommandRunner.NothingRunsAfterReturn | imageprocessor/processorcommand/runner.go:21-37 | whenever the call has returned its process and its goroutine are gone; success means the process succeeded |
| CommandRunner.ReturnTells | imageprocessor/processorcommand/runner.go:26-37 | for every run that has returned, in terms of its actions: a timeout is reported exactly when the timer fired in it; success exactly when the command was started, exited well of its own accord, and the timer did not fire |
| CommandRunner.EveryOutcomeIsPossible | imageprocessor/processorcommand/runner.go:19-37 | the exit taken in time, and the timer first, before the exit or after it and with or without a successful kill, are all runs, with the outcomes named |
| CommandRunner.OnlyTheProcessCanDelay | imageprocessor/processorcommand/runner.go:26-38 | the call blocks on nothing but the process's exit |
| Files.RunCommand | imageprocessor/processorcommand/runner.go:11-38 | success exactly when the command succeeds on its input, and then the output path holds what it makes of it; nothing else ever changes |
| Files.Convert | imageprocessor/processorcommand/gm.go:29-85 | the output path is the input path with a suffix, and holds what the command makes of the input |
| UploadedFile.Upload.SetPath | uploadedfile/uploadedfile.go:83-88 | the old file is deleted, and the adopted one survives exactly when the paths differ |
| UploadedFile.Upload.FileSize | uploadedfile/uploadedfile.go:110-124 | the size of the current file, or an error when it is gone |
| UploadedFile.Upload.Clean | uploadedfile/uploadedfile.go:126-132 | the current file and all thumbnail files are deleted, and nothing else |
| UploadedFile.Upload.Advance | imageprocessor/imageorienter.go:11-19 | a successful link leaves the upload with one live file, the command's output at its current path; a failed one leaves the current file and at most one stray |
| UploadedFile.ThumbFile.SetPath | uploadedfile/thumbfile.go:70-78 | the path is adopted only if there is a file |
| UploadedFile.ThumbFile.Process | uploadedfile/thumbfile.go:152-288 | only image_name is written; success exactly when the first command succeeds on the image and, for a circle, the second on what the first has made of it; then image_name holds what the last of them made and is the thumbnail's path; a circle whose second command fails leaves its square there, not adopted |
| ImageScaler.CountdownIsBounded | imageprocessor/imagescaler.go:65-91 | at most ten resizes, each by a multiple of ten in 0..90 |
| ImageScaler.OneMoreTry | imageprocessor/imagescaler.go:74-91 | one resize of the loop ends it as specified, with the first size that fits or with nothing fitting, or leaves it going |
| ImageScaler.Shrink | imageprocessor/imagescaler.go:74-91 | the resize loop terminates, and succeeds exactly when some number of resizes in tens, the last by at least 10%, leaves a non-empty file under the target with every earlier one too large; the upload then is the first such |
| ImageScaler.ScaleJpeg | imageprocessor/imagescaler.go:42-92 | succeeds with the first of quality 90, quality 70 and the resizes to come under the target; the starting percentage is fixed by the size after quality 70 |
| ImageScaler.Scale | imageprocessor/imagescaler.go:14-40 | JPEG is scaled, PNG is made JPEG first, anything else fails |
| ImageScaler.ScaledFits | imageprocessor/imagescaler.go:14-92 | a success ends as JPEG strictly under the target, from JPEG or PNG; after one or two quality steps and at most nine resizes, which the path shows, and non-empty after resizing |
| ImageScaler.JpegIsScaledIff | imageprocessor/imagescaler.go:42-92 | when a JPEG is scaled and to what: quality 90 if that fits; else quality 70 of it if that does; else exactly when resizes from 30, 40, 60 or 90 percent, by the excess of 15, 10 or 5 MiB, down in tens reach a file that fits, and then what the last of them makes, at the path that shows it |
| ImageScaler.OthersAreScaledIff | imageprocessor/imagescaler.go:14-40 | a PNG is scaled exactly when it can be made a JPEG and that is; nothing else ever is |
| ImageScaler.ScaledKeeps | imageprocessor/imagescaler.go:31-92 | whatever the quality and resize commands preserve, and the conversion of a PNG, a scaled image keeps |
| ImageProcessor.CompressLosslessly | imageprocessor/compresslosslessly.go:12-26 | only JPEG, PNG and GIF pass; JPEG and PNG as their compressor's output at its suffix, with one live file |
| ImageProcessor.StripExif | imageprocessor/exifstripper.go:10-21 | a JPEG is rewritten in place, anything else is left alone |
| ImageProcessor.RunSteps | imageprocessor/imageprocessor.go:97-110 | the sequential steps succeed exactly when each command does in turn on the output of the one before, keep one live file and touch no other |
| ImageProcessor.StepsKeepTheLimit | imageprocessor/imageprocessor.go:97-110 | an image over the limit ends as JPEG strictly under it, and never succeeds as GIF; one within it keeps its type; the path shows the steps taken in every case |
| ImageProcessor.JpegStepsIff | imageprocessor/imageprocessor.go:97-110 | for a JPEG the steps succeed exactly when orienting, jpegtran on that, exiftool on that and, over the limit, scaling of that do, and this is what they end with |
| ImageProcessor.PngStepsIff | imageprocessor/imageprocessor.go:97-110 | for a PNG the same with orienting, optipng and, over the limit, scaling |
| ImageProcessor.OtherStepsIff | imageprocessor/compresslosslessly.go:12-26 | a GIF within the limit is oriented; a larger one and every other type fails |
| ImageProcessor.MetadataIsStripped | imageprocessor/exifstripper.go:10-21 | whatever holds of all exiftool's outputs, and is preserved by scaling, holds of every JPEG that leaves the steps |
| ImageProcessor.CompressionIsKept | imageprocessor/compresslosslessly.go:12-52 | the same for jpegtran's outputs on JPEG and optipng's on PNG |
| ImageProcessor.OrientationIsKept | imageprocessor/imageorienter.go:10-19 | the same for the outputs of orienting, on every type |
| ImageProcessor.OcrCommand | imageprocessor/processorcommand/ocrcommands.go:129-156 | the result is the trimmed and lowered text that tesseract reads off the prepared picture; on success both scratch files are gone, and nothing else changes in any case |
| ImageProcessor.BestText | imageprocessor/ocr.go:30-36 | of the two recognised texts, filtered, the one with more words, and on a tie the one that arrives first |
| ImageProcessor.RunOcr | imageprocessor/ocr.go:14-24 | succeeds exactly when both commands do; the text is then the better of the two texts recognised on this image, and no scratch file is left; the image and the other files are left alone |
| ImageProcessor.RunThumbs | imageprocessor/imageprocessor.go:88-95 | every thumbnail is attempted; success exactly when every thumbnail's commands succeed, and then each is at image_name with the picture drawn from this image, and the upload owns exactly the image and its thumbnails if it owned only the image before; the square of each circle that could not be cut out is left |
| ImageProcessor.DrawableIff | uploadedfile/thumbfile.go:152-288 | all thumbnails can be drawn exactly when each one's command for its name and the image's type succeeds on the image, and for a circle the second command on what the first has made |
| ImageProcessor.DrawnMeans | imageprocessor/processorcommand/gm.go:151-172 | the file at image, underscore, name holds what its command makes of the image; for a circle, what the second command makes of that |
| ImageProcessor.DrawnShapes | imageprocessor/processorcommand/gm.go:151-172 | if all squares made satisfy one predicate and rounding takes it to another, then the files of squares satisfy the one and those of circles the other |
| ImageProcessor.RunParallel | imageprocessor/imageprocessor.go:112-121 | succeeds exactly when every command of the stage does on the image; files and paths are then those that every interleaving of these very commands leaves, the text that of every interleaving in which the same OCR result arrives first, and the image is unchanged |
| ImageProcessor.RunEverything | imageprocessor/imageprocessor.go:97-124 | a whole run succeeds exactly when all its commands do, ends with the specified image, which the parallel stage leaves unchanged, its thumbnails and its text, and touches no other file |
| ImageProcessor.RunStrategy | imageprocessor/imageprocessor.go:83-124 | whatever the strategy: success exactly when its commands succeed, the specified image, and Clean knows all files that are left |
| Interleaving.StepsCommute | imageprocessor/imageprocessor.go:42-51 | steps on disjoint cells commute, failures included |
| Interleaving.EveryInterleavingIsTheSequence | imageprocessor/imageprocessor.go:39-63 | any interleaving of processors that do not meddle with each other, or wait where they would, ends as running them one after another, failures included |
| Interleaving.EveryInterleavingIsItsSequence | imageprocessor/processorcommand/ocrcommands.go:81-109 | when the order of arrival is all they race for, an interleaving ends as the sequence in which it is known who arrives first there |
| ParallelStage.ScheduleOnlyOrdersArrivals | imageprocessor/imageprocessor.go:112-121 | with proper thumbnail names a schedule of OCR and thumbnails decides nothing but whose OCR result arrives first; with that known it ends as the sequence, and none of the processors writes the image |
| ParallelStage.EitherCanArriveFirst | imageprocessor/processorcommand/ocrcommands.go:81-98 | there are schedules for either order of arrival |
| ParallelStage.SequenceOutcome | uploadedfile/thumbfile.go:171-288 | afterwards the text is the better of the two recognised on the image, every thumbnail holds the picture drawn from it, no scratch file is left and nothing else has changed |
| ParallelStage.StageSucceedsIff | imageprocessor/imageprocessor.go:53-62 | under every schedule the stage succeeds exactly when every command succeeds on the image |
| ParallelStage.ReservedNameClashes | imageprocessor/processorcommand/ocrcommands.go:130-146 | a thumbnail named like a scratch file gives two schedules with different results |
| ParallelStage.FilesAreFreeIffUnreserved | imageprocessor/imageprocessor.go:112-121 | all interleavings leave the same files and paths, from every start, if and only if no thumbnail is named `meme.jpg`, `meme.txt`, `standard.jpg` or `standard.txt` |
| ParallelStage.TextIsFreeIffNoTie | imageprocessor/processorcommand/ocrcommands.go:95-109 | with proper names all interleavings set the same text if and only if the two texts do not have equally many words and differ after filtering |
| ParallelStage.ScheduleFreeIff | imageprocessor/imageprocessor.go:112-121 | the schedule changes neither files nor paths nor text if and only if no name is a scratch file's and the texts do not tie |
| ParallelOutcome.OneOrderIsEveryOrder | imageprocessor/imageprocessor.go:39-63 | files in which each thumbnail holds what its given commands make of the image are what every interleaving of those commands and the given OCR commands leaves, and its text is the better of the two recognised, the first to arrive on a tie |
| ParallelOutcome.OnlyTheseOutcomes | imageprocessor/imageprocessor.go:39-63 | the files that every schedule of given commands leaves are unique, and the texts that schedules set are exactly the two of the two orders of arrival |
| Server.ThumbsReadBack | server/server.go:526-529 | each thumbnail reads back under hash/name, and no other key changes, least of all a hash |
| Server.BuildThumbResponse | server/server.go:522-539 | stops at the first thumbnail without a file, with exactly those before it saved; succeeds exactly when there is none, and then the response lists exactly the requested names |
| Server.StoreUpload | server/server.go:145-207 | the current file is saved under the hash, and each thumbnail's file under its key up to the first missing one; 200 exactly when none is missing and the image's dimensions can be read |
| Server.UploadFile | server/server.go:108-208 | 200 exactly when every command succeeds, every requested thumbnail has a file and the dimensions can be read; the store afterwards is the specified one in every case; once the commands have succeeded no temporary file of the request is left, even on a 500; after a failed step of the chain at most one is, and the square of each circle that could not be cut out always is; other files are untouched in every case |
| Server.SquaresSurvive | uploadedfile/uploadedfile.go:126-132 | Clean deletes the image and the adopted thumbnails, never the square of a circle that could not be cut out |
| Server.OkMeansStored | server/server.go:145-207 | on a 200 the hash reads back as the processed bytes of the uploaded file, each hash/name as the picture its commands make of those bytes, and an upload over the limit was cut below it |
| Server.OtherKeysAreKept | server/server.go:145-177 | whatever the answer, no key but the hash and hash/name of the requested names changes |
| Server.UploadIsARun | server/server.go:145-151 | what a request does to the store is a run of the key space machine: nothing, or saving the original under the hash it holds and then thumbnails under it |
| Server.UploadKeepsOriginals | server/server.go:145-151 | so a request leaves every stored original readable with its own bytes |
| Outcomes.UnprocessedOkIff | server/server.go:128-207 | without the sequential steps: 200 exactly when the dimensions of the upload can be read and its thumbnails' commands succeed on it, or none are asked for where none are made |
| Outcomes.EverythingOkIff | server/server.go:128-207 | with them: 200 exactly when the steps succeed and, on what they end with, both OCR commands do, every thumbnail's commands do, and the dimensions can be read |
| Outcomes.TypeOf | imageprocessor/imagescaler.go:31-40 | the type a 200 ends with is the upload's, but `image/jpeg` for a PNG over the limit |
| Outcomes.StoredOriginal | server/server.go:145-159 | on a 200 the hash holds the upload itself, or what the steps make of it, and the size is that of the stored bytes |
| Outcomes.WithinLimitStores | imageprocessor/imageprocessor.go:97-110 | within the limit the hash holds exiftool's output on jpegtran's on the oriented JPEG, optipng's on the oriented PNG, or the oriented GIF; no other type is accepted |
| Outcomes.OverLimitStores | imageprocessor/imagescaler.go:31-92 | over the limit it holds, strictly smaller than that, quality 90, quality 70 of that, or the end of a trail of resizes, of the JPEG that the upload has been made into |
| Outcomes.StoredIsStripped | imageprocessor/exifstripper.go:10-21 | whatever holds of all exiftool's outputs, and is preserved by scaling, holds of every stored JPEG |
| Outcomes.StoredThumbs | server/server.go:522-539 | on a 200 the key hash, slash, name holds what the command for that name and the stored type makes of the stored original; for a circle, what the second command makes of that |
| Outcomes.StoredShapes | imageprocessor/processorcommand/gm.go:151-172 | if all squares made satisfy one predicate and rounding takes it to another, then the stored squares satisfy the one and the stored circles the other |
| Outcomes.FailedYetStored | server/server.go:161-185 | a 500 that has changed the store has stored an original whose dimensions cannot be read, or was asked for thumbnails where none are made |
| Outcomes.NothingElseChanges | server/server.go:145-177 | whatever the answer, no key changes but the hash and hash, slash, name of the requested names |
| Outcomes.TextIs | imageprocessor/processorcommand/ocrcommands.go:129-156 | the text of a 200: of the two texts that tesseract reads off the two pictures made of the stored original, each trimmed, lowered and filtered, the one with more words, and either when they have equally many |
| Crop.CropMeetsRatioTightly | uploadedfile/thumbfile.go:92-147 | one side is fixed: the requested size, or under a maximum the smaller of that maximum and the original's side, or 0 when the dimensions cannot be read; the other is the least integer that meets the ratio |
| Crop.CropKeepsOrientation | uploadedfile/thumbfile.go:137-147 | a wide ratio gives no tall crop, nor a tall ratio a wide one, exactly when the fixing side times the ratio's difference exceeds minus its smaller part, as it does for every side that is not negative |
| Crop.CropDependsOnRatioOnly | uploadedfile/thumbfile.go:137-147 | multiplying both parts of the ratio changes nothing |

## Left out

- Draw: the random source is a finite list of reads; a source that delivers no acceptable byte for ever, on which the code loops for ever, is not modelled.
- RunThumbs: written in one order; after a failure the real call returns while other processors still run, so of the upload's own files then only the squares that are certainly left are named, and not the thumbnails that finish after Clean.
- ProcessAndStore: the upload's steps run over one in-memory store; several replicas are covered by the refinement in MultiStore, overlapping requests by KeySpace.
- Upload.FileSize: fails only when the path is missing, so the two reads whose errors scaleJpeg ignores succeed after a successful command.
- ThumbFile.Process: the per-shape size checks are part of the thumbnail's command, which fails where they refuse.
- RunCommand: a command's outcome depends on its arguments and the contents of its input; a request runs no command twice on one input, so a timeout is a failure on that input.
- ComputeCrop: exact reals instead of float64, positive ratios, and no parsing of the ratio text.
- TokensOfJoin: text is a sequence of characters with ASCII word characters, as in Go's `\w`; byte encodings are not modelled.
- ReplicasRefineOneMap: histories end at the first failed Save, whose remaining workers may still write later.
- The URL of a stored object stays empty, as the in-memory store leaves it; the URLs of the other stores are not part of this model.
- Timeout: may fire at any moment; the sixty seconds, and a timeout on a command that never started, are not modelled.
- General regular expressions: only the one shipped pattern, with the full expansion language of its replacement text.
- HTTP routing, form and JSON handling, downloads, authentication, statistics, configuration loading and the S3, GCS and local-disk clients.
- Image contents: what a command makes of an image, and whether its dimensions can be read, are arbitrary functions of the contents.
