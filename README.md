# SimpleDownloader, modelled in Dafny

SimpleDownloader is a Go library that downloads one HTTP resource. It can split the
resource into byte ranges and fetch them in parallel. A `Downloader` holds the shared
settings: save directory, proxy, timeout, worker count and user agent. A `DownloadTask`
holds one URL and the state of its download. `Download` runs four steps:

1. `initClient` chooses the proxy, installs the dial rewrite for a forced IP, applies the
   host and certificate policy, and assembles the URL.
2. `initFiles` sends a HEAD probe, accepts only status 200 or 206, and learns the file
   name, range support and size from the response. Then it opens the segment files
   (`savePath.0` … `savePath.N-1`) or the single destination file.
3. Workers fetch their ranges. Every write of `copy` adds the bytes written to
   `writtenBytes`. The first error that arrives ends the download: the segments are
   deleted, or with `BreakPoint` only closed.
4. `mergeFiles` appends the segments to the destination in index order and deletes them.

The model keeps this pipeline and replaces everything outside SimpleDownloader with
inputs. The network becomes a probe function and a fetch function from requests to
answers. The file system is a map from file names to byte sequences, and an open file is
a handle with a name, an open flag and an offset. Injected faults stand for failing file
operations. The order in which workers finish is a schedule. Proxy URL parsing is a
boolean.

Modules:

- `Wrappers`: `Option`, `Result`, the error kinds and injected faults.
- `GoStrings`: ASCII `strings.ToLower`, `strings.Index`, `strings.Split`,
  `strings.Join`, and `%d` rendering with its parser.
- `Config`: `NewDownloader` and the default scheme of `NewDownloadTask`.
- `Http`: requests, probe answers and `Header.Get`.
- `Transport`: the decision rules of `initClient`.
- `Ranges`: `splitBytes` and its tiling theory.
- `Probe`: the HEAD request, the status gate, `filename="(.*)"` extraction, `path.Base`
  and `setFileInfo`.
- `SegmentStore`: `openTempFiles`, `mergeFiles`, `CleanTempFiles` and `closeTempFiles`
  over the file map.
- `Fetcher`: `copy` with its counting `to` closure, and the `start` worker.
- `Orchestrator`: the task state as a value; `Download` and every step of it as
  functions; the end-to-end theorems.
- `Tasks`: the class `DownloadTask`. Its fields are those of the Go struct, and its
  methods update them in place. Every method ensures that the new state is the
  `Orchestrator` function of the old state, so the theorems proved there are the
  methods' theorems.

The main theorem is `Orchestrator.DownloadFetchesResource`. It assumes:

- no explicit proxy is set, or it parses;
- the probe answers every request alike, with status 200 or 206 and the resource's length;
- no open and no merge fails;
- the server answers every range with the range's bytes, and ignores an invalid
  (inverted) Range header and sends the whole resource, which section 3.1 of RFC 7233
  allows;
- with range support, `DownloadRoutine` is at least 1;
- with range support, every segment file `savePath.i` is absent or empty beforehand;
- the resource is empty, or it has at least one byte per worker.

Then, on every completion schedule, `Download` succeeds. The destination holds exactly
the resource, `writtenBytes` equals its length, no segment is left behind, and no
unrelated file is touched. `Orchestrator.DownloadAnswers` drops the last assumption and
states what the destination holds in general: the answers to the planned ranges, in
index order. `Orchestrator.DownloadSmallFileRepeats` shows where the last assumption
matters (see "## Findings").

## Model

| member | source | states |
|---|---|---|
| Config.NewDownloader | downloader.go:12-21 | the defaults: save path "./", no proxy, 60 s timeout, 4 workers, the browser user agent |
| Config.WithDefaultScheme | downloader.go:29-31 | an empty scheme becomes "http"; any other URL is kept unchanged; the result always has a scheme |
| Config.WithDefaultSchemeIdempotent | downloader.go:29-31 | applying the default twice is the same as once |
| Orchestrator.NewTask | downloader.go:24-42 | a new task takes host, path and query from the URL, the defaulted scheme, and empty name, IP, host override, client, sinks and counter |
| Tasks.DownloadTask.constructor | downloader.go:24-42 | the object's state is NewTask of the downloader and the parsed URL |
| Tasks.DownloadTask.SetFileName | task.go:34-37 | only the file name changes, to the argument |
| Tasks.DownloadTask.ForceMultiThread | task.go:41-44 | only acceptRange changes, to true |
| Tasks.DownloadTask.ForceHttps | task.go:47-50 | only the scheme changes, to "https" |
| Tasks.DownloadTask.ForceHttp | task.go:53-56 | only the scheme changes, to "http" |
| Tasks.DownloadTask.WithResolvedIp | task.go:70-73 | only resolvedIP changes |
| Tasks.DownloadTask.WithResolvedIpOnHost | task.go:95-99 | the old host becomes the host override and the IP the host; the task still presents the old host name |
| Tasks.DownloadTask.ReplaceHostName | task.go:102-105 | only the URL host changes |
| Tasks.DownloadTask.AddHostNameToHeader | task.go:108-111 | only the host override changes |
| Tasks.DownloadTask.IgnoreCertificateVerify | task.go:114-117 | only ignoreCert changes, to true |
| Tasks.DownloadTask.GetHostName | task.go:120-125 | the host override when it is set, else the URL host |
| Tasks.DownloadTask.GetWrittenBytes | task.go:128-130 | the byte counter of the state |
| Tasks.DownloadTask.GetFileSize | task.go:133-135 | the probed size of the state |
| Transport.HostName | task.go:120-125 | GetHostName: a non-empty override wins, otherwise the URL host |
| Transport.ResolvedIpOnHost | task.go:95-99 | the IP becomes the URL host, the old URL host becomes the override, the certificate flag is kept |
| Transport.ResolvedIpOnHostKeepsName | task.go:95-99 | after the swap, the host name presented is the original host |
| Transport.SelectProxy | task.go:143-152 | it fails exactly when an explicit proxy does not parse; an explicit proxy wins; otherwise the environment proxy is used unless isNoProxy is set |
| Transport.HostRuleAsWritten | task.go:163-167 | the code as written: an override sets ignoreCert; no override copies the host into the override |
| Transport.HostRuleAsWrittenNotIdempotent | task.go:163-167 | a task with no override gets certificate checks switched off on the second run |
| Transport.HostRule | task.go:163-167 | the corrected rule: host and override unchanged; ignoreCert is on exactly when it already was or an override is set |
| Transport.HostRuleCorrect | task.go:163-167 | the corrected rule is idempotent; it presents the same host name and sets the same certificate flag as the code's first run |
| Transport.BuildUrl | task.go:173-176 | scheme://host + path, followed by "?" + query only when the query is non-empty |
| Transport.DialAddress | task.go:153-158 | definition; its behaviour is stated by Transport.DialAddressFields and Transport.DialAddressText |
| Transport.DialTarget | task.go:153-162 | definition; its behaviour is stated by Orchestrator.InitClientDials |
| Transport.DialAddressFields | task.go:153-162 | the rewritten address splits into the resolved IP's first field followed by every later field of the dialled address |
| Transport.DialAddressText | task.go:153-162 | as text: the resolved IP up to its first ':', then the dialled address from its first ':' |
| GoStrings.IndexOf | task.go:156-158 | definition; its behaviour is stated by its own ensures (the first index of the character, or -1) and GoStrings.JoinSplit |
| GoStrings.Split | task.go:156-158 | definition; its behaviour is stated by GoStrings.JoinSplit and GoStrings.SplitJoin |
| GoStrings.Join | task.go:156-158 | definition; its behaviour is stated by GoStrings.JoinSplit and GoStrings.SplitJoin |
| GoStrings.JoinSplit | task.go:156-158 | joining the ':' fields of a string gives the string back |
| GoStrings.SplitJoin | task.go:156-158 | splitting a join of separator-free fields gives the fields back |
| Orchestrator.InitClient | task.go:137-179 | fails exactly on an unparsable explicit proxy, keeping the state apart from the client; otherwise sets the URL, the transport and the certificate flag (on when it was on or an override is set), stores the URL host as headerHost when none is set, presents the same host name as before, and changes nothing else |
| Orchestrator.InitClientDials | task.go:153-162 | the installed client dials the given address when no IP is forced, and otherwise the forced IP up to its first ':' followed by the address from its first ':' |
| Orchestrator.InitClientSecondRunSkipsVerification | task.go:163-167 | a task with no override and verification on keeps verification after one successful initClient, and loses it after a second |
| Orchestrator.InitClientCorrected | task.go:163-167 | definition; its behaviour is stated by Orchestrator.InitClientIdempotent |
| Orchestrator.InitClientIdempotent | task.go:163-167 | initClient with the corrected host rule leaves headerHost as it was, presents the same host name and sets the same certificate flag as the code, and a second run after a successful first one changes nothing |
| Tasks.DownloadTask.InitClient | task.go:137-179 | the new state and the error are Orchestrator.InitClient of the old state |
| Tasks.DownloadTask.InstallTransport | task.go:153-176 | the state after the success branch: the host rule as written (an override turns ignoreCert on, no override copies the host into headerHost), the client with proxy, forced IP and certificate flag, the built URL |
| Ranges.GoDiv | task.go:185 | Go's truncating division: the remainder has the dividend's sign and lies within the divisor |
| Ranges.PlannedRange | task.go:188-192 | definition; its behaviour is stated by Ranges.PlanShape and Ranges.PlannedRangeOrdered |
| Ranges.Plan | task.go:181-197 | definition; its behaviour is stated by Ranges.SplitBytes, Ranges.PlanShape, Ranges.PlanTiles and Ranges.PlanReassembles |
| Ranges.SplitBytes | task.go:181-197 | the loop produces the plan: exactly threads ranges, the first starting at 0 and the last ending at fileSize-1 |
| Ranges.PlanShape | task.go:184-194 | the first range starts at 0 and the last ends at fileSize-1; consecutive ranges are adjacent; every range but the last holds fileSize/threads bytes and the last holds the rest |
| Ranges.PlanNonEmpty | task.go:185-192 | with fileSize >= threads, no range is empty |
| Ranges.PlanOneThread | downloader.go:73 | a one-thread plan is the single range [0, fileSize-1] |
| Ranges.PlanSmall | task.go:184-194 | with fewer bytes than threads, every range but the last is the inverted [0, -1] and the last is [0, fileSize-1] |
| Ranges.SmallBlock | task.go:185 | with fewer bytes than threads the block size is 0 |
| Ranges.GoDivNatural | task.go:185 | the block of a non-negative size is non-negative and fits threads times into the size |
| Ranges.PlannedRangeOrdered | task.go:186-192 | no planned range of a non-negative size starts more than one past its end |
| Ranges.PlanTiles | task.go:181-197 | a plan of a non-negative size tiles [0, fileSize) |
| Ranges.TilesStartsGrow | task.go:188-189 | in a tiling, starts do not decrease with the index |
| Ranges.TilesDisjoint | task.go:188-189 | in a tiling, earlier ranges end before later ones start, and every range lies inside the bounds |
| Ranges.TilesCover | task.go:188-191 | every offset lies in exactly one range |
| Ranges.TilesConcat | task.go:188-191 | the slices of a tiling, concatenated in order, are the covered part of the data |
| Ranges.PlanReassembles | task.go:181-197 | the slices of a resource along its plan, concatenated in order, are the whole resource |
| Http.HeaderGet | file.go:54-65 | definition; its behaviour is stated by Probe.SetFileInfo and Probe.SetFileInfoNamesFromHeader |
| GoStrings.ToLower | file.go:30 | definition; its behaviour is stated by Probe.ProbeRequest and Probe.ExtraHeadersKeepUserAgent |
| Probe.ProbeRequest | file.go:18-34 | a HEAD request to the URL with the override Host; it carries the user agent when one is set and every extra header except user-agent and host (in any case); no other key |
| Probe.ExtraHeadersKeepUserAgent | file.go:23-34 | no extra header can replace the configured user agent |
| Probe.CheckProbe | file.go:36-44 | succeeds exactly for an answer with status 200 or 206; a transport error or the status line is returned otherwise |
| Probe.LineFrom | file.go:56 | the rest of the line at a position: a newline-free slice of the input that ends at a newline or at the end of the input |
| Probe.MatchAt | file.go:56-59 | a match found at p is a newline-free occurrence of filename="name" at p |
| Probe.FindDirective | file.go:56-59 | a found name is newline-free and occurs as filename="name" at or after the start |
| Probe.FilenameDirective | file.go:56-59 | definition; its behaviour is stated by Probe.FindDirective and Probe.DirectiveRoundTrip |
| Probe.DirectiveRoundTrip | file.go:56-59 | a quote-free prefix followed by filename="name" yields exactly name |
| Probe.NoDirectiveInPrefix | file.go:56-59 | no match starts inside a quote-free prefix of the directive |
| Probe.LastIndexOfIsLast | file.go:62 | no occurrence of the character follows the index found |
| Probe.TrimTrailingSlashes | file.go:62 | a prefix of the path that does not end in '/' and is followed in the path only by '/' |
| Probe.PathBase | file.go:62 | path.Base never returns the empty string |
| Probe.PathBaseIsElement | file.go:62 | the base is ".", "/" or a slash-free element |
| Probe.PathBaseOfChild | file.go:62 | the base of dir/name is name |
| Probe.ProbedName | file.go:53-63 | without Content-Disposition, the base of the URL path; with it, the matched name, or "" when nothing matches |
| Probe.SetFileInfo | file.go:52-69 | a set name is kept, otherwise the probed name; acceptRange is on exactly when it was on or Accept-Ranges is non-empty; the size is Content-Length |
| Probe.SetFileInfoKeepsForcedRanges | file.go:65-67 | ForceMultiThread survives the probe |
| Probe.SetFileInfoNamesFromHeader | file.go:54-59 | a header `attachment; filename="n"` names an unnamed task n |
| Probe.SavePathOf | file.go:47 | the save directory, "/", the file name |
| Orchestrator.WithInfo | file.go:46-47 | the task's name, range flag and size are SetFileInfo's, and savePath is built from the new name |
| Tasks.DownloadTask.SetFileInfo | file.go:52-69 | the three fields become SetFileInfo of the old ones; nothing else changes |
| SegmentStore.Overwrite | io.go:14 | definition; its behaviour is stated by SegmentStore.OverwriteAt, SegmentStore.OverwriteAppends and SegmentStore.OverwriteEmpty |
| SegmentStore.OverwriteAt | file.go:75 | a positional write replaces its bytes, keeps the rest, and zero-fills a gap; the length is the larger of the old length and the write's end |
| SegmentStore.OverwriteAppends | io.go:9-21 | two writes at consecutive offsets equal one write of both pieces |
| SegmentStore.OverwriteEmpty | file.go:82 | writing into a fresh (truncated) file from offset 0 gives the data itself |
| SegmentStore.SinkNames | file.go:73-87 | with ranges, DownloadRoutine names (none when it is not positive); without, one name |
| SegmentStore.SinkNamesDistinct | file.go:73-87 | the names are pairwise distinct; with ranges, the i-th is savePath.i and none is savePath itself |
| SegmentStore.CreateAll | file.go:74-86 | definition; its behaviour is stated by SegmentStore.CreateAllFacts and SegmentStore.CreateAllSnoc |
| GoStrings.NatToString | file.go:75 | definition; its behaviour is stated by GoStrings.ParseIntToString and GoStrings.NatToStringInjective |
| SegmentStore.CreateAllFacts | file.go:74-86 | every named file exists afterwards: emptied under os.Create, kept under O_CREATE|O_RDWR; other files are untouched |
| SegmentStore.CreateAllSnoc | file.go:74-80 | opening one name more is one more create after the others |
| SegmentStore.OpenedHandles | file.go:75-88 | one open handle at offset 0 per name, in order |
| SegmentStore.OpenTempFiles | file.go:71-90 | definition; its behaviour is stated by SegmentStore.OpenTempFilesFacts and Orchestrator.OpenSinksSteps |
| SegmentStore.OpenTempFilesFacts | file.go:71-90 | succeeds exactly when no open in range fails; the error is the fault's; on success the handles are the opened names, the single sink is empty and segments keep their old bytes; other files are untouched |
| SegmentStore.CloseAll | file.go:126-130 | every handle is closed and keeps its name and offset |
| SegmentStore.NamesOfCloseAll | file.go:126-130 | closing keeps the set of names |
| SegmentStore.Clean | file.go:119-124 | every handle is closed; every sink file is removed; every other file keeps its presence and contents |
| SegmentStore.CopySinks | file.go:103-112 | definition; its behaviour is stated by SegmentStore.CopySinksKeepsHandles, SegmentStore.CopySinksAppends and SegmentStore.CopySinksOnlyDest |
| SegmentStore.Merge | file.go:92-116 | definition; its behaviour is stated by SegmentStore.MergeConcatenates and SegmentStore.MergeFailureKeepsSinks |
| SegmentStore.CopySinksKeepsHandles | file.go:103-112 | the merge loop keeps every handle's name and open flag |
| SegmentStore.CopySinksAppends | file.go:103-112 | without faults, the loop appends the remaining sinks to dest in order and changes nothing else |
| SegmentStore.CopySinksOnlyDest | file.go:103-112 | whatever happens, the loop changes no file but dest |
| SegmentStore.MergeConcatenates | file.go:92-116 | without faults, dest holds the sinks concatenated in index order, every sink is removed and closed, and other files are untouched |
| SegmentStore.MergeFailureKeepsSinks | file.go:92-116 | without ranges the merge does nothing; a failed merge leaves every sink on disk with its contents, and its handles as they were |
| Orchestrator.OpenSinks | file.go:71-90 | openTempFiles changes only the disk and the sink list |
| Orchestrator.OpenSinksSteps | file.go:71-90 | a failure at open k leaves the first k files created and the sink list unchanged; success creates all and installs their handles |
| Tasks.DownloadTask.OpenTempFiles | file.go:71-90 | the loop's state and error are Orchestrator.OpenSinks of the old state |
| Orchestrator.InitFiles | file.go:14-50 | initFiles leaves the counter, the URL and the host override unchanged |
| Orchestrator.InitFilesAccepted | file.go:42-49 | after an accepted probe, initFiles is openTempFiles on the task updated by setFileInfo and savePath |
| Orchestrator.InitFilesStatusGate | file.go:36-44 | a failed probe or a status other than 200/206 returns that error and changes nothing |
| Orchestrator.InitFilesOpensSinks | file.go:46-49 | after an accepted probe: the file info is SetFileInfo's, savePath is dir/name, and the sinks are the named handles exactly when no open fails |
| Orchestrator.InitFilesIgnoresCounter | file.go:14-50 | initFiles neither reads nor writes writtenBytes |
| Tasks.DownloadTask.InitFiles | file.go:14-50 | the new state and the error are Orchestrator.InitFiles of the old state |
| Orchestrator.CleanTempFiles | file.go:119-124 | the sinks are closed and their files removed (SegmentStore.Clean) |
| Orchestrator.CloseTempFiles | file.go:126-130 | the sinks are closed and nothing else changes |
| Tasks.DownloadTask.CleanTempFiles | file.go:119-124 | the new state is Orchestrator.CleanTempFiles of the old one |
| Tasks.DownloadTask.CloseTempFiles | file.go:126-130 | the new state is Orchestrator.CloseTempFiles of the old one |
| Tasks.DownloadTask.MergeFiles | file.go:92-116 | the state and the error are those of SegmentStore.Merge on the task's files |
| Fetcher.Count | io.go:15-17 | a write adds exactly its n to the counter; n == 0 leaves it unchanged |
| Fetcher.Taken | io.go:14 | a write takes at most the bytes offered, and all of them when it succeeds |
| Fetcher.FileWrite | io.go:14 | n is at most the bytes offered; without error it is all of them; the handle keeps its name and open flag |
| Fetcher.StepWriteEffect | io.go:13-19 | one read and write: counts, offsets and disk advance by the piece written, and the write fails exactly on a non-empty chunk to a closed or failing file |
| Fetcher.CopyLoop | io.go:9-21 | definition; its behaviour is stated by Fetcher.CopyLoopUnfold, Fetcher.CopyLoopEffect, Fetcher.CopyLoopCounts, Fetcher.CopyLoopWrites and Fetcher.CopyDelivers |
| Fetcher.CopyLoopUnfold | io.go:9-21 | io.Copy continues after a clean step that is not the end of the body, and stops with the write's or the read's error otherwise |
| Fetcher.CopyLoopEffect | io.go:9-21 | after copy the counter is its old value plus the bytes delivered, so it never decreases; the file holds the delivered bytes at the handle's offset |
| Fetcher.CopyLoopCounts | io.go:9-21 | the counter, the returned total and the offset each advance by the bytes delivered |
| Fetcher.CopyLoopWrites | io.go:9-21 | the file receives the delivered bytes in read order at the handle's offset |
| Fetcher.PartialWriteCounted | io.go:14-18 | the bytes of a partial write are counted although the write returns an error |
| Fetcher.CopyDelivers | io.go:9-21 | a body read cleanly into an open file delivers exactly its data, without error |
| Fetcher.DeliversData | io.go:10-12 | the wrappers pass the read data through unchanged and in order |
| Fetcher.DeliversNoError | io.go:9-21 | a clean body into an open file ends without error |
| Tasks.DownloadTask.To | io.go:13-19 | the write's effect on the file and its handle, and the counter raised by exactly n |
| Tasks.DownloadTask.Copy | io.go:9-21 | the loop's state, total and error are CopyLoop's |
| Fetcher.RangeHeader | task.go:205 | definition; its behaviour is stated by Fetcher.RangeHeaderRoundTrip |
| Fetcher.ParseRangeHeader | task.go:205 | the reading of the Range header by the modelled server; its behaviour is stated by Fetcher.RangeHeaderRoundTrip |
| Fetcher.RangeHeaderRoundTrip | task.go:205 | the Range header `bytes=start-end` parses back to the range |
| GoStrings.ParseIntToString | task.go:205 | %d of any integer reads back as that integer |
| GoStrings.NatToStringInjective | file.go:75 | distinct indices give distinct segment suffixes |
| Fetcher.FetchRequest | task.go:200-211 | a GET to the URL with the override Host, the Range header of the range, and the user agent exactly when one is set |
| Fetcher.Answer | task.go:205-219 | the modelled server's answer to the Range header start sends; its behaviour is stated by Fetcher.AnswersAreSlices and Fetcher.StartFetchesRange |
| Fetcher.Start | task.go:199-221 | definition; its behaviour is stated by Fetcher.StartFetchesRange; its own ensures is a frame fact |
| Fetcher.AnswersAreSlices | task.go:199-221 | the answers to a list of ranges are their slices of the resource exactly when the resource is empty or no range is inverted |
| Fetcher.StartFetchesRange | task.go:199-221 | with a server that ignores an invalid Range header and sends the whole resource (allowed by section 3.1 of RFC 7233), worker i succeeds; its sink receives the answer to its range (the range's bytes, or the whole resource for an inverted range) at its offset, and the counter grows by the answer's length |
| Tasks.DownloadTask.Start | task.go:199-221 | the new files, sinks and counter and the error are Fetcher.Start's |
| Orchestrator.Threads | downloader.go:67-75 | at least one, and more than one exactly when ranges are accepted and DownloadRoutine > 1 |
| Orchestrator.ChooseRanges | downloader.go:67-75 | the split plan when acceptRange && DownloadRoutine > 1, otherwise [0, fileSize-1]; always Threads ranges |
| Orchestrator.ChooseRangesIsPlan | downloader.go:67-75 | both branches are the plan for Threads workers |
| Orchestrator.SinksMatchRanges | downloader.go:67-75 | there are as many sinks as ranges |
| Orchestrator.RunWorkers | downloader.go:84-97 | definition; its behaviour is stated by Orchestrator.RunWorkersStep, Orchestrator.RunWorkersReports and Orchestrator.RunWorkersServes |
| Orchestrator.RunWorkersStep | downloader.go:84-97 | the next worker to finish runs on the current files; an error of its own ends the run with its state, and success continues with the others |
| Orchestrator.RunWorkersReports | downloader.go:84-97 | every report before the last is a success; the run fails exactly when the last report is an error, and returns that error; with no error, every worker reported exactly once, successfully |
| Orchestrator.ProgressStep | downloader.go:79-83 | with such a server, any pending worker succeeds and fills exactly its own sink with the answer to its range |
| Orchestrator.RunWorkersServes | downloader.go:79-97 | with such a server, the run on any schedule ends without error, every sink holding the answer to its range, and no other file changed |
| Orchestrator.ProgressDone | downloader.go:79-97 | once no worker is pending, the sinks hold the answers to the ranges, in index order |
| Tasks.DownloadTask.ReadResults | downloader.go:84-97 | the files, sinks, counter and error are RunWorkers' on the given schedule |
| Orchestrator.Prepared | downloader.go:54-62 | definition; its behaviour is stated by Orchestrator.PreparedIgnoresCounter and Orchestrator.PreparedForResource |
| Orchestrator.RunFrom | downloader.go:64-83 | definition; its behaviour is stated by Orchestrator.RunForResource and Orchestrator.FinishMergesOnSuccess |
| Orchestrator.Finish | downloader.go:77-100 | definition; its behaviour is stated by Orchestrator.FinishFailureCleanup, Orchestrator.FinishMergesOnSuccess and Orchestrator.FinishForResource |
| Orchestrator.Download | downloader.go:54-101 | definition; its behaviour is stated by Orchestrator.DownloadEarlyFailure, Orchestrator.DownloadCounterReset, Orchestrator.DownloadAnswers, Orchestrator.DownloadFetchesResource and Orchestrator.DownloadSmallFileRepeats |
| Orchestrator.DownloadEarlyFailure | downloader.go:55-60 | an initClient or initFiles error is returned before any fetch, and writtenBytes keeps its old value |
| Orchestrator.PreparedIgnoresCounter | downloader.go:62 | after initialisation the counter is 0, whatever it was |
| Orchestrator.DownloadCounterReset | downloader.go:62 | when initialisation succeeds, Download does not depend on the old counter value |
| Orchestrator.FinishFailureCleanup | downloader.go:84-95 | on the first error: that error is returned; the sinks are closed; without BreakPoint their files are removed, and with it the files stay |
| Orchestrator.FinishMergesOnSuccess | downloader.go:84-100 | when no worker fails, every worker reported without error and the result is mergeFiles' |
| Orchestrator.PreparedForResource | downloader.go:54-62 | with a working proxy, an accepting probe and no faults, initialisation succeeds with empty sinks, a zero counter and no other file touched |
| Orchestrator.InitialProgress | downloader.go:67-83 | fresh empty sinks match the chosen ranges with every worker pending |
| Orchestrator.RunForResource | downloader.go:67-97 | with such a server, every worker succeeds, the sinks hold the answers to Download's ranges, and no other file changes |
| Orchestrator.MergeForResource | file.go:92-116 | merging the finished sinks leaves their answers concatenated in the destination, removes the segments, leaves other files alone, and the counter equals the destination's length |
| Orchestrator.FinishForResource | downloader.go:77-100 | from fresh sinks with such a server, the destination holds the answers to Download's ranges concatenated, writtenBytes is their length, the segments are removed and other files are untouched |
| Orchestrator.ChosenAnswers | downloader.go:67-75 | the server's answers to Download's ranges, one per worker; its behaviour is stated by Orchestrator.ChosenAnswersReassemble and Orchestrator.SmallFileAnswersRepeat |
| Orchestrator.ChosenAnswersReassemble | downloader.go:67-75 | when the resource is empty or has at least one byte per worker, the answers to Download's ranges concatenate to the resource |
| Orchestrator.SmallFileAnswersWhole | task.go:184-194 | with range support, DownloadRoutine > 1 and 0 < fileSize < DownloadRoutine, every answer is the whole resource |
| Orchestrator.SmallFileAnswersRepeat | task.go:184-194 | in that case the answers concatenate to DownloadRoutine copies of the resource |
| Orchestrator.ChooseRangesCorrected | downloader.go:67-75 | the corrected range choice: a plan, with no inverted range unless the file is empty |
| Orchestrator.ChooseRangesCorrectedReassembles | downloader.go:67-75 | with the corrected choice, the answers concatenate to the resource for every size and every routine count |
| Orchestrator.DownloadAnswers | downloader.go:54-101 | end to end: Download succeeds; the destination holds the answers to Download's ranges concatenated; writtenBytes is their length; no segment remains; other files are untouched |
| Orchestrator.DownloadFetchesResource | downloader.go:54-101 | end to end, for an empty resource or one with at least one byte per worker: Download succeeds; the destination holds exactly the resource; writtenBytes is its length; no segment remains; other files are untouched |
| Orchestrator.DownloadSmallFileRepeats | downloader.go:54-101 | as written, with range support, DownloadRoutine > 1 and 0 < fileSize < DownloadRoutine, the destination holds DownloadRoutine copies of the resource instead of the resource, and writtenBytes is DownloadRoutine times its length |
| Tasks.DownloadTask.FetchAndMerge | downloader.go:77-100 | the state and the error are Orchestrator.Finish's |
| Tasks.DownloadTask.Download | downloader.go:54-101 | the state and the error are Orchestrator.Download's |

## Left out

- HTTP, TLS, the `net.Dialer`, `http.Client.Do` and response bodies are not modelled. The
  probe and fetch answers are input functions. The fetch function does not see the
  client's proxy or certificate settings.
- `url.Parse` is not modelled. `NewDownloadTask` takes an already parsed URL, so the
  parse error of downloader.go:25-28 is not modelled. For the proxy URL, only parse
  success is an input.
- Goroutines, channels, the context timeouts and cancellation are not modelled.
  - Workers run one after another in the order of a schedule input.
  - Workers still pending when the first error arrives are treated as cancelled: they
    write nothing more. In Go they may still write to their segments.
  - The unsynchronised `writtenBytes += n` is a data race in Go. The model counts
    sequentially.
- The dial closure reads `resolvedIP` when a connection is dialled. `Client` stores the
  value at `initClient` time.
- The regular expression engine is not modelled. `(?m)filename="(.*)"` is replaced by a
  direct matcher: the leftmost directive, with the greedy group running to the last quote
  on its line.
- Header keys are compared as given; Go canonicalises them. `strings.ToLower` covers ASCII
  letters only.
- `writtenBytes` and the sizes are Go `int64`; the model uses unbounded integers, so
  overflow is not modelled.
- Go's `io.Copy` reports `ErrShortWrite` when a write returns fewer bytes and no error.
  The file model never returns a short write without an error, so that case does not
  arise.
- `CalculateSpeed` (io.go:32-41) is not modelled. It sleeps and divides floating-point
  numbers.
- option.go, `DownloadWithChannel` (downloader.go:45-51) and the `*DownloadTask` results
  that let the setters chain are not modelled.
- `d.headers` (file.go:29) is not a field of the struct in task.go:14-31.
  `BreakPoint` is commented out in option.go. Both are inputs here.
- Fetcher.Start and Orchestrator.RunWorkers: their own ensures are frame facts only. The
  behaviour is stated by StartFetchesRange, RunWorkersStep, RunWorkersReports and
  RunWorkersServes.
- Orchestrator.InitFiles: its own ensures is a frame fact. The behaviour is stated by
  InitFilesAccepted, InitFilesStatusGate and InitFilesOpensSinks.

- A server that answers an invalid (inverted) range with status 416 is not modelled.
  Section 3.1 of RFC 7233 recommends that answer to a server that supports ranges, and
  Go's `http.ServeContent` gives it. `start` would copy the 416 body into the segment.
  The end-to-end theorems assume a server that ignores the invalid Range header and
  sends the whole resource, which section 3.1 also allows.
- The end-to-end theorems assume the segment files are absent or empty beforehand.
  file.go:75 opens them with `O_CREATE|O_RDWR` and no `O_TRUNC`, so a longer leftover
  `savePath.i` keeps its tail beyond what the new worker writes, and `mergeFiles` copies
  that tail into the destination. `SegmentStore.OverwriteAt` and
  `SegmentStore.CreateAllFacts` model that behaviour; no theorem here describes a download
  over stale segments.
- Transport.HostRule, Orchestrator.InitClientCorrected and
  Orchestrator.ChooseRangesCorrected are the corrections of "## Findings". `Download`,
  `InitClient` and the class `Tasks.DownloadTask` follow the code as written and do not
  use them.

Where the code's behaviour is surprising, the model follows the code:

- `start` does not check the status of a range response. Whatever body comes back is
  copied.
- With a `Content-Disposition` header that does not match, the file name stays "".
  No fallback to the URL path is made.
- No check rejects an unknown size (Content-Length -1). The single range is then
  [0, -2].
- When an open fails part-way, `openTempFiles` returns without closing the handles
  already opened, and `tempFiles` keeps its old value.
- Without range support, `mergeFiles` returns before anything else and the destination
  handle stays open.
- With `acceptRange` set and `DownloadRoutine < 1`, there are fewer sinks than ranges
  and Go's `d.tempFiles[i]` panics. The model returns the error IndexOutOfRange for that
  worker.

## Findings

| source | as written | input that shows it | evidently intended | confidence | as-written member | corrected member |
|---|---|---|---|---|---|---|
| task.go:163-167 | with no Host override, `initClient` stores the URL host in `headerHost`; a later run therefore sees an override and calls `IgnoreCertificateVerify` | a task for https://example.com with no override, downloaded twice: the second run skips certificate verification | only an override the caller set switches verification off; `initClient` is idempotent | not executed | Orchestrator.InitClientSecondRunSkipsVerification | Orchestrator.InitClientIdempotent |
| task.go:184-194 | with range support and 0 < fileSize < DownloadRoutine, the block size is 0; every worker but the last gets the inverted range [0, -1] and sends `Range: bytes=0--1`, an invalid range (section 2.1 of RFC 7233). A server that ignores it sends the whole resource; one that answers 416 sends an error body, which `start` copies just the same | a 2-byte resource, DownloadRoutine 4, Accept-Ranges set: the destination holds the resource 4 times and writtenBytes is 8 | the destination equals the resource for every size | not executed | Orchestrator.DownloadSmallFileRepeats | Orchestrator.ChooseRangesCorrectedReassembles |
