/** The download pipeline of a task (initClient, initFiles and Download), stated on the
    task's fields as a value. The goroutines are sequentialised: workers finish one after
    the other in an order chosen by a schedule, and Download reads their results in that
    order. Everything outside the process (the proxy parser's verdict, the server's
    answers, the file system's faults, BreakPoint) is an input. */
module Orchestrator {
  import opened Wrappers
  import opened Config
  import opened Ranges
  import opened Transport
  import opened Http
  import opened Probe
  import opened SegmentStore
  import opened Fetcher

  /** The fields of a DownloadTask, with the file system the task works on. */
  datatype TaskState = TaskState(
    downloader: Downloader,
    scheme: string,
    host: string,
    path: string,
    query: string,
    fileName: string,
    url: string,
    headerHost: string,
    resolvedIP: string,
    savePath: string,
    fileSize: int,
    writtenBytes: int,
    acceptRange: bool,
    ignoreCert: bool,
    client: Option<Client>,
    tempFiles: seq<Handle>,
    disk: Disk)

  /** NewDownloadTask after a successful parse: the URL parts (scheme defaulted), no file
      name, no forced IP, no client and no sinks yet. */
  function NewTask(d: Downloader, u: UrlParts, disk: Disk): (s: TaskState)
    ensures s.scheme != "" && s.host == u.host && s.path == u.path && s.query == u.rawQuery
    ensures u.scheme != "" ==> s.scheme == u.scheme
    ensures s.fileName == "" && s.resolvedIP == "" && s.headerHost == "" && s.client == None
    ensures s.writtenBytes == 0 && !s.acceptRange && !s.ignoreCert && s.tempFiles == []
  {
    var v := WithDefaultScheme(u);
    TaskState(d, v.scheme, v.host, v.path, v.rawQuery, "", "", "", "", "", 0, 0, false, false,
              None, [], disk)
  }

  // ---- initClient ----

  /** initClient: a client is made if there is none; a proxy URL that does not parse ends
      it there. Otherwise the transport gets the proxy rule, the forced IP and the
      certificate policy, and the request URL is assembled. The host rule is the one the
      code runs (HostRuleAsWritten): an override turns certificate checks off, and without
      one the URL host is stored as the override. */
  function InitClient(s: TaskState, proxyParses: bool): (r: (TaskState, Option<Error>))
    ensures var (t, e) := r;
      && (e.Some? <==> s.downloader.httpProxy.host != "" && !proxyParses)
      && t.client.Some?
      && (e.Some? ==> t == s.(client := t.client) && e == Some(ProxyUrl(s.downloader.httpProxy.host)))
      && (e.Some? && s.client.Some? ==> t.client == s.client)
      && (e.None? ==> && t.url == BuildUrl(s.scheme, s.host, s.path, s.query)
                      && t.headerHost == (if s.headerHost != "" then s.headerHost else s.host)
                      && HostName(t.headerHost, t.host) == HostName(s.headerHost, s.host)
                      && (t.ignoreCert <==> s.ignoreCert || s.headerHost != "")
                      && t.client.value.insecureSkipVerify == t.ignoreCert
                      && (t.client.value.resolvedIP.Some? <==> s.resolvedIP != "")
                      && Ok(t.client.value.proxy) == SelectProxy(s.downloader.httpProxy, proxyParses)
                      && t == s.(url := t.url, headerHost := t.headerHost, ignoreCert := t.ignoreCert,
                                 client := t.client))
  {
    var c := if s.client.Some? then s.client else Some(DefaultClient);
    match SelectProxy(s.downloader.httpProxy, proxyParses)
    case Err(e) => (s.(client := c), Some(e))
    case Ok(proxy) =>
      var f := HostRuleAsWritten(HostFields(s.host, s.headerHost, s.ignoreCert));
      var dial := if s.resolvedIP != "" then Some(s.resolvedIP) else None;
      (s.(headerHost := f.headerHost, ignoreCert := f.ignoreCert,
          client := Some(Client(proxy, dial, f.ignoreCert)),
          url := BuildUrl(s.scheme, s.host, s.path, s.query)), None)
  }

  /** The client initClient installs dials the address it is given when no IP is forced,
      and otherwise the forced IP up to its first ':' followed by the address from its
      first ':' on. */
  lemma InitClientDials(s: TaskState, proxyParses: bool, addr: string)
    requires InitClient(s, proxyParses).1.None?
    ensures var c := InitClient(s, proxyParses).0.client.value;
      DialTarget(c, addr) == if s.resolvedIP == "" then addr else BeforeColon(s.resolvedIP) + FromColon(addr)
  {
    if s.resolvedIP != "" {
      DialAddressText(addr, s.resolvedIP);
    }
  }

  /** Because the URL host is stored as the override, a second initClient on a task that
      had no override and checked certificates switches the checks off. */
  lemma InitClientSecondRunSkipsVerification(s: TaskState, proxyParses: bool)
    requires InitClient(s, proxyParses).1.None?
    requires s.headerHost == "" && s.host != "" && !s.ignoreCert
    ensures !InitClient(s, proxyParses).0.ignoreCert
    ensures InitClient(InitClient(s, proxyParses).0, proxyParses).0.ignoreCert
  {
    var t := InitClient(s, proxyParses).0;
    assert t.headerHost == s.host;
  }

  /** initClient with the corrected host rule (HostRule): nothing is stored as the
      override, so only an override set by the caller turns certificate checks off. */
  function InitClientCorrected(s: TaskState, proxyParses: bool): (r: (TaskState, Option<Error>))
  {
    var (t, e) := InitClient(s, proxyParses);
    if e.None? then (t.(headerHost := s.headerHost), e) else (t, e)
  }

  /** The corrected initClient differs from the code only in the stored override: it
      sends the same host name, sets the same certificate flag on a first run, and can be
      run again, as a second Download does, without changing its outcome. */
  lemma InitClientIdempotent(s: TaskState, proxyParses: bool)
    requires InitClientCorrected(s, proxyParses).1.None?
    ensures var (c, _) := InitClientCorrected(s, proxyParses);
      var (t, _) := InitClient(s, proxyParses);
      && c == t.(headerHost := s.headerHost)
      && HostName(c.headerHost, c.host) == HostName(t.headerHost, t.host)
      && c.ignoreCert == t.ignoreCert
    ensures InitClientCorrected(InitClientCorrected(s, proxyParses).0, proxyParses)
         == InitClientCorrected(s, proxyParses)
  {
    var c := InitClientCorrected(s, proxyParses).0;
    HostRuleCorrect(HostFields(s.host, s.headerHost, s.ignoreCert));
    assert c.headerHost == s.headerHost && c.ignoreCert == (s.ignoreCert || s.headerHost != "");
    var t2 := InitClient(c, proxyParses).0;
    assert t2.ignoreCert == c.ignoreCert;
  }

  // ---- initFiles ----

  /** The fields setFileInfo reads and writes. */
  function InfoOf(s: TaskState): FileInfo
  {
    FileInfo(s.fileName, s.acceptRange, s.fileSize)
  }

  /** The task after setFileInfo and the savePath assignment. */
  function WithInfo(s: TaskState, resp: Response): (t: TaskState)
    ensures InfoOf(t) == SetFileInfo(InfoOf(s), s.path, resp)
    ensures t.savePath == SavePathOf(s.downloader.savePath, t.fileName)
  {
    var info := SetFileInfo(InfoOf(s), s.path, resp);
    s.(fileName := info.fileName, acceptRange := info.acceptRange, fileSize := info.fileSize,
       savePath := SavePathOf(s.downloader.savePath, info.fileName))
  }

  /** initFiles: the HEAD probe, the status gate, setFileInfo, savePath, openTempFiles. The
      sinks are kept only when every open succeeds; the files opened before a failing open
      stay on disk. */
  function InitFiles(s: TaskState, headers: map<string, string>, probe: Request -> ProbeOutcome,
                     openFault: Option<Fault>): (r: (TaskState, Option<Error>))
    ensures r.0.writtenBytes == s.writtenBytes && r.0.url == s.url && r.0.headerHost == s.headerHost
  {
    var req := ProbeRequest(s.url, s.downloader.userAgent, s.headerHost, headers);
    match CheckProbe(probe(req))
    case Err(e) => (s, Some(e))
    case Ok(resp) => OpenSinks(WithInfo(s, resp), openFault)
  }

  /** An accepted probe makes initFiles record the file information and open the sinks. */
  lemma InitFilesAccepted(s: TaskState, headers: map<string, string>, probe: Request -> ProbeOutcome,
                          openFault: Option<Fault>, resp: Response)
    requires CheckProbe(ProbeAnswer(s, headers, probe)) == Ok(resp)
    ensures InitFiles(s, headers, probe, openFault) == OpenSinks(WithInfo(s, resp), openFault)
  {
  }

  function OpenSinks(t: TaskState, openFault: Option<Fault>): (r: (TaskState, Option<Error>))
    ensures r.0 == t.(disk := r.0.disk, tempFiles := r.0.tempFiles)
  {
    var (d, sinks) := OpenTempFiles(t.disk, t.savePath, t.acceptRange, t.downloader.downloadRoutine, openFault);
    match sinks
    case Err(e) => (t.(disk := d), Some(e))
    case Ok(hs) => (t.(disk := d, tempFiles := hs), None)
  }

  /** OpenSinks spelled out as the loop of openTempFiles computes it. */
  lemma OpenSinksSteps(t: TaskState, openFault: Option<Fault>)
    ensures var names := SinkNames(t.savePath, t.acceptRange, t.downloader.downloadRoutine);
      var mode := if t.acceptRange then KeepContents else Truncate;
      OpenSinks(t, openFault)
        == if openFault.Some? && openFault.value.at < |names|
           then (t.(disk := CreateAll(t.disk, names[..openFault.value.at], mode)), Some(openFault.value.error))
           else (t.(disk := CreateAll(t.disk, names, mode), tempFiles := OpenedHandles(names)), None)
  {
  }

  /** The probe's answer to the request initFiles sends. */
  function ProbeAnswer(s: TaskState, headers: map<string, string>, probe: Request -> ProbeOutcome): ProbeOutcome
  {
    probe(ProbeRequest(s.url, s.downloader.userAgent, s.headerHost, headers))
  }

  /** A failed probe or a status other than 200 and 206 ends initFiles with nothing
      changed: setFileInfo and openTempFiles are not reached. */
  lemma InitFilesStatusGate(s: TaskState, headers: map<string, string>, probe: Request -> ProbeOutcome,
                            openFault: Option<Fault>)
    requires !(ProbeAnswer(s, headers, probe).Answered? && StatusAccepted(ProbeAnswer(s, headers, probe).response.statusCode))
    ensures InitFiles(s, headers, probe, openFault).0 == s
    ensures InitFiles(s, headers, probe, openFault).1 == Some(CheckProbe(ProbeAnswer(s, headers, probe)).error)
  {
  }

  /** After an accepted probe, savePath is the save directory joined with the file name,
      and the task either holds one fresh open handle per sink name, in index order, or
      the open error and its old sinks. */
  lemma InitFilesOpensSinks(s: TaskState, headers: map<string, string>, probe: Request -> ProbeOutcome,
                            openFault: Option<Fault>)
    requires ProbeAnswer(s, headers, probe).Answered?
    requires StatusAccepted(ProbeAnswer(s, headers, probe).response.statusCode)
    ensures var (t, e) := InitFiles(s, headers, probe, openFault);
      var resp := ProbeAnswer(s, headers, probe).response;
      && InfoOf(t) == SetFileInfo(InfoOf(s), s.path, resp)
      && t.savePath == s.downloader.savePath + "/" + t.fileName
      && (e.None? <==> openFault.None? || openFault.value.at >= |SinkNames(t.savePath, t.acceptRange, s.downloader.downloadRoutine)|)
      && (e.None? ==> t.tempFiles == OpenedHandles(SinkNames(t.savePath, t.acceptRange, s.downloader.downloadRoutine)))
      && (e.Some? ==> t.tempFiles == s.tempFiles && e == Some(openFault.value.error))
  {
    var resp := ProbeAnswer(s, headers, probe).response;
    var t := WithInfo(s, resp);
    OpenTempFilesFacts(t.disk, t.savePath, t.acceptRange, t.downloader.downloadRoutine, openFault);
  }

  // ---- Download: ranges, workers, results ----

  /** The number of workers: the routine count with range support and more than one
      routine, else one. */
  function Threads(acceptRange: bool, routine: int): (n: int)
    ensures n >= 1
    ensures n > 1 <==> acceptRange && routine > 1
  {
    if acceptRange && routine > 1 then routine else 1
  }

  /** Download's range choice: splitBytes with range support and more than one routine,
      else the whole file as one range. */
  function ChooseRanges(acceptRange: bool, routine: int, fileSize: int): (rs: seq<Range>)
    ensures |rs| == Threads(acceptRange, routine)
    ensures acceptRange && routine > 1 ==> rs == Plan(fileSize, routine)
    ensures !(acceptRange && routine > 1) ==> rs == WholeFile(fileSize)
  {
    if acceptRange && routine > 1 then Plan(fileSize, routine) else WholeFile(fileSize)
  }

  /** Either way the ranges are a plan for the number of workers. */
  lemma ChooseRangesIsPlan(acceptRange: bool, routine: int, fileSize: int)
    ensures ChooseRanges(acceptRange, routine, fileSize) == Plan(fileSize, Threads(acceptRange, routine))
  {
    PlanOneThread(fileSize);
  }

  /** What a server that ignores an invalid Range header and sends the whole resource
      (allowed by section 3.1 of RFC 7233) answers to Download's ranges, in index order. */
  function ChosenAnswers(acceptRange: bool, routine: int, resource: seq<byte>): (a: seq<seq<byte>>)
    requires acceptRange ==> routine >= 1
    ensures |a| == Threads(acceptRange, routine)
  {
    ChooseRangesIsPlan(acceptRange, routine, |resource|);
    PlanReassembles(resource, Threads(acceptRange, routine));
    Answers(resource, ChooseRanges(acceptRange, routine, |resource|))
  }

  /** With at least one routine there are as many sinks as ranges. */
  lemma SinksMatchRanges(savePath: string, acceptRange: bool, routine: int, fileSize: int)
    requires acceptRange ==> routine >= 1
    ensures |SinkNames(savePath, acceptRange, routine)| == |ChooseRanges(acceptRange, routine, fileSize)|
  {
  }

  /** What one worker reported. */
  datatype Report = Report(worker: nat, error: Option<Error>)

  /** The state of the workers' sinks and the counter once Download stops reading results. */
  datatype Run = Run(disk: Disk, sinks: seq<Handle>, counter: int, reports: seq<Report>, error: Option<Error>)

  /** The worker that finishes next: the schedule's first entry picks among the workers
      still running; an exhausted schedule picks the first of them. */
  function Pick(pending: seq<nat>, schedule: seq<nat>): (k: nat)
    requires |pending| > 0
    ensures k < |pending|
  {
    if schedule == [] then 0 else schedule[0] % |pending|
  }

  function Rest(schedule: seq<nat>): seq<nat>
  {
    if schedule == [] then [] else schedule[1..]
  }

  function Without(pending: seq<nat>, k: nat): (r: seq<nat>)
    requires k < |pending|
    ensures |r| == |pending| - 1
    ensures multiset(r) + multiset{pending[k]} == multiset(pending)
  {
    assert pending == pending[..k] + [pending[k]] + pending[k + 1..];
    pending[..k] + pending[k + 1..]
  }

  function Indices(n: nat): (r: seq<nat>)
    ensures |r| == n && forall i :: 0 <= i < n ==> r[i] == i
  {
    seq(n, i requires 0 <= i => i)
  }

  /** The result loop of Download over the workers still running: take the next worker to
      finish, run start for it, and stop at the first error. */
  function RunWorkers(disk: Disk, sinks: seq<Handle>, counter: int, url: string, userAgent: string,
                      headerHost: string, ranges: seq<Range>, pending: seq<nat>, schedule: seq<nat>,
                      fetch: Request -> Fetch): (r: Run)
    requires forall j :: 0 <= j < |pending| ==> pending[j] < |ranges|
    ensures |r.sinks| == |sinks|
    decreases |pending|
  {
    if pending == [] then Run(disk, sinks, counter, [], None)
    else
      var k := Pick(pending, schedule);
      var i := pending[k];
      var w := Start(disk, sinks, counter, url, userAgent, headerHost, i, ranges[i], fetch);
      if w.error.Some? then Run(w.disk, w.sinks, w.counter, [Report(i, w.error)], w.error)
      else
        var rest := Without(pending, k);
        assert forall j :: 0 <= j < |rest| ==> rest[j] in multiset(pending);
        var r := RunWorkers(w.disk, w.sinks, w.counter, url, userAgent, headerHost, ranges, rest,
                            Rest(schedule), fetch);
        r.(reports := [Report(i, None)] + r.reports)
  }

  /** One step of RunWorkers: the picked worker runs; an error ends the run with that
      worker's state, otherwise the run goes on with the other workers. */
  lemma RunWorkersStep(disk: Disk, sinks: seq<Handle>, counter: int, url: string, userAgent: string,
                       headerHost: string, ranges: seq<Range>, pending: seq<nat>, schedule: seq<nat>,
                       fetch: Request -> Fetch)
    requires forall j :: 0 <= j < |pending| ==> pending[j] < |ranges|
    requires pending != []
    ensures var k := Pick(pending, schedule);
      var i := pending[k];
      var rest := Without(pending, k);
      var w := Start(disk, sinks, counter, url, userAgent, headerHost, i, ranges[i], fetch);
      var r := RunWorkers(disk, sinks, counter, url, userAgent, headerHost, ranges, pending, schedule, fetch);
      && (forall j :: 0 <= j < |rest| ==> rest[j] < |ranges|)
      && (w.error.Some? ==>
            r.disk == w.disk && r.sinks == w.sinks && r.counter == w.counter && r.error == w.error)
      && (w.error.None? ==>
            var r' := RunWorkers(w.disk, w.sinks, w.counter, url, userAgent, headerHost, ranges, rest,
                                 Rest(schedule), fetch);
            r.disk == r'.disk && r.sinks == r'.sinks && r.counter == r'.counter && r.error == r'.error)
  {
    var rest := Without(pending, Pick(pending, schedule));
    assert forall j :: 0 <= j < |rest| ==> rest[j] in multiset(pending);
  }

  function Workers(reports: seq<Report>): seq<nat>
  {
    seq(|reports|, j requires 0 <= j < |reports| => reports[j].worker)
  }

  /** Download returns the first error in completion order: every earlier report is a
      success, and the error is the last report's. Without an error every running worker
      reported exactly once. */
  ghost predicate FirstErrorReported(r: Run, pending: seq<nat>)
  {
    && (forall j :: 0 <= j < |r.reports| - 1 ==> r.reports[j].error == None)
    && (r.error.Some? <==> |r.reports| > 0 && r.reports[|r.reports| - 1].error.Some?)
    && (r.error.Some? ==> r.reports[|r.reports| - 1].error == r.error)
    && (r.error.None? ==> forall j :: 0 <= j < |r.reports| ==> r.reports[j].error == None)
    && (r.error.None? ==> multiset(Workers(r.reports)) == multiset(pending))
  }

  lemma ConsReport(i: nat, r: Run, rest: seq<nat>, pending: seq<nat>)
    requires FirstErrorReported(r, rest) && multiset(rest) + multiset{i} == multiset(pending)
    ensures FirstErrorReported(r.(reports := [Report(i, None)] + r.reports), pending)
  {
    var reports := [Report(i, None)] + r.reports;
    assert forall j :: 1 <= j < |reports| ==> reports[j] == r.reports[j - 1];
    assert Workers(reports) == [i] + Workers(r.reports);
  }

  lemma {:induction false} RunWorkersReports(disk: Disk, sinks: seq<Handle>, counter: int, url: string,
                                             userAgent: string, headerHost: string, ranges: seq<Range>,
                                             pending: seq<nat>, schedule: seq<nat>, fetch: Request -> Fetch)
    requires forall j :: 0 <= j < |pending| ==> pending[j] < |ranges|
    ensures FirstErrorReported(RunWorkers(disk, sinks, counter, url, userAgent, headerHost, ranges, pending, schedule, fetch), pending)
    decreases |pending|
  {
    if pending != [] {
      var k := Pick(pending, schedule);
      var i := pending[k];
      var w := Start(disk, sinks, counter, url, userAgent, headerHost, i, ranges[i], fetch);
      if w.error.None? {
        var rest := Without(pending, k);
        assert forall j :: 0 <= j < |rest| ==> rest[j] in multiset(pending);
        RunWorkersReports(w.disk, w.sinks, w.counter, url, userAgent, headerHost, ranges, rest, Rest(schedule), fetch);
        var r := RunWorkers(w.disk, w.sinks, w.counter, url, userAgent, headerHost, ranges, rest, Rest(schedule), fetch);
        ConsReport(i, r, rest, pending);
      }
    }
  }

  // ---- workers against a server that answers as Serves says ----

  ghost predicate NoRepeats(xs: seq<nat>)
  {
    forall j, j' :: 0 <= j < |xs| && 0 <= j' < |xs| && j != j' ==> xs[j] != xs[j']
  }

  lemma WithoutFacts(pending: seq<nat>, k: nat)
    requires k < |pending| && NoRepeats(pending)
    ensures NoRepeats(Without(pending, k))
    ensures forall x :: x in Without(pending, k) <==> x in pending && x != pending[k]
  {
    var rest := Without(pending, k);
    assert forall j :: 0 <= j < |rest| ==> rest[j] == if j < k then pending[j] else pending[j + 1];
    forall x | x in pending && x != pending[k]
      ensures x in rest
    {
      var j :| 0 <= j < |pending| && pending[j] == x;
      if j < k { assert rest[j] == x; } else { assert rest[j - 1] == x; }
    }
  }

  /** Files not named in names are the same in both disks. */
  ghost predicate SameOutside(d: Disk, d': Disk, names: seq<string>)
  {
    forall n :: n !in names ==> (n in d' <==> n in d) && (n in d ==> d'[n] == d[n])
  }

  /** Midway through the workers: every sink is open under its name; a worker still to
      run has an empty sink at offset 0, a finished one holds exactly the answer to its
      range; the counter is the number of bytes in the sinks. */
  ghost predicate Progress(disk: Disk, sinks: seq<Handle>, counter: int, names: seq<string>,
                           ranges: seq<Range>, pending: seq<nat>, resource: seq<byte>)
  {
    && |sinks| == |ranges| == |names|
    && Distinct(names)
    && NoRepeats(pending)
    && (forall i :: 0 <= i < |ranges| ==> 0 <= ranges[i].start <= ranges[i].end + 1 <= |resource|)
    && (forall j :: 0 <= j < |pending| ==> pending[j] < |ranges|)
    && (forall i :: 0 <= i < |sinks| ==> sinks[i].name == names[i] && sinks[i].open && names[i] in disk)
    && (forall i :: 0 <= i < |sinks| && i in pending ==> sinks[i].offset == 0 && disk[names[i]] == [])
    && (forall i :: 0 <= i < |sinks| && i !in pending ==>
          disk[names[i]] == Answer(resource, ranges[i]))
    && counter == |Concat(SinkData(disk, sinks))|
  }

  /** One worker finishing against such a server keeps the progress invariant. */
  lemma ProgressStep(disk: Disk, sinks: seq<Handle>, counter: int, names: seq<string>, ranges: seq<Range>,
                     pending: seq<nat>, resource: seq<byte>, url: string, userAgent: string,
                     headerHost: string, k: nat, fetch: Request -> Fetch)
    requires Serves(fetch, resource)
    requires Progress(disk, sinks, counter, names, ranges, pending, resource)
    requires k < |pending|
    ensures var i := pending[k];
      var w := Start(disk, sinks, counter, url, userAgent, headerHost, i, ranges[i], fetch);
      && w.error == None
      && Progress(w.disk, w.sinks, w.counter, names, ranges, Without(pending, k), resource)
      && SameOutside(disk, w.disk, names)
  {
    var i := pending[k];
    var data := Answer(resource, ranges[i]);
    StartFetchesRange(disk, sinks, counter, url, userAgent, headerHost, i, ranges[i], fetch, resource);
    assert i in pending;
    OverwriteEmpty(data);
    ProgressFill(disk, sinks, counter, names, ranges, pending, resource, k);
  }

  /** Filling the sink of worker pending[k] with the answer to its range keeps the
      progress invariant. */
  lemma ProgressFill(disk: Disk, sinks: seq<Handle>, counter: int, names: seq<string>, ranges: seq<Range>,
                     pending: seq<nat>, resource: seq<byte>, k: nat)
    requires Progress(disk, sinks, counter, names, ranges, pending, resource)
    requires k < |pending|
    ensures var i := pending[k];
      var data := Answer(resource, ranges[i]);
      var d := disk[names[i] := data];
      var hs := sinks[i := sinks[i].(offset := |data|)];
      && Progress(d, hs, counter + |data|, names, ranges, Without(pending, k), resource)
      && SameOutside(disk, d, names)
  {
    var i := pending[k];
    var data := Answer(resource, ranges[i]);
    var d := disk[names[i] := data];
    var hs := sinks[i := sinks[i].(offset := |data|)];
    var rest := Without(pending, k);
    WithoutFacts(pending, k);
    forall j | 0 <= j < |sinks| && j != i
      ensures names[j] != names[i]
    {
    }
    forall j | 0 <= j < |rest|
      ensures rest[j] < |ranges|
    {
      assert rest[j] in pending;
    }
    forall j | 0 <= j < |hs| && j in rest
      ensures hs[j].offset == 0 && d[names[j]] == []
    {
      assert j in pending && j != i;
    }
    forall j | 0 <= j < |hs| && j !in rest
      ensures d[names[j]] == Answer(resource, ranges[j])
    {
      assert j == i || j !in pending;
    }
    SinkDataUpdate(disk, sinks, i, hs[i].offset, data);
    ConcatUpdateLen(SinkData(disk, sinks), i, data);
  }

  /** Writing sink i's file (and moving its offset) changes only entry i of the sinks'
      contents, when no other sink shares its name. */
  lemma SinkDataUpdate(disk: Disk, sinks: seq<Handle>, i: nat, offset: nat, data: seq<byte>)
    requires i < |sinks|
    requires forall j :: 0 <= j < |sinks| && j != i ==> sinks[j].name != sinks[i].name
    ensures SinkData(disk[sinks[i].name := data], sinks[i := sinks[i].(offset := offset)])
         == SinkData(disk, sinks)[i := data]
  {
  }

  /** Against a server that answers as Serves says, every worker succeeds and fills its
      sink with the answer to its range; no file outside the sinks changes. */
  lemma {:induction false} RunWorkersServes(disk: Disk, sinks: seq<Handle>, counter: int, url: string,
                                            userAgent: string, headerHost: string, names: seq<string>,
                                            ranges: seq<Range>, pending: seq<nat>, schedule: seq<nat>,
                                            fetch: Request -> Fetch, resource: seq<byte>)
    requires Serves(fetch, resource)
    requires Progress(disk, sinks, counter, names, ranges, pending, resource)
    ensures var r := RunWorkers(disk, sinks, counter, url, userAgent, headerHost, ranges, pending, schedule, fetch);
      && r.error == None
      && Progress(r.disk, r.sinks, r.counter, names, ranges, [], resource)
      && SameOutside(disk, r.disk, names)
    decreases |pending|
  {
    if pending != [] {
      var k := Pick(pending, schedule);
      var i := pending[k];
      var w := Start(disk, sinks, counter, url, userAgent, headerHost, i, ranges[i], fetch);
      ProgressStep(disk, sinks, counter, names, ranges, pending, resource, url, userAgent, headerHost, k, fetch);
      RunWorkersServes(w.disk, w.sinks, w.counter, url, userAgent, headerHost, names, ranges,
                       Without(pending, k), Rest(schedule), fetch, resource);
    }
  }

  /** Once no worker is left, the sinks hold the answers to the ranges. */
  lemma ProgressDone(disk: Disk, sinks: seq<Handle>, counter: int, names: seq<string>,
                     ranges: seq<Range>, resource: seq<byte>)
    requires Progress(disk, sinks, counter, names, ranges, [], resource)
    ensures SinkData(disk, sinks) == Answers(resource, ranges)
  {
  }

  // ---- cleanup and merge ----

  /** CleanTempFiles on the task. */
  function CleanTempFiles(s: TaskState): (t: TaskState)
    ensures t == s.(disk := Clean(s.disk, s.tempFiles).0, tempFiles := CloseAll(s.tempFiles))
  {
    var (d, hs) := Clean(s.disk, s.tempFiles);
    s.(disk := d, tempFiles := hs)
  }

  /** closeTempFiles on the task. */
  function CloseTempFiles(s: TaskState): (t: TaskState)
    ensures t == s.(tempFiles := CloseAll(s.tempFiles))
  {
    s.(tempFiles := CloseAll(s.tempFiles))
  }

  /** mergeFiles on the task. */
  function MergeFiles(s: TaskState, fault: MergeFault): (r: (TaskState, Option<Error>))
  {
    var (d, hs, e) := Merge(s.disk, s.tempFiles, s.savePath, s.acceptRange, fault);
    (s.(disk := d, tempFiles := hs), e)
  }

  // ---- Download ----

  /** What Download depends on outside the task: whether the proxy URL parses, the extra
      headers, the server, the faults of the file system, the order in which workers
      finish, and BreakPoint. */
  datatype Env = Env(
    proxyParses: bool,
    headers: map<string, string>,
    probe: Request -> ProbeOutcome,
    openFault: Option<Fault>,
    fetch: Request -> Fetch,
    schedule: seq<nat>,
    mergeFault: MergeFault,
    breakPoint: bool)

  /** The task after Download, the reports read in completion order, and the error. */
  datatype Outcome = Outcome(state: TaskState, reports: seq<Report>, error: Option<Error>)

  /** The task just before the workers start: both init steps done and the counter reset. */
  function Prepared(s: TaskState, env: Env): (r: (TaskState, Option<Error>))
  {
    var (s1, e1) := InitClient(s, env.proxyParses);
    if e1.Some? then (s1, e1)
    else
      var (s2, e2) := InitFiles(s1, env.headers, env.probe, env.openFault);
      if e2.Some? then (s2, e2) else (s2.(writtenBytes := 0), None)
  }

  /** The workers' run from the prepared task. */
  function RunFrom(s: TaskState, env: Env): Run
  {
    var ranges := ChooseRanges(s.acceptRange, s.downloader.downloadRoutine, s.fileSize);
    RunWorkers(s.disk, s.tempFiles, s.writtenBytes, s.url, s.downloader.userAgent, s.headerHost,
               ranges, Indices(|ranges|), env.schedule, env.fetch)
  }

  /** The rest of Download once the task is prepared: run the workers; on the first error
      clean the sinks up (or with BreakPoint only close them) and return it; otherwise
      merge. */
  function Finish(p: TaskState, env: Env): Outcome
  {
    var r := RunFrom(p, env);
    var s4 := p.(disk := r.disk, tempFiles := r.sinks, writtenBytes := r.counter);
    if r.error.Some? then
      Outcome(if env.breakPoint then CloseTempFiles(s4) else CleanTempFiles(s4), r.reports, r.error)
    else
      var (s5, e5) := MergeFiles(s4, env.mergeFault);
      Outcome(s5, r.reports, e5)
  }

  /** Download: initialise and reset the counter, then fetch, clean up or merge. */
  function Download(s: TaskState, env: Env): Outcome
  {
    var (p, e) := Prepared(s, env);
    if e.Some? then Outcome(p, [], e) else Finish(p, env)
  }

  // ---- what Download promises ----

  /** An error from initClient or initFiles is returned before any range is fetched, and
      the counter keeps its old value. */
  lemma DownloadEarlyFailure(s: TaskState, env: Env)
    requires Prepared(s, env).1.Some?
    ensures Download(s, env).error == Prepared(s, env).1
    ensures Download(s, env).reports == []
    ensures Download(s, env).state.writtenBytes == s.writtenBytes
  {
    var (s1, e1) := InitClient(s, env.proxyParses);
    assert s1.writtenBytes == s.writtenBytes;
  }

  /** The init steps never read the counter, and their success resets it. */
  lemma PreparedIgnoresCounter(s: TaskState, env: Env, a: int)
    ensures Prepared(s, env).1.None? ==> Prepared(s, env).0.writtenBytes == 0
    ensures Prepared(s, env).1.None? ==> Prepared(s.(writtenBytes := a), env) == Prepared(s, env)
  {
    var (s1, e1) := InitClient(s, env.proxyParses);
    var (a1, f1) := InitClient(s.(writtenBytes := a), env.proxyParses);
    assert a1 == s1.(writtenBytes := a) && f1 == e1;
    if e1.None? {
      InitFilesIgnoresCounter(s1, env.headers, env.probe, env.openFault, a);
    }
  }

  lemma InitFilesIgnoresCounter(s: TaskState, headers: map<string, string>, probe: Request -> ProbeOutcome,
                                openFault: Option<Fault>, a: int)
    ensures InitFiles(s.(writtenBytes := a), headers, probe, openFault).0
         == InitFiles(s, headers, probe, openFault).0.(writtenBytes := a)
    ensures InitFiles(s.(writtenBytes := a), headers, probe, openFault).1
         == InitFiles(s, headers, probe, openFault).1
  {
    var sa := s.(writtenBytes := a);
    var req := ProbeRequest(s.url, s.downloader.userAgent, s.headerHost, headers);
    assert ProbeRequest(sa.url, sa.downloader.userAgent, sa.headerHost, headers) == req;
    match CheckProbe(probe(req))
    case Err(e) =>
    case Ok(resp) =>
      var t := WithInfo(s, resp);
      assert WithInfo(sa, resp) == t.(writtenBytes := a);
      OpenSinksIgnoresCounter(t, openFault, a);
  }

  lemma OpenSinksIgnoresCounter(t: TaskState, openFault: Option<Fault>, a: int)
    ensures OpenSinks(t.(writtenBytes := a), openFault).0 == OpenSinks(t, openFault).0.(writtenBytes := a)
    ensures OpenSinks(t.(writtenBytes := a), openFault).1 == OpenSinks(t, openFault).1
  {
    var o := OpenTempFiles(t.disk, t.savePath, t.acceptRange, t.downloader.downloadRoutine, openFault);
    assert OpenSinks(t, openFault) == if o.1.Err? then (t.(disk := o.0), Some(o.1.error))
                                      else (t.(disk := o.0, tempFiles := o.1.value), None);
  }

  /** The counter starts from zero once both init steps succeed: the outcome does not
      depend on what it held before. */
  lemma DownloadCounterReset(s: TaskState, env: Env, a: int)
    requires Prepared(s, env).1.None?
    ensures Prepared(s, env).0.writtenBytes == 0
    ensures Download(s.(writtenBytes := a), env) == Download(s, env)
  {
    PreparedIgnoresCounter(s, env, a);
  }

  /** On the first worker error Download returns it; without BreakPoint every sink is
      closed and removed, with BreakPoint every sink is closed and left on disk as it is.
      No merge happens, and no other file changes. */
  lemma FinishFailureCleanup(p: TaskState, env: Env)
    requires RunFrom(p, env).error.Some?
    ensures var r := RunFrom(p, env);
      var o := Finish(p, env);
      && o.error == r.error
      && o.reports == r.reports
      && o.state.tempFiles == CloseAll(r.sinks)
      && o.state.writtenBytes == r.counter
      && (env.breakPoint ==> o.state.disk == r.disk)
      && (!env.breakPoint ==> forall h :: h in r.sinks ==> h.name !in o.state.disk)
      && (!env.breakPoint ==> forall n :: n !in NamesOf(r.sinks) ==> (n in o.state.disk <==> n in r.disk))
      && (forall n :: n in o.state.disk ==> n in r.disk && o.state.disk[n] == r.disk[n])
  {
  }

  /** The merge runs only when every worker reported success, each exactly once; its
      error, if any, is Download's. */
  lemma FinishMergesOnSuccess(p: TaskState, env: Env)
    requires RunFrom(p, env).error.None?
    ensures var r := RunFrom(p, env);
      var o := Finish(p, env);
      var n := Threads(p.acceptRange, p.downloader.downloadRoutine);
      && multiset(Workers(o.reports)) == multiset(Indices(n))
      && (forall j :: 0 <= j < |o.reports| ==> o.reports[j].error == None)
      && o.error == Merge(r.disk, r.sinks, p.savePath, p.acceptRange, env.mergeFault).2
      && o.state.disk == Merge(r.disk, r.sinks, p.savePath, p.acceptRange, env.mergeFault).0
      && o.state.writtenBytes == r.counter
  {
    var ranges := ChooseRanges(p.acceptRange, p.downloader.downloadRoutine, p.fileSize);
    RunWorkersReports(p.disk, p.tempFiles, p.writtenBytes, p.url, p.downloader.userAgent, p.headerHost,
                      ranges, Indices(|ranges|), env.schedule, env.fetch);
    var r := RunFrom(p, env);
    var s4 := p.(disk := r.disk, tempFiles := r.sinks, writtenBytes := r.counter);
    var m := MergeFiles(s4, env.mergeFault);
    assert Finish(p, env) == Outcome(m.0, r.reports, m.1);
    assert FirstErrorReported(r, Indices(|ranges|));
  }

  /** Every sink the task opens from the save path is empty beforehand. */
  ghost predicate FreshSinks(s: TaskState, resp: Response)
  {
    var t := WithInfo(s, resp);
    forall n :: t.acceptRange && n in SinkNames(t.savePath, true, s.downloader.downloadRoutine) ==>
      Contents(s.disk, n) == []
  }

  lemma ConcatOfEmpties<T>(ss: seq<seq<T>>)
    requires forall j :: 0 <= j < |ss| ==> ss[j] == []
    ensures Concat(ss) == []
    decreases |ss|
  {
    if ss != [] {
      ConcatOfEmpties(ss[1..]);
    }
  }

  /** The task once prepared against an accepting probe without open faults: the sinks
      are open at offset 0, named from the save path, each empty; nothing else changed. */
  lemma PreparedForResource(s: TaskState, env: Env, resp: Response)
    requires s.downloader.httpProxy.host == "" || env.proxyParses
    requires forall req :: env.probe(req) == Answered(resp)
    requires StatusAccepted(resp.statusCode)
    requires env.openFault == None
    requires FreshSinks(s, resp)
    ensures var (p, e) := Prepared(s, env);
      var t := WithInfo(s, resp);
      var names := SinkNames(t.savePath, t.acceptRange, s.downloader.downloadRoutine);
      && e == None
      && p.downloader == s.downloader && p.savePath == t.savePath && p.acceptRange == t.acceptRange
      && p.fileSize == resp.contentLength && p.writtenBytes == 0
      && p.tempFiles == OpenedHandles(names)
      && (forall n :: n in names ==> n in p.disk && p.disk[n] == [])
      && SameOutside(s.disk, p.disk, names)
  {
    var routine := s.downloader.downloadRoutine;
    var s1 := InitClient(s, env.proxyParses).0;
    var t := WithInfo(s1, resp);
    assert t.savePath == WithInfo(s, resp).savePath && t.acceptRange == WithInfo(s, resp).acceptRange;
    assert t.disk == s.disk && t.downloader == s.downloader;
    var req := ProbeRequest(s1.url, s1.downloader.userAgent, s1.headerHost, env.headers);
    assert CheckProbe(env.probe(req)) == Ok(resp);
    assert InitFiles(s1, env.headers, env.probe, env.openFault) == OpenSinks(t, None);
    OpenTempFilesFacts(t.disk, t.savePath, t.acceptRange, routine, None);
  }

  /** A prepared task whose sinks are all empty is at the start of the workers' run. */
  lemma InitialProgress(p: TaskState, resource: seq<byte>)
    requires (p.acceptRange ==> p.downloader.downloadRoutine >= 1) && p.fileSize == |resource| && p.writtenBytes == 0
    requires var names := SinkNames(p.savePath, p.acceptRange, p.downloader.downloadRoutine);
      && p.tempFiles == OpenedHandles(names)
      && (forall n :: n in names ==> n in p.disk && p.disk[n] == [])
    ensures var routine := p.downloader.downloadRoutine;
      var n := Threads(p.acceptRange, routine);
      Progress(p.disk, p.tempFiles, 0, SinkNames(p.savePath, p.acceptRange, routine),
               ChooseRanges(p.acceptRange, routine, |resource|), Indices(n), resource)
  {
    var routine := p.downloader.downloadRoutine;
    var names := SinkNames(p.savePath, p.acceptRange, routine);
    SinkNamesDistinct(p.savePath, p.acceptRange, routine);
    var n := Threads(p.acceptRange, routine);
    ChooseRangesIsPlan(p.acceptRange, routine, |resource|);
    PlanReassembles(resource, n);
    assert forall j :: 0 <= j < |names| ==> names[j] in p.disk && p.disk[names[j]] == [];
    ConcatOfEmpties(SinkData(p.disk, p.tempFiles));
    forall i | 0 <= i < n ensures i in Indices(n) {
      assert Indices(n)[i] == i;
    }
  }

  /** Finishing a prepared task whose sinks are empty against a server that answers as
      Serves says: every worker succeeds, the save path ends up holding the
      answers to the planned ranges in index order, the counter equals their length, and
      the segment files are removed. */
  lemma FinishForResource(p: TaskState, env: Env, resource: seq<byte>)
    requires env.mergeFault == NoMergeFault
    requires Serves(env.fetch, resource)
    requires (p.acceptRange ==> p.downloader.downloadRoutine >= 1) && p.fileSize == |resource| && p.writtenBytes == 0
    requires var names := SinkNames(p.savePath, p.acceptRange, p.downloader.downloadRoutine);
      && p.tempFiles == OpenedHandles(names)
      && (forall n :: n in names ==> n in p.disk && p.disk[n] == [])
    ensures var o := Finish(p, env);
      var names := SinkNames(p.savePath, p.acceptRange, p.downloader.downloadRoutine);
      var got := Concat(ChosenAnswers(p.acceptRange, p.downloader.downloadRoutine, resource));
      && o.error == None
      && o.state.savePath == p.savePath
      && p.savePath in o.state.disk && o.state.disk[p.savePath] == got
      && o.state.writtenBytes == |got|
      && (p.acceptRange ==> forall n :: n in names ==> n !in o.state.disk)
      && (forall n :: n !in names && n != p.savePath ==>
            (n in o.state.disk <==> n in p.disk) && (n in p.disk ==> o.state.disk[n] == p.disk[n]))
  {
    var names := SinkNames(p.savePath, p.acceptRange, p.downloader.downloadRoutine);
    var ranges := ChooseRanges(p.acceptRange, p.downloader.downloadRoutine, |resource|);
    RunForResource(p, env, resource);
    var r := RunFrom(p, env);
    MergeForResource(r, names, ranges, p.savePath, p.acceptRange, resource);
  }

  /** The run half of the above: every worker succeeds and its sink holds the answer to
      its range. */
  lemma RunForResource(p: TaskState, env: Env, resource: seq<byte>)
    requires Serves(env.fetch, resource)
    requires (p.acceptRange ==> p.downloader.downloadRoutine >= 1) && p.fileSize == |resource| && p.writtenBytes == 0
    requires var names := SinkNames(p.savePath, p.acceptRange, p.downloader.downloadRoutine);
      && p.tempFiles == OpenedHandles(names)
      && (forall n :: n in names ==> n in p.disk && p.disk[n] == [])
    ensures var r := RunFrom(p, env);
      var names := SinkNames(p.savePath, p.acceptRange, p.downloader.downloadRoutine);
      var ranges := ChooseRanges(p.acceptRange, p.downloader.downloadRoutine, |resource|);
      && r.error == None
      && Progress(r.disk, r.sinks, r.counter, names, ranges, [], resource)
      && SameOutside(p.disk, r.disk, names)
      && SinkData(r.disk, r.sinks) == Answers(resource, ranges)
  {
    var routine := p.downloader.downloadRoutine;
    var names := SinkNames(p.savePath, p.acceptRange, routine);
    var n := Threads(p.acceptRange, routine);
    var ranges := ChooseRanges(p.acceptRange, routine, |resource|);
    InitialProgress(p, resource);
    RunWorkersServes(p.disk, p.tempFiles, 0, p.url, p.downloader.userAgent, p.headerHost, names, ranges,
                     Indices(n), env.schedule, env.fetch, resource);
    var r := RunFrom(p, env);
    ProgressDone(r.disk, r.sinks, r.counter, names, ranges, resource);
  }

  lemma MergeForResource(r: Run, names: seq<string>, ranges: seq<Range>, savePath: string,
                         acceptRange: bool, resource: seq<byte>)
    requires Progress(r.disk, r.sinks, r.counter, names, ranges, [], resource)
    requires acceptRange ==> savePath !in names
    requires !acceptRange ==> names == [savePath]
    ensures var (d, hs, e) := Merge(r.disk, r.sinks, savePath, acceptRange, NoMergeFault);
      var got := Concat(Answers(resource, ranges));
      && e == None
      && savePath in d && d[savePath] == got
      && r.counter == |got|
      && (acceptRange ==> forall n :: n in names ==> n !in d)
      && (forall n :: n !in names && n != savePath ==> (n in d <==> n in r.disk) && (n in r.disk ==> d[n] == r.disk[n]))
  {
    ProgressDone(r.disk, r.sinks, r.counter, names, ranges, resource);
    if acceptRange {
      forall j | 0 <= j < |r.sinks| ensures r.sinks[j].open && r.sinks[j].name != savePath {
        assert r.sinks[j].name == names[j];
      }
      MergeConcatenates(r.disk, r.sinks, savePath, NoMergeFault);
      forall x | x in names ensures x in NamesOf(r.sinks) {
        var j :| 0 <= j < |names| && names[j] == x;
        assert r.sinks[j] in r.sinks;
      }
      forall x | x in NamesOf(r.sinks) ensures x in names {
        var h :| h in r.sinks && h.name == x;
        var j :| 0 <= j < |r.sinks| && r.sinks[j] == h;
        assert names[j] == x;
      }
    } else {
      var a := SinkData(r.disk, r.sinks);
      assert a[1..] == [];
      assert Concat(a) == a[0];
    }
  }

  /** When every range of the plan is non-empty, or the resource is empty, the answers
      concatenated in index order give back the resource. */
  lemma ChosenAnswersReassemble(acceptRange: bool, routine: int, resource: seq<byte>)
    requires acceptRange ==> routine >= 1
    requires |resource| == 0 || |resource| >= Threads(acceptRange, routine)
    ensures Concat(ChosenAnswers(acceptRange, routine, resource)) == resource
  {
    var n := Threads(acceptRange, routine);
    var rs := ChooseRanges(acceptRange, routine, |resource|);
    ChooseRangesIsPlan(acceptRange, routine, |resource|);
    PlanReassembles(resource, n);
    if |resource| > 0 {
      PlanNonEmpty(|resource|, n);
      assert forall i :: 0 <= i < |rs| ==> rs[i].start <= rs[i].end by {
        forall i | 0 <= i < |rs| ensures rs[i].start <= rs[i].end {
          assert Len(rs[i]) >= 1;
        }
      }
    }
    AnswersAreSlices(resource, rs);
    assert Answers(resource, rs) == Slices(resource, Plan(|resource|, n));
    assert Concat(Slices(resource, Plan(|resource|, n))) == resource;
    assert Concat(Answers(resource, rs)) == resource;
  }

  /** With range support, more than one routine and fewer bytes than routines, every
      answer is the whole resource, so the answers are routine copies of it. */
  lemma SmallFileAnswersRepeat(routine: int, resource: seq<byte>)
    requires 1 < routine && 0 < |resource| < routine
    ensures Concat(ChosenAnswers(true, routine, resource)) == Repeat(resource, routine)
  {
    SmallFileAnswersWhole(routine, resource);
    ConcatOfCopies(ChosenAnswers(true, routine, resource), resource);
  }

  lemma SmallFileAnswersWhole(routine: int, resource: seq<byte>)
    requires 1 < routine && 0 < |resource| < routine
    ensures forall j :: 0 <= j < routine ==> ChosenAnswers(true, routine, resource)[j] == resource
  {
    var rs := ChooseRanges(true, routine, |resource|);
    var a := ChosenAnswers(true, routine, resource);
    PlanSmall(|resource|, routine);
    assert a == Answers(resource, rs);
    forall j | 0 <= j < routine ensures a[j] == resource {
      if j < routine - 1 {
        assert rs[j] == Range(0, -1);
      } else {
        assert rs[j] == Range(0, |resource| - 1);
        assert resource[0..|resource|] == resource;
      }
    }
  }

  /** The range choice evidently intended: multi-range planning only when every planned
      range holds at least one byte, else the whole file as one range. Either way the
      result is a plan, and no range of it is inverted unless the file is empty. */
  function ChooseRangesCorrected(acceptRange: bool, routine: int, fileSize: int): (rs: seq<Range>)
    ensures |rs| >= 1 && rs == Plan(fileSize, |rs|)
    ensures fileSize > 0 ==> forall i :: 0 <= i < |rs| ==> rs[i].start <= rs[i].end
  {
    if acceptRange && routine > 1 && fileSize >= routine then
      PlanNonEmpty(fileSize, routine);
      Plan(fileSize, routine)
    else
      PlanOneThread(fileSize);
      WholeFile(fileSize)
  }

  /** With the corrected range choice the answers give back the resource for every size
      and every routine count. */
  lemma ChooseRangesCorrectedReassembles(acceptRange: bool, routine: int, resource: seq<byte>)
    ensures forall i :: 0 <= i < |ChooseRangesCorrected(acceptRange, routine, |resource|)| ==>
      0 <= ChooseRangesCorrected(acceptRange, routine, |resource|)[i].start
        <= ChooseRangesCorrected(acceptRange, routine, |resource|)[i].end + 1 <= |resource|
    ensures Concat(Answers(resource, ChooseRangesCorrected(acceptRange, routine, |resource|))) == resource
  {
    var rs := ChooseRangesCorrected(acceptRange, routine, |resource|);
    PlanReassembles(resource, |rs|);
    AnswersAreSlices(resource, rs);
    assert Answers(resource, rs) == Slices(resource, rs);
  }

  /** End to end against a server that answers as Serves says: when the proxy
      parses, the probe is accepted and reports the resource's length, nothing fails on
      disk and the save path's sinks start empty, Download succeeds, the save path holds
      the answers to Download's ranges in index order, the counter equals their length,
      the segment files are gone and no file outside the sinks and the save path changes. */
  lemma DownloadAnswers(s: TaskState, env: Env, resp: Response, resource: seq<byte>)
    requires s.downloader.httpProxy.host == "" || env.proxyParses
    requires forall req :: env.probe(req) == Answered(resp)
    requires StatusAccepted(resp.statusCode) && resp.contentLength == |resource|
    requires env.openFault == None && env.mergeFault == NoMergeFault
    requires Serves(env.fetch, resource)
    requires WithInfo(s, resp).acceptRange ==> s.downloader.downloadRoutine >= 1
    requires FreshSinks(s, resp)
    ensures var o := Download(s, env);
      var t := WithInfo(s, resp);
      var names := SinkNames(t.savePath, t.acceptRange, s.downloader.downloadRoutine);
      var got := Concat(ChosenAnswers(t.acceptRange, s.downloader.downloadRoutine, resource));
      && o.error == None
      && o.state.savePath == t.savePath
      && t.savePath in o.state.disk && o.state.disk[t.savePath] == got
      && o.state.writtenBytes == |got|
      && (t.acceptRange ==> forall n :: n in names ==> n !in o.state.disk)
      && (forall n :: n !in names && n != t.savePath ==>
            (n in o.state.disk <==> n in s.disk) && (n in s.disk ==> o.state.disk[n] == s.disk[n]))
  {
    PreparedForResource(s, env, resp);
    var p := Prepared(s, env).0;
    FinishForResource(p, env, resource);
  }

  /** When, in addition, the resource is empty or has at least one byte per worker,
      the save path holds exactly the resource and the counter equals its length. */
  lemma DownloadFetchesResource(s: TaskState, env: Env, resp: Response, resource: seq<byte>)
    requires s.downloader.httpProxy.host == "" || env.proxyParses
    requires forall req :: env.probe(req) == Answered(resp)
    requires StatusAccepted(resp.statusCode) && resp.contentLength == |resource|
    requires env.openFault == None && env.mergeFault == NoMergeFault
    requires Serves(env.fetch, resource)
    requires WithInfo(s, resp).acceptRange ==> s.downloader.downloadRoutine >= 1
    requires FreshSinks(s, resp)
    requires |resource| == 0 || |resource| >= Threads(WithInfo(s, resp).acceptRange, s.downloader.downloadRoutine)
    ensures var o := Download(s, env);
      var t := WithInfo(s, resp);
      var names := SinkNames(t.savePath, t.acceptRange, s.downloader.downloadRoutine);
      && o.error == None
      && o.state.savePath == t.savePath
      && t.savePath in o.state.disk && o.state.disk[t.savePath] == resource
      && o.state.writtenBytes == |resource|
      && (t.acceptRange ==> forall n :: n in names ==> n !in o.state.disk)
      && (forall n :: n !in names && n != t.savePath ==>
            (n in o.state.disk <==> n in s.disk) && (n in s.disk ==> o.state.disk[n] == s.disk[n]))
  {
    DownloadAnswers(s, env, resp, resource);
    ChosenAnswersReassemble(WithInfo(s, resp).acceptRange, s.downloader.downloadRoutine, resource);
  }

  /** As written, a file with fewer bytes than routines on a server with range support
      ends up as routine copies of itself: the block size is 0, every worker but the last
      asks for the inverted range [0, -1] and is answered with the whole resource. */
  lemma DownloadSmallFileRepeats(s: TaskState, env: Env, resp: Response, resource: seq<byte>)
    requires s.downloader.httpProxy.host == "" || env.proxyParses
    requires forall req :: env.probe(req) == Answered(resp)
    requires StatusAccepted(resp.statusCode) && resp.contentLength == |resource|
    requires env.openFault == None && env.mergeFault == NoMergeFault
    requires Serves(env.fetch, resource)
    requires FreshSinks(s, resp)
    requires WithInfo(s, resp).acceptRange && 1 < s.downloader.downloadRoutine
    requires 0 < |resource| < s.downloader.downloadRoutine
    ensures var o := Download(s, env);
      && o.error == None
      && WithInfo(s, resp).savePath in o.state.disk
      && o.state.disk[WithInfo(s, resp).savePath] == Repeat(resource, s.downloader.downloadRoutine)
      && o.state.disk[WithInfo(s, resp).savePath] != resource
      && o.state.writtenBytes == s.downloader.downloadRoutine * |resource|
  {
    var routine := s.downloader.downloadRoutine;
    DownloadAnswers(s, env, resp, resource);
    SmallFileAnswersRepeat(routine, resource);
    RepeatLength(resource, routine);
    assert routine * |resource| > |resource|;
  }
}
