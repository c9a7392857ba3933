/** A download task as the object the program manipulates (DownloadTask in task.go, with
    its methods in task.go, file.go, downloader.go and io.go). Every method updates the
    fields in place as the source does and is proved to leave the task in the state the
    value-level model of module Orchestrator prescribes. */
module Tasks {
  import opened Wrappers
  import opened Config
  import opened Ranges
  import opened Transport
  import opened Http
  import opened Probe
  import opened SegmentStore
  import opened Fetcher
  import opened Orchestrator

  class DownloadTask {
    var downloader: Downloader
    var scheme: string
    var host: string
    var path: string
    var query: string
    var fileName: string
    var url: string
    var headerHost: string
    var resolvedIP: string
    var savePath: string
    var fileSize: int
    var writtenBytes: int
    var acceptRange: bool
    var ignoreCert: bool
    var client: Option<Client>
    var tempFiles: seq<Handle>
    /** The file system the task reads and writes. */
    var disk: Disk

    /** The task's fields as a value. */
    function State(): TaskState
      reads this
    {
      TaskState(downloader, scheme, host, path, query, fileName, url, headerHost, resolvedIP,
                savePath, fileSize, writtenBytes, acceptRange, ignoreCert, client, tempFiles, disk)
    }

    /** NewDownloadTask, from the parts of a URL that parsed. */
    constructor (d: Downloader, u: UrlParts, fs: Disk)
      ensures State() == NewTask(d, u, fs)
    {
      var v := WithDefaultScheme(u);
      downloader := d;
      scheme := v.scheme;
      host := v.host;
      path := v.path;
      query := v.rawQuery;
      fileName := "";
      url := "";
      headerHost := "";
      resolvedIP := "";
      savePath := "";
      fileSize := 0;
      writtenBytes := 0;
      acceptRange := false;
      ignoreCert := false;
      client := None;
      tempFiles := [];
      disk := fs;
    }

    // ---- setters and getters ----

    method SetFileName(name: string)
      modifies this
      ensures State() == old(State()).(fileName := name)
    {
      fileName := name;
    }

    method ForceMultiThread()
      modifies this
      ensures State() == old(State()).(acceptRange := true)
    {
      acceptRange := true;
    }

    method ForceHttps()
      modifies this
      ensures State() == old(State()).(scheme := "https")
    {
      scheme := "https";
    }

    method ForceHttp()
      modifies this
      ensures State() == old(State()).(scheme := "http")
    {
      scheme := "http";
    }

    method WithResolvedIp(ip: string)
      modifies this
      ensures State() == old(State()).(resolvedIP := ip)
    {
      resolvedIP := ip;
    }

    method ReplaceHostName(h: string)
      modifies this
      ensures State() == old(State()).(host := h)
    {
      host := h;
    }

    method AddHostNameToHeader(h: string)
      modifies this
      ensures State() == old(State()).(headerHost := h)
    {
      headerHost := h;
    }

    /** WithResolvedIpOnHost: the old host goes to the Host header, ip becomes the host. */
    method WithResolvedIpOnHost(ip: string)
      modifies this
      ensures var f := ResolvedIpOnHost(HostFields(old(host), old(headerHost), old(ignoreCert)), ip);
        State() == old(State()).(host := f.host, headerHost := f.headerHost)
      ensures old(host) != "" ==> GetHostName() == old(host)
    {
      AddHostNameToHeader(host);
      ReplaceHostName(ip);
    }

    method IgnoreCertificateVerify()
      modifies this
      ensures State() == old(State()).(ignoreCert := true)
    {
      ignoreCert := true;
    }

    function GetHostName(): (r: string)
      reads this
      ensures r == HostName(headerHost, host)
    {
      if headerHost != "" then headerHost else host
    }

    function GetWrittenBytes(): (r: int)
      reads this
      ensures r == State().writtenBytes
    {
      writtenBytes
    }

    function GetFileSize(): (r: int)
      reads this
      ensures r == State().fileSize
    {
      fileSize
    }

    // ---- initClient ----

    /** initClient; proxyParses is url.Parse's verdict on the explicit proxy host. */
    method InitClient(proxyParses: bool) returns (err: Option<Error>)
      modifies this
      ensures (State(), err) == Orchestrator.InitClient(old(State()), proxyParses)
    {
      if client == None {
        client := Some(DefaultClient);
      }
      var proxy := if !downloader.httpProxy.isNoProxy then FromEnvironment else NoProxy;
      if downloader.httpProxy.host != "" {
        if !proxyParses {
          return Some(ProxyUrl(downloader.httpProxy.host));
        }
        proxy := Explicit(downloader.httpProxy.host);
      }
      assert SelectProxy(downloader.httpProxy, proxyParses) == Ok(proxy);
      InstallTransport(proxy);
      return None;
    }

    /** The rest of initClient once the proxy is chosen: the dial rewrite, the host and
        certificate rule, the transport, and the request URL. */
    method InstallTransport(proxy: ProxyChoice)
      modifies this
      ensures var s := old(State());
        var f := HostRuleAsWritten(HostFields(s.host, s.headerHost, s.ignoreCert));
        State() == s.(headerHost := f.headerHost, ignoreCert := f.ignoreCert,
                      client := Some(Client(proxy, if s.resolvedIP != "" then Some(s.resolvedIP) else None, f.ignoreCert)),
                      url := BuildUrl(s.scheme, s.host, s.path, s.query))
    {
      var dial := if resolvedIP != "" then Some(resolvedIP) else None;
      if headerHost != "" {
        IgnoreCertificateVerify();
      } else {
        headerHost := host;
      }
      client := Some(Client(proxy, dial, ignoreCert));
      url := scheme + "://" + host + path;
      if query != "" {
        url := url + "?" + query;
      }
    }

    // ---- initFiles, setFileInfo, openTempFiles ----

    /** setFileInfo: fill in the name if missing, switch range support on, take the size. */
    method SetFileInfo(resp: Response)
      modifies this
      ensures InfoOf(State()) == Probe.SetFileInfo(InfoOf(old(State())), old(path), resp)
      ensures State() == old(State()).(fileName := fileName, acceptRange := acceptRange, fileSize := fileSize)
    {
      if fileName == "" {
        var disposition := HeaderGet(resp.header, "Content-Disposition");
        if disposition != "" {
          match FilenameDirective(disposition) {
            case Some(n) => fileName := n;
            case None =>
          }
        } else {
          fileName := PathBase(path);
        }
      }
      if HeaderGet(resp.header, "Accept-Ranges") != "" {
        acceptRange := true;
      }
      fileSize := resp.contentLength;
    }

    /** openTempFiles: open each sink in turn; the open numbered openFault.at fails. */
    method OpenTempFiles(openFault: Option<Fault>) returns (err: Option<Error>)
      modifies this
      ensures (State(), err) == OpenSinks(old(State()), openFault)
    {
      var names := SinkNames(savePath, acceptRange, downloader.downloadRoutine);
      var mode := if acceptRange then KeepContents else Truncate;
      var files: seq<Handle> := [];
      var i := 0;
      while i < |names|
        invariant 0 <= i <= |names|
        invariant openFault.None? || openFault.value.at >= i
        invariant disk == CreateAll(old(disk), names[..i], mode)
        invariant files == OpenedHandles(names[..i])
        invariant State() == old(State()).(disk := disk)
      {
        if openFault.Some? && openFault.value.at == i {
          return Some(openFault.value.error);
        }
        CreatePrefixStep(old(disk), names, i, mode);
        disk := CreateFile(disk, names[i], mode);
        files := files + [Handle(names[i], true, 0)];
        i := i + 1;
      }
      assert names[..i] == names;
      tempFiles := files;
      return None;
    }

    /** initFiles: probe with HEAD, check the status, set the file information and the save
        path, then open the sinks. */
    method InitFiles(headers: map<string, string>, probe: Request -> ProbeOutcome, openFault: Option<Fault>)
      returns (err: Option<Error>)
      modifies this
      ensures (State(), err) == Orchestrator.InitFiles(old(State()), headers, probe, openFault)
    {
      ghost var s0 := State();
      var req := ProbeRequest(url, downloader.userAgent, headerHost, headers);
      var answer := probe(req);
      if answer.ProbeFailed? {
        assert CheckProbe(answer) == Err(answer.error);
        return Some(answer.error);
      }
      var resp := answer.response;
      if resp.statusCode != StatusOK && resp.statusCode != StatusPartialContent {
        assert CheckProbe(answer) == Err(Status(resp.status));
        return Some(Status(resp.status));
      }
      InitFilesAccepted(s0, headers, probe, openFault, resp);
      ghost var t := WithInfo(s0, resp);
      SetFileInfo(resp);
      savePath := downloader.savePath + "/" + fileName;
      assert State() == t;
      err := OpenTempFiles(openFault);
    }

    // ---- mergeFiles, CleanTempFiles, closeTempFiles ----

    /** closeTempFiles: close every sink. */
    method CloseTempFiles()
      modifies this
      ensures State() == Orchestrator.CloseTempFiles(old(State()))
    {
      var i := 0;
      while i < |tempFiles|
        invariant 0 <= i <= |tempFiles| == |old(tempFiles)|
        invariant forall j :: 0 <= j < |tempFiles| ==>
          tempFiles[j] == if j < i then old(tempFiles)[j].(open := false) else old(tempFiles)[j]
        invariant State() == old(State()).(tempFiles := tempFiles)
      {
        tempFiles := tempFiles[i := tempFiles[i].(open := false)];
        i := i + 1;
      }
    }

    /** CleanTempFiles: close every sink, then remove every sink's file. */
    method CleanTempFiles()
      modifies this
      ensures State() == Orchestrator.CleanTempFiles(old(State()))
    {
      CloseTempFiles();
      var i := 0;
      while i < |tempFiles|
        invariant 0 <= i <= |tempFiles|
        invariant tempFiles == CloseAll(old(tempFiles))
        invariant disk == old(disk) - NamesOf(tempFiles[..i])
        invariant State() == old(State()).(tempFiles := tempFiles, disk := disk)
      {
        NamesOfSnoc(tempFiles, i);
        disk := disk - {tempFiles[i].name};
        i := i + 1;
      }
      assert tempFiles[..i] == tempFiles;
      NamesOfCloseAll(old(tempFiles));
    }

    /** mergeFiles: nothing to do without ranges; otherwise create the destination, append
        every sink to it in index order, then clean the sinks up. */
    method MergeFiles(fault: MergeFault) returns (err: Option<Error>)
      modifies this
      ensures (State(), err) == Orchestrator.MergeFiles(old(State()), fault)
    {
      if !acceptRange {
        return None;
      }
      if fault.CreateFails? {
        return Some(fault.error);
      }
      disk := disk[savePath := []];
      var i := 0;
      while i < |tempFiles|
        invariant 0 <= i <= |tempFiles| == |old(tempFiles)|
        invariant CopySinks(disk, tempFiles, savePath, fault, i)
               == CopySinks(old(disk)[savePath := []], old(tempFiles), savePath, fault, 0)
        invariant State() == old(State()).(tempFiles := tempFiles, disk := disk)
      {
        var f := tempFiles[i];
        if !f.open {
          return Some(Closed(f.name));
        }
        if fault.CopyFails? && fault.at == i {
          return Some(fault.error);
        }
        var data := Contents(disk, f.name);
        disk := disk[savePath := Contents(disk, savePath) + data];
        tempFiles := tempFiles[i := f.(offset := |data|)];
        i := i + 1;
      }
      CleanTempFiles();
      return None;
    }

    // ---- copy and start ----

    /** The `to` closure of copy: write p to sink i and add the bytes the write reports
        to writtenBytes, also when the write fails. */
    method To(i: nat, p: seq<byte>, fault: WriteFault) returns (n: nat, err: Option<Error>)
      requires i < |tempFiles|
      modifies this
      ensures var w := FileWrite(old(disk), old(tempFiles)[i], p, fault);
        && State() == old(State()).(disk := w.disk, tempFiles := old(tempFiles)[i := w.handle],
                                     writtenBytes := Count(old(writtenBytes), w.n))
        && n == w.n && err == w.error
    {
      var w := FileWrite(disk, tempFiles[i], p, fault);
      disk := w.disk;
      tempFiles := tempFiles[i := w.handle];
      n, err := w.n, w.error;
      if n != 0 {
        writtenBytes := writtenBytes + n;
      }
    }

    /** copy into sink i: io.Copy's loop over the body's reads; each non-empty chunk goes
        through the `to` closure. */
    method Copy(i: nat, steps: seq<Step>) returns (written: int, err: Option<Error>)
      requires i < |tempFiles|
      modifies this
      ensures var o := CopyLoop(old(disk), old(tempFiles)[i], old(writtenBytes), 0, steps);
        && State() == old(State()).(disk := o.disk, tempFiles := old(tempFiles)[i := o.handle],
                                     writtenBytes := o.counter)
        && written == o.written && err == o.error
    {
      written := 0;
      var k := 0;
      while k < |steps|
        invariant 0 <= k <= |steps|
        invariant |tempFiles| == |old(tempFiles)|
        invariant CopyLoop(disk, tempFiles[i], writtenBytes, written, steps[k..])
               == CopyLoop(old(disk), old(tempFiles)[i], old(writtenBytes), 0, steps)
        invariant State() == old(State()).(disk := disk, tempFiles := old(tempFiles)[i := tempFiles[i]],
                                           writtenBytes := writtenBytes)
        decreases |steps| - k
      {
        var s := steps[k];
        assert steps[k..][0] == s && steps[k..][1..] == steps[k + 1..];
        if |s.chunk| > 0 {
          var n, e := To(i, s.chunk, s.fault);
          written := written + n;
          if e.Some? {
            return written, e;
          }
        }
        match s.end {
          case Eof => return written, None;
          case ReadFails(e) => return written, Some(e);
          case More =>
        }
        k := k + 1;
      }
      return written, None;
    }

    /** start(i, r): the ranged GET, then copy of its body into sink i. */
    method Start(i: nat, r: Range, fetch: Request -> Fetch) returns (err: Option<Error>)
      modifies this
      ensures var w := Fetcher.Start(old(disk), old(tempFiles), old(writtenBytes), old(url),
                                     old(downloader.userAgent), old(headerHost), i, r, fetch);
        && State() == old(State()).(disk := w.disk, tempFiles := w.sinks, writtenBytes := w.counter)
        && err == w.error
    {
      var req := FetchRequest(url, downloader.userAgent, headerHost, r);
      match fetch(req) {
        case RequestFails(e) =>
          return Some(e);
        case Body(steps) =>
          if i >= |tempFiles| {
            return Some(IndexOutOfRange(i, |tempFiles|));
          }
          var _, e := Copy(i, steps);
          return e;
      }
    }

    // ---- Download ----

    /** Download: initClient, initFiles, reset the counter, choose the ranges, start the
        workers and read their results in completion order; on the first error clean up
        (or with BreakPoint only close) and return it; otherwise merge. */
    method Download(env: Env) returns (err: Option<Error>)
      modifies this
      ensures State() == Orchestrator.Download(old(State()), env).state
      ensures err == Orchestrator.Download(old(State()), env).error
    {
      err := InitClient(env.proxyParses);
      if err.Some? {
        return err;
      }
      err := InitFiles(env.headers, env.probe, env.openFault);
      if err.Some? {
        return err;
      }
      writtenBytes := 0;
      ghost var p := State();
      assert (p, None) == Prepared(old(State()), env);

      err := FetchAndMerge(env);
    }

    /** The part of Download after the counter reset: choose the ranges, run the workers,
        then clean up after the first error or merge. */
    method FetchAndMerge(env: Env) returns (err: Option<Error>)
      modifies this
      ensures (State(), err) == (Finish(old(State()), env).state, Finish(old(State()), env).error)
    {
      var ranges: seq<Range>;
      var threads: int;
      if acceptRange && downloader.downloadRoutine > 1 {
        ranges := SplitBytes(fileSize, downloader.downloadRoutine);
        threads := downloader.downloadRoutine;
      } else {
        ranges := [Range(0, fileSize - 1)];
        threads := 1;
      }
      ghost var p := old(State());
      assert ranges == ChooseRanges(p.acceptRange, p.downloader.downloadRoutine, p.fileSize);
      err := ReadResults(ranges, threads, env.schedule, env.fetch);
      ghost var r := RunFrom(p, env);
      assert State() == p.(disk := r.disk, tempFiles := r.sinks, writtenBytes := r.counter);
      if err.Some? {
        if !env.breakPoint {
          CleanTempFiles();
        } else {
          CloseTempFiles();
        }
        return err;
      }
      err := MergeFiles(env.mergeFault);
    }

    /** Download's loop over the workers' results: the next worker to finish runs start;
        the loop stops at the first error. */
    method ReadResults(ranges: seq<Range>, threads: nat, schedule: seq<nat>, fetch: Request -> Fetch)
      returns (err: Option<Error>)
      requires |ranges| == threads
      modifies this
      ensures var r := RunWorkers(old(disk), old(tempFiles), old(writtenBytes), old(url), old(downloader.userAgent),
                                  old(headerHost), ranges, Indices(threads), schedule, fetch);
        && State() == old(State()).(disk := r.disk, tempFiles := r.sinks, writtenBytes := r.counter)
        && err == r.error
    {
      ghost var goal := RunWorkers(disk, tempFiles, writtenBytes, url, downloader.userAgent, headerHost,
                                   ranges, Indices(threads), schedule, fetch);
      var pending: seq<nat> := Indices(threads);
      var order: seq<nat> := schedule;
      var i := 0;
      while i < threads
        invariant 0 <= i <= threads && |pending| == threads - i
        invariant forall j :: 0 <= j < |pending| ==> pending[j] < |ranges|
        invariant var rest := RunWorkers(disk, tempFiles, writtenBytes, url, downloader.userAgent, headerHost,
                                         ranges, pending, order, fetch);
          && rest.disk == goal.disk && rest.sinks == goal.sinks
          && rest.counter == goal.counter && rest.error == goal.error
        invariant State() == old(State()).(disk := disk, tempFiles := tempFiles, writtenBytes := writtenBytes)
        decreases threads - i
      {
        var k := Pick(pending, order);
        RunWorkersStep(disk, tempFiles, writtenBytes, url, downloader.userAgent, headerHost,
                       ranges, pending, order, fetch);
        var e := Start(pending[k], ranges[pending[k]], fetch);
        if e.Some? {
          return e;
        }
        pending := Without(pending, k);
        order := Rest(order);
        i := i + 1;
      }
      return None;
    }
  }
}
