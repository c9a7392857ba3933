/** The segment fetcher: start in task.go (one ranged GET per worker) and copy in io.go,
    which streams the response body into the worker's sink through a writer that adds the
    bytes of every write to the task's writtenBytes counter. The body and the file's
    answers to writes are inputs; io.Copy's read/write loop is modelled step by step. */
module Fetcher {
  import opened Wrappers
  import opened GoStrings
  import opened Ranges
  import opened Http
  import opened SegmentStore

  /** How one Read of the body ends: more follows, the body is done, or the read failed. */
  datatype ReadEnd = More | Eof | ReadFails(error: Error)

  /** How the file takes one Write: all of it, or only the first n bytes with an error
      (an *os.File never reports a short write without an error). */
  datatype WriteFault = Accepts | Fails(n: nat, error: Error)

  /** One Read of the body, and the file's answer to the Write that passes its bytes on. */
  datatype Step = Step(chunk: seq<byte>, end: ReadEnd, fault: WriteFault)

  /** The server's answer to a GET: no response, or a body read step by step. The status
      code is not inspected by start, so it is not part of the model. */
  datatype Fetch = RequestFails(error: Error) | Body(steps: seq<Step>)

  /** The `to` closure's update of writtenBytes after a write that reported n bytes. */
  function Count(counter: int, n: nat): (r: int)
    ensures r == counter + n
    ensures n == 0 ==> r == counter
  {
    if n != 0 then counter + n else counter
  }

  /** How many of the bytes of p the file takes. */
  function Taken(p: seq<byte>, fault: WriteFault): (n: nat)
    ensures n <= |p|
    ensures fault.Accepts? ==> n == |p|
  {
    match fault
    case Accepts => |p|
    case Fails(k, _) => if k < |p| then k else |p|
  }

  datatype Written = Written(disk: Disk, handle: Handle, n: nat, error: Option<Error>)

  /** (*os.File).Write: a closed file takes nothing and fails; an open one takes the bytes
      at its offset (in the directory when the name is still there) and moves the offset. */
  function FileWrite(disk: Disk, h: Handle, p: seq<byte>, fault: WriteFault): (w: Written)
    ensures w.n <= |p|
    ensures w.error.None? ==> w.n == |p|
    ensures w.handle.name == h.name && w.handle.open == h.open
  {
    if !h.open then Written(disk, h, 0, Some(Closed(h.name)))
    else
      var n := Taken(p, fault);
      var err := match fault case Accepts => None case Fails(_, e) => Some(e);
      var d := if h.name in disk then disk[h.name := Overwrite(disk[h.name], h.offset, p[..n])] else disk;
      Written(d, h.(offset := h.offset + n), n, err)
  }

  /** The state of copy when io.Copy returns. */
  datatype Copied = Copied(disk: Disk, handle: Handle, counter: int, written: int, error: Option<Error>)

  /** The Write io.Copy issues for a step: none for an empty chunk. */
  function StepWrite(disk: Disk, h: Handle, s: Step): Written
  {
    if |s.chunk| > 0 then FileWrite(disk, h, s.chunk, s.fault) else Written(disk, h, 0, None)
  }

  /** io.Copy's loop over the remaining steps: each non-empty chunk is written and counted;
      a write error stops the copy with that error; then EOF ends it cleanly and a read
      error ends it with the error. A body whose steps run out ends as at EOF. */
  function CopyLoop(disk: Disk, h: Handle, counter: int, written: int, steps: seq<Step>): Copied
    decreases |steps|
  {
    if steps == [] then Copied(disk, h, counter, written, None)
    else
      var s := steps[0];
      var w := StepWrite(disk, h, s);
      var c := Count(counter, w.n);
      if w.error.Some? then Copied(w.disk, w.handle, c, written + w.n, w.error)
      else
        match s.end
        case More => CopyLoop(w.disk, w.handle, c, written + w.n, steps[1..])
        case Eof => Copied(w.disk, w.handle, c, written + w.n, None)
        case ReadFails(e) => Copied(w.disk, w.handle, c, written + w.n, Some(e))
  }

  /** The bytes of one step that reach the sink. */
  function Piece(open: bool, s: Step): seq<byte>
  {
    if |s.chunk| == 0 || !open then [] else s.chunk[..Taken(s.chunk, s.fault)]
  }

  /** The bytes that reach the sink, in the order they were read: every chunk up to the
      end of the body, cut at the first write that fails; nothing reaches a closed sink. */
  function Delivered(open: bool, steps: seq<Step>): seq<byte>
    decreases |steps|
  {
    if steps == [] then []
    else
      var s := steps[0];
      var stops := |s.chunk| > 0 && (!open || s.fault.Fails?);
      if !stops && s.end.More? then Piece(open, s) + Delivered(open, steps[1..]) else Piece(open, s)
  }

  /** One step's write: the piece lands at the offset and the offset moves past it. */
  lemma StepWriteEffect(disk: Disk, h: Handle, s: Step)
    ensures var w := StepWrite(disk, h, s);
      var piece := Piece(h.open, s);
      && w.n == |piece|
      && w.handle == h.(offset := h.offset + |piece|)
      && w.disk == (if h.open && h.name in disk then disk[h.name := Overwrite(disk[h.name], h.offset, piece)] else disk)
      && (w.error.Some? <==> |s.chunk| > 0 && (!h.open || s.fault.Fails?))
  {
    if h.open && h.name in disk && Piece(h.open, s) == [] {
      assert disk[h.name := disk[h.name]] == disk;
    }
  }

  /** One step of the loop: either the copy goes on past the step's piece, or it stops
      after it; the delivered bytes follow the same split. */
  lemma CopyLoopUnfold(disk: Disk, h: Handle, counter: int, written: int, steps: seq<Step>)
    requires steps != []
    ensures var s := steps[0];
      var w := StepWrite(disk, h, s);
      var piece := Piece(h.open, s);
      var o := CopyLoop(disk, h, counter, written, steps);
      if w.error.None? && s.end.More? then
        && o == CopyLoop(w.disk, w.handle, counter + |piece|, written + |piece|, steps[1..])
        && Delivered(h.open, steps) == piece + Delivered(h.open, steps[1..])
      else
        && o.disk == w.disk && o.handle == w.handle
        && o.counter == counter + |piece| && o.written == written + |piece|
        && o.error == (if w.error.Some? then w.error else if s.end.ReadFails? then Some(s.end.error) else None)
        && Delivered(h.open, steps) == piece
  {
    StepWriteEffect(disk, h, steps[0]);
  }

  /** copy's effect: the delivered bytes land in the sink from its offset on, the offset
      moves past them, and writtenBytes and io.Copy's total both grow by exactly their
      number, so the counter never decreases. Files other than the sink are untouched. */
  lemma CopyLoopEffect(disk: Disk, h: Handle, counter: int, written: int, steps: seq<Step>)
    ensures var o := CopyLoop(disk, h, counter, written, steps);
      var data := Delivered(h.open, steps);
      && o.counter == counter + |data| && o.counter >= counter
      && o.written == written + |data|
      && o.handle == h.(offset := h.offset + |data|)
      && o.disk == (if h.open && h.name in disk then disk[h.name := Overwrite(disk[h.name], h.offset, data)] else disk)
  {
    CopyLoopCounts(disk, h, counter, written, steps);
    CopyLoopWrites(disk, h, counter, written, steps);
  }

  lemma {:induction false} CopyLoopCounts(disk: Disk, h: Handle, counter: int, written: int, steps: seq<Step>)
    ensures var o := CopyLoop(disk, h, counter, written, steps);
      var data := Delivered(h.open, steps);
      && o.counter == counter + |data|
      && o.written == written + |data|
      && o.handle == h.(offset := h.offset + |data|)
    decreases |steps|
  {
    if steps != [] {
      var s := steps[0];
      var w := StepWrite(disk, h, s);
      var piece := Piece(h.open, s);
      StepWriteEffect(disk, h, s);
      CopyLoopUnfold(disk, h, counter, written, steps);
      if w.error.None? && s.end.More? {
        CopyLoopCounts(w.disk, w.handle, counter + |piece|, written + |piece|, steps[1..]);
      }
    }
  }

  lemma {:induction false} CopyLoopWrites(disk: Disk, h: Handle, counter: int, written: int, steps: seq<Step>)
    ensures CopyLoop(disk, h, counter, written, steps).disk
         == if h.open && h.name in disk then disk[h.name := Overwrite(disk[h.name], h.offset, Delivered(h.open, steps))]
            else disk
    decreases |steps|
  {
    if steps != [] {
      var s := steps[0];
      var w := StepWrite(disk, h, s);
      var piece := Piece(h.open, s);
      StepWriteEffect(disk, h, s);
      CopyLoopUnfold(disk, h, counter, written, steps);
      if w.error.None? && s.end.More? {
        var rest := Delivered(h.open, steps[1..]);
        CopyLoopWrites(w.disk, w.handle, counter + |piece|, written + |piece|, steps[1..]);
        if h.open && h.name in disk {
          OverwriteAppends(disk[h.name], h.offset, piece, rest);
          assert w.disk[h.name := Overwrite(w.disk[h.name], h.offset + |piece|, rest)]
              == disk[h.name := Overwrite(disk[h.name], h.offset, piece + rest)];
        }
      }
    }
  }

  /** A write that takes only part of a chunk and fails still counts the bytes it took. */
  lemma PartialWriteCounted(disk: Disk, h: Handle, counter: int, chunk: seq<byte>, n: nat, e: Error, rest: seq<Step>)
    requires h.open && 0 < n < |chunk|
    ensures var o := CopyLoop(disk, h, counter, 0, [Step(chunk, More, Fails(n, e))] + rest);
      o.counter == counter + n && o.error == Some(e)
  {
  }

  /** The body carries exactly data: every step's bytes are taken whole, no read fails,
      and the body ends, at EOF, once data is used up. */
  predicate Delivers(steps: seq<Step>, data: seq<byte>)
    decreases |steps|
  {
    && |steps| > 0
    && steps[0].fault == Accepts
    && |steps[0].chunk| <= |data|
    && steps[0].chunk == data[..|steps[0].chunk|]
    && match steps[0].end
       case Eof => steps[0].chunk == data
       case More => Delivers(steps[1..], data[|steps[0].chunk|..])
       case ReadFails(_) => false
  }

  /** A clean body reaches an open sink whole and in order, and copy reports no error. */
  lemma CopyDelivers(disk: Disk, h: Handle, counter: int, written: int, steps: seq<Step>, data: seq<byte>)
    requires h.open && Delivers(steps, data)
    ensures Delivered(true, steps) == data
    ensures CopyLoop(disk, h, counter, written, steps).error == None
  {
    DeliversData(steps, data);
    DeliversNoError(disk, h, counter, written, steps, data);
  }

  lemma {:induction false} DeliversData(steps: seq<Step>, data: seq<byte>)
    requires Delivers(steps, data)
    ensures Delivered(true, steps) == data
    decreases |steps|
  {
    var s := steps[0];
    assert Piece(true, s) == s.chunk;
    if s.end.More? {
      DeliversData(steps[1..], data[|s.chunk|..]);
      assert data == s.chunk + data[|s.chunk|..];
    }
  }

  lemma {:induction false} DeliversNoError(disk: Disk, h: Handle, counter: int, written: int, steps: seq<Step>,
                                           data: seq<byte>)
    requires h.open && Delivers(steps, data)
    ensures CopyLoop(disk, h, counter, written, steps).error == None
    decreases |steps|
  {
    var s := steps[0];
    var w := StepWrite(disk, h, s);
    StepWriteEffect(disk, h, s);
    if s.end.More? {
      DeliversNoError(w.disk, w.handle, Count(counter, w.n), written + w.n, steps[1..], data[|s.chunk|..]);
    }
  }

  // ---- the ranged GET of start ----

  /** The Range header of a fetch: bytes=<start>-<end>, both in %d. */
  function RangeHeader(r: Range): string
  {
    "bytes=" + IntToString(r.start) + "-" + IntToString(r.end)
  }

  /** How a server reads a Range header back. */
  function ParseRangeHeader(h: string): Option<Range>
  {
    if |h| >= 6 && h[..6] == "bytes=" then
      var rest := h[6..];
      var k := IndexOf(rest, '-');
      if k <= 0 then None else Some(Range(ParseNat(rest[..k]), ParseInt(rest[k + 1..])))
    else None
  }

  /** The header names the range exactly, for every range that starts at or after 0. */
  lemma RangeHeaderRoundTrip(r: Range)
    requires r.start >= 0
    ensures ParseRangeHeader(RangeHeader(r)) == Some(r)
  {
    var h := RangeHeader(r);
    var a := NatToString(r.start);
    var rest := h[6..];
    assert rest == a + "-" + IntToString(r.end);
    assert rest[..|a|] == a;
    NatToStringDigits(r.start);
    assert '-' !in a;
    IndexOfFirst(a, '-', IntToString(r.end));
    assert rest[|a| + 1..] == IntToString(r.end);
    ParseNatToString(r.start);
    ParseIntToString(r.end);
  }

  /** start's request: GET of the task URL with the Range header, the user agent when one
      is configured, and the Host override. */
  function FetchRequest(url: string, userAgent: string, headerHost: string, r: Range): (req: Request)
    ensures req.verb == "GET" && req.url == url && req.host == headerHost
    ensures HeaderGet(req.header, "Range") == RangeHeader(r)
    ensures userAgent != "" ==> HeaderGet(req.header, "User-Agent") == userAgent
    ensures userAgent == "" ==> "User-Agent" !in req.header
  {
    var agent := if userAgent != "" then map["User-Agent" := userAgent] else map[];
    Request("GET", url, map["Range" := RangeHeader(r)] + agent, headerHost)
  }

  /** The sinks and the counter after one worker. */
  datatype Worker = Worker(disk: Disk, sinks: seq<Handle>, counter: int, error: Option<Error>)

  /** start(i, range): send the GET; on an answer, copy its body into sink i. A worker
      without a sink is Go's index-out-of-range panic, returned here as an error. */
  function Start(disk: Disk, sinks: seq<Handle>, counter: int, url: string, userAgent: string,
                 headerHost: string, i: nat, r: Range, fetch: Request -> Fetch): (w: Worker)
    ensures |w.sinks| == |sinks|
  {
    match fetch(FetchRequest(url, userAgent, headerHost, r))
    case RequestFails(e) => Worker(disk, sinks, counter, Some(e))
    case Body(steps) =>
      if i < |sinks| then
        var o := CopyLoop(disk, sinks[i], counter, 0, steps);
        Worker(o.disk, sinks[i := o.handle], o.counter, o.error)
      else Worker(disk, sinks, counter, Some(IndexOutOfRange(i, |sinks|)))
  }

  /** What a server sends for a range that starts inside the resource: the range's bytes;
      a range whose last byte comes before its first is invalid (section 2.1 of RFC 7233),
      and this server ignores such a Range header and sends the whole resource, which
      section 3.1 of RFC 7233 allows. */
  function Answer(resource: seq<byte>, r: Range): seq<byte>
    requires 0 <= r.start <= r.end + 1 <= |resource|
  {
    if r.start <= r.end then resource[r.start..r.end + 1] else resource
  }

  /** The answers to a sequence of ranges, in order. */
  function Answers(resource: seq<byte>, rs: seq<Range>): (data: seq<seq<byte>>)
    requires forall i :: 0 <= i < |rs| ==> 0 <= rs[i].start <= rs[i].end + 1 <= |resource|
    ensures |data| == |rs|
  {
    seq(|rs|, i requires 0 <= i < |rs| => Answer(resource, rs[i]))
  }

  /** The answers are the ranges' slices exactly when no range is inverted or the
      resource is empty. */
  lemma AnswersAreSlices(resource: seq<byte>, rs: seq<Range>)
    requires forall i :: 0 <= i < |rs| ==> 0 <= rs[i].start <= rs[i].end + 1 <= |resource|
    ensures Answers(resource, rs) == Slices(resource, rs) <==>
      |resource| == 0 || forall i :: 0 <= i < |rs| ==> rs[i].start <= rs[i].end
  {
    if |resource| > 0 && exists i :: 0 <= i < |rs| && rs[i].end < rs[i].start {
      var i :| 0 <= i < |rs| && rs[i].end < rs[i].start;
      assert Answers(resource, rs)[i] != Slices(resource, rs)[i];
    }
  }

  /** A server that answers every range starting inside resource with the range's bytes,
      and ignores an invalid (inverted) Range header and sends the whole resource, as
      section 3.1 of RFC 7233 allows. */
  ghost predicate Serves(fetch: Request -> Fetch, resource: seq<byte>)
  {
    forall req :: ServesRequest(fetch, req, resource)
  }

  ghost predicate ServesRequest(fetch: Request -> Fetch, req: Request, resource: seq<byte>)
  {
    match ParseRangeHeader(HeaderGet(req.header, "Range"))
    case Some(r) =>
      0 <= r.start <= r.end + 1 <= |resource| ==>
        fetch(req).Body? && Delivers(fetch(req).steps, Answer(resource, r))
    case None => true
  }

  /** Against such a server, worker i writes the answer to its range (its bytes, or the
      whole resource for an inverted range) into its sink from the sink's offset, adds the
      answer's length to the counter and succeeds; nothing else changes. */
  lemma StartFetchesRange(disk: Disk, sinks: seq<Handle>, counter: int, url: string, userAgent: string,
                          headerHost: string, i: nat, r: Range, fetch: Request -> Fetch, resource: seq<byte>)
    requires Serves(fetch, resource)
    requires 0 <= r.start <= r.end + 1 <= |resource|
    requires i < |sinks| && sinks[i].open && sinks[i].name in disk
    ensures var w := Start(disk, sinks, counter, url, userAgent, headerHost, i, r, fetch);
      var data := Answer(resource, r);
      && w.error == None
      && w.counter == counter + |data|
      && w.sinks == sinks[i := sinks[i].(offset := sinks[i].offset + |data|)]
      && w.disk == disk[sinks[i].name := Overwrite(disk[sinks[i].name], sinks[i].offset, data)]
  {
    var req := FetchRequest(url, userAgent, headerHost, r);
    RangeHeaderRoundTrip(r);
    assert ServesRequest(fetch, req, resource);
    var steps := fetch(req).steps;
    CopyDelivers(disk, sinks[i], counter, 0, steps, Answer(resource, r));
    CopyLoopEffect(disk, sinks[i], counter, 0, steps);
  }
}
