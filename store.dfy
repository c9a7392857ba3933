/** The segment store (openTempFiles, mergeFiles, CleanTempFiles and closeTempFiles in
    file.go). The save directory is a map from file name to contents; an open file is a
    handle with a name, an open flag and a file offset. */
module SegmentStore {
  import opened Wrappers
  import opened GoStrings
  import opened Ranges

  /** An *os.File: the name it was opened under, whether it is still open, and the offset
      the next write or read starts at. */
  datatype Handle = Handle(name: string, open: bool, offset: nat)

  /** The file system as the task sees it: file name to contents. */
  type Disk = map<string, seq<byte>>

  function Contents(disk: Disk, name: string): seq<byte>
  {
    if name in disk then disk[name] else []
  }

  function Zeros(n: nat): seq<byte>
  {
    seq(n, _ => 0)
  }

  /** The contents of a file holding d after p is written at offset off; a gap left past
      the old end reads as zeros, and writing nothing changes nothing. */
  function Overwrite(d: seq<byte>, off: nat, p: seq<byte>): (r: seq<byte>)
    ensures p == [] ==> r == d
  {
    if p == [] then d
    else if off <= |d| then d[..off] + p + (if off + |p| < |d| then d[off + |p|..] else [])
    else d + Zeros(off - |d|) + p
  }

  /** A non-empty write covers its bytes, keeps the old bytes around them and fills any
      gap with zeros; the file grows to the end of the write if it was shorter. */
  lemma OverwriteAt(d: seq<byte>, off: nat, p: seq<byte>)
    requires p != []
    ensures var r := Overwrite(d, off, p);
      && |r| == (if off + |p| > |d| then off + |p| else |d|)
      && forall k :: 0 <= k < |r| ==>
           r[k] == if off <= k < off + |p| then p[k - off] else if k < |d| then d[k] else 0
  {
  }

  /** Two writes at consecutive offsets leave what one write of both pieces leaves. */
  lemma OverwriteAppends(d: seq<byte>, off: nat, a: seq<byte>, b: seq<byte>)
    ensures Overwrite(Overwrite(d, off, a), off + |a|, b) == Overwrite(d, off, a + b)
  {
    if a == [] {
      assert a + b == b;
    } else if b == [] {
      assert a + b == a;
    } else {
      var x := Overwrite(Overwrite(d, off, a), off + |a|, b);
      var y := Overwrite(d, off, a + b);
      OverwriteAt(d, off, a);
      OverwriteAt(Overwrite(d, off, a), off + |a|, b);
      OverwriteAt(d, off, a + b);
      assert |x| == |y|;
      forall k | 0 <= k < |x|
        ensures x[k] == y[k]
      {
        if off + |a| <= k < off + |a| + |b| {
          assert (a + b)[k - off] == b[k - off - |a|];
        } else if off <= k < off + |a| {
          assert (a + b)[k - off] == a[k - off];
        }
      }
    }
  }

  /** Writing p from the start of an empty file leaves exactly p. */
  lemma OverwriteEmpty(p: seq<byte>)
    ensures Overwrite([], 0, p) == p
  {
  }

  // ---- sink names ----

  /** The segment file of range i: savePath.i. */
  function SegmentName(savePath: string, i: nat): string
  {
    savePath + "." + NatToString(i)
  }

  /** The sinks openTempFiles opens: savePath.0 .. savePath.(N-1) when ranges are used,
      otherwise savePath itself. */
  function SinkNames(savePath: string, acceptRange: bool, routine: int): (names: seq<string>)
    ensures acceptRange ==> |names| == (if routine > 0 then routine else 0)
    ensures !acceptRange ==> |names| == 1
  {
    if acceptRange then
      seq(if routine > 0 then routine else 0, i requires 0 <= i => SegmentName(savePath, i))
    else [savePath]
  }

  ghost predicate Distinct(names: seq<string>)
  {
    forall i, j :: 0 <= i < |names| && 0 <= j < |names| && i != j ==> names[i] != names[j]
  }

  /** Sink names are fixed by the range index alone: no two sinks share a name, and no
      segment file is the destination. */
  lemma SinkNamesDistinct(savePath: string, acceptRange: bool, routine: int)
    ensures Distinct(SinkNames(savePath, acceptRange, routine))
    ensures acceptRange ==> savePath !in SinkNames(savePath, acceptRange, routine)
    ensures acceptRange ==> forall i :: 0 <= i < |SinkNames(savePath, acceptRange, routine)| ==>
      SinkNames(savePath, acceptRange, routine)[i] == SegmentName(savePath, i)
  {
    var names := SinkNames(savePath, acceptRange, routine);
    if acceptRange {
      forall i, j | 0 <= i < |names| && 0 <= j < |names| && i != j
        ensures names[i] != names[j]
      {
        NatToStringInjective(i, j);
        var n := |savePath| + 1;
        assert names[i][n..] == NatToString(i);
        assert names[j][n..] == NatToString(j);
      }
      forall i | 0 <= i < |names|
        ensures names[i] != savePath
      {
        assert |names[i]| > |savePath|;
      }
    }
  }

  // ---- opening ----

  /** os.OpenFile(name, O_CREATE|O_RDWR) keeps what the file holds; os.Create truncates. */
  datatype OpenMode = KeepContents | Truncate

  function CreateFile(disk: Disk, name: string, mode: OpenMode): Disk
  {
    if mode == Truncate || name !in disk then disk[name := []] else disk
  }

  /** The files opened one after the other. */
  function CreateAll(disk: Disk, names: seq<string>, mode: OpenMode): Disk
    decreases |names|
  {
    if names == [] then disk else CreateAll(CreateFile(disk, names[0], mode), names[1..], mode)
  }

  /** What opening names in order does to the disk: each named file exists, empty when
      truncated or new and unchanged otherwise; every other file is untouched. */
  lemma {:induction false} CreateAllFacts(disk: Disk, names: seq<string>, mode: OpenMode)
    ensures forall n :: n in names ==> (n in CreateAll(disk, names, mode) &&
      CreateAll(disk, names, mode)[n] == (if mode == Truncate || n !in disk then [] else disk[n]))
    ensures forall n :: n !in names ==> (n in CreateAll(disk, names, mode) <==> n in disk)
    ensures forall n :: n !in names && n in disk ==> CreateAll(disk, names, mode)[n] == disk[n]
    decreases |names|
  {
    if names != [] {
      var d1 := CreateFile(disk, names[0], mode);
      CreateAllFacts(d1, names[1..], mode);
      forall n | n in names
        ensures n in CreateAll(disk, names, mode)
        ensures CreateAll(disk, names, mode)[n] == (if mode == Truncate || n !in disk then [] else disk[n])
      {
        if n != names[0] {
          assert n in names[1..];
        }
      }
    }
  }

  /** Opening one more file after names. */
  lemma {:induction false} CreateAllSnoc(disk: Disk, names: seq<string>, n: string, mode: OpenMode)
    ensures CreateAll(disk, names + [n], mode) == CreateFile(CreateAll(disk, names, mode), n, mode)
    decreases |names|
  {
    if names == [] {
      assert names + [n] == [n];
      assert [n][1..] == [];
    } else {
      assert (names + [n])[1..] == names[1..] + [n];
      CreateAllSnoc(CreateFile(disk, names[0], mode), names[1..], n, mode);
    }
  }

  /** Opening the first i + 1 names is opening the first i, then name i. */
  lemma CreatePrefixStep(disk: Disk, names: seq<string>, i: nat, mode: OpenMode)
    requires i < |names|
    ensures CreateAll(disk, names[..i + 1], mode) == CreateFile(CreateAll(disk, names[..i], mode), names[i], mode)
  {
    assert names[..i + 1] == names[..i] + [names[i]];
    CreateAllSnoc(disk, names[..i], names[i], mode);
  }

  /** The handles of freshly opened files: open, at offset 0, in the order opened. */
  function OpenedHandles(names: seq<string>): (hs: seq<Handle>)
    ensures |hs| == |names|
    ensures forall i :: 0 <= i < |hs| ==> hs[i] == Handle(names[i], true, 0)
  {
    seq(|names|, i requires 0 <= i < |names| => Handle(names[i], true, 0))
  }

  /** Opening names in order; the open numbered fault.at fails, and then the files opened
      before it stay on disk and no handles are returned. */
  function OpenAll(disk: Disk, names: seq<string>, mode: OpenMode, fault: Option<Fault>)
    : (Disk, Result<seq<Handle>>)
  {
    if fault.Some? && fault.value.at < |names| then
      (CreateAll(disk, names[..fault.value.at], mode), Err(fault.value.error))
    else (CreateAll(disk, names, mode), Ok(OpenedHandles(names)))
  }

  /** openTempFiles: N segment files savePath.i when ranges are used, else one file at
      savePath, created or truncated by os.Create. */
  function OpenTempFiles(disk: Disk, savePath: string, acceptRange: bool, routine: int,
                         fault: Option<Fault>): (Disk, Result<seq<Handle>>)
  {
    if acceptRange then OpenAll(disk, SinkNames(savePath, true, routine), KeepContents, fault)
    else OpenAll(disk, [savePath], Truncate, fault)
  }

  /** On success openTempFiles returns one open handle at offset 0 per sink name, in index
      order, and every sink exists; the single sink is empty, a segment keeps what a file of
      that name already held. On a failure the error is returned and no handle. */
  lemma OpenTempFilesFacts(disk: Disk, savePath: string, acceptRange: bool, routine: int,
                           fault: Option<Fault>)
    ensures var (d, r) := OpenTempFiles(disk, savePath, acceptRange, routine, fault);
      var names := SinkNames(savePath, acceptRange, routine);
      && (r.Ok? <==> fault.None? || fault.value.at >= |names|)
      && (r.Err? ==> r.error == fault.value.error)
      && (r.Ok? ==> r.value == OpenedHandles(names))
      && (r.Ok? ==> forall n :: n in names ==> n in d)
      && (r.Ok? && !acceptRange ==> d[savePath] == [])
      && (r.Ok? && acceptRange ==> forall n :: n in names ==> d[n] == Contents(disk, n))
      && (forall n :: n !in names ==> (n in d <==> n in disk))
      && (forall n :: n !in names && n in disk ==> d[n] == disk[n])
  {
    var names := SinkNames(savePath, acceptRange, routine);
    var mode := if acceptRange then KeepContents else Truncate;
    if fault.Some? && fault.value.at < |names| {
      var prior := names[..fault.value.at];
      CreateAllFacts(disk, prior, mode);
      forall n | n in prior ensures n in names { }
    } else {
      CreateAllFacts(disk, names, mode);
    }
  }

  // ---- closing and removing ----

  function NamesOf(hs: seq<Handle>): set<string>
  {
    set h | h in hs :: h.name
  }

  lemma NamesOfSnoc(hs: seq<Handle>, i: nat)
    requires i < |hs|
    ensures NamesOf(hs[..i + 1]) == NamesOf(hs[..i]) + {hs[i].name}
  {
    assert hs[..i + 1] == hs[..i] + [hs[i]];
  }

  /** closeTempFiles: every handle closed, nothing removed. */
  function CloseAll(hs: seq<Handle>): (r: seq<Handle>)
    ensures |r| == |hs|
    ensures forall i :: 0 <= i < |r| ==> r[i] == hs[i].(open := false)
  {
    seq(|hs|, i requires 0 <= i < |hs| => hs[i].(open := false))
  }

  /** Handles with the same names, index by index, have the same name set. */
  lemma NamesOfSameNames(hs: seq<Handle>, c: seq<Handle>)
    requires |c| == |hs| && forall j :: 0 <= j < |hs| ==> c[j].name == hs[j].name
    ensures NamesOf(c) == NamesOf(hs)
  {
    forall n | n in NamesOf(hs) ensures n in NamesOf(c) {
      var j :| 0 <= j < |hs| && hs[j].name == n;
      assert c[j] in c;
    }
    forall n | n in NamesOf(c) ensures n in NamesOf(hs) {
      var j :| 0 <= j < |c| && c[j].name == n;
      assert hs[j] in hs;
    }
  }

  lemma NamesOfCloseAll(hs: seq<Handle>)
    ensures NamesOf(CloseAll(hs)) == NamesOf(hs)
  {
    NamesOfSameNames(hs, CloseAll(hs));
  }

  /** CleanTempFiles: every handle closed, then every sink file removed. */
  function Clean(disk: Disk, hs: seq<Handle>): (r: (Disk, seq<Handle>))
    ensures r.1 == CloseAll(hs)
    ensures forall h :: h in hs ==> h.name !in r.0
    ensures forall n :: n !in NamesOf(hs) ==> (n in r.0 <==> n in disk)
    ensures forall n :: n in r.0 ==> r.0[n] == disk[n]
  {
    (disk - NamesOf(hs), CloseAll(hs))
  }

  // ---- merging ----

  datatype MergeFault = NoMergeFault | CreateFails(error: Error) | CopyFails(at: nat, error: Error)

  /** The loop of mergeFiles from sink i on: rewind the sink and append all of it to dest;
      a closed sink fails its Seek, an injected fault fails the copy of sink fault.at. */
  function CopySinks(disk: Disk, hs: seq<Handle>, dest: string, fault: MergeFault, i: nat)
    : (Disk, seq<Handle>, Option<Error>)
    requires i <= |hs|
    decreases |hs| - i
  {
    if i == |hs| then (disk, hs, None)
    else if !hs[i].open then (disk, hs, Some(Closed(hs[i].name)))
    else if fault.CopyFails? && fault.at == i then (disk, hs, Some(fault.error))
    else
      var data := Contents(disk, hs[i].name);
      CopySinks(disk[dest := Contents(disk, dest) + data], hs[i := hs[i].(offset := |data|)], dest, fault, i + 1)
  }

  /** mergeFiles: nothing to do without ranges (the single sink is the destination);
      otherwise create dest, append every sink in index order, then CleanTempFiles. */
  function Merge(disk: Disk, hs: seq<Handle>, dest: string, acceptRange: bool, fault: MergeFault)
    : (Disk, seq<Handle>, Option<Error>)
  {
    if !acceptRange then (disk, hs, None)
    else if fault.CreateFails? then (disk, hs, Some(fault.error))
    else
      var (d1, h1, e) := CopySinks(disk[dest := []], hs, dest, fault, 0);
      if e.Some? then (d1, h1, e)
      else
        var (d2, h2) := Clean(d1, h1);
        (d2, h2, None)
  }

  /** The contents of the sinks, in index order. */
  function SinkData(disk: Disk, hs: seq<Handle>): (data: seq<seq<byte>>)
    ensures |data| == |hs|
  {
    seq(|hs|, i requires 0 <= i < |hs| => Contents(disk, hs[i].name))
  }

  predicate NoCopyFaultFrom(fault: MergeFault, i: nat)
  {
    !(fault.CopyFails? && fault.at >= i)
  }

  /** The loop keeps every handle's name and open flag, whatever happens. */
  lemma {:induction false} CopySinksKeepsHandles(disk: Disk, hs: seq<Handle>, dest: string, fault: MergeFault, i: nat)
    requires i <= |hs|
    ensures var (_, h, _) := CopySinks(disk, hs, dest, fault, i);
      && |h| == |hs|
      && (forall j :: 0 <= j < |h| ==> h[j].name == hs[j].name && h[j].open == hs[j].open)
    decreases |hs| - i
  {
    if i < |hs| && hs[i].open && !(fault.CopyFails? && fault.at == i) {
      var data := Contents(disk, hs[i].name);
      CopySinksKeepsHandles(disk[dest := Contents(disk, dest) + data], hs[i := hs[i].(offset := |data|)], dest, fault, i + 1);
    }
  }

  /** Without faults, the loop from sink i appends the remaining sinks to dest in order and
      touches nothing else. */
  lemma {:induction false} CopySinksAppends(disk: Disk, hs: seq<Handle>, dest: string, fault: MergeFault, i: nat)
    requires i <= |hs| && dest in disk
    requires forall j :: i <= j < |hs| ==> hs[j].open && hs[j].name != dest
    requires NoCopyFaultFrom(fault, i)
    ensures var (d, h, e) := CopySinks(disk, hs, dest, fault, i);
      && e == None
      && d == disk[dest := Contents(disk, dest) + Concat(SinkData(disk, hs)[i..])]
    decreases |hs| - i
  {
    var all := SinkData(disk, hs);
    if i == |hs| {
      assert all[i..] == [];
      assert Contents(disk, dest) + [] == disk[dest];
      assert disk[dest := disk[dest]] == disk;
    } else {
      var data := Contents(disk, hs[i].name);
      var d1 := disk[dest := Contents(disk, dest) + data];
      var h1 := hs[i := hs[i].(offset := |data|)];
      CopySinksAppends(d1, h1, dest, fault, i + 1);
      var later := SinkData(d1, h1);
      forall j | i + 1 <= j < |hs|
        ensures later[j] == all[j]
      {
        assert h1[j] == hs[j];
      }
      assert later[i + 1..] == all[i + 1..];
      assert Concat(all[i..]) == data + Concat(all[i + 1..]) by {
        assert all[i..][0] == data && all[i..][1..] == all[i + 1..];
      }
      assert Contents(d1, dest) == Contents(disk, dest) + data;
      assert Contents(disk, dest) + Concat(all[i..]) == Contents(d1, dest) + Concat(all[i + 1..]);
      assert d1[dest := Contents(d1, dest) + Concat(all[i + 1..])]
          == disk[dest := Contents(disk, dest) + Concat(all[i..])];
    }
  }

  /** A merge that meets no fault leaves dest holding the sinks' contents concatenated in
      index order, removes every sink, closes every handle and touches no other file. */
  lemma MergeConcatenates(disk: Disk, hs: seq<Handle>, dest: string, fault: MergeFault)
    requires forall j :: 0 <= j < |hs| ==> hs[j].open && hs[j].name != dest
    requires !fault.CreateFails? && NoCopyFaultFrom(fault, 0)
    ensures var (d, h, e) := Merge(disk, hs, dest, true, fault);
      && e == None
      && dest in d && d[dest] == Concat(SinkData(disk, hs))
      && |h| == |hs|
      && (forall j :: 0 <= j < |hs| ==> hs[j].name !in d && !h[j].open)
      && (forall n :: n != dest && n !in NamesOf(hs) ==> (n in d <==> n in disk))
      && (forall n :: n != dest && n in d ==> d[n] == disk[n])
  {
    var d0 := disk[dest := []];
    CopySinksAppends(d0, hs, dest, fault, 0);
    CopySinksKeepsHandles(d0, hs, dest, fault, 0);
    assert SinkData(d0, hs) == SinkData(disk, hs);
    assert SinkData(d0, hs)[0..] == SinkData(d0, hs);
    var (d1, h1, e) := CopySinks(d0, hs, dest, fault, 0);
    NamesOfSameNames(hs, h1);
    forall j | 0 <= j < |hs| ensures hs[j].name !in Clean(d1, h1).0 {
      assert h1[j] in h1;
    }
  }

  /** The loop writes to dest only: every other file keeps its presence and its contents. */
  lemma {:induction false} CopySinksOnlyDest(disk: Disk, hs: seq<Handle>, dest: string, fault: MergeFault, i: nat)
    requires i <= |hs|
    ensures var (d, _, _) := CopySinks(disk, hs, dest, fault, i);
      forall n :: n != dest ==> (n in d <==> n in disk) && (n in d ==> d[n] == disk[n])
    decreases |hs| - i
  {
    if i < |hs| && hs[i].open && !(fault.CopyFails? && fault.at == i) {
      var data := Contents(disk, hs[i].name);
      var d1 := disk[dest := Contents(disk, dest) + data];
      var h1 := hs[i := hs[i].(offset := |data|)];
      CopySinksOnlyDest(d1, h1, dest, fault, i + 1);
      assert CopySinks(disk, hs, dest, fault, i) == CopySinks(d1, h1, dest, fault, i + 1);
      assert forall n :: n != dest ==> (n in d1 <==> n in disk) && (n in d1 ==> d1[n] == disk[n]);
    }
  }

  /** Without ranges mergeFiles does nothing; with ranges, a failed merge returns before
      CleanTempFiles: every sink other than dest is still on disk with its contents, and
      the handles keep their names and open flags. */
  lemma MergeFailureKeepsSinks(disk: Disk, hs: seq<Handle>, dest: string, fault: MergeFault)
    ensures Merge(disk, hs, dest, false, fault) == (disk, hs, None)
    ensures var (d, h, e) := Merge(disk, hs, dest, true, fault);
      e.Some? ==>
        && |h| == |hs|
        && (forall j :: 0 <= j < |hs| ==> h[j].name == hs[j].name && h[j].open == hs[j].open)
        && (forall n :: n != dest ==> (n in d <==> n in disk) && (n in d ==> d[n] == disk[n]))
  {
    if !fault.CreateFails? {
      CopySinksKeepsHandles(disk[dest := []], hs, dest, fault, 0);
      CopySinksOnlyDest(disk[dest := []], hs, dest, fault, 0);
    }
  }
}
