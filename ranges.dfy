/** The range planner (splitBytes in task.go): it divides fileSize bytes into `threads`
    inclusive [start, end] ranges; the last range absorbs the remainder of the division. */
module Ranges {

  /** An inclusive byte interval [start, end] that one worker fetches. */
  datatype Range = Range(start: int, end: int)

  function Len(r: Range): int
  {
    r.end - r.start + 1
  }

  predicate Contains(r: Range, x: int)
  {
    r.start <= x <= r.end
  }

  /** Go's division of an int64 by a positive int64: it truncates toward zero, so the
      remainder takes the sign of the dividend. */
  function GoDiv(a: int, b: int): (q: int)
    requires b > 0
    ensures a >= 0 ==> 0 <= a - q * b < b
    ensures a < 0 ==> -b < a - q * b <= 0
  {
    if a >= 0 then a / b else -((-a) / b)
  }

  /** The i-th range splitBytes plans: [i*block, (i+1)*block - 1], except that the last one
      ends at fileSize - 1. */
  function PlannedRange(fileSize: int, threads: int, i: int): Range
    requires threads >= 1
  {
    var block := GoDiv(fileSize, threads);
    Range(i * block, if i == threads - 1 then fileSize - 1 else (i + 1) * block - 1)
  }

  /** All ranges splitBytes plans, in index order. */
  function Plan(fileSize: int, threads: int): (ranges: seq<Range>)
    requires threads >= 1
    ensures |ranges| == threads
  {
    seq(threads, i requires 0 <= i < threads => PlannedRange(fileSize, threads, i))
  }

  /** splitBytes: a counting loop that appends one range per worker. */
  method SplitBytes(fileSize: int, threads: int) returns (ranges: seq<Range>)
    requires threads >= 1
    ensures ranges == Plan(fileSize, threads)
    ensures |ranges| == threads && ranges[0].start == 0 && ranges[threads - 1].end == fileSize - 1
  {
    ranges := [];
    var blockSize := GoDiv(fileSize, threads);
    var i := 0;
    while i < threads
      invariant 0 <= i <= threads
      invariant |ranges| == i
      invariant forall k :: 0 <= k < i ==> ranges[k] == PlannedRange(fileSize, threads, k)
    {
      var start := i * blockSize;
      var end := (i + 1) * blockSize - 1;
      if i == threads - 1 {
        end := fileSize - 1;
      }
      ranges := ranges + [Range(start, end)];
      i := i + 1;
    }
  }

  /** The single range [0, fileSize - 1] Download uses without multi-range planning. */
  function WholeFile(fileSize: int): seq<Range>
  {
    [Range(0, fileSize - 1)]
  }

  lemma PlanOneThread(fileSize: int)
    ensures Plan(fileSize, 1) == WholeFile(fileSize)
  {
  }

  /** The shape of a plan: the first range starts at 0, the last ends at fileSize - 1,
      consecutive ranges are adjacent, every range but the last holds fileSize / threads
      bytes and the last holds the rest. */
  lemma PlanShape(fileSize: int, threads: int)
    requires threads >= 1
    ensures Plan(fileSize, threads)[0].start == 0
    ensures Plan(fileSize, threads)[threads - 1].end == fileSize - 1
    ensures forall i :: 0 <= i < threads - 1 ==>
      Plan(fileSize, threads)[i + 1].start == Plan(fileSize, threads)[i].end + 1
    ensures forall i :: 0 <= i < threads - 1 ==>
      Len(Plan(fileSize, threads)[i]) == GoDiv(fileSize, threads)
    ensures Len(Plan(fileSize, threads)[threads - 1])
      == fileSize - (threads - 1) * GoDiv(fileSize, threads)
  {
    var p := Plan(fileSize, threads);
    var b := GoDiv(fileSize, threads);
    forall i | 0 <= i < threads - 1
      ensures p[i + 1].start == p[i].end + 1 && Len(p[i]) == b
    {
      assert p[i] == Range(i * b, (i + 1) * b - 1);
      assert (i + 1) * b == i * b + b;
    }
  }

  /** With at least as many bytes as workers, no range is empty. */
  lemma PlanNonEmpty(fileSize: int, threads: int)
    requires 1 <= threads <= fileSize
    ensures forall i :: 0 <= i < threads ==> Len(Plan(fileSize, threads)[i]) >= 1
  {
    PlanShape(fileSize, threads);
    var b := GoDiv(fileSize, threads);
    assert b * threads > 0;
    assert b >= 1;
    assert fileSize - (threads - 1) * b >= b by {
      assert (threads - 1) * b == threads * b - b;
    }
  }

  /** rs lies edge to edge over [lo, hi): it starts at lo, ends at hi - 1, consecutive
      ranges are adjacent and no range has negative length. */
  ghost predicate Tiles(rs: seq<Range>, lo: int, hi: int)
  {
    && |rs| >= 1
    && rs[0].start == lo
    && rs[|rs| - 1].end == hi - 1
    && (forall i :: 0 <= i < |rs| - 1 ==> rs[i + 1].start == rs[i].end + 1)
    && (forall i :: 0 <= i < |rs| ==> rs[i].start <= rs[i].end + 1)
  }

  /** With fewer bytes than workers the block size is 0: every range but the last is the
      inverted [0, -1], and the last is the whole file. */
  lemma PlanSmall(fileSize: int, threads: int)
    requires 0 <= fileSize < threads
    ensures forall i :: 0 <= i < threads - 1 ==> Plan(fileSize, threads)[i] == Range(0, -1)
    ensures Plan(fileSize, threads)[threads - 1] == Range(0, fileSize - 1)
  {
    SmallBlock(fileSize, threads);
  }

  lemma SmallBlock(fileSize: int, threads: int)
    requires 0 <= fileSize < threads
    ensures GoDiv(fileSize, threads) == 0
  {
    var q := fileSize / threads;
    assert fileSize == q * threads + fileSize % threads;
    assert q == 0;
  }

  /** A plan of a non-negative size tiles [0, fileSize). */
  lemma PlanTiles(fileSize: int, threads: int)
    requires threads >= 1 && fileSize >= 0
    ensures Tiles(Plan(fileSize, threads), 0, fileSize)
  {
    PlanShape(fileSize, threads);
    var p := Plan(fileSize, threads);
    forall i | 0 <= i < threads
      ensures p[i].start <= p[i].end + 1
    {
      PlannedRangeOrdered(fileSize, threads, i);
    }
  }

  /** No planned range of a non-negative size is inverted by more than one place. */
  lemma PlannedRangeOrdered(fileSize: int, threads: int, i: int)
    requires threads >= 1 && fileSize >= 0 && 0 <= i < threads
    ensures PlannedRange(fileSize, threads, i).start <= PlannedRange(fileSize, threads, i).end + 1
  {
    var b := GoDiv(fileSize, threads);
    GoDivNatural(fileSize, threads);
    if i < threads - 1 {
      assert (i + 1) * b == i * b + b;
    } else {
      assert (threads - 1) * b == threads * b - b;
    }
  }

  /** Dividing a non-negative size gives a non-negative block that fits threads times. */
  lemma GoDivNatural(a: int, b: int)
    requires a >= 0 && b > 0
    ensures 0 <= GoDiv(a, b) && GoDiv(a, b) * b <= a
  {
    var q := a / b;
    assert a == q * b + a % b;
    assert q >= 0;
  }

  /** In a tiling, starts grow with the index. */
  lemma {:induction false} TilesStartsGrow(rs: seq<Range>, lo: int, hi: int, i: int, j: int)
    requires Tiles(rs, lo, hi)
    requires 0 <= i <= j < |rs|
    ensures rs[i].start <= rs[j].start
    decreases j - i
  {
    if i < j {
      TilesStartsGrow(rs, lo, hi, i + 1, j);
    }
  }

  /** In a tiling, every range lies inside [lo, hi) and an earlier range ends before a later
      one starts, so the ranges are sorted and pairwise disjoint. */
  lemma TilesDisjoint(rs: seq<Range>, lo: int, hi: int)
    requires Tiles(rs, lo, hi)
    ensures forall i, j :: 0 <= i < j < |rs| ==> rs[i].end < rs[j].start
    ensures forall i :: 0 <= i < |rs| ==> lo <= rs[i].start && rs[i].end < hi
  {
    var n := |rs|;
    forall i, j | 0 <= i < j < n
      ensures rs[i].end < rs[j].start
    {
      TilesStartsGrow(rs, lo, hi, i + 1, j);
    }
    TilesBounds(rs, lo, hi);
  }

  lemma TilesBounds(rs: seq<Range>, lo: int, hi: int)
    requires Tiles(rs, lo, hi)
    ensures forall i :: 0 <= i < |rs| ==> lo <= rs[i].start && rs[i].end < hi
  {
    var n := |rs|;
    forall i | 0 <= i < n
      ensures lo <= rs[i].start && rs[i].end < hi
    {
      TilesStartsGrow(rs, lo, hi, 0, i);
      if i < n - 1 {
        TilesStartsGrow(rs, lo, hi, i + 1, n - 1);
      }
    }
  }

  /** In a tiling, every offset of [lo, hi) lies in exactly one range. */
  lemma {:induction false} TilesCover(rs: seq<Range>, lo: int, hi: int, x: int)
    requires Tiles(rs, lo, hi)
    requires lo <= x < hi
    ensures exists i :: 0 <= i < |rs| && Contains(rs[i], x)
    ensures forall i, j :: 0 <= i < |rs| && 0 <= j < |rs| && Contains(rs[i], x) && Contains(rs[j], x) ==> i == j
    decreases |rs|
  {
    TilesDisjoint(rs, lo, hi);
    if |rs| > 1 && x > rs[0].end {
      var tail := rs[1..];
      assert Tiles(tail, rs[1].start, hi);
      TilesCover(tail, rs[1].start, hi, x);
      var k :| 0 <= k < |tail| && Contains(tail[k], x);
      assert Contains(rs[k + 1], x);
    } else {
      assert Contains(rs[0], x);
    }
  }

  /** The sequences of ss one after another, in index order. */
  function Concat<T>(ss: seq<seq<T>>): seq<T>
    decreases |ss|
  {
    if ss == [] then [] else ss[0] + Concat(ss[1..])
  }

  /** n copies of s, one after another. */
  function Repeat<T>(s: seq<T>, n: nat): seq<T>
    decreases n
  {
    if n == 0 then [] else s + Repeat(s, n - 1)
  }

  lemma {:induction false} RepeatLength<T>(s: seq<T>, n: nat)
    ensures |Repeat(s, n)| == n * |s|
    decreases n
  {
    if n > 0 {
      RepeatLength(s, n - 1);
      assert n * |s| == (n - 1) * |s| + |s|;
    }
  }

  /** Concatenating copies of one sequence repeats it. */
  lemma {:induction false} ConcatOfCopies<T>(ss: seq<seq<T>>, x: seq<T>)
    requires forall j :: 0 <= j < |ss| ==> ss[j] == x
    ensures Concat(ss) == Repeat(x, |ss|)
    decreases |ss|
  {
    if ss != [] {
      ConcatOfCopies(ss[1..], x);
    }
  }

  /** Each range of rs read as a slice of data, in index order. */
  function Slices<T>(data: seq<T>, rs: seq<Range>): (ss: seq<seq<T>>)
    requires forall i :: 0 <= i < |rs| ==> 0 <= rs[i].start <= rs[i].end + 1 <= |data|
    ensures |ss| == |rs|
  {
    seq(|rs|, i requires 0 <= i < |rs| => data[rs[i].start..rs[i].end + 1])
  }

  lemma SlicesTail<T>(data: seq<T>, rs: seq<Range>)
    requires |rs| >= 1
    requires forall i :: 0 <= i < |rs| ==> 0 <= rs[i].start <= rs[i].end + 1 <= |data|
    ensures Slices(data, rs)[1..] == Slices(data, rs[1..])
  {
  }

  lemma {:induction false} TilesConcat<T>(data: seq<T>, rs: seq<Range>, lo: int, hi: int)
    requires Tiles(rs, lo, hi) && 0 <= lo <= hi <= |data|
    ensures forall i :: 0 <= i < |rs| ==> 0 <= rs[i].start <= rs[i].end + 1 <= |data|
    ensures Concat(Slices(data, rs)) == data[lo..hi]
    decreases |rs|
  {
    TilesBounds(rs, lo, hi);
    var ss := Slices(data, rs);
    assert ss[0] == data[lo..rs[0].end + 1];
    if |rs| > 1 {
      var tail := rs[1..];
      assert Tiles(tail, rs[1].start, hi);
      TilesConcat(data, tail, rs[1].start, hi);
      SlicesTail(data, rs);
      assert Concat(ss) == ss[0] + Concat(ss[1..]);
      assert data[lo..hi] == data[lo..rs[0].end + 1] + data[rs[1].start..hi];
    } else {
      assert rs[0].end + 1 == hi;
      assert ss[1..] == [];
    }
  }

  /** The whole resource is reassembled from a plan of its own length. */
  lemma PlanReassembles<T>(data: seq<T>, threads: int)
    requires threads >= 1
    ensures forall i :: 0 <= i < threads ==>
      0 <= Plan(|data|, threads)[i].start <= Plan(|data|, threads)[i].end + 1 <= |data|
    ensures Concat(Slices(data, Plan(|data|, threads))) == data
  {
    PlanTiles(|data|, threads);
    TilesConcat(data, Plan(|data|, threads), 0, |data|);
  }

  /** Replacing one slice changes the total length by the difference of the lengths. */
  lemma {:induction false} ConcatUpdateLen<T>(ss: seq<seq<T>>, i: nat, x: seq<T>)
    requires i < |ss|
    ensures |Concat(ss[i := x])| + |ss[i]| == |Concat(ss)| + |x|
    decreases |ss|
  {
    if i == 0 {
      assert ss[i := x][1..] == ss[1..];
    } else {
      ConcatUpdateLen(ss[1..], i - 1, x);
      assert ss[i := x][1..] == ss[1..][i - 1 := x];
    }
  }
}
