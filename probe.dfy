/** The probe transaction (readbacktest): snapshot a shadow block and the
    probe block, write a test pattern to the probe block, read it back and
    count mismatches, restore the probe block, re-read the shadow block and
    count corruption, and stop the program if either count is non-zero.
 */
module Probe {
  import opened Media
  import opened Transport

  datatype Outcome = Pass | Abort(reason: Fatal)

  /** The diagnostic lines a probe prints. */
  datatype Line =
    | WroteReadBack(wrote: byte, at: int, readBack: byte, original: byte)
    | Corrupted(wrote: byte, at: int, victim: int, was: byte, now: byte)
    | Ellipsis

  /** C's `%` on `off_t`: the remainder takes the sign of the dividend. */
  function CRem(a: int, m: int): (r: int)
    requires m > 0
    ensures a >= 0 ==> 0 <= r < m
  {
    if a >= 0 then a % m else -((-a) % m)
  }

  /** The test pattern of probe number `i`: byte `n` is `(i + n) % 256`. */
  function Pattern(i: int, bs: nat): (p: seq<byte>)
    ensures |p| == bs
  {
    seq(bs, n requires 0 <= n < bs => ((i + n) % 256) as byte)
  }

  /** The pattern depends on nothing but the sequence number: every byte is
      the sequence number advanced by its position, modulo 256, so probes
      whose numbers differ modulo 256 write different bytes everywhere. */
  lemma PatternDeterministic(i: int, j: int, bs: nat)
    requires (i - j) % 256 != 0
    ensures forall n :: 0 <= n < bs ==> Pattern(i, bs)[n] != Pattern(j, bs)[n]
    ensures Pattern(i + 256, bs) == Pattern(i, bs)
  {
    forall n | 0 <= n < bs ensures Pattern(i, bs)[n] != Pattern(j, bs)[n] {
      if (i + n) % 256 == (j + n) % 256 {
        ModUnique(i + n, 256, (i + n) / 256, (i + n) % 256);
        ModUnique(j + n, 256, (j + n) / 256, (j + n) % 256);
        ModUnique(i - j, 256, (i + n) / 256 - (j + n) / 256, 0);
      }
    }
    forall n | 0 <= n < bs ensures Pattern(i + 256, bs)[n] == Pattern(i, bs)[n] {
      ModUnique(i + 256 + n, 256, (i + n) / 256 + 1, (i + n) % 256);
    }
  }

  /** Probes whose numbers agree modulo 256 write the same pattern. */
  lemma PatternResidue(i: int, j: int, bs: nat)
    requires i % 256 == j % 256
    ensures Pattern(i, bs) == Pattern(j, bs)
  {
    forall n | 0 <= n < bs ensures Pattern(i, bs)[n] == Pattern(j, bs)[n] {
      ModUnique(j + n, 256, (i + n) / 256 - i / 256 + j / 256, (i + n) % 256);
    }
  }

  /** Number of positions below `n` where `a` and `b` differ. */
  function Mismatches(a: seq<byte>, b: seq<byte>, n: nat): (k: nat)
    requires n <= |a| && n <= |b|
    ensures k <= n
  {
    if n == 0 then 0
    else Mismatches(a, b, n - 1) + (if a[n - 1] != b[n - 1] then 1 else 0)
  }

  /** The count is zero exactly when the first `n` bytes agree. */
  lemma {:induction false} MismatchesZeroIff(a: seq<byte>, b: seq<byte>, n: nat)
    requires n <= |a| && n <= |b|
    ensures Mismatches(a, b, n) == 0 <==> a[..n] == b[..n]
  {
    if n > 0 {
      MismatchesZeroIff(a, b, n - 1);
      assert a[..n] == a[..n - 1] + [a[n - 1]];
      assert b[..n] == b[..n - 1] + [b[n - 1]];
      if a[..n] == b[..n] {
        assert a[..n - 1] == a[..n][..n - 1];
        assert b[..n - 1] == b[..n][..n - 1];
        assert a[n - 1] == a[..n][n - 1];
        assert b[n - 1] == b[..n][n - 1];
      }
    }
  }

  /** The line printed for the `count`-th difference: the detail line for the
      first nine, "..." for the tenth, nothing after that. */
  function Note(count: int, line: Line): seq<Line> {
    if count < 10 then [line] else if count == 10 then [Ellipsis] else []
  }

  /** What the read-back comparison prints after examining `n` bytes. */
  function MismatchLog(address: int, wrote: seq<byte>, back: seq<byte>, original: seq<byte>, n: nat): seq<Line>
    requires n <= |wrote| && n <= |back| && n <= |original|
  {
    if n == 0 then []
    else
      MismatchLog(address, wrote, back, original, n - 1) +
      (if back[n - 1] != wrote[n - 1]
       then Note(Mismatches(back, wrote, n),
                 WroteReadBack(wrote[n - 1], address + n - 1, back[n - 1], original[n - 1]))
       else [])
  }

  /** What the shadow comparison prints after examining `n` bytes. */
  function CorruptionLog(address: int, shadow: int, wrote: seq<byte>, again: seq<byte>, prev: seq<byte>, n: nat): seq<Line>
    requires n <= |wrote| && n <= |again| && n <= |prev|
  {
    if n == 0 then []
    else
      CorruptionLog(address, shadow, wrote, again, prev, n - 1) +
      (if again[n - 1] != prev[n - 1]
       then Note(Mismatches(again, prev, n),
                 Corrupted(wrote[n - 1], address + n - 1, shadow + n - 1, prev[n - 1], again[n - 1]))
       else [])
  }

  function MismatchLines(log: seq<Line>): nat {
    if log == [] then 0 else MismatchLines(log[..|log| - 1]) + (if log[|log| - 1].WroteReadBack? then 1 else 0)
  }

  function CorruptionLines(log: seq<Line>): nat {
    if log == [] then 0 else CorruptionLines(log[..|log| - 1]) + (if log[|log| - 1].Corrupted? then 1 else 0)
  }

  function Ellipses(log: seq<Line>): nat {
    if log == [] then 0 else Ellipses(log[..|log| - 1]) + (if log[|log| - 1].Ellipsis? then 1 else 0)
  }

  function Min(a: int, b: int): int { if a < b then a else b }

  lemma {:induction false} LinesAppend(x: seq<Line>, y: seq<Line>)
    ensures MismatchLines(x + y) == MismatchLines(x) + MismatchLines(y)
    ensures CorruptionLines(x + y) == CorruptionLines(x) + CorruptionLines(y)
    ensures Ellipses(x + y) == Ellipses(x) + Ellipses(y)
    decreases |y|
  {
    if y != [] {
      var y' := y[..|y| - 1];
      assert (x + y)[..|x + y| - 1] == x + y';
      LinesAppend(x, y');
    } else {
      assert x + y == x;
    }
  }

  /** The read-back comparison prints one detail line for each of the first
      nine mismatches and a single "..." once the count reaches ten. */
  lemma {:induction false} MismatchLogBounded(address: int, wrote: seq<byte>, back: seq<byte>, original: seq<byte>, n: nat)
    requires n <= |wrote| && n <= |back| && n <= |original|
    ensures var log := MismatchLog(address, wrote, back, original, n);
      MismatchLines(log) == Min(Mismatches(back, wrote, n), 9) &&
      Ellipses(log) == (if Mismatches(back, wrote, n) >= 10 then 1 else 0) &&
      CorruptionLines(log) == 0
  {
    if n > 0 {
      MismatchLogBounded(address, wrote, back, original, n - 1);
      var prev := MismatchLog(address, wrote, back, original, n - 1);
      var count := Mismatches(back, wrote, n);
      if back[n - 1] != wrote[n - 1] {
        var line := WroteReadBack(wrote[n - 1], address + n - 1, back[n - 1], original[n - 1]);
        assert MismatchLog(address, wrote, back, original, n) == prev + Note(count, line);
        assert count == Mismatches(back, wrote, n - 1) + 1;
        LinesAppend(prev, Note(count, line));
        NoteLines(count, line);
      } else {
        assert MismatchLog(address, wrote, back, original, n) == prev + [];
        assert prev + [] == prev;
        assert count == Mismatches(back, wrote, n - 1);
      }
    }
  }

  /** What one note adds to each count of lines. */
  lemma NoteLines(count: int, line: Line)
    ensures MismatchLines(Note(count, line)) == (if count < 10 && line.WroteReadBack? then 1 else 0)
    ensures CorruptionLines(Note(count, line)) == (if count < 10 && line.Corrupted? then 1 else 0)
    ensures Ellipses(Note(count, line)) == (if count == 10 || (count < 10 && line.Ellipsis?) then 1 else 0)
  {
    assert [Ellipsis][..0] == [];
    assert [line][..0] == [];
  }

  /** The shadow comparison prints likewise at most nine detail lines and one
      "..." when the corruption count reaches ten. */
  lemma {:induction false} CorruptionLogBounded(address: int, shadow: int, wrote: seq<byte>, again: seq<byte>, prev: seq<byte>, n: nat)
    requires n <= |wrote| && n <= |again| && n <= |prev|
    ensures var log := CorruptionLog(address, shadow, wrote, again, prev, n);
      CorruptionLines(log) == Min(Mismatches(again, prev, n), 9) &&
      Ellipses(log) == (if Mismatches(again, prev, n) >= 10 then 1 else 0) &&
      MismatchLines(log) == 0
  {
    if n > 0 {
      CorruptionLogBounded(address, shadow, wrote, again, prev, n - 1);
      var before := CorruptionLog(address, shadow, wrote, again, prev, n - 1);
      var count := Mismatches(again, prev, n);
      if again[n - 1] != prev[n - 1] {
        var line := Corrupted(wrote[n - 1], address + n - 1, shadow + n - 1, prev[n - 1], again[n - 1]);
        assert CorruptionLog(address, shadow, wrote, again, prev, n) == before + Note(count, line);
        assert count == Mismatches(again, prev, n - 1) + 1;
        LinesAppend(before, Note(count, line));
        NoteLines(count, line);
      } else {
        assert CorruptionLog(address, shadow, wrote, again, prev, n) == before + [];
        assert before + [] == before;
        assert count == Mismatches(again, prev, n - 1);
      }
    }
  }

  /** Comparing equal prefixes prints nothing. */
  lemma {:induction false} QuietWhenEqual(address: int, shadow: int, wrote: seq<byte>, a: seq<byte>, b: seq<byte>, n: nat)
    requires n <= |wrote| && n <= |a| && n <= |b| && a[..n] == b[..n]
    ensures MismatchLog(address, b, a, wrote, n) == []
    ensures CorruptionLog(address, shadow, wrote, a, b, n) == []
  {
    if n > 0 {
      assert a[..n - 1] == a[..n][..n - 1] && b[..n - 1] == b[..n][..n - 1];
      assert a[n - 1] == a[..n][n - 1] && b[n - 1] == b[..n][n - 1];
      QuietWhenEqual(address, shadow, wrote, a, b, n - 1);
    }
  }

  /** The bytes a read transaction delivers. */
  function ReadOf(s: seq<byte>, r: Reply, at: int, n: nat): (d: seq<byte>)
    requires 0 < |s|
    ensures |d| == n
  {
    Noisy(Block(s, at, n), r)
  }

  /** The medium after a write transaction of the bytes `d`. */
  function WriteOf(s: seq<byte>, r: Reply, at: int, d: seq<byte>): (s': seq<byte>)
    requires 0 < |s| && |d| <= |s|
    ensures |s'| == |s|
  {
    Put(s, at, Noisy(d[..Moved(r, at, |d|)], r))
  }

  /** Everything a probe leaves behind: its outcome, the medium, the number of
      transactions it used and the lines it printed. */
  datatype ProbeRun = ProbeRun(outcome: Outcome, cells: seq<byte>, used: nat, log: seq<Line>)

  /** The probe at `offset` with aliasing modulus `modulo` and sequence number
      `i`, on medium `s` whose kernel answers transaction `t + k` with
      `rs(t + k)`.  The probe block is one block below `offset`; the shadow is
      that address reduced modulo `modulo`.  First both blocks are read. */
  function ProbeSpec(s: seq<byte>, rs: nat -> Reply, t: nat, bs: nat, offset: int, modulo: int, i: int): (r: ProbeRun)
    requires 0 < bs <= |s| && modulo > 0
    ensures |r.cells| == |s|
  {
    var address := offset - bs;
    var shadow := CRem(address, modulo);
    if Fault(rs(t), shadow, bs).Some? then ProbeRun(Abort(Fault(rs(t), shadow, bs).value), s, 1, [])
    else Snapshot(s, rs, t, bs, address, shadow, ReadOf(s, rs(t), shadow, bs), i)
  }

  /** Then the probe block is read, and the pattern is prepared. */
  function Snapshot(s: seq<byte>, rs: nat -> Reply, t: nat, bs: nat, address: int, shadow: int,
                    prev: seq<byte>, i: int): (r: ProbeRun)
    requires 0 < bs <= |s| && |prev| == bs
    ensures |r.cells| == |s|
  {
    if Fault(rs(t + 1), address, bs).Some? then ProbeRun(Abort(Fault(rs(t + 1), address, bs).value), s, 2, [])
    else Exercise(s, rs, t, bs, address, shadow, prev, ReadOf(s, rs(t + 1), address, bs), Pattern(i, bs))
  }

  /** Then the pattern is written to the probe block and read back. */
  function Exercise(s: seq<byte>, rs: nat -> Reply, t: nat, bs: nat, address: int, shadow: int,
                    prev: seq<byte>, original: seq<byte>, pattern: seq<byte>): (r: ProbeRun)
    requires 0 < bs <= |s| && |prev| == |original| == |pattern| == bs
    ensures |r.cells| == |s|
  {
    var s1 := WriteOf(s, rs(t + 2), address, pattern);
    if Fault(rs(t + 2), address, bs).Some? then ProbeRun(Abort(Fault(rs(t + 2), address, bs).value), s1, 3, [])
    else if Fault(rs(t + 3), address, bs).Some? then ProbeRun(Abort(Fault(rs(t + 3), address, bs).value), s1, 4, [])
    else Restore(s1, rs, t, bs, address, shadow, prev, original, pattern, ReadOf(s1, rs(t + 3), address, bs))
  }

  /** Then the read-back is compared with the pattern, the original block is
      written back, and only after that is the shadow block re-read. */
  function Restore(s1: seq<byte>, rs: nat -> Reply, t: nat, bs: nat, address: int, shadow: int,
                   prev: seq<byte>, original: seq<byte>, pattern: seq<byte>, back: seq<byte>): (r: ProbeRun)
    requires 0 < bs <= |s1| && |prev| == |original| == |pattern| == |back| == bs
    ensures |r.cells| == |s1|
  {
    var log := MismatchLog(address, pattern, back, original, bs);
    var s2 := WriteOf(s1, rs(t + 4), address, original);
    if Fault(rs(t + 4), address, bs).Some? then ProbeRun(Abort(Fault(rs(t + 4), address, bs).value), s2, 5, log)
    else if Fault(rs(t + 5), shadow, bs).Some? then ProbeRun(Abort(Fault(rs(t + 5), shadow, bs).value), s2, 6, log)
    else Conclude(s2, rs, t, bs, address, shadow, prev, pattern, Mismatches(back, pattern, bs), log,
                  ReadOf(s2, rs(t + 5), shadow, bs))
  }

  /** Finally the re-read shadow is compared with its snapshot; corruption
      triggers one more write, and any non-zero count is fatal. */
  function Conclude(s2: seq<byte>, rs: nat -> Reply, t: nat, bs: nat, address: int, shadow: int,
                    prev: seq<byte>, pattern: seq<byte>, mismatch: nat, log: seq<Line>, again: seq<byte>): (r: ProbeRun)
    requires 0 < bs <= |s2| && |prev| == |pattern| == |again| == bs
    ensures |r.cells| == |s2|
  {
    var corruption := Mismatches(again, prev, bs);
    var log' := log + CorruptionLog(address, shadow, pattern, again, prev, bs);
    if corruption > 0 then
      // as written: the shadow's snapshot is written to the probe block, not to the shadow
      var s3 := WriteOf(s2, rs(t + 6), address, prev);
      if Fault(rs(t + 6), address, bs).Some? then ProbeRun(Abort(Fault(rs(t + 6), address, bs).value), s3, 7, log')
      else ProbeRun(Abort(Detected(mismatch, corruption)), s3, 7, log')
    else if mismatch > 0 then ProbeRun(Abort(Detected(mismatch, 0)), s2, 6, log')
    else ProbeRun(Pass, s2, 6, log')
  }

  /** The read-back comparison loop, bounded by the `bs` bytes that were
      transferred: counts the positions where the block read back differs
      from the pattern written, printing the first nine and then "...". */
  method CountMismatches(address: int, writedata: array<byte>, readbackdata: array<byte>,
                         originalreaddata: array<byte>, bs: nat) returns (mismatch: nat, log: seq<Line>)
    requires bs <= writedata.Length && bs <= readbackdata.Length && bs <= originalreaddata.Length
    ensures mismatch == Mismatches(readbackdata[..bs], writedata[..bs], bs)
    ensures log == MismatchLog(address, writedata[..bs], readbackdata[..bs], originalreaddata[..bs], bs)
  {
    ghost var wrote, back, original := writedata[..bs], readbackdata[..bs], originalreaddata[..bs];
    mismatch, log := 0, [];
    for n := 0 to bs
      invariant mismatch == Mismatches(back, wrote, n)
      invariant log == MismatchLog(address, wrote, back, original, n)
    {
      assert readbackdata[n] == back[n] && writedata[n] == wrote[n] && originalreaddata[n] == original[n];
      if readbackdata[n] != writedata[n] {
        mismatch := mismatch + 1;
        if mismatch < 10 {
          log := log + [WroteReadBack(writedata[n], address + n, readbackdata[n], originalreaddata[n])];
        } else if mismatch == 10 {
          log := log + [Ellipsis];
        }
      }
    }
  }

  /** The read-back comparison as the source writes it: the loop runs to
      MAXBLOCKSIZE, so it also compares the bytes past the sector size, which
      neither the pattern fill nor the read-back reached and which hold
      whatever the stack held before. */
  method CountMismatchesAsWritten(address: int, writedata: array<byte>, readbackdata: array<byte>,
                                  originalreaddata: array<byte>) returns (mismatch: nat, log: seq<Line>)
    requires writedata.Length == readbackdata.Length == originalreaddata.Length == MaxBlockSize
    ensures mismatch == Mismatches(readbackdata[..], writedata[..], MaxBlockSize)
    ensures log == MismatchLog(address, writedata[..], readbackdata[..], originalreaddata[..], MaxBlockSize)
  {
    assert writedata[..MaxBlockSize] == writedata[..] && readbackdata[..MaxBlockSize] == readbackdata[..];
    assert originalreaddata[..MaxBlockSize] == originalreaddata[..];
    mismatch, log := CountMismatches(address, writedata, readbackdata, originalreaddata, MaxBlockSize);
  }

  /** A difference at a position below `n` is counted. */
  lemma {:induction false} MismatchCounted(a: seq<byte>, b: seq<byte>, n: nat, j: nat)
    requires j < n <= |a| && n <= |b| && a[j] != b[j]
    ensures Mismatches(a, b, n) >= 1
    decreases n
  {
    if j < n - 1 {
      MismatchCounted(a, b, n - 1, j);
    }
  }

  /** With a sector smaller than MAXBLOCKSIZE, a block written and read back
      faithfully passes the comparison over the sector but fails the
      comparison as written as soon as one stale byte past the sector
      differs between the two buffers. */
  lemma StaleTailCounts(back: seq<byte>, wrote: seq<byte>, bs: nat, j: nat)
    requires bs <= j < MaxBlockSize <= |back| && MaxBlockSize <= |wrote|
    requires back[..bs] == wrote[..bs] && back[j] != wrote[j]
    ensures Mismatches(back, wrote, bs) == 0
    ensures Mismatches(back, wrote, MaxBlockSize) >= 1
  {
    MismatchesZeroIff(back, wrote, bs);
    MismatchCounted(back, wrote, MaxBlockSize, j);
  }

  /** The smallest instance: a 512-byte sector holding pattern 0, with the
      stale byte just past it 0 in the pattern buffer and 1 in the read-back
      buffer. */
  lemma StaleTailExample(wrote: seq<byte>, back: seq<byte>)
    requires |wrote| == |back| == MaxBlockSize
    requires wrote[..512] == back[..512] == Pattern(0, 512) && wrote[512] == 0 && back[512] == 1
    ensures Mismatches(back, wrote, 512) == 0 && Mismatches(back, wrote, MaxBlockSize) >= 1
  {
    StaleTailCounts(back, wrote, 512, 512);
  }

  /** The shadow comparison loop: counts the positions below `bs` where the
      re-read shadow differs from its snapshot, printing the first nine and
      then "...". */
  method CountCorruption(address: int, shadow: int, writedata: array<byte>, readbackdata: array<byte>,
                         prevdata: array<byte>, bs: nat) returns (corruption: nat, log: seq<Line>)
    requires bs <= writedata.Length && bs <= readbackdata.Length && bs <= prevdata.Length
    ensures corruption == Mismatches(readbackdata[..bs], prevdata[..bs], bs)
    ensures log == CorruptionLog(address, shadow, writedata[..bs], readbackdata[..bs], prevdata[..bs], bs)
  {
    ghost var wrote, again, prev := writedata[..bs], readbackdata[..bs], prevdata[..bs];
    corruption, log := 0, [];
    for n := 0 to bs
      invariant corruption == Mismatches(again, prev, n)
      invariant log == CorruptionLog(address, shadow, wrote, again, prev, n)
    {
      assert readbackdata[n] == again[n] && prevdata[n] == prev[n] && writedata[n] == wrote[n];
      if readbackdata[n] != prevdata[n] {
        corruption := corruption + 1;
        if corruption < 10 {
          log := log + [Corrupted(writedata[n], address + n, shadow + n, prevdata[n], readbackdata[n])];
        } else if corruption == 10 {
          log := log + [Ellipsis];
        }
      }
    }
  }

  /** The four stack buffers of readbacktest: distinct from each other and
      from the medium, each MAXBLOCKSIZE bytes long. */
  ghost predicate Buffers(dev: Device, prevdata: array<byte>, originalreaddata: array<byte>,
                          writedata: array<byte>, readbackdata: array<byte>)
    reads dev
  {
    dev.Valid() &&
    prevdata.Length == originalreaddata.Length == writedata.Length == readbackdata.Length == MaxBlockSize &&
    prevdata != originalreaddata && prevdata != writedata && prevdata != readbackdata &&
    originalreaddata != writedata && originalreaddata != readbackdata && writedata != readbackdata &&
    dev.cells != prevdata && dev.cells != originalreaddata && dev.cells != writedata && dev.cells != readbackdata
  }

  /** readbacktest on device `dev`.  Its whole effect is `ProbeSpec`. */
  method ReadbackTest(dev: Device, offset: int, modulo: int, i: int) returns (outcome: Outcome, log: seq<Line>)
    requires dev.Valid() && modulo > 0
    modifies dev`transactions, dev.cells
    ensures var run := ProbeSpec(old(dev.cells[..]), dev.replies, old(dev.transactions), dev.blocksize, offset, modulo, i);
      outcome == run.outcome && log == run.log && dev.cells[..] == run.cells &&
      dev.transactions == old(dev.transactions) + run.used
  {
    ghost var s, t := dev.cells[..], dev.transactions;
    ghost var rs := dev.replies;
    var bs := dev.blocksize;
    var prevdata := new byte[MaxBlockSize];
    var originalreaddata := new byte[MaxBlockSize];
    var writedata := new byte[MaxBlockSize];
    var readbackdata := new byte[MaxBlockSize];
    var address := offset - bs;  // go back one block
    var shadow := CRem(address, modulo);

    var f := dev.CheckedRead(shadow, prevdata, bs);
    if f.Some? {
      return Abort(f.value), [];
    }
    NoPartialSuccess(rs(t), shadow, bs);
    assert prevdata[..bs] == ReadOf(s, rs(t), shadow, bs);
    outcome, log := SnapshotStage(dev, t, address, shadow, i, prevdata, originalreaddata, writedata, readbackdata);
  }

  /** Reading the probe block and filling in the pattern. */
  method SnapshotStage(dev: Device, ghost t: nat, address: int, shadow: int, i: int,
                       prevdata: array<byte>, originalreaddata: array<byte>,
                       writedata: array<byte>, readbackdata: array<byte>)
      returns (outcome: Outcome, log: seq<Line>)
    requires Buffers(dev, prevdata, originalreaddata, writedata, readbackdata) && dev.transactions == t + 1
    modifies dev`transactions, dev.cells, originalreaddata, writedata, readbackdata
    ensures var bs := dev.blocksize;
      var run := Snapshot(old(dev.cells[..]), dev.replies, t, bs, address, shadow, prevdata[..bs], i);
      outcome == run.outcome && log == run.log && dev.cells[..] == run.cells &&
      dev.transactions == t + run.used
  {
    ghost var s, rs := dev.cells[..], dev.replies;
    var bs := dev.blocksize;
    ghost var prev := prevdata[..bs];
    var f := dev.CheckedRead(address, originalreaddata, bs);
    if f.Some? {
      return Abort(f.value), [];
    }
    NoPartialSuccess(rs(t + 1), address, bs);
    assert originalreaddata[..bs] == ReadOf(s, rs(t + 1), address, bs);

    for n := 0 to bs
      modifies writedata
      invariant forall k :: 0 <= k < n ==> writedata[k] == ((i + k) % 256) as byte
    {
      writedata[n] := ((i + n) % 256) as byte;
    }
    assert writedata[..bs] == Pattern(i, bs);
    assert originalreaddata[..bs] == ReadOf(s, rs(t + 1), address, bs);
    assert dev.cells[..] == s && dev.transactions == t + 2;
    outcome, log := ExerciseStage(dev, t, address, shadow, prevdata, originalreaddata, writedata, readbackdata);
  }

  /** Writing the pattern to the probe block and reading it back. */
  method ExerciseStage(dev: Device, ghost t: nat, address: int, shadow: int,
                       prevdata: array<byte>, originalreaddata: array<byte>,
                       writedata: array<byte>, readbackdata: array<byte>)
      returns (outcome: Outcome, log: seq<Line>)
    requires Buffers(dev, prevdata, originalreaddata, writedata, readbackdata) && dev.transactions == t + 2
    modifies dev`transactions, dev.cells, readbackdata
    ensures var bs := dev.blocksize;
      var run := Exercise(old(dev.cells[..]), dev.replies, t, bs, address, shadow,
                          prevdata[..bs], originalreaddata[..bs], writedata[..bs]);
      outcome == run.outcome && log == run.log && dev.cells[..] == run.cells &&
      dev.transactions == t + run.used
  {
    ghost var s, rs := dev.cells[..], dev.replies;
    var bs := dev.blocksize;
    ghost var m := Moved(rs(t + 2), address, bs);
    assert writedata[..bs][..m] == writedata[..m];
    var f := dev.CheckedWrite(address, writedata, bs);
    ghost var s1 := dev.cells[..];
    assert s1 == WriteOf(s, rs(t + 2), address, writedata[..bs]);
    if f.Some? {
      return Abort(f.value), [];
    }

    // read back the data
    f := dev.CheckedRead(address, readbackdata, bs);
    if f.Some? {
      return Abort(f.value), [];
    }
    NoPartialSuccess(rs(t + 3), address, bs);
    assert readbackdata[..bs] == ReadOf(s1, rs(t + 3), address, bs);
    outcome, log := RestoreStage(dev, t, address, shadow, prevdata, originalreaddata, writedata, readbackdata);
  }

  /** Comparing the read-back with the pattern, writing the original block
      back and only then re-reading the shadow block. */
  method RestoreStage(dev: Device, ghost t: nat, address: int, shadow: int,
                      prevdata: array<byte>, originalreaddata: array<byte>,
                      writedata: array<byte>, readbackdata: array<byte>)
      returns (outcome: Outcome, log: seq<Line>)
    requires Buffers(dev, prevdata, originalreaddata, writedata, readbackdata) && dev.transactions == t + 4
    modifies dev`transactions, dev.cells, readbackdata
    ensures var bs := dev.blocksize;
      var run := Restore(old(dev.cells[..]), dev.replies, t, bs, address, shadow,
                         prevdata[..bs], originalreaddata[..bs], writedata[..bs], old(readbackdata[..bs]));
      outcome == run.outcome && log == run.log && dev.cells[..] == run.cells &&
      dev.transactions == t + run.used
  {
    ghost var s1, rs := dev.cells[..], dev.replies;
    var bs := dev.blocksize;
    // see if it is what was written
    var mismatch;
    mismatch, log := CountMismatches(address, writedata, readbackdata, originalreaddata, bs);

    // write back what was read before
    ghost var m := Moved(rs(t + 4), address, bs);
    assert originalreaddata[..bs][..m] == originalreaddata[..m];
    var f := dev.CheckedWrite(address, originalreaddata, bs);
    ghost var s2 := dev.cells[..];
    assert s2 == WriteOf(s1, rs(t + 4), address, originalreaddata[..bs]);
    if f.Some? {
      return Abort(f.value), log;
    }

    // only now re-read the shadow block
    f := dev.CheckedRead(shadow, readbackdata, bs);
    if f.Some? {
      return Abort(f.value), log;
    }
    NoPartialSuccess(rs(t + 5), shadow, bs);
    assert readbackdata[..bs] == ReadOf(s2, rs(t + 5), shadow, bs);
    outcome, log := ConcludeStage(dev, t, address, shadow, prevdata, writedata, readbackdata, mismatch, log);
  }

  /** Comparing the re-read shadow with its snapshot; on corruption the
      snapshot is written out once more, and any non-zero count is fatal. */
  method ConcludeStage(dev: Device, ghost t: nat, address: int, shadow: int,
                       prevdata: array<byte>, writedata: array<byte>, readbackdata: array<byte>,
                       mismatch: nat, log0: seq<Line>)
      returns (outcome: Outcome, log: seq<Line>)
    requires dev.Valid() && dev.transactions == t + 6
    requires prevdata.Length == writedata.Length == readbackdata.Length == MaxBlockSize
    requires dev.cells != prevdata && dev.cells != writedata && dev.cells != readbackdata
    modifies dev`transactions, dev.cells
    ensures var bs := dev.blocksize;
      var run := Conclude(old(dev.cells[..]), dev.replies, t, bs, address, shadow,
                          prevdata[..bs], writedata[..bs], mismatch, log0, readbackdata[..bs]);
      outcome == run.outcome && log == run.log && dev.cells[..] == run.cells &&
      dev.transactions == t + run.used
  {
    ghost var s2, rs := dev.cells[..], dev.replies;
    var bs := dev.blocksize;
    var corruption, log2 := CountCorruption(address, shadow, writedata, readbackdata, prevdata, bs);
    log := log0 + log2;
    if corruption > 0 {
      // as written: prevdata goes to the probe address, not to the shadow
      ghost var m := Moved(rs(t + 6), address, bs);
      assert prevdata[..bs][..m] == prevdata[..m];
      var f := dev.CheckedWrite(address, prevdata, bs);
      assert dev.cells[..] == WriteOf(s2, rs(t + 6), address, prevdata[..bs]);
      if f.Some? {
        return Abort(f.value), log;
      }
    }
    if mismatch > 0 || corruption > 0 {
      return Abort(Detected(mismatch, corruption)), log;
    }
    return Pass, log;
  }
}
