/** What a probe transaction promises, stated on its specification `ProbeSpec`
    (which `ReadbackTest` is proved to implement).  The transactions of one
    probe are numbered 0 to 6: 0 reads the shadow block, 1 reads the probe
    block, 2 writes the pattern, 3 reads it back, 4 restores the probe block,
    5 re-reads the shadow block and 6 is the corrective write. */
module ProbeFacts {
  import opened Media
  import opened Transport
  import opened Probe

  /** The bytes a probe observes and the media states it passes through when
      its first six transactions all run. */
  datatype Trace = Trace(address: int, shadow: int, prev: seq<byte>, original: seq<byte>, pattern: seq<byte>,
                         s1: seq<byte>, back: seq<byte>, s2: seq<byte>, again: seq<byte>)

  function Steps(s: seq<byte>, rs: nat -> Reply, t: nat, bs: nat, offset: int, modulo: int, i: int): (tr: Trace)
    requires 0 < bs <= |s| && modulo > 0
    ensures tr.address == offset - bs && tr.shadow == CRem(offset - bs, modulo)
    ensures |tr.s1| == |tr.s2| == |s|
    ensures |tr.prev| == |tr.original| == |tr.pattern| == |tr.back| == |tr.again| == bs
  {
    var address := offset - bs;
    var shadow := CRem(address, modulo);
    var original := ReadOf(s, rs(t + 1), address, bs);
    var s1 := WriteOf(s, rs(t + 2), address, Pattern(i, bs));
    var s2 := WriteOf(s1, rs(t + 4), address, original);
    Trace(address, shadow, ReadOf(s, rs(t), shadow, bs), original, Pattern(i, bs),
          s1, ReadOf(s1, rs(t + 3), address, bs), s2, ReadOf(s2, rs(t + 5), shadow, bs))
  }

  /** Transactions 0 and 5 go to the shadow block, all others to the probe block. */
  function Target(k: int, address: int, shadow: int): int {
    if k == 0 || k == 5 then shadow else address
  }

  /** The fault, if any, of transaction `k` of the probe starting at `t`. */
  function StepFault(rs: nat -> Reply, t: nat, k: nat, address: int, shadow: int, bs: nat): Option<Fatal> {
    Fault(rs(t + k), Target(k, address, shadow), bs)
  }

  /** The first `n` transactions of the probe all succeed. */
  predicate Smooth(rs: nat -> Reply, t: nat, n: nat, address: int, shadow: int, bs: nat) {
    forall k: nat :: k < n ==> StepFault(rs, t, k, address, shadow, bs) == None
  }

  /** The first failing transaction ends the probe: its fault is the outcome
      and no later transaction is issued. */
  lemma FirstFaultIsFatal(s: seq<byte>, rs: nat -> Reply, t: nat, bs: nat, offset: int, modulo: int, i: int, k: nat)
    requires 0 < bs <= |s| && modulo > 0 && k < 6
    requires Smooth(rs, t, k, offset - bs, CRem(offset - bs, modulo), bs)
    requires StepFault(rs, t, k, offset - bs, CRem(offset - bs, modulo), bs).Some?
    ensures ProbeSpec(s, rs, t, bs, offset, modulo, i).outcome ==
            Abort(StepFault(rs, t, k, offset - bs, CRem(offset - bs, modulo), bs).value)
    ensures ProbeSpec(s, rs, t, bs, offset, modulo, i).used == k + 1
  {
    var tr := Steps(s, rs, t, bs, offset, modulo, i);
    var address, shadow := tr.address, tr.shadow;
    if k == 0 {
      assert StepFault(rs, t, 0, address, shadow, bs) == Fault(rs(t), shadow, bs);
    } else {
      assert StepFault(rs, t, 0, address, shadow, bs) == None;
      assert Fault(rs(t), shadow, bs) == None;
      assert ProbeSpec(s, rs, t, bs, offset, modulo, i) == Snapshot(s, rs, t, bs, address, shadow, tr.prev, i);
      if k == 1 {
        assert StepFault(rs, t, 1, address, shadow, bs) == Fault(rs(t + 1), address, bs);
      } else {
        assert StepFault(rs, t, 1, address, shadow, bs) == None;
        assert ProbeSpec(s, rs, t, bs, offset, modulo, i) ==
               Exercise(s, rs, t, bs, address, shadow, tr.prev, tr.original, tr.pattern);
        if k == 2 {
          assert StepFault(rs, t, 2, address, shadow, bs) == Fault(rs(t + 2), address, bs);
        } else {
          assert StepFault(rs, t, 2, address, shadow, bs) == None;
          if k == 3 {
            assert StepFault(rs, t, 3, address, shadow, bs) == Fault(rs(t + 3), address, bs);
          } else {
            assert StepFault(rs, t, 3, address, shadow, bs) == None;
            assert ProbeSpec(s, rs, t, bs, offset, modulo, i) ==
                   Restore(tr.s1, rs, t, bs, address, shadow, tr.prev, tr.original, tr.pattern, tr.back);
            if k == 4 {
              assert StepFault(rs, t, 4, address, shadow, bs) == Fault(rs(t + 4), address, bs);
            } else {
              assert StepFault(rs, t, 4, address, shadow, bs) == None;
              assert StepFault(rs, t, 5, address, shadow, bs) == Fault(rs(t + 5), shadow, bs);
            }
          }
        }
      }
    }
  }

  /** The medium a probe leaves when transaction `k` is its first failure:
      untouched before the pattern write, carrying what the pattern write
      stored after it, and what the restore stored after that.  Nothing is
      put back on the way out. */
  lemma FaultLeavesCells(s: seq<byte>, rs: nat -> Reply, t: nat, bs: nat, offset: int, modulo: int, i: int, k: nat)
    requires 0 < bs <= |s| && modulo > 0 && k < 6
    requires Smooth(rs, t, k, offset - bs, CRem(offset - bs, modulo), bs)
    requires StepFault(rs, t, k, offset - bs, CRem(offset - bs, modulo), bs).Some?
    ensures var tr := Steps(s, rs, t, bs, offset, modulo, i);
      ProbeSpec(s, rs, t, bs, offset, modulo, i).cells == (if k <= 1 then s else if k <= 3 then tr.s1 else tr.s2)
  {
    var tr := Steps(s, rs, t, bs, offset, modulo, i);
    var address, shadow := tr.address, tr.shadow;
    if k == 0 {
      assert StepFault(rs, t, 0, address, shadow, bs) == Fault(rs(t), shadow, bs);
    } else {
      assert StepFault(rs, t, 0, address, shadow, bs) == None;
      assert Fault(rs(t), shadow, bs) == None;
      assert ProbeSpec(s, rs, t, bs, offset, modulo, i) == Snapshot(s, rs, t, bs, address, shadow, tr.prev, i);
      if k == 1 {
        assert StepFault(rs, t, 1, address, shadow, bs) == Fault(rs(t + 1), address, bs);
      } else {
        assert StepFault(rs, t, 1, address, shadow, bs) == None;
        assert ProbeSpec(s, rs, t, bs, offset, modulo, i) ==
               Exercise(s, rs, t, bs, address, shadow, tr.prev, tr.original, tr.pattern);
        if k == 2 {
          assert StepFault(rs, t, 2, address, shadow, bs) == Fault(rs(t + 2), address, bs);
        } else {
          assert StepFault(rs, t, 2, address, shadow, bs) == None;
          if k == 3 {
            assert StepFault(rs, t, 3, address, shadow, bs) == Fault(rs(t + 3), address, bs);
          } else {
            assert StepFault(rs, t, 3, address, shadow, bs) == None;
            assert ProbeSpec(s, rs, t, bs, offset, modulo, i) ==
                   Restore(tr.s1, rs, t, bs, address, shadow, tr.prev, tr.original, tr.pattern, tr.back);
            if k == 4 {
              assert StepFault(rs, t, 4, address, shadow, bs) == Fault(rs(t + 4), address, bs);
            } else {
              assert StepFault(rs, t, 4, address, shadow, bs) == None;
              assert StepFault(rs, t, 5, address, shadow, bs) == Fault(rs(t + 5), shadow, bs);
            }
          }
        }
      }
    }
  }

  /** A read-back that fails after a good pattern write ends the program
      with the pattern, not the original data, on the probe block. */
  lemma ReadBackFaultLeavesPattern(s: seq<byte>, rs: nat -> Reply, t: nat, bs: nat, offset: int, modulo: int, i: int)
    requires 0 < bs <= |s| && modulo > 0 && offset >= bs
    requires rs(t) == Clean && rs(t + 1) == Clean && rs(t + 2) == Clean
    requires Fault(rs(t + 3), offset - bs, bs).Some?
    ensures var run := ProbeSpec(s, rs, t, bs, offset, modulo, i);
      run.outcome.Abort? && Block(run.cells, offset - bs, bs) == Pattern(i, bs)
  {
    var address, shadow := offset - bs, CRem(offset - bs, modulo);
    CleanTransfer(shadow, bs, []);
    CleanTransfer(address, bs, Pattern(i, bs));
    assert Smooth(rs, t, 3, address, shadow, bs) by {
      forall k: nat | k < 3 ensures StepFault(rs, t, k, address, shadow, bs) == None {
        assert rs(t + k) == Clean;
      }
    }
    assert StepFault(rs, t, 3, address, shadow, bs) == Fault(rs(t + 3), address, bs);
    FirstFaultIsFatal(s, rs, t, bs, offset, modulo, i, 3);
    FaultLeavesCells(s, rs, t, bs, offset, modulo, i, 3);
    assert Pattern(i, bs)[..bs] == Pattern(i, bs);
    ReadAfterWrite(s, address, Pattern(i, bs));
  }

  /** With six successful transactions the probe reaches its final
      comparison with the bytes `Steps` names. */
  lemma SmoothReachesConclude(s: seq<byte>, rs: nat -> Reply, t: nat, bs: nat, offset: int, modulo: int, i: int)
    requires 0 < bs <= |s| && modulo > 0
    requires Smooth(rs, t, 6, offset - bs, CRem(offset - bs, modulo), bs)
    ensures var tr := Steps(s, rs, t, bs, offset, modulo, i);
      ProbeSpec(s, rs, t, bs, offset, modulo, i) ==
      Conclude(tr.s2, rs, t, bs, tr.address, tr.shadow, tr.prev, tr.pattern, Mismatches(tr.back, tr.pattern, bs),
               MismatchLog(tr.address, tr.pattern, tr.back, tr.original, bs), tr.again)
  {
    var tr := Steps(s, rs, t, bs, offset, modulo, i);
    var address, shadow := tr.address, tr.shadow;
    assert StepFault(rs, t, 0, address, shadow, bs) == None;
    assert Fault(rs(t), shadow, bs) == None;
    assert StepFault(rs, t, 1, address, shadow, bs) == None;
    assert ProbeSpec(s, rs, t, bs, offset, modulo, i) ==
           Exercise(s, rs, t, bs, address, shadow, tr.prev, tr.original, tr.pattern);
    assert StepFault(rs, t, 2, address, shadow, bs) == None;
    assert StepFault(rs, t, 3, address, shadow, bs) == None;
    assert ProbeSpec(s, rs, t, bs, offset, modulo, i) ==
           Restore(tr.s1, rs, t, bs, address, shadow, tr.prev, tr.original, tr.pattern, tr.back);
    assert StepFault(rs, t, 4, address, shadow, bs) == None;
    assert StepFault(rs, t, 5, address, shadow, bs) == None;
  }

  /** When the six transactions all succeed, nothing but byte values decides
      the outcome: the probe counts the read-back positions that differ from
      the pattern and the shadow positions that differ from their snapshot,
      prints at most nine lines and one "..." per count, issues the
      corrective write exactly when there was corruption, and fails exactly
      when either count is non-zero: with both counts, unless the corrective
      write itself fails, which then gives the outcome. */
  lemma Verdict(s: seq<byte>, rs: nat -> Reply, t: nat, bs: nat, offset: int, modulo: int, i: int)
    requires 0 < bs <= |s| && modulo > 0
    requires Smooth(rs, t, 6, offset - bs, CRem(offset - bs, modulo), bs)
    ensures var run := ProbeSpec(s, rs, t, bs, offset, modulo, i);
      var tr := Steps(s, rs, t, bs, offset, modulo, i);
      var m := Mismatches(tr.back, tr.pattern, bs);
      var c := Mismatches(tr.again, tr.prev, bs);
      (m == 0 <==> tr.back == tr.pattern) && (c == 0 <==> tr.again == tr.prev) &&
      (c == 0 ==> run.used == 6 && run.cells == tr.s2) &&
      (c > 0 ==> run.used == 7 && run.cells == WriteOf(tr.s2, rs(t + 6), tr.address, tr.prev)) &&
      (run.outcome == Pass <==> m == 0 && c == 0) &&
      (run.outcome.Abort? && (c == 0 || StepFault(rs, t, 6, tr.address, tr.shadow, bs) == None) ==>
         run.outcome.reason == Detected(m, c)) &&
      (c > 0 && StepFault(rs, t, 6, tr.address, tr.shadow, bs).Some? ==>
         run.outcome == Abort(StepFault(rs, t, 6, tr.address, tr.shadow, bs).value))
  {
    var tr := Steps(s, rs, t, bs, offset, modulo, i);
    SmoothReachesConclude(s, rs, t, bs, offset, modulo, i);
    MismatchesZeroIff(tr.back, tr.pattern, bs);
    MismatchesZeroIff(tr.again, tr.prev, bs);
    assert tr.back[..bs] == tr.back && tr.pattern[..bs] == tr.pattern;
    assert tr.again[..bs] == tr.again && tr.prev[..bs] == tr.prev;
  }

  /** What such a probe prints: at most nine lines per count and one "..."
      for each count that reaches ten. */
  lemma VerdictLog(s: seq<byte>, rs: nat -> Reply, t: nat, bs: nat, offset: int, modulo: int, i: int)
    requires 0 < bs <= |s| && modulo > 0
    requires Smooth(rs, t, 6, offset - bs, CRem(offset - bs, modulo), bs)
    ensures var run := ProbeSpec(s, rs, t, bs, offset, modulo, i);
      var tr := Steps(s, rs, t, bs, offset, modulo, i);
      var m := Mismatches(tr.back, tr.pattern, bs);
      var c := Mismatches(tr.again, tr.prev, bs);
      MismatchLines(run.log) == Min(m, 9) && CorruptionLines(run.log) == Min(c, 9) &&
      Ellipses(run.log) == (if m >= 10 then 1 else 0) + (if c >= 10 then 1 else 0)
  {
    var tr := Steps(s, rs, t, bs, offset, modulo, i);
    var address, shadow := tr.address, tr.shadow;
    SmoothReachesConclude(s, rs, t, bs, offset, modulo, i);
    var log1 := MismatchLog(address, tr.pattern, tr.back, tr.original, bs);
    var log2 := CorruptionLog(address, shadow, tr.pattern, tr.again, tr.prev, bs);
    ConcludeLog(tr.s2, rs, t, bs, address, shadow, tr.prev, tr.pattern, Mismatches(tr.back, tr.pattern, bs), log1, tr.again);
    MismatchLogBounded(address, tr.pattern, tr.back, tr.original, bs);
    CorruptionLogBounded(address, shadow, tr.pattern, tr.again, tr.prev, bs);
    LinesAppend(log1, log2);
  }

  /** The final comparison appends the corruption lines to what was printed
      before, whatever it decides. */
  lemma ConcludeLog(s2: seq<byte>, rs: nat -> Reply, t: nat, bs: nat, address: int, shadow: int,
                    prev: seq<byte>, pattern: seq<byte>, mismatch: nat, log: seq<Line>, again: seq<byte>)
    requires 0 < bs <= |s2| && |prev| == |pattern| == |again| == bs
    ensures Conclude(s2, rs, t, bs, address, shadow, prev, pattern, mismatch, log, again).log ==
            log + CorruptionLog(address, shadow, pattern, again, prev, bs)
  {
  }

  /** A probe passes exactly when all six transactions succeed, the block
      reads back as the pattern, and the shadow re-reads as its snapshot;
      then it prints nothing and uses six transactions. */
  lemma PassIff(s: seq<byte>, rs: nat -> Reply, t: nat, bs: nat, offset: int, modulo: int, i: int)
    requires 0 < bs <= |s| && modulo > 0
    ensures var run := ProbeSpec(s, rs, t, bs, offset, modulo, i);
      var tr := Steps(s, rs, t, bs, offset, modulo, i);
      run.outcome == Pass <==>
        Smooth(rs, t, 6, tr.address, tr.shadow, bs) && tr.back == tr.pattern && tr.again == tr.prev
    ensures var run := ProbeSpec(s, rs, t, bs, offset, modulo, i);
      run.outcome == Pass ==>
        run.used == 6 && run.log == [] && run.cells == Steps(s, rs, t, bs, offset, modulo, i).s2
  {
    var tr := Steps(s, rs, t, bs, offset, modulo, i);
    var address, shadow := tr.address, tr.shadow;
    if Smooth(rs, t, 6, address, shadow, bs) {
      Verdict(s, rs, t, bs, offset, modulo, i);
      if tr.back == tr.pattern && tr.again == tr.prev {
        SmoothReachesConclude(s, rs, t, bs, offset, modulo, i);
        QuietWhenEqual(address, shadow, tr.original, tr.back, tr.pattern, bs);
        QuietWhenEqual(address, shadow, tr.pattern, tr.again, tr.prev, bs);
      }
    } else {
      FirstFault(rs, t, 6, address, shadow, bs);
      var k: nat :| k < 6 && Smooth(rs, t, k, address, shadow, bs) && StepFault(rs, t, k, address, shadow, bs).Some?;
      FirstFaultIsFatal(s, rs, t, bs, offset, modulo, i, k);
    }
  }

  /** When not all of the first `n` transactions succeed, one of them is the
      first to fail. */
  lemma FirstFault(rs: nat -> Reply, t: nat, n: nat, address: int, shadow: int, bs: nat)
    requires !Smooth(rs, t, n, address, shadow, bs)
    ensures exists k: nat :: k < n && Smooth(rs, t, k, address, shadow, bs) &&
                             StepFault(rs, t, k, address, shadow, bs).Some?
  {
    var failing: nat :| failing < n && StepFault(rs, t, failing, address, shadow, bs).Some?;
    var j: nat := 0;
    while StepFault(rs, t, j, address, shadow, bs) == None
      invariant j <= failing && Smooth(rs, t, j, address, shadow, bs)
      decreases failing - j
    {
      j := j + 1;
    }
  }

  /** Every probe prints at most nine detail lines per count and at most one
      "..." per count, whatever the device answers. */
  lemma LogBounded(s: seq<byte>, rs: nat -> Reply, t: nat, bs: nat, offset: int, modulo: int, i: int)
    requires 0 < bs <= |s| && modulo > 0
    ensures var log := ProbeSpec(s, rs, t, bs, offset, modulo, i).log;
      MismatchLines(log) <= 9 && CorruptionLines(log) <= 9 && Ellipses(log) <= 2
  {
    var tr := Steps(s, rs, t, bs, offset, modulo, i);
    var address, shadow := tr.address, tr.shadow;
    if Smooth(rs, t, 6, address, shadow, bs) {
      VerdictLog(s, rs, t, bs, offset, modulo, i);
    } else {
      FirstFault(rs, t, 6, address, shadow, bs);
      var k: nat :| k < 6 && Smooth(rs, t, k, address, shadow, bs) && StepFault(rs, t, k, address, shadow, bs).Some?;
      if k < 4 {
        LogEmptyBeforeRestore(s, rs, t, bs, offset, modulo, i, k);
      } else {
        LogAfterReadBack(s, rs, t, bs, offset, modulo, i);
        MismatchLogBounded(address, tr.pattern, tr.back, tr.original, bs);
      }
    }
  }

  /** A probe that fails before its restore prints nothing. */
  lemma LogEmptyBeforeRestore(s: seq<byte>, rs: nat -> Reply, t: nat, bs: nat, offset: int, modulo: int, i: int, k: nat)
    requires 0 < bs <= |s| && modulo > 0 && k < 4
    requires Smooth(rs, t, k, offset - bs, CRem(offset - bs, modulo), bs)
    requires StepFault(rs, t, k, offset - bs, CRem(offset - bs, modulo), bs).Some?
    ensures ProbeSpec(s, rs, t, bs, offset, modulo, i).log == []
  {
    var tr := Steps(s, rs, t, bs, offset, modulo, i);
    var address, shadow := tr.address, tr.shadow;
    if k == 0 {
      assert StepFault(rs, t, 0, address, shadow, bs) == Fault(rs(t), shadow, bs);
    } else {
      assert StepFault(rs, t, 0, address, shadow, bs) == None;
      assert Fault(rs(t), shadow, bs) == None;
      if k == 1 {
        assert StepFault(rs, t, 1, address, shadow, bs) == Fault(rs(t + 1), address, bs);
      } else {
        assert StepFault(rs, t, 1, address, shadow, bs) == None;
        assert ProbeSpec(s, rs, t, bs, offset, modulo, i) ==
               Exercise(s, rs, t, bs, address, shadow, tr.prev, tr.original, tr.pattern);
        if k == 2 {
          assert StepFault(rs, t, 2, address, shadow, bs) == Fault(rs(t + 2), address, bs);
        } else {
          assert StepFault(rs, t, 2, address, shadow, bs) == None;
          assert StepFault(rs, t, 3, address, shadow, bs) == Fault(rs(t + 3), address, bs);
        }
      }
    }
  }

  /** A probe that fails at its restore or at the shadow re-read prints
      exactly the read-back comparison. */
  lemma LogAfterReadBack(s: seq<byte>, rs: nat -> Reply, t: nat, bs: nat, offset: int, modulo: int, i: int)
    requires 0 < bs <= |s| && modulo > 0
    requires Smooth(rs, t, 4, offset - bs, CRem(offset - bs, modulo), bs)
    requires !Smooth(rs, t, 6, offset - bs, CRem(offset - bs, modulo), bs)
    ensures var tr := Steps(s, rs, t, bs, offset, modulo, i);
      ProbeSpec(s, rs, t, bs, offset, modulo, i).log == MismatchLog(tr.address, tr.pattern, tr.back, tr.original, bs)
  {
    var tr := Steps(s, rs, t, bs, offset, modulo, i);
    var address, shadow := tr.address, tr.shadow;
    assert StepFault(rs, t, 0, address, shadow, bs) == None;
    assert Fault(rs(t), shadow, bs) == None;
    assert StepFault(rs, t, 1, address, shadow, bs) == None;
    assert ProbeSpec(s, rs, t, bs, offset, modulo, i) ==
           Exercise(s, rs, t, bs, address, shadow, tr.prev, tr.original, tr.pattern);
    assert StepFault(rs, t, 2, address, shadow, bs) == None;
    assert StepFault(rs, t, 3, address, shadow, bs) == None;
    assert ProbeSpec(s, rs, t, bs, offset, modulo, i) ==
           Restore(tr.s1, rs, t, bs, address, shadow, tr.prev, tr.original, tr.pattern, tr.back);
    var k: nat :| k < 6 && StepFault(rs, t, k, address, shadow, bs).Some?;
    assert k == 4 || k == 5;
    assert StepFault(rs, t, 4, address, shadow, bs) == Fault(rs(t + 4), address, bs);
    assert StepFault(rs, t, 5, address, shadow, bs) == Fault(rs(t + 5), shadow, bs);
  }

  /** On healthy hardware the probe passes, prints nothing, uses six
      transactions and leaves every cell of the medium as it was.  This holds
      for a medium of any physical size of at least one sector, including one
      so small that the probe block folds onto the shadow block: because the
      probe block is restored before the shadow block is re-read, such folding
      goes unseen. */
  lemma CleanProbePasses(s: seq<byte>, rs: nat -> Reply, t: nat, bs: nat, offset: int, modulo: int, i: int)
    requires 0 < bs <= |s| && modulo > 0 && offset >= bs
    requires forall n :: t <= n < t + 6 ==> rs(n) == Clean
    ensures ProbeSpec(s, rs, t, bs, offset, modulo, i) == ProbeRun(Pass, s, 6, [])
  {
    var tr := Steps(s, rs, t, bs, offset, modulo, i);
    var address, shadow := tr.address, tr.shadow;
    assert rs(t) == Clean && rs(t + 1) == Clean && rs(t + 2) == Clean;
    assert rs(t + 3) == Clean && rs(t + 4) == Clean && rs(t + 5) == Clean;
    CleanTransfer(address, bs, tr.pattern);
    CleanTransfer(address, bs, Block(s, address, bs));
    CleanTransfer(shadow, bs, Block(s, shadow, bs));
    assert tr.prev == Block(s, shadow, bs);
    assert tr.original == Block(s, address, bs);
    assert tr.s1 == Put(s, address, tr.pattern) by {
      assert tr.pattern[..bs] == tr.pattern;
    }
    CleanTransfer(address, bs, Block(tr.s1, address, bs));
    ReadAfterWrite(s, address, tr.pattern);
    assert tr.back == tr.pattern;
    assert tr.s2 == s by {
      assert tr.original[..bs] == tr.original;
      OverwriteThenRestore(s, address, tr.pattern);
    }
    CleanTransfer(shadow, bs, Block(tr.s2, shadow, bs));
    assert tr.again == tr.prev;
    forall k: nat | k < 6 ensures StepFault(rs, t, k, address, shadow, bs) == None {
      assert rs(t + k) == Clean;
    }
    PassIff(s, rs, t, bs, offset, modulo, i);
  }

  /** A medium that stores or returns the pattern with any byte changed is
      always caught: if the noise of the pattern write and of its read-back
      do not cancel at some position of the block, the probe does not pass. */
  lemma GarbledPatternIsFatal(s: seq<byte>, rs: nat -> Reply, t: nat, bs: nat, offset: int, modulo: int, i: int, j: int)
    requires 0 < bs <= |s| && modulo > 0 && 0 <= j < bs
    requires (Noise(rs(t + 2), j) as int + Noise(rs(t + 3), j) as int) % 256 != 0
    ensures ProbeSpec(s, rs, t, bs, offset, modulo, i).outcome != Pass
  {
    var address, shadow := offset - bs, CRem(offset - bs, modulo);
    PassIff(s, rs, t, bs, offset, modulo, i);
    if Smooth(rs, t, 6, address, shadow, bs) {
      assert StepFault(rs, t, 2, address, shadow, bs) == None;
      GarbledRead(s, rs, t, bs, offset, modulo, i, j);
    }
  }

  /** Once the pattern write succeeds, noise that does not cancel at byte
      `j` makes the block read back differ from the pattern. */
  lemma GarbledRead(s: seq<byte>, rs: nat -> Reply, t: nat, bs: nat, offset: int, modulo: int, i: int, j: int)
    requires 0 < bs <= |s| && modulo > 0 && 0 <= j < bs
    requires (Noise(rs(t + 2), j) as int + Noise(rs(t + 3), j) as int) % 256 != 0
    requires Fault(rs(t + 2), offset - bs, bs) == None
    ensures Steps(s, rs, t, bs, offset, modulo, i).back != Steps(s, rs, t, bs, offset, modulo, i).pattern
  {
    GarbledBack(s, rs(t + 2), rs(t + 3), offset - bs, Pattern(i, bs), j);
  }

  /** Byte `j` of a block written and read back differs from the byte
      written when the two transfers' noise does not cancel there. */
  lemma GarbledBack(s: seq<byte>, w: Reply, r: Reply, at: int, d: seq<byte>, j: int)
    requires 0 < |d| <= |s| && 0 <= j < |d| && Fault(w, at, |d|) == None
    requires (Noise(w, j) as int + Noise(r, j) as int) % 256 != 0
    ensures ReadOf(WriteOf(s, w, at, d), r, at, |d|) != d
  {
    WrittenThenRead(s, w, r, at, d, j);
    var p, a, b := d[j] as int, Noise(w, j) as int, Noise(r, j) as int;
    SumModDiffers(p, a, b);
    var stored := Garble(d[j], w, j);
    assert stored as int == (p + a) % 256;
    assert Garble(stored, r, j) as int == (stored as int + b) % 256;
  }

  /** Once a write succeeds, byte `j` read back from the same address is the
      byte written, garbled by the write and then by the read. */
  lemma WrittenThenRead(s: seq<byte>, w: Reply, r: Reply, at: int, d: seq<byte>, j: int)
    requires 0 < |d| <= |s| && 0 <= j < |d| && Fault(w, at, |d|) == None
    ensures ReadOf(WriteOf(s, w, at, d), r, at, |d|)[j] == Garble(Garble(d[j], w, j), r, j)
  {
    NoPartialSuccess(w, at, |d|);
    assert d[..Moved(w, at, |d|)] == d;
    ReadAfterWrite(s, at, Noisy(d, w));
  }

  /** Adding to a byte amounts that do not cancel modulo 256 changes it. */
  lemma SumModDiffers(p: int, a: int, b: int)
    requires 0 <= p < 256 && 0 <= a < 256 && 0 <= b < 256 && (a + b) % 256 != 0
    ensures ((p + a) % 256 + b) % 256 != p
  {
    var x := (p + a) % 256;
    if p + a < 256 { ModUnique(p + a, 256, 0, p + a); } else { ModUnique(p + a, 256, 1, p + a - 256); }
    if x + b < 256 { ModUnique(x + b, 256, 0, x + b); } else { ModUnique(x + b, 256, 1, x + b - 256); }
    if a + b < 256 { ModUnique(a + b, 256, 0, a + b); } else { ModUnique(a + b, 256, 1, a + b - 256); }
  }

  /** As written, the corrective write after a detected corruption stores the
      shadow's snapshot into the probe block, not into the shadow block: on
      healthy hardware the probe block ends up holding the shadow's old
      bytes and every other cell is as the restore left it. */
  lemma CorrectiveWriteTarget(s: seq<byte>, rs: nat -> Reply, t: nat, bs: nat, offset: int, modulo: int, i: int)
    requires 0 < bs <= |s| && modulo > 0 && offset >= bs
    requires Smooth(rs, t, 6, offset - bs, CRem(offset - bs, modulo), bs) && rs(t + 6) == Clean
    requires var tr := Steps(s, rs, t, bs, offset, modulo, i); tr.again != tr.prev
    ensures var run := ProbeSpec(s, rs, t, bs, offset, modulo, i);
      var tr := Steps(s, rs, t, bs, offset, modulo, i);
      run.cells == Put(tr.s2, tr.address, tr.prev) && Block(run.cells, tr.address, bs) == tr.prev &&
      run.outcome == Abort(Detected(Mismatches(tr.back, tr.pattern, bs), Mismatches(tr.again, tr.prev, bs)))
  {
    var tr := Steps(s, rs, t, bs, offset, modulo, i);
    Verdict(s, rs, t, bs, offset, modulo, i);
    CleanTransfer(tr.address, bs, tr.prev);
    assert tr.prev[..bs] == tr.prev;
    ReadAfterWrite(tr.s2, tr.address, tr.prev);
    assert StepFault(rs, t, 6, tr.address, tr.shadow, bs) == None;
  }

  /** The shadow block lies wholly below the probe block whenever the probe
      address is at least the modulus and the modulus at least one block, so
      the two blocks are disjoint addresses. */
  lemma ShadowBelowProbe(address: int, modulo: int, bs: nat)
    requires 0 < bs <= modulo <= address
    ensures 0 <= CRem(address, modulo) && CRem(address, modulo) + bs <= address
  {
    var q, r := address / modulo, address % modulo;
    assert address == modulo * q + r;
    if q < 1 {
      assert false;
    }
    MulAtLeast(modulo, q);
  }
}
