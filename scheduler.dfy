/** The probing schedule of `main`: phase 1 probes at 1 MiB and every
    doubling of it that the reported size still holds, each with half its
    offset as the aliasing modulus; phase 2 then bisects towards the reported
    size with the modulus fixed at the last phase-1 offset, until the
    remaining gap is at most 1 MiB.  The first fatal probe ends the run. */
module Scheduler {
  import opened Media
  import opened Transport
  import opened Probe
  import opened ProbeFacts
  import opened Campaigns

  const MiB: int := 1024 * 1024

  /** `totalsize` is an `unsigned long long`, so `totalsize - offset` is
      taken modulo 2^64. */
  const Two64: int := 0x1_0000_0000_0000_0000

  /** Largest reported size for which the doubling loop cannot overflow. */
  const Two62: int := 0x4000_0000_0000_0000

  function Pow2(k: nat): (p: int)
    ensures p >= 1
  {
    if k == 0 then 1 else 2 * Pow2(k - 1)
  }

  lemma {:induction false} Pow2Grows(j: nat, k: nat)
    requires j <= k
    ensures Pow2(j) <= Pow2(k)
    decreases k
  {
    if j < k {
      Pow2Grows(j, k - 1);
    }
  }

  /** The `k`-th phase-1 offset: 1 MiB doubled `k` times. */
  function Doubling(k: nat): (o: int)
    ensures o >= MiB
  {
    MiB * Pow2(k)
  }

  /** The phase-1 probes from the `k`-th doubling on. */
  function Phase1(total: int, k: nat): seq<Request>
    decreases if Doubling(k) <= total then total - Doubling(k) + 1 else 0
  {
    if Doubling(k) <= total then [Request(Doubling(k), Doubling(k) / 2, k)] + Phase1(total, k + 1)
    else []
  }

  /** `totalsize - offset` as the unsigned 64-bit subtraction computes it. */
  function Gap(total: int, offset: int): int {
    (total - offset) % Two64
  }

  /** The phase-2 probes after the one at `offset` numbered `i`. */
  function Bisect(total: int, offset: int, modulo: int, i: int): seq<Request>
    requires 0 <= offset && 0 <= total
    decreases if offset <= total then total - offset else offset - total
  {
    if Gap(total, offset) > MiB then
      var next := (offset + total) / 2;
      [Request(next, modulo, i + 1)] + Bisect(total, next, modulo, i + 1)
    else []
  }

  /** Every probe the program issues for reported size `total`, in order.
      After phase 1 the sequence number is the number of phase-1 probes and
      the offset is the first doubling that no longer fits; phase 2 steps
      back to the last one that fit. */
  function Schedule(total: int): seq<Request>
    requires 0 <= total
  {
    var k := |Phase1(total, 0)|;
    var last := Doubling(k);
    Phase1(total, 0) + (if last != total then Bisect(total, last / 2, last / 2, k) else [])
  }

  /** Phase 1 from doubling `k`: entry `j` probes at doubling k + j, with
      half that as modulus and k + j as sequence number, and there is an
      entry exactly for each doubling from `k` on that fits in the reported
      size. */
  lemma {:induction false} Phase1From(total: int, k: nat)
    ensures var p := Phase1(total, k);
      forall j :: 0 <= j < |p| ==> p[j] == Request(Doubling(k + j), Doubling(k + j) / 2, k + j)
    ensures var p := Phase1(total, k);
      forall m: nat :: k <= m ==> (m < k + |p| <==> Doubling(m) <= total)
    decreases if Doubling(k) <= total then total - Doubling(k) + 1 else 0
  {
    var p := Phase1(total, k);
    if Doubling(k) <= total {
      Phase1From(total, k + 1);
      var q := Phase1(total, k + 1);
      assert p == [Request(Doubling(k), Doubling(k) / 2, k)] + q;
      forall j | 0 < j < |p|
        ensures p[j] == Request(Doubling(k + j), Doubling(k + j) / 2, k + j)
      {
        assert p[j] == q[j - 1];
        assert q[j - 1] == Request(Doubling(k + 1 + (j - 1)), Doubling(k + 1 + (j - 1)) / 2, k + 1 + (j - 1));
      }
    } else {
      forall m: nat | k <= m ensures !(Doubling(m) <= total) {
        Pow2Grows(k, m);
      }
    }
  }

  /** Phase 1 probes at 1 MiB, 2 MiB, 4 MiB, ..., the `k`-th at doubling `k`
      with modulus half of that and sequence number `k`, for exactly the `k`
      whose doubling is at most the reported size. */
  lemma Phase1Probes(total: int)
    ensures var p := Phase1(total, 0);
      forall k :: 0 <= k < |p| ==> p[k] == Request(Doubling(k), Doubling(k) / 2, k)
    ensures forall k: nat :: k < |Phase1(total, 0)| <==> Doubling(k) <= total
  {
    Phase1From(total, 0);
    var p := Phase1(total, 0);
    forall k | 0 <= k < |p| ensures p[k] == Request(Doubling(k), Doubling(k) / 2, k) {
      assert p[k] == Request(Doubling(0 + k), Doubling(0 + k) / 2, 0 + k);
    }
  }

  /** The offset the last phase-2 probe reached (`offset` when there was none). */
  function Last(offset: int, b: seq<Request>): int {
    if b == [] then offset else b[|b| - 1].offset
  }

  /** One phase-2 step below the reported size: the midpoint lies at least
      half a MiB above the offset and never above the reported size, and
      the remaining gap shrinks to its ceiling half. */
  lemma BisectStep(total: int, offset: int)
    requires 0 <= offset <= total < Two64 && Gap(total, offset) > MiB
    ensures total - offset > MiB
    ensures var next := (offset + total) / 2;
      offset + MiB / 2 <= next <= total && total - next == (total - offset + 1) / 2
  {
  }

  /** Phase 2 below the reported size: every probe keeps the modulus, takes
      the next sequence number and stays at or below the reported size. */
  lemma {:induction false} BisectShape(total: int, offset: int, modulo: int, i: int)
    requires 0 <= offset <= total < Two64
    ensures forall j :: 0 <= j < |Bisect(total, offset, modulo, i)| ==>
      Bisect(total, offset, modulo, i)[j] == Request(Bisect(total, offset, modulo, i)[j].offset, modulo, i + 1 + j) &&
      Bisect(total, offset, modulo, i)[j].offset <= total
    decreases total - offset
  {
    if Gap(total, offset) > MiB {
      BisectStep(total, offset);
      var next := (offset + total) / 2;
      BisectShape(total, next, modulo, i + 1);
      var b := Bisect(total, offset, modulo, i);
      var c := Bisect(total, next, modulo, i + 1);
      assert b == [Request(next, modulo, i + 1)] + c;
      forall j | 0 < j < |b| ensures b[j] == Request(b[j].offset, modulo, i + 1 + j) && b[j].offset <= total {
        assert b[j] == c[j - 1];
      }
    }
  }

  /** Each phase-2 offset is the midpoint of the one before (the starting
      offset for the first) and the reported size. */
  lemma {:induction false} BisectMidpoints(total: int, offset: int, modulo: int, i: int)
    requires 0 <= offset <= total < Two64
    ensures |Bisect(total, offset, modulo, i)| > 0 ==>
      Bisect(total, offset, modulo, i)[0].offset == (offset + total) / 2
    ensures forall j :: 0 < j < |Bisect(total, offset, modulo, i)| ==>
      Bisect(total, offset, modulo, i)[j].offset == (Bisect(total, offset, modulo, i)[j - 1].offset + total) / 2
    decreases total - offset
  {
    if Gap(total, offset) > MiB {
      BisectStep(total, offset);
      var next := (offset + total) / 2;
      BisectMidpoints(total, next, modulo, i + 1);
      var b := Bisect(total, offset, modulo, i);
      var c := Bisect(total, next, modulo, i + 1);
      assert b == [Request(next, modulo, i + 1)] + c;
      forall j | 0 < j < |b| ensures b[j].offset == (b[j - 1].offset + total) / 2 {
        assert b[j] == c[j - 1];
        if j > 1 {
          assert b[j - 1] == c[j - 2];
        }
      }
    }
  }

  /** Phase 2 issues a probe exactly when the gap exceeds 1 MiB, and ends
      with the last offset probed within 1 MiB of the reported size. */
  lemma {:induction false} BisectEnds(total: int, offset: int, modulo: int, i: int)
    requires 0 <= offset <= total < Two64
    ensures Bisect(total, offset, modulo, i) == [] <==> total - offset <= MiB
    ensures 0 <= total - Last(offset, Bisect(total, offset, modulo, i)) <= MiB
    decreases total - offset
  {
    assert Gap(total, offset) == total - offset;
    if Gap(total, offset) > MiB {
      BisectStep(total, offset);
      var next := (offset + total) / 2;
      BisectEnds(total, next, modulo, i + 1);
      var b := Bisect(total, offset, modulo, i);
      var c := Bisect(total, next, modulo, i + 1);
      assert b == [Request(next, modulo, i + 1)] + c;
      if c != [] {
        assert Last(offset, b) == Last(next, c);
      }
    }
  }

  /** Phase 2 within a gap of 1 MiB times 2^n issues at most n probes. */
  lemma {:induction false} BisectLength(total: int, offset: int, modulo: int, i: int, n: nat)
    requires 0 <= offset <= total < Two64 && total - offset <= Doubling(n)
    ensures |Bisect(total, offset, modulo, i)| <= n
    decreases n
  {
    assert Gap(total, offset) == total - offset;
    if total - offset > MiB {
      assert n > 0;
      var next := (offset + total) / 2;
      assert total - next <= Doubling(n - 1);
      BisectLength(total, next, modulo, i + 1, n - 1);
    }
  }

  /** For a 2 MiB device the program probes at 1 MiB and at 2 MiB and nowhere
      else. */
  lemma TwoMiBSchedule()
    ensures Schedule(2 * MiB) == [Request(MiB, MiB / 2, 0), Request(2 * MiB, MiB, 1)]
  {
    assert Doubling(0) == MiB && Doubling(1) == 2 * MiB && Doubling(2) == 4 * MiB;
    assert Phase1(2 * MiB, 2) == [];
    assert Phase1(2 * MiB, 1) == [Request(2 * MiB, MiB, 1)];
    assert Phase1(2 * MiB, 0) == [Request(MiB, MiB / 2, 0), Request(2 * MiB, MiB, 1)];
    assert Gap(2 * MiB, 2 * MiB) == 0;
  }

  /** Below 512 KiB the unsigned subtraction in the phase-2 test wraps, so
      a device that small is probed, starting between its end and 512 KiB
      with modulus 512 KiB and sequence number 1, below the 1 MiB floor. */
  lemma SmallDeviceWraps(total: int)
    requires 0 <= total < MiB / 2
    ensures var sched := Schedule(total);
      sched != [] && sched[0] == Request((MiB / 2 + total) / 2, MiB / 2, 1) &&
      total <= sched[0].offset < MiB / 2
  {
    assert Phase1(total, 0) == [];
    assert Gap(total, MiB / 2) == Two64 + total - MiB / 2;
  }

  /** When phase 1 stops after `k` probes, the reported size lies between
      the last offset probed and its double. */
  lemma Phase1Stops(total: int)
    requires MiB <= total
    ensures var k := |Phase1(total, 0)|;
      k >= 1 && Doubling(k) / 2 == Doubling(k - 1) <= total < Doubling(k)
  {
    Phase1Probes(total);
    var k := |Phase1(total, 0)|;
    assert Doubling(0) <= total;
    assert k >= 1;
    assert Doubling(k - 1) <= total && !(Doubling(k) <= total);
    assert Doubling(k) == 2 * Doubling(k - 1) by {
      assert Pow2(k) == 2 * Pow2(k - 1);
    }
  }

  /** After phase 1 the offset lies beyond the reported size, so the test
      `offset != totalsize` that guards phase 2 always holds. */
  lemma Phase1Overshoots(total: int)
    ensures total < Doubling(|Phase1(total, 0)|)
  {
    Phase1Probes(total);
  }

  /** A reported size of 512 KiB times a power of two is probed at exactly
      the doublings that fit: phase 2 starts on the size itself, with a gap
      of zero, and issues nothing. */
  lemma PowerOfTwoStops(n: nat, total: int)
    requires total == MiB / 2 * Pow2(n)
    ensures Schedule(total) == Phase1(total, 0) && |Schedule(total)| == n
  {
    if n > 0 {
      assert Pow2(n) == 2 * Pow2(n - 1);
    }
    Phase1Exact(n, total);
    assert Gap(total, total) == 0;
  }

  /** Phase 1 probes `n` times when the `n`-th doubling is twice the size and
      the one before it, if any, is the size itself. */
  lemma Phase1Exact(n: nat, total: int)
    requires Doubling(n) == 2 * total && total > 0 && (n > 0 ==> Doubling(n - 1) == total)
    ensures |Phase1(total, 0)| == n
  {
    Phase1Probes(total);
  }

  /** Every probe of a schedule for a device of at least 512 KiB: its
      modulus is at least 512 KiB, its offset at most the reported size,
      and its probe address (one block below the offset) at least the
      modulus, so the shadow block lies below and apart from the probe
      block. */
  lemma ScheduleGeometry(total: int)
    requires MiB / 2 <= total < Two62
    ensures var sched := Schedule(total);
      forall j :: 0 <= j < |sched| ==>
        sched[j].modulo >= MiB / 2 && sched[j].offset <= total && sched[j].offset - MaxBlockSize >= sched[j].modulo
  {
    var sched := Schedule(total);
    var p := Phase1(total, 0);
    var k := |p|;
    Phase1Geometry(total);
    var last := Doubling(k);
    if last != total {
      var P := last / 2;
      if total < MiB {
        Phase1Probes(total);
        assert k == 0 by { assert !(Doubling(0) <= total); }
        assert P == MiB / 2;
      } else {
        Phase1Stops(total);
      }
      var b := Bisect(total, P, P, k);
      Phase2Geometry(total, P, k);
      assert sched == p + b;
      forall j | k <= j < |sched|
        ensures sched[j].modulo >= MiB / 2 && sched[j].offset <= total && sched[j].offset - MaxBlockSize >= sched[j].modulo
      {
        assert sched[j] == b[j - k];
      }
    } else {
      assert sched == p;
    }
  }

  /** For every probe of such a schedule and every sector size the buffers
      hold, the shadow block `[address % modulo, + blocksize)` lies wholly
      below the probe block `[address, + blocksize)`, with `address` one
      block below the offset: the two blocks are disjoint. */
  lemma ScheduleDisjoint(total: int, bs: nat)
    requires MiB / 2 <= total < Two62 && 0 < bs <= MaxBlockSize
    ensures var sched := Schedule(total);
      forall j :: 0 <= j < |sched| ==>
        sched[j].modulo > 0 && 0 <= CRem(sched[j].offset - bs, sched[j].modulo) &&
        CRem(sched[j].offset - bs, sched[j].modulo) + bs <= sched[j].offset - bs
  {
    var sched := Schedule(total);
    ScheduleGeometry(total);
    forall j | 0 <= j < |sched|
      ensures sched[j].modulo > 0 && 0 <= CRem(sched[j].offset - bs, sched[j].modulo) &&
        CRem(sched[j].offset - bs, sched[j].modulo) + bs <= sched[j].offset - bs
    {
      ShadowBelowProbe(sched[j].offset - bs, sched[j].modulo, bs);
    }
  }

  lemma Phase1Geometry(total: int)
    ensures forall j :: 0 <= j < |Phase1(total, 0)| ==>
      Phase1(total, 0)[j].modulo >= MiB / 2 && Phase1(total, 0)[j].offset <= total &&
      Phase1(total, 0)[j].offset - MaxBlockSize >= Phase1(total, 0)[j].modulo
  {
    var p := Phase1(total, 0);
    Phase1Probes(total);
    forall j | 0 <= j < |p|
      ensures p[j].modulo >= MiB / 2 && p[j].offset <= total && p[j].offset - MaxBlockSize >= p[j].modulo
    {
      assert p[j] == Request(Doubling(j), Doubling(j) / 2, j);
    }
  }

  lemma Phase2Geometry(total: int, start: int, k: int)
    requires MiB / 2 <= start <= total < Two64
    ensures forall j :: 0 <= j < |Bisect(total, start, start, k)| ==>
      Bisect(total, start, start, k)[j].modulo >= MiB / 2 && Bisect(total, start, start, k)[j].offset <= total &&
      Bisect(total, start, start, k)[j].offset - MaxBlockSize >= Bisect(total, start, start, k)[j].modulo
  {
    BisectShape(total, start, start, k);
    BisectAbove(total, start, start, k);
  }

  /** Phase-2 offsets lie at least half a MiB above where phase 2 started. */
  lemma {:induction false} BisectAbove(total: int, offset: int, modulo: int, i: int)
    requires 0 <= offset <= total < Two64
    ensures forall j :: 0 <= j < |Bisect(total, offset, modulo, i)| ==> Bisect(total, offset, modulo, i)[j].offset >= offset + MiB / 2
    decreases total - offset
  {
    if Gap(total, offset) > MiB {
      BisectStep(total, offset);
      var next := (offset + total) / 2;
      BisectAbove(total, next, modulo, i + 1);
      var b := Bisect(total, offset, modulo, i);
      var c := Bisect(total, next, modulo, i + 1);
      assert b == [Request(next, modulo, i + 1)] + c;
      forall j | 0 < j < |b| ensures b[j].offset >= offset + MiB / 2 {
        assert b[j] == c[j - 1];
        assert c[j - 1].offset >= next + MiB / 2;
      }
    }
  }

  /** Phase-2 offsets strictly increase: each lies at least half a MiB
      above the one before. */
  lemma {:induction false} BisectIncreases(total: int, offset: int, modulo: int, i: int)
    requires 0 <= offset <= total < Two64
    ensures forall j :: 0 < j < |Bisect(total, offset, modulo, i)| ==>
      Bisect(total, offset, modulo, i)[j - 1].offset + MiB / 2 <= Bisect(total, offset, modulo, i)[j].offset
    decreases total - offset
  {
    if Gap(total, offset) > MiB {
      BisectStep(total, offset);
      var next := (offset + total) / 2;
      BisectIncreases(total, next, modulo, i + 1);
      BisectAbove(total, next, modulo, i + 1);
      var b := Bisect(total, offset, modulo, i);
      var c := Bisect(total, next, modulo, i + 1);
      assert b == [Request(next, modulo, i + 1)] + c;
      forall j | 0 < j < |b| ensures b[j - 1].offset + MiB / 2 <= b[j].offset {
        assert b[j] == c[j - 1];
        if j > 1 {
          assert b[j - 1] == c[j - 2];
        }
      }
    }
  }

  /** A device reporting less than 1 MiB times 2^n is probed at most 2n - 1
      times: n doublings at most, and fewer bisection steps than that. */
  lemma ScheduleLength(total: int, n: nat)
    requires MiB <= total < Doubling(n) && total < Two62
    ensures |Schedule(total)| <= 2 * n - 1
  {
    Phase1Probes(total);
    Phase1Stops(total);
    var k := |Phase1(total, 0)|;
    assert k <= n;
    var last := Doubling(k);
    if last != total {
      BisectLength(total, last / 2, last / 2, k, k - 1);
    }
  }

  /** On healthy hardware reporting at least 512 KiB the program exits with
      status 0 after issuing its whole schedule, printing no diagnostic and
      leaving the medium as it was, whatever its physical size, provided it
      holds at least 4096 cells. */
  lemma CleanRun(probe: Prober, rs: nat -> Reply, bs: nat, s: seq<byte>, t: nat, total: int)
    requires Realizes(probe, rs, bs)
    requires 0 < bs <= MaxBlockSize <= |s| && MiB / 2 <= total < Two62
    requires forall n :: t <= n ==> rs(n) == Clean
    ensures Campaign(probe, s, t, Schedule(total), 0) ==
            CampaignRun(Pass, s, 6 * |Schedule(total)|, |Schedule(total)|, [])
  {
    var sched := Schedule(total);
    ScheduleGeometry(total);
    forall j | 0 <= j < |sched|
      ensures probe(Start(s).cells, t + Start(s).used + 6 * (j - 0), sched[j]) == ProbeRun(Pass, Start(s).cells, 6, [])
    {
      CleanProbing(probe, rs, bs, s, t + 6 * j, sched[j]);
    }
    CleanRunFrom(probe, t, Start(s), sched, 0);
  }

  /** The exit status: 0 when the run ends normally, -1 after a fatal error. */
  function ExitStatus(o: Outcome): int {
    if o.Pass? then 0 else -1
  }

  /** The probing loops of `main` on device `dev` reporting `totalsize`
      bytes.  Their whole effect is the run of `Schedule(totalsize)`. */
  method Run(dev: Device, totalsize: int, ghost probe: Prober) returns (status: int, outcome: Outcome, log: seq<Line>)
    requires dev.Valid() && 0 <= totalsize < Two62 && Realizes(probe, dev.replies, dev.blocksize)
    modifies dev`transactions, dev.cells
    ensures var c := Campaign(probe, old(dev.cells[..]), old(dev.transactions), Schedule(totalsize), 0);
      outcome == c.outcome && log == c.log && dev.cells[..] == c.cells &&
      dev.transactions == old(dev.transactions) + c.used
    ensures status == ExitStatus(outcome)
  {
    ghost var sched := Schedule(totalsize);
    ghost var k := |Phase1(totalsize, 0)|;
    ghost var t0 := dev.transactions;
    var offset, i;
    outcome, log, offset, i := Doublings(dev, totalsize, probe);
    if outcome.Abort? {
      return -1, outcome, log;
    }
    if offset != totalsize {
      // totalsize is not a power of two: walk up halving the distance to it
      offset := offset / 2;
      var modulo := offset;
      assert sched[k..] == Bisect(totalsize, offset, modulo, i);
      outcome, log := Bisection(dev, totalsize, offset, modulo, i, log, probe, sched, t0, k);
    } else {
      assert k == |sched|;
    }
    status := ExitStatus(outcome);
  }

  /** Phase 1 of `main`: probe at 1 MiB and double while the reported size
      holds the offset.  A fatal probe ends the run; otherwise `offset` is
      the first doubling past the reported size, `i` the number of probes
      issued, and the rest of the run is that of the rest of the schedule. */
  method Doublings(dev: Device, totalsize: int, ghost probe: Prober)
    returns (outcome: Outcome, log: seq<Line>, offset: int, i: nat)
    requires dev.Valid() && 0 <= totalsize < Two62 && Realizes(probe, dev.replies, dev.blocksize)
    modifies dev`transactions, dev.cells
    ensures dev.Valid() && dev.transactions >= old(dev.transactions)
    ensures var c := Campaign(probe, old(dev.cells[..]), old(dev.transactions), Schedule(totalsize), 0);
      outcome.Abort? ==>
        outcome == c.outcome && log == c.log && dev.cells[..] == c.cells &&
        dev.transactions == old(dev.transactions) + c.used
    ensures var k := |Phase1(totalsize, 0)|;
      outcome.Pass? ==>
        i == k && offset == Doubling(k) && k <= |Schedule(totalsize)| &&
        Campaign(probe, old(dev.cells[..]), old(dev.transactions), Schedule(totalsize), 0) ==
        RunFrom(probe, old(dev.transactions),
                CampaignRun(Pass, dev.cells[..], dev.transactions - old(dev.transactions), k, log), Schedule(totalsize), k)
  {
    ghost var s, t0, P := dev.cells[..], dev.transactions, probe;
    ghost var sched := Schedule(totalsize);
    ghost var p := Phase1(totalsize, 0);
    ghost var k := |p|;
    assert sched[..k] == p;
    ghost var whole := Campaign(P, s, t0, sched, 0);
    log := [];
    offset := MiB;  // start at 1 MiB
    i := 0;
    while offset <= totalsize
      invariant dev.Valid() && dev.transactions >= t0 && 0 <= i <= k
      invariant offset == Doubling(i) && p[i..] == Phase1(totalsize, i)
      invariant whole == RunFrom(P, t0, CampaignRun(Pass, dev.cells[..], dev.transactions - t0, i, log), sched, i)
      decreases totalsize - offset
    {
      ghost var acc := CampaignRun(Pass, dev.cells[..], dev.transactions - t0, i, log);
      var outcome1, log1 := DoublingRound(dev, totalsize, offset, i, P, sched, p, t0, acc);
      if outcome1.Abort? {
        return outcome1, log + log1, offset, i;
      }
      log := log + log1;
      offset := offset * 2;  // at most 2 * totalsize < 2^63: the off_t does not overflow
      i := i + 1;
    }
    assert i == k by {
      assert Phase1(totalsize, i) == [];
    }
    outcome := Pass;
  }

  /** One phase-1 step, as the loop sees it: while the doubling fits, the
      next request probes there and the rest of phase 1 starts at the next
      doubling, which is twice this one. */
  lemma Phase1Next(total: int, p: seq<Request>, i: nat)
    requires i <= |p| && p[i..] == Phase1(total, i) && Doubling(i) <= total
    ensures i < |p| && p[i] == Request(Doubling(i), Doubling(i) / 2, i)
    ensures p[i + 1..] == Phase1(total, i + 1) && Doubling(i + 1) == 2 * Doubling(i)
  {
    assert p[i..] == [Request(Doubling(i), Doubling(i) / 2, i)] + Phase1(total, i + 1);
    assert p[i] == p[i..][0];
    assert p[i + 1..] == p[i..][1..];
  }

  /** One round of phase 1: probe at the current doubling, with half of it
      as the modulus, as the next request of the schedule. */
  method DoublingRound(dev: Device, totalsize: int, offset: int, i: nat,
                       ghost probe: Prober, ghost sched: seq<Request>, ghost p: seq<Request>, ghost t0: nat, ghost acc: CampaignRun)
    returns (outcome: Outcome, log1: seq<Line>)
    requires dev.Valid() && Realizes(probe, dev.replies, dev.blocksize)
    requires i <= |p| <= |sched| && sched[..|p|] == p && p[i..] == Phase1(totalsize, i) && offset == Doubling(i) <= totalsize
    requires acc.cells == dev.cells[..] && dev.transactions == t0 + acc.used
    modifies dev`transactions, dev.cells
    ensures dev.Valid() && dev.transactions >= old(dev.transactions)
    ensures i < |p| && p[i + 1..] == Phase1(totalsize, i + 1) && Doubling(i + 1) == 2 * offset
    ensures Advance(probe, t0, acc, sched[i]) ==
      CampaignRun(outcome, dev.cells[..], dev.transactions - t0, acc.done + 1, acc.log + log1)
  {
    Phase1Next(totalsize, p, i);
    assert sched[i] == p[i];
    outcome, log1 := Issue(dev, Request(offset, offset / 2, i), probe, t0, acc);
  }

  /** Distance of `offset` from the reported size. */
  function Dist(total: int, offset: int): nat {
    if offset <= total then total - offset else offset - total
  }

  /** One phase-2 step, as the loop sees it: the next request is at the
      midpoint, the rest of the schedule is phase 2 from there, and the
      distance to the reported size shrinks. */
  lemma BisectNext(total: int, offset: int, modulo: int, i: int, sched: seq<Request>, done: nat)
    requires 0 <= offset && 0 <= total && done <= |sched| && sched[done..] == Bisect(total, offset, modulo, i)
    requires Gap(total, offset) > MiB
    ensures done < |sched| && sched[done] == Request((offset + total) / 2, modulo, i + 1)
    ensures sched[done + 1..] == Bisect(total, (offset + total) / 2, modulo, i + 1)
    ensures 0 <= (offset + total) / 2 && Dist(total, (offset + total) / 2) < Dist(total, offset)
  {
    var next := (offset + total) / 2;
    assert sched[done..] == [Request(next, modulo, i + 1)] + Bisect(total, next, modulo, i + 1);
    assert sched[done] == sched[done..][0];
    assert sched[done + 1..] == sched[done..][1..];
  }

  /** When the gap is at most 1 MiB phase 2 has no further request. */
  lemma BisectDone(total: int, offset: int, modulo: int, i: int, sched: seq<Request>, done: nat)
    requires 0 <= offset && 0 <= total && done <= |sched| && sched[done..] == Bisect(total, offset, modulo, i)
    requires Gap(total, offset) <= MiB
    ensures done == |sched|
  {
  }

  /** One round of phase 2: move half way to the reported size and probe
      there as the next request of the schedule. */
  method BisectRound(dev: Device, totalsize: int, offset: int, modulo: int, i: int,
                     ghost probe: Prober, ghost sched: seq<Request>, ghost t0: nat, ghost done: nat, ghost acc: CampaignRun)
    returns (outcome: Outcome, log1: seq<Line>, offset': int, i': int)
    requires dev.Valid() && 0 <= offset && 0 <= totalsize && modulo > 0 && Realizes(probe, dev.replies, dev.blocksize)
    requires done <= |sched| && sched[done..] == Bisect(totalsize, offset, modulo, i) && Gap(totalsize, offset) > MiB
    requires acc.cells == dev.cells[..] && dev.transactions == t0 + acc.used
    modifies dev`transactions, dev.cells
    ensures dev.Valid() && dev.transactions >= old(dev.transactions)
    ensures 0 <= offset' && Dist(totalsize, offset') < Dist(totalsize, offset)
    ensures done < |sched| && sched[done + 1..] == Bisect(totalsize, offset', modulo, i')
    ensures Advance(probe, t0, acc, sched[done]) ==
      CampaignRun(outcome, dev.cells[..], dev.transactions - t0, acc.done + 1, acc.log + log1)
  {
    BisectNext(totalsize, offset, modulo, i, sched, done);
    i' := i + 1;
    offset' := (offset + totalsize) / 2;
    outcome, log1 := Issue(dev, Request(offset', modulo, i'), probe, t0, acc);
  }

  /** Phase 2 of `main`: from `offset` move half way to the reported size and
      probe there, with the fixed modulus, until the unsigned gap is at most
      1 MiB.  Its probes are the schedule from entry `k0` on; `log0` holds the
      lines printed before, by the run begun at transaction `t0`. */
  method Bisection(dev: Device, totalsize: int, offset0: int, modulo: int, i0: int, log0: seq<Line>,
                   ghost probe: Prober, ghost sched: seq<Request>, ghost t0: nat, ghost k0: nat)
    returns (outcome: Outcome, log: seq<Line>)
    requires dev.Valid() && 0 <= offset0 && 0 <= totalsize && modulo > 0 && Realizes(probe, dev.replies, dev.blocksize)
    requires k0 <= |sched| && sched[k0..] == Bisect(totalsize, offset0, modulo, i0) && dev.transactions >= t0
    modifies dev`transactions, dev.cells
    ensures var c := RunFrom(probe, t0, CampaignRun(Pass, old(dev.cells[..]), old(dev.transactions) - t0, k0, log0), sched, k0);
      outcome == c.outcome && log == c.log && dev.cells[..] == c.cells && dev.transactions == t0 + c.used
  {
    ghost var P := probe;
    ghost var whole := RunFrom(P, t0, CampaignRun(Pass, dev.cells[..], dev.transactions - t0, k0, log0), sched, k0);
    ghost var done := k0;
    log := log0;
    var offset, i := offset0, i0;
    while Gap(totalsize, offset) > MiB  // the unsigned subtraction of the source
      invariant dev.Valid() && dev.transactions >= t0 && 0 <= offset && k0 <= done <= |sched|
      invariant sched[done..] == Bisect(totalsize, offset, modulo, i)
      invariant whole == RunFrom(P, t0, CampaignRun(Pass, dev.cells[..], dev.transactions - t0, done, log), sched, done)
      decreases Dist(totalsize, offset)
    {
      ghost var acc := CampaignRun(Pass, dev.cells[..], dev.transactions - t0, done, log);
      var outcome1, log1;
      outcome1, log1, offset, i := BisectRound(dev, totalsize, offset, modulo, i, P, sched, t0, done, acc);
      if outcome1.Abort? {
        return outcome1, log + log1;
      }
      log := log + log1;
      done := done + 1;
    }
    BisectDone(totalsize, offset, modulo, i, sched, done);
    outcome := Pass;
  }

  /** Every modulus the schedule uses is positive, so the shadow address
      readbacktest computes is always defined. */
  lemma SchedulePositive(total: int)
    requires 0 <= total
    ensures forall j :: 0 <= j < |Schedule(total)| ==> Schedule(total)[j].modulo > 0
  {
    var p := Phase1(total, 0);
    var k := |p|;
    Phase1Probes(total);
    var sched := Schedule(total);
    var last := Doubling(k);
    forall j | 0 <= j < |sched| ensures sched[j].modulo > 0 {
      if j < k {
        assert sched[j] == p[j];
      } else {
        BisectModulus(total, last / 2, last / 2, k);
        assert sched[j] == Bisect(total, last / 2, last / 2, k)[j - k];
      }
    }
  }

  /** Every phase-2 probe uses the modulus phase 2 started with. */
  lemma {:induction false} BisectModulus(total: int, offset: int, modulo: int, i: int)
    requires 0 <= offset && 0 <= total
    ensures forall j :: 0 <= j < |Bisect(total, offset, modulo, i)| ==> Bisect(total, offset, modulo, i)[j].modulo == modulo
    decreases if offset <= total then total - offset else offset - total
  {
    if Gap(total, offset) > MiB {
      var next := (offset + total) / 2;
      BisectModulus(total, next, modulo, i + 1);
      var b := Bisect(total, offset, modulo, i);
      var c := Bisect(total, next, modulo, i + 1);
      assert b == [Request(next, modulo, i + 1)] + c;
      forall j | 0 < j < |b| ensures b[j].modulo == modulo {
        assert b[j] == c[j - 1];
        assert c[j - 1].modulo == modulo;
      }
    }
  }
}
