/** A run of several probes, one after another, stopping at the first fatal
    one (readbacktest calls exit(-1) on every fatal error).

    The run is stated for any semantics of a single probe, a `Prober`; the
    one `main` uses is `Probing`, which is `ProbeSpec` on every request the
    program can issue.  Keeping the single-probe semantics abstract here
    lets the facts about runs be proved without looking inside a probe. */
module Campaigns {
  import opened Media
  import opened Transport
  import opened Probe
  import opened ProbeFacts

  /** One call readbacktest(offset, modulo, i). */
  datatype Request = Request(offset: int, modulo: int, i: int)

  /** What one probe does to medium `s` from transaction `t` on. */
  type Prober = (seq<byte>, nat, Request) -> ProbeRun

  /** The state of a run: the outcome of the last probe issued (Pass before
      the first), the medium, the transactions used, the number of probes
      issued and every line printed. */
  datatype CampaignRun = CampaignRun(outcome: Outcome, cells: seq<byte>, used: nat, done: nat, log: seq<Line>)

  /** A run that has not issued any probe yet, on medium `s`. */
  function Start(s: seq<byte>): CampaignRun {
    CampaignRun(Pass, s, 0, 0, [])
  }

  /** The run `acc`, begun at transaction `t`, after it issues request `r`. */
  function Advance(probe: Prober, t: nat, acc: CampaignRun, r: Request): (a: CampaignRun)
    ensures a.done == acc.done + 1 && a.used >= acc.used
  {
    var run := probe(acc.cells, t + acc.used, r);
    CampaignRun(run.outcome, run.cells, acc.used + run.used, acc.done + 1, acc.log + run.log)
  }

  /** The run `acc`, begun at transaction `t`, continued with the requests
      `reqs[k..]` one after another until one is fatal. */
  function RunFrom(probe: Prober, t: nat, acc: CampaignRun, reqs: seq<Request>, k: nat): (c: CampaignRun)
    requires k <= |reqs|
    ensures acc.done <= c.done <= acc.done + (|reqs| - k)
    decreases |reqs| - k
  {
    if k == |reqs| || acc.outcome.Abort? then acc
    else RunFrom(probe, t, Advance(probe, t, acc, reqs[k]), reqs, k + 1)
  }

  /** The requests `reqs[k..]` issued one after another on medium `s` from
      transaction `t` on, stopping at the first that is fatal. */
  function Campaign(probe: Prober, s: seq<byte>, t: nat, reqs: seq<Request>, k: nat): CampaignRun
    requires k <= |reqs|
  {
    RunFrom(probe, t, Start(s), reqs, k)
  }

  /** A run ends either with every request issued and passed, or with a
      fatal probe after which no further request is issued; what was printed
      and used before is kept. */
  lemma {:induction false} RunStops(probe: Prober, t: nat, acc: CampaignRun, reqs: seq<Request>, k: nat)
    requires k <= |reqs| && acc.outcome == Pass
    ensures var c := RunFrom(probe, t, acc, reqs, k);
      (c.outcome == Pass ==> c.done == acc.done + (|reqs| - k)) &&
      (c.done < acc.done + (|reqs| - k) ==> c.outcome.Abort?) &&
      (c.outcome.Abort? ==> c.done > acc.done) &&
      c.used >= acc.used && acc.log <= c.log
    decreases |reqs| - k
  {
    if k < |reqs| {
      var a := Advance(probe, t, acc, reqs[k]);
      if a.outcome.Abort? {
        assert RunFrom(probe, t, a, reqs, k + 1) == a;
      } else {
        RunStops(probe, t, a, reqs, k + 1);
      }
    }
  }

  /** A run stops at its first fatal probe: once it has ended with an
      abort, any further requests make no difference to it. */
  lemma {:induction false} NothingAfterAbort(probe: Prober, t: nat, acc: CampaignRun, reqs: seq<Request>,
                                             more: seq<Request>, k: nat)
    requires k <= |reqs| && RunFrom(probe, t, acc, reqs, k).outcome.Abort?
    ensures RunFrom(probe, t, acc, reqs + more, k) == RunFrom(probe, t, acc, reqs, k)
    decreases |reqs| - k
  {
    if k < |reqs| && !acc.outcome.Abort? {
      assert (reqs + more)[k] == reqs[k];
      NothingAfterAbort(probe, t, Advance(probe, t, acc, reqs[k]), reqs, more, k + 1);
    }
  }

  /** The semantics readbacktest gives a request on a device answering `rs`
      with sector size `bs`.  Every request the program issues meets the
      precondition of `ProbeSpec`; on any other the probe does nothing. */
  function Probing(rs: nat -> Reply, bs: nat): Prober {
    (s: seq<byte>, t: nat, r: Request) =>
      if 0 < bs <= |s| && r.modulo > 0 then ProbeSpec(s, rs, t, bs, r.offset, r.modulo, r.i)
      else ProbeRun(Pass, s, 0, [])
  }

  /** `probe` is readbacktest on a device answering `rs` with sector size
      `bs`, on every request the program can issue. */
  ghost predicate Realizes(probe: Prober, rs: nat -> Reply, bs: nat) {
    forall s: seq<byte>, t: nat, o: int, m: int, i: int {:trigger ProbeSpec(s, rs, t, bs, o, m, i)} ::
      0 < bs <= |s| && m > 0 ==> probe(s, t, Request(o, m, i)) == ProbeSpec(s, rs, t, bs, o, m, i)
  }

  lemma ProbingRealizes(rs: nat -> Reply, bs: nat)
    ensures Realizes(Probing(rs, bs), rs, bs)
  {
  }

  /** Issue request `r` on `dev` as the next probe of the run `acc` begun at
      transaction `t0`: the device and the lines printed advance exactly as
      `Advance` says. */
  method Issue(dev: Device, r: Request, ghost probe: Prober, ghost t0: nat, ghost acc: CampaignRun)
    returns (outcome: Outcome, log1: seq<Line>)
    requires dev.Valid() && r.modulo > 0 && Realizes(probe, dev.replies, dev.blocksize)
    requires acc.cells == dev.cells[..] && dev.transactions == t0 + acc.used
    modifies dev`transactions, dev.cells
    ensures dev.Valid() && dev.transactions >= old(dev.transactions)
    ensures Advance(probe, t0, acc, r) ==
      CampaignRun(outcome, dev.cells[..], dev.transactions - t0, acc.done + 1, acc.log + log1)
  {
    ghost var run := ProbeSpec(dev.cells[..], dev.replies, dev.transactions, dev.blocksize, r.offset, r.modulo, r.i);
    AdvanceRealized(probe, dev.replies, dev.blocksize, t0, acc, r, run);
    outcome, log1 := ReadbackTest(dev, r.offset, r.modulo, r.i);
  }

  /** Under `Realizes`, advancing a run by a request is a probe as
      `ProbeSpec` states it. */
  lemma AdvanceRealized(probe: Prober, rs: nat -> Reply, bs: nat, t0: nat, acc: CampaignRun, r: Request, run: ProbeRun)
    requires Realizes(probe, rs, bs) && 0 < bs <= |acc.cells| && r.modulo > 0
    requires run == ProbeSpec(acc.cells, rs, t0 + acc.used, bs, r.offset, r.modulo, r.i)
    ensures Advance(probe, t0, acc, r) == CampaignRun(run.outcome, run.cells, acc.used + run.used, acc.done + 1, acc.log + run.log)
  {
    assert r == Request(r.offset, r.modulo, r.i);
  }

  /** A probe on healthy hardware passes, leaves the medium as it was and
      uses six transactions. */
  lemma CleanProbing(probe: Prober, rs: nat -> Reply, bs: nat, s: seq<byte>, t: nat, r: Request)
    requires Realizes(probe, rs, bs)
    requires 0 < bs <= |s| && r.offset >= bs && r.modulo > 0
    requires forall n :: t <= n ==> rs(n) == Clean
    ensures probe(s, t, r) == ProbeRun(Pass, s, 6, [])
  {
    CleanProbePasses(s, rs, t, bs, r.offset, r.modulo, r.i);
    assert r == Request(r.offset, r.modulo, r.i);
  }

  /** When every probe, issued in turn on the unchanged medium, passes, the
      run issues every request, prints nothing more, uses six transactions
      per request and leaves the medium exactly as it was. */
  lemma {:induction false} CleanRunFrom(probe: Prober, t: nat, acc: CampaignRun, reqs: seq<Request>, k: nat)
    requires k <= |reqs| && acc.outcome == Pass
    requires forall j :: k <= j < |reqs| ==>
      probe(acc.cells, t + acc.used + 6 * (j - k), reqs[j]) == ProbeRun(Pass, acc.cells, 6, [])
    ensures RunFrom(probe, t, acc, reqs, k) ==
      CampaignRun(Pass, acc.cells, acc.used + 6 * (|reqs| - k), acc.done + (|reqs| - k), acc.log)
    decreases |reqs| - k
  {
    if k < |reqs| {
      assert probe(acc.cells, t + acc.used + 6 * (k - k), reqs[k]) == ProbeRun(Pass, acc.cells, 6, []);
      var a := Advance(probe, t, acc, reqs[k]);
      assert acc.log + [] == acc.log;
      assert a == CampaignRun(Pass, acc.cells, acc.used + 6, acc.done + 1, acc.log);
      forall j | k + 1 <= j < |reqs|
        ensures probe(a.cells, t + a.used + 6 * (j - (k + 1)), reqs[j]) == ProbeRun(Pass, a.cells, 6, [])
      {
        assert t + a.used + 6 * (j - (k + 1)) == t + acc.used + 6 * (j - k);
      }
      CleanRunFrom(probe, t, a, reqs, k + 1);
    }
  }
}
