/**
 Spanning allocation (`LpWriter::plan_spanning_allocation`): a request is served
 by one run if some device has a fit, and otherwise carved greedily, device by
 device, into the largest free runs.
 */
module Planner {
  import opened Alignment
  import opened Allocator
  import opened Base
  import opened Format

  /** One planned run: `length` sectors from `sector` on a device. */
  datatype Run = Run(device: u32, sector: u64, length: u64)

  function RunExtent(r: Run): Extent {
    Extent(r.length, TARGET_LINEAR, r.sector, r.device)
  }

  function RunExtents(plan: seq<Run>): (es: seq<Extent>)
    ensures |es| == |plan|
  {
    seq(|plan|, i requires 0 <= i < |plan| => RunExtent(plan[i]))
  }

  function TotalLength(plan: seq<Run>): nat {
    if plan == [] then 0 else TotalLength(plan[..|plan| - 1]) + plan[|plan| - 1].length
  }

  /** Every run fits next to the existing extents and all runs planned before it. */
  ghost predicate PlanFits(extents: seq<Extent>, devices: seq<BlockDevice>, plan: seq<Run>) {
    forall i :: 0 <= i < |plan| ==>
      && plan[i].length > 0 && plan[i].device < |devices|
      && IsFit(extents + RunExtents(plan[..i]), devices[plan[i].device], plan[i].device, plan[i].length, plan[i].sector)
  }

  // ------------------------------------------------- reachable sectors

  /** A run with the admissible start `s` has `t` as its last sector. */
  ghost predicate RunEndsAt(extents: seq<Extent>, d: BlockDevice, index: int, s: int, t: int) {
    s <= t && IsFit(extents, d, index, t + 1 - s, s)
  }

  ghost predicate Reached(extents: seq<Extent>, d: BlockDevice, index: int, t: int) {
    exists s :: RunEndsAt(extents, d, index, s, t)
  }

  /** All sectors some run with an admissible start can contain. */
  ghost function Reachable(extents: seq<Extent>, d: BlockDevice, index: int): set<int> {
    set t: int | 0 <= t < Limit(d) && Reached(extents, d, index, t)
  }

  ghost function CapacityFrom(extents: seq<Extent>, devices: seq<BlockDevice>, from: nat): nat
    decreases |devices| - from
  {
    if from >= |devices| then 0
    else |Reachable(extents, devices[from], from)| + CapacityFrom(extents, devices, from + 1)
  }

  /** Sectors the planner can use in total, over all devices. */
  ghost function Capacity(extents: seq<Extent>, devices: seq<BlockDevice>): nat {
    CapacityFrom(extents, devices, 0)
  }

  ghost predicate Within(lo: int, t: int, hi: int) {
    lo <= t < hi
  }

  ghost function Interval(lo: int, hi: int): set<int> {
    set t: int | lo <= t < hi && Within(lo, t, hi)
  }

  lemma {:induction false} IntervalSize(lo: int, hi: int)
    requires lo <= hi
    ensures |Interval(lo, hi)| == hi - lo
    decreases hi - lo
  {
    if lo == hi {
      assert Interval(lo, hi) == {};
    } else {
      IntervalSize(lo, hi - 1);
      assert Interval(lo, hi) == Interval(lo, hi - 1) + {hi - 1};
    }
  }

  /** `run` is the longest fit on the device, `s` the start of one. */
  ghost predicate IsLongest(extents: seq<Extent>, d: BlockDevice, index: int, run: int, s: int) {
    && run >= 1 && IsFit(extents, d, index, run, s)
    && !HasFit(extents, d, index, run + 1)
  }

  ghost predicate IsTaken(taken: Extent, index: int, run: int, s: int) {
    taken.targetType == TARGET_LINEAR && taken.targetSource == index && taken.targetData == s && taken.numSectors == run
  }

  lemma ReachedAfterTaking(extents: seq<Extent>, d: BlockDevice, index: int, run: int, s: int, taken: Extent, t: int)
    requires Limit(d) > 0 && IsLongest(extents, d, index, run, s) && IsTaken(taken, index, run, s)
    ensures Reached(extents + [taken], d, index, t) <==> Reached(extents, d, index, t) && !(s <= t < s + run)
  {
    if Reached(extents + [taken], d, index, t) {
      var u :| RunEndsAt(extents + [taken], d, index, u, t);
      FitWithout(extents, taken, d, index, t + 1 - u, u);
      assert RunEndsAt(extents, d, index, u, t);
    }
    if Reached(extents, d, index, t) && !(s <= t < s + run) {
      var u :| RunEndsAt(extents, d, index, u, t);
      RunsDoNotCross(extents, d, index, run, s, t + 1 - u, u);
      FitWith(extents, taken, d, index, t + 1 - u, u);
      assert RunEndsAt(extents + [taken], d, index, u, t);
    }
  }

  /** Taking a longest run removes exactly its sectors from the reachable set. */
  lemma TakeLongest(extents: seq<Extent>, d: BlockDevice, index: int, run: int, s: int, taken: Extent)
    requires Limit(d) > 0 && IsLongest(extents, d, index, run, s) && IsTaken(taken, index, run, s)
    ensures Interval(s, s + run) <= Reachable(extents, d, index)
    ensures Reachable(extents + [taken], d, index) == Reachable(extents, d, index) - Interval(s, s + run)
    ensures |Reachable(extents + [taken], d, index)| == |Reachable(extents, d, index)| - run
  {
    var before, after := Reachable(extents, d, index), Reachable(extents + [taken], d, index);
    FitWithinReachable(extents, d, index, run, s);
    forall t ensures t in after <==> t in before - Interval(s, s + run) {
      ReachedAfterTaking(extents, d, index, run, s, taken, t);
    }
    IntervalSize(s, s + run);
    assert before == after + Interval(s, s + run);
  }

  lemma FitWithinReachable(extents: seq<Extent>, d: BlockDevice, index: int, len: int, s: int)
    requires Limit(d) > 0 && IsFit(extents, d, index, len, s)
    ensures Interval(s, s + len) <= Reachable(extents, d, index)
  {
    forall t | t in Interval(s, s + len) ensures t in Reachable(extents, d, index) {
      ShorterFits(extents, d, index, len, t + 1 - s, s);
      assert RunEndsAt(extents, d, index, s, t);
    }
  }

  lemma FitWithout(extents: seq<Extent>, taken: Extent, d: BlockDevice, index: int, len: int, u: int)
    requires IsFit(extents + [taken], d, index, len, u) && len >= 1 && Limit(d) > 0
    ensures IsFit(extents, d, index, len, u)
    ensures OnDevice(taken, index) && End(taken) <= Limit(d) ==> u >= End(taken) || u + len <= taken.targetData
  {
    assert taken in extents + [taken];
    forall e | e in extents ensures e in extents + [taken] {}
  }

  lemma FitWith(extents: seq<Extent>, taken: Extent, d: BlockDevice, index: int, len: int, u: int)
    requires IsFit(extents, d, index, len, u)
    requires u >= End(taken) || u + len <= taken.targetData
    ensures IsFit(extents + [taken], d, index, len, u)
  {}

  /** A run that ends outside a longest run lies entirely outside it. */
  lemma RunsDoNotCross(extents: seq<Extent>, d: BlockDevice, index: int, run: int, s: int, len: int, u: int)
    requires Limit(d) > 0 && IsLongest(extents, d, index, run, s)
    requires len >= 1 && IsFit(extents, d, index, len, u)
    requires !(s <= u + len - 1 < s + run)
    ensures u >= s + run || u + len <= s
  {
    if u < s + run && u + len > s {
      // The other run covers sector `s + run`, so the longest run could be extended.
      assert u + len > s + run;
      forall e | e in extents && OnDevice(e, index)
        ensures !(s < Min(End(e), U64_MAX) && e.targetData < s + run + 1)
      {
        assert !(u < Min(End(e), U64_MAX) && e.targetData < u + len);
        assert !(s < Min(End(e), U64_MAX) && e.targetData < s + run);
      }
      assert IsFit(extents, d, index, run + 1, s);
    }
  }

  /** A run on one device leaves every other device's reachable set alone. */
  lemma OtherDevice(extents: seq<Extent>, d: BlockDevice, index: int, taken: Extent)
    requires !OnDevice(taken, index)
    ensures Reachable(extents + [taken], d, index) == Reachable(extents, d, index)
  {
    forall s, n {:trigger IsFit(extents, d, index, n, s)}
      ensures IsFit(extents + [taken], d, index, n, s) <==> IsFit(extents, d, index, n, s)
    {
      if IsFit(extents + [taken], d, index, n, s) {
        forall e | e in extents ensures e in extents + [taken] {}
      }
    }
    forall t ensures Reached(extents + [taken], d, index, t) <==> Reached(extents, d, index, t) {
      if Reached(extents, d, index, t) {
        var s :| RunEndsAt(extents, d, index, s, t);
        assert RunEndsAt(extents + [taken], d, index, s, t);
      }
      if Reached(extents + [taken], d, index, t) {
        var s :| RunEndsAt(extents + [taken], d, index, s, t);
        assert RunEndsAt(extents, d, index, s, t);
      }
    }
  }

  /** Taking a longest run lowers the total capacity by its length. */
  lemma {:induction false} CapacityAfter(extents: seq<Extent>, devices: seq<BlockDevice>, from: nat, index: nat,
                                         run: int, s: int, taken: Extent)
    requires index < |devices| && Limit(devices[index]) > 0
    requires IsLongest(extents, devices[index], index, run, s)
    requires IsTaken(taken, index, run, s)
    ensures CapacityFrom(extents + [taken], devices, from)
            == CapacityFrom(extents, devices, from) - (if from <= index then run else 0)
    decreases |devices| - from
  {
    if from < |devices| {
      CapacityAfter(extents, devices, from + 1, index, run, s, taken);
      if from == index {
        TakeLongest(extents, devices[index], index, run, s, taken);
      } else {
        OtherDevice(extents, devices[from], from, taken);
      }
    }
  }

  /** No fit on any device means no capacity. */
  lemma {:induction false} NoFitNoCapacity(extents: seq<Extent>, devices: seq<BlockDevice>, from: nat)
    requires forall k :: from <= k < |devices| ==> !HasFit(extents, devices[k], k, 1)
    ensures CapacityFrom(extents, devices, from) == 0
    decreases |devices| - from
  {
    if from < |devices| {
      NoFitNoCapacity(extents, devices, from + 1);
      forall t ensures !Reached(extents, devices[from], from, t) {
        if Reached(extents, devices[from], from, t) {
          var s :| RunEndsAt(extents, devices[from], from, s, t);
          ShorterFits(extents, devices[from], from, t + 1 - s, 1, s);
        }
      }
      assert Reachable(extents, devices[from], from) == {};
    }
  }

  /** A single fit is within the capacity. */
  lemma {:induction false} FitWithinCapacity(extents: seq<Extent>, devices: seq<BlockDevice>, from: nat, index: nat,
                                             len: int, s: int)
    requires from <= index < |devices| && Limit(devices[index]) > 0
    requires len >= 1 && IsFit(extents, devices[index], index, len, s)
    ensures len <= CapacityFrom(extents, devices, from)
    decreases index - from
  {
    if from == index {
      FitWithinReachable(extents, devices[index], index, len, s);
      IntervalSize(s, s + len);
      SubsetSize(Interval(s, s + len), Reachable(extents, devices[index], index));
    } else {
      FitWithinCapacity(extents, devices, from + 1, index, len, s);
    }
  }

  lemma SubsetSize(a: set<int>, b: set<int>)
    requires a <= b
    ensures |a| <= |b|
  {
    assert b == a + (b - a);
  }

  lemma {:induction false} PlanExtend(extents: seq<Extent>, devices: seq<BlockDevice>, plan: seq<Run>, run: Run)
    requires PlanFits(extents, devices, plan)
    requires run.length > 0 && run.device < |devices|
    requires IsFit(extents + RunExtents(plan), devices[run.device], run.device, run.length, run.sector)
    ensures PlanFits(extents, devices, plan + [run])
    ensures TotalLength(plan + [run]) == TotalLength(plan) + run.length
    ensures RunExtents(plan + [run]) == RunExtents(plan) + [RunExtent(run)]
  {
    var all := plan + [run];
    assert all[..|plan|] == plan;
    forall i | 0 <= i < |all|
      ensures all[i].length > 0 && all[i].device < |devices|
      ensures IsFit(extents + RunExtents(all[..i]), devices[all[i].device], all[i].device, all[i].length, all[i].sector)
    {
      if i < |plan| {
        assert all[..i] == plan[..i] && all[i] == plan[i];
      }
    }
  }

  /** A fit ends on its device, so the enlarged table stays regular. */
  lemma RegularExtend(extents: seq<Extent>, devices: seq<BlockDevice>, run: Run)
    requires Regular(extents, devices) && run.device < |devices|
    requires IsFit(extents, devices[run.device], run.device, run.length, run.sector)
    ensures Regular(extents + [RunExtent(run)], devices)
  {
    assert Limit(devices[run.device]) > 0;
    LimitBound(devices[run.device]);
  }

  // ---------------------------------------------- the plan is determined

  /** No device from `lo` up to `hi` has a free run left. */
  ghost predicate Exhausted(w: seq<Extent>, devices: seq<BlockDevice>, lo: int, hi: int) {
    forall k :: lo <= k < hi && 0 <= k < |devices| ==> !HasFit(w, devices[k], k, 1)
  }

  /** `k` is the first device with a free run, in table order from `from` on and wrapping around. */
  ghost predicate NextDevice(w: seq<Extent>, devices: seq<BlockDevice>, from: int, k: int) {
    if from <= k then Exhausted(w, devices, from, k)
    else Exhausted(w, devices, from, |devices|) && Exhausted(w, devices, 0, k)
  }

  /**
   A greedy run: on the next device with a free run, all of the remaining request or the
   longest run there is, at its first fit.
   */
  ghost predicate GreedyRun(w: seq<Extent>, devices: seq<BlockDevice>, from: int, remaining: int, run: Run) {
    && run.device < |devices| && 0 < run.length <= remaining
    && NextDevice(w, devices, from, run.device)
    && IsFirstFit(w, devices[run.device], run.device, run.length, run.sector)
    && (run.length == remaining || !HasFit(w, devices[run.device], run.device, run.length + 1))
  }

  /** Where the search for the next run starts: behind the device of the last one. */
  function NextFrom(plan: seq<Run>): nat {
    if plan == [] then 0 else plan[|plan| - 1].device + 1
  }

  ghost predicate Greedy(extents: seq<Extent>, devices: seq<BlockDevice>, needed: int, plan: seq<Run>) {
    forall i :: 0 <= i < |plan| ==>
      GreedyRun(extents + RunExtents(plan[..i]), devices, NextFrom(plan[..i]), needed - TotalLength(plan[..i]), plan[i])
  }

  /** One run of the whole request on the least device with a fit, at its first fit. */
  ghost predicate SingleRun(extents: seq<Extent>, devices: seq<BlockDevice>, needed: int, run: Run) {
    && run.device < |devices| && run.length == needed
    && IsFirstFit(extents, devices[run.device], run.device, needed, run.sector)
    && forall k :: 0 <= k < run.device ==> !HasFit(extents, devices[k], k, needed)
  }

  /** The plan for a request: one run if some device has a fit, greedy runs otherwise. */
  ghost predicate PlannedBy(extents: seq<Extent>, devices: seq<BlockDevice>, needed: int, plan: seq<Run>) {
    if SomeDeviceFits(extents, devices, needed) then |plan| == 1 && SingleRun(extents, devices, needed, plan[0])
    else TotalLength(plan) == needed && Greedy(extents, devices, needed, plan)
  }

  lemma SinglePlan(extents: seq<Extent>, devices: seq<BlockDevice>, needed: int, run: Run)
    requires Regular(extents, devices) && needed > 0 && SingleRun(extents, devices, needed, run)
    ensures SomeDeviceFits(extents, devices, needed) && PlannedBy(extents, devices, needed, [run])
    ensures PlanFits(extents, devices, [run]) && TotalLength([run]) == needed <= Capacity(extents, devices)
  {
    hide IsFit, CapacityFrom;
    assert Limit(devices[run.device]) > 0;
    assert HasFit(extents, devices[run.device], run.device, needed);
    FitWithinCapacity(extents, devices, 0, run.device, needed, run.sector);
    assert extents + RunExtents([]) == extents;
    PlanExtend(extents, devices, [], run);
    assert [] + [run] == [run];
  }

  lemma SingleRunIsOne(extents: seq<Extent>, devices: seq<BlockDevice>, needed: int, r: Run, r': Run)
    requires SingleRun(extents, devices, needed, r) && SingleRun(extents, devices, needed, r')
    ensures r == r'
  {
    hide IsFit;
    assert HasFit(extents, devices[r.device], r.device, needed)
        && HasFit(extents, devices[r'.device], r'.device, needed);
  }

  lemma NextDeviceIsOne(w: seq<Extent>, devices: seq<BlockDevice>, from: int, k: nat, k': nat)
    requires k < |devices| && HasFit(w, devices[k], k, 1) && NextDevice(w, devices, from, k)
    requires k' < |devices| && HasFit(w, devices[k'], k', 1) && NextDevice(w, devices, from, k')
    ensures k == k'
  {
    hide HasFit;
  }

  lemma FitOfOne(w: seq<Extent>, d: BlockDevice, index: int, len: int, shorter: int, s: int)
    requires IsFit(w, d, index, len, s) && 1 <= shorter <= len
    ensures HasFit(w, d, index, shorter)
  {
    ShorterFits(w, d, index, len, shorter, s);
    assert IsFit(w, d, index, shorter, s);
  }

  lemma GreedyRunIsOne(w: seq<Extent>, devices: seq<BlockDevice>, from: int, remaining: int, r: Run, r': Run)
    requires GreedyRun(w, devices, from, remaining, r) && GreedyRun(w, devices, from, remaining, r')
    ensures r == r'
  {
    hide IsFit, NextDevice, HasFit;
    FitOfOne(w, devices[r.device], r.device, r.length, 1, r.sector);
    FitOfOne(w, devices[r'.device], r'.device, r'.length, 1, r'.sector);
    NextDeviceIsOne(w, devices, from, r.device, r'.device);
    if r.length < r'.length {
      FitOfOne(w, devices[r.device], r.device, r'.length, r.length + 1, r'.sector);
    } else if r'.length < r.length {
      FitOfOne(w, devices[r.device], r.device, r.length, r'.length + 1, r.sector);
    }
  }

  /** Greedy plans of one request agree as far as both go. */
  lemma {:induction false} GreedyAgree(extents: seq<Extent>, devices: seq<BlockDevice>, needed: int, p: seq<Run>,
                                       q: seq<Run>, n: nat)
    requires Greedy(extents, devices, needed, p) && Greedy(extents, devices, needed, q) && n <= |p| && n <= |q|
    ensures p[..n] == q[..n]
  {
    hide GreedyRun;
    if n > 0 {
      GreedyAgree(extents, devices, needed, p, q, n - 1);
      var w, from, rest := extents + RunExtents(p[..n - 1]), NextFrom(p[..n - 1]), needed - TotalLength(p[..n - 1]);
      assert GreedyRun(w, devices, from, rest, p[n - 1]) && GreedyRun(w, devices, from, rest, q[n - 1]);
      GreedyRunIsOne(w, devices, from, rest, p[n - 1], q[n - 1]);
    }
  }

  lemma GreedyEnds(extents: seq<Extent>, devices: seq<BlockDevice>, needed: int, p: seq<Run>, q: seq<Run>)
    requires Greedy(extents, devices, needed, p) && Greedy(extents, devices, needed, q)
    requires TotalLength(p) == needed == TotalLength(q) && |p| <= |q|
    ensures p == q
  {
    hide Greedy, TotalLength;
    GreedyAgree(extents, devices, needed, p, q, |p|);
    assert p[..|p|] == p;
    if |p| < |q| {
      GreedyGoesOn(extents, devices, needed, q, |p|);
    } else {
      assert q[..|p|] == q;
    }
  }

  /** A run is only added while something is missing. */
  lemma GreedyGoesOn(extents: seq<Extent>, devices: seq<BlockDevice>, needed: int, plan: seq<Run>, i: nat)
    requires Greedy(extents, devices, needed, plan) && i < |plan|
    ensures TotalLength(plan[..i]) < needed
  {
    hide NextDevice, IsFirstFit, HasFit, TotalLength, RunExtents;
    assert GreedyRun(extents + RunExtents(plan[..i]), devices, NextFrom(plan[..i]), needed - TotalLength(plan[..i]),
                     plan[i]);
  }

  /** A request has one plan. */
  lemma PlannedByUnique(extents: seq<Extent>, devices: seq<BlockDevice>, needed: int, p: seq<Run>, q: seq<Run>)
    requires PlannedBy(extents, devices, needed, p) && PlannedBy(extents, devices, needed, q)
    ensures p == q
  {
    hide SomeDeviceFits, SingleRun, Greedy;
    if SomeDeviceFits(extents, devices, needed) {
      SingleRunIsOne(extents, devices, needed, p[0], q[0]);
    } else if |p| <= |q| {
      GreedyEnds(extents, devices, needed, p, q);
    } else {
      GreedyEnds(extents, devices, needed, q, p);
    }
  }

  lemma {:induction false} GreedyExtend(extents: seq<Extent>, devices: seq<BlockDevice>, needed: int, plan: seq<Run>,
                                        run: Run)
    requires Greedy(extents, devices, needed, plan)
    requires GreedyRun(extents + RunExtents(plan), devices, NextFrom(plan), needed - TotalLength(plan), run)
    ensures Greedy(extents, devices, needed, plan + [run])
  {
    hide GreedyRun, TotalLength, RunExtents, NextFrom;
    var all := plan + [run];
    assert all[..|plan|] == plan;
    forall i | 0 <= i < |all|
      ensures GreedyRun(extents + RunExtents(all[..i]), devices, NextFrom(all[..i]), needed - TotalLength(all[..i]),
                        all[i])
    {
      if i < |plan| {
        assert all[..i] == plan[..i] && all[i] == plan[i];
      }
    }
  }

  // -------------------------------------------------------- the planner

  /**
   The planner terminates and is exactly complete: on regular tables it succeeds
   if and only if the request does not exceed the total capacity. Its runs add up
   to the request; each is in phase, on its device, and free of the existing
   extents and of every earlier run. It is one run exactly if some device has a fit;
   and it is the only plan `PlannedBy` allows.
   */
  method PlanSpanningAllocation(extents: seq<Extent>, devices: seq<BlockDevice>, needed: u64)
    returns (r: Result<seq<Run>>)
    requires |devices| <= U32_MAX
    ensures r.Ok? ==> needed > 0 && r.value != []
    ensures Regular(extents, devices) && needed > 0 ==> (r.Ok? <==> needed <= Capacity(extents, devices))
    ensures Regular(extents, devices) && r.Ok? ==>
              PlanFits(extents, devices, r.value) && TotalLength(r.value) == needed
    ensures Regular(extents, devices) && r.Ok? ==> (|r.value| == 1 <==> SomeDeviceFits(extents, devices, needed))
    ensures Regular(extents, devices) && r.Ok? ==> PlannedBy(extents, devices, needed, r.value)
  {
    hide Greedy, NextDevice, IsFit, TotalLength, PlanFits, CapacityFrom;
    if needed == 0 {
      return Err(Invalid);
    }
    if devices == [] {
      NoFitNoCapacity(extents, devices, 0);
      return Err(Invalid);
    }
    ghost var regular := Regular(extents, devices);
    var single := FindFreeSectorsAny(extents, devices, needed);
    if single.Ok? {
      var run := Run(single.value.0, single.value.1, needed);
      if regular {
        SinglePlan(extents, devices, needed, run);
      }
      return Ok([run]);
    }
    assert regular ==> !SomeDeviceFits(extents, devices, needed);
    var plan: seq<Run> := [];
    var working := extents;
    var remaining: u64 := needed;
    if regular {
      NothingCarved(extents, devices, needed);
    }
    while remaining > 0
      invariant remaining <= needed && (remaining == 0 ==> plan != []) && NextFrom(plan) <= |devices|
      invariant regular ==> Carved(extents, devices, needed, plan, working, remaining)
      invariant regular && remaining > 0 && plan != [] ==> Exhausted(working, devices, NextFrom(plan), |devices|)
    {
      var progress := false;
      ghost var remaining0 := remaining;
      for index := 0 to |devices|
        invariant remaining <= remaining0 && (progress <==> remaining < remaining0)
        invariant remaining == 0 ==> plan != []
        invariant regular ==> Carved(extents, devices, needed, plan, working, remaining)
        invariant NextFrom(plan) <= |devices|
        invariant regular && remaining > 0 ==> Passed(working, devices, plan, index, progress)
      {
        if remaining == 0 {
          break;
        }
        assert regular ==> Limit(devices[index]) > 0 && Addressable(working, devices[index], index);
        var largest := LargestFreeRun(working, devices, index);
        if largest.Err? {
          return Err(largest.error);
        }
        if largest.value == 0 {
          continue;
        }
        var take := Min(remaining, largest.value);
        var found := FindFreeSectors(working, devices, index, take);
        if found.Err? {
          return Err(found.error);
        }
        var run := Run(index, found.value, take);
        if regular {
          PassedNext(working, devices, plan, index, progress);
          CarveStep(extents, devices, needed, plan, working, remaining, run, largest.value);
        }
        plan := plan + [run];
        working := working + [RunExtent(run)];
        remaining := remaining - take;
        progress := true;
      }
      if !progress {
        if regular {
          NoFitNoCapacity(working, devices, 0);
        }
        return Err(Invalid);
      }
    }
    if regular && |plan| == 1 {
      OneRunFits(extents, devices, plan);
    }
    r := Ok(plan);
  }

  /** One device can serve the whole request. */
  ghost predicate SomeDeviceFits(extents: seq<Extent>, devices: seq<BlockDevice>, needed: int) {
    exists k :: 0 <= k < |devices| && HasFit(extents, devices[k], k, needed)
  }

  lemma OneRunFits(extents: seq<Extent>, devices: seq<BlockDevice>, plan: seq<Run>)
    requires PlanFits(extents, devices, plan) && |plan| == 1
    ensures SomeDeviceFits(extents, devices, TotalLength(plan))
  {
    assert plan[..0] == [] && extents + RunExtents([]) == extents;
    assert IsFit(extents + RunExtents(plan[..0]), devices[plan[0].device], plan[0].device, plan[0].length,
                 plan[0].sector);
    assert TotalLength(plan[..0]) == 0;
    assert HasFit(extents, devices[plan[0].device], plan[0].device, TotalLength(plan));
  }

  /** The devices the carve has passed without finding a free run, since its last run. */
  ghost predicate Passed(w: seq<Extent>, devices: seq<BlockDevice>, plan: seq<Run>, index: int, progress: bool) {
    if progress then NextFrom(plan) <= index && Exhausted(w, devices, NextFrom(plan), index)
    else Exhausted(w, devices, 0, index) && (plan != [] ==> Exhausted(w, devices, NextFrom(plan), |devices|))
  }

  lemma PassedNext(w: seq<Extent>, devices: seq<BlockDevice>, plan: seq<Run>, index: nat, progress: bool)
    requires Passed(w, devices, plan, index, progress)
    ensures NextDevice(w, devices, NextFrom(plan), index)
  {
    hide HasFit;
  }

  /** What the greedy carve keeps: full accounting of capacity until the last run. */
  ghost predicate Carved(extents: seq<Extent>, devices: seq<BlockDevice>, needed: int, plan: seq<Run>,
                         working: seq<Extent>, remaining: int) {
    && Regular(working, devices)
    && working == extents + RunExtents(plan)
    && PlanFits(extents, devices, plan) && Greedy(extents, devices, needed, plan)
    && TotalLength(plan) + remaining == needed
    && (remaining > 0 ==> Capacity(working, devices) + needed - remaining == Capacity(extents, devices))
    && (remaining == 0 ==> needed <= Capacity(extents, devices))
  }

  lemma NothingCarved(extents: seq<Extent>, devices: seq<BlockDevice>, needed: int)
    requires Regular(extents, devices) && needed > 0
    ensures Carved(extents, devices, needed, [], extents, needed)
  {
    hide Regular, Capacity;
    assert extents + RunExtents([]) == extents;
  }

  /** A longest run, and what is left after it. */
  lemma CapacityLeft(working: seq<Extent>, devices: seq<BlockDevice>, run: Run)
    requires Regular(working, devices) && run.device < |devices| && run.length > 0
    requires IsFit(working, devices[run.device], run.device, run.length, run.sector)
    ensures run.length <= Capacity(working, devices)
    ensures !HasFit(working, devices[run.device], run.device, run.length + 1) ==>
              Capacity(working + [RunExtent(run)], devices) == Capacity(working, devices) - run.length
  {
    hide IsFit, HasFit;
    assert Limit(devices[run.device]) > 0;
    FitWithinCapacity(working, devices, 0, run.device, run.length, run.sector);
    if !HasFit(working, devices[run.device], run.device, run.length + 1) {
      CapacityAfter(working, devices, 0, run.device, run.length, run.sector, RunExtent(run));
    }
  }

  lemma CarveStep(extents: seq<Extent>, devices: seq<BlockDevice>, needed: int, plan: seq<Run>, working: seq<Extent>,
                  remaining: int,
                  run: Run, largest: int)
    requires Carved(extents, devices, needed, plan, working, remaining) && remaining > 0
    requires run.device < |devices| && run.length == Min(remaining, largest) && largest > 0
    requires IsFirstFit(working, devices[run.device], run.device, run.length, run.sector)
    requires NextDevice(working, devices, NextFrom(plan), run.device)
    requires forall n :: n >= 1 ==> (n <= largest <==> HasFit(working, devices[run.device], run.device, n))
    ensures Carved(extents, devices, needed, plan + [run], working + [RunExtent(run)], remaining - run.length)
  {
    hide Greedy, NextDevice, Capacity, Regular, PlanFits, IsFit, HasFit, TotalLength, NextFrom;
    assert run.length == remaining || !HasFit(working, devices[run.device], run.device, run.length + 1);
    PlanExtend(extents, devices, plan, run);
    GreedyExtend(extents, devices, needed, plan, run);
    RegularExtend(working, devices, run);
    CapacityLeft(working, devices, run);
  }
}
