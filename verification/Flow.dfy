/**
  Flow control between jobs, after `flow.c`: jobs that share a flow add their (signed) share to one counter each time
  they are let through, and a job is held back while the counter is too far on its side. Each check is one step.
 */
module Flow {

  /** The options `flow` and `flow_watermark` of a job. */
  datatype Job = Job(flow: int, watermark: int)

  /** The shared counter, and how often each job has been let through. */
  datatype State = State(counter: int, passes: seq<nat>)

  function Sign(j: Job): int {
    if j.flow > 0 then 1 else -1
  }

  /** `flow_threshold_exceeded` of a job that takes part, that is with a flow other than 0. */
  predicate Exceeded(counter: int, j: Job) {
    Sign(j) * counter > j.watermark
  }

  function Check(jobs: seq<Job>, s: State, k: nat): State
    requires k < |jobs| && |s.passes| == |jobs|
  {
    if jobs[k].flow == 0 || Exceeded(s.counter, jobs[k]) then s
    else State(s.counter + jobs[k].flow, s.passes[k := s.passes[k] + 1])
  }

  predicate Indices(jobs: seq<Job>, checks: seq<nat>) {
    forall i :: 0 <= i < |checks| ==> checks[i] < |jobs|
  }

  /** The state after a series of checks by the given jobs, in that order. */
  function After(jobs: seq<Job>, checks: seq<nat>): (s: State)
    requires Indices(jobs, checks)
    ensures |s.passes| == |jobs|
  {
    if checks == [] then State(0, seq(|jobs|, _ => 0))
    else Check(jobs, After(jobs, checks[..|checks| - 1]), checks[|checks| - 1])
  }

  // ----- Conservation

  function Total(jobs: seq<Job>, passes: seq<nat>): int
    requires |passes| == |jobs|
  {
    if jobs == [] then 0 else jobs[0].flow * passes[0] + Total(jobs[1..], passes[1..])
  }

  lemma {:induction false} TotalZero(jobs: seq<Job>)
    ensures Total(jobs, seq(|jobs|, _ => 0)) == 0
  {
    if jobs != [] {
      TotalZero(jobs[1..]);
      assert seq(|jobs|, _ => 0)[1..] == seq(|jobs| - 1, _ => 0);
    }
  }

  lemma {:induction false} TotalPass(jobs: seq<Job>, passes: seq<nat>, k: nat)
    requires |passes| == |jobs| && k < |jobs|
    ensures Total(jobs, passes[k := passes[k] + 1]) == Total(jobs, passes) + jobs[k].flow
  {
    var after := passes[k := passes[k] + 1];
    if k == 0 {
      assert after[1..] == passes[1..];
      assert jobs[0].flow * (passes[0] + 1) == jobs[0].flow * passes[0] + jobs[0].flow;
    } else {
      assert after[1..] == passes[1..][k - 1 := passes[k] + 1];
      TotalPass(jobs[1..], passes[1..], k - 1);
    }
  }

  /** The counter is the sum, over the jobs, of a job's flow times the number of its passes. */
  lemma {:induction false} CounterIsTotal(jobs: seq<Job>, checks: seq<nat>)
    requires Indices(jobs, checks)
    ensures After(jobs, checks).counter == Total(jobs, After(jobs, checks).passes)
  {
    if checks == [] {
      TotalZero(jobs);
    } else {
      var before, k := After(jobs, checks[..|checks| - 1]), checks[|checks| - 1];
      CounterIsTotal(jobs, checks[..|checks| - 1]);
      TotalPass(jobs, before.passes, k);
    }
  }

  // ----- Bounds

  /** `bound` is at least the watermark plus the flow of every job on the given side, and not negative. */
  predicate Reach(jobs: seq<Job>, positive: bool, bound: int) {
    && bound >= 0
    && forall k :: 0 <= k < |jobs| && jobs[k].flow != 0 && (jobs[k].flow > 0) == positive ==>
      jobs[k].watermark + Sign(jobs[k]) * jobs[k].flow <= bound
  }

  /** The counter never leaves the largest watermark plus flow of each side. */
  lemma {:induction false} CounterBounded(jobs: seq<Job>, checks: seq<nat>, up: int, down: int)
    requires Indices(jobs, checks) && Reach(jobs, true, up) && Reach(jobs, false, down)
    ensures -down <= After(jobs, checks).counter <= up
  {
    if checks != [] {
      CounterBounded(jobs, checks[..|checks| - 1], up, down);
    }
  }

  /** With 32-bit options the 64-bit counter cannot overflow. */
  lemma CounterFits(jobs: seq<Job>, checks: seq<nat>)
    requires Indices(jobs, checks)
    requires forall k :: 0 <= k < |jobs| ==> -0x8000_0000 <= jobs[k].flow < 0x8000_0000
    requires forall k :: 0 <= k < |jobs| ==> -0x8000_0000 <= jobs[k].watermark < 0x8000_0000
    ensures -0x1_0000_0000 <= After(jobs, checks).counter <= 0x1_0000_0000
  {
    CounterBounded(jobs, checks, 0x1_0000_0000, 0x1_0000_0000);
  }

  /** Two jobs pulling in opposite directions get through in inverse proportion to their flows, up to a constant. */
  lemma TwoJobsBalance(a: Job, b: Job, checks: seq<nat>)
    requires a.flow > 0 > b.flow && a.watermark >= 0 && b.watermark >= 0
    requires Indices([a, b], checks)
    ensures var p := After([a, b], checks).passes;
            b.flow - b.watermark <= a.flow * p[0] + b.flow * p[1] <= a.flow + a.watermark
  {
    var jobs := [a, b];
    var p := After(jobs, checks).passes;
    CounterIsTotal(jobs, checks);
    assert jobs[1..] == [b] && jobs[1..][1..] == [] && p[1..][0] == p[1];
    assert Total([b], p[1..]) == b.flow * p[1] + Total([], p[1..][1..]);
    CounterBounded(jobs, checks, a.flow + a.watermark, b.watermark - b.flow);
  }

  /** Two jobs on either side can both be held back exactly if their watermarks leave a gap of a whole number. */
  lemma BothHeldIff(a: Job, b: Job)
    requires a.flow > 0 > b.flow
    ensures (exists counter :: Exceeded(counter, a) && Exceeded(counter, b)) <==> a.watermark + b.watermark <= -2
  {
    if a.watermark + b.watermark <= -2 {
      assert Exceeded(a.watermark + 1, a) && Exceeded(a.watermark + 1, b);
    }
  }

  /** A job that is held back gets through after a bounded number of checks by one on the other side. */
  lemma {:induction false} GetsThrough(jobs: seq<Job>, checks: seq<nat>, a: nat, b: nat, m: nat) returns (k: nat)
    requires Indices(jobs, checks) && a < |jobs| && b < |jobs| && jobs[a].flow > 0 > jobs[b].flow
    requires jobs[a].watermark >= 0 && jobs[b].watermark >= 0
    requires After(jobs, checks).counter + m * jobs[b].flow <= jobs[a].watermark
    ensures k <= m && Indices(jobs, checks + seq(k, _ => b))
    ensures !Exceeded(After(jobs, checks + seq(k, _ => b)).counter, jobs[a])
    decreases m
  {
    if !Exceeded(After(jobs, checks).counter, jobs[a]) {
      k := 0;
      assert checks + seq(0, _ => b) == checks;
    } else {
      var longer := checks + [b];
      assert longer[..|checks|] == checks;
      assert m * jobs[b].flow == jobs[b].flow + (m - 1) * jobs[b].flow;
      k := GetsThrough(jobs, longer, a, b, m - 1);
      assert longer + seq(k, _ => b) == checks + seq(k + 1, _ => b);
      k := k + 1;
    }
  }

  // ----- The shared flows

  /** `struct fio_flow`. */
  class FioFlow {
    var refs: nat
    const id: int
    var counter: int

    constructor (id: int)
      ensures this.id == id && refs == 0 && counter == 0
    {
      this.id, refs, counter := id, 0, 0;
    }

    /** `flow_threshold_exceeded`. */
    method ThresholdExceeded(j: Job) returns (exceeded: bool)
      modifies this`counter
      ensures exceeded == (j.flow != 0 && Exceeded(old(counter), j))
      ensures counter == if exceeded then old(counter) else old(counter) + j.flow
    {
      if j.flow == 0 {
        return false;
      }
      var sign := if j.flow > 0 then 1 else -1;
      if sign * counter > j.watermark {
        return true;
      }
      counter := counter + j.flow;
      return false;
    }

    /** A series of checks on a new flow: what the theorems above say of the counter holds of this one. */
    method Checks(jobs: seq<Job>, checks: seq<nat>)
      requires counter == 0 && Indices(jobs, checks)
      modifies this`counter
      ensures counter == After(jobs, checks).counter
    {
      assert checks[..0] == [];
      for i := 0 to |checks|
        invariant counter == After(jobs, checks[..i]).counter
      {
        assert checks[..i + 1][..i] == checks[..i];
        var _ := ThresholdExceeded(jobs[checks[i]]);
      }
      assert checks[..|checks|] == checks;
    }
  }

  /** The list of flows; `users` says how many jobs use each. */
  class FlowList {
    var flows: seq<FioFlow>
    ghost var users: multiset<FioFlow>

    ghost predicate Valid()
      reads this, flows
    {
      && (forall i, j :: 0 <= i < j < |flows| ==> flows[i].id != flows[j].id)
      && (forall f :: f in flows ==> f.refs == users[f] > 0)
      && (forall f :: f in users ==> f in flows)
    }

    constructor ()
      ensures Valid() && flows == [] && users == multiset{}
    {
      flows, users := [], multiset{};
    }

    /** `flow_get`: the flow with this id, new at the end of the list if there was none. */
    method Get(id: int) returns (flow: FioFlow)
      requires Valid()
      modifies this, flows
      ensures Valid() && flow.id == id && users == old(users) + multiset{flow}
      ensures flow in old(flows) ==> flows == old(flows) && flow.counter == old(flow.counter)
      ensures flow !in old(flows) ==> fresh(flow) && flows == old(flows) + [flow] && flow.counter == 0
      ensures forall f :: f in old(flows) && f != flow ==> unchanged(f)
    {
      var i := 0;
      while i < |flows| && flows[i].id != id
        invariant 0 <= i <= |flows| && forall j :: 0 <= j < i ==> flows[j].id != id
      {
        i := i + 1;
      }
      if i < |flows| {
        flow := flows[i];
      } else {
        flow := new FioFlow(id);
        assert flow !in users;
        flows := flows + [flow];
      }
      flow.refs := flow.refs + 1;
      users := users + multiset{flow};
    }

    /** `flow_put`: the last user takes the flow off the list. */
    method Put(flow: FioFlow)
      requires Valid() && flow in users
      modifies this, flow
      ensures Valid() && users == old(users) - multiset{flow}
      ensures flow in flows <==> old(users[flow]) > 1
      ensures forall f :: f != flow ==> (f in flows <==> f in old(flows))
    {
      var k :| 0 <= k < |flows| && flows[k] == flow;
      flow.refs := flow.refs - 1;
      users := users - multiset{flow};
      if flow.refs == 0 {
        Without(flows, k);
        flows := flows[..k] + flows[k + 1..];
      }
    }

    lemma Without(s: seq<FioFlow>, k: nat)
      requires k < |s| && forall i, j :: 0 <= i < j < |s| ==> s[i].id != s[j].id
      ensures var r := s[..k] + s[k + 1..];
              && (forall i, j :: 0 <= i < j < |r| ==> r[i].id != r[j].id)
              && (forall f :: f in r <==> f in s && f != s[k])
    {
      var r := s[..k] + s[k + 1..];
      forall f | f in s && f != s[k] ensures f in r {
        var i :| 0 <= i < |s| && s[i] == f;
        assert r[if i < k then i else i - 1] == f;
      }
    }
  }
}
