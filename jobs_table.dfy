/** The job table of tapasco_jobs.h: a fixed pool of JobsQueueSize records updated in
    place. Queries (const table) are functions; mutators are methods whose contracts
    give the new table in terms of the old one and the record updates of TapascoJob. */
module TapascoJobs {
  import opened TapascoJob

  /** A job id names a record of the table. */
  type JobId = nat

  class JobTable {
    var jobs: array<Job>

    ghost predicate Valid()
      reads this, jobs
    {
      jobs.Length == JobsQueueSize &&
      forall i :: 0 <= i < jobs.Length ==> WellFormed(jobs[i])
    }

    /** A table whose records are all READY with nothing set. */
    constructor ()
      ensures Valid() && fresh(jobs)
      ensures forall i :: 0 <= i < jobs.Length ==> jobs[i] == EmptyJob()
    {
      jobs := new Job[JobsQueueSize](_ => EmptyJob());
    }

    // ------------------------------------------------------------ queries

    /** tapasco_jobs_get_state. */
    function GetState(j: JobId): (s: JobState)
      reads this, jobs
      requires Valid() && j < JobsQueueSize
      ensures s == jobs[j].state
    {
      jobs[j].state
    }

    /** tapasco_jobs_get_kernel_id. */
    function GetKernelId(j: JobId): (k: nat)
      reads this, jobs
      requires Valid() && j < JobsQueueSize
      ensures k == jobs[j].kernelId
    {
      jobs[j].kernelId
    }

    /** tapasco_jobs_get_slot. */
    function GetSlot(j: JobId): (s: nat)
      reads this, jobs
      requires Valid() && j < JobsQueueSize
      ensures s == jobs[j].slotId
    {
      jobs[j].slotId
    }

    /** tapasco_jobs_arg_count. */
    function GetArgCount(j: JobId): (n: nat)
      reads this, jobs
      requires Valid() && j < JobsQueueSize
      ensures n <= JobMaxArgs
      ensures forall i :: n <= i < JobMaxArgs ==> jobs[j].args[i] == Unset
    {
      ArgCount(jobs[j])
    }

    /** tapasco_jobs_get_arg. */
    function GetArg(j: JobId, idx: nat, len: nat): (r: Result<seq<byte>>)
      reads this, jobs
      requires Valid() && j < JobsQueueSize
      ensures r.Ok? <==> idx < JobMaxArgs && ValidWidth(len)
      ensures r.Err? ==> r.error == InvalidArgument
      ensures r.Ok? ==> |r.value| == len
    {
      ReadArg(jobs[j], idx, len)
    }

    /** tapasco_jobs_get_arg32. */
    function GetArg32(j: JobId, idx: nat): (v: nat)
      reads this, jobs
      requires Valid() && j < JobsQueueSize && idx < JobMaxArgs
      ensures v < 0x1_0000_0000
    {
      ReadArg32(jobs[j], idx)
    }

    /** tapasco_jobs_get_arg64. */
    function GetArg64(j: JobId, idx: nat): (v: nat)
      reads this, jobs
      requires Valid() && j < JobsQueueSize && idx < JobMaxArgs
      ensures v < 0x1_0000_0000_0000_0000
      ensures !IsArg64Bit(j, idx) ==> v == GetArg32(j, idx)
    {
      ReadArg64(jobs[j], idx)
    }

    /** tapasco_jobs_is_arg_64bit. */
    predicate IsArg64Bit(j: JobId, idx: nat)
      reads this, jobs
      requires Valid() && j < JobsQueueSize && idx < JobMaxArgs
      ensures !IsArg64Bit(j, idx) ==> ReadArg64(jobs[j], idx) < 0x1_0000_0000
    {
      IsArg64(jobs[j], idx)
    }

    /** tapasco_jobs_get_arg_transfer. */
    function GetArgTransfer(j: JobId, idx: nat): (r: Option<Transfer>)
      reads this, jobs
      requires Valid() && j < JobsQueueSize && idx < JobMaxArgs
      ensures r.Some? ==> IsArg64Bit(j, idx) && GetArg64(j, idx) == r.value.handle
    {
      ReadTransfer(jobs[j], idx)
    }

    /** tapasco_jobs_get_return. */
    function GetReturn(j: JobId, len: nat): (r: Result<seq<byte>>)
      reads this, jobs
      requires Valid() && j < JobsQueueSize
      ensures jobs[j].state != Finished ==> r == Err(InvalidState)
      ensures r.Ok? <==> jobs[j].state == Finished && len <= |jobs[j].ret|
      ensures r.Ok? ==> |r.value| == len && r.value <= jobs[j].ret
    {
      ReadReturn(jobs[j], len)
    }

    // ------------------------------------------------------------ mutators

    /** tapasco_jobs_acquire: claim a READY record and mark it REQUESTED; None when no
        record is READY (the table is full). */
    method Acquire() returns (r: Option<JobId>)
      requires Valid()
      modifies jobs
      ensures Valid()
      ensures r.None? <==> forall i :: 0 <= i < jobs.Length ==> old(jobs[i]).state != Ready
      ensures r.None? ==> jobs[..] == old(jobs[..])
      ensures r.Some? ==> r.value < JobsQueueSize && old(jobs[r.value]).state == Ready
      ensures r.Some? ==> jobs[..] == old(jobs[..])[r.value := old(jobs[r.value]).(state := Requested)]
    {
      var i := 0;
      while i < jobs.Length && jobs[i].state != Ready
        invariant 0 <= i <= jobs.Length
        invariant forall k :: 0 <= k < i ==> jobs[k].state != Ready
      {
        i := i + 1;
      }
      if i == jobs.Length {
        r := None;
      } else {
        jobs[i] := jobs[i].(state := Requested);
        r := Some(i);
      }
    }

    /** tapasco_jobs_release: return the record to READY, clearing what was staged. */
    method Release(j: JobId)
      requires Valid() && j < JobsQueueSize
      modifies jobs
      ensures Valid()
      ensures jobs[..] == old(jobs[..])[j := Cleared(old(jobs[j]))]
      ensures GetState(j) == Ready
    {
      jobs[j] := Cleared(jobs[j]);
    }

    /** tapasco_jobs_set_state: install newState and return the state held before. */
    method SetState(j: JobId, newState: JobState) returns (prev: JobState)
      requires Valid() && j < JobsQueueSize
      modifies jobs
      ensures Valid()
      ensures prev == old(jobs[j]).state
      ensures jobs[..] == old(jobs[..])[j := old(jobs[j]).(state := newState)]
      ensures GetState(j) == newState
    {
      prev := jobs[j].state;
      jobs[j] := jobs[j].(state := newState);
    }

    method SetKernelId(j: JobId, kernelId: nat)
      requires Valid() && j < JobsQueueSize
      modifies jobs
      ensures Valid()
      ensures jobs[..] == old(jobs[..])[j := old(jobs[j]).(kernelId := kernelId)]
      ensures GetKernelId(j) == kernelId
    {
      jobs[j] := jobs[j].(kernelId := kernelId);
    }

    method SetSlot(j: JobId, slotId: nat)
      requires Valid() && j < JobsQueueSize
      modifies jobs
      ensures Valid()
      ensures jobs[..] == old(jobs[..])[j := old(jobs[j]).(slotId := slotId)]
      ensures GetSlot(j) == slotId
    {
      jobs[j] := jobs[j].(slotId := slotId);
    }

    /** tapasco_jobs_set_arg. */
    method SetArg(j: JobId, idx: nat, value: seq<byte>) returns (r: Status)
      requires Valid() && j < JobsQueueSize
      modifies jobs
      ensures Valid()
      ensures var u := StoreArg(old(jobs[j]), idx, value);
              && r == StatusOf(u)
              && jobs[..] == if u.Ok? then old(jobs[..])[j := u.value] else old(jobs[..])
      ensures r == Success ==> GetArg(j, idx, |value|) == Ok(value)
    {
      var u := StoreArg(jobs[j], idx, value);
      r := StatusOf(u);
      if u.Ok? {
        StoreArgReadBack(jobs[j], idx, value);
        jobs[j] := u.value;
      }
    }

    /** tapasco_jobs_set_arg_transfer; staging is the device heap's answer. */
    method SetArgTransfer(j: JobId, idx: nat, len: nat, data: HostBuffer, flags: nat,
                          dirFlags: nat, staging: Option<Handle>) returns (r: Status)
      requires Valid() && j < JobsQueueSize
      modifies jobs
      ensures Valid()
      ensures var u := StoreTransfer(old(jobs[j]), idx, len, data, flags, dirFlags, staging);
              && r == StatusOf(u)
              && jobs[..] == if u.Ok? then old(jobs[..])[j := u.value] else old(jobs[..])
      ensures r == Success ==>
                idx < JobMaxArgs && staging.Some? &&
                GetArgTransfer(j, idx) == Some(Transfer(len, data, flags, dirFlags, staging.value, false))
    {
      var u := StoreTransfer(jobs[j], idx, len, data, flags, dirFlags, staging);
      r := StatusOf(u);
      if u.Ok? {
        StoreTransferReadBack(jobs[j], idx, len, data, flags, dirFlags, staging);
        jobs[j] := u.value;
      }
    }

    /** tapasco_jobs_set_return. */
    method SetReturn(j: JobId, value: seq<byte>) returns (r: Status)
      requires Valid() && j < JobsQueueSize
      modifies jobs
      ensures Valid()
      ensures r == Success
      ensures jobs[..] == old(jobs[..])[j := old(jobs[j]).(ret := value)]
    {
      jobs[j] := jobs[j].(ret := value);
      r := Success;
    }
  }

  // ------------------------------------------------------------ table-wide facts

  predicate Distinct(s: seq<nat>)
  {
    forall a, b :: 0 <= a < b < |s| ==> s[a] != s[b]
  }

  function Elements(s: seq<nat>): set<nat>
  {
    set x | x in s
  }

  /** The numbers below n, in order. */
  function Below(n: nat): (r: seq<nat>)
    ensures |r| == n
    ensures forall i :: 0 <= i < n ==> r[i] == i
  {
    seq(n, i requires 0 <= i < n => i)
  }

  lemma {:induction false} ElementsCardinality(s: seq<nat>)
    ensures |Elements(s)| <= |s|
    ensures Distinct(s) ==> |Elements(s)| == |s|
  {
    if s != [] {
      ElementsCardinality(s[1..]);
      var rest := Elements(s[1..]);
      assert Elements(s) == rest + {s[0]};
      if Distinct(s) {
        assert Distinct(s[1..]);
        assert s[0] !in rest;
      }
    }
  }

  lemma SubsetCardinality(a: set<nat>, b: set<nat>)
    requires a <= b
    ensures |a| <= |b|
  {
    assert b == a + (b - a);
    assert a * (b - a) == {};
  }

  lemma BelowElements(n: nat)
    ensures Distinct(Below(n))
    ensures forall k: nat :: k in Elements(Below(n)) <==> k < n
  {
    forall k: nat | k < n ensures k in Elements(Below(n)) {
      assert Below(n)[k] == k;
    }
  }

  /** A sequence that contains every number below n has at least n entries. */
  lemma Pigeonhole(ids: seq<nat>, n: nat)
    requires forall k: nat :: k < n ==> k in ids
    ensures |ids| >= n
  {
    BelowElements(n);
    ElementsCardinality(Below(n));
    ElementsCardinality(ids);
    SubsetCardinality(Elements(Below(n)), Elements(ids));
  }

  /** n distinct numbers below n are all the numbers below n. */
  lemma Covering(ids: seq<nat>, n: nat)
    requires Distinct(ids) && |ids| == n
    requires forall a :: 0 <= a < |ids| ==> ids[a] < n
    ensures forall k: nat :: k < n ==> k in ids
  {
    forall k: nat | k < n ensures k in ids {
      if k !in ids {
        BelowElements(n);
        ElementsCardinality(Below(n));
        ElementsCardinality(ids);
        assert Elements(ids) <= Elements(Below(n)) - {k};
        SubsetCardinality(Elements(ids), Elements(Below(n)) - {k});
        assert false;
      }
    }
  }

  /** Marshaling an argument by its reported width (get_arg64 when is_arg_64bit holds,
      get_arg32 otherwise) is defined for every slot and yields the slot's full value. */
  lemma MarshalByWidth(t: JobTable, j: JobId, idx: nat)
    requires t.Valid() && j < JobsQueueSize && idx < JobMaxArgs
    ensures (if t.IsArg64Bit(j, idx) then t.GetArg64(j, idx) else t.GetArg32(j, idx)) == t.GetArg64(j, idx)
  {
  }

  /** From a table of READY records, JobsQueueSize acquires succeed with pairwise
      distinct ids and the next one reports a full table. */
  method AcquireAll(t: JobTable) returns (ids: seq<JobId>, next: Option<JobId>)
    requires t.Valid()
    requires forall i :: 0 <= i < t.jobs.Length ==> t.jobs[i].state == Ready
    modifies t.jobs
    ensures t.Valid()
    ensures |ids| == JobsQueueSize
    ensures Distinct(ids)
    ensures forall a :: 0 <= a < |ids| ==> ids[a] < JobsQueueSize && t.GetState(ids[a]) == Requested
    ensures next == None
  {
    ids := [];
    while |ids| < JobsQueueSize
      invariant t.Valid()
      invariant |ids| <= JobsQueueSize
      invariant Distinct(ids)
      invariant forall a :: 0 <= a < |ids| ==> ids[a] < JobsQueueSize
      invariant forall k :: 0 <= k < JobsQueueSize ==>
                  (t.jobs[k].state == Ready <==> k !in ids) &&
                  (t.jobs[k].state != Ready ==> t.jobs[k].state == Requested)
    {
      var r := t.Acquire();
      if r.None? {
        Pigeonhole(ids, JobsQueueSize);
        assert false;
      }
      ids := ids + [r.value];
    }
    Covering(ids, JobsQueueSize);
    next := t.Acquire();
  }
}
