/** One job record of the TaPaSCo runtime's job table, as a value: the five-state
    lifecycle, the argument slots (scalars or staged transfers), the return buffer,
    and the pure queries and updates the table's operations are specified by. */
module TapascoJob {

  /** TAPASCO_JOBS_Q_SZ: number of records in a job table. */
  const JobsQueueSize: nat := 250
  /** TAPASCO_JOB_MAX_ARGS: number of argument slots in one job. */
  const JobMaxArgs: nat := 32

  type byte = x: int | 0 <= x < 256

  datatype Option<T> = None | Some(value: T)

  /** tapasco_job_state_t, in declaration order. */
  datatype JobState = Ready | Requested | Scheduled | Running | Finished

  /** Identity of the caller-owned host buffer a transfer borrows (`void *data`). */
  type HostBuffer = nat

  /** Device-memory handle handed out by the device heap, a 64-bit device address;
      opaque to the job table. */
  type Handle = h: nat | h < 0x1_0000_0000_0000_0000

  /** tapasco_transfer_t: an ad-hoc data transfer attached to an argument. */
  datatype Transfer = Transfer(len: nat, data: HostBuffer, flags: nat, dirFlags: nat,
                               handle: Handle, preloaded: bool)

  /** One argument slot: never set (it holds zero), a 32- or 64-bit value given by
      its bytes in host order, or a transfer whose handle replaced the argument. */
  datatype Arg = Unset | Scalar(bytes: seq<byte>) | Staged(transfer: Transfer)

  datatype Job = Job(state: JobState, kernelId: nat, slotId: nat, args: seq<Arg>, ret: seq<byte>)

  /** The error results (tapasco_res_t other than TAPASCO_SUCCESS) the operations report. */
  datatype JobError = InvalidArgument | InvalidState | OutOfMemory

  datatype Result<T> = Ok(value: T) | Err(error: JobError)

  /** tapasco_res_t as returned by the setters. */
  datatype Status = Success | Failure(error: JobError)

  function StatusOf(r: Result<Job>): Status
  {
    match r
    case Ok(_) => Success
    case Err(e) => Failure(e)
  }

  /** Argument widths set_arg accepts, in bytes. */
  predicate ValidWidth(n: nat)
  {
    n == 4 || n == 8
  }

  predicate WellFormedArg(a: Arg)
  {
    a.Scalar? ==> ValidWidth(|a.bytes|)
  }

  /** A record has exactly JobMaxArgs slots, each scalar of a supported width. */
  predicate WellFormed(job: Job)
  {
    |job.args| == JobMaxArgs && forall i :: 0 <= i < |job.args| ==> WellFormedArg(job.args[i])
  }

  /** A record as the table is initialised with: READY, nothing set. */
  function EmptyJob(): (job: Job)
    ensures WellFormed(job) && job.state == Ready
    ensures forall i :: 0 <= i < |job.args| ==> job.args[i] == Unset
    ensures job.ret == []
  {
    Job(Ready, 0, 0, seq(JobMaxArgs, _ => Unset), [])
  }

  // ---------------------------------------------------------------- bytes

  function Pow256(n: nat): (p: nat)
    ensures p >= 1
  {
    if n == 0 then 1 else 256 * Pow256(n - 1)
  }

  /** The unsigned value of bytes read in little-endian order (the host's order). */
  function LeValue(b: seq<byte>): (v: nat)
    ensures v < Pow256(|b|)
  {
    if b == [] then 0
    else
      var rest := LeValue(b[1..]);
      assert b[0] + 256 * rest <= 255 + 256 * (Pow256(|b| - 1) - 1);
      b[0] + 256 * rest
  }

  /** The n bytes of v in little-endian order. */
  function LeBytes(v: nat, n: nat): (b: seq<byte>)
    requires v < Pow256(n)
    ensures |b| == n
  {
    if n == 0 then []
    else
      assert v / 256 < Pow256(n - 1);
      [(v % 256) as byte] + LeBytes(v / 256, n - 1)
  }

  lemma {:induction false} LeValueOfLeBytes(v: nat, n: nat)
    requires v < Pow256(n)
    ensures LeValue(LeBytes(v, n)) == v
  {
    if n > 0 {
      LeValueOfLeBytes(v / 256, n - 1);
      assert LeBytes(v, n)[1..] == LeBytes(v / 256, n - 1);
    }
  }

  lemma {:induction false} LeBytesOfLeValue(b: seq<byte>)
    ensures LeBytes(LeValue(b), |b|) == b
  {
    if b != [] {
      LeBytesOfLeValue(b[1..]);
      var rest := LeValue(b[1..]);
      assert (b[0] + 256 * rest) % 256 == b[0];
      assert (b[0] + 256 * rest) / 256 == rest;
    }
  }

  lemma Pow256Widths()
    ensures Pow256(4) == 0x1_0000_0000
    ensures Pow256(8) == 0x1_0000_0000_0000_0000
  {
    assert Pow256(2) == 0x1_0000;
    assert Pow256(4) == 0x1_0000_0000;
  }

  // ---------------------------------------------------------------- queries

  /** tapasco_jobs_arg_count: one past the highest argument slot that has been set
      (0 when none has). */
  function HighWater(args: seq<Arg>): (n: nat)
    ensures n <= |args|
    ensures forall i :: n <= i < |args| ==> args[i] == Unset
    ensures n > 0 ==> args[n - 1] != Unset
  {
    if args == [] then 0
    else if args[|args| - 1] != Unset then |args|
    else HighWater(args[..|args| - 1])
  }

  function ArgCount(job: Job): (n: nat)
    requires WellFormed(job)
    ensures n <= JobMaxArgs
  {
    HighWater(job.args)
  }

  /** The 64-bit value an argument slot holds: zero when never set, the little-endian
      value of a scalar's bytes, or the handle of a transfer. */
  function SlotValue(a: Arg): (v: nat)
    requires WellFormedArg(a)
    ensures v < 0x1_0000_0000_0000_0000
    ensures a.Scalar? && |a.bytes| == 4 ==> v < 0x1_0000_0000
  {
    Pow256Widths();
    match a
    case Unset => 0
    case Scalar(b) => LeValue(b)
    case Staged(t) => t.handle
  }

  /** tapasco_jobs_get_arg: the first len bytes of the slot's value in host order.
      Only an index past the argument slots or an unsupported width is rejected. */
  function ReadArg(job: Job, idx: nat, len: nat): (r: Result<seq<byte>>)
    requires WellFormed(job)
    ensures r.Ok? <==> idx < JobMaxArgs && ValidWidth(len)
    ensures r.Err? ==> r.error == InvalidArgument
    ensures r.Ok? ==> |r.value| == len && LeValue(r.value) == SlotValue(job.args[idx]) % Pow256(len)
  {
    if idx >= JobMaxArgs || !ValidWidth(len) then Err(InvalidArgument)
    else
      var v := SlotValue(job.args[idx]) % Pow256(len);
      LeValueOfLeBytes(v, len);
      Ok(LeBytes(v, len))
  }

  /** tapasco_jobs_is_arg_64bit: the slot holds a 64-bit value (an 8-byte scalar or a
      transfer handle). A slot it reports narrow holds a value that fits 32 bits. */
  predicate IsArg64(job: Job, idx: nat)
    requires WellFormed(job) && idx < JobMaxArgs
    ensures !IsArg64(job, idx) ==> SlotValue(job.args[idx]) < 0x1_0000_0000
  {
    match job.args[idx]
    case Unset => false
    case Scalar(b) => |b| == 8
    case Staged(_) => true
  }

  /** tapasco_jobs_get_arg32: the slot's value seen as a uint32_t, its low 32 bits. */
  function ReadArg32(job: Job, idx: nat): (v: nat)
    requires WellFormed(job) && idx < JobMaxArgs
    ensures v < 0x1_0000_0000
    ensures !IsArg64(job, idx) ==> v == SlotValue(job.args[idx])
  {
    SlotValue(job.args[idx]) % 0x1_0000_0000
  }

  /** tapasco_jobs_get_arg64: the slot's value seen as a uint64_t. */
  function ReadArg64(job: Job, idx: nat): (v: nat)
    requires WellFormed(job) && idx < JobMaxArgs
    ensures v < 0x1_0000_0000_0000_0000
    ensures !IsArg64(job, idx) ==> v == ReadArg32(job, idx)
  {
    SlotValue(job.args[idx])
  }

  /** tapasco_jobs_get_arg_transfer: the transfer attached to argument idx, if any; the
      argument then reads as the transfer's handle. */
  function ReadTransfer(job: Job, idx: nat): (r: Option<Transfer>)
    requires WellFormed(job) && idx < JobMaxArgs
    ensures r.Some? ==> IsArg64(job, idx) && ReadArg64(job, idx) == r.value.handle
  {
    if job.args[idx].Staged? then Some(job.args[idx].transfer) else None
  }

  /** tapasco_jobs_get_return: the first len bytes of the return value, only once the
      job is FINISHED. */
  function ReadReturn(job: Job, len: nat): (r: Result<seq<byte>>)
    ensures job.state != Finished ==> r == Err(InvalidState)
    ensures r.Ok? <==> job.state == Finished && len <= |job.ret|
    ensures r.Err? && job.state == Finished ==> r.error == InvalidArgument
    ensures r.Ok? ==> |r.value| == len && r.value <= job.ret
  {
    if job.state != Finished then Err(InvalidState)
    else if len > |job.ret| then Err(InvalidArgument)
    else Ok(job.ret[..len])
  }

  // ---------------------------------------------------------------- updates

  /** tapasco_jobs_set_arg: store a 4- or 8-byte value in slot idx; only a REQUESTED
      job accepts arguments. */
  function StoreArg(job: Job, idx: nat, value: seq<byte>): (r: Result<Job>)
    requires WellFormed(job)
    ensures r.Ok? ==> WellFormed(r.value)
  {
    if idx >= JobMaxArgs || !ValidWidth(|value|) then Err(InvalidArgument)
    else if job.state != Requested then Err(InvalidState)
    else Ok(job.(args := job.args[idx := Scalar(value)]))
  }

  /** tapasco_jobs_set_arg_transfer: replace argument idx by a transfer of len bytes
      at data; staging is the device heap's answer (None: allocation failed). */
  function StoreTransfer(job: Job, idx: nat, len: nat, data: HostBuffer, flags: nat,
                         dirFlags: nat, staging: Option<Handle>): (r: Result<Job>)
    requires WellFormed(job)
    ensures r.Ok? ==> WellFormed(r.value)
  {
    if idx >= JobMaxArgs then Err(InvalidArgument)
    else if job.state != Requested then Err(InvalidState)
    else match staging
      case None => Err(OutOfMemory)
      case Some(h) =>
        Ok(job.(args := job.args[idx := Staged(Transfer(len, data, flags, dirFlags, h, false))]))
  }

  /** tapasco_jobs_release: back to READY with arguments, transfers and return cleared. */
  function Cleared(job: Job): (r: Job)
    ensures WellFormed(r)
  {
    job.(state := Ready, args := seq(JobMaxArgs, _ => Unset), ret := [])
  }

  // ---------------------------------------------------------------- properties

  /** Arguments and transfers change only while the job is REQUESTED. */
  lemma ArgsFrozenUnlessRequested(job: Job, idx: nat, value: seq<byte>, len: nat,
                                  data: HostBuffer, flags: nat, dirFlags: nat,
                                  staging: Option<Handle>)
    requires WellFormed(job) && job.state != Requested
    ensures StoreArg(job, idx, value).Err?
    ensures StoreTransfer(job, idx, len, data, flags, dirFlags, staging).Err?
    ensures idx < JobMaxArgs && ValidWidth(|value|) ==> StoreArg(job, idx, value) == Err(InvalidState)
    ensures idx < JobMaxArgs ==>
              StoreTransfer(job, idx, len, data, flags, dirFlags, staging) == Err(InvalidState)
  {
  }

  /** set_arg succeeds exactly for an index below JobMaxArgs, a 4- or 8-byte value and a
      REQUESTED job; it then changes slot idx only. */
  lemma StoreArgFrame(job: Job, idx: nat, value: seq<byte>)
    requires WellFormed(job)
    ensures StoreArg(job, idx, value).Ok? <==>
              idx < JobMaxArgs && ValidWidth(|value|) && job.state == Requested
    ensures idx >= JobMaxArgs ==> StoreArg(job, idx, value) == Err(InvalidArgument)
    ensures !ValidWidth(|value|) ==> StoreArg(job, idx, value) == Err(InvalidArgument)
    ensures StoreArg(job, idx, value).Ok? ==>
              var job' := StoreArg(job, idx, value).value;
              && job'.state == job.state && job'.kernelId == job.kernelId
              && job'.slotId == job.slotId && job'.ret == job.ret
              && (forall i :: 0 <= i < JobMaxArgs && i != idx ==> job'.args[i] == job.args[i])
  {
  }

  /** set_arg then get_arg with the same index and length yields the stored bytes;
      is_arg_64bit reports the width; get_arg32/get_arg64 give the value. */
  lemma StoreArgReadBack(job: Job, idx: nat, value: seq<byte>)
    requires WellFormed(job) && StoreArg(job, idx, value).Ok?
    ensures var job' := StoreArg(job, idx, value).value;
            && ReadArg(job', idx, |value|) == Ok(value)
            && (IsArg64(job', idx) <==> |value| == 8)
            && (|value| == 4 ==> ReadArg32(job', idx) == LeValue(value))
            && ReadArg64(job', idx) == LeValue(value)
            && ReadTransfer(job', idx) == None
  {
    var job' := StoreArg(job, idx, value).value;
    assert job'.args[idx] == Scalar(value);
    var v := LeValue(value);
    assert SlotValue(job'.args[idx]) == v;
    Pow256Widths();
    if |value| == 4 {
      assert v % 0x1_0000_0000 == v;
    } else {
      assert v % 0x1_0000_0000_0000_0000 == v;
    }
    LeBytesOfLeValue(value);
  }

  /** A little-endian value is its first k bytes plus 256^k times the rest. */
  lemma {:induction false} LeValueSplit(b: seq<byte>, k: nat)
    requires k <= |b|
    ensures LeValue(b) == LeValue(b[..k]) + Pow256(k) * LeValue(b[k..])
  {
    if k == 0 {
      assert b[..0] == [] && b[0..] == b;
    } else {
      var front := b[..k];
      LeValueSplit(b[1..], k - 1);
      assert front[1..] == b[1..][..k - 1];
      assert b[1..][k - 1..] == b[k..];
      LeValueCons(b);
      LeValueCons(front);
      Regroup(b[0], LeValue(front[1..]), LeValue(b[k..]), Pow256(k - 1));
    }
  }

  lemma LeValueCons(b: seq<byte>)
    requires b != []
    ensures LeValue(b) == b[0] + 256 * LeValue(b[1..])
  {
  }

  lemma Regroup(b0: nat, lo: nat, hi: nat, p: nat)
    ensures b0 + 256 * (lo + p * hi) == (b0 + 256 * lo) + (256 * p) * hi
  {
  }

  lemma LowHalf(lo: nat, hi: nat)
    requires lo < 0x1_0000_0000
    ensures (lo + 0x1_0000_0000 * hi) % 0x1_0000_0000 == lo
  {
  }

  /** An 8-byte argument read with get_arg at 4 bytes or with get_arg32 yields its
      first four bytes, the low half in host order. */
  lemma StoreArgNarrowRead(job: Job, idx: nat, value: seq<byte>)
    requires WellFormed(job) && StoreArg(job, idx, value).Ok? && |value| == 8
    ensures var job' := StoreArg(job, idx, value).value;
            && ReadArg(job', idx, 4) == Ok(value[..4])
            && ReadArg32(job', idx) == LeValue(value[..4])
  {
    var job' := StoreArg(job, idx, value).value;
    assert job'.args[idx] == Scalar(value);
    var lo, hi := LeValue(value[..4]), LeValue(value[4..]);
    Pow256Widths();
    LeValueSplit(value, 4);
    LowHalf(lo, hi);
    assert SlotValue(job'.args[idx]) % 0x1_0000_0000 == lo;
    LeBytesOfLeValue(value[..4]);
  }

  /** A 32-bit value stored through its bytes reads back as the same value. */
  lemma {:induction false} StoreArg32RoundTrip(job: Job, idx: nat, v: nat)
    requires WellFormed(job) && job.state == Requested && idx < JobMaxArgs
    requires v < 0x1_0000_0000
    ensures Pow256(4) == 0x1_0000_0000
    ensures var r := StoreArg(job, idx, LeBytes(v, 4));
            r.Ok? && !IsArg64(r.value, idx) && ReadArg32(r.value, idx) == v
  {
    Pow256Widths();
    LeValueOfLeBytes(v, 4);
  }

  /** A 64-bit value stored through its bytes reads back as the same value. */
  lemma {:induction false} StoreArg64RoundTrip(job: Job, idx: nat, v: nat)
    requires WellFormed(job) && job.state == Requested && idx < JobMaxArgs
    requires v < 0x1_0000_0000_0000_0000
    ensures Pow256(8) == 0x1_0000_0000_0000_0000
    ensures var r := StoreArg(job, idx, LeBytes(v, 8));
            r.Ok? && IsArg64(r.value, idx) && ReadArg64(r.value, idx) == v
  {
    Pow256Widths();
    LeValueOfLeBytes(v, 8);
  }

  /** Setting slot i raises the argument count to at least i + 1 and no further. */
  lemma HighWaterAfterSet(args: seq<Arg>, i: nat, a: Arg)
    requires i < |args| && a != Unset
    ensures HighWater(args[i := a]) == if HighWater(args) > i then HighWater(args) else i + 1
  {
    var args' := args[i := a];
    var n, n' := HighWater(args), HighWater(args');
    var m := if n > i then n else i + 1;
    assert args'[m - 1] != Unset;
    if n' > 0 && n' - 1 != i {
      assert args[n' - 1] == args'[n' - 1];
    }
  }

  lemma StoreArgCount(job: Job, idx: nat, value: seq<byte>)
    requires WellFormed(job) && StoreArg(job, idx, value).Ok?
    ensures var n := ArgCount(job);
            ArgCount(StoreArg(job, idx, value).value) == if n > idx then n else idx + 1
  {
    HighWaterAfterSet(job.args, idx, Scalar(value));
  }

  /** set_arg_transfer replaces argument idx by a transfer with the given length, data,
      flags and direction, which get_arg_transfer returns; a failed staging leaves the
      job unchanged. */
  lemma StoreTransferReadBack(job: Job, idx: nat, len: nat, data: HostBuffer, flags: nat,
                              dirFlags: nat, staging: Option<Handle>)
    requires WellFormed(job) && idx < JobMaxArgs && job.state == Requested
    ensures staging.None? ==> StoreTransfer(job, idx, len, data, flags, dirFlags, staging) == Err(OutOfMemory)
    ensures staging.Some? ==>
              var r := StoreTransfer(job, idx, len, data, flags, dirFlags, staging);
              && r.Ok?
              && ReadTransfer(r.value, idx) == Some(Transfer(len, data, flags, dirFlags, staging.value, false))
              && IsArg64(r.value, idx) && ReadArg64(r.value, idx) == staging.value
              && ReadArg(r.value, idx, 8) == Ok(LeBytes(staging.value, 8))
              && (forall i :: 0 <= i < JobMaxArgs && i != idx ==> r.value.args[i] == job.args[i])
              && ArgCount(r.value) == if ArgCount(job) > idx then ArgCount(job) else idx + 1
  {
    if staging.Some? {
      var h := staging.value;
      var t := Transfer(len, data, flags, dirFlags, h, false);
      var job' := job.(args := job.args[idx := Staged(t)]);
      assert StoreTransfer(job, idx, len, data, flags, dirFlags, staging) == Ok(job');
      assert SlotValue(job'.args[idx]) == h;
      Pow256Widths();
      assert h % Pow256(8) == h;
      HighWaterAfterSet(job.args, idx, Staged(t));
    }
  }

  /** get_return succeeds only in FINISHED, and then yields what set_return stored. */
  lemma ReturnReadBack(job: Job, value: seq<byte>)
    ensures ReadReturn(job.(ret := value, state := Finished), |value|) == Ok(value)
    ensures forall s: JobState, n: nat :: s != Finished ==>
              ReadReturn(job.(ret := value, state := s), n) == Err(InvalidState)
  {
    assert value[..|value|] == value;
  }

  /** After release nothing staged remains: no arguments, no transfers, no return. */
  lemma ClearedIsEmpty(job: Job)
    ensures Cleared(job).state == Ready
    ensures ArgCount(Cleared(job)) == 0
    ensures forall idx: nat, len: nat :: idx < JobMaxArgs && ValidWidth(len) ==>
              ReadArg(Cleared(job), idx, len) == Ok(LeBytes(0, len))
    ensures forall idx: nat :: idx < JobMaxArgs ==>
              && ReadTransfer(Cleared(job), idx) == None && !IsArg64(Cleared(job), idx)
              && ReadArg32(Cleared(job), idx) == 0 && ReadArg64(Cleared(job), idx) == 0
    ensures forall len: nat :: ReadReturn(Cleared(job), len) == Err(InvalidState)
    ensures Cleared(job).kernelId == job.kernelId && Cleared(job).slotId == job.slotId
  {
  }
}
