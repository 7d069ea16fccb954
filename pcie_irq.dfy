/** Slot and platform interrupt registration of the TLKM PCIe driver (pcie_irq.c).

    Lines [0, platformIrqs) are platform interrupts; slot line nr in [0, slotIrqs) uses
    mapping index nr + platformIrqs. The mapping array holds the vector a line is
    registered under, or Unmapped. The kernel calls the driver makes (request_irq,
    free_irq) are recorded in a ghost log; what they answer is given as parameters:
    `vectors` is pci_irq_vector per line and `errs`/`err` are request_irq's results. */
module PcieIrq {

  /** Linux errno ENXIO; pcie_irqs_request_platform_irq returns its negation. */
  const ENXIO: int := 6

  /** The irq_mapping sentinel of a line that is not registered. */
  const Unmapped: int := -1

  datatype KernelCall = RequestIrq(vector: int, result: int) | FreeIrq(vector: int)

  datatype IrqReturn = IrqHandled

  // ------------------------------------------------------------ specification

  /** The first slot line whose request_irq fails, or |errs| when none does. */
  function FirstFailure(errs: seq<int>): (k: nat)
    ensures k <= |errs|
    ensures forall i :: 0 <= i < k ==> errs[i] == 0
    ensures k < |errs| ==> errs[k] != 0
  {
    if errs == [] then 0
    else if errs[0] != 0 then 0
    else 1 + FirstFailure(errs[1..])
  }

  /** The requests for slot lines 0 .. count-1, in order. */
  function Requests(vectors: seq<int>, base: nat, errs: seq<int>, count: nat): (r: seq<KernelCall>)
    requires count <= |errs| && base + |errs| <= |vectors|
    ensures |r| == count
  {
    if count == 0 then []
    else Requests(vectors, base, errs, count - 1) + [RequestIrq(vectors[base + count - 1], errs[count - 1])]
  }

  /** The frees for slot lines 0 .. count-1, in order. */
  function Frees(vectors: seq<int>, base: nat, count: nat): (r: seq<KernelCall>)
    requires base + count <= |vectors|
    ensures |r| == count
  {
    if count == 0 then []
    else Frees(vectors, base, count - 1) + [FreeIrq(vectors[base + count - 1])]
  }

  /** m with slot lines 0 .. count-1 mapped to their vectors. */
  function MapSlots(m: seq<int>, vectors: seq<int>, base: nat, count: nat): (r: seq<int>)
    requires |m| == |vectors| && base + count <= |m|
    ensures |r| == |m|
  {
    seq(|m|, i requires 0 <= i < |m| => if base <= i < base + count then vectors[i] else m[i])
  }

  /** m with slot lines 0 .. count-1 reset to Unmapped. */
  function UnmapSlots(m: seq<int>, base: nat, count: nat): (r: seq<int>)
    requires base + count <= |m|
    ensures |r| == |m|
  {
    seq(|m|, i requires 0 <= i < |m| => if base <= i < base + count then Unmapped else m[i])
  }

  /** Unmapping the lines just mapped restores them to what they were before: the
      rollback erases every trace of the lines it returns. */
  lemma UnmapAfterMap(m: seq<int>, vectors: seq<int>, base: nat, count: nat)
    requires |m| == |vectors| && base + count <= |m|
    ensures UnmapSlots(MapSlots(m, vectors, base, count), base, count) == UnmapSlots(m, base, count)
  {
  }

  datatype InitResult = InitResult(ret: int, log: seq<KernelCall>, mapping: seq<int>)

  /** What pcie_irqs_init does, reading request_irq's answers only for the lines it
      requests: all lines registered and 0, or, when line k fails first, lines 0..k
      requested, lines 0..k-1 freed and unmapped again, and line k's error returned. */
  function InitOutcome(m: seq<int>, vectors: seq<int>, base: nat, errs: seq<int>): (r: InitResult)
    requires |m| == |vectors| && base + |errs| <= |m|
    ensures |r.mapping| == |m|
    ensures r.ret == 0 <==> forall nr :: 0 <= nr < |errs| ==> errs[nr] == 0
    ensures r.ret == 0 ==> |r.log| == |errs|
    ensures r.ret != 0 ==> r.ret in errs && |r.log| == 2 * FirstFailure(errs) + 1
  {
    var k := FirstFailure(errs);
    if k == |errs| then
      InitResult(0, Requests(vectors, base, errs, k), MapSlots(m, vectors, base, k))
    else
      InitResult(errs[k], Requests(vectors, base, errs, k + 1) + Frees(vectors, base, k),
                 UnmapSlots(m, base, k))
  }

  /** The frees pcie_irqs_exit issues for slot lines 0 .. count-1: one per line whose
      mapping is not Unmapped. */
  function ExitFrees(m: seq<int>, base: nat, count: nat): (r: seq<KernelCall>)
    requires base + count <= |m|
    ensures |r| <= count
    ensures forall c :: c in r ==> c.FreeIrq? && c.vector != Unmapped
  {
    if count == 0 then []
    else
      var v := m[base + count - 1];
      ExitFrees(m, base, count - 1) + (if v != Unmapped then [FreeIrq(v)] else [])
  }

  /** How many of slot lines 0 .. count-1 use vector v. */
  function SlotUses(vectors: seq<int>, base: nat, count: nat, v: int): (n: nat)
    requires base + count <= |vectors|
    ensures n <= count
  {
    if count == 0 then 0
    else SlotUses(vectors, base, count - 1, v) + (if vectors[base + count - 1] == v then 1 else 0)
  }

  /** What one kernel call does to the registrations of vector v. */
  function Effect(c: KernelCall, v: int): int
  {
    match c
    case RequestIrq(w, res) => if w == v && res == 0 then 1 else 0
    case FreeIrq(w) => if w == v then -1 else 0
  }

  /** Registrations of vector v in a sequence of kernel calls: successful requests of v
      minus frees of v. */
  function Held(calls: seq<KernelCall>, v: int): int
  {
    if calls == [] then 0
    else Held(calls[..|calls| - 1], v) + Effect(calls[|calls| - 1], v)
  }

  // ------------------------------------------------------------ the driver state

  class PcieIrqs {
    /** TLKM_PLATFORM_INTERRUPTS. */
    const platformIrqs: nat
    /** The number of lines in TLKM_PCIE_SLOT_INTERRUPTS. */
    const slotIrqs: nat
    /** pci_irq_vector for every line. */
    const vectors: seq<int>

    /** irq_mapping[]. */
    var mapping: array<int>
    /** The request_irq / free_irq calls made so far. */
    ghost var calls: seq<KernelCall>
    /** Slot work items scheduled and not yet run (irq_work[]). */
    ghost var pending: set<nat>
    /** Slot interrupts signalled to the control layer, in order. */
    ghost var signalled: seq<nat>

    ghost predicate Valid()
      reads this, mapping
    {
      mapping.Length == platformIrqs + slotIrqs && |vectors| == mapping.Length
    }

    constructor (platformIrqs: nat, slotIrqs: nat, vectors: seq<int>)
      requires |vectors| == platformIrqs + slotIrqs
      ensures Valid() && fresh(mapping)
      ensures this.platformIrqs == platformIrqs && this.slotIrqs == slotIrqs && this.vectors == vectors
      ensures forall i :: 0 <= i < mapping.Length ==> mapping[i] == Unmapped
      ensures calls == [] && pending == {} && signalled == []
    {
      this.platformIrqs, this.slotIrqs, this.vectors := platformIrqs, slotIrqs, vectors;
      mapping := new int[platformIrqs + slotIrqs](_ => Unmapped);
      calls, pending, signalled := [], {}, [];
    }

    /** Top half of slot line nr: schedule irq_work[nr] and report the interrupt handled. */
    method SlotIrq(nr: nat) returns (r: IrqReturn)
      requires nr < slotIrqs
      modifies this`pending
      ensures pending == old(pending) + {nr}
      ensures r == IrqHandled
    {
      pending := pending + {nr};
      r := IrqHandled;
    }

    /** Bottom half of slot line nr: signal slot interrupt nr, and no other, to the
        control layer. */
    method SlotIrqWork(nr: nat)
      requires nr in pending
      modifies this`pending, this`signalled
      ensures pending == old(pending) - {nr}
      ensures signalled == old(signalled) + [nr]
    {
      pending := pending - {nr};
      signalled := signalled + [nr];
    }

    /** pcie_irqs_init; errs[nr] is what request_irq answers for slot line nr. */
    method Init(errs: seq<int>) returns (ret: int)
      requires Valid() && |errs| == slotIrqs
      modifies this`calls, mapping
      ensures Valid()
      ensures var o := InitOutcome(old(mapping[..]), vectors, platformIrqs, errs);
              ret == o.ret && calls == old(calls) + o.log && mapping[..] == o.mapping
    {
      var err := new int[slotIrqs];
      ghost var m0 := mapping[..];
      var k := RequestSlots(errs, err);
      if k == slotIrqs {
        return 0;
      }
      ret := RollbackSlots(errs, err, k);
      UnmapAfterMap(m0, vectors, platformIrqs, k);
    }

    /** The request loop of pcie_irqs_init: request slot lines in order until one fails,
        recording each answer in err. Returns the first failing line, or slotIrqs. */
    method RequestSlots(errs: seq<int>, err: array<int>) returns (k: nat)
      requires Valid() && |errs| == slotIrqs && err.Length == slotIrqs && err != mapping
      modifies this`calls, mapping, err
      ensures Valid()
      ensures k == FirstFailure(errs)
      ensures forall x :: 0 <= x < slotIrqs && x <= k ==> err[x] == errs[x]
      ensures mapping[..] == MapSlots(old(mapping[..]), vectors, platformIrqs, k)
      ensures calls == old(calls) + Requests(vectors, platformIrqs, errs, if k < slotIrqs then k + 1 else k)
    {
      ghost var m0 := mapping[..];
      var nr := 0;
      var failed := false;
      while nr < slotIrqs && !failed
        invariant 0 <= nr <= slotIrqs
        invariant failed ==> 0 < nr && FirstFailure(errs) == nr - 1
        invariant !failed ==> forall x :: 0 <= x < nr ==> errs[x] == 0
        invariant forall x :: 0 <= x < nr ==> err[x] == errs[x]
        invariant mapping[..] == MapSlots(m0, vectors, platformIrqs, if failed then nr - 1 else nr)
        invariant calls == old(calls) + Requests(vectors, platformIrqs, errs, nr)
      {
        var irqn := nr + platformIrqs;
        err[nr] := errs[nr];
        calls := calls + [RequestIrq(vectors[irqn], err[nr])];
        if err[nr] != 0 {
          failed := true;
        } else {
          mapping[irqn] := vectors[irqn];
        }
        nr := nr + 1;
      }
      k := if failed then nr - 1 else nr;
    }

    /** The irq_error path of pcie_irqs_init after line k failed: free and unmap the
        lines registered before k and return line k's error. Entries of err after line
        k were never written and are not read. */
    method RollbackSlots(errs: seq<int>, err: array<int>, k: nat) returns (ret: int)
      requires Valid() && |errs| == slotIrqs && err.Length == slotIrqs && err != mapping
      requires k < slotIrqs && k == FirstFailure(errs)
      requires forall x :: 0 <= x <= k ==> err[x] == errs[x]
      requires forall i :: platformIrqs <= i < platformIrqs + k ==> mapping[i] == vectors[i]
      modifies this`calls, mapping
      ensures Valid()
      ensures ret == errs[k]
      ensures mapping[..] == UnmapSlots(old(mapping[..]), platformIrqs, k)
      ensures calls == old(calls) + Frees(vectors, platformIrqs, k)
    {
      ghost var mk := mapping[..];
      ret := 0;
      var i := 0;
      while i <= k
        invariant 0 <= i <= k + 1
        invariant mapping[..] == UnmapSlots(mk, platformIrqs, if i <= k then i else k)
        invariant calls == old(calls) + Frees(vectors, platformIrqs, if i <= k then i else k)
        invariant i > k ==> ret == errs[k]
      {
        var irqn := i + platformIrqs;
        if err[i] == 0 {
          assert mapping[irqn] == mapping[..][irqn] == mk[irqn] == vectors[irqn];
          calls := calls + [FreeIrq(mapping[irqn])];
          mapping[irqn] := Unmapped;
        } else {
          ret := err[i];
        }
        i := i + 1;
      }
    }

    /** pcie_irqs_exit: free every slot line still mapped and unmap it. */
    method Exit()
      requires Valid()
      modifies this`calls, mapping
      ensures Valid()
      ensures mapping[..] == UnmapSlots(old(mapping[..]), platformIrqs, slotIrqs)
      ensures calls == old(calls) + ExitFrees(old(mapping[..]), platformIrqs, slotIrqs)
    {
      ghost var m0 := mapping[..];
      var nr := 0;
      while nr < slotIrqs
        invariant 0 <= nr <= slotIrqs
        invariant mapping[..] == UnmapSlots(m0, platformIrqs, nr)
        invariant calls == old(calls) + ExitFrees(m0, platformIrqs, nr)
      {
        var irqn := nr + platformIrqs;
        if mapping[irqn] != Unmapped {
          calls := calls + [FreeIrq(mapping[irqn])];
          mapping[irqn] := Unmapped;
        }
        nr := nr + 1;
      }
    }

    /** pcie_irqs_request_platform_irq; err is what request_irq answers. */
    method RequestPlatformIrq(irqNo: int, err: int) returns (r: int)
      requires Valid() && 0 <= irqNo
      modifies this`calls, mapping
      ensures Valid()
      ensures irqNo >= platformIrqs ==>
                r == -ENXIO && calls == old(calls) && mapping[..] == old(mapping[..])
      ensures irqNo < platformIrqs ==>
                && r == err
                && calls == old(calls) + [RequestIrq(vectors[irqNo], err)]
                && mapping[..] == if err == 0 then old(mapping[..])[irqNo := vectors[irqNo]]
                                  else old(mapping[..])
    {
      if irqNo >= platformIrqs {
        return -ENXIO;
      }
      calls := calls + [RequestIrq(vectors[irqNo], err)];
      if err != 0 {
        return err;
      }
      mapping[irqNo] := vectors[irqNo];
      r := err;
    }

    /** pcie_irqs_release_platform_irq: frees the line under its current mapping
        without checking the sentinel. */
    method ReleasePlatformIrq(irqNo: int)
      requires Valid() && 0 <= irqNo
      modifies this`calls, mapping
      ensures Valid()
      ensures irqNo >= platformIrqs ==> calls == old(calls) && mapping[..] == old(mapping[..])
      ensures irqNo < platformIrqs ==>
                && calls == old(calls) + [FreeIrq(old(mapping[irqNo]))]
                && mapping[..] == old(mapping[..])[irqNo := Unmapped]
    {
      if irqNo >= platformIrqs {
        return;
      }
      calls := calls + [FreeIrq(mapping[irqNo])];
      mapping[irqNo] := Unmapped;
    }
  }

  // ------------------------------------------------------------ properties

  /** Slot registration and teardown never touch an entry below the platform lines
      (nor one past the slot lines). */
  lemma SlotLinesOnly(m: seq<int>, vectors: seq<int>, base: nat, errs: seq<int>)
    requires |m| == |vectors| && base + |errs| <= |m|
    ensures forall i :: 0 <= i < |m| && !(base <= i < base + |errs|) ==>
              InitOutcome(m, vectors, base, errs).mapping[i] == m[i] &&
              UnmapSlots(m, base, |errs|)[i] == m[i]
  {
  }

  /** When every request succeeds, init returns 0 and every slot line holds its vector. */
  lemma InitAllSucceed(m: seq<int>, vectors: seq<int>, base: nat, errs: seq<int>)
    requires |m| == |vectors| && base + |errs| <= |m|
    requires forall nr :: 0 <= nr < |errs| ==> errs[nr] == 0
    ensures var o := InitOutcome(m, vectors, base, errs);
            && o.ret == 0
            && (forall i :: base <= i < base + |errs| ==> o.mapping[i] == vectors[i])
  {
  }

  /** When line k fails first, init returns its error, and the slot lines before k are
      unmapped again while the others keep their entries. */
  lemma InitFirstFailure(m: seq<int>, vectors: seq<int>, base: nat, errs: seq<int>, k: nat)
    requires |m| == |vectors| && base + |errs| <= |m|
    requires k < |errs| && errs[k] != 0 && forall nr :: 0 <= nr < k ==> errs[nr] == 0
    ensures var o := InitOutcome(m, vectors, base, errs);
            && o.ret == errs[k] && o.ret != 0
            && (forall i :: base <= i < base + k ==> o.mapping[i] == Unmapped)
            && (forall i :: base + k <= i < base + |errs| ==> o.mapping[i] == m[i])
  {
  }

  /** Registration is all or nothing: from a device with no slot line mapped, init
      leaves either every slot line mapped (and returns 0) or none (and returns an
      error). */
  lemma InitAllOrNothing(m: seq<int>, vectors: seq<int>, base: nat, errs: seq<int>)
    requires |m| == |vectors| && base + |errs| <= |m|
    requires forall i :: base <= i < base + |errs| ==> m[i] == Unmapped
    ensures var o := InitOutcome(m, vectors, base, errs);
            (o.ret == 0 && forall i :: base <= i < base + |errs| ==> o.mapping[i] == vectors[i]) ||
            (o.ret != 0 && forall i :: base <= i < base + |errs| ==> o.mapping[i] == Unmapped)
  {
  }

  lemma {:induction false} RequestsAgree(vectors: seq<int>, base: nat, errs: seq<int>, errs': seq<int>, count: nat)
    requires count <= |errs| && count <= |errs'| && base + |errs| <= |vectors| && base + |errs'| <= |vectors|
    requires forall nr :: 0 <= nr < count ==> errs[nr] == errs'[nr]
    ensures Requests(vectors, base, errs, count) == Requests(vectors, base, errs', count)
  {
    if count > 0 {
      RequestsAgree(vectors, base, errs, errs', count - 1);
    }
  }

  /** Init depends on request_irq's answers only up to and including the first failing
      line: no line after it is requested. */
  lemma InitReadsOnlyRequestedLines(m: seq<int>, vectors: seq<int>, base: nat, errs: seq<int>, errs': seq<int>)
    requires |m| == |vectors| && base + |errs| <= |m| && |errs'| == |errs|
    requires FirstFailure(errs) < |errs|
    requires forall nr :: 0 <= nr <= FirstFailure(errs) ==> errs'[nr] == errs[nr]
    ensures InitOutcome(m, vectors, base, errs') == InitOutcome(m, vectors, base, errs)
    ensures |InitOutcome(m, vectors, base, errs).log| == 2 * FirstFailure(errs) + 1
  {
    var k := FirstFailure(errs);
    assert FirstFailure(errs') == k;
    RequestsAgree(vectors, base, errs, errs', k + 1);
  }

  lemma {:induction false} HeldAppend(a: seq<KernelCall>, b: seq<KernelCall>, v: int)
    ensures Held(a + b, v) == Held(a, v) + Held(b, v)
    decreases |b|
  {
    if b == [] {
      assert a + b == a;
    } else {
      var last := b[|b| - 1];
      var front := b[..|b| - 1];
      HeldAppend(a, front, v);
      assert (a + b)[..|a + b| - 1] == a + front;
    }
  }

  lemma {:induction false} HeldRequests(vectors: seq<int>, base: nat, errs: seq<int>, count: nat, v: int)
    requires count <= |errs| && base + |errs| <= |vectors|
    requires forall nr :: 0 <= nr < count ==> errs[nr] == 0
    ensures Held(Requests(vectors, base, errs, count), v) == SlotUses(vectors, base, count, v)
  {
    if count > 0 {
      var r := Requests(vectors, base, errs, count);
      HeldRequests(vectors, base, errs, count - 1, v);
      assert r[..|r| - 1] == Requests(vectors, base, errs, count - 1);
    }
  }

  lemma {:induction false} HeldFrees(vectors: seq<int>, base: nat, count: nat, v: int)
    requires base + count <= |vectors|
    ensures Held(Frees(vectors, base, count), v) + SlotUses(vectors, base, count, v) == 0
  {
    if count > 0 {
      var r := Frees(vectors, base, count);
      HeldFrees(vectors, base, count - 1, v);
      assert r[..|r| - 1] == Frees(vectors, base, count - 1);
    }
  }

  /** A failed init leaks nothing: every line it registered is freed again. */
  lemma InitFailureLeaksNothing(calls: seq<KernelCall>, m: seq<int>, vectors: seq<int>, base: nat, errs: seq<int>)
    requires |m| == |vectors| && base + |errs| <= |m|
    requires FirstFailure(errs) < |errs|
    ensures forall v :: Held(calls + InitOutcome(m, vectors, base, errs).log, v) == Held(calls, v)
  {
    var k := FirstFailure(errs);
    var reqs := Requests(vectors, base, errs, k);
    var failing := RequestIrq(vectors[base + k], errs[k]);
    var frees := Frees(vectors, base, k);
    var log := InitOutcome(m, vectors, base, errs).log;
    assert log == (reqs + [failing]) + frees;
    forall v ensures Held(calls + log, v) == Held(calls, v) {
      HeldAppend(calls, log, v);
      HeldAppend(reqs + [failing], frees, v);
      HeldAppend(reqs, [failing], v);
      assert [failing][..0] == [];
      HeldRequests(vectors, base, errs, k, v);
      HeldFrees(vectors, base, k, v);
    }
  }

  /** Exit frees only mapped lines and leaves none mapped, so a second exit frees nothing. */
  lemma {:induction false} ExitTwiceFreesNothing(m: seq<int>, base: nat, count: nat, upTo: nat)
    requires base + count <= |m| && upTo <= count
    ensures ExitFrees(UnmapSlots(m, base, count), base, upTo) == []
  {
    if upTo > 0 {
      ExitTwiceFreesNothing(m, base, count, upTo - 1);
    }
  }

  lemma {:induction false} ExitAfterMapFreesAll(m: seq<int>, vectors: seq<int>, base: nat, count: nat, upTo: nat)
    requires |m| == |vectors| && base + count <= |m| && upTo <= count
    requires forall i :: 0 <= i < |vectors| ==> vectors[i] != Unmapped
    ensures ExitFrees(MapSlots(m, vectors, base, count), base, upTo) == Frees(vectors, base, upTo)
  {
    if upTo > 0 {
      ExitAfterMapFreesAll(m, vectors, base, count, upTo - 1);
    }
  }

  /** A successful init followed by exit returns every line it registered: exit frees
      each slot vector once, and the registrations are as before init. */
  lemma InitThenExitLeaksNothing(calls: seq<KernelCall>, m: seq<int>, vectors: seq<int>, base: nat, errs: seq<int>)
    requires |m| == |vectors| && base + |errs| <= |m|
    requires forall i :: 0 <= i < |vectors| ==> vectors[i] != Unmapped
    requires forall nr :: 0 <= nr < |errs| ==> errs[nr] == 0
    ensures var o := InitOutcome(m, vectors, base, errs);
            && o.ret == 0
            && ExitFrees(o.mapping, base, |errs|) == Frees(vectors, base, |errs|)
            && forall v :: Held(calls + o.log + ExitFrees(o.mapping, base, |errs|), v) == Held(calls, v)
  {
    var n := |errs|;
    var o := InitOutcome(m, vectors, base, errs);
    ExitAfterMapFreesAll(m, vectors, base, n, n);
    var frees := Frees(vectors, base, n);
    forall v ensures Held(calls + o.log + frees, v) == Held(calls, v) {
      HeldAppend(calls + o.log, frees, v);
      HeldAppend(calls, o.log, v);
      HeldRequests(vectors, base, errs, n, v);
      HeldFrees(vectors, base, n, v);
    }
  }

  // ------------------------------------------------------------ the rollback as written

  /** The rollback loop of pcie_irqs_init as written: it tests err[nr] for every slot
      line, including the lines after the failing one, whose entries were never
      assigned. m is the mapping when the loop starts. */
  function RollbackAsWritten(m: seq<int>, base: nat, err: seq<int>, count: nat): (r: InitResult)
    requires count <= |err| && base + |err| <= |m|
    ensures |r.mapping| == |m|
    ensures |r.log| <= count
    ensures forall c :: c in r.log ==> c.FreeIrq?
    ensures r.ret != 0 ==> exists nr :: 0 <= nr < count && err[nr] == r.ret
    ensures forall i :: 0 <= i < |m| && base <= i < base + count && err[i - base] == 0 ==> r.mapping[i] == Unmapped
  {
    if count == 0 then InitResult(0, [], m)
    else
      var prev := RollbackAsWritten(m, base, err, count - 1);
      var irqn := base + count - 1;
      if err[count - 1] == 0 then
        InitResult(prev.ret, prev.log + [FreeIrq(prev.mapping[irqn])], prev.mapping[irqn := Unmapped])
      else
        InitResult(err[count - 1], prev.log, prev.mapping)
  }

  /** Two slot lines, no platform lines, line 0 fails with -16 so nothing was mapped.
      If the never-written err[1] happens to hold 0, the loop as written frees line 1,
      which was never requested; if it holds -5, init returns -5 instead of -16. The
      model of init returns -16 and frees nothing in both cases. */
  lemma RollbackReadsUnwrittenEntries()
    ensures RollbackAsWritten([-1, -1], 0, [-16, 0], 2).log == [FreeIrq(-1)]
    ensures RollbackAsWritten([-1, -1], 0, [-16, -5], 2).ret == -5
    ensures InitOutcome([-1, -1], [30, 31], 0, [-16, 0]) == InitResult(-16, [RequestIrq(30, -16)], [-1, -1])
    ensures InitOutcome([-1, -1], [30, 31], 0, [-16, -5]) == InitResult(-16, [RequestIrq(30, -16)], [-1, -1])
  {
    assert FirstFailure([-16, 0]) == 0;
    assert FirstFailure([-16, -5]) == 0;
    assert UnmapSlots([-1, -1], 0, 0) == [-1, -1];
    assert RollbackAsWritten([-1, -1], 0, [-16, 0], 1) == InitResult(-16, [], [-1, -1]);
    assert RollbackAsWritten([-1, -1], 0, [-16, -5], 1) == InitResult(-16, [], [-1, -1]);
  }
}
