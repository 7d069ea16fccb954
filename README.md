# TaPaSCo job table and TLKM PCIe interrupt registration in Dafny

This project models two parts of the TaPaSCo system.

**The runtime's job table** (`tapasco_jobs.h`) is a fixed pool of `TAPASCO_JOBS_Q_SZ` (250)
job records. Each record has:

- a five-state lifecycle: READY, REQUESTED, SCHEDULED, RUNNING, FINISHED;
- a kernel id and a slot id;
- `TAPASCO_JOB_MAX_ARGS` (32) argument slots, each either a 32/64-bit scalar or a staged
  data transfer;
- a return value.

The record is a value: module `TapascoJob`, file `jobs_record.dfy`. Its queries and
updates are pure functions. The table is a class over an `array<Job>`: module
`TapascoJobs`, file `jobs_table.dfy`. The getters are functions on it. Its mutators are
methods, and each method's contract gives the new array in terms of the old one and the
record update.

**The TLKM driver's PCIe interrupt setup** (`pcie_irq.c`), module `PcieIrq`, file
`pcie_irq.dfy`, covers:

- registering the slot interrupt lines and rolling them back when one fails;
- tearing the slot lines down at exit;
- requesting and releasing a platform line;
- the top and bottom half of a slot interrupt.

Class `PcieIrqs` holds `irq_mapping` as an `array<int>`. The kernel calls it makes
(`request_irq`, `free_irq`) are appended to a ghost log. The kernel's answers are
parameters:

- `vectors` is `pci_irq_vector` for every line;
- `errs` (or `err`) is what `request_irq` returns.

What init and exit do is specified by pure functions of the old mapping and those
answers (`InitOutcome`, `ExitFrees`). The lemmas about those functions prove:

- all-or-nothing registration;
- that every line registered is returned again;
- that a second exit frees nothing.

## Model

| member | source | states |
|---|---|---|
| TapascoJob.EmptyJob | runtime/arch/common/include/tapasco_jobs.h:29-30 | A fresh record is well formed and READY: 32 unset argument slots and an empty return value. |
| TapascoJob.LeValue | runtime/arch/common/include/tapasco_jobs.h:135-155 | The value read from n argument bytes is below 256^n, so 4 bytes give a uint32_t and 8 bytes a uint64_t. |
| TapascoJob.LeValueOfLeBytes | runtime/arch/common/include/tapasco_jobs.h:135-155 | Encoding a value below 256^n into n little-endian bytes and decoding them gives the value back. |
| TapascoJob.LeBytesOfLeValue | runtime/arch/common/include/tapasco_jobs.h:135-155 | Decoding bytes and re-encoding at the same width gives the same bytes. |
| TapascoJob.LeValueSplit | runtime/arch/common/include/tapasco_jobs.h:135-155 | A little-endian value is the value of its first k bytes plus 256^k times the value of the rest. |
| TapascoJob.HighWater | runtime/arch/common/include/tapasco_jobs.h:126-133 | The argument count is one past the highest slot that has been set. Every slot from the count on is unset, and the slot just below the count is set. |
| TapascoJob.ArgCount | runtime/arch/common/include/tapasco_jobs.h:126-133 | A record's argument count never exceeds TAPASCO_JOB_MAX_ARGS. |
| TapascoJob.SlotValue | runtime/arch/common/include/tapasco_jobs.h:196-198 | The value a slot holds is below 2^64 and, for a 4-byte scalar, below 2^32. An unset slot holds zero and a transfer slot holds its handle. |
| TapascoJob.ReadArg | runtime/arch/common/include/tapasco_jobs.h:168-180 | get_arg fails exactly when the index is 32 or more or the width is not 4 or 8, and then with InvalidArgument. On success it returns len bytes whose little-endian value is the slot's value modulo 256^len. |
| TapascoJob.IsArg64 | runtime/arch/common/include/tapasco_jobs.h:227-236 | A slot is_arg_64bit reports narrow holds a value below 2^32, so reading it at 32 bits loses nothing. |
| TapascoJob.ReadArg32 | runtime/arch/common/include/tapasco_jobs.h:135-144 | get_arg32 is defined for every slot below 32. Its value is below 2^32 and is the low 32 bits of the slot; for a slot is_arg_64bit reports narrow it is the slot's whole value. |
| TapascoJob.ReadArg64 | runtime/arch/common/include/tapasco_jobs.h:146-155 | get_arg64 is defined for every slot below 32. Its value is below 2^64; for a slot is_arg_64bit reports narrow it equals get_arg32. |
| TapascoJob.ReadTransfer | runtime/arch/common/include/tapasco_jobs.h:157-166 | When get_arg_transfer finds a transfer, the slot is 64-bit and get_arg64 returns the transfer's handle: the transfer replaced the argument. |
| TapascoJob.ReadReturn | runtime/arch/common/include/tapasco_jobs.h:114-124 | get_return fails with InvalidState before FINISHED. It succeeds exactly when the job is FINISHED and len is at most the stored length, and fails with InvalidArgument otherwise. On success it returns len bytes that are a prefix of the stored return value. |
| TapascoJob.StoreArg | runtime/arch/common/include/tapasco_jobs.h:182-194 | A successful set_arg leaves a well-formed record. |
| TapascoJob.StoreTransfer | runtime/arch/common/include/tapasco_jobs.h:196-212 | A successful set_arg_transfer leaves a well-formed record. |
| TapascoJob.Cleared | runtime/arch/common/include/tapasco_jobs.h:263-268 | A released record is well formed. |
| TapascoJob.ArgsFrozenUnlessRequested | runtime/arch/common/include/tapasco_jobs.h:36-50 | Outside REQUESTED, set_arg and set_arg_transfer fail. Given a valid index (and, for set_arg, a valid width), the error is InvalidState. |
| TapascoJob.StoreArgFrame | runtime/arch/common/include/tapasco_jobs.h:182-194 | set_arg succeeds if and only if the index is below 32, the width is 4 or 8 and the job is REQUESTED. A bad index or width gives InvalidArgument. On success only slot idx changes: state, kernel id, slot, return and the other slots stay. |
| TapascoJob.StoreArgReadBack | runtime/arch/common/include/tapasco_jobs.h:135-194 | After set_arg: get_arg with the same index and length returns the stored bytes; is_arg_64bit holds exactly for 8 bytes; get_arg64 (and get_arg32 for 4 bytes) returns their little-endian value; get_arg_transfer reports no transfer. |
| TapascoJob.StoreArgNarrowRead | runtime/arch/common/include/tapasco_jobs.h:135-180 | An 8-byte argument read with get_arg at 4 bytes yields its first four bytes, and get_arg32 yields their value: the low half of the 64-bit value. |
| TapascoJob.StoreArg32RoundTrip | runtime/arch/common/include/tapasco_jobs.h:135-144 | A 32-bit value stored through its bytes succeeds, is not 64-bit, and get_arg32 returns that value. |
| TapascoJob.StoreArg64RoundTrip | runtime/arch/common/include/tapasco_jobs.h:146-155 | A 64-bit value stored through its bytes succeeds, is 64-bit, and get_arg64 returns that value. |
| TapascoJob.HighWaterAfterSet | runtime/arch/common/include/tapasco_jobs.h:126-133 | Setting slot i makes the count the larger of the old count and i + 1. |
| TapascoJob.StoreArgCount | runtime/arch/common/include/tapasco_jobs.h:126-133 | After set_arg at idx, arg_count is the larger of the old count and idx + 1. |
| TapascoJob.StoreTransferReadBack | runtime/arch/common/include/tapasco_jobs.h:196-212 | set_arg_transfer reports OutOfMemory when staging fails. Otherwise get_arg_transfer returns the transfer with the given length, data, flags, direction and staged handle. The slot is 64-bit and reads (get_arg64, get_arg at 8 bytes) as the handle. Other slots are unchanged, and the count updates as for set_arg. |
| TapascoJob.ReturnReadBack | runtime/arch/common/include/tapasco_jobs.h:114-124 | get_return yields what set_return stored once the job is FINISHED. In every other state it fails with InvalidState. |
| TapascoJob.ClearedIsEmpty | runtime/arch/common/include/tapasco_jobs.h:263-268 | After release the job is READY with arg_count 0. Every slot reads as zero, is narrow and has no transfer, and get_return fails with InvalidState. Kernel id and slot are kept. |
| TapascoJobs.JobTable.constructor | runtime/arch/common/include/tapasco_jobs.h:29 | The table has 250 records, all READY and empty. |
| TapascoJobs.JobTable.GetState | runtime/arch/common/include/tapasco_jobs.h:94-101 | get_state returns the state held in record j (the state SetState installed last). |
| TapascoJobs.JobTable.GetKernelId | runtime/arch/common/include/tapasco_jobs.h:75-82 | get_kernel_id returns the kernel id held in record j. |
| TapascoJobs.JobTable.GetSlot | runtime/arch/common/include/tapasco_jobs.h:238-245 | get_slot returns the slot id held in record j. |
| TapascoJobs.JobTable.GetArgCount | runtime/arch/common/include/tapasco_jobs.h:126-133 | arg_count of any job is at most 32, and every slot from the count on is unset. |
| TapascoJobs.JobTable.GetArg | runtime/arch/common/include/tapasco_jobs.h:168-180 | get_arg on record j fails, with InvalidArgument, exactly for an index of 32 or more or a width other than 4 and 8; otherwise it returns len bytes. |
| TapascoJobs.JobTable.GetArg32 | runtime/arch/common/include/tapasco_jobs.h:135-144 | get_arg32 on any slot of record j returns a value below 2^32. |
| TapascoJobs.JobTable.GetArg64 | runtime/arch/common/include/tapasco_jobs.h:146-155 | get_arg64 on any slot of record j returns a value below 2^64, equal to get_arg32 when is_arg_64bit is false. |
| TapascoJobs.JobTable.IsArg64Bit | runtime/arch/common/include/tapasco_jobs.h:227-236 | A slot reported narrow holds a value below 2^32. |
| TapascoJobs.JobTable.GetArgTransfer | runtime/arch/common/include/tapasco_jobs.h:157-166 | A transfer found in slot idx makes the slot 64-bit, and get_arg64 returns its handle. |
| TapascoJobs.JobTable.GetReturn | runtime/arch/common/include/tapasco_jobs.h:114-124 | get_return on record j fails with InvalidState before FINISHED. It succeeds exactly in FINISHED with len at most the stored length, returning a prefix of that length. |
| TapascoJobs.JobTable.Acquire | runtime/arch/common/include/tapasco_jobs.h:256-261 | Returns None exactly when no record is READY, and then changes nothing. Otherwise it returns the id of a record that was READY, marks it REQUESTED, and leaves every other record and field unchanged. |
| TapascoJobs.JobTable.Release | runtime/arch/common/include/tapasco_jobs.h:263-268 | Record j is replaced by its cleared form, and the other records are unchanged. |
| TapascoJobs.JobTable.SetState | runtime/arch/common/include/tapasco_jobs.h:103-112 | Returns the previous state and installs the new one in record j only. |
| TapascoJobs.JobTable.SetKernelId | runtime/arch/common/include/tapasco_jobs.h:84-92 | Record j gets the kernel id, and nothing else changes. |
| TapascoJobs.JobTable.SetSlot | runtime/arch/common/include/tapasco_jobs.h:247-254 | Record j gets the slot id, and nothing else changes. |
| TapascoJobs.JobTable.SetArg | runtime/arch/common/include/tapasco_jobs.h:182-194 | Reports StoreArg's status. The table changes only on success, and only in record j. On success get_arg reads the value back. |
| TapascoJobs.JobTable.SetArgTransfer | runtime/arch/common/include/tapasco_jobs.h:196-212 | Reports StoreTransfer's status. The table changes only on success. On success get_arg_transfer returns the new transfer with the staged handle. |
| TapascoJobs.JobTable.SetReturn | runtime/arch/common/include/tapasco_jobs.h:214-225 | Always succeeds, and stores the return value in record j only. |
| TapascoJobs.AcquireAll | runtime/arch/common/include/tapasco_jobs.h:256-261 | From an all-READY table, 250 acquires return pairwise distinct ids, all now REQUESTED, and a 251st acquire reports a full table. |
| TapascoJobs.MarshalByWidth | runtime/arch/common/include/tapasco_jobs.h:135-155 | Choosing get_arg64 when is_arg_64bit holds and get_arg32 otherwise is defined for every slot and always yields the slot's full 64-bit value. |
| PcieIrq.FirstFailure | tlkm/pcie/pcie_irq.c:41-49 | The index of the first slot line whose request_irq fails: every answer before it is 0, and its own is not. |
| PcieIrq.InitOutcome | tlkm/pcie/pcie_irq.c:32-74 | Init returns 0 exactly when every request succeeds, and then makes one call per slot line. Otherwise it returns one of request_irq's errors and makes 2k + 1 calls for first failure k. The mapping keeps its size. |
| PcieIrq.ExitFrees | tlkm/pcie/pcie_irq.c:80-86 | Exit issues at most one free per slot line, and only for a mapped vector. |
| PcieIrq.PcieIrqs.constructor | tlkm/pcie/pcie_irq.c:82 | Every line starts unmapped, with no kernel call made, no work pending and nothing signalled. |
| PcieIrq.PcieIrqs.SlotIrq | tlkm/pcie/pcie_irq.c:20-27 | The top half schedules the work of slot line nr and returns IRQ_HANDLED. |
| PcieIrq.PcieIrqs.SlotIrqWork | tlkm/pcie/pcie_irq.c:13-18 | The bottom half consumes the scheduled work of line nr and signals slot interrupt nr to the control layer. |
| PcieIrq.PcieIrqs.Init | tlkm/pcie/pcie_irq.c:32-74 | The return value, the kernel calls made and the new mapping are exactly InitOutcome of the old mapping and request_irq's answers. |
| PcieIrq.PcieIrqs.RequestSlots | tlkm/pcie/pcie_irq.c:41-59 | Requests lines in order up to and including the first failing one. It records each answer in err and maps exactly the lines before the failure. |
| PcieIrq.PcieIrqs.RollbackSlots | tlkm/pcie/pcie_irq.c:62-73 | Frees and unmaps the lines registered before failing line k, in order, and returns line k's error. |
| PcieIrq.PcieIrqs.Exit | tlkm/pcie/pcie_irq.c:76-90 | Every slot line ends up unmapped. The frees issued are ExitFrees of the old mapping. |
| PcieIrq.PcieIrqs.RequestPlatformIrq | tlkm/pcie/pcie_irq.c:92-117 | A line number of at least TLKM_PLATFORM_INTERRUPTS yields -ENXIO and no effect. Otherwise the line is requested and request_irq's answer returned, and the line is mapped to its vector only on success. |
| PcieIrq.PcieIrqs.ReleasePlatformIrq | tlkm/pcie/pcie_irq.c:119-129 | An out-of-range line has no effect. Otherwise the line's current mapping is freed unconditionally and the line is unmapped. |
| PcieIrq.SlotLinesOnly | tlkm/pcie/pcie_irq.c:42 | Init and exit never touch a mapping entry outside the slot lines. |
| PcieIrq.InitAllSucceed | tlkm/pcie/pcie_irq.c:50-60 | When every request succeeds, init returns 0 and every slot line is mapped to its vector. |
| PcieIrq.InitFirstFailure | tlkm/pcie/pcie_irq.c:43-73 | When line k fails first, init returns line k's (nonzero) error. The slot lines before k are unmapped again, and line k and the lines after it keep their old entries. |
| PcieIrq.InitAllOrNothing | tlkm/pcie/pcie_irq.c:32-74 | Starting from unmapped slot lines, init either returns 0 with every slot line mapped, or returns an error with every slot line unmapped. |
| PcieIrq.UnmapAfterMap | tlkm/pcie/pcie_irq.c:51-67 | Unmapping the slot lines init just mapped restores those entries to Unmapped and leaves every other entry as it was before init. |
| PcieIrq.RequestsAgree | tlkm/pcie/pcie_irq.c:43 | The requests for the first count lines depend only on the first count answers. |
| PcieIrq.InitReadsOnlyRequestedLines | tlkm/pcie/pcie_irq.c:62-73 | After a failure at line k, the outcome depends only on answers 0..k, and the log holds 2k + 1 calls. |
| PcieIrq.HeldAppend | tlkm/pcie/pcie_irq.c:43-66 | The registration balance of a vector is additive over concatenated call logs. |
| PcieIrq.HeldRequests | tlkm/pcie/pcie_irq.c:43-51 | Successful requests of count slot lines register each vector as often as the lines use it. |
| PcieIrq.HeldFrees | tlkm/pcie/pcie_irq.c:66 | Freeing count slot lines removes each vector as often as the lines use it. |
| PcieIrq.InitFailureLeaksNothing | tlkm/pcie/pcie_irq.c:62-73 | A failed init leaves every vector's registration balance where it was: nothing leaks. |
| PcieIrq.ExitTwiceFreesNothing | tlkm/pcie/pcie_irq.c:76-90 | After exit, a second exit frees nothing. |
| PcieIrq.ExitAfterMapFreesAll | tlkm/pcie/pcie_irq.c:80-86 | After the slot lines are mapped to valid vectors, exit frees each of them once, in order. |
| PcieIrq.InitThenExitLeaksNothing | tlkm/pcie/pcie_irq.c:32-90 | Init with every request succeeding, then exit, frees each slot vector once and leaves every registration balance as before. |
| PcieIrq.RollbackAsWritten | tlkm/pcie/pcie_irq.c:62-73 | The rollback as written, testing err[nr] for every slot line: it issues only frees, at most one per line; it unmaps every line whose entry is 0; a nonzero result is one of the entries it read. |
| PcieIrq.RollbackReadsUnwrittenEntries | tlkm/pcie/pcie_irq.c:38-73 | A concrete case: depending on what the unwritten err entries hold, the loop as written frees a line that was never requested, or returns a different error. InitOutcome does neither. |

## Left out

- tapasco_jobs_init and tapasco_jobs_deinit (allocation of the table): the constructor creates the table, and memory release is not modelled.
- Copying argument and return bytes through `void *` buffers: values are byte sequences. The host buffer of a transfer is an identity (`HostBuffer`), not memory.
- Device-heap allocation in set_arg_transfer: the heap's answer is the `staging` parameter (None means allocation failed).
- Job ids: the public header does not show an id offset, so a job id is the record index 0..249, and every getter and setter requires a valid id (tapasco_jobs.c is not part of this model).
- TapascoJob.HighWater: arg_count is modelled as one past the highest slot that has been set; the header only says "number of arguments that have been set".
- TapascoJobs.JobTable.GetArg32, GetArg64, IsArg64Bit, GetArgTransfer: these have no error result in the header, so they require an index below 32 rather than model an out-of-bounds read.
- TapascoJob.ReadArg, ReadArg32, ReadArg64: a slot is read as one 64-bit value in host order. A 4-byte argument read at 8 bytes is zero-extended, while in the source's storage its upper bytes are whatever the slot held before. tapasco_jobs.c is not part of this model.
- TapascoJob.SlotValue: a transfer's handle is taken to be a 64-bit device address (tapasco_types.h is not part of this model), so is_arg_64bit holds for a transfer slot.
- TapascoJobs.JobTable.GetArgTransfer: returns a copy of the transfer. The source returns a pointer into the record, and writes through it (such as setting handle or preloaded after staging) are not modelled, so preloaded stays false once set_arg_transfer has run.
- PcieIrq.PcieIrqs.constructor: irq_mapping is initialised outside pcie_irq.c (pcie_device.c is not part of this model); the constructor starts every line unmapped, the state exit leaves behind.
- TapascoJob.LeValue: the header's uint32_t/uint64_t read-out is modelled as a little-endian decode (a little-endian host).
- TapascoJobs.JobTable.SetState: transitions are not validated, as in the header. Acquire does not clear a record, so only Release resets one.
- TapascoJobs.JobTable.SetReturn: no failing case is modelled; the header names none.
- Error codes: tapasco_errors.h is not part of this model. InvalidArgument, InvalidState and OutOfMemory stand for its failure results.
- Concurrency and locking around the table and the interrupt handlers: not modelled.
- TLKM_PLATFORM_INTERRUPTS and the number of lines in TLKM_PCIE_SLOT_INTERRUPTS: these macros are defined elsewhere, so they are constructor parameters.
- pci_irq_vector and request_irq: their answers are parameters (`vectors`, `errs`, `err`). The log records calls but not the handler, flags or name passed.
- Logging (DEVLOG, DEVERR) and BUG_ON checks: not modelled.
- INIT_WORK and the work item's data pointer: the work of slot line nr is a pending entry nr. The dev pointer stored in data as a `pci_dev` and read back as a `tlkm_pcie_device` is not modelled.
- PcieIrq.PcieIrqs.RequestPlatformIrq and ReleasePlatformIrq: the source checks only the upper bound, so a negative irq_no is excluded by precondition rather than modelled as an out-of-bounds array access.
- The intr_handler argument of pcie_irqs_request_platform_irq: not recorded.
- tlkm_device.h (device reference counting) and the Zynq platform files (zynq.h, zynq_enumerate.c): not part of this model.

## Findings

| source | as written | input that shows it | evidently intended | confidence | as-written member | corrected member |
|---|---|---|---|---|---|---|
| tlkm/pcie/pcie_irq.c:38-73 | After line k fails, the rollback tests `err[nr]` for every slot line. The local array `err` is written only up to line k, so later entries are uninitialised. | Two slot lines, and line 0 fails with -16. If `err[1]` happens to hold 0, `free_irq(-1)` is called for a line never requested. If it holds -5, init returns -5 instead of -16. | Roll back only lines 0..k-1, and return line k's error. | not executed | PcieIrq.RollbackReadsUnwrittenEntries | PcieIrq.InitReadsOnlyRequestedLines |
