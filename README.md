# OS/161 intersection controller and process-syscall bookkeeping

This project is a Dafny model of two sequential cores in an OS/161 kernel.
The kernel is the teaching kernel with the traffic-intersection
synchronisation problem and the fork / _exit / waitpid / execv system calls.
Locks and condition variables are removed and the remaining bookkeeping is
proved correct.

**`traffic_synch.dfy`, module `TrafficSynch`.** This is the intersection
controller.
- The global 4x4 matrix `could_access` becomes the `array2<int>` field
  `couldAccess` of the class `Intersection`.
- A ghost field `Inside` records the paths of the vehicles that have entered
  and not yet left.
- The class invariant `Valid` says that cell [a][b] equals `Load(Inside, a, b)`.
  That is the number of vehicles inside whose exemption mask (`Forbids`, the
  four `continue` tests of the matrix loops) forbids the path a -> b.
- `Enter` is `intersection_before_entry` from the moment its admission wait
  ends. The wait itself becomes the precondition that the vehicle's own cell
  is zero.
- `Exit` is `intersection_after_exit`. Instead of broadcasting it returns the
  set of origins whose condition variable it broadcasts.
- Their nested loops are the methods `AddMask` and `SubtractMask`. Each is
  proved against the per-cell specification "old value plus or minus the
  mask". `Enter` and `Exit` keep the invariant.
- The invariant also records what the admission test guarantees: no vehicle
  inside is forbidden by one that entered before it (`AdmittedInOrder`).
- Lemmas prove the following:
  - an entry followed by the matching exit restores the matrix;
  - cells never go negative;
  - a vehicle never blocks paths from its own origin;
  - in every state `Enter` and `Exit` reach, no two vehicles inside that are
    not making U-turns conflict, even when U-turns are inside with them
    (`Intersection.InsideNoConflict`; for U-turns see below);
  - the meaning of the right-turn table.

**`proc_syscalls.dfy`, module `ProcSyscalls`.** This covers the process system calls.
- `execv` packs its arguments into one buffer. The model keeps the two
  `while` loops: `CountArgs` counts the entries before NULL and sums
  strlen + 1, and `CopyArgs` copies each argument and records its offset.
- Both are proved against the reference functions `Footprint`, `Pack` and
  `Offset`. `UnpackArg` proves that reading a C string at each recorded
  offset gives back that argument.
- The class `Process` holds the children array, the exit flag and the exit
  status.
- `exit_lock` is modelled as a boolean "held" flag on each child record.
- `Fork` appends the new child and holds its lock. The result of
  `array_add` is never checked, so when it fails fork still succeeds and
  holds the lock, but the child is not in the array. The parent's `_exit`
  then never releases that lock (`ForkUnaddedThenExit`).
- `SysExit` drains the children from last to first, releasing each lock, and
  then publishes the exit flag and `_MKWAIT_EXIT(exitcode)`.
- `SysWaitpid` models the option check and the result of waitpid once the
  target has exited.

Calls into the rest of the kernel are parameters that give their outcome:
- `proc_create_runprogram`, `as_copy`, `kmalloc`, `thread_fork` and
  `array_add`, whose success or failure is passed in;
- `runprogram` and `_MKWAIT_EXIT`, which are passed as functions;
- `copyout`, whose result code is passed in.

`copyinstr` is a total copy (`CopyInStr`).

Directions are the raw values of the `Direction` enumeration, in the order
north = 0, east = 1, south = 2, west = 3. `which_direction` assumes this
order. The admission wait indexes the matrix by the raw values while the
loops use `which_direction`, and the two agree only under this order.
Error numbers are OS/161's: ENOMEM = 3, EINVAL = 8. The errno header is not
part of this model, so the values are those of the stock OS/161 header.

Behaviour of the code worth knowing:
- **U-turns.** The loops never touch diagonal cells, so a U-turn path is
  never blocked by anyone. A U-turn vehicle's own mask still forbids other
  paths. A U-turn from north is therefore admitted while east -> west is
  inside, although it then forbids east -> west
  (`UTurnAdmittedAgainstItsMask`). For all other paths the mask is
  symmetric, and admission keeps the vehicles inside pairwise free of
  conflict (`AdmissionKeepsNoConflict`, `InOrderNoConflict`).
- **The right-turn table.** `if_right_turning` lists south -> east,
  east -> north, north -> west and west -> south. In the enumeration order
  above each destination is the compass neighbour before its origin
  (`RightTurnIsPreviousNeighbour`). The model follows this table. A right
  turn north -> west waits only for vehicles from the other origins that
  also head west (`NorthWestWaitsOnlyForWest`).
- **waitpid.** It waits for the target to exit before it checks `options`, so
  a call with bad options still blocks until the target exits.

## Model

| member | source | states |
|---|---|---|
| TrafficSynch.WhichDirection | kern/synchprobs/traffic_synch.c:94-100 | the result is in 0..4; it is below 4 exactly for the four compass values, and then it is the value itself (north 0, east 1, south 2, west 3); anything else gives 4 |
| TrafficSynch.RightTurnIsPreviousNeighbour | kern/synchprobs/traffic_synch.c:102-108 | a pair is a right turn iff the origin is a compass value and the destination is the neighbour before it, (o + 3) mod 4 |
| TrafficSynch.IfRightTurning | kern/synchprobs/traffic_synch.c:102-108 | the right-turn test, the same chain of four pairs; its meaning is stated by RightTurnIsPreviousNeighbour and RightTurnsAreFour |
| TrafficSynch.RightTurnsAreFour | kern/synchprobs/traffic_synch.c:102-108 | of the 16 direction pairs exactly (2,1), (1,0), (0,3) and (3,2) are right turns |
| TrafficSynch.Forbids | kern/synchprobs/traffic_synch.c:123-126 | a vehicle on path p forbids a -> b unless one of the four `continue` tests skips cell [a][b]; the same tests are at lines 156-159 |
| TrafficSynch.Mask | kern/synchprobs/traffic_synch.c:121-129 | what one vehicle adds to cell [a][b] on entry and takes away on exit: 1 if it forbids the path, else 0 |
| TrafficSynch.Load | kern/synchprobs/traffic_synch.c:121-129 | the count a cell must hold for a list of vehicles never exceeds the number of vehicles |
| TrafficSynch.RemoveOne | kern/synchprobs/traffic_synch.c:147-167 | the vehicles left after one leaves: the multiset minus that vehicle, or unchanged if it is not there |
| TrafficSynch.LoadSnoc | kern/synchprobs/traffic_synch.c:121-129 | one more vehicle adds exactly its mask to every cell |
| TrafficSynch.LoadAppend | kern/synchprobs/traffic_synch.c:121-129 | cell counts are additive over groups of vehicles |
| TrafficSynch.LoadZeroIff | kern/synchprobs/traffic_synch.c:118-120 | a cell is zero iff no vehicle inside forbids its path, both directions |
| TrafficSynch.LoadRemoveOne | kern/synchprobs/traffic_synch.c:154-164 | one vehicle leaving lowers every cell by exactly that vehicle's mask |
| TrafficSynch.EnterThenExitRestores | kern/synchprobs/traffic_synch.c:121-164 | an entry followed by the matching exit leaves every cell as it was |
| TrafficSynch.SameOriginNeverWaits | kern/synchprobs/traffic_synch.c:123-124 | vehicles from one origin leave every cell of that origin's row, and every diagonal cell, at zero |
| TrafficSynch.ForbidsSymmetricOffDiagonal | kern/synchprobs/traffic_synch.c:123-126 | for two paths that are not U-turns, p forbids q iff q forbids p |
| TrafficSynch.RightTurnForbidsOnlyItsExit | kern/synchprobs/traffic_synch.c:126 | a right-turning vehicle forbids exactly the paths from the other origins into its own exit |
| TrafficSynch.AdmissionKeepsNoConflict | kern/synchprobs/traffic_synch.c:118-129 | admitting a non-U-turn vehicle whose cell is zero keeps the vehicles inside pairwise free of conflict |
| TrafficSynch.ExitKeepsNoConflict | kern/synchprobs/traffic_synch.c:147-167 | a vehicle leaving keeps the remaining vehicles pairwise free of conflict |
| TrafficSynch.AdmissionKeepsOrder | kern/synchprobs/traffic_synch.c:118-129 | a vehicle admitted with a zero cell is forbidden by none of the vehicles already inside |
| TrafficSynch.ExitKeepsOrder | kern/synchprobs/traffic_synch.c:147-167 | a vehicle leaving keeps that guarantee for the vehicles still inside |
| TrafficSynch.InOrderNoConflict | kern/synchprobs/traffic_synch.c:118-129 | vehicles admitted that way, none of them on a U-turn, are pairwise free of conflict |
| TrafficSynch.NorthWestWaitsOnlyForWest | kern/synchprobs/traffic_synch.c:126 | the right turn north -> west is forbidden exactly by vehicles from another origin that head west |
| TrafficSynch.UTurnAdmittedAgainstItsMask | kern/synchprobs/traffic_synch.c:118-126 | a north U-turn is admitted beside east -> west, and then the vehicles inside are in conflict |
| TrafficSynch.Scenarios | kern/synchprobs/traffic_synch.c:121-129 | north -> south does not block south -> north; east -> west blocks north -> east and north -> west; east -> south does not block north -> west |
| TrafficSynch.Intersection.constructor | kern/synchprobs/traffic_synch.c:56-60 | all 16 cells start at zero, with no vehicle inside |
| TrafficSynch.Intersection.MustWait | kern/synchprobs/traffic_synch.c:118-120 | a vehicle waits iff some vehicle inside forbids its path |
| TrafficSynch.Intersection.AddMask | kern/synchprobs/traffic_synch.c:121-129 | the nested loops raise each cell by exactly the vehicle's mask |
| TrafficSynch.Intersection.SubtractMask | kern/synchprobs/traffic_synch.c:154-165 | the nested loops lower each cell by exactly the vehicle's mask, and wake origin a iff a cell [a][b] they lowered is now zero |
| TrafficSynch.Intersection.Enter | kern/synchprobs/traffic_synch.c:111-131 | each cell grows by exactly the new vehicle's mask; the vehicle is added to those inside, and both the matrix invariant and the admission order hold |
| TrafficSynch.Intersection.Exit | kern/synchprobs/traffic_synch.c:147-167 | each cell drops by exactly the vehicle's mask and stays non-negative; the vehicle is removed and the invariant holds; origin a is woken iff a cell [a][b] that this exit decremented is now zero |
| TrafficSynch.Intersection.InsideNoConflict | kern/synchprobs/traffic_synch.c:118-129 | in every state satisfying the invariant, no vehicle inside that is not making a U-turn is forbidden by another such vehicle, whatever U-turns are inside with them |
| ProcSyscalls.Strings | kern/syscall/proc_syscalls.c:180-183 | the strings of a NULL-free prefix of argv, one per entry, in order |
| ProcSyscalls.Pack | kern/syscall/proc_syscalls.c:187-198 | the packed buffer is exactly the sum of strlen + 1 long |
| ProcSyscalls.PackSnoc | kern/syscall/proc_syscalls.c:181 | one more argument adds its strlen + 1 to the total and appends it, terminated, to the packing |
| ProcSyscalls.StringsSnoc | kern/syscall/proc_syscalls.c:180-182 | counting one more non-NULL entry adds its string at the end |
| ProcSyscalls.FootprintAppend | kern/syscall/proc_syscalls.c:191-198 | sizes add up and packings concatenate over consecutive groups of arguments |
| ProcSyscalls.PackedAt | kern/syscall/proc_syscalls.c:193-196 | argument i lies at its offset followed by NUL, inside the buffer, and the next offset is this one plus strlen + 1 |
| ProcSyscalls.PackedChars | kern/syscall/proc_syscalls.c:193-196 | the same, character by character |
| ProcSyscalls.ReadCStringStops | kern/syscall/proc_syscalls.c:195 | reading a C string where s and a NUL were written gives back s |
| ProcSyscalls.UnpackAt | kern/syscall/proc_syscalls.c:195 | the string read at argument i's offset is argument i |
| ProcSyscalls.UnpackArg | kern/syscall/proc_syscalls.c:193-199 | every pointer handed to runprogram reads back its argument, in the original order |
| ProcSyscalls.CopyInStr | kern/syscall/proc_syscalls.c:194 | the string and a NUL land at the destination offset, nothing else changes, and strlen + 1 bytes are reported |
| ProcSyscalls.CountArgs | kern/syscall/proc_syscalls.c:177-183 | arg_num is the index of the first NULL entry, and finallen is the sum of strlen + 1 over the entries before it |
| ProcSyscalls.CopyArgs | kern/syscall/proc_syscalls.c:187-198 | the finallen-byte buffer holds the arguments in order, each NUL-terminated, and newargs[i] is the sum of strlen + 1 over the entries before i |
| ProcSyscalls.Execv | kern/syscall/proc_syscalls.c:176-202 | the program copy holds exactly the path and its NUL; the argument buffer and offsets are as in CopyArgs; execv returns 1 with runprogram's result as retval |
| ProcSyscalls.Reversed | kern/syscall/proc_syscalls.c:73-77 | the reversal lists the elements from last to first, as a permutation |
| ProcSyscalls.Process.constructor | kern/syscall/proc_syscalls.c:26 | a new record has the given id, no children, its exit lock free and has not exited |
| ProcSyscalls.Process.Fork | kern/syscall/proc_syscalls.c:25-51 | success iff process creation, address-space copy, trapframe allocation and thread_fork succeed; failure gives ENOMEM with the children unchanged; success sets retval to the new id and holds the fresh child's exit lock, and appends the child iff array_add succeeded |
| ProcSyscalls.Process.SysExit | kern/syscall/proc_syscalls.c:73-79 | the children array ends empty; every former child's lock is released, last child first; the exit flag is set and exitnum is _MKWAIT_EXIT(exitcode) |
| ProcSyscalls.SysWaitpid | kern/syscall/proc_syscalls.c:160-168 | nonzero options give EINVAL without a copyout; otherwise the exit status is copied out, a copyout error is returned as is, and success sets retval to pid |
| ProcSyscalls.ForkUnaddedThenExit | kern/syscall/proc_syscalls.c:48-77 | after a fork whose array_add fails, the parent's _exit does not release the child: the child is not among the released records and its exit lock stays held |
| ProcSyscalls.ForkExitWait | kern/syscall/proc_syscalls.c:131-168 | a forked child that exits with a code is waited for with that encoded code and its id |

## Left out

- Locks and condition variables are not modelled: `lock_acquire`/`lock_release`, `cv_wait` and `cv_broadcast` in both files. Their point is concurrency. Admission is a precondition of `Enter`, and the broadcasts are the set `Exit` returns.
- `intersection_sync_cleanup` and the `panic` paths of `intersection_sync_init` are not modelled; they only allocate and tear down. The test at traffic_synch.c:52 checks the array itself, not the condition variable just created.
- TrafficSynch.Intersection.Exit: it requires that the vehicle is inside. An exit without a matching entry would drive cells negative in the source.
- Kernel plumbing in `fork` and `sys__exit` is not modelled: `proc_create_runprogram`, `as_copy`, `kmalloc`/`memcpy` of the trapframe, `kfree`, `as_deactivate`, `as_destroy`, `proc_remthread`, `proc_destroy` and `thread_exit`. Only the outcome of each is kept, as a parameter.
- The reclamation handoff on the process's own `exit_lock` at the end of `sys__exit` and the wait loop of `sys_waitpid` are not modelled, because they are only about thread interleaving.
- `find_proc_with_id` is not part of this model. The target process is passed in, because its result is never checked for NULL.
- ProcSyscalls.SysWaitpid: it requires that the target has exited. It starts where the source's wait loop ends.
- `copyinstr`, `copyout`, `runprogram` and `_MKWAIT_EXIT` cross the user/kernel boundary or lie outside the two files. `copyinstr` is a copy that always succeeds. The others are parameters.
- `sys_getpid` is not modelled; it only reads a field.
- Integer widths are not modelled. `size_t`, `unsigned long` and `int` are unbounded integers here, and overflow of `finallen` or of the matrix counters is ignored.
- The stack arrays of `execv` are modelled as allocated arrays. `newargs` holds offsets into the argument buffer instead of pointers.
