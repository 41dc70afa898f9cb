# no_fscache in Dafny

`no_fscache` is a Linux live patch. It replaces the `read`, `write`,
`readv`, `writev`, `pread64`, `pwrite64`, `preadv` and `pwritev` system
calls with versions that run the original transfer and then ask the kernel
to drop the page-cache pages the transfer touched. They do this with
`fadvise(POSIX_FADV_DONTNEED)` over the page-aligned range. On the write
path, when the file is not synchronous, they first flush the written bytes
with `sync_file_range(WRITE | WAIT_AFTER)`.

This project models `no_fscache.c` and proves properties of the model:

- `kernel.dfy` (module `Kernel`): the machine integer types (`loff_t`,
  `size_t`, `int`), C's conversions between them, the error numbers, the
  `struct file` object as a class, and the kernel as a `Host`. The `Host`
  records every primitive call the replacements make (lock, unlock,
  transfer, flush, fadvise) in a ghost trace.
- `bits.dfy` (module `Bits`): bitwise AND, OR and a 64-bit left shift on
  naturals, with the facts about masks and disjoint OR that the source's
  bit tricks rely on.
- `pages.dfy` (module `Pages`): `nearest_left_page_boundary` and
  `nearest_right_page_boundary`, including the size_t wrap-around of the
  latter.
- `advise.dfy` (module `Advise`): `is_direct`, `is_sync`,
  `advise_dontneed` and the two post-transfer gates.
- `cursor.dfy` (module `Cursor`): `file_pos_read`/`file_pos_write` with
  the `FMODE_STREAM` rule, and `cp_fdget_pos`/`cp_fdput_pos` with the
  `f_pos_lock` decision.
- `vectored.dfy` (module `Vectored`): `vfs_writev`, `do_iter_write`,
  `do_iter_readv_writev` and the loop `do_loop_readv_writev`. The loop is
  proved equal to a closed form.
- `syscalls.dfy` (module `Syscalls`): the eight replacements, `do_readv`,
  `do_preadv`, `do_writev`, `do_pwritev` and `pos_from_hilo`.
- `startup.dfy` (module `Startup`): `fill_func_symbol`, `resolve_func`,
  `no_fscache_init` and `no_fscache_exit`.

The kernel side of every call is an input to the model:

- what `__fdget`/`fdget` found, as a `File?` (null for a bad descriptor);
- the outcome of the transfer, as an `Xfer`;
- the answers of `sync_file_range2` and `fadvise64_64`, as `Replies`;
- the answers of `kallsyms_lookup_name` and the `klp_*` calls.

What the replacements do with those inputs is stated in full. This covers
the return value, the new `f_pos`, the lock state and the exact sequence
of primitive calls.

## Model

| member | source | states |
|---|---|---|
| Pages.PageMaskIsMod | no_fscache.c:82-91 | for x >= 0, `x & (PAGE_SIZE - 1)` is `x % PAGE_SIZE` |
| Pages.NearestLeftPageBoundary | no_fscache.c:82-85 | the result is a multiple of PAGE_SIZE, at most the offset, and within one page below it |
| Pages.LeftBoundaryIsLargest | no_fscache.c:82-85 | every multiple of PAGE_SIZE not above the offset is at most the left boundary, so it is the largest one |
| Pages.NearestRightPageBoundary | no_fscache.c:87-91 | the result is page-aligned; an aligned offset is returned unchanged; below the last page it is within one page above the offset; an unaligned offset in the last page of size_t wraps to 0 |
| Pages.RightBoundaryIsSmallest | no_fscache.c:87-91 | without wrap-around, every multiple of PAGE_SIZE not below the offset is at least the right boundary, so it is the smallest one |
| Advise.AdviseCalls | no_fscache.c:96-127 | there are exactly two calls after a successful flush and one otherwise; the flush comes first exactly when flush is set, and it covers the unaligned (fpos, nbytes); every later call is an fadvise; the last call is an fadvise exactly unless the flush failed; that fadvise covers [left boundary of fpos, right boundary of fpos + nbytes) with DONTNEED |
| Advise.AdviseDontneed | no_fscache.c:96-127 | appends exactly those calls to the trace; returns the flush's error when it failed, else fadvise's answer |
| Advise.EvictRangeCovers | no_fscache.c:123-126 | without wrap-around, the fadvise range is page-aligned at both ends and contains [fpos, fpos + nbytes); each end is within one page of the exact range, and len <= nbytes + 2*PAGE_SIZE - 2 |
| Advise.EvictLenEmpty | no_fscache.c:123-126 | an aligned fpos with nbytes 0 gives offset fpos and length 0 |
| Advise.AdviseDontneedAfterRead | no_fscache.c:133-146 | appends the read gate's calls: a flushless advice over [lpos - ret, lpos) when ret >= 0 on a regular, non-direct, non-DAX file, and nothing otherwise |
| Advise.ReadAdvice | no_fscache.c:139-146 | advice is issued if and only if the read gate is open; it is then a single fadvise on fd and never a flush; when lpos - ret >= 0 it covers the bytes read with whole pages and is shorter than ret + 2*PAGE_SIZE - 1 |
| Advise.ZeroByteReadAdvice | no_fscache.c:139-146 | a 0-byte read on a cached regular file still issues exactly one fadvise; at an aligned position its length is 0 |
| Advise.AdviseDontneedAfterWrite | no_fscache.c:272-289 | appends the write gate's calls: advice over [pos - ret, pos) when ret > 0 on a regular, non-direct, non-DAX file, flushing unless O_DSYNC, __O_SYNC or IS_SYNC holds |
| Advise.WriteAdvice | no_fscache.c:272-289 | advice is issued if and only if the write gate is open (ret > 0 strictly); it is two calls when the file is not synchronous and the flush succeeds, one otherwise; it starts with a flush of the unaligned written range if and only if the file is not synchronous; a failed flush leaves only the flush; otherwise the last call is an fadvise that covers the written bytes with whole pages |
| Advise.WriteFlushThenEvict | no_fscache.c:96-127 | a flushing write whose flush succeeds issues exactly the flush, then one fadvise |
| Advise.StreamReadAdvice | no_fscache.c:139-146 | a 10-byte read whose advice is taken at position 0 (the unmoved cursor of a stream-like file) issues one fadvise at offset -4096 of length 4096 |
| Advise.WriteScenario | no_fscache.c:96-127 | a 10-byte write that ends at 4116 flushes (4106, 10) and evicts (4096, 4096) |
| Cursor.FilePosWrite | no_fscache.c:64-68 | f_pos becomes pos unless the file is stream-like; nothing else changes |
| Cursor.FdgetPos | no_fscache.c:34-51 | takes f_pos_lock, and records that it did, exactly when the file has FMODE_ATOMIC_POS and more than one reference; logs the lock; leaves f_pos alone |
| Cursor.FdputPos | no_fscache.c:70-80 | releases f_pos_lock, and logs the unlock, exactly when the recorded flag says it was taken |
| Vectored.FirstShort | no_fscache.c:342-362 | the index where the segment loop stops: every earlier segment completed in full with bytes still requested, and at the index nothing more is requested or the result is short or negative |
| Vectored.DoLoopReadvWritev | no_fscache.c:334-366 | the loop's result and final position equal the closed form LoopOutcome, which is -EOPNOTSUPP for flags other than RWF_HIPRI |
| Vectored.LoopAllFull | no_fscache.c:334-366 | when every segment completes in full, the result is the total requested |
| Vectored.LoopWithinRequest | no_fscache.c:334-366 | when no segment returns more than it asked for, the result is at most the total requested |
| Vectored.LoopErrorOnlyFirst | no_fscache.c:353-357 | a negative result is the error of the stopping segment, and every segment before it requested and transferred nothing |
| Vectored.LoopErrorAfterProgress | no_fscache.c:353-357 | a segment that fails after bytes were transferred leaves the loop returning those bytes |
| Vectored.DoIterReadvWritev | no_fscache.c:312-331 | a refused flag returns its error at once and keeps *ppos; otherwise write_iter's result is returned, is never -EIOCBQUEUED, and *ppos becomes the final ki_pos |
| Vectored.DoIterWrite | no_fscache.c:368-393 | a positive result implies FMODE_WRITE, FMODE_CAN_WRITE, a non-empty request and a passed rw_verify_area |
| Vectored.IterWriteGuardOrder | no_fscache.c:374-384 | the guards run in order: -EBADF, then -EINVAL, then 0 for an empty request, then rw_verify_area's error; none of them moves the position |
| Vectored.VfsWritev | no_fscache.c:395-411 | a positive result implies that import_iovec succeeded and the file is writable |
| Vectored.WritevWithinRequest | no_fscache.c:395-411 | when the back ends report no more than was requested, writev reports no more than the segments requested |
| Syscalls.PosFromHilo64 | no_fscache.c:224-228 | with 64-bit longs, the double half-word shift discards high, so the offset is low read as loff_t |
| Syscalls.PosFromHilo32 | no_fscache.c:224-228 | with 32-bit longs, the offset is high * 2^32 + low read as loff_t; this is the exact sum when high < 2^31 |
| Syscalls.SysRead | no_fscache.c:148-166 | a bad fd gives -EBADF with no calls; otherwise it returns the transfer's ret unchanged, whatever the advice answers. The transfer starts at f_pos (0 for a stream), and f_pos is committed only when ret >= 0 on a non-stream file. The lock is taken and released around the transfer exactly when it was needed, and the read advice follows at the committed f_pos |
| Syscalls.DoReadv | no_fscache.c:168-190 | what SysRead states, for the readv transfer |
| Syscalls.SysReadv | no_fscache.c:192-197 | what DoReadv states, with flags 0 |
| Syscalls.SysWrite | no_fscache.c:291-310 | what SysRead states, with the write advice at the committed f_pos |
| Syscalls.DoWritev | no_fscache.c:413-435 | what SysWrite states, with the transfer outcome given by VfsWritev at the starting cursor |
| Syscalls.SysWritev | no_fscache.c:437-442 | what DoWritev states, with flags 0 |
| Syscalls.SysPread64 | no_fscache.c:199-222 | a negative pos gives -EINVAL and a bad fd -EBADF, both with no calls; no FMODE_PREAD gives -ESPIPE with no transfer and no advice; otherwise it returns the transfer's ret after one transfer at pos and the read advice at the position the transfer left. f_pos is never written |
| Syscalls.DoPreadv | no_fscache.c:230-256 | what SysPread64 states, for the readv transfer |
| Syscalls.SysPreadv | no_fscache.c:258-267 | what DoPreadv states, at the offset pos_from_hilo gives on a 64-bit kernel (pos_l as loff_t) |
| Syscalls.SysPwrite64 | no_fscache.c:444-468 | what SysPread64 states, with FMODE_PWRITE and the write advice |
| Syscalls.DoPwritev | no_fscache.c:470-496 | what SysPwrite64 states, with the transfer outcome given by VfsWritev at pos |
| Syscalls.SysPwritev | no_fscache.c:498-507 | what DoPwritev states, at the offset pos_from_hilo gives on a 64-bit kernel |
| Startup.FirstUnresolved | no_fscache.c:542-556 | the index of the first table name the lookup answers 0 for; every earlier name resolves |
| Startup.FillFuncSymbol | no_fscache.c:528-540 | a lookup of 0 gives -ENOENT and leaves the table alone; otherwise it stores the address in this entry only and returns 0 |
| Startup.ResolveFunc | no_fscache.c:542-556 | returns 0 exactly when every name resolves, and -ENOENT otherwise; the entries before the first unresolved name hold their addresses, and it and every later entry are untouched |
| Startup.NoFscacheInit | no_fscache.c:588-607 | returns 0 exactly when resolution, registration and enabling all succeed, leaving the patch registered and enabled. A failed resolution or registration returns its error with nothing registered. A failed enable returns the enable error and unregisters the patch, and the patch stays registered only if unregistering fails |
| Startup.Patch.constructor | no_fscache.c:563-586 | the patch starts unregistered and disabled and replaces exactly the eight functions of funcs[], in table order |
| Startup.NoFscacheExit | no_fscache.c:609-612 | unregisters the patch; it stays registered only if unregistering fails |

`is_direct`, `is_sync` and `file_pos_read` (no_fscache.c:133-137,
272-276, 59-62) are the predicates `Advise.IsDirect` and `Advise.IsSync`
and the function `Cursor.FilePosRead`. The gates and the system calls
above use them. `dept_fsyms` and `funcs[]` (no_fscache.c:519-526,
563-573) are the constants `Startup.FSYM_NAMES` and
`Startup.KLP_FUNC_NAMES`; the latter is the function list of every
`Startup.Patch`.

## Left out

- Kernel plumbing:
  - `__fdget`/`fdput` reference counting is left out; what the lookups found is an input.
  - The narrowing of an `unsigned long` fd to `unsigned int` and `int`
    is left out; fds are naturals.
  - `import_iovec`, user-memory copying and `kfree` are left out.
    `import_iovec`'s result and the segments it produced are inputs.
  - `orig_vfs_read`, `orig_vfs_write`, `orig_vfs_readv`,
    `call_write_iter`, the per-segment `f_op->write` and `rw_verify_area`
    are abstract results.
- `fsnotify_modify`, `file_start_write`/`file_end_write` and the
  `add_rchar`/`inc_syscr`/`add_wchar`/`inc_syscw` task accounting are left
  out: they do not affect any returned value or any call the model records.
- Concurrency:
  - `f_pos_lock` is a boolean. A call that would take it requires it to be
    free, because there is no other thread to wait for.
  - The race between flush and evict is not modelled.
  - The read of `f_pos` after the unlock is an ordinary field read.
- `kallsyms_lookup_name` and `klp_register_patch`, `klp_enable_patch` and
  `klp_unregister_patch` are left out. Their answers are inputs.
  `WARN_ON` and the `pr_err` message of `fill_func_symbol` are logging
  only and have no effect in the model.
- `BUG_ON(ret == -EIOCBQUEUED)` in `do_iter_readv_writev` is a
  precondition on the write_iter answer. The callers of `vfs_writev` carry
  it.
- PAGE_SIZE is fixed at 4096, and the syscall path assumes a 64-bit kernel
  (`BITS_PER_LONG` 64). `pos_from_hilo` is also proved for 32-bit longs.
- `POSIX_FADV_DONTNEED` is 4, its value everywhere except s390x.
- The segments of a vectored write are the iovecs that `iov_iter_iovec`
  yields in turn. The iterator's own bookkeeping is not modelled.
- Only the WRITE direction of `do_iter_readv_writev` and
  `do_loop_readv_writev` is modelled, because `vfs_writev` is their only
  caller in this file. Vectored reads go through `orig_vfs_readv`, whose
  outcome is an input.
- Vectored.LoopOutcome: the running ssize_t sum is an unbounded integer,
  and `Seg.len` is any size_t. In the kernel, `import_iovec` (outside this
  file) clamps the total request to MAX_RW_COUNT, so the sum cannot pass
  2^63; the model does not carry that clamp.
- Vectored.LoopWithinRequest and Vectored.WritevWithinRequest assume that
  `f_op->write` and `write_iter` never report more than they were asked
  for. This is the file-operation contract, not something this file checks.
- Syscalls.DoReadv and Syscalls.DoPreadv: `flags` only reaches
  `orig_vfs_readv`, whose outcome is given, so it has no effect in the
  model.
- no_fscache_lp.c is not part of this model: it is a demonstration patch
  with no logic.
- Open interception, `preadv2`/`pwritev2`, a readahead switch and a device
  allow-list are described for this system but do not appear in
  no_fscache.c. They are not modelled.
- Where descriptions of the system and the code differ, the model follows
  the code:
  - The read gate is `ret >= 0` (no_fscache.c:144), so a zero-byte read
    still issues an fadvise.
  - The flush covers the unaligned written range (no_fscache.c:103-105),
    not the page-aligned one. `Advise.WriteScenario` shows this for the
    10-byte write at offset 4106.
  - On a stream-like regular file, `file_pos_write` never advances f_pos
    (no_fscache.c:64-68), yet the plain wrappers advise at f_pos minus ret
    (no_fscache.c:163, 306). A 10-byte read at f_pos 0 therefore advises
    from offset -10, rounded down to -4096; `Advise.StreamReadAdvice` states
    this. The design intent is that stream files are not advised with such a
    slid offset.
