/**
 * The eight replacement system calls. The cursor-based ones (read, readv,
 * write, writev) take the file cursor under f_pos_lock, run the original
 * transfer, commit the cursor on success, drop the lock and then run the
 * eviction advisor at the committed f_pos. The positional ones (pread64,
 * preadv, pwrite64, pwritev) reject a negative offset, require the pread or
 * pwrite mode bit, never touch f_pos and advise at the position the
 * transfer left behind.
 *
 * __fdget / fdget is modelled by the file it found, null for a bad
 * descriptor; the data transfer by its outcome (Xfer).
 */
module Syscalls {
  import opened Kernel
  import opened Bits
  import opened Advise
  import opened Cursor
  import opened Vectored

  /** BITS_PER_LONG of a 64-bit kernel. */
  const BITS_PER_LONG: nat := 64

  /** One past the largest unsigned long of a kernel with the given word size. */
  function LongLimit(bitsPerLong: nat): nat
  {
    if bitsPerLong == 32 then 0x1_0000_0000 else U64
  }

  /**
   * pos_from_hilo(high, low): high is shifted left by half a word twice, so
   * that a 64-bit kernel discards it without an over-wide shift, and OR-ed with
   * low; the shifts are done in a 64-bit register.
   */
  function PosFromHilo(bitsPerLong: nat, high: nat, low: nat): loff
    requires bitsPerLong == 32 || bitsPerLong == 64
    requires high < LongLimit(bitsPerLong) && low < LongLimit(bitsPerLong)
  {
    var half := bitsPerLong / 2;
    ToLoff(BitOr(ShiftLeft64(ShiftLeft64(high, half), half), low))
  }

  lemma ModOfMultiple(m: int, t: int)
    requires m > 0
    ensures (m * t) % m == 0
  {
    DivModUnique(m * t, m, t, 0);
  }

  /** On a 64-bit kernel the high word is discarded: the offset is the low word read as loff_t. */
  lemma PosFromHilo64(high: size, low: size)
    ensures PosFromHilo(64, high, low) == ToLoff(low)
  {
    Pow2Of32();
    var p32 := Pow2(32);
    var once := ShiftLeft64(high, 32);
    var q := (high * p32) / U64;
    assert once == high * p32 - U64 * q;
    calc {
      once * p32;
      high * (p32 * p32) - U64 * q * p32;
      U64 * (high - q * p32);
    }
    ModOfMultiple(U64, high - q * p32);
    assert ShiftLeft64(once, 32) == 0;
  }

  /** A shift that loses no bits is a multiplication. */
  lemma ShiftLeft64Exact(x: nat, n: nat)
    requires x * Pow2(n) < U64
    ensures ShiftLeft64(x, n) == x * Pow2(n)
  {}

  /** On a 32-bit kernel the offset is high * 2^32 + low, read as loff_t. */
  lemma PosFromHilo32(high: nat, low: nat)
    requires high < 0x1_0000_0000 && low < 0x1_0000_0000
    ensures PosFromHilo(32, high, low) == ToLoff(high * 0x1_0000_0000 + low)
    ensures high < 0x8000_0000 ==> PosFromHilo(32, high, low) == high * 0x1_0000_0000 + low
  {
    Pow2Of16();
    Pow2Of32();
    var once := high * 0x1_0000;
    ShiftLeft64Exact(high, 16);
    assert ShiftLeft64(high, 16) == once;
    ShiftLeft64Exact(once, 16);
    assert ShiftLeft64(once, 16) == high * Pow2(32);
    BitOrDisjoint(high, low, 32);
  }

  /**
   * The primitive calls of a cursor-based system call: f_pos_lock around the
   * transfer when it is taken, then whatever the advisor issued.
   */
  function CursorCalls(locked: bool, start: loff, advice: seq<Event>): seq<Event>
  {
    LockedTransfer(locked, start) + advice
  }

  /** The transfer at start, inside f_pos_lock when it is taken. */
  function LockedTransfer(locked: bool, start: loff): seq<Event>
  {
    (if locked then [PosLock] else []) + [Transfer(start)] + (if locked then [PosUnlock] else [])
  }

  /** f_pos after a cursor-based transfer: its position when it succeeded, unless the file is stream-like. */
  function CommittedPos(a: FileAttrs, before: loff, x: Xfer): loff
  {
    if x.ret >= 0 && !a.stream then x.pos else before
  }

  /**
   * The common middle of the cursor-based calls, once the file was found:
   * read the cursor, transfer, commit the new position when the transfer
   * succeeded, and drop f_pos_lock if it was taken.
   */
  method TransferAtCursor(host: Host, f: Fd, xfer: Xfer) returns (r: int)
    requires f.file != null && (f.unlock ==> f.file.posLockHeld)
    modifies host, f.file
    ensures r == xfer.ret
    ensures f.file.pos == CommittedPos(f.file.attrs, old(f.file.pos), xfer)
    ensures f.file.count == old(f.file.count) && f.file.posLockHeld == (old(f.file.posLockHeld) && !f.unlock)
    ensures host.trace == old(host.trace) + [Transfer(old(FilePosRead(f.file)))]
                          + (if f.unlock then [PosUnlock] else [])
  {
    var pos := FilePosRead(f.file);
    r, pos := host.Transfer(pos, xfer);
    if r >= 0 {
      FilePosWrite(f.file, pos);
    }
    FdputPos(host, f);
  }

  /** no_fscache_sys_read. */
  method SysRead(host: Host, fd: nat, file: File?, xfer: Xfer, replies: Replies) returns (r: int)
    requires file != null && TakesPosLock(file) ==> !file.posLockHeld
    modifies host, file
    ensures file == null ==> r == -EBADF && host.trace == old(host.trace)
    ensures file != null ==>
      && r == xfer.ret
      && file.pos == CommittedPos(file.attrs, old(file.pos), xfer)
      && file.count == old(file.count) && file.posLockHeld == old(file.posLockHeld)
      && host.trace == old(host.trace) + CursorCalls(old(TakesPosLock(file)), old(FilePosRead(file)),
                                                     AfterReadCalls(xfer.ret, file.attrs, fd, file.pos))
  {
    ghost var before := host.trace;
    ghost var locked := file != null && TakesPosLock(file);
    ghost var start := if file != null then FilePosRead(file) else 0;
    var f := FdgetPos(host, file);
    r := -EBADF;
    if file != null {
      r := TransferAtCursor(host, f, xfer);
      ghost var transferred := host.trace;
      assert transferred == before + LockedTransfer(locked, start);
      AdviseDontneedAfterRead(host, r, file, fd, file.pos, replies);
      assert host.trace == before + CursorCalls(locked, start, host.trace[|transferred|..]);
    }
  }

  /** do_readv; flags go to orig_vfs_readv, whose outcome is given. */
  method DoReadv(host: Host, fd: nat, file: File?, flags: int, xfer: Xfer, replies: Replies) returns (r: int)
    requires file != null && TakesPosLock(file) ==> !file.posLockHeld
    modifies host, file
    ensures file == null ==> r == -EBADF && host.trace == old(host.trace)
    ensures file != null ==>
      && r == xfer.ret
      && file.pos == CommittedPos(file.attrs, old(file.pos), xfer)
      && file.count == old(file.count) && file.posLockHeld == old(file.posLockHeld)
      && host.trace == old(host.trace) + CursorCalls(old(TakesPosLock(file)), old(FilePosRead(file)),
                                                     AfterReadCalls(xfer.ret, file.attrs, fd, file.pos))
  {
    ghost var before := host.trace;
    ghost var locked := file != null && TakesPosLock(file);
    ghost var start := if file != null then FilePosRead(file) else 0;
    var f := FdgetPos(host, file);
    r := -EBADF;
    if file != null {
      r := TransferAtCursor(host, f, xfer);
      ghost var transferred := host.trace;
      assert transferred == before + LockedTransfer(locked, start);
      AdviseDontneedAfterRead(host, r, file, fd, file.pos, replies);
      assert host.trace == before + CursorCalls(locked, start, host.trace[|transferred|..]);
    }
  }

  /** no_fscache_sys_readv: do_readv without per-call flags. */
  method SysReadv(host: Host, fd: nat, file: File?, xfer: Xfer, replies: Replies) returns (r: int)
    requires file != null && TakesPosLock(file) ==> !file.posLockHeld
    modifies host, file
    ensures file == null ==> r == -EBADF && host.trace == old(host.trace)
    ensures file != null ==>
      && r == xfer.ret
      && file.pos == CommittedPos(file.attrs, old(file.pos), xfer)
      && file.count == old(file.count) && file.posLockHeld == old(file.posLockHeld)
      && host.trace == old(host.trace) + CursorCalls(old(TakesPosLock(file)), old(FilePosRead(file)),
                                                     AfterReadCalls(xfer.ret, file.attrs, fd, file.pos))
  {
    r := DoReadv(host, fd, file, 0, xfer, replies);
  }

  /** no_fscache_sys_write. */
  method SysWrite(host: Host, fd: nat, file: File?, xfer: Xfer, replies: Replies) returns (r: int)
    requires file != null && TakesPosLock(file) ==> !file.posLockHeld
    modifies host, file
    ensures file == null ==> r == -EBADF && host.trace == old(host.trace)
    ensures file != null ==>
      && r == xfer.ret
      && file.pos == CommittedPos(file.attrs, old(file.pos), xfer)
      && file.count == old(file.count) && file.posLockHeld == old(file.posLockHeld)
      && host.trace == old(host.trace) + CursorCalls(old(TakesPosLock(file)), old(FilePosRead(file)),
                                                     AfterWriteCalls(xfer.ret, file.attrs, fd, file.pos, replies.syncRet))
  {
    ghost var before := host.trace;
    ghost var locked := file != null && TakesPosLock(file);
    ghost var start := if file != null then FilePosRead(file) else 0;
    var f := FdgetPos(host, file);
    r := -EBADF;
    if file != null {
      r := TransferAtCursor(host, f, xfer);
      ghost var transferred := host.trace;
      assert transferred == before + LockedTransfer(locked, start);
      AdviseDontneedAfterWrite(host, r, file, fd, file.pos, replies);
      assert host.trace == before + CursorCalls(locked, start, host.trace[|transferred|..]);
    }
  }

  /** do_writev: the transfer is vfs_writev at the cursor, whose inputs are given. */
  method DoWritev(host: Host, fd: nat, file: File?, flags: int, w: WritevInput, replies: Replies) returns (r: int)
    requires file != null && TakesPosLock(file) ==> !file.posLockHeld
    requires w.kiocb.setFlagsRet == 0 ==> w.kiocb.ret != -EIOCBQUEUED
    modifies host, file
    ensures file == null ==> r == -EBADF && host.trace == old(host.trace)
    ensures file != null ==>
      var xfer := VfsWritev(file.attrs, old(FilePosRead(file)), flags, w);
      && r == xfer.ret
      && file.pos == CommittedPos(file.attrs, old(file.pos), xfer)
      && file.count == old(file.count) && file.posLockHeld == old(file.posLockHeld)
      && host.trace == old(host.trace) + CursorCalls(old(TakesPosLock(file)), old(FilePosRead(file)),
                                                     AfterWriteCalls(xfer.ret, file.attrs, fd, file.pos, replies.syncRet))
  {
    ghost var before := host.trace;
    ghost var locked := file != null && TakesPosLock(file);
    ghost var start := if file != null then FilePosRead(file) else 0;
    var f := FdgetPos(host, file);
    r := -EBADF;
    if file != null {
      r := TransferAtCursor(host, f, VfsWritev(file.attrs, FilePosRead(file), flags, w));
      ghost var transferred := host.trace;
      assert transferred == before + LockedTransfer(locked, start);
      AdviseDontneedAfterWrite(host, r, file, fd, file.pos, replies);
      assert host.trace == before + CursorCalls(locked, start, host.trace[|transferred|..]);
    }
  }

  /** no_fscache_sys_writev: do_writev without per-call flags. */
  method SysWritev(host: Host, fd: nat, file: File?, w: WritevInput, replies: Replies) returns (r: int)
    requires file != null && TakesPosLock(file) ==> !file.posLockHeld
    requires w.kiocb.setFlagsRet == 0 ==> w.kiocb.ret != -EIOCBQUEUED
    modifies host, file
    ensures file == null ==> r == -EBADF && host.trace == old(host.trace)
    ensures file != null ==>
      var xfer := VfsWritev(file.attrs, old(FilePosRead(file)), 0, w);
      && r == xfer.ret
      && file.pos == CommittedPos(file.attrs, old(file.pos), xfer)
      && file.count == old(file.count) && file.posLockHeld == old(file.posLockHeld)
      && host.trace == old(host.trace) + CursorCalls(old(TakesPosLock(file)), old(FilePosRead(file)),
                                                     AfterWriteCalls(xfer.ret, file.attrs, fd, file.pos, replies.syncRet))
  {
    r := DoWritev(host, fd, file, 0, w, replies);
  }

  /** no_fscache_sys_pread64. */
  method SysPread64(host: Host, fd: nat, file: File?, pos: loff, xfer: Xfer, replies: Replies) returns (r: int)
    modifies host
    ensures pos < 0 ==> r == -EINVAL && host.trace == old(host.trace)
    ensures pos >= 0 && file == null ==> r == -EBADF && host.trace == old(host.trace)
    ensures pos >= 0 && file != null && !file.attrs.canPread ==> r == -ESPIPE && host.trace == old(host.trace)
    ensures pos >= 0 && file != null && file.attrs.canPread ==>
      && r == xfer.ret
      && host.trace == old(host.trace) + [Transfer(pos)] + AfterReadCalls(xfer.ret, file.attrs, fd, xfer.pos)
  {
    if pos < 0 {
      return -EINVAL;
    }
    r := -EBADF;
    if file != null {
      var p := pos;
      r := -ESPIPE;
      if file.attrs.canPread {
        r, p := host.Transfer(p, xfer);
      }
      AdviseDontneedAfterRead(host, r, file, fd, p, replies);
    }
  }

  /** do_preadv; flags go to orig_vfs_readv, whose outcome is given. */
  method DoPreadv(host: Host, fd: nat, file: File?, pos: loff, flags: int, xfer: Xfer, replies: Replies)
    returns (r: int)
    modifies host
    ensures pos < 0 ==> r == -EINVAL && host.trace == old(host.trace)
    ensures pos >= 0 && file == null ==> r == -EBADF && host.trace == old(host.trace)
    ensures pos >= 0 && file != null && !file.attrs.canPread ==> r == -ESPIPE && host.trace == old(host.trace)
    ensures pos >= 0 && file != null && file.attrs.canPread ==>
      && r == xfer.ret
      && host.trace == old(host.trace) + [Transfer(pos)] + AfterReadCalls(xfer.ret, file.attrs, fd, xfer.pos)
  {
    if pos < 0 {
      return -EINVAL;
    }
    r := -EBADF;
    if file != null {
      var p := pos;
      r := -ESPIPE;
      if file.attrs.canPread {
        r, p := host.Transfer(p, xfer);
      }
      AdviseDontneedAfterRead(host, r, file, fd, p, replies);
    }
  }

  /** no_fscache_sys_preadv: the offset arrives split into two words. */
  method SysPreadv(host: Host, fd: nat, file: File?, posL: size, posH: size, xfer: Xfer, replies: Replies)
    returns (r: int)
    modifies host
    ensures ToLoff(posL) < 0 ==> r == -EINVAL && host.trace == old(host.trace)
    ensures ToLoff(posL) >= 0 && file == null ==> r == -EBADF && host.trace == old(host.trace)
    ensures ToLoff(posL) >= 0 && file != null && !file.attrs.canPread ==>
      r == -ESPIPE && host.trace == old(host.trace)
    ensures ToLoff(posL) >= 0 && file != null && file.attrs.canPread ==>
      && r == xfer.ret
      && host.trace == old(host.trace) + [Transfer(ToLoff(posL))] + AfterReadCalls(xfer.ret, file.attrs, fd, xfer.pos)
  {
    var pos := PosFromHilo(BITS_PER_LONG, posH, posL);
    PosFromHilo64(posH, posL);
    r := DoPreadv(host, fd, file, pos, 0, xfer, replies);
  }

  /** no_fscache_sys_pwrite64. */
  method SysPwrite64(host: Host, fd: nat, file: File?, pos: loff, xfer: Xfer, replies: Replies) returns (r: int)
    modifies host
    ensures pos < 0 ==> r == -EINVAL && host.trace == old(host.trace)
    ensures pos >= 0 && file == null ==> r == -EBADF && host.trace == old(host.trace)
    ensures pos >= 0 && file != null && !file.attrs.canPwrite ==> r == -ESPIPE && host.trace == old(host.trace)
    ensures pos >= 0 && file != null && file.attrs.canPwrite ==>
      && r == xfer.ret
      && host.trace == old(host.trace) + [Transfer(pos)]
                       + AfterWriteCalls(xfer.ret, file.attrs, fd, xfer.pos, replies.syncRet)
  {
    if pos < 0 {
      return -EINVAL;
    }
    r := -EBADF;
    if file != null {
      var p := pos;
      r := -ESPIPE;
      if file.attrs.canPwrite {
        r, p := host.Transfer(p, xfer);
      }
      AdviseDontneedAfterWrite(host, r, file, fd, p, replies);
    }
  }

  /** do_pwritev: the transfer is vfs_writev at pos, whose inputs are given. */
  method DoPwritev(host: Host, fd: nat, file: File?, pos: loff, flags: int, w: WritevInput, replies: Replies)
    returns (r: int)
    requires w.kiocb.setFlagsRet == 0 ==> w.kiocb.ret != -EIOCBQUEUED
    modifies host
    ensures pos < 0 ==> r == -EINVAL && host.trace == old(host.trace)
    ensures pos >= 0 && file == null ==> r == -EBADF && host.trace == old(host.trace)
    ensures pos >= 0 && file != null && !file.attrs.canPwrite ==> r == -ESPIPE && host.trace == old(host.trace)
    ensures pos >= 0 && file != null && file.attrs.canPwrite ==>
      var xfer := VfsWritev(file.attrs, pos, flags, w);
      && r == xfer.ret
      && host.trace == old(host.trace) + [Transfer(pos)]
                       + AfterWriteCalls(xfer.ret, file.attrs, fd, xfer.pos, replies.syncRet)
  {
    if pos < 0 {
      return -EINVAL;
    }
    r := -EBADF;
    if file != null {
      var p := pos;
      r := -ESPIPE;
      if file.attrs.canPwrite {
        r, p := host.Transfer(p, VfsWritev(file.attrs, p, flags, w));
      }
      AdviseDontneedAfterWrite(host, r, file, fd, p, replies);
    }
  }

  /** no_fscache_sys_pwritev: the offset arrives split into two words. */
  method SysPwritev(host: Host, fd: nat, file: File?, posL: size, posH: size, w: WritevInput, replies: Replies)
    returns (r: int)
    requires w.kiocb.setFlagsRet == 0 ==> w.kiocb.ret != -EIOCBQUEUED
    modifies host
    ensures ToLoff(posL) < 0 ==> r == -EINVAL && host.trace == old(host.trace)
    ensures ToLoff(posL) >= 0 && file == null ==> r == -EBADF && host.trace == old(host.trace)
    ensures ToLoff(posL) >= 0 && file != null && !file.attrs.canPwrite ==>
      r == -ESPIPE && host.trace == old(host.trace)
    ensures ToLoff(posL) >= 0 && file != null && file.attrs.canPwrite ==>
      var xfer := VfsWritev(file.attrs, ToLoff(posL), 0, w);
      && r == xfer.ret
      && host.trace == old(host.trace) + [Transfer(ToLoff(posL))]
                       + AfterWriteCalls(xfer.ret, file.attrs, fd, xfer.pos, replies.syncRet)
  {
    var pos := PosFromHilo(BITS_PER_LONG, posH, posL);
    PosFromHilo64(posH, posL);
    r := DoPwritev(host, fd, file, pos, 0, w, replies);
  }
}
