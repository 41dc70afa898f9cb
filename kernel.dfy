/**
 * The machine integer types, error numbers and kernel objects that the
 * no_fscache replacements read and update.
 *
 * Everything the kernel does on the far side of a call (the data transfer,
 * the flush and evict system calls) is an input to the model. What the
 * replacements do on this side is recorded as a trace of primitive calls
 * in the ghost field Host.trace.
 */
module Kernel {

  /** 2^64: the modulus of size_t / unsigned long on a 64-bit kernel. */
  const U64: int := 0x1_0000_0000_0000_0000
  /** 2^63: one past the largest loff_t. */
  const I64_LIMIT: int := 0x8000_0000_0000_0000

  /** loff_t: a signed 64-bit file offset. */
  type loff = x: int | -0x8000_0000_0000_0000 <= x < 0x8000_0000_0000_0000
  /** size_t (and unsigned long) on a 64-bit kernel. */
  type size = x: int | 0 <= x < 0x1_0000_0000_0000_0000
  /** int: the type the module stores the primitives' results in. */
  type int32 = x: int | -0x8000_0000 <= x < 0x8000_0000

  /** C's conversion of an integer value to an unsigned 64-bit type. */
  function ToULong(x: int): (r: size)
    ensures (r - x) % U64 == 0
    ensures 0 <= x < U64 ==> r == x
  {
    x % U64
  }

  /** Two's-complement conversion of an integer value to loff_t. */
  function ToLoff(x: int): (r: loff)
    ensures (r - x) % U64 == 0
    ensures -I64_LIMIT <= x < I64_LIMIT ==> r == x
  {
    var u := x % U64;
    if u < I64_LIMIT then u else u - U64
  }

  // Error numbers (asm-generic/errno-base.h, errno.h, linux/errno.h).
  const ENOENT: int := 2
  const EBADF: int := 9
  const EINVAL: int := 22
  const ESPIPE: int := 29
  const EOPNOTSUPP: int := 95
  const EIOCBQUEUED: int := 529

  /** SYNC_FILE_RANGE_WRITE | SYNC_FILE_RANGE_WAIT_AFTER. */
  const SYNC_WRITE_WAIT_AFTER: int := 2 + 4
  /** POSIX_FADV_DONTNEED (the value of every architecture except s390x). */
  const POSIX_FADV_DONTNEED: int := 4
  /** RWF_HIPRI, the only per-call flag do_loop_readv_writev accepts. */
  const RWF_HIPRI: int := 1

  /** One primitive step the replacements take, in the order they take it. */
  datatype Event =
    | PosLock                      // mutex_lock(&file->f_pos_lock)
    | PosUnlock                    // mutex_unlock(&file->f_pos_lock)
    | Transfer(start: loff)        // the data transfer was started at this offset
    | SyncFileRange(fd: nat, flags: int, offset: loff, nbytes: loff)
    | Fadvise(fd: nat, offset: loff, len: size, advice: int)

  /** What the kernel's foreign calls answer during one advisory step. */
  datatype Replies = Replies(syncRet: int32, fadviseRet: int32)

  /** The outcome of a data transfer: the byte count or negative error, and the position it left behind. */
  datatype Xfer = Xfer(ret: int, pos: loff)

  /**
   * The attributes of an open file that the replacements test and never change:
   * bits of f_mode and f_flags, the inode's type and flags, and whether the
   * file operations provide write_iter.
   */
  datatype FileAttrs = FileAttrs(
    atomicPos: bool,        // f_mode & FMODE_ATOMIC_POS
    stream: bool,           // f_mode & FMODE_STREAM
    canPread: bool,         // f_mode & FMODE_PREAD
    canPwrite: bool,        // f_mode & FMODE_PWRITE
    modeWrite: bool,        // f_mode & FMODE_WRITE
    modeCanWrite: bool,     // f_mode & FMODE_CAN_WRITE
    oDirect: bool,          // f_flags & O_DIRECT
    oDsync: bool,           // f_flags & O_DSYNC
    oSync: bool,            // f_flags & __O_SYNC
    regular: bool,          // S_ISREG(file_inode(file)->i_mode)
    hostDax: bool,          // IS_DAX(file->f_mapping->host)
    inodeDax: bool,         // IS_DAX(file_inode(file))
    hostSync: bool,         // IS_SYNC(file->f_mapping->host)
    hasWriteIter: bool)     // file->f_op->write_iter != NULL

  /** struct file: the open-file object, with the two fields the replacements update. */
  class File {
    const attrs: FileAttrs
    /** file_count(file): the number of references to this open file. */
    var count: nat
    /** f_pos: the file cursor. */
    var pos: loff
    /** Whether f_pos_lock is held. */
    var posLockHeld: bool

    constructor (attrs: FileAttrs, count: nat, pos: loff)
      ensures this.attrs == attrs && this.count == count && this.pos == pos
      ensures !posLockHeld
    {
      this.attrs := attrs;
      this.count := count;
      this.pos := pos;
      posLockHeld := false;
    }
  }

  /** The kernel as the replacements see it: the primitives they call, recorded in order. */
  class Host {
    ghost var trace: seq<Event>

    constructor ()
      ensures trace == []
    {
      trace := [];
    }

    /** sys_sync_file_range2; its answer is the given reply. */
    method SyncFileRange2(fd: nat, flags: int, offset: loff, nbytes: loff, reply: int32) returns (r: int32)
      modifies this
      ensures trace == old(trace) + [SyncFileRange(fd, flags, offset, nbytes)]
      ensures r == reply
    {
      trace := trace + [SyncFileRange(fd, flags, offset, nbytes)];
      r := reply;
    }

    /** sys_fadvise64_64; its answer is the given reply. */
    method Fadvise64(fd: nat, offset: loff, len: size, advice: int, reply: int32) returns (r: int32)
      modifies this
      ensures trace == old(trace) + [Fadvise(fd, offset, len, advice)]
      ensures r == reply
    {
      trace := trace + [Fadvise(fd, offset, len, advice)];
      r := reply;
    }

    /** One of orig_vfs_read, orig_vfs_write, orig_vfs_readv or vfs_writev, started at start; its outcome is given. */
    method Transfer(start: loff, outcome: Xfer) returns (ret: int, pos: loff)
      modifies this
      ensures trace == old(trace) + [Event.Transfer(start)]
      ensures ret == outcome.ret && pos == outcome.pos
    {
      trace := trace + [Event.Transfer(start)];
      ret, pos := outcome.ret, outcome.pos;
    }
  }
}
