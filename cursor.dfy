/**
 * The file-cursor helpers: reading and committing f_pos with the
 * FMODE_STREAM rule, and taking and dropping f_pos_lock around a
 * cursor-based transfer.
 */
module Cursor {
  import opened Kernel

  /** struct fd: the looked-up file and whether the caller must drop f_pos_lock. */
  datatype Fd = Fd(file: File?, unlock: bool)

  /** file_pos_read: where a cursor-based transfer starts; a stream-like file always starts at 0. */
  function FilePosRead(file: File): loff
    reads file
  {
    if file.attrs.stream then 0 else file.pos
  }

  /** file_pos_write: commits a new cursor, except on a stream-like file. */
  method FilePosWrite(file: File, pos: loff)
    modifies file
    ensures file.pos == if file.attrs.stream then old(file.pos) else pos
    ensures file.count == old(file.count) && file.posLockHeld == old(file.posLockHeld)
  {
    if !file.attrs.stream {
      file.pos := pos;
    }
  }

  /** Whether __cp_fdget_pos takes f_pos_lock: an atomic-position file with more than one reference. */
  predicate TakesPosLock(file: File)
    reads file
  {
    file.attrs.atomicPos && file.count > 1
  }

  /**
   * cp_fdget_pos(fd), given what __fdget(fd) found. When the lock is taken
   * it must be free: the model has no other thread to wait for.
   */
  method FdgetPos(host: Host, file: File?) returns (f: Fd)
    requires file != null && TakesPosLock(file) ==> !file.posLockHeld
    modifies host, file
    ensures f.file == file
    ensures f.unlock == (file != null && TakesPosLock(file))
    ensures file != null ==>
      && file.pos == old(file.pos) && file.count == old(file.count)
      && file.posLockHeld == (old(file.posLockHeld) || f.unlock)
    ensures host.trace == old(host.trace) + (if f.unlock then [PosLock] else [])
  {
    f := Fd(file, false);
    if file != null && file.attrs.atomicPos {
      if file.count > 1 {
        f := Fd(file, true);
        file.posLockHeld := true;
        host.trace := host.trace + [PosLock];
      }
    }
  }

  /** cp_fdput_pos: drops f_pos_lock exactly when cp_fdget_pos recorded that it took it. */
  method FdputPos(host: Host, f: Fd)
    requires f.unlock ==> f.file != null && f.file.posLockHeld
    modifies host, f.file
    ensures f.file != null ==>
      && f.file.pos == old(f.file.pos) && f.file.count == old(f.file.count)
      && f.file.posLockHeld == (old(f.file.posLockHeld) && !f.unlock)
    ensures host.trace == old(host.trace) + (if f.unlock then [PosUnlock] else [])
  {
    if f.unlock {
      f.file.posLockHeld := false;
      host.trace := host.trace + [PosUnlock];
    }
  }
}
