/**
 * The eviction advisor: advise_dontneed, which optionally flushes a byte
 * range and then asks the kernel to drop the page-aligned range around it,
 * and the two gates that decide after a read or a write whether it runs.
 */
module Advise {
  import opened Kernel
  import opened Pages

  /** is_direct: the page cache is bypassed (O_DIRECT) or not used for this file (DAX). */
  predicate IsDirect(a: FileAttrs)
  {
    a.oDirect || a.hostDax || a.inodeDax
  }

  /** is_sync: every write to this file is already durable when it returns. */
  predicate IsSync(a: FileAttrs)
  {
    a.oDsync || a.hostSync || a.oSync
  }

  /** The len advise_dontneed passes to fadvise, computed in size_t as the source does. */
  function EvictLen(fpos: loff, nbytes: size): size
  {
    ToULong(NearestRightPageBoundary(ToULong(nbytes + fpos)) - NearestLeftPageBoundary(fpos))
  }

  function Last(s: seq<Event>): Event
    requires s != []
  {
    s[|s| - 1]
  }

  /**
   * The primitive calls advise_dontneed(fd, fpos, nbytes, flush) issues when
   * sync_file_range2 answers syncRet: a flush of the unaligned range first
   * when flush is set, then, unless the flush failed, one fadvise over the
   * page-aligned range.
   */
  function AdviseCalls(fd: nat, fpos: loff, nbytes: size, flush: bool, syncRet: int32): (calls: seq<Event>)
    ensures |calls| == if flush && syncRet >= 0 then 2 else 1
    ensures calls[0].SyncFileRange? <==> flush
    ensures flush ==> calls[0] == SyncFileRange(fd, SYNC_WRITE_WAIT_AFTER, fpos, ToLoff(nbytes))
    ensures forall i :: 0 < i < |calls| ==> calls[i].Fadvise?
    ensures Last(calls).Fadvise? <==> !(flush && syncRet < 0)
    ensures Last(calls).Fadvise? ==>
      Last(calls) == Fadvise(fd, NearestLeftPageBoundary(fpos), EvictLen(fpos, nbytes), POSIX_FADV_DONTNEED)
  {
    var sync := SyncFileRange(fd, SYNC_WRITE_WAIT_AFTER, fpos, ToLoff(nbytes));
    var evict := Fadvise(fd, NearestLeftPageBoundary(fpos), EvictLen(fpos, nbytes), POSIX_FADV_DONTNEED);
    if !flush then [evict]
    else if syncRet < 0 then [sync]
    else [sync, evict]
  }

  /** advise_dontneed: returns the flush's error if it failed, else what fadvise answered. */
  method AdviseDontneed(host: Host, fd: nat, fpos: loff, nbytes: size, flush: bool, replies: Replies)
    returns (r: int32)
    modifies host
    ensures host.trace == old(host.trace) + AdviseCalls(fd, fpos, nbytes, flush, replies.syncRet)
    ensures r == if flush && replies.syncRet < 0 then replies.syncRet else replies.fadviseRet
  {
    if flush {
      var ret := host.SyncFileRange2(fd, SYNC_WRITE_WAIT_AFTER, fpos, ToLoff(nbytes), replies.syncRet);
      if ret < 0 {
        return ret;
      }
    }
    var offset := NearestLeftPageBoundary(fpos);
    var len := EvictLen(fpos, nbytes);
    r := host.Fadvise64(fd, offset, len, POSIX_FADV_DONTNEED, replies.fadviseRet);
  }

  /**
   * Without wrap-around, the fadvise range is page-aligned at both ends,
   * contains [fpos, fpos + nbytes), and is the smallest such range.
   */
  lemma EvictRangeCovers(fpos: loff, nbytes: size)
    requires 0 <= fpos && fpos + nbytes <= U64 - PAGE_SIZE
    ensures var offset, len := NearestLeftPageBoundary(fpos), EvictLen(fpos, nbytes);
      && offset % PAGE_SIZE == 0 && (offset + len) % PAGE_SIZE == 0
      && offset <= fpos < offset + PAGE_SIZE
      && fpos + nbytes <= offset + len < fpos + nbytes + PAGE_SIZE
      && len <= nbytes + 2 * PAGE_SIZE - 2
  {
    var offset := NearestLeftPageBoundary(fpos);
    var right := NearestRightPageBoundary(ToULong(nbytes + fpos));
    assert ToULong(nbytes + fpos) == nbytes + fpos;
    assert 0 <= offset <= right < U64;
    assert EvictLen(fpos, nbytes) == right - offset;
  }

  /** An aligned position and nothing transferred give an empty fadvise range. */
  lemma EvictLenEmpty(fpos: loff)
    requires 0 <= fpos && fpos % PAGE_SIZE == 0
    ensures NearestLeftPageBoundary(fpos) == fpos && EvictLen(fpos, 0) == 0
  {
    assert ToULong(0 + fpos) == fpos;
  }

  /** Whether advise_dontneed_after_read runs the advisor: any non-negative result on a cached regular file. */
  predicate ReadGate(ret: int, a: FileAttrs)
  {
    ret >= 0 && a.regular && !IsDirect(a)
  }

  /** Whether advise_dontneed_after_write runs the advisor: a positive result on a cached regular file. */
  predicate WriteGate(ret: int, a: FileAttrs)
  {
    ret > 0 && a.regular && !IsDirect(a)
  }

  /** The calls advise_dontneed_after_read(ret, file, fd, lpos) issues: a flushless advice over [lpos - ret, lpos). */
  function AfterReadCalls(ret: int, a: FileAttrs, fd: nat, lpos: loff): seq<Event>
  {
    if ReadGate(ret, a) then AdviseCalls(fd, ToLoff(lpos - ret), ToULong(ret), false, 0) else []
  }

  /** The calls advise_dontneed_after_write(ret, file, fd, pos) issues, flushing first unless the file is synchronous. */
  function AfterWriteCalls(ret: int, a: FileAttrs, fd: nat, pos: loff, syncRet: int32): seq<Event>
  {
    if WriteGate(ret, a) then AdviseCalls(fd, ToLoff(pos - ret), ToULong(ret), !IsSync(a), syncRet) else []
  }

  method AdviseDontneedAfterRead(host: Host, ret: int, file: File, fd: nat, lpos: loff, replies: Replies)
    modifies host
    ensures host.trace == old(host.trace) + AfterReadCalls(ret, file.attrs, fd, lpos)
  {
    if ret >= 0 && file.attrs.regular && !IsDirect(file.attrs) {
      var _ := AdviseDontneed(host, fd, ToLoff(lpos - ret), ToULong(ret), false, replies);
    }
  }

  method AdviseDontneedAfterWrite(host: Host, ret: int, file: File, fd: nat, pos: loff, replies: Replies)
    modifies host
    ensures host.trace == old(host.trace) + AfterWriteCalls(ret, file.attrs, fd, pos, replies.syncRet)
  {
    if ret > 0 && file.attrs.regular && !IsDirect(file.attrs) {
      var _ := AdviseDontneed(host, fd, ToLoff(pos - ret), ToULong(ret), !IsSync(file.attrs), replies);
    }
  }

  /**
   * After a read, advice is issued exactly when the gate is open; it is then
   * one fadvise and never a flush, and for a transfer that stayed at or above
   * offset 0 it covers the bytes just read with whole pages.
   */
  lemma ReadAdvice(ret: int, a: FileAttrs, fd: nat, lpos: loff)
    ensures var calls := AfterReadCalls(ret, a, fd, lpos);
      && (calls != [] <==> ReadGate(ret, a))
      && (calls != [] ==> |calls| == 1 && calls[0].Fadvise? && calls[0].fd == fd)
      && (calls != [] && ret <= lpos ==>
            && calls[0].offset % PAGE_SIZE == 0 && (calls[0].offset + calls[0].len) % PAGE_SIZE == 0
            && calls[0].offset <= lpos - ret && lpos <= calls[0].offset + calls[0].len
            && calls[0].len <= ret + 2 * PAGE_SIZE - 2)
  {
    var calls := AfterReadCalls(ret, a, fd, lpos);
    if calls != [] && ret <= lpos {
      assert ToLoff(lpos - ret) == lpos - ret && ToULong(ret) == ret;
      EvictRangeCovers(lpos - ret, ret);
    }
  }

  /** A 0-byte read on a cached regular file still issues one fadvise; at an aligned position its length is 0. */
  lemma ZeroByteReadAdvice(a: FileAttrs, fd: nat, lpos: loff)
    requires a.regular && !IsDirect(a)
    ensures AfterReadCalls(0, a, fd, lpos) ==
      [Fadvise(fd, NearestLeftPageBoundary(lpos), EvictLen(lpos, 0), POSIX_FADV_DONTNEED)]
    ensures 0 <= lpos && lpos % PAGE_SIZE == 0 ==>
      AfterReadCalls(0, a, fd, lpos) == [Fadvise(fd, lpos, 0, POSIX_FADV_DONTNEED)]
  {
    assert ToLoff(lpos - 0) == lpos;
    if 0 <= lpos && lpos % PAGE_SIZE == 0 {
      EvictLenEmpty(lpos);
    }
  }

  /**
   * After a write, advice is issued exactly when the gate is open; it is at
   * most one flush and one fadvise; it flushes the unaligned written range
   * first exactly when the file is not synchronous, a failed flush suppresses
   * the fadvise, and the fadvise covers
   * the bytes just written with whole pages.
   */
  lemma WriteAdvice(ret: int, a: FileAttrs, fd: nat, pos: loff, syncRet: int32)
    ensures var calls := AfterWriteCalls(ret, a, fd, pos, syncRet);
      && (calls != [] <==> WriteGate(ret, a))
      && (calls != [] ==> |calls| == if !IsSync(a) && syncRet >= 0 then 2 else 1)
      && (calls != [] ==> (calls[0].SyncFileRange? <==> !IsSync(a)))
      && (calls != [] && !IsSync(a) && ret <= pos ==>
            calls[0] == SyncFileRange(fd, SYNC_WRITE_WAIT_AFTER, pos - ret, ret))
      && (calls != [] && !IsSync(a) && syncRet < 0 ==> |calls| == 1)
      && (calls != [] && !(!IsSync(a) && syncRet < 0) ==>
            && Last(calls).Fadvise?
            && (ret <= pos ==>
                  && Last(calls).offset % PAGE_SIZE == 0
                  && (Last(calls).offset + Last(calls).len) % PAGE_SIZE == 0
                  && Last(calls).offset <= pos - ret && pos <= Last(calls).offset + Last(calls).len
                  && Last(calls).len <= ret + 2 * PAGE_SIZE - 2))
  {
    var calls := AfterWriteCalls(ret, a, fd, pos, syncRet);
    if calls != [] && ret <= pos {
      assert ToLoff(pos - ret) == pos - ret && ToULong(ret) == ret && ToLoff(ret) == ret;
      EvictRangeCovers(pos - ret, ret);
    }
  }

  /** A write that flushes and whose flush succeeds issues exactly the flush, then the fadvise. */
  lemma WriteFlushThenEvict(ret: int, a: FileAttrs, fd: nat, pos: loff, syncRet: int32)
    requires WriteGate(ret, a) && !IsSync(a) && syncRet >= 0 && ret <= pos
    ensures AfterWriteCalls(ret, a, fd, pos, syncRet) ==
      [ SyncFileRange(fd, SYNC_WRITE_WAIT_AFTER, pos - ret, ret),
        Fadvise(fd, NearestLeftPageBoundary(pos - ret), EvictLen(pos - ret, ret), POSIX_FADV_DONTNEED) ]
  {
    assert ToLoff(pos - ret) == pos - ret && ToULong(ret) == ret && ToLoff(ret) == ret;
  }

  /**
   * A 10-byte write to a non-synchronous cached file that left the position at
   * 4116 flushes bytes [4106, 4116) and then evicts the one page [4096, 8192).
   */
  lemma WriteScenario(a: FileAttrs, fd: nat)
    requires a.regular && !IsDirect(a) && !IsSync(a)
    ensures AfterWriteCalls(10, a, fd, 4116, 0) ==
      [SyncFileRange(fd, SYNC_WRITE_WAIT_AFTER, 4106, 10), Fadvise(fd, 4096, 4096, POSIX_FADV_DONTNEED)]
  {
    var left := NearestLeftPageBoundary(4106);
    var right := NearestRightPageBoundary(4116);
    assert left == 4096;
    assert right == 8192;
    assert EvictLen(4106, 10) == 4096;
  }

  /**
   * The read advice at a cursor that did not move: the plain wrappers advise
   * at f_pos - ret, and on a stream-like file f_pos stays 0, so a 10-byte read
   * advises the page below offset 0.
   */
  lemma StreamReadAdvice(a: FileAttrs, fd: nat)
    requires a.regular && !IsDirect(a)
    ensures AfterReadCalls(10, a, fd, 0) == [Fadvise(fd, -4096, 4096, POSIX_FADV_DONTNEED)]
  {
    assert ToLoff(0 - 10) == -10 && ToULong(10) == 10;
    var left := NearestLeftPageBoundary(-10);
    assert left == -4096;
    assert NearestRightPageBoundary(ToULong(10 + -10)) == 0;
    assert EvictLen(-10, 10) == 4096;
  }
}
