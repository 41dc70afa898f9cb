/**
 * The vectored-write path of writev and pwritev: vfs_writev, do_iter_write
 * and its two back ends, do_iter_readv_writev (one call into write_iter)
 * and do_loop_readv_writev (one call into write per segment).
 */
module Vectored {
  import opened Kernel

  /**
   * One iovec segment: the length requested, what the per-segment file
   * operation returned for it, and where that call left *ppos.
   */
  datatype Seg = Seg(len: size, nr: int, posAfter: loff)

  /** What kiocb_set_rw_flags and call_write_iter answer, and the final ki_pos. */
  datatype KiocbReply = KiocbReply(setFlagsRet: int, ret: int, endPos: loff)

  /**
   * The inputs of one vfs_writev: import_iovec's result, the imported
   * segments, rw_verify_area's result and the write_iter answers.
   */
  datatype WritevInput = WritevInput(importRet: int, segs: seq<Seg>, verifyRet: int, kiocb: KiocbReply)

  /** iov_iter_count: the bytes the segments still request. */
  function SumLen(segs: seq<Seg>): nat
  {
    if segs == [] then 0 else segs[0].len + SumLen(segs[1..])
  }

  /** The sum of the segments' results, accumulated from the first. */
  function SumNr(segs: seq<Seg>): int
  {
    if segs == [] then 0 else SumNr(segs[..|segs| - 1]) + segs[|segs| - 1].nr
  }

  /**
   * The index of the first segment the loop does not complete in full: the
   * first one at which nothing is left to request, or whose result is
   * negative or short.
   */
  function FirstShort(segs: seq<Seg>): (k: nat)
    ensures k <= |segs|
    ensures forall j :: 0 <= j < k ==> segs[j].nr == segs[j].len && SumLen(segs[j..]) > 0
    ensures k < |segs| ==> SumLen(segs[k..]) == 0 || segs[k].nr != segs[k].len
  {
    if segs == [] || SumLen(segs) == 0 || segs[0].nr != segs[0].len then 0
    else
      var rest := segs[1..];
      var k := FirstShort(rest);
      assert forall j :: 1 <= j <= |segs| ==> segs[j..] == rest[j - 1..];
      assert forall j :: 1 <= j < |segs| ==> segs[j] == rest[j - 1];
      1 + k
  }

  /** flags & ~RWF_HIPRI is non-zero exactly when some bit other than RWF_HIPRI is set. */
  predicate UnsupportedFlags(flags: int)
  {
    flags != 0 && flags != RWF_HIPRI
  }

  /**
   * The outcome of do_loop_readv_writev in closed form: the results of the
   * segments up to and including the first short one, summed; a failed
   * segment contributes its error only when nothing was transferred before
   * it. The position is where the last segment called left it.
   */
  function LoopOutcome(pos: loff, flags: int, segs: seq<Seg>): Xfer
  {
    if UnsupportedFlags(flags) then Xfer(-EOPNOTSUPP, pos)
    else
      var k := FirstShort(segs);
      var done := SumNr(segs[..k]);
      if k == |segs| || SumLen(segs[k..]) == 0 then
        Xfer(done, if k == 0 then pos else segs[k - 1].posAfter)
      else if segs[k].nr < 0 then
        Xfer(if done == 0 then segs[k].nr else done, segs[k].posAfter)
      else
        Xfer(done + segs[k].nr, segs[k].posAfter)
  }

  /** Where the loop of do_loop_readv_writev stops, FirstShort is. */
  lemma StopsAt(segs: seq<Seg>, i: nat)
    requires i <= FirstShort(segs)
    requires i == |segs| || SumLen(segs[i..]) == 0 || segs[i].nr != segs[i].len
    ensures FirstShort(segs) == i
  {}

  /** Bytes still requested means a segment is still left. */
  lemma RequestLeft(segs: seq<Seg>, i: nat)
    requires i <= |segs| && SumLen(segs[i..]) > 0
    ensures i < |segs|
  {}

  /** Adding segment i's result to the sum of those before it. */
  lemma SumNrStep(segs: seq<Seg>, i: nat)
    requires i < |segs|
    ensures SumNr(segs[..i + 1]) == SumNr(segs[..i]) + segs[i].nr
  {
    assert segs[..i + 1][..i] == segs[..i];
  }

  /** A full segment with bytes still requested does not stop the loop. */
  lemma FullSegmentContinues(segs: seq<Seg>, i: nat)
    requires i < |segs| && SumLen(segs[i..]) > 0 && segs[i].nr == segs[i].len
    ensures FirstShort(segs) != i
  {}

  /** The closed form where the loop stops at segment i with some bytes still requested. */
  lemma OutcomeAtStop(pos: loff, flags: int, segs: seq<Seg>, i: nat)
    requires !UnsupportedFlags(flags)
    requires FirstShort(segs) == i && i < |segs| && SumLen(segs[i..]) > 0
    ensures var done := SumNr(segs[..i]);
      LoopOutcome(pos, flags, segs) ==
        if segs[i].nr < 0 then Xfer(if done == 0 then segs[i].nr else done, segs[i].posAfter)
        else Xfer(done + segs[i].nr, segs[i].posAfter)
  {}

  /** The closed form where the loop runs out of requested bytes before segment i. */
  lemma OutcomeAtEnd(pos: loff, flags: int, segs: seq<Seg>, i: nat)
    requires !UnsupportedFlags(flags)
    requires FirstShort(segs) == i && (i == |segs| || SumLen(segs[i..]) == 0)
    ensures LoopOutcome(pos, flags, segs) == Xfer(SumNr(segs[..i]), if i == 0 then pos else segs[i - 1].posAfter)
  {}

  /**
   * do_loop_readv_writev: one file-operation call per segment until a short
   * or failed one. The source breaks out of the loop and returns ret; the
   * model returns at the break.
   */
  method DoLoopReadvWritev(pos: loff, flags: int, segs: seq<Seg>) returns (ret: int, newPos: loff)
    ensures Xfer(ret, newPos) == LoopOutcome(pos, flags, segs)
  {
    ret, newPos := 0, pos;
    if UnsupportedFlags(flags) {
      return -EOPNOTSUPP, pos;
    }
    var i := 0;
    while SumLen(segs[i..]) > 0
      invariant 0 <= i <= FirstShort(segs)
      invariant ret == SumNr(segs[..i])
      invariant newPos == if i == 0 then pos else segs[i - 1].posAfter
      decreases |segs| - i
    {
      RequestLeft(segs, i);
      var seg := segs[i];
      newPos := seg.posAfter;
      if seg.nr < 0 {
        StopsAt(segs, i);
        OutcomeAtStop(pos, flags, segs, i);
        if ret == 0 {
          ret := seg.nr;
        }
        return;
      }
      SumNrStep(segs, i);
      ret := ret + seg.nr;
      if seg.nr != seg.len {
        StopsAt(segs, i);
        OutcomeAtStop(pos, flags, segs, i);
        return;
      }
      FullSegmentContinues(segs, i);
      i := i + 1;
    }
    StopsAt(segs, i);
    OutcomeAtEnd(pos, flags, segs, i);
  }

  /** do_iter_readv_writev: a flag the kiocb refuses ends the call early; otherwise *ppos becomes the final ki_pos. */
  function DoIterReadvWritev(pos: loff, k: KiocbReply): (r: Xfer)
    requires k.setFlagsRet == 0 ==> k.ret != -EIOCBQUEUED  // BUG_ON(ret == -EIOCBQUEUED)
    ensures k.setFlagsRet != 0 ==> r.ret == k.setFlagsRet
    ensures k.setFlagsRet == 0 ==> r.ret == k.ret && r.ret != -EIOCBQUEUED
    ensures r.pos == if k.setFlagsRet != 0 then pos else k.endPos
  {
    if k.setFlagsRet != 0 then Xfer(k.setFlagsRet, pos)
    else Xfer(k.ret, k.endPos)
  }

  /** do_iter_write: the mode, emptiness and range checks in order, then one of the two back ends. */
  function DoIterWrite(a: FileAttrs, pos: loff, flags: int, w: WritevInput): (r: Xfer)
    requires w.kiocb.setFlagsRet == 0 ==> w.kiocb.ret != -EIOCBQUEUED
    ensures r.ret > 0 ==> a.modeWrite && a.modeCanWrite && SumLen(w.segs) > 0 && w.verifyRet >= 0
  {
    if !a.modeWrite then Xfer(-EBADF, pos)
    else if !a.modeCanWrite then Xfer(-EINVAL, pos)
    else if SumLen(w.segs) == 0 then Xfer(0, pos)
    else if w.verifyRet < 0 then Xfer(w.verifyRet, pos)
    else if a.hasWriteIter then DoIterReadvWritev(pos, w.kiocb)
    else LoopOutcome(pos, flags, w.segs)
  }

  /** vfs_writev: an import_iovec failure is returned as is; otherwise do_iter_write. */
  function VfsWritev(a: FileAttrs, pos: loff, flags: int, w: WritevInput): (r: Xfer)
    requires w.kiocb.setFlagsRet == 0 ==> w.kiocb.ret != -EIOCBQUEUED
    ensures r.ret > 0 ==> w.importRet >= 0 && a.modeWrite && a.modeCanWrite
  {
    if w.importRet < 0 then Xfer(w.importRet, pos) else DoIterWrite(a, pos, flags, w)
  }

  lemma {:induction false} SumLenSplit(segs: seq<Seg>, i: nat)
    requires i <= |segs|
    ensures SumLen(segs) == SumLen(segs[..i]) + SumLen(segs[i..])
  {
    if i > 0 {
      assert segs[..i][1..] == segs[1..][..i - 1];
      assert segs[i..] == segs[1..][i - 1..];
      SumLenSplit(segs[1..], i - 1);
    }
  }

  /** Over segments that all completed in full, the results add up to the lengths. */
  lemma {:induction false} FullPrefixSum(segs: seq<Seg>, k: nat)
    requires k <= |segs|
    requires forall j :: 0 <= j < k ==> segs[j].nr == segs[j].len
    ensures SumNr(segs[..k]) == SumLen(segs[..k])
  {
    if k > 0 {
      assert segs[..k][..k - 1] == segs[..k - 1];
      FullPrefixSum(segs, k - 1);
      SumLenSplit(segs[..k], k - 1);
      assert segs[..k][k - 1..] == [segs[k - 1]];
    }
  }

  /** When every segment completes in full, the loop transfers everything requested. */
  lemma LoopAllFull(pos: loff, flags: int, segs: seq<Seg>)
    requires !UnsupportedFlags(flags)
    requires forall j :: 0 <= j < |segs| ==> segs[j].nr == segs[j].len
    ensures LoopOutcome(pos, flags, segs).ret == SumLen(segs)
  {
    var k := FirstShort(segs);
    FullPrefixSum(segs, k);
    SumLenSplit(segs, k);
  }

  /** When no segment returns more than it was asked for, the loop never reports more than the total requested. */
  lemma LoopWithinRequest(pos: loff, flags: int, segs: seq<Seg>)
    requires forall j :: 0 <= j < |segs| ==> segs[j].nr <= segs[j].len
    ensures LoopOutcome(pos, flags, segs).ret <= SumLen(segs)
  {
    if !UnsupportedFlags(flags) {
      var k := FirstShort(segs);
      var done := SumNr(segs[..k]);
      FullPrefixSum(segs, k);
      SumLenSplit(segs, k);
      if k < |segs| && SumLen(segs[k..]) > 0 {
        assert SumLen(segs[k..]) == segs[k].len + SumLen(segs[k + 1..]) by {
          assert segs[k..][1..] == segs[k + 1..];
        }
        OutcomeAtStop(pos, flags, segs, k);
      } else {
        OutcomeAtEnd(pos, flags, segs, k);
      }
    }
  }

  lemma {:induction false} SumLenZero(segs: seq<Seg>)
    requires SumLen(segs) == 0
    ensures forall j :: 0 <= j < |segs| ==> segs[j].len == 0
  {
    if segs != [] {
      SumLenZero(segs[1..]);
      assert forall j :: 1 <= j < |segs| ==> segs[j] == segs[1..][j - 1];
    }
  }

  /**
   * The loop reports an error only when it came from the first segment that
   * requested anything: every segment before it asked for, and transferred,
   * nothing.
   */
  lemma LoopErrorOnlyFirst(pos: loff, flags: int, segs: seq<Seg>)
    requires !UnsupportedFlags(flags)
    requires LoopOutcome(pos, flags, segs).ret < 0
    ensures var k := FirstShort(segs);
      && k < |segs| && segs[k].nr == LoopOutcome(pos, flags, segs).ret
      && forall j :: 0 <= j < k ==> segs[j].len == 0 && segs[j].nr == 0
  {
    var k := FirstShort(segs);
    FullPrefixSum(segs, k);
    if k == |segs| || SumLen(segs[k..]) == 0 {
      OutcomeAtEnd(pos, flags, segs, k);
      assert false;
    }
    OutcomeAtStop(pos, flags, segs, k);
    assert segs[k].nr < 0 && SumLen(segs[..k]) == 0;
    forall j | 0 <= j < k
      ensures segs[j].len == 0 && segs[j].nr == 0
    {
      SumLenZero(segs[..k]);
      assert segs[..k][j] == segs[j];
    }
  }

  /** A segment that fails after some bytes were transferred leaves the loop reporting those bytes. */
  lemma LoopErrorAfterProgress(pos: loff, flags: int, segs: seq<Seg>)
    requires !UnsupportedFlags(flags)
    requires FirstShort(segs) < |segs| && SumLen(segs[FirstShort(segs)..]) > 0
    requires segs[FirstShort(segs)].nr < 0 && SumLen(segs[..FirstShort(segs)]) > 0
    ensures LoopOutcome(pos, flags, segs).ret == SumLen(segs[..FirstShort(segs)]) > 0
  {
    FullPrefixSum(segs, FirstShort(segs));
  }

  /**
   * The error checks of do_iter_write come in the source's order and leave
   * the position alone: no write mode, then no write capability, then an
   * empty request (0, not an error), then rw_verify_area's error.
   */
  lemma IterWriteGuardOrder(a: FileAttrs, pos: loff, flags: int, w: WritevInput)
    requires w.kiocb.setFlagsRet == 0 ==> w.kiocb.ret != -EIOCBQUEUED
    ensures !a.modeWrite ==> DoIterWrite(a, pos, flags, w) == Xfer(-EBADF, pos)
    ensures a.modeWrite && !a.modeCanWrite ==> DoIterWrite(a, pos, flags, w) == Xfer(-EINVAL, pos)
    ensures a.modeWrite && a.modeCanWrite && SumLen(w.segs) == 0 ==> DoIterWrite(a, pos, flags, w) == Xfer(0, pos)
    ensures a.modeWrite && a.modeCanWrite && SumLen(w.segs) > 0 && w.verifyRet < 0 ==>
      DoIterWrite(a, pos, flags, w) == Xfer(w.verifyRet, pos)
  {}

  /**
   * A writev never reports more bytes than its segments requested, as long
   * as neither back end answers with more than it was asked for.
   */
  lemma WritevWithinRequest(a: FileAttrs, pos: loff, flags: int, w: WritevInput)
    requires w.kiocb.setFlagsRet == 0 ==> w.kiocb.ret != -EIOCBQUEUED
    requires forall j :: 0 <= j < |w.segs| ==> w.segs[j].nr <= w.segs[j].len
    requires w.kiocb.setFlagsRet <= 0 && w.kiocb.ret <= SumLen(w.segs)
    ensures VfsWritev(a, pos, flags, w).ret <= SumLen(w.segs)
  {
    LoopWithinRequest(pos, flags, w.segs);
  }
}
