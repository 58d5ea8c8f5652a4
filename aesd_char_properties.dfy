/** Properties of the AESD driver model: what a write consumes and stores,
    how pending bytes accumulate into one entry, eviction of the oldest entry,
    what a read returns, a written line read back, and the source's defects
    in lock and memory handling, exhibited as written. */
module AesdCharProperties {
  import opened Kernel
  import opened CircularBuffer
  import opened AesdChar

  /** Every kernel service aesd_write calls succeeds. */
  ghost predicate KernelCallsSucceed(env: WriteEnv) {
    env.dataAllocOk && env.copyOk && !env.interrupted && env.bufferAllocOk
  }

  /** Every kernel service aesd_write calls succeeds and the mutex is free. */
  ghost predicate WriteSucceeds(s: DeviceState, env: WriteEnv) {
    KernelCallsSucceed(env) && !s.lockHeld
  }

  /** Proof step: the pending bytes, when known, are what a reallocation keeps. */
  lemma KeptIsPending(s: DeviceState, env: WriteEnv)
    requires PendingKnown(s)
    ensures Kept(s, env) == PendingBytes(s)
  {
  }

  /** Proof step: the ring after a successful write with a newline. */
  lemma WriteCommits(s: DeviceState, data: seq<byte>, env: WriteEnv)
    requires RingValid(s.ring) && WriteSucceeds(s, env) && NEWLINE in data
    ensures FirstNewline(data) < |data|
    ensures WriteEffect(s, Some(data), env).state.ring ==
      AddedEntry(Evicted(s.ring), Entry(Kept(s, env) + data[..FirstNewline(data) + 1]))
  {
    var s' := s.(lockHeld := true);
    assert Kept(s', env) == Kept(s, env);
    assert WriteEffect(s, Some(data), env) == LockedWriteEffect(s', data, env);
  }

  /** A write without a newline consumes all its bytes, appends them to the
      pending bytes and leaves the circular buffer alone. */
  lemma WriteWithoutNewline(s: DeviceState, data: seq<byte>, env: WriteEnv)
    requires DeviceValid(s) && PendingKnown(s) && WriteSucceeds(s, env)
    requires NEWLINE !in data
    ensures var r := WriteEffect(s, Some(data), env);
      r.retval == |data| && r.state.ring == s.ring && !r.state.lockHeld &&
      PendingKnown(r.state) && PendingBytes(r.state) == PendingBytes(s) + data
  {
    KeptIsPending(s, env);
    assert data[..|data|] == data;
  }

  /** A write with a newline consumes the bytes up to and including the first
      one and commits the pending bytes followed by them as a new entry (after
      the entries held, the oldest dropped when full); nothing stays pending
      and the bytes after the newline are stored nowhere. */
  lemma WriteWithNewline(s: DeviceState, data: seq<byte>, env: WriteEnv)
    requires DeviceValid(s) && PendingKnown(s) && WriteSucceeds(s, env)
    requires NEWLINE in data
    ensures var r := WriteEffect(s, Some(data), env);
      var k := FirstNewline(data);
      k < |data| && data[k] == NEWLINE && NEWLINE !in data[..k] &&
      r.retval == k + 1 &&
      Entries(r.state.ring) ==
        (if s.ring.full then Entries(s.ring)[1..] else Entries(s.ring)) + [Entry(PendingBytes(s) + data[..k + 1])] &&
      r.state.writeBufferSize == 0 && PendingBytes(r.state) == [] && !r.state.lockHeld
  {
    var k := FirstNewline(data);
    var line := PendingBytes(s) + data[..k + 1];
    KeptIsPending(s, env);
    WriteCommits(s, data, env);
    EvictedThenAdded(s.ring, Entry(line));
    var r := WriteEffect(s, Some(data), env);
    assert r == LockedWriteEffect(s.(lockHeld := true), data, env);
    assert r.retval == k + 1 && r.state.writeBufferSize == 0 && !r.state.lockHeld;
  }

  /** The state after a series of writes of the given chunks (non-NULL user
      buffers), each with its own kernel outcomes. */
  ghost function WriteAll(s: DeviceState, chunks: seq<seq<byte>>, envs: seq<WriteEnv>): (t: DeviceState)
    requires RingValid(s.ring) && |envs| == |chunks|
    ensures RingValid(t.ring)
    decreases |chunks|
  {
    if chunks == [] then s
    else WriteAll(WriteEffect(s, Some(chunks[0]), envs[0]).state, chunks[1..], envs[1..])
  }

  function Concat(chunks: seq<seq<byte>>): seq<byte>
  {
    if chunks == [] then [] else chunks[0] + Concat(chunks[1..])
  }

  /** Newline-free writes concatenate their bytes, in order, onto the pending
      bytes without touching the circular buffer. */
  lemma {:induction false} WritesAccumulate(s: DeviceState, chunks: seq<seq<byte>>, envs: seq<WriteEnv>)
    decreases |chunks|
    requires DeviceValid(s) && PendingKnown(s) && !s.lockHeld && |envs| == |chunks|
    requires forall i :: 0 <= i < |chunks| ==> NEWLINE !in chunks[i] && KernelCallsSucceed(envs[i])
    ensures var t := WriteAll(s, chunks, envs);
      DeviceValid(t) && t.ring == s.ring && !t.lockHeld &&
      PendingKnown(t) && PendingBytes(t) == PendingBytes(s) + Concat(chunks)
  {
    if chunks != [] {
      var s' := WriteEffect(s, Some(chunks[0]), envs[0]).state;
      WriteWithoutNewline(s, chunks[0], envs[0]);
      WritePreservesValid(s, Some(chunks[0]), envs[0]);
      forall i | 0 <= i < |chunks[1..]|
        ensures NEWLINE !in chunks[1..][i] && KernelCallsSucceed(envs[1..][i])
      {
        assert chunks[1..][i] == chunks[i + 1] && envs[1..][i] == envs[i + 1];
      }
      WritesAccumulate(s', chunks[1..], envs[1..]);
      assert PendingBytes(s) + chunks[0] + Concat(chunks[1..]) == PendingBytes(s) + Concat(chunks);
    }
  }

  /** A line written in pieces becomes one entry: the pending bytes, every
      newline-free chunk in order, and the final write's bytes up to its newline. */
  lemma LineSplitAcrossWrites(s: DeviceState, chunks: seq<seq<byte>>, envs: seq<WriteEnv>,
                              last: seq<byte>, env: WriteEnv)
    requires DeviceValid(s) && PendingKnown(s) && !s.lockHeld && |envs| == |chunks|
    requires forall i :: 0 <= i < |chunks| ==> NEWLINE !in chunks[i] && KernelCallsSucceed(envs[i])
    requires NEWLINE in last && WriteSucceeds(s, env)
    ensures var r := WriteEffect(WriteAll(s, chunks, envs), Some(last), env);
      Entries(r.state.ring) ==
        (if s.ring.full then Entries(s.ring)[1..] else Entries(s.ring)) +
        [Entry(PendingBytes(s) + Concat(chunks) + last[..FirstNewline(last) + 1])]
  {
    WritesAccumulate(s, chunks, envs);
    WriteWithNewline(WriteAll(s, chunks, envs), last, env);
  }

  /** When the ring is full a committing write releases and overwrites the
      slot at in_offs, which holds the oldest entry: the ring stays full, the
      oldest entry is gone, and no other slot changes. */
  lemma WriteEvictsOldestWhenFull(s: DeviceState, data: seq<byte>, env: WriteEnv)
    requires DeviceValid(s) && WriteSucceeds(s, env) && s.ring.full
    requires NEWLINE in data
    ensures var r := WriteEffect(s, Some(data), env).state.ring;
      r.full && |Entries(r)| == |s.ring.slots| &&
      Entries(r) == Entries(s.ring)[1..] + [r.slots[s.ring.inOffs]] &&
      r.slots[s.ring.inOffs] == Entry(Kept(s, env) + data[..FirstNewline(data) + 1]) &&
      forall k :: 0 <= k < |s.ring.slots| && k != s.ring.inOffs ==> r.slots[k] == s.ring.slots[k]
  {
    WriteCommits(s, data, env);
    EvictedThenAdded(s.ring, Entry(Kept(s, env) + data[..FirstNewline(data) + 1]));
  }

  /** A NULL user buffer, a failed kmalloc of the copy, and a failed
      copy_from_user all return before the device is touched. */
  lemma WriteFailsBeforeTouchingDevice(s: DeviceState, data: seq<byte>, env: WriteEnv)
    requires DeviceValid(s)
    ensures WriteEffect(s, None, env) == WriteResult(-EINVAL, s)
    ensures !env.dataAllocOk ==> WriteEffect(s, Some(data), env) == WriteResult(-ENOMEM, s)
    ensures env.dataAllocOk && !env.copyOk ==> WriteEffect(s, Some(data), env) == WriteResult(-EFAULT, s)
  {
  }

  /** The device read as one file: the buffers of the entries held, oldest first. */
  function Flatten(es: seq<BufferEntry>): seq<byte>
  {
    if es == [] then [] else (if es[0].Entry? then es[0].buffptr else []) + Flatten(es[1..])
  }

  lemma {:induction false} FlattenAppend(a: seq<BufferEntry>, b: seq<BufferEntry>)
    ensures Flatten(a + b) == Flatten(a) + Flatten(b)
  {
    if a == [] {
      assert a + b == b;
    } else {
      assert (a + b)[1..] == a[1..] + b;
      FlattenAppend(a[1..], b);
    }
  }

  lemma {:induction false} FlattenSize(es: seq<BufferEntry>)
    ensures |Flatten(es)| == TotalSize(es)
  {
    if es != [] {
      FlattenSize(es[1..]);
    }
  }

  /** The file around its k-th entry. */
  lemma FlattenAround(es: seq<BufferEntry>, k: nat)
    requires k < |es| && es[k].Entry?
    ensures Flatten(es) == Flatten(es[..k]) + es[k].buffptr + Flatten(es[k + 1..])
    ensures |Flatten(es[..k])| == TotalSize(es[..k])
    ensures TotalSize(es[..k + 1]) == TotalSize(es[..k]) + es[k].Size()
    ensures TotalSize(es[..k + 1]) <= TotalSize(es)
  {
    assert es == es[..k] + [es[k]] + es[k + 1..];
    assert es[..k + 1] == es[..k] + [es[k]];
    assert es == es[..k + 1] + es[k + 1..];
    FlattenAppend(es[..k + 1], es[k + 1..]);
    FlattenAppend(es[..k], [es[k]]);
    assert [es[k]][1..] == [];
    assert Flatten([es[k]]) == es[k].buffptr;
    FlattenSize(es[..k]);
    TotalSizeAppend(es[..k], [es[k]]);
    TotalSizeAppend(es[..k + 1], es[k + 1..]);
  }

  lemma SliceOfMiddle(pre: seq<byte>, mid: seq<byte>, post: seq<byte>, off: nat, n: nat)
    requires off + n <= |mid|
    ensures (pre + mid + post)[|pre| + off..|pre| + off + n] == mid[off..off + n]
  {
    assert (pre + mid + post)[|pre|..|pre| + |mid|] == mid;
  }

  /** The n bytes at offset off of the k-th entry are the file's bytes at the
      position where the earlier entries end plus off. */
  lemma EntrySliceIsFileSlice(es: seq<BufferEntry>, k: nat, off: nat, n: nat)
    requires k < |es| && es[k].Entry? && off + n <= es[k].Size()
    ensures TotalSize(es[..k]) + off + n <= TotalSize(es[..k + 1]) <= TotalSize(es) == |Flatten(es)|
    ensures off + n == es[k].Size() <==> TotalSize(es[..k]) + off + n == TotalSize(es[..k + 1])
    ensures es[k].buffptr[off..off + n] ==
            Flatten(es)[TotalSize(es[..k]) + off..TotalSize(es[..k]) + off + n]
  {
    FlattenSize(es);
    FlattenAround(es, k);
    SliceOfMiddle(Flatten(es[..k]), es[k].buffptr, Flatten(es[k + 1..]), off, n);
  }

  /** The run copied from offset off of the k-th entry, at most count bytes
      up to the end of that entry, is the file's run at the position where the
      earlier entries end plus off. */
  lemma CopiedRunIsFileSlice(es: seq<BufferEntry>, pos: nat, count: nat, k: nat, off: nat)
    requires k < |es| && es[k].Entry? && off < es[k].Size() && pos == TotalSize(es[..k]) + off
    ensures var n := Min(es[k].Size() - off, count);
      pos + n <= TotalSize(es[..k + 1]) <= TotalSize(es) == |Flatten(es)| &&
      (n == count || pos + n == TotalSize(es[..k + 1])) &&
      es[k].buffptr[off..off + n] == Flatten(es)[pos..pos + n] &&
      (count > 0 ==> n > 0)
  {
    var n := Min(es[k].Size() - off, count);
    EntrySliceIsFileSlice(es, k, off, n);
    var start, file := TotalSize(es[..k]), Flatten(es);
    assert file[start + off..start + off + n] == file[pos..pos + n];
  }

  /** What aesd_read copies out are the file's bytes at the position:
      nothing at or past the end, otherwise a non-empty run (for a non-zero
      count) that stops at the count or at the end of the entry covering the
      position, whichever comes first. */
  lemma CopyOutIsFileSlice(es: seq<BufferEntry>, pos: nat, count: nat)
    ensures |Flatten(es)| == TotalSize(es)
    ensures pos < TotalSize(es) ==>
      var bytes := CopyOut(es, pos, count).value;
      var k := Locate(es, pos).value.0;
      pos + |bytes| <= TotalSize(es[..k + 1]) <= TotalSize(es) &&
      (|bytes| == count || pos + |bytes| == TotalSize(es[..k + 1])) &&
      bytes == Flatten(es)[pos..pos + |bytes|] &&
      (count > 0 ==> |bytes| > 0)
  {
    FlattenSize(es);
    if pos < TotalSize(es) {
      var k, off := Locate(es, pos).value.0, Locate(es, pos).value.1;
      var run := es[k].buffptr[off..off + Min(es[k].Size() - off, count)];
      assert CopyOut(es, pos, count) == Some(run);
      CopiedRunIsFileSlice(es, pos, count, k, off);
    }
  }

  /** A read that reaches the ring returns the file's bytes at the position
      (converted to size_t), and nothing at or past the end of the file. */
  lemma ReadReturnsFileBytes(s: DeviceState, count: nat, fpos: int, env: ReadEnv)
    requires RingValid(s.ring) && !s.lockHeld && !env.interrupted && env.copyOk
    ensures var r := ReadEffect(s, false, count, fpos, env);
      var file := Flatten(Entries(s.ring));
      var pos := ToSizeT(fpos);
      r.retval >= 0 &&
      (pos >= |file| ==> r.retval == 0) &&
      (pos < |file| ==> pos + r.retval <= |file| && r.bytes == file[pos..pos + r.retval] &&
                        (count > 0 ==> r.retval > 0))
  {
    var es, pos := Entries(s.ring), ToSizeT(fpos);
    CopyOutIsFileSlice(es, pos, count);
    var out := CopyOut(es, pos, count);
    assert ReadEffect(s, false, count, fpos, env) ==
      if out.None? then ReadResult(0, []) else ReadResult(|out.value|, out.value);
  }

  /** A read from the start of an entry with room for all of it returns the
      whole entry. */
  lemma ReadWholeEntry(s: DeviceState, k: nat, count: nat, fpos: int, env: ReadEnv)
    requires DeviceValid(s) && !s.lockHeld && !env.interrupted && env.copyOk
    requires k < |Entries(s.ring)| && ToSizeT(fpos) == TotalSize(Entries(s.ring)[..k])
    requires count >= Entries(s.ring)[k].Size()
    ensures ReadEffect(s, false, count, fpos, env) ==
            ReadResult(Entries(s.ring)[k].Size(), Entries(s.ring)[k].buffptr)
  {
    var es := Entries(s.ring);
    assert IsLine(es[k]);
    LocateUnique(es, ToSizeT(fpos), k, 0);
    assert es[k].buffptr[0..es[k].Size()] == es[k].buffptr;
  }

  /** A line written to a device whose ring is not full is read back whole at
      the position where the earlier entries end. */
  lemma WrittenLineIsReadBack(s: DeviceState, data: seq<byte>, env: WriteEnv, count: nat, renv: ReadEnv)
    requires DeviceValid(s) && PendingKnown(s) && WriteSucceeds(s, env) && !s.ring.full
    requires NEWLINE in data
    requires TotalSize(Entries(s.ring)) < SIZE_T_MODULUS
    requires count >= |PendingBytes(s)| + FirstNewline(data) + 1
    requires !renv.interrupted && renv.copyOk
    ensures var w := WriteEffect(s, Some(data), env);
      var line := PendingBytes(s) + data[..FirstNewline(data) + 1];
      ReadEffect(w.state, false, count, TotalSize(Entries(s.ring)), renv) == ReadResult(|line|, line)
  {
    var t := WriteEffect(s, Some(data), env).state;
    var line := PendingBytes(s) + data[..FirstNewline(data) + 1];
    WriteWithNewline(s, data, env);
    WritePreservesValid(s, Some(data), env);
    var n := |Entries(s.ring)|;
    assert Entries(t.ring) == Entries(s.ring) + [Entry(line)];
    assert Entries(t.ring)[..n] == Entries(s.ring);
    ReadWholeEntry(t, n, count, TotalSize(Entries(s.ring)), renv);
  }

  /** Defect: when the first allocation of write_buffer fails, aesd_write
      returns -ENOMEM with the device mutex still held. */
  lemma FirstAllocationFailureKeepsLock(s: DeviceState, data: seq<byte>, env: WriteEnv)
    requires DeviceValid(s) && s.writeBufferSize == 0 && !s.lockHeld
    requires env.dataAllocOk && env.copyOk && !env.interrupted && !env.bufferAllocOk
    ensures var r := WriteEffect(s, Some(data), env);
      r.retval == -ENOMEM && r.state.lockHeld && r.state.ring == s.ring
  {
  }

  /** Defect, continued: once the mutex is left held, no later write gets
      through; the device keeps its ring and pending bytes for good and each
      write that reaches the lock loses its copy of the user data. */
  lemma {:induction false} HeldLockWedgesWrites(s: DeviceState, chunks: seq<seq<byte>>, envs: seq<WriteEnv>)
    decreases |chunks|
    requires RingValid(s.ring) && s.lockHeld && |envs| == |chunks|
    ensures var t := WriteAll(s, chunks, envs);
      t.lockHeld && t.ring == s.ring && t.writeBuffer == s.writeBuffer &&
      t.writeBufferSize == s.writeBufferSize && t.leaked >= s.leaked
    ensures forall i :: 0 <= i < |chunks| && envs[i].dataAllocOk && envs[i].copyOk ==>
      WriteEffect(WriteAll(s, chunks[..i], envs[..i]), Some(chunks[i]), envs[i]).retval == -ERESTARTSYS
  {
    if chunks != [] {
      var s' := WriteEffect(s, Some(chunks[0]), envs[0]).state;
      HeldLockWedgesWrites(s', chunks[1..], envs[1..]);
      forall i | 0 <= i < |chunks| && envs[i].dataAllocOk && envs[i].copyOk
        ensures WriteEffect(WriteAll(s, chunks[..i], envs[..i]), Some(chunks[i]), envs[i]).retval == -ERESTARTSYS
      {
        if i > 0 {
          assert chunks[..i][1..] == chunks[1..][..i - 1];
          assert envs[..i][1..] == envs[1..][..i - 1];
          assert chunks[1..][i - 1] == chunks[i] && envs[1..][i - 1] == envs[i];
        } else {
          assert chunks[..0] == [] && envs[..0] == [];
        }
      }
    }
  }

  /** Defect, continued: while the mutex is held every read with a valid
      buffer returns -ERESTARTSYS. */
  lemma HeldLockRefusesReads(s: DeviceState, count: nat, fpos: int, env: ReadEnv)
    requires DeviceValid(s) && s.lockHeld
    ensures ReadEffect(s, false, count, fpos, env) == ReadResult(-ERESTARTSYS, [])
  {
  }

  /** Defect: an interrupted lock returns -ERESTARTSYS without freeing the
      kernel copy of the user data. */
  lemma InterruptedWriteLeaksCopy(s: DeviceState, data: seq<byte>, env: WriteEnv)
    requires DeviceValid(s) && env.dataAllocOk && env.copyOk && env.interrupted
    ensures WriteEffect(s, Some(data), env) == WriteResult(-ERESTARTSYS, s.(leaked := s.leaked + 1))
  {
  }

  /** Defect: a failed krealloc drops the pending buffer (leaking it) but keeps
      its size, so the next committing write stores uninitialised memory where
      the pending bytes were. */
  lemma ReallocFailureLosesPendingBytes(s: DeviceState, data: seq<byte>, env: WriteEnv,
                                        next: seq<byte>, env2: WriteEnv)
    requires DeviceValid(s) && !s.lockHeld && s.writeBufferSize > 0 && s.writeBuffer.Some?
    requires env.dataAllocOk && env.copyOk && !env.interrupted && !env.bufferAllocOk
    requires WriteSucceeds(s, env2) && NEWLINE in next
    ensures var t := WriteEffect(s, Some(data), env);
      t.retval == -ENOMEM && t.state.writeBuffer.None? &&
      t.state.writeBufferSize == s.writeBufferSize && t.state.leaked == s.leaked + 1 &&
      !PendingKnown(t.state)
    ensures var t := WriteEffect(s, Some(data), env).state;
      var u := WriteEffect(t, Some(next), env2).state;
      Entries(u.ring) == (if s.ring.full then Entries(s.ring)[1..] else Entries(s.ring)) +
        [Entry(Uninit(env2.uninit, s.writeBufferSize) + next[..FirstNewline(next) + 1])]
  {
    var t := WriteEffect(s, Some(data), env).state;
    WritePreservesValid(s, Some(data), env);
    assert t.ring == s.ring && !PendingKnown(t);
    assert Kept(t, env2) == Uninit(env2.uninit, s.writeBufferSize);
    WriteCommits(t, next, env2);
    EvictedThenAdded(t.ring, Entry(Kept(t, env2) + next[..FirstNewline(next) + 1]));
  }
}
