/** The AESD character driver (aesd-char-driver/main.c): writes accumulate
    bytes in a per-device pending buffer until a newline arrives, at which
    point the pending bytes become one entry of the device's circular buffer;
    reads see the concatenation of the buffered entries as one file.

    Each file operation is one atomic step (the mutex only brackets the
    critical section). The outcomes of kmalloc/krealloc, copy_from_user,
    copy_to_user and mutex_lock_interruptible are inputs (WriteEnv, ReadEnv).
    A lock the driver forgot to release is kept as state: on such a lock
    mutex_lock_interruptible can only come back interrupted. */
module AesdChar {
  import opened Kernel
  import opened CircularBuffer

  /** The value of struct aesd_dev: the ring, the pending write_buffer pointer
      (holding at least write_buffer_size meaningful bytes when not NULL), its
      size, whether the device mutex is held, and a count of allocations the
      driver lost track of (kept for the defects, not a field of the source). */
  datatype DeviceState = DeviceState(
    ring: Ring,
    writeBuffer: Option<seq<byte>>,
    writeBufferSize: nat,
    lockHeld: bool,
    leaked: nat)

  /** Outcomes of the kernel services aesd_write calls. `uninit` gives the bytes
      found in memory that krealloc hands out for a NULL pointer. */
  datatype WriteEnv = WriteEnv(
    dataAllocOk: bool,     // kmalloc(count) for write_data
    copyOk: bool,          // copy_from_user
    interrupted: bool,     // mutex_lock_interruptible interrupted by a signal
    bufferAllocOk: bool,   // kmalloc / krealloc of write_buffer
    uninit: nat -> byte)

  /** Outcomes of the kernel services aesd_read calls. */
  datatype ReadEnv = ReadEnv(interrupted: bool, copyOk: bool)

  datatype WriteResult = WriteResult(retval: int, state: DeviceState)

  /** The return value and the bytes delivered to the user buffer. */
  datatype ReadResult = ReadResult(retval: int, bytes: seq<byte>)

  /** A committed entry: a non-empty buffer whose last byte is the newline. */
  ghost predicate IsLine(e: BufferEntry) {
    e.Entry? && |e.buffptr| > 0 && e.buffptr[|e.buffptr| - 1] == NEWLINE
  }

  /** The device invariant. */
  ghost predicate DeviceValid(s: DeviceState) {
    RingValid(s.ring) && Tidy(s.ring) &&
    (forall i :: 0 <= i < |Entries(s.ring)| ==> IsLine(Entries(s.ring)[i])) &&
    (s.writeBuffer.Some? ==> s.writeBufferSize <= |s.writeBuffer.value|)
  }

  /** The device after aesd_init_module: zeroed, the ring initialised. */
  function InitialState(capacity: nat): DeviceState
    requires capacity > 0
  {
    DeviceState(EmptyRing(capacity), None, 0, false, 0)
  }

  /** The pending bytes are known unless a failed krealloc dropped the buffer
      while its size was kept. */
  ghost predicate PendingKnown(s: DeviceState) {
    s.writeBufferSize == 0 ||
    (s.writeBuffer.Some? && s.writeBufferSize <= |s.writeBuffer.value|)
  }

  ghost function PendingBytes(s: DeviceState): seq<byte>
    requires PendingKnown(s)
  {
    if s.writeBufferSize == 0 then [] else s.writeBuffer.value[..s.writeBufferSize]
  }

  /** The first n bytes of freshly allocated, uninitialised memory. */
  function Uninit(uninit: nat -> byte, n: nat): (r: seq<byte>)
    ensures |r| == n
  {
    seq(n, i requires 0 <= i < n => uninit(i))
  }

  /** Index of the first newline in data, or |data| when there is none. */
  function FirstNewline(data: seq<byte>): (k: nat)
    ensures k <= |data|
    ensures NEWLINE !in data[..k]
    ensures k < |data| ==> data[k] == NEWLINE
    ensures k == |data| <==> NEWLINE !in data
  {
    if data == [] then 0
    else if data[0] == NEWLINE then 0
    else
      assert data[..1 + FirstNewline(data[1..])] == [data[0]] + data[1..][..FirstNewline(data[1..])];
      1 + FirstNewline(data[1..])
  }

  /** The scan's stopping point is the first newline: no newline before k,
      and a newline at k unless k is the end. */
  lemma FirstNewlineAt(data: seq<byte>, k: nat)
    requires k <= |data| && NEWLINE !in data[..k]
    requires k < |data| ==> data[k] == NEWLINE
    ensures FirstNewline(data) == k
  {
  }

  /** How many bytes of data a write consumes: up to and including the first
      newline, or all of them. */
  function AppendLength(data: seq<byte>): (n: nat)
    ensures n <= |data|
  {
    if FirstNewline(data) < |data| then FirstNewline(data) + 1 else |data|
  }

  /** Bytes at the front of write_buffer once it has been (re)allocated:
      nothing for a fresh buffer, the pending bytes after krealloc, and
      uninitialised memory when krealloc was handed a NULL pointer. */
  function Kept(s: DeviceState, env: WriteEnv): seq<byte>
  {
    if s.writeBufferSize == 0 then []
    else if s.writeBuffer.Some? && s.writeBufferSize <= |s.writeBuffer.value| then
      s.writeBuffer.value[..s.writeBufferSize]
    else Uninit(env.uninit, s.writeBufferSize)
  }

  /** The full ring gives up its oldest slot (lines 264-271). */
  function Evicted(r: Ring): (r': Ring)
    requires RingValid(r)
    ensures RingValid(r') && r'.full == r.full && |r'.slots| == |r.slots|
  {
    if r.full then r.(slots := r.slots[r.inOffs := Null]) else r
  }

  /** aesd_write on a device, buf being the count bytes at the user pointer
      (None for NULL); the source's behaviour as written, defects included. */
  function WriteEffect(s: DeviceState, buf: Option<seq<byte>>, env: WriteEnv): (r: WriteResult)
    requires RingValid(s.ring)
    ensures RingValid(r.state.ring) && |r.state.ring.slots| == |s.ring.slots|
    ensures r.retval < 0 ==> r.state.ring == s.ring
    ensures r.retval >= 0 ==> buf.Some? && r.retval <= |buf.value| && !r.state.lockHeld
    ensures r.state.leaked >= s.leaked
  {
    if buf.None? then WriteResult(-EINVAL, s)
    else if !env.dataAllocOk then WriteResult(-ENOMEM, s)
    else if !env.copyOk then WriteResult(-EFAULT, s)
    // the lock is not taken: write_data is never freed
    else if s.lockHeld || env.interrupted then WriteResult(-ERESTARTSYS, s.(leaked := s.leaked + 1))
    else LockedWriteEffect(s.(lockHeld := true), buf.value, env)
  }

  /** The critical section of aesd_write, entered holding the mutex: append
      the bytes up to the first newline to the pending buffer, commit it as an
      entry on a newline, release the mutex. */
  function LockedWriteEffect(s: DeviceState, data: seq<byte>, env: WriteEnv): (r: WriteResult)
    requires RingValid(s.ring)
    ensures RingValid(r.state.ring) && |r.state.ring.slots| == |s.ring.slots|
    ensures r.retval < 0 ==> r.state.ring == s.ring
    ensures r.retval >= 0 ==> r.retval <= |data| && !r.state.lockHeld
    ensures r.state.leaked >= s.leaked
  {
    // first allocation fails: returns with the mutex still held
    if s.writeBufferSize == 0 && !env.bufferAllocOk then
      WriteResult(-ENOMEM, s.(writeBuffer := None))
    // krealloc fails: the old buffer is lost, its size is kept
    else if !env.bufferAllocOk then
      WriteResult(-ENOMEM, s.(writeBuffer := None, lockHeld := false,
                              leaked := s.leaked + if s.writeBuffer.Some? then 1 else 0))
    else
      var n := AppendLength(data);
      var pending := Kept(s, env) + data[..n];
      if FirstNewline(data) < |data| then
        var ring := AddedEntry(Evicted(s.ring), Entry(pending));
        WriteResult(n, s.(ring := ring, writeBuffer := Some(pending), writeBufferSize := 0, lockHeld := false))
      else
        WriteResult(n, s.(writeBuffer := Some(pending), writeBufferSize := |pending|, lockHeld := false))
  }

  /** The bytes aesd_read copies out for a position in the entries: at most
      count bytes from the entry covering pos, starting at pos's offset inside
      it; None when no entry covers pos. */
  function CopyOut(es: seq<BufferEntry>, pos: nat, count: nat): (r: Option<seq<byte>>)
    ensures r.None? <==> pos >= TotalSize(es)
    ensures r.Some? ==> |r.value| <= count
  {
    match Locate(es, pos)
    case None => None
    case Some((k, off)) =>
      var n := Min(es[k].Size() - off, count);
      Some(es[k].buffptr[off..off + n])
  }

  /** What CopyOut yields, in terms of the slot and offset that
      aesd_circular_buffer_find_entry_offset_for_fpos reports for a position. */
  lemma CopyOutFromSlot(r: Ring, pos: nat, count: nat, found: Option<(nat, nat)>)
    requires RingValid(r)
    requires found.None? <==> Locate(Entries(r), pos).None?
    requires found.Some? ==> found.value.0 == SlotOf(r, Locate(Entries(r), pos).value.0) &&
                             found.value.1 == Locate(Entries(r), pos).value.1
    ensures found.None? ==> CopyOut(Entries(r), pos, count).None?
    ensures found.Some? ==>
      var (slot, off) := found.value;
      slot < |r.slots| && off < r.slots[slot].Size() &&
      CopyOut(Entries(r), pos, count) == Some(r.slots[slot].buffptr[off..off + Min(r.slots[slot].Size() - off, count)])
  {
  }

  /** aesd_read on a device: count bytes wanted at file position fpos. */
  function ReadEffect(s: DeviceState, bufNull: bool, count: nat, fpos: int, env: ReadEnv): (r: ReadResult)
    requires RingValid(s.ring)
    ensures r.retval >= 0 ==> r.retval == |r.bytes| <= count
    ensures r.retval < 0 ==> r.bytes == []
  {
    if bufNull then ReadResult(-EINVAL, [])
    else if s.lockHeld || env.interrupted then ReadResult(-ERESTARTSYS, [])
    else LockedReadEffect(s.ring, ToSizeT(fpos), count, env)
  }

  /** The critical section of aesd_read: the bytes of the entry covering pos
      from pos on, at most count of them; nothing past the end. */
  function LockedReadEffect(r: Ring, pos: nat, count: nat, env: ReadEnv): (res: ReadResult)
    requires RingValid(r)
    ensures res.retval >= 0 ==> res.retval == |res.bytes| <= count
    ensures res.retval < 0 ==> res.bytes == []
  {
    match CopyOut(Entries(r), pos, count)
    case None => ReadResult(0, [])
    case Some(bytes) => if !env.copyOk then ReadResult(-EFAULT, []) else ReadResult(|bytes|, bytes)
  }

  /** The ring left by evicting the oldest entry (if full) and adding a line. */
  lemma EvictedThenAdded(r: Ring, e: BufferEntry)
    requires RingValid(r)
    ensures RingValid(Evicted(r))
    ensures Entries(AddedEntry(Evicted(r), e)) == (if r.full then Entries(r)[1..] else Entries(r)) + [e]
    ensures Tidy(r) ==> Tidy(AddedEntry(Evicted(r), e))
    ensures forall k :: 0 <= k < |r.slots| && k != r.inOffs ==> AddedEntry(Evicted(r), e).slots[k] == r.slots[k]
  {
    var v := Evicted(r);
    AddedEntryContents(v, e);
    if r.full {
      assert Count(v) == Count(r);
      forall i | 1 <= i < Count(r) ensures Entries(v)[i] == Entries(r)[i] {
        assert SlotOf(r, i) != r.inOffs;
      }
      assert Entries(v)[1..] == Entries(r)[1..];
    }
  }

  /** The critical section of aesd_write keeps the device invariant. */
  lemma LockedWritePreservesValid(s: DeviceState, data: seq<byte>, env: WriteEnv)
    requires DeviceValid(s)
    ensures DeviceValid(LockedWriteEffect(s, data, env).state)
  {
    var r := LockedWriteEffect(s, data, env);
    if r.retval >= 0 && FirstNewline(data) < |data| {
      var pending := Kept(s, env) + data[..AppendLength(data)];
      assert pending[|pending| - 1] == NEWLINE;
      EvictedThenAdded(s.ring, Entry(pending));
      var es := Entries(r.state.ring);
      var prev := if s.ring.full then Entries(s.ring)[1..] else Entries(s.ring);
      forall i | 0 <= i < |es| ensures IsLine(es[i]) {
        if i < |prev| {
          assert es[i] == prev[i];
        }
      }
    }
  }

  /** aesd_write keeps the device invariant. */
  lemma WritePreservesValid(s: DeviceState, buf: Option<seq<byte>>, env: WriteEnv)
    requires DeviceValid(s)
    ensures DeviceValid(WriteEffect(s, buf, env).state)
  {
    if buf.Some? {
      LockedWritePreservesValid(s.(lockHeld := true), buf.value, env);
    }
  }

  lemma InitialStateValid(capacity: nat)
    requires capacity > 0
    ensures DeviceValid(InitialState(capacity))
    ensures Entries(InitialState(capacity).ring) == []
  {
  }

  /** struct aesd_dev, updated in place by the file operations. */
  class AesdDevice {
    const buffer: AesdCircularBuffer
    var writeBuffer: Option<seq<byte>>
    var writeBufferSize: nat
    var lockHeld: bool
    ghost var leaked: nat

    ghost function Repr(): set<object>
    {
      {this, buffer, buffer.entry}
    }

    ghost function Abs(): DeviceState
      reads Repr()
    {
      DeviceState(buffer.Abs(), writeBuffer, writeBufferSize, lockHeld, leaked)
    }

    ghost predicate Valid()
      reads Repr()
    {
      DeviceValid(Abs())
    }

    /** The device-specific part of aesd_init_module: the zeroed structure
        (write_buffer NULL, size 0), an initialised ring and a free mutex. */
    constructor (capacity: nat)
      requires capacity > 0
      ensures Valid() && Abs() == InitialState(capacity)
      ensures fresh(Repr())
    {
      buffer := new AesdCircularBuffer.Init(capacity);
      writeBuffer := None;
      writeBufferSize := 0;
      lockHeld := false;
      leaked := 0;
      new;
      InitialStateValid(capacity);
    }

    /** The critical section of aesd_write (main.c:198-285), entered with the
        mutex held: scan for the first newline, append the bytes up to it (or
        all) to write_buffer, commit write_buffer as a ring entry on a newline
        (releasing the oldest slot of a full ring first), release the mutex. */
    method WriteLocked(writeData: seq<byte>, env: WriteEnv) returns (retval: int)
      requires Valid() && lockHeld
      modifies Repr()
      ensures var w := LockedWriteEffect(old(Abs()), writeData, env);
        retval == w.retval && Abs() == w.state
      ensures Valid()
    {
      ghost var s := Abs();
      LockedWritePreservesValid(s, writeData, env);
      var writeIndex, newlineFound := ScanForNewline(writeData);
      var appendIndex := if newlineFound then writeIndex + 1 else |writeData|;
      ghost var w := LockedWriteEffect(s, writeData, env);

      if writeBufferSize == 0 {
        if !env.bufferAllocOk {
          writeBuffer := None;
          return -ENOMEM;   // the mutex is left locked
        }
        writeBuffer := Some(writeData[..appendIndex]);
      } else {
        if !env.bufferAllocOk {
          if writeBuffer.Some? {
            leaked := leaked + 1;
          }
          writeBuffer := None;
          lockHeld := false;
          return -ENOMEM;
        }
        var kept := if writeBuffer.Some? && writeBufferSize <= |writeBuffer.value|
                    then writeBuffer.value[..writeBufferSize]
                    else Uninit(env.uninit, writeBufferSize);
        writeBuffer := Some(kept + writeData[..appendIndex]);
      }
      writeBufferSize := writeBufferSize + appendIndex;
      assert writeBuffer.value == Kept(s, env) + writeData[..appendIndex];

      if newlineFound {
        var addEntry := Entry(writeBuffer.value);
        if buffer.full {
          buffer.entry[buffer.inOffs] := Null;
        }
        assert buffer.Abs() == Evicted(s.ring);
        buffer.AddEntry(addEntry);
        writeBufferSize := 0;
      }
      retval := appendIndex;
      lockHeld := false;
      assert buffer.Abs() == w.state.ring;
    }

    /** The critical section of aesd_read (main.c:110-131), entered with the
        mutex held: look up the entry covering pos and copy at most count of
        its bytes from pos's offset on, up to the end of that entry. */
    method ReadLocked(pos: nat, count: nat, env: ReadEnv) returns (retval: int, copied: seq<byte>)
      requires buffer.Valid()
      ensures ReadResult(retval, copied) == LockedReadEffect(buffer.Abs(), pos, count, env)
    {
      retval, copied := 0, [];
      var found := buffer.FindEntryOffsetForFpos(pos);
      CopyOutFromSlot(buffer.Abs(), pos, count, found);
      if found.Some? {
        var slot, byteOffset := found.value.0, found.value.1;
        var e := buffer.entry[slot];
        var bytesToCopy := Min(e.Size() - byteOffset, count);
        if !env.copyOk {
          retval := -EFAULT;
        } else {
          retval := bytesToCopy;
          copied := e.buffptr[byteOffset..byteOffset + bytesToCopy];
        }
      }
    }
  }

  /** An open file of the device; aesd_open stores the device in private_data. */
  class File {
    const privateData: AesdDevice

    constructor (dev: AesdDevice)
      ensures privateData == dev
    {
      privateData := dev;
    }
  }

  /** The newline scan of aesd_write: the index of the first newline, or the
      length when there is none. */
  method ScanForNewline(writeData: seq<byte>) returns (writeIndex: nat, newlineFound: bool)
    ensures writeIndex == FirstNewline(writeData)
    ensures newlineFound <==> writeIndex < |writeData|
  {
    var count := |writeData|;
    writeIndex := 0;
    newlineFound := false;
    while writeIndex < count
      invariant writeIndex <= count
      invariant NEWLINE !in writeData[..writeIndex]
      invariant !newlineFound
    {
      if writeData[writeIndex] == NEWLINE {
        newlineFound := true;
        break;
      }
      writeIndex := writeIndex + 1;
    }
    FirstNewlineAt(writeData, writeIndex);
  }

  /** aesd_write (main.c:152-291). */
  method AesdWrite(filp: File?, buf: Option<seq<byte>>, fPos: int, env: WriteEnv)
    returns (retval: int, newFPos: int)
    requires filp != null ==> filp.privateData.Valid()
    modifies if filp != null then filp.privateData.Repr() else {}
    ensures filp == null ==> retval == -EINVAL
    ensures filp != null ==> filp.privateData.Valid()
    ensures filp != null ==>
      (var w := WriteEffect(old(filp.privateData.Abs()), buf, env);
       retval == w.retval && filp.privateData.Abs() == w.state)
    ensures newFPos == if retval >= 0 then fPos + retval else fPos
  {
    if filp == null || buf.None? {
      return -EINVAL, fPos;
    }
    var dev := filp.privateData;
    if !env.dataAllocOk {
      return -ENOMEM, fPos;
    }
    var writeData := buf.value;
    if !env.copyOk {
      return -EFAULT, fPos;
    }
    if dev.lockHeld || env.interrupted {
      dev.leaked := dev.leaked + 1;   // write_data is not freed on this path
      return -ERESTARTSYS, fPos;
    }
    dev.lockHeld := true;
    retval := dev.WriteLocked(writeData, env);
    if retval < 0 {
      return retval, fPos;
    }
    newFPos := fPos + retval;
  }

  /** aesd_read (main.c:84-135). */
  method AesdRead(filp: File?, bufNull: bool, count: nat, fPos: int, env: ReadEnv)
    returns (retval: int, copied: seq<byte>, newFPos: int)
    requires filp != null ==> filp.privateData.buffer.Valid()
    ensures filp == null ==> retval == -EINVAL && copied == []
    ensures filp != null ==>
      ReadEffect(filp.privateData.Abs(), bufNull, count, fPos, env) == ReadResult(retval, copied)
    ensures newFPos == if retval >= 0 then fPos + retval else fPos
  {
    if filp == null || bufNull {
      return -EINVAL, [], fPos;
    }
    var dev := filp.privateData;
    if dev.lockHeld || env.interrupted {
      return -ERESTARTSYS, [], fPos;
    }
    retval, copied := dev.ReadLocked(ToSizeT(fPos), count, env);
    newFPos := if retval >= 0 then fPos + retval else fPos;
  }

  /** The entry-release loop of aesd_cleanup_module (main.c:364-368): kfree on
      the buffer of every slot, kfree(NULL) doing nothing. Returns the buffers
      released, in slot order, and proves them exactly the buffers of the
      entries the device holds, each once. The pending write_buffer is not among them. The loop
      index is an int8_t, so the capacity must fit in it. */
  method AesdCleanupModule(dev: AesdDevice) returns (released: seq<seq<byte>>)
    requires dev.Valid() && dev.buffer.entry.Length <= 127
    ensures released == Released(dev.buffer.entry[..])
    ensures multiset(released) == multiset(Released(Entries(dev.buffer.Abs())))
    ensures |released| == |Entries(dev.buffer.Abs())|
  {
    var entries := dev.buffer.entry;
    released := [];
    var index := 0;
    while index < entries.Length
      invariant index <= entries.Length
      invariant released == Released(entries[..index])
    {
      var e := entries[index];
      assert entries[..index + 1] == entries[..index] + [e];
      ReleasedAppend(entries[..index], [e]);
      if e.Entry? {
        released := released + [e.buffptr];
      }
      index := index + 1;
    }
    assert entries[..] == entries[..entries.Length];
    ghost var r := dev.buffer.Abs();
    ReleasedSlotsAreEntries(r);
    ReleasedAllEntries(Entries(r));
    assert |released| == |multiset(released)|;
  }
}
