# AESD character driver, modelled in Dafny

This project models the `aesdchar` Linux character driver (`aesd-char-driver/main.c`).

- **Writes.** A write copies the user's bytes into the kernel. It appends the bytes up to and including the first newline to a per-device pending buffer (`write_buffer`).
- **Commits.** When a newline arrives, the pending buffer becomes one entry of a fixed-capacity circular buffer of write commands. If the ring is full, the oldest entry is released and overwritten.
- **Reads.** A read treats the entries, oldest first, as one file. It returns bytes from the single entry that covers the file position, up to the end of that entry.
- **Module unload.** Unloading frees every buffer the ring holds.

The model is split into four modules:

- **`Kernel`**: bytes, a NULL-able pointer (`Option`), the errno values the driver returns, and the conversion of the signed `loff_t` file position to `size_t`.
- **`CircularBuffer`**: the ring. It has a value form (`Ring`, with its entries oldest first as `Entries`) and a class form (`AesdCircularBuffer`) over an `array` that the driver updates in place.
  - The class provides init, add-entry, and the offset lookup.
  - The offset lookup is a loop proved against `Locate`. `Locate` is the position of a byte offset in the concatenation of the entries.
- **`AesdChar`**: the device (`AesdDevice`, whose fields the file operations update in place), `aesd_write`, `aesd_read` and the release loop of `aesd_cleanup_module`. Each operation exists in two forms:
  - a method that mirrors the C code, with its early returns and its scan loop;
  - a function of the device state (`WriteEffect`, `ReadEffect`) that the method is proved to implement.
  - The critical sections under the device mutex are methods of the device (`WriteLocked`, `ReadLocked`).
- **`AesdCharProperties`**: properties of the functional model:
  - what a write consumes and what it stores;
  - pending bytes building one entry across several writes;
  - eviction of the oldest entry;
  - reads returning the file's bytes;
  - a written line read back;
  - the driver's defects.

The model follows the code as written, defects included:

- On an interrupted `mutex_lock_interruptible`, the kernel copy of the user data is not freed. The model counts this in a ghost `leaked` counter.
- If the first `kmalloc` of `write_buffer` fails, `aesd_write` returns `-ENOMEM` with the device mutex still held. After that, later reads, and later writes that get past copy_from_user, block until a signal interrupts them and then return `-ERESTARTSYS`; the model keeps only that outcome. Later writes that fail earlier (a NULL buffer, a failed kmalloc or a failed copy_from_user) still return `-EINVAL`, `-ENOMEM` or `-EFAULT`.
- If `krealloc` fails, the pending buffer is lost: the pointer is set to NULL but the size is kept. The next successful write reallocates from NULL and appends its bytes after uninitialised memory. The next committing write therefore stores uninitialised memory in place of the earlier pending bytes.

Every call runs as one atomic step. The mutex is modelled only as the `lockHeld` flag. A mutex that the driver failed to release can only make `mutex_lock_interruptible` come back interrupted.

## Model

| member | source | states |
|---|---|---|
| Kernel.ToSizeT | aesd-char-driver/main.c:111 | the `loff_t` position passed as the `size_t` lookup offset: unchanged when in range, a negative position becomes position + 2^64 |
| CircularBuffer.AesdCircularBuffer.Init | aesd-char-driver/main.c:339 | a freshly initialised ring of the given capacity: every slot NULL, both offsets 0, not full |
| CircularBuffer.AesdCircularBuffer.AddEntry | aesd-char-driver/main.c:274 | the ring after add_entry is `AddedEntry` of the ring before: the entry is stored at in_offs, in_offs advances, out_offs advances when the ring was full, and the ring is full exactly when the offsets meet |
| CircularBuffer.AddedEntryContents | aesd-char-driver/main.c:274 | adding an entry appends it to the entries held, oldest first; a full ring loses its oldest entry and stays full; no slot other than in_offs changes; empty slots stay NULL |
| CircularBuffer.AddedEntryWhenFull | aesd-char-driver/main.c:274 | on a full ring the entries become the old ones minus the oldest, followed by the new one, and the ring stays full |
| CircularBuffer.AddedEntryWhenNotFull | aesd-char-driver/main.c:274 | on a ring with room the new entry is appended after the entries held, the count grows by one, and the empty slots stay NULL |
| CircularBuffer.Locate | aesd-char-driver/main.c:111 | no entry exactly when the position is at or past the total size of the entries; otherwise an entry index and an offset inside that entry such that the position equals the bytes of the earlier entries plus the offset |
| CircularBuffer.LocateUnique | aesd-char-driver/main.c:111 | any entry and in-entry offset that cover the position are the ones the lookup yields |
| CircularBuffer.AesdCircularBuffer.FindEntryOffsetForFpos | aesd-char-driver/main.c:111 | the lookup walk over the slots from out_offs returns nothing exactly when the position is past the end; otherwise it returns the slot of the covering entry and the byte offset inside it |
| CircularBuffer.ReleasedSlotsAreEntries | aesd-char-driver/main.c:364-368 | freeing every non-NULL slot of the ring frees exactly the buffers of the entries held, each once, whatever the ring's rotation |
| AesdChar.FirstNewline | aesd-char-driver/main.c:202-210 | the index where the scan stops: no newline before it, a newline at it, and it equals the length exactly when the data has no newline |
| AesdChar.FirstNewlineAt | aesd-char-driver/main.c:202-210 | any index with no newline before it and a newline at it (or at the end) is the first-newline index |
| AesdChar.ScanForNewline | aesd-char-driver/main.c:198-210 | the scan loop returns the first-newline index, and newline_found is set exactly when that index is inside the data |
| AesdChar.WriteEffect | aesd-char-driver/main.c:152-291 | error returns leave the ring as it was; a non-negative return needs a non-NULL buffer, is at most count, and leaves the mutex free; lost allocations never decrease |
| AesdChar.LockedWriteEffect | aesd-char-driver/main.c:198-285 | the critical section keeps the ring well formed and its size; on an error the ring is unchanged; a success consumes at most count bytes and releases the mutex |
| AesdChar.EvictedThenAdded | aesd-char-driver/main.c:262-274 | evicting and then adding appends the new entry after the entries held, the oldest dropped when the ring was full; it keeps empty slots NULL and changes no slot other than in_offs |
| AesdChar.LockedWritePreservesValid | aesd-char-driver/main.c:198-285 | the critical section keeps the device invariant: a well-formed tidy ring, every entry a non-empty line ending in a newline, and the pending size within the buffer |
| AesdChar.WritePreservesValid | aesd-char-driver/main.c:152-291 | aesd_write keeps the device invariant, whatever the outcomes of the kernel calls |
| AesdChar.InitialStateValid | aesd-char-driver/main.c:334-342 | the freshly initialised device satisfies the invariant and holds no entries |
| AesdChar.CopyOut | aesd-char-driver/main.c:111-120 | the bytes handed to copy_to_user: nothing exactly when the position is past the end, and never more than count bytes |
| AesdChar.CopyOutFromSlot | aesd-char-driver/main.c:111-120 | given the slot and offset the lookup reports, the offset lies inside that slot's entry and the bytes copied are that entry's bytes from the offset, min(remaining, count) of them |
| AesdChar.ReadEffect | aesd-char-driver/main.c:84-135 | a non-negative return equals the number of bytes delivered and is at most count; an error delivers nothing |
| AesdChar.LockedReadEffect | aesd-char-driver/main.c:111-131 | the critical section of a read: the return equals the bytes delivered, at most count; a failed copy_to_user delivers nothing |
| AesdChar.AesdDevice.constructor | aesd-char-driver/main.c:334-342 | the device after initialisation: an empty ring of the given capacity, write_buffer NULL with size 0, the mutex free, and the invariant established |
| AesdChar.AesdDevice.WriteLocked | aesd-char-driver/main.c:198-285 | the device's new state and the return value are those of the critical-section function, and the device invariant is kept |
| AesdChar.AesdDevice.ReadLocked | aesd-char-driver/main.c:111-131 | the return value and the bytes copied are those of the critical section of a read on the current ring |
| AesdChar.AesdWrite | aesd-char-driver/main.c:152-291 | a NULL file gives -EINVAL; otherwise the return value and the device's new state are those of `WriteEffect` on the old state; the invariant is kept; f_pos advances by the return value on success and is unchanged on error |
| AesdChar.AesdRead | aesd-char-driver/main.c:84-135 | a NULL file gives -EINVAL; otherwise the return value and the bytes delivered are those of `ReadEffect`; f_pos advances by the return value on success |
| AesdChar.AesdCleanupModule | aesd-char-driver/main.c:364-368 | the buffers freed are, in slot order, the non-NULL slots' buffers, and as a multiset exactly the buffers of the entries the ring holds, one for each entry, for a ring of at most 127 slots (the range of the `int8_t` loop index) |
| AesdCharProperties.WriteWithoutNewline | aesd-char-driver/main.c:215-249 | a successful write without a newline returns count, appends all the bytes to the pending bytes, and leaves the ring unchanged |
| AesdCharProperties.WriteWithNewline | aesd-char-driver/main.c:202-279 | a successful write with a newline returns the index of the first newline plus one; it commits the pending bytes followed by the data up to and including that newline as the newest entry, dropping the oldest when full; nothing stays pending |
| AesdCharProperties.WritesAccumulate | aesd-char-driver/main.c:224-249 | successful newline-free writes concatenate their bytes in order onto the pending bytes without touching the ring, and keep the invariant |
| AesdCharProperties.LineSplitAcrossWrites | aesd-char-driver/main.c:224-276 | a line written in several pieces becomes one entry: the pending bytes, every newline-free piece in order, and the final piece up to its newline |
| AesdCharProperties.WriteEvictsOldestWhenFull | aesd-char-driver/main.c:262-274 | on a full ring a committing write overwrites the slot at in_offs, which holds the oldest entry; the ring stays full; the entries become the old ones minus the oldest, plus the new line; no other slot changes |
| AesdCharProperties.WriteFailsBeforeTouchingDevice | aesd-char-driver/main.c:157-189 | a NULL buffer, a failed kmalloc of the copy, and a failed copy_from_user return -EINVAL, -ENOMEM and -EFAULT, with the device unchanged |
| AesdCharProperties.EntrySliceIsFileSlice | aesd-char-driver/main.c:111-120 | the bytes at an offset of the k-th entry are the file's bytes at the total size of the earlier entries plus that offset |
| AesdCharProperties.CopyOutIsFileSlice | aesd-char-driver/main.c:111-120 | below the end, the bytes copied are the file's bytes at the position; the copy stops at count or at the end of the covering entry; it is non-empty when count is non-zero |
| AesdCharProperties.ReadReturnsFileBytes | aesd-char-driver/main.c:84-135 | a read that takes the mutex and copies successfully returns 0 at or past the end of the file, and otherwise the file's bytes at the size_t position, at least one when count is non-zero |
| AesdCharProperties.ReadWholeEntry | aesd-char-driver/main.c:111-127 | a read at the start of an entry, with count at least the entry's size, returns the whole entry |
| AesdCharProperties.WrittenLineIsReadBack | aesd-char-driver/main.c:252-276 | on a ring with room, a line just written is read back whole at the position where the earlier entries end |
| AesdCharProperties.FirstAllocationFailureKeepsLock | aesd-char-driver/main.c:225-233 | when the first kmalloc of write_buffer fails, the write returns -ENOMEM with the mutex still held |
| AesdCharProperties.HeldLockWedgesWrites | aesd-char-driver/main.c:191-196 | once the mutex is left held, every later write that gets past the copy returns -ERESTARTSYS, and the ring and the pending buffer never change again |
| AesdCharProperties.HeldLockRefusesReads | aesd-char-driver/main.c:104-109 | while the mutex is left held, every read with a non-NULL buffer returns -ERESTARTSYS |
| AesdCharProperties.InterruptedWriteLeaksCopy | aesd-char-driver/main.c:191-196 | an interrupted lock returns -ERESTARTSYS without freeing the kernel copy of the user data |
| AesdCharProperties.ReallocFailureLosesPendingBytes | aesd-char-driver/main.c:236-249 | a failed krealloc returns -ENOMEM, drops and leaks the pending buffer, and keeps its size; the next committing write stores uninitialised memory in place of the earlier pending bytes |

## Left out

- Module registration is not modelled: `aesd_open`, `aesd_release`, `aesd_setup_cdev`, and the region and cdev registration in `aesd_init_module`/`aesd_cleanup_module`. It does not touch the device state beyond `filp->private_data`, which the `File` class carries.
- The mutex as a concurrency object is not modelled. Every file operation is one atomic step, and the lock is the `lockHeld` flag. A lock that is free but interrupted is an input. A lock left held stays held, and taking it can only end interrupted.
- kmalloc, krealloc, copy_from_user, copy_to_user and mutex_lock_interruptible are modelled by their success or failure only, which are inputs. The model lets zero-length calls fail, although in the kernel they cannot: `kmalloc(0)` returns the non-NULL ZERO_SIZE_PTR, and a 0-byte copy_from_user or copy_to_user returns 0. So the model admits a zero-length write that fails with -ENOMEM, including the first-allocation failure that leaves the mutex held, and a count-0 read that returns -EFAULT. A partial copy_to_user, which the driver treats as a failure, leaves some bytes in the user buffer; the model reports no bytes delivered on that path.
- Memory contents and capacity are not modelled. Buffers are byte sequences. Lost allocations are counted, not tracked. Uninitialised memory is an input function.
- `count` is the length of the user data. A user pointer is either NULL or holds `count` readable bytes.
- AesdChar.AesdWrite: does not model overflow of the 64-bit signed `*f_pos += retval`. The new position is an unbounded integer.
- AesdChar.AesdRead: does not model overflow of the 64-bit signed `*f_pos += retval`, for the same reason.
- AesdChar.AesdDevice.constructor: the statement at main.c:341 compares `write_buffer` with NULL and discards the result. It has no effect: the preceding memset already made the pointer NULL.
- AesdChar.AesdCleanupModule: models only the loop that frees the slots. The pending `write_buffer` is not freed by the source, so it is not in the model's result. The FOREACH index is an `int8_t`, so the loop is only well defined for a capacity of at most 127 slots; the model requires that bound instead of modelling the wrap-around past it.
- The circular-buffer helpers (init, add_entry, find_entry_offset_for_fpos and the FOREACH macro) are defined in a file that is not part of this model. Their behaviour is inferred from how main.c uses them, with the capacity as a parameter.
- Logging (`PDEBUG`, `printk`) is not modelled.
- The socket server, the examples and the finder-app programs are not modelled.
