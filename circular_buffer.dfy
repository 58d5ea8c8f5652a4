/** The fixed-capacity circular buffer of write commands that the driver keeps
    per device: an array of entries, the slot the next entry goes into
    (in_offs), the slot of the oldest entry (out_offs) and a full flag.
    Its helpers (init, add_entry, find_entry_offset_for_fpos, FOREACH) live in
    a file that is not part of this model; their behaviour here is inferred
    from how the driver uses them. The capacity is a parameter. */
module CircularBuffer {
  import opened Kernel

  /** One slot: NULL (never filled, or released) or a buffer of bytes whose
      size field equals its length. */
  datatype BufferEntry = Null | Entry(buffptr: seq<byte>)
  {
    function Size(): nat { if Null? then 0 else |buffptr| }
  }

  /** The value of the ring structure: its slots and its three indices. */
  datatype Ring = Ring(slots: seq<BufferEntry>, inOffs: nat, outOffs: nat, full: bool)

  ghost predicate RingValid(r: Ring) {
    |r.slots| > 0 && r.inOffs < |r.slots| && r.outOffs < |r.slots| &&
    (r.full ==> r.inOffs == r.outOffs)
  }

  /** k reduced into [0, n) when it is below 2n: (k % n) for the indices the ring uses. */
  function Wrap(k: nat, n: nat): (r: nat)
    requires k < 2 * n
    ensures r < n && (r == k || r == k - n)
  {
    if k < n then k else k - n
  }

  /** Number of entries held: N when full, otherwise the distance from out_offs to in_offs. */
  function Count(r: Ring): (c: nat)
    requires RingValid(r)
    ensures c <= |r.slots|
    ensures c == |r.slots| <==> r.full
    ensures c == 0 <==> !r.full && r.inOffs == r.outOffs
  {
    if r.full then |r.slots|
    else if r.inOffs >= r.outOffs then r.inOffs - r.outOffs
    else |r.slots| - r.outOffs + r.inOffs
  }

  /** The slot holding the i-th oldest entry. */
  function SlotOf(r: Ring, i: nat): (k: nat)
    requires RingValid(r) && i < |r.slots|
    ensures k < |r.slots|
  {
    Wrap(r.outOffs + i, |r.slots|)
  }

  /** The entries held, oldest first. */
  function Entries(r: Ring): (es: seq<BufferEntry>)
    requires RingValid(r)
  {
    seq(Count(r), i requires 0 <= i < Count(r) => r.slots[SlotOf(r, i)])
  }

  /** Every slot that holds no entry is NULL (true from init, since the ring
      only ever grows until full and then overwrites its oldest slot). */
  ghost predicate Tidy(r: Ring)
    requires RingValid(r)
  {
    forall i :: Count(r) <= i < |r.slots| ==> r.slots[SlotOf(r, i)] == Null
  }

  /** aesd_circular_buffer_init on a zeroed structure. */
  function EmptyRing(n: nat): Ring
    requires n > 0
  {
    Ring(seq(n, _ => Null), 0, 0, false)
  }

  /** aesd_circular_buffer_add_entry: store at in_offs, advance in_offs, and
      when the ring was full advance out_offs past the overwritten oldest entry. */
  function AddedEntry(r: Ring, e: BufferEntry): (r': Ring)
    requires RingValid(r)
    ensures RingValid(r') && |r'.slots| == |r.slots|
  {
    var n := |r.slots|;
    var in' := Wrap(r.inOffs + 1, n);
    var out' := if r.full then Wrap(r.outOffs + 1, n) else r.outOffs;
    Ring(r.slots[r.inOffs := e], in', out', in' == out')
  }

  /** Adding an entry appends it to the entries held; a full ring first loses
      its oldest entry and stays full. Only the slot at in_offs changes, and
      the empty slots stay NULL. */
  lemma AddedEntryContents(r: Ring, e: BufferEntry)
    requires RingValid(r)
    ensures Entries(AddedEntry(r, e)) == (if r.full then Entries(r)[1..] else Entries(r)) + [e]
    ensures Count(AddedEntry(r, e)) == if r.full then |r.slots| else Count(r) + 1
    ensures forall k :: 0 <= k < |r.slots| && k != r.inOffs ==> AddedEntry(r, e).slots[k] == r.slots[k]
    ensures Tidy(r) ==> Tidy(AddedEntry(r, e))
  {
    if r.full {
      AddedEntryWhenFull(r, e);
    } else {
      AddedEntryWhenNotFull(r, e);
    }
  }

  lemma AddedEntryWhenFull(r: Ring, e: BufferEntry)
    requires RingValid(r) && r.full
    ensures Entries(AddedEntry(r, e)) == Entries(r)[1..] + [e]
    ensures AddedEntry(r, e).full
  {
    var r' := AddedEntry(r, e);
    var old_ := Entries(r)[1..];
    assert Count(r') == |old_| + 1;
    forall i | 0 <= i < |old_| ensures Entries(r')[i] == old_[i] {
      assert SlotOf(r', i) == SlotOf(r, i + 1);
    }
    assert SlotOf(r', |old_|) == r.inOffs;
  }

  lemma AddedEntryWhenNotFull(r: Ring, e: BufferEntry)
    requires RingValid(r) && !r.full
    ensures Entries(AddedEntry(r, e)) == Entries(r) + [e]
    ensures Count(AddedEntry(r, e)) == Count(r) + 1
    ensures Tidy(r) ==> Tidy(AddedEntry(r, e))
  {
    var r' := AddedEntry(r, e);
    assert r'.outOffs == r.outOffs;
    assert Count(r') == Count(r) + 1;
    forall i | 0 <= i < |r.slots| ensures SlotOf(r', i) == SlotOf(r, i) {
    }
    assert SlotOf(r, Count(r)) == r.inOffs;
    if Tidy(r) {
      forall i | Count(r') <= i < |r.slots| ensures r'.slots[SlotOf(r', i)] == Null {
        assert SlotOf(r', i) != r.inOffs;
      }
    }
  }

  /** Sum of the sizes of a run of entries. */
  function TotalSize(es: seq<BufferEntry>): nat
  {
    if es == [] then 0 else es[0].Size() + TotalSize(es[1..])
  }

  lemma {:induction false} TotalSizeAppend(a: seq<BufferEntry>, b: seq<BufferEntry>)
    ensures TotalSize(a + b) == TotalSize(a) + TotalSize(b)
  {
    if a == [] {
      assert a + b == b;
    } else {
      assert (a + b)[1..] == a[1..] + b;
      TotalSizeAppend(a[1..], b);
    }
  }

  /** The position of a byte offset in the concatenation of the entries: the
      entry covering it and the offset inside that entry, or None past the end.
      This is what aesd_circular_buffer_find_entry_offset_for_fpos computes. */
  function Locate(es: seq<BufferEntry>, pos: nat): (r: Option<(nat, nat)>)
    ensures r.None? <==> pos >= TotalSize(es)
    ensures r.Some? ==> r.value.0 < |es| && r.value.1 < es[r.value.0].Size() &&
                        pos == TotalSize(es[..r.value.0]) + r.value.1
  {
    if es == [] then None
    else if pos < es[0].Size() then
      assert es[..0] == [];
      Some((0, pos))
    else
      match Locate(es[1..], pos - es[0].Size())
      case None => None
      case Some((k, off)) =>
        assert es[..k + 1] == [es[0]] + es[1..][..k];
        TotalSizeAppend([es[0]], es[1..][..k]);
        Some((k + 1, off))
  }

  /** The entry and offset Locate gives are the only ones covering the position. */
  lemma {:induction false} LocateUnique(es: seq<BufferEntry>, pos: nat, k: nat, off: nat)
    requires k < |es| && off < es[k].Size() && pos == TotalSize(es[..k]) + off
    ensures Locate(es, pos) == Some((k, off))
  {
    if k == 0 {
      assert es[..0] == [];
    } else {
      assert es[..k] == [es[0]] + es[1..][..k - 1];
      TotalSizeAppend([es[0]], es[1..][..k - 1]);
      LocateUnique(es[1..], pos - es[0].Size(), k - 1, off);
    }
  }

  /** The buffers released by a pass over slots that frees every non-NULL one. */
  function Released(slots: seq<BufferEntry>): seq<seq<byte>>
  {
    if slots == [] then []
    else (if slots[0].Entry? then [slots[0].buffptr] else []) + Released(slots[1..])
  }

  lemma {:induction false} ReleasedAppend(a: seq<BufferEntry>, b: seq<BufferEntry>)
    ensures Released(a + b) == Released(a) + Released(b)
  {
    if a == [] {
      assert a + b == b;
    } else {
      assert (a + b)[1..] == a[1..] + b;
      ReleasedAppend(a[1..], b);
    }
  }

  lemma {:induction false} ReleasedAllNull(a: seq<BufferEntry>)
    requires forall i :: 0 <= i < |a| ==> a[i] == Null
    ensures Released(a) == []
  {
    if a != [] {
      ReleasedAllNull(a[1..]);
    }
  }

  lemma {:induction false} ReleasedAllEntries(a: seq<BufferEntry>)
    requires forall i :: 0 <= i < |a| ==> a[i].Entry?
    ensures |Released(a)| == |a|
  {
    if a != [] {
      ReleasedAllEntries(a[1..]);
    }
  }

  /** The slots read from out_offs round to just before it: the entries held
      followed by the empty slots. */
  ghost function Rotated(r: Ring): seq<BufferEntry>
    requires RingValid(r)
  {
    r.slots[r.outOffs..] + r.slots[..r.outOffs]
  }

  lemma RotatedSplits(r: Ring)
    requires RingValid(r)
    ensures Rotated(r) == Entries(r) + Rotated(r)[Count(r)..]
    ensures forall i :: Count(r) <= i < |r.slots| ==> Rotated(r)[i] == r.slots[SlotOf(r, i)]
  {
    var n, out := |r.slots|, r.outOffs;
    var rot := Rotated(r);
    forall i | 0 <= i < n ensures rot[i] == r.slots[SlotOf(r, i)] {
      if i < n - out {
        assert rot[i] == r.slots[out + i];
      } else {
        assert rot[i] == r.slots[i - (n - out)];
      }
    }
    assert rot[..Count(r)] == Entries(r);
    assert rot == rot[..Count(r)] + rot[Count(r)..];
  }

  /** Freeing every non-NULL slot of a tidy ring frees exactly the buffers of
      the entries it holds, each once, whatever the rotation of the ring. */
  lemma ReleasedSlotsAreEntries(r: Ring)
    requires RingValid(r) && Tidy(r)
    ensures multiset(Released(r.slots)) == multiset(Released(Entries(r)))
  {
    var out := r.outOffs;
    var rot := Rotated(r);
    assert r.slots == r.slots[..out] + r.slots[out..];
    ReleasedAppend(r.slots[..out], r.slots[out..]);
    ReleasedAppend(r.slots[out..], r.slots[..out]);
    assert multiset(Released(r.slots)) == multiset(Released(rot));
    RotatedSplits(r);
    var tail := rot[Count(r)..];
    forall i | 0 <= i < |tail| ensures tail[i] == Null {
      assert tail[i] == rot[Count(r) + i];
    }
    ReleasedAppend(Entries(r), tail);
    ReleasedAllNull(tail);
  }

  /** The ring structure of one device, updated in place. */
  class AesdCircularBuffer {
    const entry: array<BufferEntry>
    var inOffs: nat
    var outOffs: nat
    var full: bool

    ghost function Abs(): Ring
      reads this, entry
    {
      Ring(entry[..], inOffs, outOffs, full)
    }

    ghost predicate Valid()
      reads this, entry
    {
      RingValid(Abs())
    }

    /** A zero-initialised ring of the given capacity (aesd_circular_buffer_init). */
    constructor Init(capacity: nat)
      requires capacity > 0
      ensures Valid() && Abs() == EmptyRing(capacity) && fresh(entry)
    {
      entry := new BufferEntry[capacity](_ => Null);
      inOffs, outOffs, full := 0, 0, false;
      new;
      assert entry[..] == seq(capacity, _ => Null);
    }

    /** aesd_circular_buffer_add_entry. */
    method AddEntry(add: BufferEntry)
      requires Valid()
      modifies this, entry
      ensures Valid()
      ensures Abs() == AddedEntry(old(Abs()), add)
    {
      entry[inOffs] := add;
      var n := entry.Length;
      if full {
        outOffs := if outOffs + 1 < n then outOffs + 1 else 0;
      }
      inOffs := if inOffs + 1 < n then inOffs + 1 else 0;
      full := inOffs == outOffs;
    }

    /** aesd_circular_buffer_find_entry_offset_for_fpos: walks the entries from
        the oldest, subtracting the size of each one the offset passes; returns
        the slot of the entry covering charOffset with the offset inside it, or
        None when the entries hold fewer bytes than that. */
    method FindEntryOffsetForFpos(charOffset: nat) returns (r: Option<(nat, nat)>)
      requires Valid()
      ensures r.None? <==> Locate(Entries(Abs()), charOffset).None?
      ensures r.Some? ==> r.value.0 == SlotOf(Abs(), Locate(Entries(Abs()), charOffset).value.0) &&
                          r.value.1 == Locate(Entries(Abs()), charOffset).value.1
    {
      ghost var ring := Abs();
      ghost var es := Entries(ring);
      var n := entry.Length;
      var count := if full then n else if inOffs >= outOffs then inOffs - outOffs else n - outOffs + inOffs;
      assert count == Count(ring) == |es|;
      var i, rem: nat := 0, charOffset;
      while i < count
        invariant i <= count
        invariant TotalSize(es[..i]) + rem == charOffset
      {
        var slot := if outOffs + i < n then outOffs + i else outOffs + i - n;
        assert slot == SlotOf(ring, i);
        var e := entry[slot];
        assert e == es[i];
        if rem < e.Size() {
          LocateUnique(es, charOffset, i, rem);
          return Some((slot, rem));
        }
        assert es[..i + 1] == es[..i] + [e];
        TotalSizeAppend(es[..i], [e]);
        rem := rem - e.Size();
        i := i + 1;
      }
      assert es[..i] == es;
      return None;
    }
  }
}
