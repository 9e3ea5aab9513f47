// buffer.cpp: the owning byte buffer over malloc'd storage.
module Buffers {
  import opened Base
  import opened Memory
  import opened CheckedMath
  import opened Growth
  import Spec = BufferSpec

  class Buffer {
    const heap: Heap
    var data: array?<byte>
    var size: nat
    var cap: nat

    // The three fields agree with each other.
    ghost predicate Sound()
      reads this
    {
      && (data == null <==> cap == 0)
      && size <= cap <= heap.limits.maxAlloc
      && (data != null ==> data.Length == cap)
    }

    ghost predicate Valid()
      reads this, heap
    {
      heap.Valid() && Sound() && (data != null ==> data in heap.owned)
    }

    ghost function Contents(): (s: seq<byte>)
      requires Valid()
      reads this, heap, data
      ensures |s| == size
    {
      if data == null then [] else data[..size]
    }

    // What the buffer means: its bytes and its capacity.
    ghost function State(): (st: Spec.Store)
      requires Valid()
      reads this, heap, data
      ensures st.WellFormed(heap.limits)
    {
      Spec.Store(Contents(), cap)
    }

    // verify()
    predicate Verify()
      reads this
    {
      if cap == 0 then data == null && size == 0
      else if data == null then false
      else size <= cap
    }

    // The conditions BUFFER_AUDIT checks on entry to every operation.
    predicate Audit()
      reads this
    {
      && size <= cap
      && (cap == 0 || data != null)
      && (cap != 0 || data == null)
    }

    lemma ValidMeansAuditsPass()
      requires Valid()
      ensures Verify() && Audit()
    {}

    // Bytes may be taken from src: it is null, nothing is asked for, or it is
    // live storage; a view of the buffer itself stays inside its contents.
    ghost predicate Source(src: Ptr, len: nat)
      reads this, heap
    {
      && heap.Known(src)
      && (len > 0 && src.At? ==> heap.Readable(src, len) && (src.block == data ==> src.off + len <= size))
    }

    ghost function Arg(src: Ptr, len: nat): Option<seq<byte>>
      requires Source(src, len)
      reads this, heap, if src.At? then {src.block} else {}
    {
      if len == 0 then Some([]) else if src.Null? then None else Some(src.Bytes(len))
    }

    // The bytes the caller passed: refused are null and a length, nothing else.
    lemma ArgMeans(src: Ptr, len: nat)
      requires Source(src, len)
      ensures Arg(src, len).None? <==> src.Null? && len > 0
      ensures Arg(src, len).Some? ==>
        && |Arg(src, len).value| == len
        && forall i :: 0 <= i < len ==> Arg(src, len).value[i] == src.block[src.off + i]
    {}

    // The heap after the operation differs only in this buffer's own block.
    twostate predicate OwnsAsBefore()
      reads this, heap
    {
      heap.Exchanged(old(data), data)
    }

    // Nothing observable or hidden has changed.
    twostate predicate Untouched()
      reads this, heap, data
    {
      unchanged(this) && unchanged(heap) && (data != null ==> unchanged(data))
    }

    constructor (heap: Heap)
      requires heap.Valid()
      ensures Valid() && this.heap == heap && data == null
      ensures State() == Spec.EMPTY
    {
      this.heap := heap;
      data, size, cap := null, 0, 0;
    }

    static method WithCapacity(heap: Heap, initial: nat) returns (r: Code, b: Buffer)
      requires heap.Valid()
      modifies heap
      ensures fresh(b) && b.heap == heap && b.Valid()
      ensures heap.Exchanged(null, b.data) && (b.data != null ==> fresh(b.data))
      ensures r == Spec.Create(heap.limits, old(heap.grants), initial)
      ensures b.State() == Spec.Store([], if r == Ok then initial else 0)
    {
      b := new Buffer(heap);
      if initial == 0 {
        return Ok, b;
      }
      if initial > heap.limits.maxAlloc {
        return CapacityExceeded, b;
      }
      var p := heap.Realloc(null, initial);
      if p == null {
        return OutOfMemory, b;
      }
      b.data, b.cap, b.size := p, initial, 0;
      r := Ok;
    }

    static method FromBytes(heap: Heap, src: Ptr, len: nat) returns (r: Code, b: Buffer)
      requires heap.Valid()
      requires len > 0 && src.At? ==> heap.Readable(src, len)
      modifies heap
      ensures fresh(b) && b.heap == heap && b.Valid()
      ensures heap.Exchanged(null, b.data) && (b.data != null ==> fresh(b.data))
      ensures r == if len > 0 && src.Null? then NullPointer else Spec.Create(heap.limits, old(heap.grants), len)
      ensures b.State() == if r == Ok && len > 0 then Spec.Store(old(src.Bytes(len)), len) else Spec.EMPTY
    {
      if len == 0 {
        r, b := WithCapacity(heap, 0);
        return;
      }
      if src.Null? {
        b := new Buffer(heap);
        return NullPointer, b;
      }
      r, b := WithCapacity(heap, len);
      if r != Ok {
        return;
      }
      heap.Memmove(b.data, 0, src, len);
      b.size := len;
    }

    method Clone() returns (r: Code, b: Buffer)
      requires Valid()
      modifies heap
      ensures fresh(b) && b.heap == heap && b.Valid() && Valid()
      ensures heap.Exchanged(null, b.data) && (b.data != null ==> fresh(b.data))
      ensures r == Spec.Create(heap.limits, old(heap.grants), size)
      ensures b.State() == if r == Ok then Spec.Store(Contents(), size) else Spec.EMPTY
    {
      assert Audit();
      r, b := FromBytes(heap, if data == null then Null else At(data, 0), size);
    }

    // at
    function Get(i: nat): (r: Option<byte>)
      requires Valid()
      reads this, heap, data
      ensures r == if i < |Contents()| then Some(Contents()[i]) else None
    {
      assert Audit();
      if i >= size then None else Some(heap.Load(data, i))
    }

    method Set(i: nat, value: byte) returns (r: Code)
      requires Valid()
      modifies data
      ensures Valid()
      ensures Spec.Outcome(r, State()) == Spec.Set(old(State()), i, value)
    {
      assert Audit();
      if i >= size {
        return OutOfRange;
      }
      heap.Store(data, i, value);
      r := Ok;
    }

    method Reserve(newCap: nat) returns (r: Code)
      requires Valid()
      modifies this, heap
      ensures Valid() && OwnsAsBefore()
      ensures data != old(data) ==> fresh(data)
      ensures r != Ok ==> Untouched()
      ensures Spec.Outcome(r, State()) == Spec.Reserve(heap.limits, old(heap.grants), old(State()), newCap)
      ensures r == Ok <==> newCap <= old(cap) || (newCap <= heap.limits.maxAlloc && old(heap.grants))
    {
      assert Audit();
      if newCap <= cap {
        return Ok;
      }
      if newCap > heap.limits.maxAlloc {
        return CapacityExceeded;
      }
      var p := heap.Realloc(data, newCap);
      if p == null {
        return OutOfMemory;
      }
      data, cap := p, newCap;
      r := Ok;
    }

    method GrowToAtLeast(needed: nat) returns (r: Code)
      requires Valid()
      modifies this, heap
      ensures Valid() && OwnsAsBefore()
      ensures data != old(data) ==> fresh(data)
      ensures r != Ok ==> Untouched()
      ensures size == old(size) && Contents() == old(Contents())
      ensures Grown(r, cap) == BufferGrowth(heap.limits, old(heap.grants), old(cap), needed)
    {
      if needed <= cap {
        return Ok;
      }
      var target := NextCapacity(heap.limits, cap, needed);
      if target < needed {
        target := needed;
      }
      r := Reserve(target);
    }

    method Resize(newSize: nat, fill: byte) returns (r: Code)
      requires Valid()
      modifies this, heap, data
      ensures Valid() && OwnsAsBefore()
      ensures data != old(data) ==> fresh(data)
      ensures r != Ok ==> Untouched()
      ensures Spec.Outcome(r, State()) == Spec.Resize(heap.limits, old(heap.grants), old(State()), newSize, fill)
      ensures r == Ok ==> size == newSize
      ensures r == Ok ==> forall i :: 0 <= i < newSize ==>
                Contents()[i] == if i < old(size) then old(Contents())[i] else fill
    {
      assert Audit();
      if newSize > heap.limits.maxAlloc {
        return CapacityExceeded;
      }
      if newSize > cap {
        r := GrowToAtLeast(newSize);
        if r != Ok {
          return;
        }
      }
      ResizeGrown(newSize, fill);
      r := Ok;
    }

    // The rest of resize, once there is room.
    method ResizeGrown(newSize: nat, fill: byte)
      requires Valid() && newSize <= cap
      modifies this`size, data
      ensures Valid()
      ensures Contents() == if newSize <= old(size) then old(Contents())[..newSize]
                            else old(Contents()) + Fill(newSize - old(size), fill)
    {
      ghost var was := Contents();
      if newSize > size {
        Pad(newSize, fill);
      }
      size := newSize;
      assert newSize <= |was| ==> Contents() == was[..newSize];
    }

    // memset of the bytes resize adds; size itself is set by the caller.
    method Pad(newSize: nat, fill: byte)
      requires Valid() && size < newSize <= cap
      modifies data
      ensures Valid() && data[..newSize] == old(Contents()) + Fill(newSize - size, fill)
    {
      ghost var was := Contents();
      heap.Memset(data, size, fill, newSize - size);
      JoinedByIndex(data[..newSize], was, Fill(newSize - size, fill));
    }

    method Clear()
      requires Valid()
      modifies this
      ensures Valid() && data == old(data)
      ensures State() == Spec.Clear(old(State())).after
    {
      assert Audit();
      size := 0;
    }

    // The bytes are zeroed in the block, not just forgotten.
    method SecureClear()
      requires Valid()
      modifies this, data
      ensures Valid() && data == old(data)
      ensures State() == Spec.Clear(old(State())).after
      ensures data != null ==> forall i :: 0 <= i < old(size) ==> data[i] == 0
    {
      assert Audit();
      heap.SecureZero(data, size);
      size := 0;
    }

    // Snapshot where the source is before growth can invalidate it, then grow.
    // Afterwards a self-view is at its old offset in the present block, and any
    // other source is where it was.
    method SnapshotAndGrow(src: Ptr, len: nat, end: nat) returns (r: Code, srcOffset: Option<nat>)
      requires Valid() && src.At? && len > 0 && Source(src, len)
      modifies this, heap
      ensures Valid() && OwnsAsBefore()
      ensures data != old(data) ==> fresh(data)
      ensures r != Ok ==> Untouched()
      ensures size == old(size) && Contents() == old(Contents())
      ensures Grown(r, cap) == BufferGrowth(heap.limits, old(heap.grants), old(cap), end)
      ensures r == Ok ==>
        if srcOffset.Some?
        then src.block == old(data) && srcOffset.value == src.off && src.off + len <= size
        else heap.Readable(src, len) && src.block != data && src.block != old(data)
    {
      srcOffset := heap.AliasOffset(src, data, cap);
      r := Ok;
      if end > cap {
        r := GrowToAtLeast(end);
      }
    }

    // Copies in at dst, growing first. src may be a view of this very buffer:
    // its offset is taken before growth and turned back into a pointer after.
    method CopyInPossiblyAliased(dst: nat, src: Ptr, len: nat) returns (r: Code)
      requires Valid() && src.At? && len > 0 && Source(src, len) && dst <= size
      modifies this, heap, data
      ensures Valid() && OwnsAsBefore() && size == old(size)
      ensures data != old(data) ==> fresh(data)
      ensures r != Ok ==> Untouched()
      ensures Grown(r, cap) == if dst + len > heap.limits.sizeMax then Grown(Overflow, old(cap))
                               else BufferGrowth(heap.limits, old(heap.grants), old(cap), dst + len)
      ensures r == Ok ==>
        && data != null && dst + len <= cap
        && forall i {:trigger data[i]} :: 0 <= i < dst + len ==>
             data[i] == if i < dst then old(Contents()[i]) else old(src.block[src.off + i - dst])
    {
      var end := CheckedAdd(heap.limits, dst, len);
      if end.None? {
        return Overflow;
      }
      var srcOffset;
      r, srcOffset := SnapshotAndGrow(src, len, end.value);
      if r != Ok {
        return;
      }
      var effective := if srcOffset.Some? then At(data, srcOffset.value) else src;
      heap.Memmove(data, dst, effective, len);
    }

    method AppendByte(b: byte) returns (r: Code)
      requires Valid()
      modifies this, heap, data
      ensures Valid() && OwnsAsBefore()
      ensures data != old(data) ==> fresh(data)
      ensures r != Ok ==> Untouched()
      ensures Spec.Outcome(r, State()) == Spec.Append(heap.limits, old(heap.grants), old(State()), Some([b]))
    {
      assert Audit();
      var newSize := CheckedAdd(heap.limits, size, 1);
      if newSize.None? {
        return Overflow;
      }
      r := GrowToAtLeast(newSize.value);
      if r != Ok {
        return;
      }
      heap.Store(data, size, b);
      size := newSize.value;
    }

    method Append(src: Ptr, len: nat) returns (r: Code)
      requires Valid() && Source(src, len)
      modifies this, heap, data
      ensures Valid() && OwnsAsBefore()
      ensures data != old(data) ==> fresh(data)
      ensures r != Ok ==> Untouched()
      ensures Spec.Outcome(r, State()) ==
              Spec.Append(heap.limits, old(heap.grants), old(State()), old(Arg(src, len)))
    {
      assert Audit();
      if len == 0 {
        return Ok;
      }
      if src.Null? {
        return NullPointer;
      }
      var newSize := CheckedAdd(heap.limits, size, len);
      if newSize.None? {
        return Overflow;
      }
      r := AppendChecked(src, len, newSize.value);
    }

    // The rest of append, after the argument checks.
    method AppendChecked(src: Ptr, len: nat, newSize: nat) returns (r: Code)
      requires Valid() && Source(src, len) && src.At? && len > 0 && newSize == size + len <= heap.limits.sizeMax
      modifies this, heap, data
      ensures Valid() && OwnsAsBefore()
      ensures data != old(data) ==> fresh(data)
      ensures r != Ok ==> Untouched()
      ensures Spec.Outcome(r, State()) ==
              Spec.Become(heap.limits, old(heap.grants), old(State()), old(Contents() + src.Bytes(len)))
    {
      hide BufferGrowth;
      ghost var was, bytes := Contents(), src.Bytes(len);
      r := CopyInPossiblyAliased(size, src, len);
      if r != Ok {
        return;
      }
      size := newSize;
      JoinedByIndex(Contents(), was, bytes);
    }

    // Overwrites in place; src may overlap the range it is written to.
    method Write(offset: nat, src: Ptr, len: nat) returns (r: Code)
      requires Valid() && Source(src, len)
      modifies data
      ensures Valid()
      ensures r != Ok ==> Untouched()
      ensures Spec.Outcome(r, State()) ==
              Spec.Write(heap.limits, old(State()), offset, old(Arg(src, len)))
      ensures r == Ok ==> forall i :: 0 <= i < size ==>
                Contents()[i] == if offset <= i < offset + len then old(src.block[src.off + i - offset])
                                 else old(Contents())[i]
    {
      assert Audit();
      if len == 0 {
        return Ok;
      }
      if src.Null? {
        return NullPointer;
      }
      if !RangeInBounds(heap.limits, offset, len, size) {
        return RangeError(heap.limits, offset, len);
      }
      ghost var was, bytes := Contents(), src.Bytes(len);
      heap.Memmove(data, offset, src, len);
      SplicedByIndex(Contents(), was, offset, len, bytes);
      r := Ok;
    }

    // Copies out, clamped to what there is. out may lie in the buffer's own
    // block; it then gets the bytes that were there before the call.
    method Read(offset: nat, out: Ptr, len: nat) returns (r: Code, copied: nat)
      requires Valid()
      requires out.At? && offset < size && len > 0 ==> heap.Readable(out, Min(len, size - offset))
      modifies if out.At? then {out.block} else {}
      ensures Valid()
      ensures (out.At? && out.block == data) || State() == old(State())
      ensures r == if offset > size then OutOfRange else if len > 0 && out.Null? then NullPointer else Ok
      ensures copied == if r == Ok then Min(len, size - offset) else 0
      ensures copied > 0 ==> out.Bytes(copied) == old(Contents()[offset..offset + Min(len, size - offset)])
      ensures out.At? ==> forall i :: 0 <= i < out.block.Length && !(out.off <= i < out.off + copied) ==>
                out.block[i] == old(out.block[i])
    {
      assert Audit();
      if offset > size {
        return OutOfRange, 0;
      }
      if len == 0 {
        return Ok, 0;
      }
      if out.Null? {
        return NullPointer, 0;
      }
      var available := size - offset;
      copied := if len < available then len else available;
      r := Ok;
      if copied > 0 {
        ghost var wanted := Contents()[offset..offset + copied];
        assert forall i {:trigger wanted[i]} :: 0 <= i < copied ==> wanted[i] == data[offset + i];
        heap.Memmove(out.block, out.off, At(data, offset), copied);
        ghost var got := out.Bytes(copied);
        assert forall i {:trigger got[i]} :: 0 <= i < copied ==> got[i] == out.block[out.off + i] == wanted[i];
      }
    }

    // fill
    method FillAll(b: byte)
      requires Valid()
      modifies data
      ensures Valid()
      ensures State() == Spec.FillAll(old(State()), b).after
      ensures forall i :: 0 <= i < size ==> Contents()[i] == b
    {
      assert Audit();
      if size > 0 && data != null {
        heap.Memset(data, 0, b, size);
      }
    }

    // Move construction: a new owner takes the block, this one becomes empty.
    static method MoveFrom(other: Buffer) returns (b: Buffer)
      requires other.Valid()
      modifies other
      ensures fresh(b) && b.heap == other.heap
      ensures b.Valid() && other.Valid()
      ensures b.data == old(other.data) && other.data == null
      ensures b.State() == old(other.State()) && other.State() == Spec.EMPTY
    {
      b := new Buffer(other.heap);
      b.data, b.size, b.cap := other.data, other.size, other.cap;
      other.data, other.size, other.cap := null, 0, 0;
    }

    // Move assignment, onto itself included.
    method MoveAssign(other: Buffer)
      requires Valid() && other.Valid() && other.heap == heap
      requires other != this && data != null ==> data != other.data
      modifies this, other, heap
      ensures Valid() && other.Valid()
      ensures other == this ==> Untouched()
      ensures other != this ==>
        && data == old(other.data) && other.data == null
        && State() == old(other.State()) && other.State() == Spec.EMPTY
        && heap.Exchanged(old(data), null)
    {
      if this != other {
        heap.Free(data);
        data, size, cap := other.data, other.size, other.cap;
        other.data, other.size, other.cap := null, 0, 0;
      }
    }

    // The destructor. The object is gone afterwards, whatever its fields say.
    method Destroy()
      requires Valid()
      modifies heap
      ensures heap.Valid() && heap.Exchanged(data, null)
    {
      heap.Free(data);
    }
  }
}
