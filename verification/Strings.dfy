// string.cpp: the owning string. Its block has one byte more than its capacity,
// and the byte after the contents is always NUL.
module Strings {
  import opened Base
  import opened Memory
  import opened CheckedMath
  import opened Growth
  import Editing
  import Spec = StringSpec

  // p can be scanned as a C string by a reader that stops at the first NUL or
  // after bound bytes: its block may end right there.
  ghost predicate Scannable(heap: Heap, p: Ptr, bound: nat)
    requires p.At?
    reads heap, p.block
  {
    && p.block in heap.Live() && p.off <= p.block.Length
    && (p.off + bound <= p.block.Length || |Spec.CutAtNul(p.block[p.off..])| < p.block.Length - p.off)
  }

  ghost function CString(p: Ptr): seq<byte>
    requires p.At? && p.off <= p.block.Length
    reads if p.At? then {p.block} else {}
  {
    Spec.CutAtNul(p.block[p.off..])
  }

  // The C string at p: the bytes from p up to the first NUL, or up to the end of
  // the block if there is none.
  lemma CStringMeans(p: Ptr)
    requires p.At? && p.off <= p.block.Length
    ensures var c := CString(p);
            && p.off + |c| <= p.block.Length
            && (forall i :: 0 <= i < |c| ==> c[i] == p.block[p.off + i] != NUL)
            && (p.off + |c| < p.block.Length ==> p.block[p.off + |c|] == NUL)
  {
    var rest, c := p.block[p.off..], CString(p);
    assert forall i :: 0 <= i < |rest| ==> rest[i] == p.block[p.off + i];
  }

  method BoundedStrlen(heap: Heap, s: Ptr, cap: nat) returns (n: nat, found: bool)
    requires s.At? && Scannable(heap, s, cap)
    ensures found <==> |CString(s)| < cap
    ensures n == Min(|CString(s)|, cap)
  {
    ghost var rest := s.block[s.off..];
    ghost var c := Spec.CutAtNul(rest);
    var i := 0;
    while i < cap
      invariant i <= |c| && i <= cap
    {
      if i < |c| {
        assert s.block[s.off + i] == rest[i] == c[i];
      } else {
        assert s.block[s.off + i] == rest[i];
      }
      if heap.Load(s.block, s.off + i) == NUL {
        return i, true;
      }
      i := i + 1;
    }
    return cap, false;
  }

  class OeString {
    const heap: Heap
    var data: array?<byte>
    var size: nat
    var cap: nat

    // The three fields and the terminator agree with each other.
    ghost predicate Sound()
      reads this, data
    {
      && (data == null <==> cap == 0)
      && size <= cap
      && (data != null ==> data.Length == cap + 1 <= heap.limits.maxAlloc && data[size] == NUL)
    }

    ghost predicate Valid()
      reads this, heap, data
    {
      heap.Valid() && Sound() && (data != null ==> data in heap.owned)
    }

    ghost function Contents(): (s: seq<byte>)
      requires Valid()
      reads this, heap, data
      ensures |s| == size
    {
      if data == null then [] else data[..size]
    }

    ghost function State(): (st: Spec.Text)
      requires Valid()
      reads this, heap, data
      ensures st.WellFormed(heap.limits)
    {
      Spec.Text(Contents(), cap)
    }

    // verify()
    predicate Verify()
      requires data != null ==> data in heap.Live() && size < data.Length
      reads this, heap, data
    {
      if cap == 0 then data == null && size == 0
      else if data == null then false
      else if size > cap then false
      else heap.Load(data, size) == NUL
    }

    // The conditions STRING_AUDIT checks on entry to every operation.
    predicate Audit()
      requires data != null ==> data in heap.Live() && size < data.Length
      reads this, heap, data
    {
      && size <= cap
      && (cap == 0 || data != null)
      && (cap != 0 || data == null)
      && (data == null || heap.Load(data, size) == NUL)
    }

    lemma ValidMeansAuditsPass()
      requires Valid()
      ensures Verify() && Audit()
    {}

    ghost predicate Source(src: Ptr, len: nat)
      reads this, heap
    {
      && heap.Known(src)
      && (len > 0 && src.At? ==> heap.Readable(src, len) && (src.block == data ==> src.off + len <= size))
    }

    ghost function Arg(src: Ptr, len: nat): Option<seq<byte>>
      requires Source(src, len)
      reads this, heap, if src.At? then {src.block} else {}
    {
      if len == 0 then Some([]) else if src.Null? then None else Some(src.Bytes(len))
    }

    // The bytes the caller passed: refused are null and a length, nothing else.
    lemma ArgMeans(src: Ptr, len: nat)
      requires Source(src, len)
      ensures Arg(src, len).None? <==> src.Null? && len > 0
      ensures Arg(src, len).Some? ==>
        && |Arg(src, len).value| == len
        && forall i :: 0 <= i < len ==> Arg(src, len).value[i] == src.block[src.off + i]
    {}

    // A string_view argument: never null when non-empty.
    ghost predicate View(src: Ptr, n: nat)
      reads this, heap
    {
      Source(src, n) && (n > 0 ==> src.At?)
    }

    ghost function ViewSource(src: Ptr, n: nat): (v: Spec.Source)
      requires Valid() && View(src, n)
      reads this, heap, data, if src.At? then {src.block} else {}
      ensures v.FitsIn(Contents()) && v.Len() == n
    {
      if n == 0 then Spec.External([])
      else if src.block == data then Spec.Within(src.off, n)
      else Spec.External(src.Bytes(n))
    }

    // The source of an edit holds the bytes of the view, and is the string itself
    // at the place the view points to exactly when it points into the string.
    lemma ViewSourceMeans(src: Ptr, n: nat)
      requires Valid() && View(src, n)
      ensures forall i :: 0 <= i < n ==> ViewSource(src, n).In(Contents())[i] == src.block[src.off + i]
      ensures ViewSource(src, n).Within? <==> n > 0 && src.block == data
      ensures ViewSource(src, n).Within? ==> ViewSource(src, n).off == src.off
    {}

    // c_str(): the program's empty literal stands in for missing storage.
    function CStr(literal: array<byte>): Ptr
      reads this
    {
      if data != null then At(data, 0) else At(literal, 0)
    }

    twostate predicate OwnsAsBefore()
      reads this, heap
    {
      heap.Exchanged(old(data), data)
    }

    twostate predicate Untouched()
      reads this, heap, data
    {
      unchanged(this) && unchanged(heap) && (data != null ==> unchanged(data))
    }

    constructor (heap: Heap)
      requires heap.Valid()
      ensures Valid() && this.heap == heap && data == null
      ensures State() == Spec.EMPTY
    {
      this.heap := heap;
      data, size, cap := null, 0, 0;
    }

    static method WithCapacity(heap: Heap, initial: nat) returns (r: Code, s: OeString)
      requires heap.Valid()
      modifies heap
      ensures fresh(s) && s.heap == heap && s.Valid()
      ensures heap.Exchanged(null, s.data) && (s.data != null ==> fresh(s.data))
      ensures r == Spec.Create(heap.limits, old(heap.grants), initial)
      ensures s.State() == Spec.Text([], if r == Ok then initial else 0)
    {
      s := new OeString(heap);
      if initial == 0 {
        return Ok, s;
      }
      r := s.ReserveExact(initial);
    }

    static method FromBytes(heap: Heap, src: Ptr, len: nat) returns (r: Code, s: OeString)
      requires heap.Valid()
      requires len > 0 && src.At? ==> heap.Readable(src, len)
      modifies heap
      ensures fresh(s) && s.heap == heap && s.Valid()
      ensures heap.Exchanged(null, s.data) && (s.data != null ==> fresh(s.data))
      ensures r == if len > 0 && src.Null? then NullPointer else Spec.Create(heap.limits, old(heap.grants), len)
      ensures s.State() == if r == Ok && len > 0 then Spec.Text(old(src.Bytes(len)), len) else Spec.EMPTY
    {
      if len == 0 {
        s := new OeString(heap);
        return Ok, s;
      }
      if src.Null? {
        s := new OeString(heap);
        return NullPointer, s;
      }
      r, s := WithCapacity(heap, len);
      if r != Ok {
        return;
      }
      heap.Memmove(s.data, 0, src, len);
      s.size := len;
      heap.Store(s.data, s.size, NUL);
    }

    // A terminator within the scan bound means the string fits the allocation
    // cap: neither Overflow nor CapacityExceeded is possible.
    static method FromCstr(heap: Heap, src: Ptr) returns (r: Code, s: OeString)
      requires heap.Valid()
      requires src.At? ==> Scannable(heap, src, heap.limits.maxAlloc)
      modifies heap
      ensures fresh(s) && s.heap == heap && s.Valid()
      ensures heap.Exchanged(null, s.data) && (s.data != null ==> fresh(s.data))
      ensures r == if src.Null? then NullPointer
                   else if old(|CString(src)|) >= heap.limits.maxAlloc then NotNullTerminated
                   else if old(|CString(src)|) > 0 && !old(heap.grants) then OutOfMemory
                   else Ok
      ensures s.State() == if r == Ok then Spec.Text(old(CString(src)), old(|CString(src)|)) else Spec.EMPTY
    {
      if src.Null? {
        s := new OeString(heap);
        return NullPointer, s;
      }
      var n, found := BoundedStrlen(heap, src, heap.limits.maxAlloc);
      if !found {
        s := new OeString(heap);
        return NotNullTerminated, s;
      }
      r, s := FromBytes(heap, src, n);
    }

    // A range of the contents is what a pointer to it in the block points at.
    lemma OwnBytes(pos: nat, length: nat)
      requires Valid() && data != null && pos + length <= size
      ensures At(data, pos).Bytes(length) == Contents()[pos..pos + length]
    {
      var got, wanted := At(data, pos).Bytes(length), Contents()[pos..pos + length];
      assert forall i {:trigger got[i]} :: 0 <= i < length ==> got[i] == data[pos + i] == wanted[i];
    }

    method Clone() returns (r: Code, s: OeString)
      requires Valid()
      modifies heap
      ensures fresh(s) && s.heap == heap && s.Valid() && Valid()
      ensures heap.Exchanged(null, s.data) && (s.data != null ==> fresh(s.data))
      ensures r == Spec.Create(heap.limits, old(heap.grants), size)
      ensures s.State() == if r == Ok then Spec.Text(Contents(), size) else Spec.EMPTY
    {
      assert Audit();
      r, s := FromBytes(heap, if data == null then Null else At(data, 0), size);
    }

    method Substr(pos: nat, length: nat) returns (r: Code, s: OeString)
      requires Valid()
      modifies heap
      ensures fresh(s) && s.heap == heap && s.Valid() && Valid()
      ensures heap.Exchanged(null, s.data) && (s.data != null ==> fresh(s.data))
      ensures r == if pos + length > heap.limits.sizeMax then Overflow
                   else if pos + length > size then OutOfRange
                   else Spec.Create(heap.limits, old(heap.grants), length)
      ensures s.State() == if r == Ok then Spec.Text(Contents()[pos..pos + length], length) else Spec.EMPTY
    {
      assert Audit();
      if !RangeInBounds(heap.limits, pos, length, size) {
        s := new OeString(heap);
        return RangeError(heap.limits, pos, length), s;
      }
      if data != null {
        OwnBytes(pos, length);
      }
      r, s := FromBytes(heap, if data == null then Null else At(data, pos), length);
    }

    // at
    function Get(i: nat): (r: Option<byte>)
      requires Valid()
      reads this, heap, data
      ensures r == if i < |Contents()| then Some(Contents()[i]) else None
    {
      assert Audit();
      if i >= size then None else Some(heap.Load(data, i))
    }

    method ReserveExact(newCap: nat) returns (r: Code)
      requires Valid()
      modifies this, heap
      ensures Valid() && OwnsAsBefore()
      ensures data != old(data) ==> fresh(data)
      ensures r != Ok ==> Untouched()
      ensures size == old(size)
      ensures Spec.Outcome(r, State()) == Spec.Reserve(heap.limits, old(heap.grants), old(State()), newCap)
    {
      if newCap <= cap {
        return Ok;
      }
      var allocSize := CheckedAdd(heap.limits, newCap, 1);
      if allocSize.None? {
        return Overflow;
      }
      if allocSize.value > heap.limits.maxAlloc {
        return CapacityExceeded;
      }
      ghost var was := Contents();
      var p := heap.Realloc(data, allocSize.value);
      if p == null {
        return OutOfMemory;
      }
      data, cap := p, newCap;
      heap.Store(data, size, NUL);
      assert data[..size] == was;
      r := Ok;
    }

    method Reserve(newCap: nat) returns (r: Code)
      requires Valid()
      modifies this, heap
      ensures Valid() && OwnsAsBefore()
      ensures data != old(data) ==> fresh(data)
      ensures r != Ok ==> Untouched()
      ensures Spec.Outcome(r, State()) == Spec.Reserve(heap.limits, old(heap.grants), old(State()), newCap)
    {
      assert Audit();
      r := ReserveExact(newCap);
    }

    method GrowToAtLeast(needed: nat) returns (r: Code)
      requires Valid()
      modifies this, heap
      ensures Valid() && OwnsAsBefore()
      ensures data != old(data) ==> fresh(data)
      ensures r != Ok || needed <= old(cap) ==> Untouched()
      ensures r == Ok ==> needed <= cap
      ensures needed <= old(cap) ==> r == Ok
      ensures size == old(size) && Contents() == old(Contents())
      ensures Grown(r, cap) == StringGrowth(heap.limits, old(heap.grants), old(cap), needed)
    {
      if needed <= cap {
        return Ok;
      }
      var target := NextCapacity(heap.limits, cap, needed);
      if target < needed {
        target := needed;
      }
      r := ReserveExact(target);
    }

    method Clear()
      requires Valid()
      modifies this, data
      ensures Valid() && data == old(data)
      ensures State() == Spec.Clear(old(State())).after
    {
      assert Audit();
      size := 0;
      if data != null {
        heap.Store(data, 0, NUL);
      }
    }

    method SecureClear()
      requires Valid()
      modifies this, data
      ensures Valid() && data == old(data)
      ensures State() == Spec.Clear(old(State())).after
      ensures data != null ==> forall i :: 0 <= i < old(size) ==> data[i] == 0
    {
      assert Audit();
      if data != null {
        heap.SecureZero(data, size);
      }
      size := 0;
      if data != null {
        heap.Store(data, 0, NUL);
      }
    }

    // Snapshot where the source is before growth can invalidate it, then grow.
    method SnapshotAndGrow(src: Ptr, n: nat, needed: nat) returns (r: Code, srcOffset: Option<nat>)
      requires Valid() && View(src, n)
      requires n > 0 ==> 0 < needed
      modifies this, heap
      ensures Valid() && OwnsAsBefore()
      ensures data != old(data) ==> fresh(data)
      ensures r != Ok || needed <= old(cap) ==> Untouched()
      ensures r == Ok ==> needed <= cap
      ensures needed <= old(cap) ==> r == Ok
      ensures size == old(size) && Contents() == old(Contents())
      ensures Grown(r, cap) == StringGrowth(heap.limits, old(heap.grants), old(cap), needed)
      ensures r == Ok && n > 0 ==>
                data != null && Editing.Located(heap, data, src, n, srcOffset, old(ViewSource(src, n)))
    {
      srcOffset := heap.AliasOffset(src, data, cap);
      r := GrowToAtLeast(needed);
    }

    method CopyInPossiblyAliased(dst: nat, src: Ptr, len: nat, targetSize: nat) returns (r: Code)
      requires Valid() && src.At? && len > 0 && Source(src, len)
      requires dst <= size && targetSize == dst + len
      modifies this, heap, data
      ensures heap.Valid() && OwnsAsBefore() && size == old(size)
      ensures data != old(data) ==> fresh(data)
      ensures r != Ok ==> Untouched()
      ensures Grown(r, cap) == StringGrowth(heap.limits, old(heap.grants), old(cap), targetSize)
      ensures r == Ok ==>
        && data != null && data in heap.owned && targetSize <= cap && data.Length == cap + 1 <= heap.limits.maxAlloc
        && forall i {:trigger data[i]} :: 0 <= i < targetSize ==>
             data[i] == if i < dst then old(Contents()[i]) else old(src.block[src.off + i - dst])
    {
      hide StringGrowth, Editing.Located, Spec.Source.In;
      ghost var source := ViewSource(src, len);
      ViewSourceMeans(src, len);
      var srcOffset;
      r, srcOffset := SnapshotAndGrow(src, len, targetSize);
      if r != Ok {
        return;
      }
      CopyGrown(dst, src, len, srcOffset, source);
    }

    // The rest of it, once there is room.
    method CopyGrown(dst: nat, src: Ptr, len: nat, srcOffset: Option<nat>, ghost source: Spec.Source)
      requires Valid() && data != null && dst <= size && dst + len <= cap
      requires source.FitsIn(Contents()) && source.Len() == len
      requires Editing.Located(heap, data, src, len, srcOffset, source)
      modifies data
      ensures forall i {:trigger data[i]} :: 0 <= i < dst + len ==>
                data[i] == if i < dst then old(Contents())[i] else source.In(old(Contents()))[i - dst]
    {
      var effective := if srcOffset.Some? then At(data, srcOffset.value) else src;
      if len > 0 {
        heap.Memmove(data, dst, effective, len);
      }
    }

    // The end of every edit: the new size, and the terminator behind it.
    method Terminate(newSize: nat)
      requires heap.Valid() && newSize <= cap && cap > 0
      requires data != null && data in heap.owned && data.Length == cap + 1 <= heap.limits.maxAlloc
      modifies this`size, data
      ensures Valid() && size == newSize && Contents() == old(data[..newSize])
    {
      size := newSize;
      heap.Store(data, size, NUL);
    }

    method AppendChar(c: byte) returns (r: Code)
      requires Valid()
      modifies this, heap, data
      ensures Valid() && OwnsAsBefore()
      ensures data != old(data) ==> fresh(data)
      ensures r != Ok ==> Untouched()
      ensures Spec.Outcome(r, State()) == Spec.Append(heap.limits, old(heap.grants), old(State()), Some([c]))
    {
      assert Audit();
      var newSize := CheckedAdd(heap.limits, size, 1);
      if newSize.None? {
        return Overflow;
      }
      r := GrowToAtLeast(newSize.value);
      if r != Ok {
        return;
      }
      Push(c);
    }

    // The rest of append(char), once there is room.
    method Push(c: byte)
      requires Valid() && size < cap
      modifies this`size, data
      ensures Valid() && Contents() == old(Contents()) + [c]
    {
      heap.Store(data, size, c);
      assert data[..size + 1] == data[..size] + [c];
      Terminate(size + 1);
    }

    method Append(src: Ptr, len: nat) returns (r: Code)
      requires Valid() && Source(src, len)
      modifies this, heap, data
      ensures Valid() && OwnsAsBefore()
      ensures data != old(data) ==> fresh(data)
      ensures r != Ok ==> Untouched()
      ensures Spec.Outcome(r, State()) ==
              Spec.Append(heap.limits, old(heap.grants), old(State()), old(Arg(src, len)))
    {
      assert Audit();
      if len == 0 {
        return Ok;
      }
      if src.Null? {
        return NullPointer;
      }
      var newSize := CheckedAdd(heap.limits, size, len);
      if newSize.None? {
        return Overflow;
      }
      r := AppendChecked(src, len, newSize.value);
    }

    // The rest of append, after the argument checks.
    method AppendChecked(src: Ptr, len: nat, newSize: nat) returns (r: Code)
      requires Valid() && Source(src, len) && src.At? && len > 0 && newSize == size + len
      modifies this, heap, data
      ensures Valid() && OwnsAsBefore()
      ensures data != old(data) ==> fresh(data)
      ensures r != Ok ==> Untouched()
      ensures Spec.Outcome(r, State()) ==
              Spec.Become(heap.limits, old(heap.grants), old(State()), old(Contents() + src.Bytes(len)))
    {
      hide StringGrowth;
      ghost var was, bytes := Contents(), src.Bytes(len);
      r := CopyInPossiblyAliased(size, src, len, newSize);
      if r != Ok {
        return;
      }
      JoinedByIndex(data[..newSize], was, bytes);
      Terminate(newSize);
    }

    method Assign(src: Ptr, len: nat) returns (r: Code)
      requires Valid() && Source(src, len)
      modifies this, heap, data
      ensures Valid() && OwnsAsBefore()
      ensures data != old(data) ==> fresh(data)
      ensures r != Ok ==> Untouched()
      ensures Spec.Outcome(r, State()) ==
              Spec.Assign(heap.limits, old(heap.grants), old(State()), old(Arg(src, len)))
    {
      assert Audit();
      if len == 0 {
        Clear();
        return Ok;
      }
      if src.Null? {
        return NullPointer;
      }
      r := AssignChecked(src, len);
    }

    // The rest of assign, after the argument checks.
    method AssignChecked(src: Ptr, len: nat) returns (r: Code)
      requires Valid() && Source(src, len) && src.At? && len > 0
      modifies this, heap, data
      ensures Valid() && OwnsAsBefore()
      ensures data != old(data) ==> fresh(data)
      ensures r != Ok ==> Untouched()
      ensures Spec.Outcome(r, State()) ==
              Spec.Become(heap.limits, old(heap.grants), old(State()), old(src.Bytes(len)))
    {
      hide StringGrowth;
      ghost var bytes := src.Bytes(len);
      r := CopyInPossiblyAliased(0, src, len, len);
      if r != Ok {
        return;
      }
      ghost var got := data[..len];
      assert forall i {:trigger got[i]} :: 0 <= i < len ==> got[i] == data[i] == bytes[i];
      Terminate(len);
    }

    method Insert(pos: nat, src: Ptr, n: nat) returns (r: Code)
      requires Valid() && View(src, n)
      modifies this, heap, data
      ensures Valid() && OwnsAsBefore()
      ensures data != old(data) ==> fresh(data)
      ensures r != Ok ==> Untouched()
      ensures Spec.Outcome(r, State()) ==
              Spec.Insert(heap.limits, old(heap.grants), old(State()), pos, old(ViewSource(src, n)))
    {
      hide Splice;
      assert Audit();
      if pos > size {
        return OutOfRange;
      }
      if n == 0 {
        return Ok;
      }
      var newSize := CheckedAdd(heap.limits, size, n);
      if newSize.None? {
        return Overflow;
      }
      r := InsertChecked(pos, src, n, newSize.value);
    }

    // The rest of insert, after the argument checks.
    method InsertChecked(pos: nat, src: Ptr, n: nat, newSize: nat) returns (r: Code)
      requires Valid() && View(src, n)
      requires pos <= size && 0 < n && newSize == size + n
      modifies this, heap, data
      ensures Valid() && OwnsAsBefore()
      ensures data != old(data) ==> fresh(data)
      ensures r != Ok ==> Untouched()
      ensures Spec.Outcome(r, State()) ==
              Spec.Become(heap.limits, old(heap.grants), old(State()),
                          Splice(old(Contents()), pos, 0, old(ViewSource(src, n).In(Contents()))))
    {
      hide Splice, Spec.Source.In, Editing.Located, StringGrowth;
      ghost var source := ViewSource(src, n);
      var srcOffset;
      r, srcOffset := SnapshotAndGrow(src, n, newSize);
      if r != Ok {
        return;
      }
      InsertGrown(pos, src, n, newSize, srcOffset, source);
    }

    // The rest of insert, once there is room.
    method InsertGrown(pos: nat, src: Ptr, n: nat, newSize: nat, srcOffset: Option<nat>, ghost source: Spec.Source)
      requires Valid() && data != null && pos <= size && newSize == size + n <= cap
      requires source.FitsIn(Contents()) && source.Len() == n
      requires Editing.Located(heap, data, src, n, srcOffset, source)
      modifies this`size, data
      ensures Valid()
      ensures Contents() == Splice(old(Contents()), pos, 0, source.In(old(Contents())))
    {
      hide Splice, Spec.Source.In;
      Editing.InsertBlock(heap, data, size, pos, src, n, srcOffset, source);
      Terminate(newSize);
    }

    // An empty replacement of nothing needs storage to put the terminator in:
    // without any, the last statement stores it through the null pointer.
    method Replace(pos: nat, length: nat, src: Ptr, n: nat) returns (r: Code)
      requires Valid() && View(src, n)
      modifies this, heap, data
      ensures Valid() && OwnsAsBefore()
      ensures data != old(data) ==> fresh(data)
      ensures r != Ok ==> Untouched()
      ensures r == NullStore <==> old(data) == null && n == 0 && pos + length == 0
      ensures Spec.Outcome(r, State()) ==
              Spec.Replace(heap.limits, old(heap.grants), old(State()), pos, length, old(ViewSource(src, n)))
    {
      hide Spec.Replaced;
      assert Audit();
      if !RangeInBounds(heap.limits, pos, length, size) {
        return RangeError(heap.limits, pos, length);
      }
      var remaining := CheckedSub(size, length);
      if remaining.None? {
        return Overflow;
      }
      var newSize := CheckedAdd(heap.limits, remaining.value, n);
      if newSize.None? {
        return Overflow;
      }
      r := ReplaceChecked(pos, length, src, n, newSize.value);
    }

    // The rest of replace, after the argument checks.
    method ReplaceChecked(pos: nat, length: nat, src: Ptr, n: nat, newSize: nat) returns (r: Code)
      requires Valid() && View(src, n)
      requires pos + length <= size && newSize == size - length + n
      modifies this, heap, data
      ensures Valid() && OwnsAsBefore()
      ensures data != old(data) ==> fresh(data)
      ensures r != Ok ==> Untouched()
      ensures Spec.Outcome(r, State()) ==
              if old(data) == null && n == 0 then Spec.Outcome(NullStore, old(State()))
              else Spec.Become(heap.limits, old(heap.grants), old(State()),
                          Spec.Replaced(old(Contents()), pos, length, old(ViewSource(src, n))))
    {
      hide Spec.Replaced, Editing.Located, StringGrowth;
      ghost var source := ViewSource(src, n);
      var srcOffset;
      r, srcOffset := SnapshotAndGrow(src, n, newSize);
      if r != Ok {
        return;
      }
      if data == null {
        // Neither memmove is reached, and size 0 is the size there was.
        return NullStore;
      }
      ReplaceGrown(pos, length, src, n, newSize, srcOffset, source);
    }

    // The rest of replace, once there is room.
    method ReplaceGrown(pos: nat, length: nat, src: Ptr, n: nat, newSize: nat, srcOffset: Option<nat>,
                        ghost source: Spec.Source)
      requires Valid() && data != null && pos + length <= size && newSize == size - length + n <= cap
      requires source.FitsIn(Contents()) && source.Len() == n
      requires n > 0 ==> Editing.Located(heap, data, src, n, srcOffset, source)
      modifies this`size, data
      ensures Valid()
      ensures Contents() == Spec.Replaced(old(Contents()), pos, length, source)
    {
      hide Spec.Replaced;
      Editing.ReplaceBlock(heap, data, size, pos, length, src, n, srcOffset, source);
      Terminate(newSize);
    }

    // At most outLen - 1 bytes and a NUL; truncation is reported. Only an out
    // inside the string's own block can damage the string.
    method CopyToCstr(out: Ptr, outLen: nat) returns (r: Code, copied: nat)
      requires Valid()
      requires out.At? && outLen > 0 ==> heap.Readable(out, Min(size, outLen - 1) + 1)
      modifies if out.At? then {out.block} else {}
      ensures (out.At? && out.block == data) || (Valid() && State() == old(State()))
      ensures r == if outLen == 0 then InvalidArgument
                   else if out.Null? then NullPointer
                   else if outLen <= size then Truncated
                   else Ok
      ensures r == Ok ==> copied == size
      ensures r in {Ok, Truncated} ==>
        && (forall i :: 0 <= i < size && i < outLen - 1 ==> out.block[out.off + i] == old(Contents())[i])
        && out.block[out.off + Min(size, outLen - 1)] == NUL
      ensures out.At? ==>
        forall i | 0 <= i < out.block.Length :: out.block[i] == old(out.block[i])
          || (r in {Ok, Truncated} && out.off <= i <= out.off + Min(size, outLen - 1))
    {
      assert Audit();
      copied := 0;
      if outLen == 0 {
        return InvalidArgument, 0;
      }
      if out.Null? {
        return NullPointer, 0;
      }
      var toCopy := if size < outLen - 1 then size else outLen - 1;
      PutCstr(out, toCopy);
      if toCopy < size {
        return Truncated, 0;
      }
      return Ok, toCopy;
    }

    // The two stores of copy_to_cstr.
    method PutCstr(out: Ptr, toCopy: nat)
      requires Valid() && toCopy <= size && heap.Readable(out, toCopy + 1)
      modifies out.block
      ensures out.block == data || (Valid() && State() == old(State()))
      ensures forall i :: 0 <= i < toCopy ==> out.block[out.off + i] == old(Contents())[i]
      ensures out.block[out.off + toCopy] == NUL
      ensures forall i :: 0 <= i < out.block.Length && !(out.off <= i <= out.off + toCopy) ==>
                out.block[i] == old(out.block[i])
    {
      ghost var was := Contents();
      if toCopy > 0 && data != null {
        heap.Memmove(out.block, out.off, At(data, 0), toCopy);
      }
      assert forall i {:trigger out.block[i]} :: out.off <= i < out.off + toCopy ==> out.block[i] == was[i - out.off];
      heap.Store(out.block, out.off + toCopy, NUL);
    }

    static method MoveFrom(other: OeString) returns (s: OeString)
      requires other.Valid()
      modifies other
      ensures fresh(s) && s.heap == other.heap
      ensures s.Valid() && other.Valid()
      ensures s.data == old(other.data) && other.data == null
      ensures s.State() == old(other.State()) && other.State() == Spec.EMPTY
    {
      s := new OeString(other.heap);
      s.data, s.size, s.cap := other.data, other.size, other.cap;
      other.data, other.size, other.cap := null, 0, 0;
    }

    method MoveAssign(other: OeString)
      requires Valid() && other.Valid() && other.heap == heap
      requires other != this && data != null ==> data != other.data
      modifies this, other, heap
      ensures Valid() && other.Valid()
      ensures other == this ==> Untouched()
      ensures other != this ==>
        && data == old(other.data) && other.data == null
        && State() == old(other.State()) && other.State() == Spec.EMPTY
        && heap.Exchanged(old(data), null)
    {
      if this != other {
        heap.Free(data);
        data, size, cap := other.data, other.size, other.cap;
        other.data, other.size, other.cap := null, 0, 0;
      }
    }

    method Destroy()
      requires Valid()
      modifies heap
      ensures heap.Valid() && heap.Exchanged(data, null)
    {
      heap.Free(data);
    }
  }
}
