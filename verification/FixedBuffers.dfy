// fixed_buffer.h: the same buffer over an array of N bytes, and why nobody can
// tell it from a heap buffer whose allocation cap is N.
module FixedBuffers {
  import opened Base
  import opened Memory
  import opened CheckedMath
  import opened Buffers
  import opened BufferSpec
  import Runs = BufferRuns

  // ---------- what fixed_buffer does to a byte sequence ----------

  datatype Reply = Reply(code: Code, after: seq<byte>)

  function FixedAppendByte(n: nat, s: seq<byte>, b: byte): Reply {
    if |s| >= n then Reply(CapacityExceeded, s) else Reply(Ok, s + [b])
  }

  function FixedAppend(sizeMax: nat, n: nat, s: seq<byte>, arg: Option<seq<byte>>): Reply {
    match arg
    case None => Reply(NullPointer, s)
    case Some(bytes) =>
      if bytes == [] then Reply(Ok, s)
      else if |s| + |bytes| > sizeMax then Reply(Overflow, s)
      else if |s| + |bytes| > n then Reply(CapacityExceeded, s)
      else Reply(Ok, s + bytes)
  }

  function FixedResize(n: nat, s: seq<byte>, newSize: nat, fill: byte): Reply {
    if newSize > n then Reply(CapacityExceeded, s)
    else if newSize > |s| then Reply(Ok, s + Fill(newSize - |s|, fill))
    else Reply(Ok, s[..newSize])
  }

  function FixedSet(s: seq<byte>, i: nat, b: byte): Reply {
    if i >= |s| then Reply(OutOfRange, s) else Reply(Ok, s[i := b])
  }

  class FixedBuffer {
    const heap: Heap
    const storage: array<byte>
    var size: nat

    ghost predicate Valid()
      reads this, heap
    {
      heap.Valid() && storage in heap.borrowed && 0 < storage.Length && size <= storage.Length
    }

    ghost function Contents(): (s: seq<byte>)
      requires Valid()
      reads this, heap, storage
      ensures |s| == size
    {
      storage[..size]
    }

    predicate Verify()
      reads this
    {
      size <= storage.Length
    }

    ghost predicate Source(src: Ptr, len: nat)
      reads this, heap
    {
      len > 0 && src.At? ==> heap.Readable(src, len) && (src.block == storage ==> src.off + len <= size)
    }

    ghost function Arg(src: Ptr, len: nat): Option<seq<byte>>
      requires Source(src, len)
      reads this, heap, if src.At? then {src.block} else {}
    {
      if len == 0 then Some([]) else if src.Null? then None else Some(src.Bytes(len))
    }

    // The bytes the caller passed: refused are null and a length, nothing else.
    lemma ArgMeans(src: Ptr, len: nat)
      requires Source(src, len)
      ensures Arg(src, len).None? <==> src.Null? && len > 0
      ensures Arg(src, len).Some? ==>
        && |Arg(src, len).value| == len
        && forall i :: 0 <= i < len ==> Arg(src, len).value[i] == src.block[src.off + i]
    {}

    constructor (heap: Heap, storage: array<byte>)
      requires heap.Valid() && storage in heap.borrowed && 0 < storage.Length
      ensures Valid() && this.heap == heap && this.storage == storage && Contents() == []
    {
      this.heap, this.storage, size := heap, storage, 0;
    }

    // at
    function Get(i: nat): (r: Option<byte>)
      requires Valid()
      reads this, heap, storage
      ensures r == if i < |Contents()| then Some(Contents()[i]) else None
    {
      if i >= size then None else Some(heap.Load(storage, i))
    }

    method Set(i: nat, v: byte) returns (r: Code)
      requires Valid()
      modifies storage
      ensures Valid() && Reply(r, Contents()) == FixedSet(old(Contents()), i, v)
    {
      if i >= size {
        return OutOfRange;
      }
      heap.Store(storage, i, v);
      r := Ok;
    }

    method AppendByte(b: byte) returns (r: Code)
      requires Valid()
      modifies this, storage
      ensures Valid() && Reply(r, Contents()) == FixedAppendByte(storage.Length, old(Contents()), b)
    {
      if size >= storage.Length {
        return CapacityExceeded;
      }
      heap.Store(storage, size, b);
      size := size + 1;
      r := Ok;
    }

    method Append(src: Ptr, len: nat) returns (r: Code)
      requires Valid() && Source(src, len)
      modifies this, storage
      ensures Valid()
      ensures Reply(r, Contents()) ==
              FixedAppend(heap.limits.sizeMax, storage.Length, old(Contents()), old(Arg(src, len)))
    {
      if len == 0 {
        return Ok;
      }
      if src.Null? {
        return NullPointer;
      }
      var newSize := CheckedAdd(heap.limits, size, len);
      if newSize.None? {
        return Overflow;
      }
      if newSize.value > storage.Length {
        return CapacityExceeded;
      }
      ghost var was, bytes := Contents(), src.Bytes(len);
      heap.Memmove(storage, size, src, len);
      size := newSize.value;
      JoinedByIndex(Contents(), was, bytes);
      r := Ok;
    }

    method Resize(newSize: nat, fill: byte) returns (r: Code)
      requires Valid()
      modifies this, storage
      ensures Valid()
      ensures Reply(r, Contents()) == FixedResize(storage.Length, old(Contents()), newSize, fill)
      ensures r == Ok ==> size == newSize
      ensures r == Ok ==> forall i :: 0 <= i < newSize ==>
                Contents()[i] == if i < old(size) then old(Contents())[i] else fill
    {
      if newSize > storage.Length {
        return CapacityExceeded;
      }
      if newSize > size {
        heap.Memset(storage, size, fill, newSize - size);
      }
      size := newSize;
      r := Ok;
    }

    method Clear()
      requires Valid()
      modifies this
      ensures Valid() && Contents() == []
    {
      size := 0;
    }

    // All N bytes are zeroed, not just the used ones.
    method SecureClear()
      requires Valid()
      modifies this, storage
      ensures Valid() && Contents() == []
      ensures forall i :: 0 <= i < storage.Length ==> storage[i] == 0
    {
      heap.SecureZero(storage, storage.Length);
      size := 0;
    }

    // fill
    method FillAll(b: byte)
      requires Valid()
      modifies storage
      ensures Valid() && Contents() == Fill(old(size), b)
      ensures forall i :: 0 <= i < old(size) ==> Contents()[i] == b
    {
      if size > 0 {
        heap.Memset(storage, 0, b, size);
      }
    }
  }

  // ---------- against the heap buffer ----------

  // The operations both kinds of buffer have.
  predicate Shared(op: Runs.Op) {
    !op.OpWrite? && !op.OpWriteSelf? && !op.OpReserve?
  }

  function FixedStep(sizeMax: nat, n: nat, s: seq<byte>, op: Runs.Op): Reply
    requires Shared(op)
  {
    match op
    case OpAppendByte(b) => FixedAppendByte(n, s, b)
    case OpAppend(arg) => FixedAppend(sizeMax, n, s, arg)
    case OpAppendSelf(off, k) => FixedAppend(sizeMax, n, s, Some(Runs.View(s, off, k)))
    case OpResize(newSize, fill) => FixedResize(n, s, newSize, fill)
    case OpSet(i, b) => FixedSet(s, i, b)
    case OpFill(b) => Reply(Ok, Fill(|s|, b))
    case OpClear => Reply(Ok, [])
    case OpSecureClear => Reply(Ok, [])
  }

  // The contents after a run that started from s.
  function FixedAfter(sizeMax: nat, n: nat, s: seq<byte>, ops: seq<Runs.Op>): seq<byte>
    requires forall op :: op in ops ==> Shared(op)
  {
    if ops == [] then s
    else FixedStep(sizeMax, n, FixedAfter(sizeMax, n, s, ops[..|ops| - 1]), ops[|ops| - 1]).after
  }

  function FixedCodes(sizeMax: nat, n: nat, s: seq<byte>, ops: seq<Runs.Op>): (cs: seq<Code>)
    requires forall op :: op in ops ==> Shared(op)
    ensures |cs| == |ops|
  {
    if ops == [] then []
    else
      FixedCodes(sizeMax, n, s, ops[..|ops| - 1]) +
      [FixedStep(sizeMax, n, FixedAfter(sizeMax, n, s, ops[..|ops| - 1]), ops[|ops| - 1]).code]
  }

  // The same operations on a heap buffer that is never short of memory.
  function Granted(ops: seq<Runs.Op>): (run: seq<Runs.Event>)
    ensures |run| == |ops|
  {
    if ops == [] then []
    else Granted(ops[..|ops| - 1]) + [Runs.Event(true, ops[|ops| - 1])]
  }

  // The same codes and contents, from the same contents.
  ghost predicate SameRun(lim: Limits, st: Store, ops: seq<Runs.Op>)
    requires forall op :: op in ops ==> Shared(op)
  {
    && FixedAfter(lim.sizeMax, lim.maxAlloc, st.contents, ops) == Runs.After(lim, st, Granted(ops)).contents
    && FixedCodes(lim.sizeMax, lim.maxAlloc, st.contents, ops) == Runs.Codes(lim, st, Granted(ops))
  }

  // fixed_buffer<N> and a buffer capped at N give the same codes and the same
  // contents over every run, for every N that is not the whole address space.
  // (At that one N, appending a byte to a full buffer overflows on the heap.)
  lemma SameRunsIff(lim: Limits)
    ensures (forall st: Store, ops: seq<Runs.Op> ::
               st.WellFormed(lim) && (forall op :: op in ops ==> Shared(op)) ==> SameRun(lim, st, ops))
            <==> lim.maxAlloc < lim.sizeMax
  {
    if lim.maxAlloc < lim.sizeMax {
      forall st: Store, ops: seq<Runs.Op> | st.WellFormed(lim) && (forall op :: op in ops ==> Shared(op))
        ensures SameRun(lim, st, ops)
      {
        RunsAgree(lim, st, ops);
      }
    } else {
      FullAddressSpaceDiffers(lim);
    }
  }

  lemma {:induction false} RunsAgree(lim: Limits, st: Store, ops: seq<Runs.Op>)
    requires lim.maxAlloc < lim.sizeMax && st.WellFormed(lim)
    requires forall op :: op in ops ==> Shared(op)
    ensures SameRun(lim, st, ops)
  {
    hide FixedStep, Runs.Step;
    if ops != [] {
      var k := |ops| - 1;
      RunsAgree(lim, st, ops[..k]);
      var run := Granted(ops);
      assert run[..k] == Granted(ops[..k]);
      assert run[k] == Runs.Event(true, ops[k]);
      Runs.EveryRunIsSafe(lim, st, run[..k]);
      StepsAgree(lim, Runs.After(lim, st, run[..k]), ops[k]);
    }
  }

  lemma StepsAgree(lim: Limits, st: Store, op: Runs.Op)
    requires lim.maxAlloc < lim.sizeMax && st.WellFormed(lim) && Shared(op)
    ensures var fixed := FixedStep(lim.sizeMax, lim.maxAlloc, st.contents, op);
            var heaped := Runs.Step(lim, true, st, op);
            fixed.code == heaped.code && fixed.after == heaped.after.contents
  {
    match op
    case OpAppendByte(_) =>
    case OpAppend(_) =>
    case OpAppendSelf(_, _) =>
    case OpResize(newSize, fill) =>
    case OpSet(_, _) =>
    case OpFill(_) =>
    case OpClear =>
    case OpSecureClear =>
  }

  lemma ResizedFull(lim: Limits, ops: seq<Runs.Op>)
    requires lim.maxAlloc == lim.sizeMax && ops == [Runs.OpResize(lim.maxAlloc, 0)]
    ensures |FixedAfter(lim.sizeMax, lim.maxAlloc, [], ops)| == lim.maxAlloc
    ensures |Runs.After(lim, EMPTY, Granted(ops)).contents| == lim.maxAlloc
  {
    assert ops[..0] == [];
    assert FixedAfter(lim.sizeMax, lim.maxAlloc, [], ops) == FixedResize(lim.maxAlloc, [], lim.maxAlloc, 0).after;
    var run := Granted(ops);
    assert run[..0] == [] && run[0] == Runs.Event(true, ops[0]);
    assert Runs.After(lim, EMPTY, run) == Resize(lim, true, EMPTY, lim.maxAlloc, 0).after;
  }

  lemma FullAddressSpaceDiffers(lim: Limits)
    requires lim.maxAlloc == lim.sizeMax
    ensures var ops := [Runs.OpResize(lim.maxAlloc, 0), Runs.OpAppendByte(0)];
            && (forall op :: op in ops ==> Shared(op))
            && EMPTY.WellFormed(lim) && !SameRun(lim, EMPTY, ops)
  {
    var ops := [Runs.OpResize(lim.maxAlloc, 0), Runs.OpAppendByte(0)];
    ResizedFull(lim, ops[..1]);
    var run := Granted(ops);
    assert run[..1] == Granted(ops[..1]);
    assert FixedCodes(lim.sizeMax, lim.maxAlloc, [], ops)[1] == CapacityExceeded;
    assert Runs.Codes(lim, EMPTY, run)[1] == Overflow;
  }

  // ---------- the objects themselves ----------

  method PerformAppend(f: FixedBuffer, arg: Option<seq<byte>>) returns (code: Code)
    requires f.Valid()
    modifies f, f.heap, f.storage
    ensures f.Valid() && f.heap.owned == old(f.heap.owned)
    ensures Reply(code, f.Contents()) ==
            FixedAppend(f.heap.limits.sizeMax, f.storage.Length, old(f.Contents()), arg)
  {
    hide FixedAppend;
    if arg.None? {
      code := f.Append(Null, 1);
    } else {
      var block := f.heap.BorrowBytes(arg.value);
      code := f.Append(At(block, 0), |arg.value|);
      f.heap.Return(block);
    }
  }

  method PerformAppendSelf(f: FixedBuffer, off: nat, n: nat) returns (code: Code)
    requires f.Valid()
    modifies f, f.storage
    ensures f.Valid()
    ensures Reply(code, f.Contents()) ==
            FixedAppend(f.heap.limits.sizeMax, f.storage.Length, old(f.Contents()),
                        Some(Runs.View(old(f.Contents()), off, n)))
  {
    hide FixedAppend;
    var start := Min(off, f.size);
    var len := Min(n, f.size - start);
    assert f.storage[start..start + len] == f.storage[..f.size][start..start + len];
    code := f.Append(At(f.storage, start), len);
  }

  method Perform(f: FixedBuffer, op: Runs.Op) returns (code: Code)
    requires f.Valid() && Shared(op)
    modifies f, f.heap, f.storage
    ensures f.Valid() && f.heap.owned == old(f.heap.owned)
    ensures Reply(code, f.Contents()) ==
            FixedStep(f.heap.limits.sizeMax, f.storage.Length, old(f.Contents()), op)
  {
    hide FixedAppend, FixedAppendByte, FixedResize, FixedSet;
    match op
    case OpAppendByte(v) => code := f.AppendByte(v);
    case OpAppend(arg) => code := PerformAppend(f, arg);
    case OpAppendSelf(off, n) => code := PerformAppendSelf(f, off, n);
    case OpResize(newSize, fill) => code := f.Resize(newSize, fill);
    case OpSet(i, v) => code := f.Set(i, v);
    case OpFill(v) =>
      f.FillAll(v);
      code := Ok;
    case OpClear =>
      f.Clear();
      code := Ok;
    case OpSecureClear =>
      f.SecureClear();
      code := Ok;
  }

  // Any run on a fixed_buffer object.
  method PerformAll(f: FixedBuffer, ops: seq<Runs.Op>) returns (codes: seq<Code>)
    requires f.Valid() && forall op :: op in ops ==> Shared(op)
    modifies f, f.heap, f.storage
    ensures f.Valid() && f.Verify() && f.heap.owned == old(f.heap.owned)
    ensures f.Contents() == FixedAfter(f.heap.limits.sizeMax, f.storage.Length, old(f.Contents()), ops)
    ensures codes == FixedCodes(f.heap.limits.sizeMax, f.storage.Length, old(f.Contents()), ops)
  {
    hide FixedStep;
    codes := [];
    ghost var start, sizeMax := f.Contents(), f.heap.limits.sizeMax;
    for i := 0 to |ops|
      invariant f.Valid() && f.heap.owned == old(f.heap.owned)
      invariant f.Contents() == FixedAfter(sizeMax, f.storage.Length, start, ops[..i])
      invariant codes == FixedCodes(sizeMax, f.storage.Length, start, ops[..i])
    {
      assert ops[..i + 1][..i] == ops[..i];
      var code := Perform(f, ops[i]);
      codes := codes + [code];
    }
    assert ops[..|ops|] == ops;
  }

  // The two objects side by side: a caller who does the same to both, with the
  // allocator granting what the heap buffer asks for, sees the same.
  method RunBoth(f: FixedBuffer, b: Buffer, ops: seq<Runs.Op>) returns (fixedCodes: seq<Code>, heapCodes: seq<Code>)
    requires f.Valid() && b.Valid() && b.heap == f.heap && f.Contents() == b.Contents()
    requires f.storage.Length == f.heap.limits.maxAlloc < f.heap.limits.sizeMax
    requires forall op :: op in ops ==> Shared(op)
    modifies f, f.storage, b, b.heap, b.data
    ensures f.Valid() && b.Valid()
    ensures fixedCodes == heapCodes && f.Contents() == b.Contents()
  {
    ghost var st := b.State();
    RunsAgree(f.heap.limits, st, ops);
    fixedCodes := PerformAll(f, ops);
    heapCodes := Runs.PerformAll(b, Granted(ops));
  }
}
