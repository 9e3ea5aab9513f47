// Whole runs of buffer operations: the pure step function, what every run
// keeps, and the driver showing that the pointer-level buffer follows it.
module BufferRuns {
  import opened Base
  import opened Memory
  import opened Growth
  import opened Buffers
  import opened Spec = BufferSpec

  // The mutating public operations. None is a null pointer with a length > 0;
  // a self-view is cut down to the contents it finds.
  datatype Op =
    | OpAppendByte(b: byte)
    | OpAppend(arg: Option<seq<byte>>)
    | OpAppendSelf(off: nat, n: nat)
    | OpWrite(offset: nat, arg: Option<seq<byte>>)
    | OpWriteSelf(offset: nat, off: nat, n: nat)
    | OpResize(newSize: nat, fill: byte)
    | OpSet(i: nat, b: byte)
    | OpFill(b: byte)
    | OpClear
    | OpSecureClear
    | OpReserve(newCap: nat)

  function ViewStart(s: seq<byte>, off: nat): nat {
    Min(off, |s|)
  }

  function ViewLen(s: seq<byte>, off: nat, n: nat): nat {
    Min(n, |s| - ViewStart(s, off))
  }

  function View(s: seq<byte>, off: nat, n: nat): seq<byte> {
    s[ViewStart(s, off)..ViewStart(s, off) + ViewLen(s, off, n)]
  }

  function Step(lim: Limits, grants: bool, st: Store, op: Op): Outcome {
    match op
    case OpAppendByte(b) => Append(lim, grants, st, Some([b]))
    case OpAppend(arg) => Append(lim, grants, st, arg)
    case OpAppendSelf(off, n) => Append(lim, grants, st, Some(View(st.contents, off, n)))
    case OpWrite(offset, arg) => Write(lim, st, offset, arg)
    case OpWriteSelf(offset, off, n) => Write(lim, st, offset, Some(View(st.contents, off, n)))
    case OpResize(newSize, fill) => Resize(lim, grants, st, newSize, fill)
    case OpSet(i, b) => Set(st, i, b)
    case OpFill(b) => FillAll(st, b)
    case OpClear => Clear(st)
    case OpSecureClear => Clear(st)
    case OpReserve(newCap) => Reserve(lim, grants, st, newCap)
  }

  datatype Event = Event(grants: bool, op: Op)

  // The buffer after a run that started from st.
  function After(lim: Limits, st: Store, run: seq<Event>): Store {
    if run == [] then st
    else
      var e := run[|run| - 1];
      Step(lim, e.grants, After(lim, st, run[..|run| - 1]), e.op).after
  }

  // The codes the run's operations returned.
  function Codes(lim: Limits, st: Store, run: seq<Event>): (cs: seq<Code>)
    ensures |cs| == |run|
  {
    if run == [] then []
    else
      var e := run[|run| - 1];
      Codes(lim, st, run[..|run| - 1]) + [Step(lim, e.grants, After(lim, st, run[..|run| - 1]), e.op).code]
  }

  lemma StepIsSafe(lim: Limits, grants: bool, st: Store, op: Op)
    requires st.WellFormed(lim)
    ensures Step(lim, grants, st, op).after.WellFormed(lim)
    ensures Step(lim, grants, st, op).code != Ok ==> Step(lim, grants, st, op).after == st
    ensures !op.OpReserve? ==>
              var after := Step(lim, grants, st, op).after;
              after.cap == if |after.contents| <= st.cap then st.cap
                           else GrownCap(lim.maxAlloc, st.cap, |after.contents|)
  {
    match op
    case OpAppendByte(_) =>
    case OpAppend(_) =>
    case OpAppendSelf(_, _) =>
    case OpWrite(_, _) =>
    case OpWriteSelf(_, _, _) =>
    case OpResize(_, _) =>
    case OpSet(_, _) =>
    case OpFill(_) =>
    case OpClear =>
    case OpSecureClear =>
    case OpReserve(_) =>
  }

  // Every reachable buffer is well formed, and a refused operation has changed nothing.
  lemma {:induction false} EveryRunIsSafe(lim: Limits, st: Store, run: seq<Event>)
    requires st.WellFormed(lim)
    ensures After(lim, st, run).WellFormed(lim)
    ensures forall i | 0 <= i < |run| && Codes(lim, st, run)[i] != Ok ::
              After(lim, st, run[..i + 1]) == After(lim, st, run[..i])
  {
    hide Step;
    if run != [] {
      var n := |run| - 1;
      EveryRunIsSafe(lim, st, run[..n]);
      StepIsSafe(lim, run[n].grants, After(lim, st, run[..n]), run[n].op);
      forall i | 0 <= i <= n
        ensures run[..n][..i] == run[..i]
      {}
      assert run[..n + 1] == run;
    }
  }

  // Exactly when appending bytes succeeds: there is room, or the new size fits
  // the cap and memory is granted. In particular no size is too large to ask for.
  lemma AppendSucceedsIff(lim: Limits, grants: bool, st: Store, bytes: seq<byte>)
    requires st.WellFormed(lim)
    ensures Append(lim, grants, st, Some(bytes)).code == Ok <==>
            var needed := |st.contents| + |bytes|;
            needed <= st.cap || (needed <= lim.maxAlloc && grants)
  {}

  // Bytes cut off by shrinking do not come back, whatever is asked for later.
  lemma ShrinkThenGrow(lim: Limits, st: Store, small: nat, large: nat, fill: byte)
    requires st.WellFormed(lim) && small <= |st.contents| && small <= large <= lim.maxAlloc
    ensures var shrunk := Resize(lim, true, st, small, 0).after;
            Resize(lim, true, shrunk, large, fill).after.contents
            == st.contents[..small] + Fill(large - small, fill)
  {
    var shrunk := Resize(lim, true, st, small, 0).after;
    if large == small {
      assert st.contents[..small] + Fill(0, fill) == shrunk.contents[..large];
    }
  }

  // ---------- amortised growth ----------

  // The sizes a run goes through: what its operations asked the allocator for.
  function Sizes(lim: Limits, run: seq<Event>): (s: seq<nat>)
    ensures |s| == |run|
  {
    if run == [] then []
    else Sizes(lim, run[..|run| - 1]) + [|After(lim, EMPTY, run).contents|]
  }

  // The bytes its reallocations moved, at most: each moves the old capacity.
  function Moved(lim: Limits, run: seq<Event>): nat {
    if run == [] then 0
    else
      var before, after := After(lim, EMPTY, run[..|run| - 1]).cap, After(lim, EMPTY, run).cap;
      Moved(lim, run[..|run| - 1]) + if after == before then 0 else before
  }

  ghost predicate NeverReserves(run: seq<Event>) {
    forall e :: e in run ==> !e.op.OpReserve?
  }

  // Every change of capacity is to at least twice the old one.
  ghost predicate RunDoubles(lim: Limits, run: seq<Event>) {
    forall i :: 0 <= i < |run| ==>
      var before, after := After(lim, EMPTY, run[..i]).cap, After(lim, EMPTY, run[..i + 1]).cap;
      after == before || after >= 2 * before
  }

  // The ledger of its sizes tells the capacity after a run, and what it has moved.
  lemma {:induction false} CapacityIsLedger(lim: Limits, run: seq<Event>)
    requires NeverReserves(run)
    ensures PayAll(lim.maxAlloc, Sizes(lim, run)).cap == After(lim, EMPTY, run).cap
    ensures PayAll(lim.maxAlloc, Sizes(lim, run)).moved == Moved(lim, run)
  {
    if run != [] {
      var n := |run| - 1;
      CapacityIsLedger(lim, run[..n]);
      EveryRunIsSafe(lim, EMPTY, run[..n]);
      StepIsSafe(lim, run[n].grants, After(lim, EMPTY, run[..n]), run[n].op);
      assert run[n] in run;
      assert Sizes(lim, run)[..n] == Sizes(lim, run[..n]);
    }
  }

  lemma {:induction false} SizesOfPrefix(lim: Limits, run: seq<Event>, i: nat)
    requires i <= |run|
    ensures Sizes(lim, run[..i]) == Sizes(lim, run)[..i]
  {
    if i == |run| {
      assert run[..i] == run;
    } else {
      SizesOfPrefix(lim, run[..|run| - 1], i);
      assert run[..|run| - 1][..i] == run[..i];
    }
  }

  lemma DoublingIsLedgers(lim: Limits, run: seq<Event>)
    requires NeverReserves(run)
    ensures RunDoubles(lim, run) <==> AlwaysDoubles(lim.maxAlloc, Sizes(lim, run))
  {
    forall i | 0 <= i <= |run|
      ensures PayAll(lim.maxAlloc, Sizes(lim, run)[..i]).cap == After(lim, EMPTY, run[..i]).cap
    {
      SizesOfPrefix(lim, run, i);
      CapacityIsLedger(lim, run[..i]);
    }
    forall i | 0 <= i < |run|
      ensures var before, after := After(lim, EMPTY, run[..i]).cap, After(lim, EMPTY, run[..i + 1]).cap;
              DoublesAt(lim.maxAlloc, Sizes(lim, run), i) <==> after == before || after >= 2 * before
    {
      LastPayment(lim.maxAlloc, Sizes(lim, run), i);
    }
  }

  // While doubling stays under the cap, every reallocation at least doubles, and
  // all of them together move no more than the final capacity.
  lemma RunIsAmortised(lim: Limits, run: seq<Event>)
    requires NeverReserves(run) && RoomToDouble(lim.maxAlloc, Sizes(lim, run))
    ensures RunDoubles(lim, run)
    ensures Moved(lim, run) <= After(lim, EMPTY, run).cap
  {
    CapacityIsLedger(lim, run);
    DoublingIsLedgers(lim, run);
    AmortisedGrowth(lim.maxAlloc, Sizes(lim, run));
  }

  // The capacity is at most twice the largest size so far (or 32), always.
  lemma RunStaysWithinTwicePeak(lim: Limits, run: seq<Event>, peak: nat)
    requires NeverReserves(run) && UpTo(Sizes(lim, run), peak)
    ensures After(lim, EMPTY, run).cap <= Max(32, 2 * peak)
  {
    CapacityIsLedger(lim, run);
    CapWithinTwicePeak(lim.maxAlloc, Sizes(lim, run));
    PeakWithin(lim.maxAlloc, Sizes(lim, run), peak);
  }

  // A run through the given sizes.
  function Resizes(sizes: seq<nat>): (run: seq<Event>)
    ensures |run| == |sizes|
  {
    seq(|sizes|, i requires 0 <= i < |sizes| => Event(true, OpResize(sizes[i], 0)))
  }

  lemma {:induction false} SizesOfResizes(lim: Limits, sizes: seq<nat>)
    requires UpTo(sizes, lim.maxAlloc)
    ensures NeverReserves(Resizes(sizes))
    ensures Sizes(lim, Resizes(sizes)) == sizes
  {
    if sizes != [] {
      var n := |sizes| - 1;
      var run := Resizes(sizes);
      assert run[..n] == Resizes(sizes[..n]);
      SizesOfResizes(lim, sizes[..n]);
      EveryRunIsSafe(lim, EMPTY, run[..n]);
      assert run[n] == Event(true, OpResize(sizes[n], 0));
      assert After(lim, EMPTY, run) == Resize(lim, true, After(lim, EMPTY, run[..n]), sizes[n], 0).after;
    }
  }

  lemma SpendthriftRun(lim: Limits) returns (run: seq<Event>)
    requires lim.maxAlloc > AmortisedPeak(lim.maxAlloc)
    ensures NeverReserves(run) && UpTo(Sizes(lim, run), AmortisedPeak(lim.maxAlloc) + 1)
    ensures Moved(lim, run) > After(lim, EMPTY, run).cap
  {
    hide Spendthrift, Resizes;
    var sizes := Spendthrift(lim.maxAlloc);
    run := Resizes(sizes);
    SpendthriftMovesMore(lim.maxAlloc);
    SizesOfResizes(lim, sizes);
    CapacityIsLedger(lim, run);
  }

  lemma SolventRun(lim: Limits, run: seq<Event>)
    requires NeverReserves(run) && UpTo(Sizes(lim, run), AmortisedPeak(lim.maxAlloc))
    ensures Moved(lim, run) <= After(lim, EMPTY, run).cap
  {
    CapacityIsLedger(lim, run);
    StaysSolvent(lim.maxAlloc, Sizes(lim, run));
  }

  // For every cap, and every bound on the sizes of a run without explicit
  // reserve: all runs within the bound move no more than their final capacity,
  // exactly when the bound is at most AmortisedPeak (or no size can exceed it).
  lemma RunsAreAmortisedIff(lim: Limits, peak: nat)
    ensures (forall run :: NeverReserves(run) && UpTo(Sizes(lim, run), peak) ==>
               Moved(lim, run) <= After(lim, EMPTY, run).cap)
            <==> Min(peak, lim.maxAlloc) <= AmortisedPeak(lim.maxAlloc)
  {
    hide AmortisedPeak, Sizes, Moved, After;
    if Min(peak, lim.maxAlloc) <= AmortisedPeak(lim.maxAlloc) {
      forall run | NeverReserves(run) && UpTo(Sizes(lim, run), peak)
        ensures Moved(lim, run) <= After(lim, EMPTY, run).cap
      {
        SizesWithinCap(lim, run);
        SolventRun(lim, run);
      }
    } else {
      var run := SpendthriftRun(lim);
      assert UpTo(Sizes(lim, run), peak);
    }
  }

  // And every reallocation at least doubles, exactly when it is at most DoublingPeak.
  lemma RunsDoubleIff(lim: Limits, peak: nat)
    ensures (forall run :: NeverReserves(run) && UpTo(Sizes(lim, run), peak) ==> RunDoubles(lim, run))
            <==> Min(peak, lim.maxAlloc) <= DoublingPeak(lim.maxAlloc)
  {
    if Min(peak, lim.maxAlloc) <= DoublingPeak(lim.maxAlloc) {
      forall run | NeverReserves(run) && UpTo(Sizes(lim, run), peak)
        ensures RunDoubles(lim, run)
      {
        DoublingIsLedgers(lim, run);
        SizesWithinCap(lim, run);
        SmallSizesDouble(lim.maxAlloc, Sizes(lim, run));
      }
    } else {
      var sizes := Creeping(lim.maxAlloc);
      CreepingDoesNotDouble(lim.maxAlloc);
      SizesOfResizes(lim, sizes);
      DoublingIsLedgers(lim, Resizes(sizes));
    }
  }

  lemma SizesWithinCap(lim: Limits, run: seq<Event>)
    ensures UpTo(Sizes(lim, run), lim.maxAlloc)
  {
    if run != [] {
      SizesWithinCap(lim, run[..|run| - 1]);
      EveryRunIsSafe(lim, EMPTY, run);
    }
  }

  // With a cap of 100, resizing to 1, 33 and 65 moves 96 bytes to end at 65.
  lemma SmallCapRunMovesMore(lim: Limits)
    requires lim.maxAlloc == 100
    ensures var run := Resizes([1, 33, 65]);
            Moved(lim, run) == 96 && After(lim, EMPTY, run).cap == 65
  {
    SizesOfResizes(lim, [1, 33, 65]);
    CapacityIsLedger(lim, Resizes([1, 33, 65]));
    ThreePayments(lim.maxAlloc, 1, 33, 65);
  }

  // ---------- the pointer-level buffer follows the step function ----------

  method PerformAppend(b: Buffer, arg: Option<seq<byte>>) returns (code: Code)
    requires b.Valid()
    modifies b, b.heap, b.data
    ensures b.Valid() && (b.data != old(b.data) ==> fresh(b.data)) && b.OwnsAsBefore()
    ensures Outcome(code, b.State()) == Append(b.heap.limits, old(b.heap.grants), old(b.State()), arg)
  {
    hide Append;
    if arg.None? {
      code := b.Append(Null, 1);
    } else {
      var block := b.heap.BorrowBytes(arg.value);
      code := b.Append(At(block, 0), |arg.value|);
      b.heap.Return(block);
    }
  }

  method PerformWrite(b: Buffer, offset: nat, arg: Option<seq<byte>>) returns (code: Code)
    requires b.Valid()
    modifies b.heap, b.data
    ensures b.Valid() && b.OwnsAsBefore()
    ensures Outcome(code, b.State()) == Write(b.heap.limits, old(b.State()), offset, arg)
  {
    hide Write;
    if arg.None? {
      code := b.Write(offset, Null, 1);
    } else {
      var block := b.heap.BorrowBytes(arg.value);
      code := b.Write(offset, At(block, 0), |arg.value|);
      b.heap.Return(block);
    }
  }

  // A view of the buffer's own contents, as data() hands it out.
  method OwnView(b: Buffer, off: nat, n: nat) returns (src: Ptr, len: nat)
    requires b.Valid()
    ensures b.Source(src, len) && (src.At? ==> src.block == b.data)
    ensures b.Arg(src, len) == Some(View(b.Contents(), off, n))
  {
    var start := Min(off, b.size);
    len := Min(n, b.size - start);
    src := if b.data == null then Null else At(b.data, start);
    if b.data != null {
      assert b.data[start..start + len] == b.data[..b.size][start..start + len];
    }
  }

  method Perform(b: Buffer, op: Op) returns (code: Code)
    requires b.Valid()
    modifies b, b.heap, b.data
    ensures b.Valid() && (b.data != old(b.data) ==> fresh(b.data)) && b.OwnsAsBefore()
    ensures Outcome(code, b.State()) == Step(b.heap.limits, old(b.heap.grants), old(b.State()), op)
  {
    hide Append, Write, Resize, Reserve, Set;
    match op
    case OpAppendByte(v) => code := b.AppendByte(v);
    case OpAppend(arg) => code := PerformAppend(b, arg);
    case OpAppendSelf(off, n) =>
      var src, len := OwnView(b, off, n);
      code := b.Append(src, len);
    case OpWrite(offset, arg) => code := PerformWrite(b, offset, arg);
    case OpWriteSelf(offset, off, n) =>
      var src, len := OwnView(b, off, n);
      code := b.Write(offset, src, len);
    case OpResize(newSize, fill) => code := b.Resize(newSize, fill);
    case OpSet(i, v) => code := b.Set(i, v);
    case OpFill(v) =>
      b.FillAll(v);
      code := Ok;
    case OpClear =>
      b.Clear();
      code := Ok;
    case OpSecureClear =>
      b.SecureClear();
      code := Ok;
    case OpReserve(newCap) => code := b.Reserve(newCap);
  }

  // Any run at all, with the allocator granting or refusing as it likes: the
  // contents, capacity and codes are those of the step function, and verify()
  // holds at the end, hence after every prefix.
  method PerformAll(b: Buffer, run: seq<Event>) returns (codes: seq<Code>)
    requires b.Valid()
    modifies b, b.heap, b.data
    ensures b.Valid() && b.Verify()
    ensures (b.data != old(b.data) ==> fresh(b.data)) && b.heap.borrowed == old(b.heap.borrowed)
    ensures b.State() == After(b.heap.limits, old(b.State()), run)
    ensures codes == Codes(b.heap.limits, old(b.State()), run)
  {
    hide Step;
    codes := [];
    ghost var start := b.State();
    for i := 0 to |run|
      invariant b.Valid() && (b.data != old(b.data) ==> fresh(b.data))
      invariant b.heap.borrowed == old(b.heap.borrowed)
      invariant b.State() == After(b.heap.limits, start, run[..i])
      invariant codes == Codes(b.heap.limits, start, run[..i])
    {
      b.heap.grants := run[i].grants;
      assert run[..i + 1][..i] == run[..i];
      var code := Perform(b, run[i].op);
      codes := codes + [code];
    }
    assert run[..|run|] == run;
  }
}
