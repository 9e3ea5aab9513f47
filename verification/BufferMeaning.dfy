// What each buffer operation leaves behind, byte by byte: when it succeeds, with
// which code it refuses, every byte afterwards and the capacity, in terms of
// indices and sums alone.
module BufferMeaning {
  import opened Base
  import opened Growth
  import opened Spec = BufferSpec
  import opened Runs = BufferRuns

  // Growth to a size: refused above the cap or for lack of memory, and otherwise
  // to twice the capacity (counted as at least 16) if that is enough and allowed.
  lemma GrowthMeans(lim: Limits, grants: bool, cap: nat, needed: nat)
    requires cap <= lim.maxAlloc
    ensures var g, twice := BufferGrowth(lim, grants, cap, needed), if cap < 16 then 32 else 2 * cap;
            && (g.code == Ok <==> needed <= cap || (needed <= lim.maxAlloc && grants))
            && (g.code == CapacityExceeded <==> needed > lim.maxAlloc)
            && (g.code == OutOfMemory <==> cap < needed <= lim.maxAlloc && !grants)
            && (g.code != Ok || needed <= cap ==> g.cap == cap)
            && (g.code == Ok && needed > cap ==> g.cap == if needed <= twice <= lim.maxAlloc then twice else needed)
  {}

  // reserve succeeds exactly when there is room already, or the capacity asked
  // for is within the cap and memory is granted; it never shrinks.
  lemma ReserveMeans(lim: Limits, grants: bool, st: Store, newCap: nat)
    requires st.WellFormed(lim)
    ensures var o := Reserve(lim, grants, st, newCap);
            && (o.code == Ok <==> newCap <= st.cap || (newCap <= lim.maxAlloc && grants))
            && (o.code == CapacityExceeded <==> newCap > lim.maxAlloc)
            && (o.code == OutOfMemory <==> st.cap < newCap <= lim.maxAlloc && !grants)
            && o.after.contents == st.contents
            && o.after.cap == if o.code == Ok && newCap > st.cap then newCap else st.cap
    ensures Step(lim, grants, st, OpReserve(newCap)) == Reserve(lim, grants, st, newCap)
  {}

  // resize: the first newSize bytes, padded with the fill byte.
  lemma ResizeMeans(lim: Limits, grants: bool, st: Store, newSize: nat, fill: byte)
    requires st.WellFormed(lim)
    ensures var o := Resize(lim, grants, st, newSize, fill);
            && (o.code == Ok <==> newSize <= st.cap || (newSize <= lim.maxAlloc && grants))
            && Grown(o.code, o.after.cap) == BufferGrowth(lim, grants, st.cap, newSize)
            && |o.after.contents| == (if o.code == Ok then newSize else |st.contents|)
            && forall i :: 0 <= i < |o.after.contents| ==>
                 o.after.contents[i] == if i < |st.contents| then st.contents[i] else fill
    ensures Step(lim, grants, st, OpResize(newSize, fill)) == Resize(lim, grants, st, newSize, fill)
  {}

  // append: every old byte where it was, and every new one behind them.
  lemma AppendMeans(lim: Limits, grants: bool, st: Store, bytes: seq<byte>)
    requires st.WellFormed(lim)
    ensures var o, total := Append(lim, grants, st, Some(bytes)), |st.contents| + |bytes|;
            && (o.code == Ok <==> total <= st.cap || (total <= lim.maxAlloc && grants))
            && (o.code == Overflow <==> total > lim.sizeMax)
            && (total <= lim.sizeMax ==> Grown(o.code, o.after.cap) == BufferGrowth(lim, grants, st.cap, total))
            && (total > lim.sizeMax ==> o.after.cap == st.cap)
            && |o.after.contents| == (if o.code == Ok then total else |st.contents|)
            && forall i :: 0 <= i < |o.after.contents| ==>
                 o.after.contents[i] == if i < |st.contents| then st.contents[i] else bytes[i - |st.contents|]
    ensures Step(lim, grants, st, OpAppend(Some(bytes))) == Append(lim, grants, st, Some(bytes))
  {}

  // write: the bytes in [offset, offset + |bytes|) become the ones given, and no
  // other byte, and neither the size nor the capacity, changes.
  lemma WriteMeans(lim: Limits, grants: bool, st: Store, offset: nat, bytes: seq<byte>)
    requires st.WellFormed(lim)
    ensures var o, end := Write(lim, st, offset, Some(bytes)), offset + |bytes|;
            && (o.code == Ok <==> bytes == [] || end <= |st.contents|)
            && (o.code == Overflow <==> bytes != [] && end > lim.sizeMax)
            && (o.code == OutOfRange <==> bytes != [] && |st.contents| < end <= lim.sizeMax)
            && o.after.cap == st.cap && |o.after.contents| == |st.contents|
            && forall i :: 0 <= i < |st.contents| ==>
                 o.after.contents[i] == if o.code == Ok && offset <= i < end then bytes[i - offset] else st.contents[i]
    ensures Step(lim, grants, st, OpWrite(offset, Some(bytes))) == Write(lim, st, offset, Some(bytes))
  {}

  // Null with a length is refused, and changes nothing.
  lemma NullIsRefused(lim: Limits, grants: bool, st: Store, offset: nat)
    ensures Append(lim, grants, st, None) == Step(lim, grants, st, OpAppend(None)) == Outcome(NullPointer, st)
    ensures Write(lim, st, offset, None) == Step(lim, grants, st, OpWrite(offset, None)) == Outcome(NullPointer, st)
  {}

  lemma SetMeans(lim: Limits, grants: bool, st: Store, i: nat, b: byte)
    ensures var o := Set(st, i, b);
            && (o.code == Ok <==> i < |st.contents|) && (o.code == OutOfRange <==> i >= |st.contents|)
            && o.after.cap == st.cap && |o.after.contents| == |st.contents|
            && forall j :: 0 <= j < |st.contents| ==> o.after.contents[j] == if j == i then b else st.contents[j]
    ensures Step(lim, grants, st, OpSet(i, b)) == Set(st, i, b)
  {}

  // fill and clear.
  lemma FillMeans(lim: Limits, grants: bool, st: Store, b: byte)
    ensures var o := FillAll(st, b);
            && o.code == Ok && o.after.cap == st.cap && |o.after.contents| == |st.contents|
            && forall i :: 0 <= i < |st.contents| ==> o.after.contents[i] == b
    ensures Step(lim, grants, st, OpFill(b)) == FillAll(st, b)
  {}

  lemma ClearMeans(lim: Limits, grants: bool, st: Store)
    ensures Clear(st) == Outcome(Ok, Store([], st.cap))
    ensures Step(lim, grants, st, OpClear) == Step(lim, grants, st, OpSecureClear) == Clear(st)
  {}

  // with_capacity: when a block of cap bytes can be had.
  lemma CreateMeans(lim: Limits, grants: bool, cap: nat)
    ensures var code := Create(lim, grants, cap);
            && (code == Ok <==> cap == 0 || (cap <= lim.maxAlloc && grants))
            && (code == CapacityExceeded <==> cap > lim.maxAlloc)
            && (code == OutOfMemory <==> 0 < cap <= lim.maxAlloc && !grants)
  {}

  // A self-view: the bytes from off on, at most n, as many as there are.
  lemma ViewMeans(s: seq<byte>, off: nat, n: nat)
    ensures var v := View(s, off, n);
            && |v| == (if off >= |s| then 0 else if off + n <= |s| then n else |s| - off)
            && forall i :: 0 <= i < |v| ==> v[i] == s[off + i]
  {}

  // Operations on a self-view and on a single byte are those on its bytes.
  lemma SelfViewsAreBytes(lim: Limits, grants: bool, st: Store, offset: nat, off: nat, n: nat, b: byte)
    ensures Step(lim, grants, st, OpAppendByte(b)) == Append(lim, grants, st, Some([b]))
    ensures Step(lim, grants, st, OpAppendSelf(off, n)) == Append(lim, grants, st, Some(View(st.contents, off, n)))
    ensures Step(lim, grants, st, OpWriteSelf(offset, off, n)) ==
            Write(lim, st, offset, Some(View(st.contents, off, n)))
  {}

  // A run of one event is its step, and a run in two parts is the one after the other.
  lemma {:induction false} RunsCompose(lim: Limits, st: Store, first: seq<Event>, second: seq<Event>)
    ensures After(lim, st, first + second) == After(lim, After(lim, st, first), second)
    ensures Codes(lim, st, first + second) == Codes(lim, st, first) + Codes(lim, After(lim, st, first), second)
  {
    hide Step;
    if second == [] {
      assert first + second == first;
    } else {
      var n := |second| - 1;
      RunsCompose(lim, st, first, second[..n]);
      assert (first + second)[..|first| + n] == first + second[..n];
    }
  }

  lemma RunOfOne(lim: Limits, st: Store, e: Event)
    ensures var o := Step(lim, e.grants, st, e.op);
            After(lim, st, [e]) == o.after && Codes(lim, st, [e]) == [o.code]
  {
    assert [e][..0] == [];
  }
}
