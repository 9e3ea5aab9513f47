// What each string operation leaves behind, byte by byte: when it succeeds, with
// which code it refuses, every byte afterwards and the capacity, in terms of
// indices and sums alone.
module StringMeaning {
  import opened Base
  import opened Growth
  import opened Editing
  import opened Spec = StringSpec
  import opened Laws = StringLaws

  // Growth to a size: the block that is asked for has one byte more than the new
  // capacity, and must fit first size_t, then the cap, then memory.
  lemma GrowthMeans(lim: Limits, grants: bool, cap: nat, needed: nat)
    ensures var g, twice := StringGrowth(lim, grants, cap, needed), if cap < 16 then 32 else 2 * cap;
            var target := if needed <= twice <= lim.maxAlloc then twice else needed;
            && (g.code == Ok <==> needed <= cap || (target + 1 <= lim.maxAlloc && grants))
            && (g.code == Overflow <==> needed > cap && target + 1 > lim.sizeMax)
            && (g.code == CapacityExceeded <==> needed > cap && lim.maxAlloc < target + 1 <= lim.sizeMax)
            && (g.code == OutOfMemory <==> needed > cap && target + 1 <= lim.maxAlloc && !grants)
            && g.cap == if g.code == Ok && needed > cap then target else cap
  {}

  // The same for the capacity that reserve, with_capacity and from_bytes ask for.
  lemma ReserveMeans(lim: Limits, grants: bool, st: Text, newCap: nat)
    requires st.WellFormed(lim)
    ensures var o := Reserve(lim, grants, st, newCap);
            && (o.code == Ok <==> newCap <= st.cap || (newCap + 1 <= lim.maxAlloc && grants))
            && (o.code == Overflow <==> newCap > st.cap && newCap + 1 > lim.sizeMax)
            && (o.code == CapacityExceeded <==> newCap > st.cap && lim.maxAlloc < newCap + 1 <= lim.sizeMax)
            && (o.code == OutOfMemory <==> newCap > st.cap && newCap + 1 <= lim.maxAlloc && !grants)
            && o.after.contents == st.contents
            && o.after.cap == if o.code == Ok && newCap > st.cap then newCap else st.cap
    ensures Step(lim, grants, st, OpReserve(newCap)) == Reserve(lim, grants, st, newCap)
  {}

  lemma CreateMeans(lim: Limits, grants: bool, len: nat)
    ensures var code := Create(lim, grants, len);
            && (code == Ok <==> len == 0 || (len + 1 <= lim.maxAlloc && grants))
            && (code == Overflow <==> len > 0 && len + 1 > lim.sizeMax)
            && (code == CapacityExceeded <==> len > 0 && lim.maxAlloc < len + 1 <= lim.sizeMax)
            && (code == OutOfMemory <==> 0 < len && len + 1 <= lim.maxAlloc && !grants)
  {}

  // The bytes a source stands for.
  lemma SourceMeans(s: seq<byte>, off: nat, n: nat, bytes: seq<byte>)
    requires off + n <= |s|
    ensures External(bytes).In(s) == bytes && External(bytes).Len() == |bytes|
    ensures Within(off, n).Len() == n
    ensures forall i :: 0 <= i < n ==> Within(off, n).In(s)[i] == s[off + i]
  {}

  // A self-view: the bytes from off on, at most n, as many as there are.
  lemma CutMeans(s: seq<byte>, off: nat, n: nat, bytes: seq<byte>)
    ensures Cut(External(bytes), s) == External(bytes)
    ensures var v := Cut(Within(off, n), s);
            && v.Len() == (if off >= |s| then 0 else if off + n <= |s| then n else |s| - off)
            && forall i :: 0 <= i < v.Len() ==> v.In(s)[i] == s[off + i]
    ensures off + n <= |s| ==> Cut(Within(off, n), s) == Within(off, n)
  {}

  // append: every old byte where it was, and every new one behind them.
  lemma AppendMeans(lim: Limits, grants: bool, st: Text, bytes: seq<byte>)
    requires st.WellFormed(lim)
    ensures var o, total := Append(lim, grants, st, Some(bytes)), |st.contents| + |bytes|;
            && (total > lim.sizeMax ==> o == Outcome(Overflow, st))
            && (total <= lim.sizeMax ==> Grown(o.code, o.after.cap) == StringGrowth(lim, grants, st.cap, total))
            && |o.after.contents| == (if o.code == Ok then total else |st.contents|)
            && forall i :: 0 <= i < |o.after.contents| ==>
                 o.after.contents[i] == if i < |st.contents| then st.contents[i] else bytes[i - |st.contents|]
    ensures Step(lim, grants, st, OpAppend(Some(bytes))) == Append(lim, grants, st, Some(bytes))
  {}

  // assign: the new bytes and no others.
  lemma AssignMeans(lim: Limits, grants: bool, st: Text, bytes: seq<byte>)
    requires st.WellFormed(lim)
    ensures var o := Assign(lim, grants, st, Some(bytes));
            && Grown(o.code, o.after.cap) == StringGrowth(lim, grants, st.cap, |bytes|)
            && o.after.contents == if o.code == Ok then bytes else st.contents
    ensures Step(lim, grants, st, OpAssign(Some(bytes))) == Assign(lim, grants, st, Some(bytes))
  {}

  lemma InsertCodes(lim: Limits, grants: bool, st: Text, pos: nat, src: Source)
    requires st.WellFormed(lim) && src.FitsIn(st.contents)
    ensures var o, total := Insert(lim, grants, st, pos, src), |st.contents| + src.Len();
            && (pos > |st.contents| ==> o == Outcome(OutOfRange, st))
            && (pos <= |st.contents| && total > lim.sizeMax ==> o == Outcome(Overflow, st))
            && (pos <= |st.contents| && total <= lim.sizeMax ==>
                  Grown(o.code, o.after.cap) == StringGrowth(lim, grants, st.cap, total))
            && (o.code != Ok ==> o.after == st)
    ensures Step(lim, grants, st, OpInsert(pos, src)) == Insert(lim, grants, st, pos, src)
  {
    hide Splice;
  }

  // insert: the bytes before pos stay, those from pos on move up by the length
  // of the source, and in between are the bytes the source had.
  lemma InsertMeans(lim: Limits, grants: bool, st: Text, pos: nat, src: Source)
    requires st.WellFormed(lim) && src.FitsIn(st.contents)
    requires Insert(lim, grants, st, pos, src).code == Ok
    ensures pos <= |st.contents|
    ensures var s, r, n := st.contents, Insert(lim, grants, st, pos, src).after.contents, src.Len();
            && |r| == |s| + n
            && forall i {:trigger r[i]} :: 0 <= i < |r| ==>
                 r[i] == if i < pos then s[i]
                         else if i >= pos + n then s[i - n]
                         else if src.External? then src.bytes[i - pos]
                         else s[src.off + i - pos]
  {
    var s, r := st.contents, Insert(lim, grants, st, pos, src).after.contents;
    assert r == Splice(s, pos, 0, src.In(s));
  }

  // When replace succeeds, and with which code it does not.
  lemma ReplaceCodes(lim: Limits, grants: bool, st: Text, pos: nat, length: nat, src: Source)
    requires st.WellFormed(lim) && src.FitsIn(st.contents)
    ensures var o, n, size := Replace(lim, grants, st, pos, length, src), src.Len(), |st.contents|;
            var total, twice := size - length + n, if st.cap < 16 then 32 else 2 * st.cap;
            && (o.code == Ok <==>
                  && pos + length <= size && total <= lim.sizeMax
                  && (st.cap > 0 || n > 0)
                  && (total <= st.cap || (total < lim.maxAlloc && twice != lim.maxAlloc && grants)))
            && (pos + length > lim.sizeMax ==> o == Outcome(Overflow, st))
            && (size < pos + length <= lim.sizeMax ==> o == Outcome(OutOfRange, st))
            && (pos + length <= size && total > lim.sizeMax ==> o == Outcome(Overflow, st))
            && (pos + length <= size && total <= lim.sizeMax && st.cap == n == 0 ==> o == Outcome(NullStore, st))
            && (pos + length <= size && total <= lim.sizeMax && (st.cap > 0 || n > 0) ==>
                  Grown(o.code, o.after.cap) == StringGrowth(lim, grants, st.cap, total))
            && (o.code != Ok ==> o.after == st)
    ensures Step(lim, grants, st, OpReplace(pos, length, src)) == Replace(lim, grants, st, pos, length, src)
  {
    hide Replaced;
  }

  lemma ReplacedMeans(s: seq<byte>, pos: nat, length: nat, src: Source)
    requires pos + length <= |s| && src.FitsIn(s)
    ensures var r, n := Replaced(s, pos, length, src), src.Len();
            && |r| == |s| - length + n
            && forall i {:trigger r[i]} :: 0 <= i < |r| ==>
                 r[i] == if i < pos then s[i]
                         else if i >= pos + n then s[i + length - n]
                         else if src.External? then src.bytes[i - pos]
                         else if src.off < pos + length && pos + n <= src.off + i - pos < |r|
                         then s[src.off + i - pos + length - n]
                         else s[src.off + i - pos]
  {}

  // Every byte after a successful replace. The bytes before pos stay, those from
  // pos + length on move to behind the replacement, and the replacement is what
  // the source had, except where a self-view that starts before the tail lies
  // under the place the tail has moved to: there it is the tail that is read.
  lemma ReplaceMeans(lim: Limits, grants: bool, st: Text, pos: nat, length: nat, src: Source)
    requires st.WellFormed(lim) && src.FitsIn(st.contents)
    requires Replace(lim, grants, st, pos, length, src).code == Ok
    ensures pos + length <= |st.contents|
    ensures var s, r, n := st.contents, Replace(lim, grants, st, pos, length, src).after.contents, src.Len();
            && r == Replaced(s, pos, length, src)
            && |r| == |s| - length + n
            && forall i {:trigger r[i]} :: 0 <= i < |r| ==>
                 r[i] == if i < pos then s[i]
                         else if i >= pos + n then s[i + length - n]
                         else if src.External? then src.bytes[i - pos]
                         else if src.off < pos + length && pos + n <= src.off + i - pos < |r|
                         then s[src.off + i - pos + length - n]
                         else s[src.off + i - pos]
  {
    ReplacedMeans(st.contents, pos, length, src);
    hide Replaced;
  }

  // So replace is the splice the caller asked for, for every source but a
  // self-view of which a byte lies under the moved tail.
  lemma ReplaceSplices(lim: Limits, grants: bool, st: Text, pos: nat, length: nat, src: Source)
    requires st.WellFormed(lim) && src.FitsIn(st.contents)
    requires Replace(lim, grants, st, pos, length, src).code == Ok
    requires src.Within? ==> !ReadsMovedTail(|st.contents|, pos, length, src.off, src.n)
    ensures Replace(lim, grants, st, pos, length, src).after.contents
            == Splice(st.contents, pos, length, src.In(st.contents))
  {
    ReplaceMeans(lim, grants, st, pos, length, src);
    match src
    case External(bytes) => ReplaceByExternalIsSplice(st.contents, pos, length, bytes);
    case Within(off, n) => ReplaceIsSpliceIff(|st.contents|, pos, length, off, n);
  }

  // Null with a length is refused, and changes nothing.
  lemma NullIsRefused(lim: Limits, grants: bool, st: Text)
    ensures Append(lim, grants, st, None) == Step(lim, grants, st, OpAppend(None)) == Outcome(NullPointer, st)
    ensures Assign(lim, grants, st, None) == Step(lim, grants, st, OpAssign(None)) == Outcome(NullPointer, st)
  {}

  lemma ClearMeans(lim: Limits, grants: bool, st: Text)
    ensures Clear(st) == Outcome(Ok, Text([], st.cap))
    ensures Step(lim, grants, st, OpClear) == Step(lim, grants, st, OpSecureClear) == Clear(st)
  {}

  // Operations on a self-view and on a single character are those on its bytes.
  lemma SelfViewsAreBytes(lim: Limits, grants: bool, st: Text, off: nat, n: nat, c: byte)
    ensures var bytes := Cut(Within(off, n), st.contents).In(st.contents);
            && Step(lim, grants, st, OpAppendSelf(off, n)) == Append(lim, grants, st, Some(bytes))
            && Step(lim, grants, st, OpAssignSelf(off, n)) == Assign(lim, grants, st, Some(bytes))
    ensures Step(lim, grants, st, OpAppendChar(c)) == Append(lim, grants, st, Some([c]))
  {}

  // A run of one event is its step, and a run in two parts is the one after the other.
  lemma {:induction false} RunsCompose(lim: Limits, st: Text, first: seq<Event>, second: seq<Event>)
    ensures After(lim, st, first + second) == After(lim, After(lim, st, first), second)
    ensures Codes(lim, st, first + second) == Codes(lim, st, first) + Codes(lim, After(lim, st, first), second)
  {
    hide Step;
    if second == [] {
      assert first + second == first;
    } else {
      var n := |second| - 1;
      RunsCompose(lim, st, first, second[..n]);
      assert (first + second)[..|first| + n] == first + second[..n];
    }
  }

  lemma RunOfOne(lim: Limits, st: Text, e: Event)
    ensures var o := Step(lim, e.grants, st, e.op);
            After(lim, st, [e]) == o.after && Codes(lim, st, [e]) == [o.code]
  {
    assert [e][..0] == [];
  }
}
