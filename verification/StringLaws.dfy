// Laws of the string operations, over every run and every argument.
module StringLaws {
  import opened Base
  import opened CheckedMath
  import opened Growth
  import opened Spec = StringSpec

  // ---------- edits that are the same edit ----------

  // Insertion is replacement of an empty range, unless there is no storage and
  // nothing to insert: then insert does nothing and replace stores through null.
  lemma InsertIsEmptyReplace(lim: Limits, grants: bool, st: Text, pos: nat, src: Source)
    requires st.WellFormed(lim) && src.FitsIn(st.contents) && pos <= lim.sizeMax
    ensures Insert(lim, grants, st, pos, src) == Replace(lim, grants, st, pos, 0, src)
            <==> !(st.cap == 0 && src.Len() == 0 && pos == 0)
  {
    if pos <= |st.contents| {
      assert Fetched(st.contents, pos, 0, src) == src.In(st.contents);
      if src.Len() == 0 {
        assert Replaced(st.contents, pos, 0, src) == st.contents;
      }
    }
  }

  lemma InsertAtEndIsAppend(lim: Limits, grants: bool, st: Text, src: Source)
    requires st.WellFormed(lim) && src.FitsIn(st.contents)
    ensures Insert(lim, grants, st, |st.contents|, src)
            == Append(lim, grants, st, Some(src.In(st.contents)))
  {
    var bytes := src.In(st.contents);
    assert Splice(st.contents, |st.contents|, 0, bytes) == st.contents + bytes;
  }

  // Assignment is replacement of everything, with the same exception. It never
  // misreads a self-view: no tail is left to move.
  lemma AssignIsReplaceAll(lim: Limits, grants: bool, st: Text, src: Source)
    requires st.WellFormed(lim) && src.FitsIn(st.contents) && src.Len() <= lim.sizeMax
    ensures Assign(lim, grants, st, Some(src.In(st.contents)))
            == Replace(lim, grants, st, 0, |st.contents|, src)
            <==> !(st.cap == 0 && src.Len() == 0)
  {
    var bytes := src.In(st.contents);
    assert Fetched(st.contents, 0, |st.contents|, src) == bytes;
    assert Splice(st.contents, 0, |st.contents|, bytes) == bytes;
  }

  // The final store of replace has no block to go to exactly when an empty
  // range of a string without storage is replaced by nothing.
  lemma ReplaceWithoutStorageIff(lim: Limits, grants: bool, st: Text, pos: nat, length: nat, src: Source)
    requires st.WellFormed(lim) && src.FitsIn(st.contents)
    ensures Replace(lim, grants, st, pos, length, src).code == NullStore
            <==> st.cap == 0 && src.Len() == 0 && pos + length == 0
  {}

  // ---------- runs ----------

  // An operation of the public interface that can change a string. A null
  // pointer with a length > 0 is the argument None; a self-view is cut down to
  // the contents it finds.
  datatype Op =
    | OpAppendChar(c: byte)
    | OpAppend(arg: Option<seq<byte>>)
    | OpAppendSelf(off: nat, n: nat)
    | OpAssign(arg: Option<seq<byte>>)
    | OpAssignSelf(off: nat, n: nat)
    | OpInsert(pos: nat, src: Source)
    | OpReplace(pos: nat, length: nat, src: Source)
    | OpReserve(newCap: nat)
    | OpClear
    | OpSecureClear

  function Cut(src: Source, s: seq<byte>): (r: Source)
    ensures r.FitsIn(s)
  {
    match src
    case External(_) => src
    case Within(off, n) => Within(Min(off, |s|), Min(n, |s| - Min(off, |s|)))
  }

  function Step(lim: Limits, grants: bool, st: Text, op: Op): Outcome {
    match op
    case OpAppendChar(c) => Append(lim, grants, st, Some([c]))
    case OpAppend(arg) => Append(lim, grants, st, arg)
    case OpAppendSelf(off, n) => Append(lim, grants, st, Some(Cut(Within(off, n), st.contents).In(st.contents)))
    case OpAssign(arg) => Assign(lim, grants, st, arg)
    case OpAssignSelf(off, n) => Assign(lim, grants, st, Some(Cut(Within(off, n), st.contents).In(st.contents)))
    case OpInsert(pos, src) => Insert(lim, grants, st, pos, Cut(src, st.contents))
    case OpReplace(pos, length, src) => Replace(lim, grants, st, pos, length, Cut(src, st.contents))
    case OpReserve(newCap) => Reserve(lim, grants, st, newCap)
    case OpClear => Clear(st)
    case OpSecureClear => Clear(st)
  }

  datatype Event = Event(grants: bool, op: Op)

  // The string after a run that started from st.
  function After(lim: Limits, st: Text, run: seq<Event>): Text {
    if run == [] then st
    else
      var e := run[|run| - 1];
      Step(lim, e.grants, After(lim, st, run[..|run| - 1]), e.op).after
  }

  // The codes the run's operations returned. (Nothing returns from a NullStore;
  // what is said of a run after one is of no account.)
  function Codes(lim: Limits, st: Text, run: seq<Event>): (cs: seq<Code>)
    ensures |cs| == |run|
  {
    if run == [] then []
    else
      var e := run[|run| - 1];
      Codes(lim, st, run[..|run| - 1]) + [Step(lim, e.grants, After(lim, st, run[..|run| - 1]), e.op).code]
  }

  // replace demands storage to end the new contents in.
  predicate Legal(st: Text, op: Op) {
    op.OpReplace? ==> st.cap > 0 || Cut(op.src, st.contents).Len() > 0 || op.pos + op.length > 0
  }

  ghost predicate LegalRun(lim: Limits, st: Text, run: seq<Event>) {
    forall i :: 0 <= i < |run| ==> Legal(After(lim, st, run[..i]), run[i].op)
  }

  // Taking new contents, when the string can grow to them.
  lemma BecomingIsSafe(lim: Limits, grants: bool, st: Text)
    requires st.WellFormed(lim)
    ensures forall contents: seq<byte> {:trigger Become(lim, grants, st, contents)} ::
              var o := Become(lim, grants, st, contents);
              && o.code != NullStore
              && o.after.WellFormed(lim)
              && o.after.contents == (if o.code == Ok then contents else st.contents)
              && o.after.cap == (if o.code != Ok || |contents| <= st.cap then st.cap
                                 else GrownCap(lim.maxAlloc, st.cap, |contents|))
  {}

  lemma StepIsSafe(lim: Limits, grants: bool, st: Text, op: Op)
    requires st.WellFormed(lim)
    ensures Step(lim, grants, st, op).after.WellFormed(lim)
    ensures Step(lim, grants, st, op).code != Ok ==> Step(lim, grants, st, op).after == st
    ensures Step(lim, grants, st, op).code == NullStore <==> !Legal(st, op)
  {
    hide Splice, Replaced, Become;
    BecomingIsSafe(lim, grants, st);
    match op
    case OpAppendChar(_) =>
    case OpAppend(_) =>
    case OpAppendSelf(_, _) =>
    case OpAssign(_) =>
    case OpAssignSelf(_, _) =>
    case OpInsert(_, _) =>
    case OpReplace(_, _, _) =>
    case OpReserve(_) =>
    case OpClear =>
    case OpSecureClear =>
  }

  lemma StepGrowsByTheRule(lim: Limits, grants: bool, st: Text, op: Op)
    requires st.WellFormed(lim) && !op.OpReserve?
    ensures var after := Step(lim, grants, st, op).after;
            after.cap == if |after.contents| <= st.cap then st.cap
                         else GrownCap(lim.maxAlloc, st.cap, |after.contents|)
  {
    hide Splice, Replaced, Become, GrownCap;
    BecomingIsSafe(lim, grants, st);
    match op
    case OpAppendChar(_) =>
    case OpAppend(_) =>
    case OpAppendSelf(_, _) =>
    case OpAssign(_) =>
    case OpAssignSelf(_, _) =>
    case OpInsert(_, _) =>
    case OpReplace(_, _, _) =>
    case OpClear =>
    case OpSecureClear =>
  }

  // Every reachable string is well formed, and a refused operation has changed nothing.
  lemma {:induction false} EveryRunIsSafe(lim: Limits, st: Text, run: seq<Event>)
    requires st.WellFormed(lim)
    ensures After(lim, st, run).WellFormed(lim)
    ensures forall i | 0 <= i < |run| && Codes(lim, st, run)[i] != Ok ::
              After(lim, st, run[..i + 1]) == After(lim, st, run[..i])
  {
    hide Step;
    if run != [] {
      var n := |run| - 1;
      EveryRunIsSafe(lim, st, run[..n]);
      StepIsSafe(lim, run[n].grants, After(lim, st, run[..n]), run[n].op);
      forall i | 0 <= i <= n
        ensures run[..n][..i] == run[..i]
      {}
      assert run[..n + 1] == run;
    }
  }

  // A run stores through null nowhere exactly when every replace in it is legal
  // where it stands.
  lemma {:induction false} NoNullStoreIff(lim: Limits, st: Text, run: seq<Event>)
    requires st.WellFormed(lim)
    ensures NullStore !in Codes(lim, st, run) <==> LegalRun(lim, st, run)
  {
    hide Step, Legal;
    if run != [] {
      var n := |run| - 1;
      NoNullStoreIff(lim, st, run[..n]);
      EveryRunIsSafe(lim, st, run[..n]);
      StepIsSafe(lim, run[n].grants, After(lim, st, run[..n]), run[n].op);
      LegalUpTo(lim, st, run);
    }
  }

  lemma LegalUpTo(lim: Limits, st: Text, run: seq<Event>)
    requires run != []
    ensures var n := |run| - 1;
            LegalRun(lim, st, run) <==> LegalRun(lim, st, run[..n]) && Legal(After(lim, st, run[..n]), run[n].op)
  {
    hide Legal, After;
    var n := |run| - 1;
    forall i | 0 <= i < n
      ensures run[..n][..i] == run[..i] && run[..n][i] == run[i]
    {}
    if LegalRun(lim, st, run[..n]) && Legal(After(lim, st, run[..n]), run[n].op) {
      forall i | 0 <= i < |run|
        ensures Legal(After(lim, st, run[..i]), run[i].op)
      {
        if i < n {
          assert Legal(After(lim, st, run[..n][..i]), run[..n][i].op);
        }
      }
    }
    if LegalRun(lim, st, run) {
      forall i | 0 <= i < n
        ensures Legal(After(lim, st, run[..n][..i]), run[..n][i].op)
      {
        assert Legal(After(lim, st, run[..i]), run[i].op);
      }
    }
  }

  // ---------- amortised growth ----------

  // The sizes a run goes through: what its operations asked the allocator for.
  function Sizes(lim: Limits, run: seq<Event>): (s: seq<nat>)
    ensures |s| == |run|
  {
    if run == [] then []
    else Sizes(lim, run[..|run| - 1]) + [|After(lim, EMPTY, run).contents|]
  }

  // The bytes its reallocations moved, at most: each moves the old capacity.
  function Moved(lim: Limits, run: seq<Event>): nat {
    if run == [] then 0
    else
      var before, after := After(lim, EMPTY, run[..|run| - 1]).cap, After(lim, EMPTY, run).cap;
      Moved(lim, run[..|run| - 1]) + if after == before then 0 else before
  }

  ghost predicate NeverReserves(run: seq<Event>) {
    forall e :: e in run ==> !e.op.OpReserve?
  }

  // Every change of capacity is to at least twice the old one.
  ghost predicate RunDoubles(lim: Limits, run: seq<Event>) {
    forall i :: 0 <= i < |run| ==>
      var before, after := After(lim, EMPTY, run[..i]).cap, After(lim, EMPTY, run[..i + 1]).cap;
      after == before || after >= 2 * before
  }

  // The ledger of its sizes tells the capacity after a run, and what it has moved.
  lemma {:induction false} CapacityIsLedger(lim: Limits, run: seq<Event>)
    requires NeverReserves(run)
    ensures PayAll(lim.maxAlloc, Sizes(lim, run)).cap == After(lim, EMPTY, run).cap
    ensures PayAll(lim.maxAlloc, Sizes(lim, run)).moved == Moved(lim, run)
  {
    hide Step;
    if run != [] {
      var n := |run| - 1;
      CapacityIsLedger(lim, run[..n]);
      EveryRunIsSafe(lim, EMPTY, run[..n]);
      StepGrowsByTheRule(lim, run[n].grants, After(lim, EMPTY, run[..n]), run[n].op);
      assert run[n] in run;
      assert Sizes(lim, run)[..n] == Sizes(lim, run[..n]);
    }
  }

  lemma {:induction false} SizesOfPrefix(lim: Limits, run: seq<Event>, i: nat)
    requires i <= |run|
    ensures Sizes(lim, run[..i]) == Sizes(lim, run)[..i]
  {
    if i == |run| {
      assert run[..i] == run;
    } else {
      SizesOfPrefix(lim, run[..|run| - 1], i);
      assert run[..|run| - 1][..i] == run[..i];
    }
  }

  lemma DoublingIsLedgers(lim: Limits, run: seq<Event>)
    requires NeverReserves(run)
    ensures RunDoubles(lim, run) <==> AlwaysDoubles(lim.maxAlloc, Sizes(lim, run))
  {
    hide Step;
    forall i | 0 <= i <= |run|
      ensures PayAll(lim.maxAlloc, Sizes(lim, run)[..i]).cap == After(lim, EMPTY, run[..i]).cap
    {
      SizesOfPrefix(lim, run, i);
      CapacityIsLedger(lim, run[..i]);
    }
    forall i | 0 <= i < |run|
      ensures var before, after := After(lim, EMPTY, run[..i]).cap, After(lim, EMPTY, run[..i + 1]).cap;
              DoublesAt(lim.maxAlloc, Sizes(lim, run), i) <==> after == before || after >= 2 * before
    {
      LastPayment(lim.maxAlloc, Sizes(lim, run), i);
    }
  }

  // While doubling stays under the cap, every reallocation at least doubles, and
  // all of them together move no more than the final capacity.
  lemma RunIsAmortised(lim: Limits, run: seq<Event>)
    requires NeverReserves(run) && RoomToDouble(lim.maxAlloc, Sizes(lim, run))
    ensures RunDoubles(lim, run)
    ensures Moved(lim, run) <= After(lim, EMPTY, run).cap
  {
    CapacityIsLedger(lim, run);
    DoublingIsLedgers(lim, run);
    AmortisedGrowth(lim.maxAlloc, Sizes(lim, run));
  }

  // The capacity is at most twice the largest size so far (or 32), always.
  lemma RunStaysWithinTwicePeak(lim: Limits, run: seq<Event>, peak: nat)
    requires NeverReserves(run) && UpTo(Sizes(lim, run), peak)
    ensures After(lim, EMPTY, run).cap <= Max(32, 2 * peak)
  {
    CapacityIsLedger(lim, run);
    CapWithinTwicePeak(lim.maxAlloc, Sizes(lim, run));
    PeakWithin(lim.maxAlloc, Sizes(lim, run), peak);
  }

  // A run through the given sizes.
  function Assigns(sizes: seq<nat>): (run: seq<Event>)
    ensures |run| == |sizes|
  {
    seq(|sizes|, i requires 0 <= i < |sizes| => Event(true, OpAssign(Some(Fill(sizes[i], 0)))))
  }

  // No reallocation is refused because doubling lands on the cap.
  ghost predicate MissesTheCap(maxAlloc: nat, needs: seq<nat>) {
    forall i :: 0 <= i < |needs| ==> Doubled(PayAll(maxAlloc, needs[..i]).cap) != maxAlloc
  }

  lemma {:induction false} SizesOfAssigns(lim: Limits, sizes: seq<nat>)
    requires UpTo(sizes, lim.maxAlloc - 1) && MissesTheCap(lim.maxAlloc, sizes)
    ensures NeverReserves(Assigns(sizes))
    ensures Sizes(lim, Assigns(sizes)) == sizes
  {
    if sizes != [] {
      var n := |sizes| - 1;
      var run := Assigns(sizes);
      hide Step;
      PrefixesOfPrefix(sizes);
      assert run[..n] == Assigns(sizes[..n]);
      SizesOfAssigns(lim, sizes[..n]);
      CapacityIsLedger(lim, run[..n]);
      EveryRunIsSafe(lim, EMPTY, run[..n]);
      assert run[n] == Event(true, OpAssign(Some(Fill(sizes[n], 0))));
      AssignTakes(lim, After(lim, EMPTY, run[..n]), sizes[n]);
    }
  }

  lemma AssignTakes(lim: Limits, st: Text, n: nat)
    requires n < lim.maxAlloc && Doubled(st.cap) != lim.maxAlloc
    ensures |Step(lim, true, st, OpAssign(Some(Fill(n, 0)))).after.contents| == n
  {}

  lemma SizesWithinCap(lim: Limits, run: seq<Event>)
    ensures UpTo(Sizes(lim, run), lim.maxAlloc - 1)
  {
    if run != [] {
      SizesWithinCap(lim, run[..|run| - 1]);
      EveryRunIsSafe(lim, EMPTY, run);
    }
  }

  lemma SpendthriftRun(lim: Limits) returns (run: seq<Event>)
    requires lim.maxAlloc - 1 > AmortisedPeak(lim.maxAlloc)
    ensures NeverReserves(run) && UpTo(Sizes(lim, run), AmortisedPeak(lim.maxAlloc) + 1)
    ensures Moved(lim, run) > After(lim, EMPTY, run).cap
  {
    var sizes := Spendthrift(lim.maxAlloc);
    assert MissesTheCap(lim.maxAlloc, sizes) by {
      LastPayment(lim.maxAlloc, sizes, 0);
      LastPayment(lim.maxAlloc, sizes, 1);
    }
    hide Spendthrift, Assigns;
    run := Assigns(sizes);
    SpendthriftMovesMore(lim.maxAlloc);
    SizesOfAssigns(lim, sizes);
    CapacityIsLedger(lim, run);
  }

  lemma SolventRun(lim: Limits, run: seq<Event>)
    requires NeverReserves(run) && UpTo(Sizes(lim, run), AmortisedPeak(lim.maxAlloc))
    ensures Moved(lim, run) <= After(lim, EMPTY, run).cap
  {
    CapacityIsLedger(lim, run);
    StaysSolvent(lim.maxAlloc, Sizes(lim, run));
  }

  // For every cap, and every bound on the sizes of a run without explicit
  // reserve: all runs within the bound move no more than their final capacity,
  // exactly when the bound is at most AmortisedPeak (or no size can exceed it).
  lemma RunsAreAmortisedIff(lim: Limits, peak: nat)
    ensures (forall run :: NeverReserves(run) && UpTo(Sizes(lim, run), peak) ==>
               Moved(lim, run) <= After(lim, EMPTY, run).cap)
            <==> Min(peak, lim.maxAlloc - 1) <= AmortisedPeak(lim.maxAlloc)
  {
    hide AmortisedPeak, Sizes, Moved, After;
    if Min(peak, lim.maxAlloc - 1) <= AmortisedPeak(lim.maxAlloc) {
      forall run | NeverReserves(run) && UpTo(Sizes(lim, run), peak)
        ensures Moved(lim, run) <= After(lim, EMPTY, run).cap
      {
        SizesWithinCap(lim, run);
        SolventRun(lim, run);
      }
    } else {
      var run := SpendthriftRun(lim);
      assert UpTo(Sizes(lim, run), peak);
    }
  }

  lemma CreepingRun(lim: Limits) returns (run: seq<Event>)
    requires lim.maxAlloc - 1 > DoublingPeak(lim.maxAlloc)
    ensures NeverReserves(run) && UpTo(Sizes(lim, run), DoublingPeak(lim.maxAlloc) + 1)
    ensures !RunDoubles(lim, run)
  {
    var sizes := Creeping(lim.maxAlloc);
    assert MissesTheCap(lim.maxAlloc, sizes) by {
      LastPayment(lim.maxAlloc, sizes, 0);
    }
    hide Creeping, Assigns, DoublingPeak, RunDoubles;
    run := Assigns(sizes);
    CreepingDoesNotDouble(lim.maxAlloc);
    SizesOfAssigns(lim, sizes);
    DoublingIsLedgers(lim, run);
  }

  // And every reallocation at least doubles, exactly when it is at most DoublingPeak.
  lemma RunsDoubleIff(lim: Limits, peak: nat)
    ensures (forall run :: NeverReserves(run) && UpTo(Sizes(lim, run), peak) ==> RunDoubles(lim, run))
            <==> Min(peak, lim.maxAlloc - 1) <= DoublingPeak(lim.maxAlloc)
  {
    hide DoublingPeak, Sizes, RunDoubles;
    if Min(peak, lim.maxAlloc - 1) <= DoublingPeak(lim.maxAlloc) {
      forall run | NeverReserves(run) && UpTo(Sizes(lim, run), peak)
        ensures RunDoubles(lim, run)
      {
        DoublingIsLedgers(lim, run);
        SizesWithinCap(lim, run);
        SmallSizesDouble(lim.maxAlloc, Sizes(lim, run));
      }
    } else {
      var run := CreepingRun(lim);
      assert UpTo(Sizes(lim, run), peak);
    }
  }

  // ---------- appending one character at a time ----------

  function PushAll(lim: Limits, cs: seq<byte>): Text {
    if cs == [] then EMPTY
    else
      Append(lim, true, PushAll(lim, cs[..|cs| - 1]), Some([cs[|cs| - 1]])).after
  }

  // 0 or 32 * 2^j with j <= k.
  ghost predicate Rung(cap: nat, k: nat) {
    cap == 0 || exists j: nat :: j <= k && cap == 32 * Pow2(j)
  }

  lemma NextRung(cap: nat, k: nat)
    requires Rung(cap, k) && cap != 32 * Pow2(k)
    ensures Rung(Doubled(cap), k) && Doubled(cap) <= 32 * Pow2(k)
  {
    if cap == 0 {
      assert Doubled(cap) == 32 * Pow2(0);
      Pow2Monotone(0, k);
    } else {
      var j: nat :| j <= k && cap == 32 * Pow2(j);
      Pow2Monotone(0, j);
      Pow2Monotone(j + 1, k);
      assert Doubled(cap) == 32 * Pow2(j + 1);
    }
  }

  // When the cap is 64 * 2^k bytes, pushing characters only ever takes the
  // capacities 0 and 32 * 2^j, and stops for good at half the cap: the last
  // doubling would hit the cap exactly, and the terminator no longer fits.
  lemma {:induction false} PushingSaturatesAtHalfTheCap(lim: Limits, k: nat, cs: seq<byte>)
    requires lim.maxAlloc == 64 * Pow2(k)
    ensures var half := 32 * Pow2(k);
            && Rung(PushAll(lim, cs).cap, k)
            && PushAll(lim, cs).cap <= half
            && PushAll(lim, cs).contents == cs[..Min(|cs|, half)]
            && |PushAll(lim, cs).contents| <= PushAll(lim, cs).cap
  {
    var half := 32 * Pow2(k);
    Pow2Monotone(0, k);
    if cs == [] {
      assert PushAll(lim, cs) == EMPTY;
    } else {
      var n := |cs| - 1;
      PushingSaturatesAtHalfTheCap(lim, k, cs[..n]);
      var st := PushAll(lim, cs[..n]);
      if n < half {
        assert st.contents == cs[..n];
        if st.cap == n {
          NextRung(st.cap, k);
        }
        assert cs[..n] + [cs[n]] == cs[..n + 1];
      } else {
        assert st.cap == half && Doubled(half) == lim.maxAlloc;
        assert cs[..n][..half] == cs[..half];
      }
    }
  }

  // The default cap of 2^30 bytes: exactly 2^29 characters.
  lemma DefaultCapHoldsHalfAGibi(lim: Limits, cs: seq<byte>)
    requires lim.maxAlloc == 0x4000_0000
    ensures |PushAll(lim, cs).contents| == Min(|cs|, 0x2000_0000)
  {
    assert Pow2(3) == 8;
    Pow2Adds(3, 3);
    Pow2Adds(6, 6);
    Pow2Adds(12, 12);
    PushingSaturatesAtHalfTheCap(lim, 24, cs);
  }
}
