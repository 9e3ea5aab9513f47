// Capacity growth, shared by buffer.cpp and string.cpp, and its amortised cost.
module Growth {
  import opened Base
  import opened CheckedMath

  const MIN_GROWTH: nat := 16

  // next_capacity: double, unless that overflows, is too little, or breaks the cap.
  function NextCapacity(lim: Limits, current: nat, needed: nat): nat {
    var grown := if current < MIN_GROWTH then MIN_GROWTH else current;
    var doubled := CheckedMul(lim, grown, 2);
    if doubled.Some? && doubled.value >= needed && doubled.value <= lim.maxAlloc then
      doubled.value
    else
      needed
  }

  function Doubled(cap: nat): nat {
    2 * Max(cap, MIN_GROWTH)
  }

  // The capacity growth settles on, in unbounded arithmetic.
  function GrownCap(maxAlloc: nat, cap: nat, needed: nat): nat {
    if needed <= Doubled(cap) <= maxAlloc then Doubled(cap) else needed
  }

  lemma NextCapacityExact(lim: Limits, cap: nat, needed: nat)
    ensures NextCapacity(lim, cap, needed) == GrownCap(lim.maxAlloc, cap, needed)
  {}

  // Outcome of a request: the code and the capacity afterwards.
  datatype Grown = Grown(code: Code, cap: nat)

  // buffer: growth fails exactly when needed > maxAlloc or memory runs out.
  function BufferGrowth(lim: Limits, grants: bool, cap: nat, needed: nat): Grown {
    if needed <= cap then Grown(Ok, cap)
    else if needed > lim.maxAlloc then Grown(CapacityExceeded, cap)
    else if !grants then Grown(OutOfMemory, cap)
    else Grown(Ok, GrownCap(lim.maxAlloc, cap, needed))
  }

  // string: the terminator costs one byte, so growth also fails when the
  // doubled capacity is exactly the cap, even if needed would have fitted.
  function StringGrowth(lim: Limits, grants: bool, cap: nat, needed: nat): Grown {
    if needed <= cap then Grown(Ok, cap)
    else if needed >= lim.maxAlloc || Doubled(cap) == lim.maxAlloc then
      Grown(if GrownCap(lim.maxAlloc, cap, needed) >= lim.sizeMax then Overflow else CapacityExceeded, cap)
    else if !grants then Grown(OutOfMemory, cap)
    else Grown(Ok, GrownCap(lim.maxAlloc, cap, needed))
  }

  // ---------- amortised cost over a run ----------

  // A run of growing operations seen by the allocator: the sizes they needed,
  // and how much the reallocations moved (each moves at most the old capacity).
  datatype Ledger = Ledger(cap: nat, moved: nat, peak: nat)

  function Pay(maxAlloc: nat, l: Ledger, needed: nat): Ledger {
    if needed <= l.cap then
      l.(peak := Max(l.peak, needed))
    else
      Ledger(GrownCap(maxAlloc, l.cap, needed), l.moved + l.cap, Max(l.peak, needed))
  }

  function PayAll(maxAlloc: nat, needs: seq<nat>): Ledger {
    if needs == [] then Ledger(0, 0, 0)
    else Pay(maxAlloc, PayAll(maxAlloc, needs[..|needs| - 1]), needs[|needs| - 1])
  }

  // Reallocation i of the run at least doubles the capacity.
  ghost predicate DoublesAt(maxAlloc: nat, needs: seq<nat>, i: nat)
    requires i < |needs|
  {
    var before, after := PayAll(maxAlloc, needs[..i]), PayAll(maxAlloc, needs[..i + 1]);
    needs[i] > before.cap ==> after.cap >= 2 * before.cap
  }

  ghost predicate AlwaysDoubles(maxAlloc: nat, needs: seq<nat>) {
    forall i :: 0 <= i < |needs| ==> DoublesAt(maxAlloc, needs, i)
  }

  // All reallocations together move no more bytes than the final capacity.
  ghost predicate Amortised(maxAlloc: nat, needs: seq<nat>) {
    PayAll(maxAlloc, needs).moved <= PayAll(maxAlloc, needs).cap
  }

  ghost predicate UpTo(needs: seq<nat>, peak: nat) {
    forall i :: 0 <= i < |needs| ==> needs[i] <= peak
  }

  // At every reallocation of the run, doubling stays under the cap.
  ghost predicate RoomToDouble(maxAlloc: nat, needs: seq<nat>) {
    forall i :: 0 <= i < |needs| && needs[i] > PayAll(maxAlloc, needs[..i]).cap ==>
      Doubled(PayAll(maxAlloc, needs[..i]).cap) <= maxAlloc
  }

  lemma PrefixesOfPrefix(needs: seq<nat>)
    requires needs != []
    ensures var before := needs[..|needs| - 1];
            && (forall i :: 0 <= i < |needs| ==> needs[..i] == before[..i])
            && needs[..|needs|] == needs
  {}

  // No run leaves more capacity than twice its largest size (or 32).
  lemma {:induction false} CapWithinTwicePeak(maxAlloc: nat, needs: seq<nat>)
    ensures PayAll(maxAlloc, needs).cap <= Max(32, 2 * PayAll(maxAlloc, needs).peak)
  {
    if needs != [] {
      CapWithinTwicePeak(maxAlloc, needs[..|needs| - 1]);
    }
  }

  lemma {:induction false} PeakWithin(maxAlloc: nat, needs: seq<nat>, peak: nat)
    requires UpTo(needs, peak)
    ensures PayAll(maxAlloc, needs).peak <= peak
  {
    if needs != [] {
      PeakWithin(maxAlloc, needs[..|needs| - 1], peak);
    }
  }

  lemma LastPayment(maxAlloc: nat, needs: seq<nat>, i: nat)
    requires i < |needs|
    ensures PayAll(maxAlloc, needs[..i + 1]) == Pay(maxAlloc, PayAll(maxAlloc, needs[..i]), needs[i])
  {
    assert needs[..i + 1][..i] == needs[..i];
  }

  // While doubling fits the cap, every reallocation at least doubles, and so
  // all of them together move no more than the final capacity.
  lemma {:induction false} AmortisedGrowth(maxAlloc: nat, needs: seq<nat>)
    requires RoomToDouble(maxAlloc, needs)
    ensures Amortised(maxAlloc, needs)
    ensures AlwaysDoubles(maxAlloc, needs)
  {
    if needs != [] {
      var n := |needs| - 1;
      var before := needs[..n];
      PrefixesOfPrefix(needs);
      AmortisedGrowth(maxAlloc, before);
      forall i | 0 <= i <= n
        ensures DoublesAt(maxAlloc, needs, i)
      {
        assert i < n ==> DoublesAt(maxAlloc, before, i);
      }
    }
  }

  // ---------- up to which size growth is amortised ----------

  // The largest size that no run can reach by a reallocation that less than doubles.
  function DoublingPeak(maxAlloc: nat): nat {
    if maxAlloc < 32 then 2
    else if maxAlloc < 64 then 32
    else maxAlloc / 2 + 1
  }

  // Past that size one reallocation may be paid for by the doublings before it.
  function AmortisedPeak(maxAlloc: nat): nat {
    if maxAlloc < 32 then 3
    else if maxAlloc < 64 then 33
    else if maxAlloc < 126 then maxAlloc / 2 + 2
    else maxAlloc / 2 + 1
  }

  // What holds after every run of sizes up to AmortisedPeak.
  predicate Solvent(maxAlloc: nat, l: Ledger) {
    && l.moved <= l.cap
    && (maxAlloc < 32 ==> l.cap <= 3 && (l.cap < 3 ==> l.moved < 2) && (l.cap < 2 ==> l.moved == 0))
    && (32 <= maxAlloc < 64 ==> l.cap <= 32 ==> l.moved == 0)
    && (32 <= maxAlloc ==> l.cap == 0 || 32 <= l.cap)
    && (64 <= maxAlloc < 126 ==> l.cap == maxAlloc / 2 + 1 ==> l.moved == 0)
  }

  lemma {:induction false} StaysSolvent(maxAlloc: nat, needs: seq<nat>)
    requires UpTo(needs, AmortisedPeak(maxAlloc))
    ensures Solvent(maxAlloc, PayAll(maxAlloc, needs))
  {
    if needs != [] {
      StaysSolvent(maxAlloc, needs[..|needs| - 1]);
    }
  }

  // A run of sizes one past AmortisedPeak, or less, that moves more than it keeps.
  function Spendthrift(maxAlloc: nat): seq<nat> {
    if maxAlloc < 32 then [2, 3, 4]
    else if maxAlloc < 64 then [1, 33, 34]
    else if maxAlloc < 126 then [maxAlloc / 2 + 1, maxAlloc / 2 + 2, maxAlloc / 2 + 3]
    else [1, maxAlloc / 2 + 1, maxAlloc / 2 + 2]
  }

  lemma ThreePayments(maxAlloc: nat, a: nat, b: nat, c: nat)
    ensures PayAll(maxAlloc, [a, b, c])
            == Pay(maxAlloc, Pay(maxAlloc, Pay(maxAlloc, Ledger(0, 0, 0), a), b), c)
  {
    assert [a, b, c][..2] == [a, b] && [a, b][..1] == [a] && [a][..0] == [];
    assert PayAll(maxAlloc, [a]) == Pay(maxAlloc, Ledger(0, 0, 0), a);
    assert PayAll(maxAlloc, [a, b]) == Pay(maxAlloc, PayAll(maxAlloc, [a]), b);
  }

  lemma SpendthriftMovesMore(maxAlloc: nat)
    ensures !Amortised(maxAlloc, Spendthrift(maxAlloc))
    ensures UpTo(Spendthrift(maxAlloc), AmortisedPeak(maxAlloc) + 1)
  {
    var run := Spendthrift(maxAlloc);
    ThreePayments(maxAlloc, run[0], run[1], run[2]);
    assert run == [run[0], run[1], run[2]];
  }

  // For every cap and every bound on the sizes: all runs within the bound move
  // no more than they keep, exactly when the bound is at most AmortisedPeak.
  lemma AmortisedIff(maxAlloc: nat, peak: nat)
    ensures (forall needs :: UpTo(needs, peak) ==> Amortised(maxAlloc, needs))
            <==> peak <= AmortisedPeak(maxAlloc)
  {
    if peak <= AmortisedPeak(maxAlloc) {
      forall needs | UpTo(needs, peak)
        ensures Amortised(maxAlloc, needs)
      {
        StaysSolvent(maxAlloc, needs);
      }
    } else {
      SpendthriftMovesMore(maxAlloc);
      assert UpTo(Spendthrift(maxAlloc), peak);
    }
  }

  lemma {:induction false} SmallSizesDouble(maxAlloc: nat, needs: seq<nat>)
    requires UpTo(needs, DoublingPeak(maxAlloc))
    ensures AlwaysDoubles(maxAlloc, needs)
    ensures PayAll(maxAlloc, needs).cap == 0 || maxAlloc < 32 || 32 <= PayAll(maxAlloc, needs).cap
  {
    if needs != [] {
      var n := |needs| - 1;
      var before := needs[..n];
      PrefixesOfPrefix(needs);
      SmallSizesDouble(maxAlloc, before);
      forall i | 0 <= i <= n
        ensures DoublesAt(maxAlloc, needs, i)
      {
        assert i < n ==> DoublesAt(maxAlloc, before, i);
      }
    }
  }

  // Two sizes past DoublingPeak - 1, the second by a reallocation that adds one byte.
  function Creeping(maxAlloc: nat): seq<nat> {
    [DoublingPeak(maxAlloc), DoublingPeak(maxAlloc) + 1]
  }

  lemma CreepingDoesNotDouble(maxAlloc: nat)
    ensures !AlwaysDoubles(maxAlloc, Creeping(maxAlloc))
  {
    var p := DoublingPeak(maxAlloc);
    assert [p, p + 1][..2] == [p, p + 1] && [p, p + 1][..1] == [p] && [p][..0] == [];
    assert PayAll(maxAlloc, [p]) == Pay(maxAlloc, Ledger(0, 0, 0), p);
    assert PayAll(maxAlloc, [p, p + 1]) == Pay(maxAlloc, PayAll(maxAlloc, [p]), p + 1);
    assert !DoublesAt(maxAlloc, [p, p + 1], 1);
  }

  // And every reallocation at least doubles, exactly when it is at most DoublingPeak.
  lemma DoublesIff(maxAlloc: nat, peak: nat)
    ensures (forall needs :: UpTo(needs, peak) ==> AlwaysDoubles(maxAlloc, needs))
            <==> peak <= DoublingPeak(maxAlloc)
  {
    if peak <= DoublingPeak(maxAlloc) {
      forall needs | UpTo(needs, peak)
        ensures AlwaysDoubles(maxAlloc, needs)
      {
        SmallSizesDouble(maxAlloc, needs);
      }
    } else {
      CreepingDoesNotDouble(maxAlloc);
      assert UpTo(Creeping(maxAlloc), peak);
    }
  }
}
