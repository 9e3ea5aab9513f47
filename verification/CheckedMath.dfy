// checked_math.h: size_t arithmetic that refuses to wrap, and checked_cast at
// every width and signedness.
module CheckedMath {
  import opened Base

  // checked_add: the guard is phrased so that it cannot itself wrap.
  function CheckedAdd(lim: Limits, a: nat, b: nat): (r: Option<nat>)
    ensures r.Some? <==> a + b <= lim.sizeMax
    ensures r.Some? ==> r.value == a + b
  {
    if a > lim.sizeMax - b then None else Some(a + b)
  }

  function CheckedSub(a: nat, b: nat): (r: Option<nat>)
    ensures r.Some? <==> b <= a
    ensures r.Some? ==> r.value == a - b
  {
    if b > a then None else Some(a - b)
  }

  // checked_sub undoes checked_add, and checked_add undoes checked_sub.
  lemma AddAndSubAreInverse(lim: Limits, a: nat, b: nat, c: nat)
    requires a <= lim.sizeMax && b <= lim.sizeMax && c <= lim.sizeMax
    ensures CheckedAdd(lim, a, b) == Some(c) <==> CheckedSub(c, b) == Some(a)
  {}

  // checked_mul: divides instead of multiplying to find out.
  function CheckedMul(lim: Limits, a: nat, b: nat): (r: Option<nat>)
    ensures r.Some? <==> a * b <= lim.sizeMax
    ensures r.Some? ==> r.value == a * b
  {
    if a == 0 || b == 0 then
      Some(0)
    else if a > lim.sizeMax / b then
      MulOverflows(lim.sizeMax, a, b); None
    else
      MulFits(lim.sizeMax, a, b); Some(a * b)
  }

  lemma MulFits(max: nat, a: nat, b: nat)
    requires b > 0 && a <= max / b
    ensures a * b <= max
  {
    assert max == (max / b) * b + max % b;
    assert (max / b - a) * b >= 0;
  }

  lemma MulOverflows(max: nat, a: nat, b: nat)
    requires b > 0 && a > max / b
    ensures a * b > max
  {
    assert max == (max / b) * b + max % b;
    assert (a - max / b - 1) * b >= 0;
  }

  // range_in_bounds: a sum that wraps is out of bounds.
  predicate RangeInBounds(lim: Limits, offset: nat, length: nat, size: nat) {
    var end := CheckedAdd(lim, offset, length);
    end.Some? && end.value <= size
  }

  // What an operation answers when range_in_bounds has said no.
  function RangeError(lim: Limits, offset: nat, length: nat): Code {
    var end := CheckedAdd(lim, offset, length);
    if end.None? then Overflow else OutOfRange
  }

  // The subtractive test used by span::subspan and by reader.
  predicate SubtractiveInBounds(offset: nat, count: nat, size: nat) {
    !(offset > size) && !(count > size - offset)
  }

  // For all machine integers both tests decide offset + length <= size.
  lemma BoundsTestsAgree(lim: Limits, offset: nat, length: nat, size: nat)
    requires offset <= lim.sizeMax && length <= lim.sizeMax && size <= lim.sizeMax
    ensures RangeInBounds(lim, offset, length, size) <==> offset + length <= size
    ensures SubtractiveInBounds(offset, length, size) <==> offset + length <= size
  {}

  // ---------- checked_cast ----------

  function Pow2(n: nat): (p: nat)
    ensures p > 0
  {
    if n == 0 then 1 else 2 * Pow2(n - 1)
  }

  datatype IntType = IntType(bits: nat, signed: bool) {
    predicate Valid() {
      bits > 0
    }

    function MinValue(): int
      requires Valid()
    {
      if signed then 0 - Pow2(bits - 1) else 0
    }

    function MaxValue(): int
      requires Valid()
    {
      if signed then Pow2(bits - 1) - 1 else Pow2(bits) - 1
    }

    predicate Holds(v: int)
      requires Valid()
    {
      MinValue() <= v <= MaxValue()
    }

    // static_cast to this type: reduction modulo 2^bits into its range.
    function Convert(v: int): int
      requires Valid()
    {
      var m := v % Pow2(bits);
      if signed && m >= Pow2(bits - 1) then m - Pow2(bits) else m
    }

    function Unsigned(): IntType {
      IntType(bits, false)
    }
  }

  // checked_cast<Dst>(Src v), branch by branch.
  function CheckedCast(src: IntType, dst: IntType, v: int): Option<int>
    requires src.Valid() && dst.Valid()
  {
    if src.signed == dst.signed then
      if v < src.Convert(dst.MinValue()) then None
      else if v > src.Convert(dst.MaxValue()) then None
      else Some(dst.Convert(v))
    else if src.signed && !dst.signed then
      if v < 0 then None
      else if src.Unsigned().Convert(v) > src.Unsigned().Convert(dst.MaxValue()) then None
      else Some(dst.Convert(v))
    else
      if v > src.Convert(dst.MaxValue()) then None
      else Some(dst.Convert(v))
  }

  predicate WidensSigned(src: IntType, dst: IntType) {
    src.signed && dst.signed && src.bits < dst.bits
  }

  // checked_cast in full: signed to strictly wider signed refuses everything;
  // every other pair returns the value itself exactly when it is representable.
  lemma CheckedCastExact(src: IntType, dst: IntType, v: int)
    requires src.Valid() && dst.Valid() && src.Holds(v)
    ensures CheckedCast(src, dst, v) ==
            if !WidensSigned(src, dst) && dst.Holds(v) then Some(v) else None
  {
    if dst.Holds(v) {
      ConvertsRepresentable(dst, v);
    }
    if src.signed && dst.signed {
      SignedBounds(src, dst);
      if src.bits <= dst.bits { Pow2Monotone(src.bits, dst.bits); }
    } else if src.signed {
      if v >= 0 {
        Pow2Halves(src.bits);
        ConvertsRepresentable(src.Unsigned(), v);
        UnsignedBound(src.Unsigned(), dst, v);
      }
    } else {
      UnsignedBound(src, dst, v);
    }
  }

  // dst's upper bound, reduced into an unsigned type, still cuts that type's
  // values exactly where dst ends; a lower bound of 0 reduces to 0.
  lemma UnsignedBound(src: IntType, dst: IntType, v: int)
    requires src.Valid() && dst.Valid() && !src.signed && src.Holds(v)
    ensures v <= src.Convert(dst.MaxValue()) <==> v <= dst.MaxValue()
    ensures src.Convert(0) == 0
  {
    var k := if dst.signed then dst.bits - 1 else dst.bits;
    MaskModPow2(k, src.bits);
    if src.bits <= k {
      Pow2Monotone(src.bits, k);
    }
    ConvertsRepresentable(src, 0);
  }

  // A cast is lossless in general precisely when it does not widen a signed type.
  lemma CheckedCastCompleteIff(src: IntType, dst: IntType)
    requires src.Valid() && dst.Valid()
    ensures (forall v :: src.Holds(v) && dst.Holds(v) ==> CheckedCast(src, dst, v) == Some(v))
            <==> !WidensSigned(src, dst)
  {
    forall v | src.Holds(v)
      ensures CheckedCast(src, dst, v) ==
              if !WidensSigned(src, dst) && dst.Holds(v) then Some(v) else None
    {
      CheckedCastExact(src, dst, v);
    }
    assert src.Holds(0) && dst.Holds(0);
  }

  lemma ConvertsRepresentable(t: IntType, v: int)
    requires t.Valid() && t.Holds(v)
    ensures t.Convert(v) == v
  {
    Pow2Halves(t.bits);
    if v < 0 {
      ModUnique(v, Pow2(t.bits), -1, v + Pow2(t.bits));
    } else {
      ModUnique(v, Pow2(t.bits), 0, v);
    }
  }

  // What dst's bounds become inside src: exact when src is at least as wide,
  // 0 and -1 when it is narrower.
  lemma SignedBounds(src: IntType, dst: IntType)
    requires src.Valid() && dst.Valid() && src.signed && dst.signed
    ensures src.bits < dst.bits ==>
              src.Convert(dst.MinValue()) == 0 && src.Convert(dst.MaxValue()) == -1
    ensures src.bits >= dst.bits ==>
              src.Convert(dst.MinValue()) == dst.MinValue() && src.Convert(dst.MaxValue()) == dst.MaxValue()
  {
    Pow2Halves(src.bits);
    if src.bits < dst.bits {
      WrappedBounds(src, dst);
    } else {
      Pow2Monotone(dst.bits - 1, src.bits - 1);
      ConvertsRepresentable(src, dst.MinValue());
      ConvertsRepresentable(src, dst.MaxValue());
    }
  }

  lemma WrappedBounds(src: IntType, dst: IntType)
    requires src.Valid() && WidensSigned(src, dst)
    ensures src.Convert(dst.MinValue()) == 0 && src.Convert(dst.MaxValue()) == -1
  {
    var p: int, q: int := Pow2(src.bits), Pow2(dst.bits - 1 - src.bits);
    Pow2Adds(dst.bits - 1 - src.bits, src.bits);
    Pow2Halves(src.bits);
    assert (0 - q) * p == 0 - q * p && (q - 1) * p == q * p - p;
    ModUnique(dst.MinValue(), p, 0 - q, 0);
    ModUnique(dst.MaxValue(), p, q - 1, p - 1);
  }

  lemma Pow2Halves(n: nat)
    requires n > 0
    ensures Pow2(n) == 2 * Pow2(n - 1)
  {}

  lemma {:induction false} Pow2Adds(a: nat, b: nat)
    ensures Pow2(a + b) == Pow2(a) * Pow2(b)
  {
    if a > 0 {
      Pow2Adds(a - 1, b);
    }
  }

  lemma {:induction false} Pow2Monotone(a: nat, b: nat)
    requires a <= b
    ensures Pow2(a) <= Pow2(b)
  {
    if a < b {
      Pow2Monotone(a, b - 1);
    }
  }

  lemma MulAtLeast(a: int, m: nat)
    requires a >= 1
    ensures a * m >= m
  {
    assert (a - 1) * m >= 0;
  }

  lemma ModUnique(v: int, m: nat, q: int, r: int)
    requires m > 0 && v == q * m + r && 0 <= r < m
    ensures v % m == r && v / m == q
  {
    var q', r' := v / m, v % m;
    assert (q - q') * m == r' - r;
    if q > q' {
      MulAtLeast(q - q', m);
    } else if q < q' {
      MulAtLeast(q' - q, m);
    }
  }

  // 2^a - 1 modulo 2^b keeps the low min(a, b) one bits.
  lemma MaskModPow2(a: nat, b: nat)
    ensures (Pow2(a) - 1) % Pow2(b) == Pow2(Min(a, b)) - 1
  {
    if a < b {
      Pow2Monotone(a, b);
      ModUnique(Pow2(a) - 1, Pow2(b), 0, Pow2(a) - 1);
    } else {
      Pow2Adds(a - b, b);
      ModUnique(Pow2(a) - 1, Pow2(b), Pow2(a - b) - 1, Pow2(b) - 1);
    }
  }
}
