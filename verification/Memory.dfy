// A C heap. A block is an array; a pointer is a block and an offset into it.
// Every block has an integer address, and live blocks do not overlap. The code
// that is modelled reads and writes memory only through Load, LoadBytes, Store,
// Memmove, Memset and SecureZero, and each of them demands a live block.
module Memory {
  import opened Base

  datatype Ptr = Null | At(block: array<byte>, off: nat) {

    ghost predicate Covers(n: nat) {
      At? && off + n <= block.Length
    }

    // The n bytes the pointer points at.
    ghost function Bytes(n: nat): (bs: seq<byte>)
      requires Covers(n)
      reads if At? then {block} else {}
      ensures |bs| == n
    {
      block[off..off + n]
    }

    // Byte i is the one i places behind the pointer.
    lemma BytesMean(n: nat, i: nat)
      requires Covers(n) && i < n
      ensures Bytes(n)[i] == block[off + i]
    {}
  }

  // The block a possibly-null owning pointer stands for.
  function Opt(b: array?<byte>): set<array<byte>> {
    if b == null then {} else {b}
  }

  predicate Apart(a: nat, n: nat, b: nat, m: nat) {
    a + n <= b || b + m <= a
  }

  class Heap {
    const limits: Limits

    // Blocks returned by malloc or realloc and not yet freed.
    var owned: set<array<byte>>

    // Live storage the library does not own: stack arrays, literals, caller data.
    var borrowed: set<array<byte>>

    // uintptr_t value of every block that ever existed, dead ones included.
    var address: map<array<byte>, nat>

    // Whether the allocator grants the next request.
    var grants: bool

    ghost function Live(): set<array<byte>>
      reads this
    {
      owned + borrowed
    }

    ghost predicate Valid()
      reads this
    {
      && owned !! borrowed
      && Live() <= address.Keys
      && (forall b :: b in address ==> 0 < address[b])
      && (forall b, c {:trigger Apart(address[b], b.Length, address[c], c.Length)} ::
            b in Live() && c in Live() && b != c ==>
              Apart(address[b], b.Length, address[c], c.Length))
    }

    constructor (limits: Limits)
      ensures Valid() && this.limits == limits
      ensures owned == {} && borrowed == {} && grants
    {
      this.limits := limits;
      owned, borrowed, address, grants := {}, {}, map[], true;
    }

    // The pointer is null or points into a block that exists or once existed.
    ghost predicate Known(p: Ptr)
      reads this
    {
      p.At? ==> p.block in address
    }

    // n bytes may be read through p.
    ghost predicate Readable(p: Ptr, n: nat)
      reads this
    {
      p.Covers(n) && p.block in Live()
    }

    function Address(p: Ptr): nat
      requires Known(p)
      reads this
    {
      match p
      case Null => 0
      case At(b, off) => address[b] + off
    }

    // pointer_in_range: an integer comparison, so it never looks at blocks.
    predicate PointerInRange(p: Ptr, base: array?<byte>, len: nat)
      requires Known(p) && (base == null || base in address)
      reads this
    {
      if base == null || len == 0 then
        false
      else
        var pp := Address(p);
        var bb := address[base];
        bb <= pp && pp < bb + len
    }

    // The integer comparison decides aliasing, for every pointer to a live
    // byte: it holds exactly when the pointer is into that part of that block.
    lemma PointerInRangeDecidesAliasing(p: Ptr, base: array?<byte>, len: nat)
      requires Valid()
      requires Readable(p, 1)
      requires base != null ==> base in Live() && len <= base.Length
      ensures PointerInRange(p, base, len) <==> base != null && p.block == base && p.off < len
      ensures PointerInRange(p, base, len) ==> Address(p) - address[base] == p.off
    {
      if base != null && p.block != base {
        assert Apart(address[base], base.Length, address[p.block], p.block.Length);
      }
    }

    // The alias snapshot taken before growth: the offset of p inside the first
    // len bytes of base, by pointer subtraction, if the comparison puts it there.
    method AliasOffset(p: Ptr, base: array?<byte>, len: nat) returns (off: Option<nat>)
      requires Valid() && Known(p)
      requires base != null ==> base in Live() && len <= base.Length
      ensures off.Some? ==> base != null
      ensures Readable(p, 1) ==> off == if p.block == base && p.off < len then Some(p.off) else None
    {
      if Readable(p, 1) {
        PointerInRangeDecidesAliasing(p, base, len);
      }
      off := if PointerInRange(p, base, len) then Some(Address(p) - Address(At(base, 0))) else None;
    }

    // b[i], read.
    function Load(b: array<byte>, i: nat): byte
      requires b in Live() && i < b.Length
      reads this, b
    {
      b[i]
    }

    // n bytes at p, read by a caller.
    function LoadBytes(p: Ptr, n: nat): (bs: seq<byte>)
      requires Readable(p, n)
      reads this, if p.At? then {p.block} else {}
      ensures bs == p.Bytes(n)
    {
      p.block[p.off..p.off + n]
    }

    // b[i], written.
    method Store(b: array<byte>, i: nat, v: byte)
      requires b in Live() && i < b.Length
      modifies b
      ensures forall j {:trigger b[j]} :: 0 <= j < b.Length ==> b[j] == if j == i then v else old(b[j])
    {
      b[i] := v;
    }

    // memmove (ISO C11 7.24.2.2): as if through a temporary copy.
    method Memmove(dst: array<byte>, at: nat, src: Ptr, n: nat)
      requires dst in Live() && at + n <= dst.Length
      requires Readable(src, n)
      modifies dst
      ensures forall i {:trigger dst[i]} :: 0 <= i < dst.Length ==>
                dst[i] == if at <= i < at + n then old(src.block[src.off + i - at]) else old(dst[i])
    {
      forall i | 0 <= i < n {
        dst[at + i] := src.block[src.off + i];
      }
    }

    method Memset(dst: array<byte>, at: nat, b: byte, n: nat)
      requires dst in Live() && at + n <= dst.Length
      modifies dst
      ensures forall i {:trigger dst[i]} :: 0 <= i < dst.Length ==>
                dst[i] == if at <= i < at + n then b else old(dst[i])
    {
      forall i | 0 <= i < n {
        dst[at + i] := b;
      }
    }

    // secure_zero: counts n down while the pointer walks up.
    method SecureZero(p: array?<byte>, n: nat)
      requires p != null ==> p in Live() && n <= p.Length
      modifies p
      ensures p != null ==>
                forall i {:trigger p[i]} :: 0 <= i < p.Length ==> p[i] == if i < n then 0 else old(p[i])
    {
      if p == null || n == 0 {
        return;
      }
      var left, vp := n, 0;
      while left != 0
        invariant vp + left == n
        invariant forall i {:trigger p[i]} :: 0 <= i < p.Length ==> p[i] == if i < vp then 0 else old(p[i])
      {
        Store(p, vp, 0);
        left, vp := left - 1, vp + 1;
      }
    }

    // What realloc(gone) -> came does to the books, free and malloc included.
    twostate predicate Exchanged(gone: array?<byte>, new came: array?<byte>)
      reads this
    {
      && owned == old(owned) - Opt(gone) + Opt(came)
      && borrowed == old(borrowed)
      && grants == old(grants)
      && old(address.Keys) <= address.Keys
    }

    // realloc (ISO C11 7.22.3.5), and malloc when b is null. The new block may
    // take any free address, that of the old block included; bytes past the
    // copied prefix are arbitrary; the old block is dead afterwards.
    method Realloc(b: array?<byte>, n: nat) returns (p: array?<byte>)
      requires Valid() && n > 0
      requires b != null ==> b in owned
      modifies this
      ensures Valid()
      ensures p == null <==> !old(grants)
      ensures p == null ==> unchanged(this)
      ensures p != null ==>
        && fresh(p) && p.Length == n && Exchanged(b, p)
        && (b != null ==> forall i :: 0 <= i < b.Length && i < n ==> p[i] == old(b[i]))
    {
      if !grants {
        return null;
      }
      p := new byte[n];
      if b != null {
        forall i | 0 <= i < Min(b.Length, n) {
          p[i] := b[i];
        }
      }
      owned := owned - Opt(b);
      var a := FreeAddress(n);
      owned, address := owned + {p}, address[p := a];
    }

    method Free(b: array?<byte>)
      requires Valid()
      requires b != null ==> b in owned
      modifies this
      ensures Valid()
      ensures Exchanged(b, null) && address == old(address)
    {
      owned := owned - Opt(b);
    }

    // Storage of the caller: a local array coming into scope, and leaving it.
    method Borrow(n: nat) returns (b: array<byte>)
      requires Valid()
      modifies this
      ensures Valid()
      ensures fresh(b) && b.Length == n
      ensures borrowed == old(borrowed) + {b}
      ensures owned == old(owned) && grants == old(grants)
      ensures old(address.Keys) <= address.Keys
    {
      b := new byte[n];
      var a := FreeAddress(n);
      borrowed, address := borrowed + {b}, address[b := a];
    }

    // The same, holding the given bytes.
    method BorrowBytes(bytes: seq<byte>) returns (b: array<byte>)
      requires Valid()
      modifies this
      ensures Valid()
      ensures fresh(b) && b[..] == bytes && At(b, 0).Bytes(|bytes|) == bytes
      ensures borrowed == old(borrowed) + {b}
      ensures owned == old(owned) && grants == old(grants)
      ensures old(address.Keys) <= address.Keys
    {
      b := Borrow(|bytes|);
      forall i | 0 <= i < |bytes| {
        b[i] := bytes[i];
      }
      assert b[..] == b[0..|bytes|];
    }

    method Return(b: array<byte>)
      requires Valid() && b in borrowed
      modifies this
      ensures Valid()
      ensures borrowed == old(borrowed) - {b}
      ensures owned == old(owned) && grants == old(grants) && address == old(address)
    {
      borrowed := borrowed - {b};
    }

    // Any address at which n bytes overlap no live block.
    method FreeAddress(n: nat) returns (a: nat)
      requires Live() <= address.Keys
      ensures 0 < a
      ensures forall c :: c in Live() ==> Apart(a, n, address[c], c.Length)
    {
      ghost var top := PastEverything(Live());
      assert forall c :: c in Live() ==> Apart(top, n, address[c], c.Length);
      a :| 0 < a && forall c :: c in owned + borrowed ==> Apart(a, n, address[c], c.Length);
    }

    lemma {:induction false} PastEverything(s: set<array<byte>>) returns (top: nat)
      requires s <= address.Keys
      ensures 0 < top
      ensures forall c :: c in s ==> address[c] + c.Length <= top
    {
      if s == {} {
        top := 1;
      } else {
        var c :| c in s;
        var rest := PastEverything(s - {c});
        top := Max(rest, address[c] + c.Length);
      }
    }
  }
}
