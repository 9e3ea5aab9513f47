// writer.h: an append-only sink over a buffer.
module Writers {
  import opened Base
  import opened Memory
  import opened Buffers
  import opened Bits
  import opened Codec
  import Spec = BufferSpec

  class Writer {
    const out: Buffer?
    var written: nat

    ghost predicate Valid()
      reads this, Frame()
    {
      (out != null ==> out.Valid()) && (out != null && out.data != null ==> out.data as object != this)
    }

    // What a write may change besides the counter.
    ghost function Frame(): set<object>
      reads this, out
    {
      if out == null then {}
      else {out, out.heap} + (if out.data == null then {} else {out.data})
    }

    constructor (out: Buffer?)
      requires out != null ==> out.Valid()
      ensures Valid() && this.out == out && written == 0
    {
      this.out, written := out, 0;
    }

    // The bytes went to the end of the buffer and were counted, or the write
    // was refused and neither the buffer nor the counter has changed.
    twostate predicate Wrote(r: Code, bytes: Option<seq<byte>>)
      requires old(Valid()) && Valid()
      reads this, Frame()
    {
      if out == null then
        r == NullPointer && written == old(written)
      else
        && Spec.Outcome(r, out.State()) ==
           Spec.Append(out.heap.limits, old(out.heap.grants), old(out.State()), bytes)
        && written == (if r == Ok
                       then (old(written) + |bytes.value|) % (out.heap.limits.sizeMax + 1)
                       else old(written))
        && out.heap.grants == old(out.heap.grants) && out.heap.borrowed == old(out.heap.borrowed)
    }

    method WriteBytes(data: Ptr, len: nat) returns (r: Code)
      requires Valid() && (out != null ==> out.Source(data, len))
      modifies this, Frame()
      ensures Valid() && (out != null && out.data != old(out.data) ==> fresh(out.data))
      ensures Wrote(r, if out == null then None else old(out.Arg(data, len)))
      ensures out == null ==> r == NullPointer && written == old(written)
      ensures out != null && r == Ok ==>
        && |out.Contents()| == old(|out.Contents()|) + len
        && written == (old(written) + len) % (out.heap.limits.sizeMax + 1)
    {
      if out == null {
        return NullPointer;
      }
      r := out.Append(data, len);
      if r == Ok {
        written := (written + len) % (out.heap.limits.sizeMax + 1);
      }
    }

    // Writes a local array: the way every integer gets out.
    method WriteLocal(bytes: seq<byte>) returns (r: Code)
      requires Valid()
      modifies this, Frame()
      ensures Valid() && (out != null && out.data != old(out.data) ==> fresh(out.data))
      ensures Wrote(r, Some(bytes))
    {
      hide Spec.Append;
      if out == null {
        return NullPointer;
      }
      var buf := out.heap.BorrowBytes(bytes);
      assert out.State() == old(out.State()) && out.Arg(At(buf, 0), |bytes|) == Some(bytes);
      r := WriteBytes(At(buf, 0), |bytes|);
      ghost var after := out.State();
      out.heap.Return(buf);
      assert out.State() == after;
    }

    method WriteU8(v: byte) returns (r: Code)
      requires Valid()
      modifies this, Frame()
      ensures Valid() && (out != null && out.data != old(out.data) ==> fresh(out.data))
      ensures Wrote(r, Some([v]))
    {
      r := WriteLocal([v]);
    }

    method WriteU16Be(v: u16) returns (r: Code)
      requires Valid()
      modifies this, Frame()
      ensures Valid() && (out != null && out.data != old(out.data) ==> fresh(out.data))
      ensures Wrote(r, Some(BeBytes(v, 2)))
      ensures Wrote(r, Some([v / 0x100 % 0x100, v % 0x100]))
    {
      EncodersMean(v, 0);
      EncodersArePositional(v, 0);
      r := WriteLocal(EncodeU16Be(v));
    }

    method WriteU32Be(v: u32) returns (r: Code)
      requires Valid()
      modifies this, Frame()
      ensures Valid() && (out != null && out.data != old(out.data) ==> fresh(out.data))
      ensures Wrote(r, Some(BeBytes(v, 4)))
      ensures Wrote(r, Some([v / 0x100_0000 % 0x100, v / 0x1_0000 % 0x100, v / 0x100 % 0x100, v % 0x100]))
    {
      EncodersMean(0, v);
      EncodersArePositional(0, v);
      r := WriteLocal(EncodeU32Be(v));
    }

    method WriteU32Le(v: u32) returns (r: Code)
      requires Valid()
      modifies this, Frame()
      ensures Valid() && (out != null && out.data != old(out.data) ==> fresh(out.data))
      ensures Wrote(r, Some(Reversed(BeBytes(v, 4))))
      ensures Wrote(r, Some([v % 0x100, v / 0x100 % 0x100, v / 0x1_0000 % 0x100, v / 0x100_0000 % 0x100]))
    {
      EncodersMean(0, v);
      EncodersArePositional(0, v);
      r := WriteLocal(EncodeU32Le(v));
    }

    method WriteU64Be(v: u64) returns (r: Code)
      requires Valid()
      modifies this, Frame()
      ensures Valid() && (out != null && out.data != old(out.data) ==> fresh(out.data))
      ensures Wrote(r, Some(BeBytes(v, 8)))
    {
      var buf := EncodeU64Be(v);
      r := WriteLocal(buf);
    }
  }

  // The shift loop of write_u64_be. Its local array becomes a block of the heap
  // when WriteLocal passes the address on.
  method EncodeU64Be(v: u64) returns (bytes: seq<byte>)
    ensures bytes == BeBytes(v, 8)
  {
    var buf := new byte[8];
    for i := 0 to 8
      invariant buf[..i] == BeBytes(v, 8)[..i]
    {
      BeByteAt(v, 8, i);
      buf[i] := ByteAt(v, (7 - i) * 8);
    }
    bytes := buf[..];
  }
}
