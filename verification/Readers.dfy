// reader.h and span.h: a cursor over a borrowed byte view.
module Readers {
  import opened Base
  import opened Memory
  import opened CheckedMath
  import opened Bits
  import opened Codec

  datatype Span = Span(data: Ptr, size: nat) {

    // The view is over live storage.
    ghost predicate Live(heap: Heap)
      reads heap
    {
      if data.Null? then size == 0 else heap.Readable(data, size)
    }

    ghost function Bytes(heap: Heap): (bs: seq<byte>)
      requires Live(heap)
      reads heap, if data.At? then {data.block} else {}
      ensures |bs| == size
    {
      if data.Null? then [] else data.Bytes(size)
    }

    function Slice(offset: nat, count: nat): Span {
      Span(if data.Null? then Null else At(data.block, data.off + offset), count)
    }

    // subspan: in bounds exactly when range_in_bounds says so.
    function Subspan(offset: nat, count: nat): (r: Option<Span>)
      ensures r.Some? <==> offset + count <= size
      ensures r.Some? ==> r.value == Slice(offset, count)
    {
      if SubtractiveInBounds(offset, count, size) then Some(Slice(offset, count)) else None
    }

    // The viewed bytes, as a caller reads them.
    function Load(heap: Heap): (bs: seq<byte>)
      requires Live(heap)
      reads heap, if data.At? then {data.block} else {}
      ensures bs == Bytes(heap)
    {
      if data.Null? then [] else heap.LoadBytes(data, size)
    }
  }

  // A slice views exactly its part of the bytes.
  lemma SliceBytes(heap: Heap, s: Span, offset: nat, count: nat)
    requires s.Live(heap) && offset + count <= s.size
    ensures s.Slice(offset, count).Live(heap)
    ensures s.Slice(offset, count).Bytes(heap) == s.Bytes(heap)[offset..offset + count]
  {
    if s.data.At? {
      var block, at := s.data.block, s.data.off;
      SliceOfSlice(block[..], at, s.size, offset, count);
      assert block[at..at + s.size] == block[..][at..at + s.size];
      assert block[at + offset..at + offset + count] == block[..][at + offset..at + offset + count];
    }
  }

  class Reader {
    const heap: Heap
    const data: Span
    var pos: nat

    ghost predicate Valid()
      reads this, heap
    {
      data.Live(heap) && pos <= data.size
    }

    ghost function All(): (bs: seq<byte>)
      requires Valid()
      reads this, heap, if data.data.At? then {data.data.block} else {}
      ensures |bs| == data.size
    {
      data.Bytes(heap)
    }

    // The n bytes in front of the cursor.
    ghost function Next(n: nat): (bs: seq<byte>)
      requires Valid() && pos + n <= data.size
      reads this, heap, if data.data.At? then {data.data.block} else {}
      ensures |bs| == n
    {
      All()[pos..pos + n]
    }

    constructor (heap: Heap, data: Span)
      requires data.Live(heap)
      ensures Valid() && this.heap == heap && this.data == data && pos == 0
    {
      this.heap, this.data, pos := heap, data, 0;
    }

    function Remaining(): nat
      requires pos <= data.size
      reads this
    {
      data.size - pos
    }

    // The test in front of every read: the subtractive one, at the cursor.
    predicate Has(n: nat)
      requires pos <= data.size
      reads this
      ensures Has(n) <==> SubtractiveInBounds(pos, n, data.size)
    {
      n <= Remaining()
    }

    predicate Empty()
      reads this
    {
      pos >= data.size
    }

    // data_[pos_ + i], as the decoders read it.
    function Peek(i: nat): (b: byte)
      requires Valid() && i < Remaining()
      reads this, heap, if data.data.At? then {data.data.block} else {}
      ensures b == Next(i + 1)[i]
    {
      heap.Load(data.data.block, data.data.off + pos + i)
    }

    // A read of n bytes that moves the cursor, or leaves it when they are missing.
    twostate predicate Took(r: Code, n: nat)
      requires old(Valid())
      reads this
    {
      if n <= old(Remaining()) then r == Ok && pos == old(pos) + n
      else r == OutOfRange && pos == old(pos)
    }

    method Skip(n: nat) returns (r: Code)
      requires Valid()
      modifies this
      ensures Valid() && Took(r, n)
    {
      if !Has(n) {
        return OutOfRange;
      }
      pos := pos + n;
      r := Ok;
    }

    method ReadBytes(out: Ptr, len: nat) returns (r: Code)
      requires Valid()
      requires out.At? && len <= Remaining() ==>
        heap.Readable(out, len) && (data.data.At? ==> out.block != data.data.block)
      modifies this, if out.At? then {out.block} else {}
      ensures Valid()
      ensures len == 0 ==> r == Ok && pos == old(pos)
      ensures len > 0 && out.Null? ==> r == NullPointer && pos == old(pos)
      ensures len > 0 && out.At? ==> Took(r, len)
      ensures len > 0 && r == Ok ==> out.Bytes(len) == old(Next(len))
      ensures out.At? ==> forall i :: 0 <= i < out.block.Length && !(r == Ok && out.off <= i < out.off + len) ==>
                out.block[i] == old(out.block[i])
    {
      if len == 0 {
        return Ok;
      }
      if out.Null? {
        return NullPointer;
      }
      if !Has(len) {
        return OutOfRange;
      }
      heap.Memmove(out.block, out.off, At(data.data.block, data.data.off + pos), len);
      pos := pos + len;
      r := Ok;
      assert forall i :: 0 <= i < len ==> out.Bytes(len)[i] == old(Next(len))[i];
    }

    // The view borrows from the reader's own data.
    method ReadView(len: nat) returns (r: Code, view: Span)
      requires Valid()
      modifies this
      ensures Valid() && Took(r, len)
      ensures r == Ok ==> view.Live(heap) && view.size == len && view.Bytes(heap) == old(Next(len))
    {
      view := Span(Null, 0);
      if !Has(len) {
        return OutOfRange, view;
      }
      view := data.Slice(pos, len);
      SliceBytes(heap, data, pos, len);
      pos := pos + len;
      r := Ok;
    }

    method PeekView(len: nat) returns (r: Code, view: Span)
      requires Valid()
      ensures r == if len <= Remaining() then Ok else OutOfRange
      ensures r == Ok ==> view.Live(heap) && view.size == len && view.Bytes(heap) == Next(len)
    {
      view := Span(Null, 0);
      if !Has(len) {
        return OutOfRange, view;
      }
      view := data.Slice(pos, len);
      SliceBytes(heap, data, pos, len);
      r := Ok;
    }

    method ReadU8() returns (r: Code, v: byte)
      requires Valid()
      modifies this
      ensures Valid() && Took(r, 1)
      ensures r == Ok ==> [v] == old(Next(1))
    {
      v := 0;
      if !Has(1) {
        return OutOfRange, 0;
      }
      v := Peek(0);
      pos := pos + 1;
      r := Ok;
    }

    method ReadU16Be() returns (r: Code, v: u16)
      requires Valid()
      modifies this
      ensures Valid() && Took(r, 2)
      ensures r == Ok ==> v == BeValue(old(Next(2)))
      ensures r == Ok ==> var next := old(Next(2));
                          var b0: int, b1: int := next[0], next[1];
                          v == 0x100 * b0 + b1
    {
      if !Has(2) {
        return OutOfRange, 0;
      }
      DecodeU16IsPositional(Peek(0), Peek(1));
      BeValueOf2(Peek(0), Peek(1));
      assert Next(2) == [Peek(0), Peek(1)];
      Powers();
      v := DecodeU16Be(Peek(0), Peek(1));
      pos := pos + 2;
      r := Ok;
    }

    method ReadU32Be() returns (r: Code, v: u32)
      requires Valid()
      modifies this
      ensures Valid() && Took(r, 4)
      ensures r == Ok ==> v == BeValue(old(Next(4)))
      ensures r == Ok ==> var next := old(Next(4));
                          var b0: int, b1: int, b2: int, b3: int := next[0], next[1], next[2], next[3];
                          v == 0x100_0000 * b0 + 0x1_0000 * b1 + 0x100 * b2 + b3
    {
      if !Has(4) {
        return OutOfRange, 0;
      }
      hide DecodeU32Be, BeValue;
      DecodeU32BeIsPositional(Peek(0), Peek(1), Peek(2), Peek(3));
      BeValueOf4(Peek(0), Peek(1), Peek(2), Peek(3));
      assert Next(4) == [Peek(0), Peek(1), Peek(2), Peek(3)];
      Powers();
      v := DecodeU32Be(Peek(0), Peek(1), Peek(2), Peek(3));
      pos := pos + 4;
      r := Ok;
    }

    method ReadU32Le() returns (r: Code, v: u32)
      requires Valid()
      modifies this
      ensures Valid() && Took(r, 4)
      ensures r == Ok ==> v == BeValue(Reversed(old(Next(4))))
      ensures r == Ok ==> var next := old(Next(4));
                          var b0: int, b1: int, b2: int, b3: int := next[0], next[1], next[2], next[3];
                          v == b0 + 0x100 * b1 + 0x1_0000 * b2 + 0x100_0000 * b3
    {
      if !Has(4) {
        return OutOfRange, 0;
      }
      hide DecodeU32Le, BeValue;
      DecodeU32LeIsPositional(Peek(0), Peek(1), Peek(2), Peek(3));
      BeValueOf4(Peek(3), Peek(2), Peek(1), Peek(0));
      assert Reversed(Next(4)) == [Peek(3), Peek(2), Peek(1), Peek(0)];
      Powers();
      v := DecodeU32Le(Peek(0), Peek(1), Peek(2), Peek(3));
      pos := pos + 4;
      r := Ok;
    }

    // The accumulate loop; the shift drops what leaves 64 bits, and nothing does.
    method ReadU64Be() returns (r: Code, v: u64)
      requires Valid()
      modifies this
      ensures Valid() && Took(r, 8)
      ensures r == Ok ==> v == BeValue(old(Next(8)))
    {
      v := 0;
      if !Has(8) {
        return OutOfRange, 0;
      }
      for i := 0 to 8
        modifies {}
        invariant v == BeValue(Next(8)[..i])
      {
        PushByte(Next(8), i, v);
        v := Or(Shl(v, 8) % 0x1_0000_0000_0000_0000, Peek(i));
      }
      assert Next(8)[..8] == Next(8);
      pos := pos + 8;
      r := Ok;
    }

    // What lies ahead of the cursor, place by place in memory.
    lemma CursorMeans(n: nat)
      requires Valid() && pos + n <= data.size
      ensures |Rest()| == data.size - pos
      ensures forall i :: 0 <= i < n ==>
                Next(n)[i] == Rest()[i] == data.data.block[data.data.off + pos + i]
    {}

    // Everything from the cursor on.
    ghost function Rest(): (bs: seq<byte>)
      requires Valid()
      reads this, heap, if data.data.At? then {data.data.block} else {}
    {
      All()[pos..]
    }
  }

  lemma PushByte(bs: seq<byte>, i: nat, v: nat)
    requires |bs| == 8 && i < 8 && v == BeValue(bs[..i])
    ensures Or(Shl(v, 8) % 0x1_0000_0000_0000_0000, bs[i]) == BeValue(bs[..i + 1]) < 0x1_0000_0000_0000_0000
  {
    hide Or, Shl, Pow2, BeValue;
    FitsBeforePush(bs[..i], v);
    FitsAfterPush(bs[..i + 1]);
    OrLow8(256 * v, bs[i]);
    BeValueUpTo(bs, i);
  }

  lemma FitsBeforePush(bs: seq<byte>, v: nat)
    requires |bs| < 8 && v == BeValue(bs)
    ensures Shl(v, 8) == 256 * v < 0x1_0000_0000_0000_0000
  {
    hide BeValue;
    Powers();
    Pow2Monotone(8 * |bs|, 56);
    Pow2Adds(56, 8);
  }

  lemma FitsAfterPush(bs: seq<byte>)
    requires |bs| <= 8
    ensures BeValue(bs) < 0x1_0000_0000_0000_0000
  {
    hide BeValue;
    Powers();
    Pow2Monotone(8 * |bs|, 64);
  }

  // ---------- conservation over any run ----------

  // One constructor per reading method, and one for a null place to read to.
  datatype Op =
    | OpSkip(n: nat)
    | OpBytes(n: nat)
    | OpBytesToNull(n: nat)
    | OpView(n: nat)
    | OpPeek(n: nat)
    | OpU8
    | OpU16Be
    | OpU32Be
    | OpU32Le
    | OpU64Be
  {
    function Width(): nat {
      match this
      case OpU8 => 1
      case OpU16Be => 2
      case OpU32Be => 4
      case OpU32Le => 4
      case OpU64Be => 8
      case _ => n
    }
  }

  // What a caller got out of a read: bytes that were consumed (an integer stands
  // for the bytes that encode it), bytes that were only shown, nothing but a
  // step over some bytes, or a refusal.
  datatype Piece = Handed(bytes: seq<byte>) | Peeked(bytes: seq<byte>) | Skipped(n: nat) | Refused(code: Code) {
    function Advance(): nat {
      match this
      case Handed(bs) => |bs|
      case Skipped(n) => n
      case _ => 0
    }
  }

  // What the caller must get when the cursor is at p.
  function PieceAt(data: seq<byte>, p: nat, op: Op): Piece {
    if op.OpBytesToNull? then (if op.n == 0 then Handed([]) else Refused(NullPointer))
    else if p + op.Width() > |data| then Refused(OutOfRange)
    else
      match op
      case OpSkip(n) => Skipped(n)
      case OpPeek(n) => Peeked(data[p..p + n])
      case _ => Handed(data[p..p + op.Width()])
  }

  // Exactly the reads that ask for more than there is are refused; the others
  // give the bytes from p on, as many as their width.
  lemma PiecesMean(data: seq<byte>, p: nat, op: Op)
    requires p <= |data| && !op.OpBytesToNull?
    ensures var piece := PieceAt(data, p, op);
            var width := if op.OpU8? then 1
                         else if op.OpU16Be? then 2
                         else if op.OpU32Be? || op.OpU32Le? then 4
                         else if op.OpU64Be? then 8
                         else op.n;
            && (piece.Refused? <==> p + width > |data|)
            && (piece.Refused? ==> piece.code == OutOfRange)
            && (piece.Skipped? ==> op.OpSkip? && piece.n == width)
            && (piece.Peeked? ==> op.OpPeek? && |piece.bytes| == width)
            && (piece.Handed? ==> !op.OpSkip? && !op.OpPeek? && |piece.bytes| == width)
            && (piece.Peeked? || piece.Handed? ==>
                  forall i :: 0 <= i < |piece.bytes| ==> piece.bytes[i] == data[p + i])
  {}

  // The cursor after a run that started at p.
  function Cursor(data: seq<byte>, p: nat, ops: seq<Op>): nat {
    if ops == [] then p
    else
      var q := Cursor(data, p, ops[..|ops| - 1]);
      q + PieceAt(data, q, ops[|ops| - 1]).Advance()
  }

  function Pieces(data: seq<byte>, p: nat, ops: seq<Op>): (pieces: seq<Piece>)
    ensures |pieces| == |ops|
  {
    if ops == [] then []
    else
      var before := ops[..|ops| - 1];
      Pieces(data, p, before) + [PieceAt(data, Cursor(data, p, before), ops[|ops| - 1])]
  }

  // The pieces, laid end to end, lead from p to q over the data: every byte in
  // between was handed over or skipped, once and in order, and every peek
  // showed what lay ahead of it. Nothing is said of the operations.
  ghost predicate Tiles(data: seq<byte>, p: nat, pieces: seq<Piece>, q: nat) {
    if pieces == [] then p == q
    else
      var n := |pieces| - 1;
      match pieces[n]
      case Handed(bs) => |bs| <= q <= |data| && data[q - |bs|..q] == bs && Tiles(data, p, pieces[..n], q - |bs|)
      case Skipped(k) => k <= q <= |data| && Tiles(data, p, pieces[..n], q - k)
      case Peeked(bs) => q + |bs| <= |data| && data[q..q + |bs|] == bs && Tiles(data, p, pieces[..n], q)
      case Refused(_) => Tiles(data, p, pieces[..n], q)
  }

  // Everything that was handed over.
  function Delivered(pieces: seq<Piece>): seq<byte> {
    if pieces == [] then []
    else
      var n := |pieces| - 1;
      Delivered(pieces[..n]) + if pieces[n].Handed? then pieces[n].bytes else []
  }

  lemma OneMorePiece(data: seq<byte>, p: nat, pieces: seq<Piece>, q: nat, op: Op)
    requires p <= q <= |data| && Tiles(data, p, pieces, q)
    ensures var piece := PieceAt(data, q, op);
            && q + piece.Advance() <= |data|
            && Tiles(data, p, pieces + [piece], q + piece.Advance())
  {
    var piece := PieceAt(data, q, op);
    var more := pieces + [piece];
    assert more[..|pieces|] == pieces && more[|pieces|] == piece;
  }

  // The cursor never passes the end, and what a run hands over and skips is
  // exactly the data it has moved past: nothing is read twice, lost or made up.
  lemma {:induction false} ReadingConserves(data: seq<byte>, p: nat, ops: seq<Op>)
    requires p <= |data|
    ensures p <= Cursor(data, p, ops) <= |data|
    ensures Tiles(data, p, Pieces(data, p, ops), Cursor(data, p, ops))
  {
    hide PieceAt, Piece.Advance;
    if ops == [] {
      assert Tiles(data, p, [], p);
    } else {
      var n := |ops| - 1;
      ReadingConserves(data, p, ops[..n]);
      OneMorePiece(data, p, Pieces(data, p, ops[..n]), Cursor(data, p, ops[..n]), ops[n]);
    }
  }

  // Without skips, the bytes handed over are the data between the two cursors.
  lemma {:induction false} UnskippedIsDelivered(data: seq<byte>, p: nat, pieces: seq<Piece>, q: nat)
    requires p <= |data| && Tiles(data, p, pieces, q)
    requires forall piece :: piece in pieces ==> !piece.Skipped?
    ensures p <= q <= |data|
    ensures Delivered(pieces) == data[p..q]
  {
    if pieces != [] {
      var n := |pieces| - 1;
      var last := pieces[n];
      assert last in pieces;
      var mid := q - last.Advance();
      UnskippedIsDelivered(data, p, pieces[..n], mid);
      if last.Handed? {
        assert data[p..mid] + data[mid..q] == data[p..q];
      }
    }
  }

  lemma SkipsOnlyWhenAsked(data: seq<byte>, p: nat, ops: seq<Op>)
    requires forall op :: op in ops ==> !op.OpSkip?
    ensures forall piece :: piece in Pieces(data, p, ops) ==> !piece.Skipped?
  {
    if ops != [] {
      SkipsOnlyWhenAsked(data, p, ops[..|ops| - 1]);
      assert ops[|ops| - 1] in ops;
    }
  }

  // ---------- the reader itself ----------

  // An integer read from bytes stands for exactly those bytes.
  method PerformInteger(r: Reader, op: Op) returns (piece: Piece)
    requires r.Valid() && (op.OpU8? || op.OpU16Be? || op.OpU32Be? || op.OpU32Le? || op.OpU64Be?)
    modifies r
    ensures r.Valid()
    ensures piece == PieceAt(r.All(), old(r.pos), op)
    ensures r.pos == old(r.pos) + piece.Advance()
  {
    hide BeValue, BeBytes, Reversed;
    ghost var w := op.Width();
    ghost var next := if w <= r.Remaining() then r.Next(w) else [];
    var code;
    match op
    case OpU8 =>
      var v;
      code, v := r.ReadU8();
      piece := if code == Ok then Handed([v]) else Refused(code);
    case OpU16Be =>
      var v;
      code, v := r.ReadU16Be();
      BytesOfValue(next);
      piece := if code == Ok then Handed(BeBytes(v, 2)) else Refused(code);
    case OpU32Be =>
      var v;
      code, v := r.ReadU32Be();
      BytesOfValue(next);
      piece := if code == Ok then Handed(BeBytes(v, 4)) else Refused(code);
    case OpU32Le =>
      var v;
      code, v := r.ReadU32Le();
      BytesOfValue(Reversed(next));
      ReversedTwice(next);
      piece := if code == Ok then Handed(Reversed(BeBytes(v, 4))) else Refused(code);
    case OpU64Be =>
      var v;
      code, v := r.ReadU64Be();
      BytesOfValue(next);
      piece := if code == Ok then Handed(BeBytes(v, 8)) else Refused(code);
  }

  // The bytes that are in the caller's array afterwards.
  method PerformBytes(r: Reader, n: nat) returns (piece: Piece)
    requires r.Valid() && r.heap.Valid()
    modifies r, r.heap
    ensures r.Valid() && r.heap.Valid()
    ensures r.All() == old(r.All())
    ensures piece == PieceAt(r.All(), old(r.pos), OpBytes(n))
    ensures r.pos == old(r.pos) + piece.Advance()
  {
    var out := r.heap.Borrow(n);
    var code := r.ReadBytes(At(out, 0), n);
    piece := if code == Ok then Handed(r.heap.LoadBytes(At(out, 0), n)) else Refused(code);
    r.heap.Return(out);
  }

  // The bytes under the view the caller was given.
  method PerformView(r: Reader, op: Op) returns (piece: Piece)
    requires r.Valid() && (op.OpView? || op.OpPeek?)
    modifies r
    ensures r.Valid()
    ensures piece == PieceAt(r.All(), old(r.pos), op)
    ensures r.pos == old(r.pos) + piece.Advance()
  {
    var code, view;
    if op.OpView? {
      code, view := r.ReadView(op.n);
      piece := if code == Ok then Handed(view.Load(r.heap)) else Refused(code);
    } else {
      code, view := r.PeekView(op.n);
      piece := if code == Ok then Peeked(view.Load(r.heap)) else Refused(code);
    }
  }

  // The piece is made of what the reader gave: the bytes in the caller's array,
  // the bytes under the view, the bytes of the integer.
  method Perform(r: Reader, op: Op) returns (piece: Piece)
    requires r.Valid() && r.heap.Valid()
    modifies r, r.heap
    ensures r.Valid() && r.heap.Valid()
    ensures r.All() == old(r.All())
    ensures piece == PieceAt(r.All(), old(r.pos), op)
    ensures r.pos == old(r.pos) + piece.Advance()
  {
    hide BeValue, BeBytes, Reversed;
    var code;
    match op
    case OpSkip(n) =>
      code := r.Skip(n);
      piece := if code == Ok then Skipped(n) else Refused(code);
    case OpBytes(n) =>
      piece := PerformBytes(r, n);
    case OpBytesToNull(n) =>
      code := r.ReadBytes(Null, n);
      piece := if code == Ok then Handed([]) else Refused(code);
    case OpView(_) =>
      piece := PerformView(r, op);
    case OpPeek(_) =>
      piece := PerformView(r, op);
    case _ =>
      piece := PerformInteger(r, op);
  }

  // Any run of reads, from any cursor: what the caller got, piece by piece, is
  // what the data holds, and together it is the data the cursor has moved past.
  method PerformAll(r: Reader, ops: seq<Op>) returns (pieces: seq<Piece>)
    requires r.Valid() && r.heap.Valid()
    modifies r, r.heap
    ensures r.Valid() && r.All() == old(r.All())
    ensures pieces == Pieces(r.All(), old(r.pos), ops)
    ensures Tiles(r.All(), old(r.pos), pieces, r.pos)
    ensures (forall op :: op in ops ==> !op.OpSkip?) ==>
              old(r.pos) <= r.pos && Delivered(pieces) == r.All()[old(r.pos)..r.pos]
  {
    hide PieceAt;
    pieces := [];
    ghost var data, start := r.All(), r.pos;
    for i := 0 to |ops|
      invariant r.Valid() && r.heap.Valid() && r.All() == data
      invariant r.pos == Cursor(data, start, ops[..i])
      invariant pieces == Pieces(data, start, ops[..i])
    {
      assert ops[..i + 1][..i] == ops[..i];
      var piece := Perform(r, ops[i]);
      pieces := pieces + [piece];
    }
    assert ops[..|ops|] == ops;
    ReadingConserves(data, start, ops);
    if forall op :: op in ops ==> !op.OpSkip? {
      SkipsOnlyWhenAsked(data, start, ops);
      UnskippedIsDelivered(data, start, pieces, r.pos);
    }
  }
}
