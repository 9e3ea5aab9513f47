// parse_framed_message.cpp and the reader-based version in the repository's
// README: a four-byte big-endian length, then that many bytes of payload.
module Frames {
  import opened Base
  import opened Memory
  import opened CheckedMath
  import opened Bits
  import opened Codec
  import opened Buffers
  import opened Readers
  import Spec = BufferSpec

  // The payload if the code is Ok.
  datatype Parsed = Parsed(code: Code, payload: seq<byte>)

  function FromBytes(lim: Limits, grants: bool, bytes: seq<byte>): Parsed {
    var code := Spec.Create(lim, grants, |bytes|);
    Parsed(code, if code == Ok then bytes else [])
  }

  // size_t has at least 32 bits, so casting the length to it loses nothing.
  predicate Wide(lim: Limits) {
    0xFFFF_FFFF <= lim.sizeMax
  }

  // The hand-written parser.
  function ParseByHand(lim: Limits, grants: bool, input: seq<byte>): Parsed
    requires Wide(lim)
  {
    if |input| < 4 then Parsed(ParseError, [])
    else
      var declared := DecodeU32Be(input[0], input[1], input[2], input[3]);
      var end := CheckedAdd(lim, 4, declared);
      if end.None? then Parsed(Overflow, [])
      else if end.value > |input| then Parsed(ParseError, [])
      else FromBytes(lim, grants, input[4..4 + declared])
  }

  // The same with read_u32_be and read_view.
  function ParseByReader(lim: Limits, grants: bool, input: seq<byte>): Parsed
    requires Wide(lim)
  {
    if |input| < 4 then Parsed(OutOfRange, [])
    else
      var declared := DecodeU32Be(input[0], input[1], input[2], input[3]);
      if declared > |input| - 4 then Parsed(OutOfRange, [])
      else FromBytes(lim, grants, input[4..4 + declared])
  }

  // What a well-formed, affordable frame is, in unbounded arithmetic.
  predicate Acceptable(lim: Limits, grants: bool, input: seq<byte>) {
    && 4 <= |input|
    && var declared := BeValue(input[..4]);
       && 4 + declared <= |input|
       && declared <= lim.maxAlloc
       && (declared > 0 ==> grants)
  }

  // Both parsers accept exactly the acceptable frames and return the same payload.
  lemma ParsersAgree(lim: Limits, grants: bool, input: seq<byte>)
    requires Wide(lim) && |input| <= lim.sizeMax
    ensures ParseByHand(lim, grants, input).code == Ok <==> Acceptable(lim, grants, input)
    ensures ParseByReader(lim, grants, input).code == Ok <==> Acceptable(lim, grants, input)
    ensures ParseByHand(lim, grants, input).payload == ParseByReader(lim, grants, input).payload
    ensures Acceptable(lim, grants, input) ==>
              ParseByHand(lim, grants, input).payload == input[4..4 + BeValue(input[..4])]
  {
    if 4 <= |input| {
      DecodeU32BeIsPositional(input[0], input[1], input[2], input[3]);
      assert input[..4] == [input[0], input[1], input[2], input[3]];
    }
  }

  // The code of each refusal. The two parsers differ in what they call a frame
  // that is cut short, and the first also in checking that its end fits size_t.
  lemma RefusalCodes(lim: Limits, grants: bool, input: seq<byte>)
    requires Wide(lim) && |input| <= lim.sizeMax
    ensures var short := |input| < 4 || 4 + BeValue(input[..4]) > |input|;
            && (short && (|input| < 4 || 4 + BeValue(input[..4]) <= lim.sizeMax) ==>
                  ParseByHand(lim, grants, input) == Parsed(ParseError, []))
            && (|input| >= 4 && 4 + BeValue(input[..4]) > lim.sizeMax ==>
                  ParseByHand(lim, grants, input) == Parsed(Overflow, []))
            && (short ==> ParseByReader(lim, grants, input) == Parsed(OutOfRange, []))
            && (!short && BeValue(input[..4]) > lim.maxAlloc ==>
                  ParseByHand(lim, grants, input) == ParseByReader(lim, grants, input) == Parsed(CapacityExceeded, []))
            && (!short && 0 < BeValue(input[..4]) <= lim.maxAlloc && !grants ==>
                  ParseByHand(lim, grants, input) == ParseByReader(lim, grants, input) == Parsed(OutOfMemory, []))
  {
    if 4 <= |input| {
      DecodeU32BeIsPositional(input[0], input[1], input[2], input[3]);
      assert input[..4] == [input[0], input[1], input[2], input[3]];
    }
  }

  // A framed payload parses back to itself, whatever follows it.
  lemma FrameRoundTrip(lim: Limits, payload: seq<byte>, trailing: seq<byte>)
    requires Wide(lim) && |payload| <= lim.maxAlloc && |payload| < 0x1_0000_0000
    ensures var input := BeBytes(|payload|, 4) + payload + trailing;
            |input| <= lim.sizeMax ==>
              ParseByHand(lim, true, input) == ParseByReader(lim, true, input) == Parsed(Ok, payload)
  {
    var input := BeBytes(|payload|, 4) + payload + trailing;
    if |input| <= lim.sizeMax {
      Powers();
      ValueOfBytes(|payload|, 4);
      assert input[..4] == BeBytes(|payload|, 4);
      assert input[4..4 + |payload|] == payload;
      ParsersAgree(lim, true, input);
    }
  }

  // ---------- the parsers over real memory ----------

  method ParseFramedMessage(heap: Heap, input: Ptr, n: nat) returns (r: Code, b: Buffer)
    requires heap.Valid() && Wide(heap.limits) && Span(input, n).Live(heap)
    modifies heap
    ensures b.Valid() && fresh(b)
    ensures Parsed(r, b.Contents()) ==
            ParseByHand(heap.limits, old(heap.grants), old(Span(input, n).Bytes(heap)))
  {
    hide DecodeU32Be;
    if n < 4 {
      b := new Buffer(heap);
      return ParseError, b;
    }
    var p, o := input.block, input.off;
    var declared := DecodeU32Be(heap.Load(p, o), heap.Load(p, o + 1), heap.Load(p, o + 2), heap.Load(p, o + 3));
    var end := CheckedAdd(heap.limits, 4, declared);
    if end.None? {
      b := new Buffer(heap);
      return Overflow, b;
    }
    if end.value > n {
      b := new Buffer(heap);
      return ParseError, b;
    }
    SliceBytes(heap, Span(input, n), 4, declared);
    r, b := Buffer.FromBytes(heap, At(p, o + 4), declared);
  }

  method Parse(heap: Heap, input: Ptr, n: nat) returns (r: Code, b: Buffer)
    requires heap.Valid() && Wide(heap.limits) && Span(input, n).Live(heap)
    modifies heap
    ensures b.Valid() && fresh(b)
    ensures Parsed(r, b.Contents()) ==
            ParseByReader(heap.limits, old(heap.grants), old(Span(input, n).Bytes(heap)))
  {
    hide DecodeU32Be, BeValue;
    var reader := new Reader(heap, Span(input, n));
    ghost var all := reader.All();
    if n >= 4 {
      DecodeU32BeIsPositional(all[0], all[1], all[2], all[3]);
      assert reader.Next(4) == [all[0], all[1], all[2], all[3]];
    }
    var len, body;
    r, len := reader.ReadU32Be();
    if r != Ok {
      b := new Buffer(heap);
      return;
    }
    r, body := reader.ReadView(len);
    if r != Ok {
      b := new Buffer(heap);
      return;
    }
    r, b := Buffer.FromBytes(heap, body.data, body.size);
  }
}
