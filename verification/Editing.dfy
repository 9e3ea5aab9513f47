// The in-place editing steps of insert and replace on one block, byte by byte,
// and when they add up to the splice the caller asked for.
module Editing {
  import opened Base
  import opened Memory
  import opened StringSpec

  // insert, once there is room: move the tail, then copy the source into the
  // gap. A self-view at or past pos has moved with the tail; one that straddles
  // pos is read partly from the gap, whose old bytes are still there.
  method InsertInPlace(heap: Heap, data: array<byte>, size: nat, pos: nat,
                       src: Ptr, n: nat, srcOffset: Option<nat>)
    requires data in heap.Live() && pos <= size && size + n <= data.Length <= heap.limits.sizeMax
    requires if srcOffset.Some? then srcOffset.value + n <= size
             else heap.Readable(src, n) && src.block != data
    modifies data
    ensures forall i {:trigger data[i]} :: 0 <= i < size + n ==>
              data[i] == if i < pos then old(data[i])
                         else if i >= pos + n then old(data[i - n])
                         else if srcOffset.Some? then old(data[srcOffset.value + i - pos])
                         else old(src.block[src.off + i - pos])
  {
    var tail := size - pos;
    if tail > 0 {
      heap.Memmove(data, pos + n, At(data, pos), tail);
    }
    var effective: Ptr;
    if srcOffset.Some? {
      var effOffset := if srcOffset.value >= pos then srcOffset.value + n else srcOffset.value;
      assert n > 0 ==> effOffset + n <= data.Length;
      effective := At(data, effOffset);
    } else {
      effective := src;
    }
    heap.Memmove(data, pos, effective, n);
  }

  // replace, once there is room. A self-view that starts before the tail is
  // read where it was, even if the moved tail lies there now: what ends up at
  // pos is Fetched.
  method ReplaceInPlace(heap: Heap, data: array<byte>, size: nat, pos: nat, length: nat,
                        src: Ptr, n: nat, srcOffset: Option<nat>, ghost source: Source)
    requires data in heap.Live() && pos + length <= size <= data.Length <= heap.limits.sizeMax
    requires size - length + n <= data.Length
    requires source.FitsIn(data[..size]) && source.Len() == n
    requires n > 0 ==> Located(heap, data, src, n, srcOffset, source)
    modifies data
    ensures var was := old(data[..size]);
            forall i {:trigger data[i]} :: 0 <= i < size - length + n ==>
              data[i] == if i < pos then was[i]
                         else if i >= pos + n then was[i + length - n]
                         else Fetched(was, pos, length, source)[i - pos]
  {
    var tailOffset := pos + length;
    var tail := size - tailOffset;
    if tail > 0 {
      heap.Memmove(data, pos + n, At(data, tailOffset), tail);
    }
    var effective: Ptr;
    if srcOffset.Some? {
      var effOffset := srcOffset.value;
      if srcOffset.value >= tailOffset {
        if n >= length {
          effOffset := effOffset + (n - length);
        } else {
          effOffset := effOffset - (length - n);
        }
      }
      assert n > 0 ==> effOffset + n <= data.Length;
      effective := At(data, effOffset);
    } else {
      effective := src;
    }
    if n > 0 {
      heap.Memmove(data, pos, effective, n);
    }
  }

  // Where the source of an edit is once the string has grown: where it was, or
  // at its old offset in the string's present block.
  ghost predicate Located(heap: Heap, data: array<byte>, src: Ptr, n: nat, srcOffset: Option<nat>, source: Source)
    reads heap, if src.At? then {src.block} else {}
  {
    match source
    case Within(off, _) => srcOffset == Some(off)
    case External(bytes) => srcOffset == None && heap.Readable(src, n) && src.block != data && bytes == src.Bytes(n)
  }

  // The in-place insert is a splice, for every source.
  method InsertBlock(heap: Heap, data: array<byte>, size: nat, pos: nat,
                     src: Ptr, n: nat, srcOffset: Option<nat>, ghost source: Source)
    requires data in heap.Live() && pos <= size && size + n <= data.Length <= heap.limits.sizeMax
    requires source.FitsIn(data[..size]) && source.Len() == n
    requires Located(heap, data, src, n, srcOffset, source)
    modifies data
    ensures data[..size + n] == Splice(old(data[..size]), pos, 0, source.In(old(data[..size])))
  {
    ghost var was := data[..size];
    ghost var bytes := source.In(was);
    InsertInPlace(heap, data, size, pos, src, n, srcOffset);
    SplicedByIndex(data[..size + n], was, pos, 0, bytes);
  }

  // The in-place replace leaves Replaced behind.
  method ReplaceBlock(heap: Heap, data: array<byte>, size: nat, pos: nat, length: nat,
                      src: Ptr, n: nat, srcOffset: Option<nat>, ghost source: Source)
    requires data in heap.Live() && pos + length <= size <= data.Length <= heap.limits.sizeMax
    requires size - length + n <= data.Length
    requires source.FitsIn(data[..size]) && source.Len() == n
    requires n > 0 ==> Located(heap, data, src, n, srcOffset, source)
    modifies data
    ensures data[..size - length + n] == Replaced(old(data[..size]), pos, length, source)
  {
    ghost var was := data[..size];
    ReplaceInPlace(heap, data, size, pos, length, src, n, srcOffset, source);
    SplicedByIndex(data[..size - length + n], was, pos, length, Fetched(was, pos, length, source));
  }

  // A self-view byte that replace reads from the tail instead of the view: the
  // view starts strictly inside the replaced range, the tail really moves, and
  // its new place reaches down over the view.
  predicate ReadsMovedTail(size: nat, pos: nat, length: nat, off: nat, n: nat) {
    && n > 0 && n != length
    && pos < off < pos + length
    && pos + length < size
    && off < size - length + n
  }

  // Replacing by a self-view is the promised splice, for every contents, exactly
  // when no view byte lies under the moved tail.
  lemma ReplaceIsSpliceIff(size: nat, pos: nat, length: nat, off: nat, n: nat)
    requires pos + length <= size && off + n <= size
    ensures (forall s: seq<byte> :: |s| == size ==>
               Replaced(s, pos, length, Within(off, n)) == Splice(s, pos, length, s[off..off + n]))
            <==> !ReadsMovedTail(size, pos, length, off, n)
  {
    if ReadsMovedTail(size, pos, length, off, n) {
      var k := Max(0, pos + n - off);
      var s := seq(size, i => if i == off + k then 1 else 0);
      var replaced := Replaced(s, pos, length, Within(off, n));
      assert replaced[pos + k] == s[off + k + length - n] == 0;
      assert Splice(s, pos, length, s[off..off + n])[pos + k] == s[off + k] == 1;
      assert |s| == size;
    } else {
      forall s: seq<byte> | |s| == size
        ensures Fetched(s, pos, length, Within(off, n)) == s[off..off + n]
      {}
    }
  }

  // Every other source gives the splice unconditionally.
  lemma ReplaceByExternalIsSplice(s: seq<byte>, pos: nat, length: nat, bytes: seq<byte>)
    requires pos + length <= |s|
    ensures Replaced(s, pos, length, External(bytes)) == Splice(s, pos, length, bytes)
  {}

  // The smallest kind of failure: "abcdef" with its first four bytes replaced
  // by its own "cd" becomes "efef".
  lemma ReplaceByOwnBytesCanMisread(a: byte, b: byte, c: byte, d: byte, e: byte, f: byte)
    ensures Replaced([a, b, c, d, e, f], 0, 4, Within(2, 2)) == [e, f, e, f]
    ensures Splice([a, b, c, d, e, f], 0, 4, [c, d]) == [c, d, e, f]
  {}
}
