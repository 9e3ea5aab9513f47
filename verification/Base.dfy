// Shared vocabulary: bytes, error codes, and the two build-time limits.
module Base {

  type byte = b: int | 0 <= b < 256

  // The terminator character.
  const NUL: byte := 0

  datatype Option<+T> = None | Some(value: T)

  // error_code, without the two codes no modelled operation returns, and one
  // outcome that is no error_code: NullStore says that the operation has stored
  // through a null pointer, so that it does not return at all.
  datatype Code =
    | Ok
    | OutOfMemory
    | InvalidArgument
    | OutOfRange
    | Overflow
    | Truncated
    | NotNullTerminated
    | CapacityExceeded
    | NullPointer
    | ParseError
    | NullStore

  // sizeMax is the largest size_t; maxAlloc is ONEDGE_MAX_ALLOC_BYTES.
  datatype RawLimits = Limits(sizeMax: nat, maxAlloc: nat)

  type Limits = l: RawLimits | 0 < l.maxAlloc <= l.sizeMax witness Limits(1, 1)

  function Max(a: int, b: int): int {
    if a < b then b else a
  }

  function Min(a: int, b: int): int {
    if a < b then a else b
  }

  // n copies of one byte.
  function Fill(n: nat, b: byte): (s: seq<byte>)
    ensures |s| == n && forall i :: 0 <= i < n ==> s[i] == b
  {
    seq(n, _ => b)
  }

  // s with the range [pos, pos+length) replaced by bs: what an edit promises.
  function Splice(s: seq<byte>, pos: nat, length: nat, bs: seq<byte>): (r: seq<byte>)
    requires pos + length <= |s|
    ensures |r| == |s| - length + |bs|
  {
    s[..pos] + bs + s[pos + length..]
  }

  lemma JoinedByIndex(r: seq<byte>, s: seq<byte>, bs: seq<byte>)
    requires |r| == |s| + |bs|
    requires forall i {:trigger r[i]} :: 0 <= i < |r| ==> r[i] == if i < |s| then s[i] else bs[i - |s|]
    ensures r == s + bs
  {}

  lemma SplicedByIndex(r: seq<byte>, s: seq<byte>, pos: nat, length: nat, bs: seq<byte>)
    requires pos + length <= |s| && |r| == |s| - length + |bs|
    requires forall i {:trigger r[i]} :: 0 <= i < |r| ==>
               r[i] == if i < pos then s[i]
                       else if i >= pos + |bs| then s[i + length - |bs|]
                       else bs[i - pos]
    ensures r == Splice(s, pos, length, bs)
  {}

  lemma SliceOfSlice<T>(s: seq<T>, at: nat, n: nat, off: nat, len: nat)
    requires at + n <= |s| && off + len <= n
    ensures s[at..at + n][off..off + len] == s[at + off..at + off + len]
  {
    var whole := s[at..at + n];
    assert forall i :: 0 <= i < n ==> whole[i] == s[at + i];
  }
}
