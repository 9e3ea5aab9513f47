// oe::string as a plain byte sequence with a capacity.
module StringSpec {
  import opened Base
  import opened Growth

  datatype Text = Text(contents: seq<byte>, cap: nat) {
    // A string with storage keeps one byte of its block for the terminator.
    predicate WellFormed(lim: Limits) {
      |contents| <= cap && (cap > 0 ==> cap < lim.maxAlloc)
    }
  }

  const EMPTY: Text := Text([], 0)

  datatype Outcome = Outcome(code: Code, after: Text)

  // Where the bytes of an edit come from: elsewhere, or the string itself.
  datatype Source = External(bytes: seq<byte>) | Within(off: nat, n: nat) {

    function Len(): nat {
      if External? then |bytes| else n
    }

    predicate FitsIn(s: seq<byte>) {
      Within? ==> off + n <= |s|
    }

    // The bytes the caller sees when making the call.
    function In(s: seq<byte>): (bs: seq<byte>)
      requires FitsIn(s)
      ensures |bs| == Len()
    {
      if External? then bytes else s[off..off + n]
    }
  }

  function Become(lim: Limits, grants: bool, st: Text, contents: seq<byte>): Outcome {
    var g := StringGrowth(lim, grants, st.cap, |contents|);
    if g.code == Ok then Outcome(Ok, Text(contents, g.cap)) else Outcome(g.code, st)
  }

  function ReserveCode(lim: Limits, grants: bool, newCap: nat): Code {
    if newCap >= lim.sizeMax then Overflow
    else if newCap >= lim.maxAlloc then CapacityExceeded
    else if !grants then OutOfMemory
    else Ok
  }

  function Reserve(lim: Limits, grants: bool, st: Text, newCap: nat): Outcome {
    if newCap <= st.cap then Outcome(Ok, st)
    else
      var code := ReserveCode(lim, grants, newCap);
      Outcome(code, if code == Ok then st.(cap := newCap) else st)
  }

  function Clear(st: Text): Outcome {
    Outcome(Ok, st.(contents := []))
  }

  // None stands for a null pointer with a length > 0.
  function Append(lim: Limits, grants: bool, st: Text, arg: Option<seq<byte>>): Outcome {
    match arg
    case None => Outcome(NullPointer, st)
    case Some(bytes) =>
      if bytes == [] then Outcome(Ok, st)
      else if |st.contents| + |bytes| > lim.sizeMax then Outcome(Overflow, st)
      else Become(lim, grants, st, st.contents + bytes)
  }

  function Assign(lim: Limits, grants: bool, st: Text, arg: Option<seq<byte>>): Outcome {
    match arg
    case None => Outcome(NullPointer, st)
    case Some(bytes) =>
      if bytes == [] then Clear(st) else Become(lim, grants, st, bytes)
  }

  // Insertion is a splice for every source, the string itself included.
  function Insert(lim: Limits, grants: bool, st: Text, pos: nat, src: Source): Outcome
    requires src.FitsIn(st.contents)
  {
    if pos > |st.contents| then Outcome(OutOfRange, st)
    else if src.Len() == 0 then Outcome(Ok, st)
    else if |st.contents| + src.Len() > lim.sizeMax then Outcome(Overflow, st)
    else Become(lim, grants, st, Splice(st.contents, pos, 0, src.In(st.contents)))
  }

  // The terminator is stored even if there is no storage to store it in.
  function Replace(lim: Limits, grants: bool, st: Text, pos: nat, length: nat, src: Source): Outcome
    requires src.FitsIn(st.contents)
  {
    if pos + length > lim.sizeMax then Outcome(Overflow, st)
    else if pos + length > |st.contents| then Outcome(OutOfRange, st)
    else if |st.contents| - length + src.Len() > lim.sizeMax then Outcome(Overflow, st)
    else if st.cap == 0 && src.Len() == 0 then Outcome(NullStore, st)
    else Become(lim, grants, st, Replaced(st.contents, pos, length, src))
  }

  // What replace leaves behind.
  function Replaced(s: seq<byte>, pos: nat, length: nat, src: Source): (r: seq<byte>)
    requires pos + length <= |s| && src.FitsIn(s)
    ensures |r| == |s| - length + src.Len()
  {
    Splice(s, pos, length, Fetched(s, pos, length, src))
  }

  // Byte k of a self-view at off starts before the tail and lies where replace
  // moves the tail to.
  predicate UnderMovedTail(size: nat, pos: nat, length: nat, off: nat, n: nat, k: nat) {
    off < pos + length && pos + n <= off + k < size - length + n
  }

  // The bytes replace puts at pos. Bytes of a self-view that starts before the
  // tail are read after the tail has moved: where the moved tail lies on top of
  // them, tail bytes are read instead.
  function Fetched(s: seq<byte>, pos: nat, length: nat, src: Source): (bs: seq<byte>)
    requires pos + length <= |s| && src.FitsIn(s)
    ensures |bs| == src.Len()
  {
    match src
    case External(bytes) => bytes
    case Within(off, n) =>
      seq(n, k requires 0 <= k < n =>
        if UnderMovedTail(|s|, pos, length, off, n, k)
        then s[off + k + length - n]
        else s[off + k])
  }

  // from_bytes
  function Create(lim: Limits, grants: bool, len: nat): Code {
    if len == 0 then Ok else ReserveCode(lim, grants, len)
  }

  // The part of a byte sequence a C reader sees: up to the first NUL.
  function CutAtNul(s: seq<byte>): (c: seq<byte>)
    ensures |c| <= |s| && c == s[..|c|]
    ensures |c| < |s| ==> s[|c|] == NUL
    ensures forall i :: 0 <= i < |c| ==> c[i] != NUL
  {
    if s == [] || s[0] == NUL then [] else [s[0]] + CutAtNul(s[1..])
  }

  lemma CutEnds(s: seq<byte>, n: nat)
    requires n < |s| && s[n] == NUL
    ensures |CutAtNul(s)| <= n
  {
    assert forall i :: 0 <= i < |CutAtNul(s)| ==> s[i] != NUL;
  }

  lemma CutUnique(s: seq<byte>, n: nat)
    requires n < |s| && s[n] == NUL
    requires forall i :: 0 <= i < n ==> s[i] != NUL
    ensures CutAtNul(s) == s[..n]
  {
    assert |CutAtNul(s)| == n;
  }
}
