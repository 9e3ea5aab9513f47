// oe::buffer as a plain byte sequence with a capacity: what each operation
// means once pointers, blocks and moves are forgotten.
module BufferSpec {
  import opened Base
  import opened Growth

  datatype Store = Store(contents: seq<byte>, cap: nat) {
    predicate WellFormed(lim: Limits) {
      |contents| <= cap <= lim.maxAlloc
    }
  }

  const EMPTY: Store := Store([], 0)

  datatype Outcome = Outcome(code: Code, after: Store)

  // If the store can be grown to the size of the new contents, take them.
  function Become(lim: Limits, grants: bool, st: Store, contents: seq<byte>): Outcome {
    var g := BufferGrowth(lim, grants, st.cap, |contents|);
    if g.code == Ok then Outcome(Ok, Store(contents, g.cap)) else Outcome(g.code, st)
  }

  function Reserve(lim: Limits, grants: bool, st: Store, newCap: nat): Outcome {
    if newCap <= st.cap then Outcome(Ok, st)
    else if newCap > lim.maxAlloc then Outcome(CapacityExceeded, st)
    else if !grants then Outcome(OutOfMemory, st)
    else Outcome(Ok, st.(cap := newCap))
  }

  // Shrinking cuts, growing pads; bytes cut off earlier never come back.
  function Resize(lim: Limits, grants: bool, st: Store, newSize: nat, fill: byte): Outcome {
    Become(lim, grants, st,
           if newSize <= |st.contents| then st.contents[..newSize]
           else st.contents + Fill(newSize - |st.contents|, fill))
  }

  // The argument is None when the caller passed a null pointer and a length > 0.
  function Append(lim: Limits, grants: bool, st: Store, arg: Option<seq<byte>>): Outcome {
    match arg
    case None => Outcome(NullPointer, st)
    case Some(bytes) =>
      if bytes == [] then Outcome(Ok, st)
      else if |st.contents| + |bytes| > lim.sizeMax then Outcome(Overflow, st)
      else Become(lim, grants, st, st.contents + bytes)
  }

  function Write(lim: Limits, st: Store, offset: nat, arg: Option<seq<byte>>): Outcome {
    match arg
    case None => Outcome(NullPointer, st)
    case Some(bytes) =>
      if bytes == [] then Outcome(Ok, st)
      else if offset + |bytes| > lim.sizeMax then Outcome(Overflow, st)
      else if offset + |bytes| > |st.contents| then Outcome(OutOfRange, st)
      else Outcome(Ok, st.(contents := Splice(st.contents, offset, |bytes|, bytes)))
  }

  function Set(st: Store, i: nat, b: byte): Outcome {
    if i < |st.contents| then Outcome(Ok, st.(contents := st.contents[i := b]))
    else Outcome(OutOfRange, st)
  }

  function Clear(st: Store): Outcome {
    Outcome(Ok, st.(contents := []))
  }

  function FillAll(st: Store, b: byte): Outcome {
    Outcome(Ok, st.(contents := Base.Fill(|st.contents|, b)))
  }

  // with_capacity and from_bytes: the code of building a fresh buffer.
  function Create(lim: Limits, grants: bool, cap: nat): Code {
    if cap == 0 then Ok
    else if cap > lim.maxAlloc then CapacityExceeded
    else if !grants then OutOfMemory
    else Ok
  }
}
