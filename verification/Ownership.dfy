// Any number of buffers and strings over one heap: at every moment the live
// heap blocks and the non-empty owners are in bijection.
module Ownership {
  import opened Base
  import opened Memory
  import opened Buffers
  import opened Strings
  import BufferRuns
  import StringLaws
  import StringRuns
  import BufferSpec
  import StringSpec
  import CApi

  // Which owner holds which block; empty owners do not appear.
  type Holdings = map<object, array<byte>>

  function Held(h: Holdings, o: object): array?<byte> {
    if o in h then h[o] else null
  }

  // Owners and blocks correspond one to one.
  ghost predicate Bijective(h: Holdings, blocks: set<array<byte>>) {
    && (forall o, p :: o in h && p in h && o != p ==> h[o] != h[p])
    && h.Values == blocks
  }

  // What h becomes when o ends up holding a.
  function Holding(h: Holdings, o: object, a: array?<byte>): Holdings {
    if a == null then h - {o} else h[o := a]
  }

  lemma Releases(h: Holdings, blocks: set<array<byte>>, o: object)
    requires Bijective(h, blocks)
    ensures Bijective(Holding(h, o, null), blocks - Opt(Held(h, o)))
  {
    var rest := h - {o};
    forall a | a in blocks && a != Held(h, o)
      ensures a in rest.Values
    {
      var p :| p in h && h[p] == a;
      assert p in rest && rest[p] == a;
    }
    forall a | a in rest.Values
      ensures a in blocks && a != Held(h, o)
    {
      var p :| p in rest && rest[p] == a;
      assert p in h && h[p] == a;
    }
  }

  lemma Acquires(h: Holdings, blocks: set<array<byte>>, o: object, a: array<byte>)
    requires Bijective(h, blocks) && o !in h && a !in blocks
    ensures Bijective(h[o := a], blocks + {a})
  {
    var more := h[o := a];
    forall c | c in blocks + {a}
      ensures c in more.Values
    {
      if c == a {
        assert o in more && more[o] == a;
      } else {
        var p :| p in h && h[p] == c;
        assert p in more && more[p] == c;
      }
    }
    forall p | p in h
      ensures h[p] != a
    {
      assert h[p] in h.Values;
    }
  }

  // o exchanges its block for a new one, keeps it, or is left with none.
  lemma Exchanges(h: Holdings, blocks: set<array<byte>>, o: object, a: array?<byte>) returns (h': Holdings)
    requires Bijective(h, blocks) && (a != null && a != Held(h, o) ==> a !in blocks)
    ensures Bijective(h', blocks - Opt(Held(h, o)) + Opt(a))
    ensures h'.Keys == if a == null then h.Keys - {o} else h.Keys + {o}
    ensures forall p: object {:trigger Held(h', p)} :: Held(h', p) == if p == o then a else Held(h, p)
  {
    h' := Holding(h, o, a);
    Releases(h, blocks, o);
    if a != null {
      Acquires(h - {o}, blocks - Opt(Held(h, o)), o, a);
      assert (h - {o})[o := a] == h[o := a];
    }
  }

  // to lets go of its block and takes over the one that from held.
  lemma TakesOver(h: Holdings, blocks: set<array<byte>>, from: object, to: object) returns (h': Holdings)
    requires Bijective(h, blocks) && from != to
    ensures Bijective(h', blocks - Opt(Held(h, to)))
    ensures h'.Keys <= h.Keys + {to}
    ensures forall p: object {:trigger Held(h', p)} ::
              Held(h', p) == if p == to then Held(h, from) else if p == from then null else Held(h, p)
  {
    Releases(h, blocks, to);
    var freed, left := Holding(h, to, null), blocks - Opt(Held(h, to));
    Releases(freed, left, from);
    var taken := Holding(freed, from, null);
    h' := Holding(taken, to, Held(h, from));
    if from in h {
      assert freed[from] in freed.Values;
      Acquires(taken, left - {h[from]}, to, h[from]);
      assert left - {h[from]} + {h[from]} == left;
    } else {
      assert h' == taken == freed;
    }
  }

  // ---------- the operations that take bytes by pointer ----------

  datatype BufferEdit = Appending | Writing(offset: nat)

  function EditedBuffer(lim: Limits, grants: bool, st: BufferSpec.Store, edit: BufferEdit, arg: Option<seq<byte>>)
    : BufferSpec.Outcome
  {
    match edit
    case Appending => BufferSpec.Append(lim, grants, st, arg)
    case Writing(offset) => BufferSpec.Write(lim, st, offset, arg)
  }

  method PerformBufferEdit(b: Buffer, edit: BufferEdit, src: Ptr, len: nat) returns (code: Code)
    requires b.Valid() && b.Source(src, len)
    modifies b, b.heap, b.data
    ensures b.Valid() && (b.data != old(b.data) ==> fresh(b.data)) && b.OwnsAsBefore()
    ensures BufferSpec.Outcome(code, b.State()) ==
            EditedBuffer(b.heap.limits, old(b.heap.grants), old(b.State()), edit, old(b.Arg(src, len)))
  {
    hide BufferSpec.Append, BufferSpec.Write;
    match edit
    case Appending => code := b.Append(src, len);
    case Writing(offset) => code := b.Write(offset, src, len);
  }

  datatype StringEdit = Appending | Assigning | Inserting(pos: nat) | Replacing(pos: nat, length: nat)

  function EditedString(lim: Limits, grants: bool, st: StringSpec.Text, edit: StringEdit, source: StringSpec.Source)
    : StringSpec.Outcome
    requires source.FitsIn(st.contents)
  {
    match edit
    case Appending => StringSpec.Append(lim, grants, st, Some(source.In(st.contents)))
    case Assigning => StringSpec.Assign(lim, grants, st, Some(source.In(st.contents)))
    case Inserting(pos) => StringSpec.Insert(lim, grants, st, pos, source)
    case Replacing(pos, length) => StringSpec.Replace(lim, grants, st, pos, length, source)
  }

  method PerformStringEdit(s: OeString, edit: StringEdit, src: Ptr, len: nat) returns (code: Code)
    requires s.Valid() && s.View(src, len)
    modifies s, s.heap, s.data
    ensures s.Valid() && (s.data != old(s.data) ==> fresh(s.data)) && s.OwnsAsBefore()
    ensures StringSpec.Outcome(code, s.State()) ==
            EditedString(s.heap.limits, old(s.heap.grants), old(s.State()), edit, old(s.ViewSource(src, len)))
  {
    assert s.Arg(src, len) == Some(s.ViewSource(src, len).In(s.Contents())) by {
      if len > 0 && src.block == s.data {
        assert s.data[..s.size][src.off..src.off + len] == s.data[src.off..src.off + len];
      }
    }
    hide StringSpec.Append, StringSpec.Assign, StringSpec.Insert, StringSpec.Replace;
    match edit
    case Appending => code := s.Append(src, len);
    case Assigning => code := s.Assign(src, len);
    case Inserting(pos) => code := s.Insert(pos, src, len);
    case Replacing(pos, length) => code := s.Replace(pos, length, src, len);
  }

  class Owners {
    const heap: Heap
    var buffers: set<Buffer>
    var strings: set<OeString>
    ghost var holdings: Holdings

    // Live heap blocks and non-empty owners are in bijection.
    ghost predicate Valid()
      reads this, heap, buffers, strings, set s | s in strings && s.data != null :: s.data
    {
      && heap.Valid()
      && Bijective(holdings, heap.owned)
      && KnownHolders()
      && BuffersHold()
      && StringsHold()
    }

    ghost predicate KnownHolders()
      reads this
    {
      forall o :: o in holdings ==> o in buffers || o in strings
    }

    ghost predicate BuffersHold()
      reads this, buffers
    {
      BuffersHoldBut({})
    }

    ghost predicate BuffersHoldBut(moved: set<Buffer>)
      reads this, buffers
    {
      forall b :: b in buffers ==>
        b.heap == heap && b.Sound() && (b !in moved ==> b.data == Held(holdings, b))
    }

    ghost predicate StringsHold()
      reads this, strings, set s | s in strings && s.data != null :: s.data
    {
      StringsHoldBut({})
    }

    ghost predicate StringsHoldBut(moved: set<OeString>)
      reads this, strings, set s | s in strings && s.data != null :: s.data
    {
      forall s :: s in strings ==>
        s.heap == heap && s.Sound() && (s !in moved ==> s.data == Held(holdings, s))
    }

    constructor (heap: Heap)
      requires heap.Valid() && heap.owned == {}
      ensures Valid() && this.heap == heap && buffers == {} && strings == {}
    {
      this.heap := heap;
      buffers, strings := {}, {};
      holdings := map[];
    }

    // No block is shared, and none is owned by nobody.
    lemma EveryBlockHasOneOwner()
      requires Valid()
      ensures forall b, c :: b in buffers && c in buffers && b != c && b.data != null ==> b.data != c.data
      ensures forall s, t :: s in strings && t in strings && s != t && s.data != null ==> s.data != t.data
      ensures forall b, s :: b in buffers && s in strings && b.data != null ==> b.data != s.data
      ensures forall a :: a in heap.owned ==>
                (exists b :: b in buffers && b.data == a) || (exists s :: s in strings && s.data == a)
    {
      forall a | a in heap.owned
        ensures (exists b :: b in buffers && b.data == a) || (exists s :: s in strings && s.data == a)
      {
        var o :| o in holdings && holdings[o] == a;
        if o in buffers {
          var b: Buffer :| b in buffers && b == o;
          assert b.data == a;
        } else {
          var s: OeString :| s in strings && s == o;
          assert s.data == a;
        }
      }
    }

    // Different owners hold different blocks.
    lemma HeldApart(o: object, p: object)
      requires Valid() && o != p
      ensures Held(holdings, o) != null ==> Held(holdings, o) != Held(holdings, p)
    {}

    lemma HeldIsLive(o: object)
      requires Valid()
      ensures Held(holdings, o) != null ==> Held(holdings, o) in heap.owned
    {
      if o in holdings {
        assert holdings[o] in holdings.Values;
      }
    }

    // No string other than o has the block of o.
    lemma NoStringHas(o: object)
      requires Valid() && Held(holdings, o) != null
      ensures forall s :: s in strings && s != o ==> s.data != Held(holdings, o)
    {}

    lemma NoBufferHas(o: object)
      requires Valid() && Held(holdings, o) != null
      ensures forall b :: b in buffers && b != o ==> b.data != Held(holdings, o)
    {}

    method NewBuffer() returns (b: Buffer)
      requires Valid()
      modifies this
      ensures Valid() && fresh(b)
      ensures fresh(heap.owned - old(heap.owned))
      ensures buffers == old(buffers) + {b} && strings == old(strings)
    {
      b := new Buffer(heap);
      buffers := buffers + {b};
    }

    method NewString() returns (s: OeString)
      requires Valid()
      modifies this
      ensures Valid() && fresh(s)
      ensures fresh(heap.owned - old(heap.owned))
      ensures buffers == old(buffers) && strings == old(strings) + {s}
    {
      s := new OeString(heap);
      strings := strings + {s};
    }

    // The books when a factory has returned b: on success it is an owner from now
    // on; on failure there is no object, and no block.
    method AdoptBuffer(code: Code, b: Buffer, ghost blocks: set<array<byte>>)
      requires heap.Valid() && KnownHolders() && BuffersHold() && StringsHold() && Bijective(holdings, blocks)
      requires b.heap == heap && b.Sound() && b !in buffers && b !in holdings
      requires heap.owned == blocks + Opt(b.data) && (b.data != null ==> b.data !in blocks)
      requires code != Ok ==> b.data == null
      modifies this
      ensures Valid()
      ensures buffers == old(buffers) + (if code == Ok then {b} else {}) && strings == old(strings)
    {
      hide Bijective;
      if code == Ok {
        buffers := buffers + {b};
        assert BuffersHoldBut({b});
        assert StringsHold();
        ReenterBuffer(b, blocks);
      } else {
        assert heap.owned == blocks;
      }
    }

    // The books when a factory has returned s: on success it is an owner from now
    // on; on failure there is no object, and no block.
    method AdoptString(code: Code, s: OeString, ghost blocks: set<array<byte>>)
      requires heap.Valid() && KnownHolders() && BuffersHold() && StringsHold() && Bijective(holdings, blocks)
      requires s.heap == heap && s.Sound() && s !in strings && s !in holdings
      requires heap.owned == blocks + Opt(s.data) && (s.data != null ==> s.data !in blocks)
      requires code != Ok ==> s.data == null
      modifies this
      ensures Valid()
      ensures strings == old(strings) + (if code == Ok then {s} else {}) && buffers == old(buffers)
    {
      hide Bijective;
      if code == Ok {
        strings := strings + {s};
        assert StringsHoldBut({s});
        assert BuffersHold();
        ReenterString(s, blocks);
      } else {
        assert heap.owned == blocks;
      }
    }

    // The factories: with_capacity, from_bytes, clone; from_cstr and substr.
    method BufferWithCapacity(initial: nat) returns (code: Code, b: Buffer)
      requires Valid()
      modifies this, heap
      ensures Valid() && fresh(b) && b.heap == heap && b.Valid()
      ensures fresh(heap.owned - old(heap.owned))
      ensures buffers == old(buffers) + (if code == Ok then {b} else {}) && strings == old(strings)
      ensures code == BufferSpec.Create(heap.limits, old(heap.grants), initial)
      ensures b.State() == BufferSpec.Store([], if code == Ok then initial else 0)
    {
      hide Bijective;
      code, b := Buffer.WithCapacity(heap, initial);
      AdoptBuffer(code, b, old(heap.owned));
    }

    method BufferFromBytes(src: Ptr, len: nat) returns (code: Code, b: Buffer)
      requires Valid()
      requires len > 0 && src.At? ==> heap.Readable(src, len)
      modifies this, heap
      ensures Valid() && fresh(b) && b.heap == heap && b.Valid()
      ensures fresh(heap.owned - old(heap.owned))
      ensures buffers == old(buffers) + (if code == Ok then {b} else {}) && strings == old(strings)
      ensures code == if len > 0 && src.Null? then NullPointer
                      else BufferSpec.Create(heap.limits, old(heap.grants), len)
      ensures b.State() == if code == Ok && len > 0 then BufferSpec.Store(old(src.Bytes(len)), len)
                           else BufferSpec.EMPTY
    {
      hide Bijective;
      code, b := Buffer.FromBytes(heap, src, len);
      AdoptBuffer(code, b, old(heap.owned));
    }

    method CloneBuffer(c: Buffer) returns (code: Code, b: Buffer)
      requires Valid() && c in buffers
      modifies this, heap
      ensures Valid() && fresh(b) && b.heap == heap && b.Valid()
      ensures fresh(heap.owned - old(heap.owned))
      ensures buffers == old(buffers) + (if code == Ok then {b} else {}) && strings == old(strings)
      ensures code == BufferSpec.Create(heap.limits, old(heap.grants), c.size)
      ensures b.State() == if code == Ok then BufferSpec.Store(old(c.Contents()), old(c.size)) else BufferSpec.EMPTY
    {
      HeldIsLive(c);
      hide Bijective;
      code, b := c.Clone();
      AdoptBuffer(code, b, old(heap.owned));
    }

    method StringWithCapacity(initial: nat) returns (code: Code, s: OeString)
      requires Valid()
      modifies this, heap
      ensures Valid() && fresh(s) && s.heap == heap && s.Valid()
      ensures fresh(heap.owned - old(heap.owned))
      ensures strings == old(strings) + (if code == Ok then {s} else {}) && buffers == old(buffers)
      ensures code == StringSpec.Create(heap.limits, old(heap.grants), initial)
      ensures s.State() == StringSpec.Text([], if code == Ok then initial else 0)
    {
      hide Bijective;
      code, s := OeString.WithCapacity(heap, initial);
      AdoptString(code, s, old(heap.owned));
    }

    method StringFromBytes(src: Ptr, len: nat) returns (code: Code, s: OeString)
      requires Valid()
      requires len > 0 && src.At? ==> heap.Readable(src, len)
      modifies this, heap
      ensures Valid() && fresh(s) && s.heap == heap && s.Valid()
      ensures fresh(heap.owned - old(heap.owned))
      ensures strings == old(strings) + (if code == Ok then {s} else {}) && buffers == old(buffers)
      ensures code == if len > 0 && src.Null? then NullPointer
                      else StringSpec.Create(heap.limits, old(heap.grants), len)
      ensures s.State() == if code == Ok && len > 0 then StringSpec.Text(old(src.Bytes(len)), len) else StringSpec.EMPTY
    {
      hide Bijective;
      code, s := OeString.FromBytes(heap, src, len);
      AdoptString(code, s, old(heap.owned));
    }

    method StringFromCstr(src: Ptr) returns (code: Code, s: OeString)
      requires Valid()
      requires src.At? ==> Scannable(heap, src, heap.limits.maxAlloc)
      modifies this, heap
      ensures Valid() && fresh(s) && s.heap == heap && s.Valid()
      ensures fresh(heap.owned - old(heap.owned))
      ensures strings == old(strings) + (if code == Ok then {s} else {}) && buffers == old(buffers)
      ensures code in {Ok, NullPointer, NotNullTerminated, OutOfMemory} && (code == Ok ==> src.At?)
      ensures s.State() == if code == Ok then StringSpec.Text(old(CString(src)), old(|CString(src)|))
                           else StringSpec.EMPTY
    {
      hide Bijective;
      code, s := OeString.FromCstr(heap, src);
      AdoptString(code, s, old(heap.owned));
    }

    method CloneString(t: OeString) returns (code: Code, s: OeString)
      requires Valid() && t in strings
      modifies this, heap
      ensures Valid() && fresh(s) && s.heap == heap && s.Valid()
      ensures fresh(heap.owned - old(heap.owned))
      ensures strings == old(strings) + (if code == Ok then {s} else {}) && buffers == old(buffers)
      ensures code == StringSpec.Create(heap.limits, old(heap.grants), t.size)
      ensures s.State() == if code == Ok then StringSpec.Text(old(t.Contents()), old(t.size)) else StringSpec.EMPTY
    {
      HeldIsLive(t);
      hide Bijective;
      code, s := t.Clone();
      AdoptString(code, s, old(heap.owned));
    }

    method SubstrOf(t: OeString, pos: nat, length: nat) returns (code: Code, s: OeString)
      requires Valid() && t in strings
      modifies this, heap
      ensures Valid() && fresh(s) && s.heap == heap && s.Valid()
      ensures fresh(heap.owned - old(heap.owned))
      ensures strings == old(strings) + (if code == Ok then {s} else {}) && buffers == old(buffers)
      ensures code == if pos + length > heap.limits.sizeMax then Overflow
                      else if pos + length > old(t.size) then OutOfRange
                      else StringSpec.Create(heap.limits, old(heap.grants), length)
      ensures s.State() == if code == Ok then StringSpec.Text(old(t.Contents())[pos..pos + length], length)
                           else StringSpec.EMPTY
    {
      HeldIsLive(t);
      hide Bijective;
      code, s := t.Substr(pos, length);
      AdoptString(code, s, old(heap.owned));
    }

    // The books after one owner has exchanged its block, or kept it.
    ghost method ReenterBuffer(b: Buffer, blocks: set<array<byte>>)
      requires heap.Valid() && KnownHolders() && StringsHold() && BuffersHoldBut({b})
      requires b in buffers && Bijective(holdings, blocks)
      requires heap.owned == blocks - Opt(Held(holdings, b)) + Opt(b.data)
      requires b.data != null && b.data != Held(holdings, b) ==> b.data !in blocks
      modifies this`holdings
      ensures Valid()
    {
      hide Bijective, Held, Heap.Valid, Buffer.Sound, OeString.Sound;
      var h := Exchanges(holdings, blocks, b, b.data);
      holdings := h;
      assert KnownHolders();
      assert BuffersHold();
      assert StringsHold();
    }

    // Any mutating operation on one buffer, growth included. It may write to that
    // buffer and its block alone, so what every other owner holds is as it was.
    method MutateBuffer(b: Buffer, op: BufferRuns.Op) returns (code: Code)
      requires Valid() && b in buffers
      modifies this`holdings, heap, b, b.data
      ensures Valid()
      ensures fresh(heap.owned - old(heap.owned))
      ensures BufferSpec.Outcome(code, b.State()) ==
              BufferRuns.Step(heap.limits, old(heap.grants), old(b.State()), op)
    {
      HeldIsLive(b);
      if b.data != null {
        NoStringHas(b);
      }
      hide BufferRuns.Step, Bijective;
      code := BufferRuns.Perform(b, op);
      assert BuffersHoldBut({b});
      assert StringsHold();
      ReenterBuffer(b, old(heap.owned));
    }

    // The books after one owner has exchanged its block, or kept it.
    ghost method ReenterString(s: OeString, blocks: set<array<byte>>)
      requires heap.Valid() && KnownHolders() && BuffersHold() && StringsHoldBut({s})
      requires s in strings && Bijective(holdings, blocks)
      requires heap.owned == blocks - Opt(Held(holdings, s)) + Opt(s.data)
      requires s.data != null && s.data != Held(holdings, s) ==> s.data !in blocks
      modifies this`holdings
      ensures Valid()
    {
      hide Bijective, Held, Heap.Valid, Buffer.Sound, OeString.Sound;
      var h := Exchanges(holdings, blocks, s, s.data);
      holdings := h;
      assert KnownHolders();
      assert BuffersHold();
      assert StringsHold();
    }

    method MutateString(s: OeString, op: StringLaws.Op) returns (code: Code)
      requires Valid() && s in strings
      modifies this`holdings, heap, s, s.data
      ensures Valid()
      ensures fresh(heap.owned - old(heap.owned))
      ensures StringSpec.Outcome(code, s.State()) ==
              StringLaws.Step(heap.limits, old(heap.grants), old(s.State()), op)
    {
      HeldIsLive(s);
      if s.data != null {
        NoStringHas(s);
      }
      hide StringLaws.Step, Bijective;
      code := StringRuns.Perform(s, op);
      assert StringsHoldBut({s});
      assert BuffersHold();
      ReenterString(s, old(heap.owned));
    }

    // The bytes a caller may pass to any owner: none, storage of its own, or a
    // view of what some owner holds, be it the owner called or another.
    ghost predicate Usable(src: Ptr, len: nat)
      reads this, heap, buffers, strings
    {
      && heap.Known(src)
      && (len > 0 && src.At? ==> heap.Readable(src, len))
      && (forall b :: b in buffers ==> b.heap == heap && b.Source(src, len))
      && (forall s :: s in strings ==> s.heap == heap && s.Source(src, len))
    }

    method ViewBuffer(b: Buffer, off: nat, n: nat) returns (src: Ptr, len: nat)
      requires Valid() && b in buffers
      ensures Usable(src, len) && b.Source(src, len)
      ensures b.Arg(src, len) == Some(BufferRuns.View(b.Contents(), off, n))
    {
      HeldIsLive(b);
      src, len := BufferRuns.OwnView(b, off, n);
      if b.data != null {
        NoStringHas(b);
        NoBufferHas(b);
      }
    }

    method ViewString(s: OeString, off: nat, n: nat) returns (src: Ptr, len: nat)
      requires Valid() && s in strings
      ensures Usable(src, len) && s.Source(src, len)
      ensures s.Arg(src, len) ==
              Some(StringLaws.Cut(StringSpec.Within(off, n), s.Contents()).In(s.Contents()))
    {
      HeldIsLive(s);
      src, len := StringRuns.OwnView(s, off, n);
      if s.data != null {
        NoStringHas(s);
        NoBufferHas(s);
      }
    }

    // append and write, with the bytes taken from any of these.
    method EditBufferFrom(b: Buffer, edit: BufferEdit, src: Ptr, len: nat) returns (code: Code)
      requires Valid() && b in buffers && Usable(src, len)
      modifies this`holdings, heap, b, b.data
      ensures Valid()
      ensures fresh(heap.owned - old(heap.owned))
      ensures BufferSpec.Outcome(code, b.State()) ==
              EditedBuffer(heap.limits, old(heap.grants), old(b.State()), edit, old(b.Arg(src, len)))
    {
      HeldIsLive(b);
      if b.data != null {
        NoStringHas(b);
      }
      hide EditedBuffer, Bijective;
      code := PerformBufferEdit(b, edit, src, len);
      assert BuffersHoldBut({b});
      assert StringsHold();
      ReenterBuffer(b, old(heap.owned));
    }

    // append, assign, insert and replace, with the bytes taken from any of these.
    method EditStringFrom(s: OeString, edit: StringEdit, src: Ptr, len: nat) returns (code: Code)
      requires Valid() && s in strings && Usable(src, len) && (len > 0 ==> src.At?)
      modifies this`holdings, heap, s, s.data
      ensures Valid()
      ensures fresh(heap.owned - old(heap.owned))
      ensures StringSpec.Outcome(code, s.State()) ==
              EditedString(heap.limits, old(heap.grants), old(s.State()), edit, old(s.ViewSource(src, len)))
    {
      HeldIsLive(s);
      if s.data != null {
        NoStringHas(s);
      }
      hide EditedString, Bijective;
      code := PerformStringEdit(s, edit, src, len);
      assert StringsHoldBut({s});
      assert BuffersHold();
      ReenterString(s, old(heap.owned));
    }

    // The books after src has given its block to dst, and dst's own was freed.
    ghost method RebookBuffer(dst: Buffer, src: Buffer, blocks: set<array<byte>>)
      requires heap.Valid() && KnownHolders() && StringsHold() && BuffersHoldBut({dst, src})
      requires dst in buffers && src in buffers && src != dst
      requires dst.data == Held(holdings, src) && src.data == null
      requires Bijective(holdings, blocks) && heap.owned == blocks - Opt(Held(holdings, dst))
      modifies this`holdings
      ensures Valid()
    {
      hide Bijective, Held, Heap.Valid, Buffer.Sound, OeString.Sound;
      var h := TakesOver(holdings, blocks, src, dst);
      holdings := h;
    }

    method MoveConstructBuffer(other: Buffer) returns (b: Buffer)
      requires Valid() && other in buffers
      modifies this, other
      ensures Valid() && fresh(b)
      ensures fresh(heap.owned - old(heap.owned))
      ensures buffers == old(buffers) + {b} && strings == old(strings)
      ensures b.State() == old(other.State()) && other.State() == BufferSpec.EMPTY
    {
      HeldIsLive(other);
      hide Bijective;
      b := Buffer.MoveFrom(other);
      buffers := buffers + {b};
      assert heap.owned == heap.owned - Opt(Held(holdings, b));
      assert BuffersHoldBut({b, other});
      assert StringsHold();
      RebookBuffer(b, other, heap.owned);
    }

    // Self-assignment is allowed and does nothing.
    method MoveAssignBuffer(dst: Buffer, src: Buffer)
      requires Valid() && dst in buffers && src in buffers
      modifies this`holdings, heap, dst, src
      ensures Valid()
      ensures fresh(heap.owned - old(heap.owned))
      ensures dst.State() == old(src.State())
      ensures src != dst ==> src.State() == BufferSpec.EMPTY
    {
      if src == dst {
        dst.MoveAssign(src);
      } else {
        TakeOverBuffer(dst, src);
      }
    }

    method TakeOverBuffer(dst: Buffer, src: Buffer)
      requires Valid() && dst in buffers && src in buffers && src != dst
      modifies this`holdings, heap, dst, src
      ensures Valid()
      ensures fresh(heap.owned - old(heap.owned))
      ensures dst.State() == old(src.State()) && src.State() == BufferSpec.EMPTY
    {
      HeldIsLive(dst);
      HeldIsLive(src);
      HeldApart(dst, src);
      hide Bijective;
      dst.MoveAssign(src);
      assert heap.owned == old(heap.owned) - Opt(old(dst.data));
      assert BuffersHoldBut({dst, src});
      assert StringsHold();
      RebookBuffer(dst, src, old(heap.owned));
    }

    // The books after src has given its block to dst, and dst's own was freed.
    ghost method RebookString(dst: OeString, src: OeString, blocks: set<array<byte>>)
      requires heap.Valid() && KnownHolders() && BuffersHold() && StringsHoldBut({dst, src})
      requires dst in strings && src in strings && src != dst
      requires dst.data == Held(holdings, src) && src.data == null
      requires Bijective(holdings, blocks) && heap.owned == blocks - Opt(Held(holdings, dst))
      modifies this`holdings
      ensures Valid()
    {
      hide Bijective, Held, Heap.Valid, Buffer.Sound, OeString.Sound;
      var h := TakesOver(holdings, blocks, src, dst);
      holdings := h;
    }

    method MoveConstructString(other: OeString) returns (s: OeString)
      requires Valid() && other in strings
      modifies this, other
      ensures Valid() && fresh(s)
      ensures fresh(heap.owned - old(heap.owned))
      ensures strings == old(strings) + {s} && buffers == old(buffers)
      ensures s.State() == old(other.State()) && other.State() == StringSpec.EMPTY
    {
      HeldIsLive(other);
      hide Bijective;
      s := OeString.MoveFrom(other);
      strings := strings + {s};
      assert heap.owned == heap.owned - Opt(Held(holdings, s));
      assert StringsHoldBut({s, other});
      assert BuffersHold();
      RebookString(s, other, heap.owned);
    }

    // Self-assignment is allowed and does nothing.
    method MoveAssignString(dst: OeString, src: OeString)
      requires Valid() && dst in strings && src in strings
      modifies this`holdings, heap, dst, src
      ensures Valid()
      ensures fresh(heap.owned - old(heap.owned))
      ensures dst.State() == old(src.State())
      ensures src != dst ==> src.State() == StringSpec.EMPTY
    {
      if src == dst {
        dst.MoveAssign(src);
      } else {
        TakeOverString(dst, src);
      }
    }

    method TakeOverString(dst: OeString, src: OeString)
      requires Valid() && dst in strings && src in strings && src != dst
      modifies this`holdings, heap, dst, src
      ensures Valid()
      ensures fresh(heap.owned - old(heap.owned))
      ensures dst.State() == old(src.State()) && src.State() == StringSpec.EMPTY
    {
      HeldIsLive(dst);
      HeldIsLive(src);
      HeldApart(dst, src);
      hide Bijective;
      dst.MoveAssign(src);
      assert heap.owned == old(heap.owned) - Opt(old(dst.data));
      assert StringsHoldBut({dst, src});
      assert BuffersHold();
      RebookString(dst, src, old(heap.owned));
    }

    // The books after an owner that is gone has freed its block.
    ghost method ForgetOwner(o: object, blocks: set<array<byte>>)
      requires heap.Valid() && BuffersHold() && StringsHold() && Bijective(holdings, blocks)
      requires o !in buffers && o !in strings
      requires forall p :: p in holdings && p != o ==> p in buffers || p in strings
      requires heap.owned == blocks - Opt(Held(holdings, o))
      modifies this`holdings
      ensures Valid()
    {
      hide Bijective, Held, Heap.Valid, Buffer.Sound, OeString.Sound;
      assert heap.owned == blocks - Opt(Held(holdings, o)) + Opt(null);
      var h := Exchanges(holdings, blocks, o, null);
      holdings := h;
      assert KnownHolders();
      assert BuffersHold();
      assert StringsHold();
    }

    // free() is only ever handed a live block or null, so never the same twice.
    method DestroyBuffer(b: Buffer)
      requires Valid() && b in buffers
      modifies this, heap
      ensures Valid()
      ensures fresh(heap.owned - old(heap.owned))
      ensures buffers == old(buffers) - {b} && strings == old(strings)
    {
      HeldIsLive(b);
      hide Bijective;
      b.Destroy();
      buffers := buffers - {b};
      assert BuffersHold();
      assert StringsHold();
      ForgetOwner(b, old(heap.owned));
    }

    method DestroyString(s: OeString)
      requires Valid() && s in strings
      modifies this, heap
      ensures Valid()
      ensures fresh(heap.owned - old(heap.owned))
      ensures strings == old(strings) - {s} && buffers == old(buffers)
    {
      HeldIsLive(s);
      hide Bijective;
      s.Destroy();
      strings := strings - {s};
      assert BuffersHold();
      assert StringsHold();
      ForgetOwner(s, old(heap.owned));
    }

    // ---------- any run ----------

    // Null, bytes of the caller's own, or a view of any owner's contents.
    method AnySource() returns (src: Ptr, len: nat)
      requires Valid()
      modifies heap
      ensures Valid() && heap.owned == old(heap.owned)
      ensures Usable(src, len)
    {
      src, len := Null, 0;
      if {
        case true =>
          len := *;
          assert Usable(src, len);
        case true => src, len := CallersBytes();
        case buffers != {} =>
          var b: Buffer :| b in buffers;
          var off: nat, n: nat := *, *;
          src, len := ViewBuffer(b, off, n);
        case strings != {} =>
          var s: OeString :| s in strings;
          var off: nat, n: nat := *, *;
          src, len := ViewString(s, off, n);
      }
    }

    method CallersBytes() returns (src: Ptr, len: nat)
      requires Valid()
      modifies heap
      ensures Valid() && heap.owned == old(heap.owned)
      ensures Usable(src, len)
    {
      hide Bijective;
      var bytes: seq<byte> := *;
      var block := heap.BorrowBytes(bytes);
      src, len := At(block, 0), |bytes|;
      assert BuffersHold();
      assert StringsHold();
    }

    // A C string: null, the caller's own, or a suffix of a string's c_str().
    method AnyCstr() returns (src: Ptr)
      requires Valid()
      modifies heap
      ensures Valid() && heap.owned == old(heap.owned)
      ensures src.At? ==> Scannable(heap, src, heap.limits.maxAlloc)
    {
      src := Null;
      if {
        case true =>
        case true => src := CallersCstr();
        case strings != {} =>
          var s: OeString :| s in strings;
          HeldIsLive(s);
          var k: nat := *;
          if s.data != null && k <= s.size {
            CApi.OwnSuffix(s, k);
            src := At(s.data, k);
          }
      }
    }

    method CallersCstr() returns (src: Ptr)
      requires Valid()
      modifies heap
      ensures Valid() && heap.owned == old(heap.owned)
      ensures src.At? && Scannable(heap, src, heap.limits.maxAlloc)
    {
      hide Bijective;
      var bytes: seq<byte> := *;
      var block := heap.BorrowBytes(bytes + [NUL]);
      src := At(block, 0);
      assert block[0..] == bytes + [NUL];
      StringSpec.CutEnds(block[0..], |bytes|);
      assert BuffersHold();
      assert StringsHold();
    }

    method AnyBufferFactory()
      requires Valid()
      modifies this, heap
      ensures Valid() && strings == old(strings)
      ensures fresh(buffers - old(buffers)) && fresh(heap.owned - old(heap.owned))
    {
      if {
        case true => var _ := NewBuffer();
        case true =>
          var n: nat := *;
          var _, _ := BufferWithCapacity(n);
        case true =>
          var src, len := AnySource();
          var _, _ := BufferFromBytes(src, len);
        case buffers != {} =>
          var c: Buffer :| c in buffers;
          var _, _ := CloneBuffer(c);
      }
    }

    method AnyStringFactory()
      requires Valid()
      modifies this, heap
      ensures Valid() && buffers == old(buffers)
      ensures fresh(strings - old(strings)) && fresh(heap.owned - old(heap.owned))
    {
      if {
        case true => var _ := NewString();
        case true =>
          var n: nat := *;
          var _, _ := StringWithCapacity(n);
        case true =>
          var src, len := AnySource();
          var _, _ := StringFromBytes(src, len);
        case true =>
          var src := AnyCstr();
          var _, _ := StringFromCstr(src);
        case strings != {} => AnyStringCopy();
      }
    }

    method AnyStringCopy()
      requires Valid() && strings != {}
      modifies this, heap
      ensures Valid() && buffers == old(buffers)
      ensures fresh(strings - old(strings)) && fresh(heap.owned - old(heap.owned))
    {
      var t: OeString :| t in strings;
      if {
        case true => var _, _ := CloneString(t);
        case true =>
          var pos: nat, length: nat := *, *;
          var _, _ := SubstrOf(t, pos, length);
      }
    }

    method AnyBufferMutation(b: Buffer)
      requires Valid() && b in buffers
      modifies this`holdings, heap, b, heap.owned
      ensures Valid() && fresh(heap.owned - old(heap.owned))
    {
      hide BufferRuns.Step, EditedBuffer;
      HeldIsLive(b);
      if {
        case true =>
          var op: BufferRuns.Op := *;
          var _ := MutateBuffer(b, op);
        case true =>
          var edit: BufferEdit := *;
          var src, len := AnySource();
          var _ := EditBufferFrom(b, edit, src, len);
      }
    }

    method AnyStringMutation(s: OeString)
      requires Valid() && s in strings
      modifies this`holdings, heap, s, heap.owned
      ensures Valid() && fresh(heap.owned - old(heap.owned))
    {
      hide StringLaws.Step, EditedString;
      HeldIsLive(s);
      if {
        case true =>
          var op: StringLaws.Op := *;
          var _ := MutateString(s, op);
        case true =>
          var edit: StringEdit := *;
          var src, len := AnySource();
          if len > 0 ==> src.At? {
            var _ := EditStringFrom(s, edit, src, len);
          }
      }
    }

    method AnyBufferStep()
      requires Valid() && buffers != {}
      modifies this, heap, buffers, heap.owned
      ensures Valid() && strings == old(strings)
      ensures fresh(buffers - old(buffers)) && fresh(heap.owned - old(heap.owned))
    {
      var b: Buffer, c: Buffer :| b in buffers && c in buffers;
      if {
        case true => AnyBufferMutation(b);
        case true => var _ := MoveConstructBuffer(b);
        case true => MoveAssignBuffer(b, c);
        case true => DestroyBuffer(b);
      }
    }

    method AnyStringStep()
      requires Valid() && strings != {}
      modifies this, heap, strings, heap.owned
      ensures Valid() && buffers == old(buffers)
      ensures fresh(strings - old(strings)) && fresh(heap.owned - old(heap.owned))
    {
      var s: OeString, t: OeString :| s in strings && t in strings;
      if {
        case true => AnyStringMutation(s);
        case true => var _ := MoveConstructString(s);
        case true => MoveAssignString(s, t);
        case true => DestroyString(s);
      }
    }

    // One step of a program that uses the library.
    method AnyStep()
      requires Valid()
      modifies this, heap, buffers, strings, heap.owned
      ensures Valid()
      ensures fresh(buffers - old(buffers)) && fresh(strings - old(strings))
      ensures fresh(heap.owned - old(heap.owned))
    {
      if {
        case true => AnyBufferFactory();
        case true => AnyStringFactory();
        case buffers != {} => AnyBufferStep();
        case strings != {} => AnyStringStep();
      }
    }

    // Any interleaving of operations on any owners, starting with none, with
    // memory granted or refused at every step: no step needs more than the
    // bijection, and every step keeps it.
    method AnyRun(steps: nat)
      requires Valid() && buffers == {} && strings == {}
      modifies this, heap
      ensures Valid() && fresh(buffers) && fresh(strings)
    {
      EmptyBooks();
      for i := 0 to steps
        invariant Valid() && fresh(buffers) && fresh(strings) && fresh(heap.owned)
      {
        heap.grants := *;
        AnyStep();
      }
    }

    lemma EmptyBooks()
      requires Valid() && buffers == {} && strings == {}
      ensures heap.owned == {}
    {
      assert holdings == map[];
    }

    // When every owner is gone, so is every block.
    method DestroyAll()
      requires Valid()
      modifies this, heap
      ensures Valid() && buffers == {} && strings == {}
      ensures heap.owned == {}
    {
      while buffers != {}
        invariant Valid() && strings == old(strings)
        decreases buffers
      {
        var b: Buffer :| b in buffers;
        DestroyBuffer(b);
      }
      while strings != {}
        invariant Valid() && buffers == {}
        decreases strings
      {
        var s: OeString :| s in strings;
        DestroyString(s);
      }
    }
  }
}
