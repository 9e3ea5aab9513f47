// Clients of the writer and the reader: whole messages go out field by field
// and come back the same.
module Messages {
  import opened Base
  import opened Memory
  import opened Buffers
  import opened CheckedMath
  import opened Codec
  import opened Writers
  import opened Readers
  import Spec = BufferSpec

  method WriteField(w: Writer, f: Field) returns (r: Code)
    requires w.Valid()
    modifies w, w.Frame()
    ensures w.Valid() && (w.out != null && w.out.data != old(w.out.data) ==> fresh(w.out.data))
    ensures w.Wrote(r, Some(EncodeField(f)))
  {
    match f
    case U8(b) => r := w.WriteU8(b);
    case U16Be(h) => r := w.WriteU16Be(h);
    case U32Be(v) => r := w.WriteU32Be(v);
    case U32Le(v) => r := w.WriteU32Le(v);
    case U64Be(d) => r := w.WriteU64Be(d);
    case Raw(bytes) => r := w.WriteLocal(bytes);
  }

  lemma EncodeSnoc(fs: seq<Field>, f: Field)
    ensures Encode(fs + [f]) == Encode(fs) + EncodeField(f)
  {
    hide EncodeField;
    if fs == [] {
      assert [f][1..] == [];
    } else {
      EncodeSnoc(fs[1..], f);
      assert (fs + [f])[1..] == fs[1..] + [f];
    }
  }

  // One more field behind what has been written so far.
  method WriteNext(w: Writer, ghost done: seq<byte>, f: Field) returns (r: Code)
    requires w.Valid() && w.out != null
    requires w.out.Contents() == done && w.written == |done|
    modifies w, w.Frame()
    ensures w.Valid() && (w.out.data != old(w.out.data) ==> fresh(w.out.data))
    ensures w.out.heap.grants == old(w.out.heap.grants)
    ensures w.out.Contents() == if r == Ok then done + EncodeField(f) else done
    ensures w.written == |w.out.Contents()|
    ensures r != Ok ==> |done + EncodeField(f)| > w.out.heap.limits.maxAlloc || !w.out.heap.grants
  {
    hide EncodeField, Spec.Append;
    AppendOutcome(w.out.heap.limits, w.out.heap.grants, w.out.State(), EncodeField(f));
    r := WriteField(w, f);
  }

  lemma AppendOutcome(lim: Limits, grants: bool, st: Spec.Store, bytes: seq<byte>)
    requires st.WellFormed(lim)
    ensures var o, size := Spec.Append(lim, grants, st, Some(bytes)), |st.contents| + |bytes|;
            if o.code == Ok
            then o.after.contents == st.contents + bytes && size % (lim.sizeMax + 1) == size
            else o.after == st && (size > lim.maxAlloc || !grants)
  {
    var o, size := Spec.Append(lim, grants, st, Some(bytes)), |st.contents| + |bytes|;
    if o.code == Ok {
      assert bytes == [] ==> st.contents + bytes == st.contents;
      ModUnique(size, lim.sizeMax + 1, 0, size);
    }
  }

  // Writes the fields in order, stopping at the first refusal. The buffer then
  // holds the encoding of what was accepted, and the counter its length.
  method WriteAll(b: Buffer, fs: seq<Field>) returns (accepted: nat, written: nat)
    requires b.Valid() && b.size == 0
    modifies b, b.heap, b.data
    ensures b.Valid() && accepted <= |fs|
    ensures b.Contents() == Encode(fs[..accepted])
    ensures written == |b.Contents()|
    ensures accepted == |fs| || |Encode(fs[..accepted + 1])| > b.heap.limits.maxAlloc || !b.heap.grants
  {
    hide EncodeField;
    var w := new Writer(b);
    accepted := 0;
    while accepted < |fs|
      invariant w.out == b && w.Valid() && accepted <= |fs|
      invariant b.data != old(b.data) ==> fresh(b.data)
      invariant b.Contents() == Encode(fs[..accepted])
      invariant w.written == b.size
    {
      EncodeSnoc(fs[..accepted], fs[accepted]);
      assert fs[..accepted + 1] == fs[..accepted] + [fs[accepted]];
      var r := WriteNext(w, Encode(fs[..accepted]), fs[accepted]);
      if r != Ok {
        break;
      }
      accepted := accepted + 1;
    }
    written := w.written;
  }

  method ReadRaw(r: Reader, n: nat) returns (f: Option<Field>)
    requires r.Valid() && r.heap.Valid()
    modifies r, r.heap
    ensures r.Valid() && r.heap.Valid()
    ensures f == if n <= old(r.Remaining()) then Some(Raw(old(r.Next(n)))) else None
    ensures r.pos == if f.Some? then old(r.pos) + n else old(r.pos)
  {
    var out := r.heap.Borrow(n);
    var c := r.ReadBytes(At(out, 0), n);
    f := if c == Ok then Some(Raw(r.heap.LoadBytes(At(out, 0), n))) else None;
    r.heap.Return(out);
  }

  method ReadField(r: Reader, k: Kind) returns (f: Option<Field>)
    requires r.Valid() && r.heap.Valid()
    modifies r, r.heap
    ensures r.Valid() && r.heap.Valid()
    ensures f == if k.Width() <= old(r.Remaining()) then Some(DecodeField(k, old(r.Next(k.Width())))) else None
    ensures r.pos == if f.Some? then old(r.pos) + k.Width() else old(r.pos)
  {
    hide BeValue, Reversed;
    var c;
    match k
    case KU8 =>
      var v;
      c, v := r.ReadU8();
      f := if c == Ok then Some(U8(v)) else None;
    case KU16Be =>
      var v;
      c, v := r.ReadU16Be();
      f := if c == Ok then Some(U16Be(v)) else None;
    case KU32Be =>
      var v;
      c, v := r.ReadU32Be();
      f := if c == Ok then Some(U32Be(v)) else None;
    case KU32Le =>
      var v;
      c, v := r.ReadU32Le();
      f := if c == Ok then Some(U32Le(v)) else None;
    case KU64Be =>
      var v;
      c, v := r.ReadU64Be();
      f := if c == Ok then Some(U64Be(v)) else None;
    case KRaw(n) =>
      f := ReadRaw(r, n);
  }

  // Reads a schema field by field, stopping at the first refusal.
  method ReadAll(r: Reader, ks: seq<Kind>) returns (fs: Option<seq<Field>>)
    requires r.Valid() && r.heap.Valid()
    modifies r, r.heap
    ensures r.Valid() && r.heap.Valid()
    ensures fs == Decode(ks, old(r.Rest()))
    ensures fs.Some? ==> r.pos == old(r.pos) + TotalWidth(ks)
    decreases |ks|
  {
    hide DecodeField;
    if ks == [] {
      return Some([]);
    }
    var w := ks[0].Width();
    ghost var before := r.Rest();
    ghost var front := if w <= r.Remaining() then r.Next(w) else [];
    var f := ReadField(r, ks[0]);
    if f.None? {
      return None;
    }
    assert before[..w] == front && before[w..] == r.Rest();
    var rest := ReadAll(r, ks[1..]);
    fs := if rest.None? then None else Some([f.value] + rest.value);
  }

  // The promise of the codec, through the real buffer, writer and reader: if
  // every field was accepted, reading the same schema gives the fields back,
  // consumes exactly the bytes the writer counted, and leaves nothing over.
  method WriteThenRead(b: Buffer, fs: seq<Field>)
    returns (accepted: nat, written: nat, got: Option<seq<Field>>, consumed: nat, empty: bool)
    requires b.Valid() && b.size == 0
    modifies b, b.heap, b.data
    ensures accepted <= |fs|
    ensures accepted == |fs| ==> got == Some(fs) && consumed == written && empty
  {
    accepted, written := WriteAll(b, fs);
    var r := new Reader(b.heap, Span(if b.data == null then Null else At(b.data, 0), b.size));
    ghost var all := r.Rest();
    got := ReadAll(r, Kinds(fs));
    consumed, empty := r.pos, r.Empty();
    if accepted == |fs| {
      assert fs[..accepted] == fs;
      assert all == Encode(fs) + [];
      DecodesWhatWasEncoded(fs, []);
    }
  }
}
