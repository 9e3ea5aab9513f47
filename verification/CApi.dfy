// The C string entry points of c_api.cpp, and C strings taken from our own strings.
module CApi {
  import opened Base
  import opened Memory
  import opened Strings
  import Spec = StringSpec

  // Every suffix pointer of a string's own c_str() is a C string that ends
  // inside the contents or at the terminator, so it is a legal self-view, and
  // no scan for its end can run past the cap.
  lemma OwnSuffix(s: OeString, k: nat)
    requires s.Valid() && s.data != null && k <= s.size
    ensures var c := Spec.CutAtNul(s.Contents()[k..]);
            && Scannable(s.heap, At(s.data, k), s.heap.limits.maxAlloc)
            && CString(At(s.data, k)) == c
            && k + |c| <= s.size
            && |c| < s.heap.limits.maxAlloc
  {
    var suffix, rest := s.Contents()[k..], s.data[k..];
    var c := Spec.CutAtNul(suffix);
    assert rest[..|suffix|] == suffix;
    assert rest[|suffix|] == NUL;
    assert forall i :: 0 <= i < |c| ==> rest[i] == c[i];
    if |c| < |suffix| {
      assert rest[|c|] == suffix[|c|];
    }
    Spec.CutUnique(rest, |c|);
    assert rest[..|c|] == c;
  }

  // The scan loop of oe_string_append_cstr. Its contract is that of
  // BoundedStrlen, so the two agree on every input.
  method Scan(heap: Heap, cstr: Ptr) returns (i: nat, terminated: bool)
    requires cstr.At? && Scannable(heap, cstr, heap.limits.maxAlloc)
    ensures terminated <==> |CString(cstr)| < heap.limits.maxAlloc
    ensures i == Min(|CString(cstr)|, heap.limits.maxAlloc)
  {
    ghost var rest := cstr.block[cstr.off..];
    ghost var c := Spec.CutAtNul(rest);
    i := 0;
    while i < heap.limits.maxAlloc && heap.Load(cstr.block, cstr.off + i) != NUL
      invariant i <= |c| && i <= heap.limits.maxAlloc
      invariant i < heap.limits.maxAlloc ==> i < |rest|
      invariant forall j :: 0 <= j < i ==> cstr.block[cstr.off + j] == rest[j] == c[j]
    {
      assert cstr.block[cstr.off + i] == rest[i];
      i := i + 1;
    }
    if i < heap.limits.maxAlloc {
      assert rest[i] == NUL;
      Spec.CutEnds(rest, i);
    } else {
      assert cstr.block[cstr.off + (i - 1)] == c[i - 1];
    }
    terminated := !(i == heap.limits.maxAlloc && heap.Load(cstr.block, cstr.off + (i - 1)) != NUL);
  }

  // oe_string_append_cstr, for any C string: the string's own suffixes included.
  method AppendCstr(s: OeString, cstr: Ptr) returns (r: Code)
    requires s.Valid()
    requires cstr.At? ==> Scannable(s.heap, cstr, s.heap.limits.maxAlloc)
    requires cstr.At? && cstr.block == s.data ==> cstr.off <= s.size
    modifies s, s.heap, s.data
    ensures s.Valid() && s.OwnsAsBefore()
    ensures r != Ok ==> s.Untouched()
    ensures Spec.Outcome(r, s.State()) ==
            if cstr.Null? then Spec.Outcome(NullPointer, old(s.State()))
            else if old(|CString(cstr)|) >= s.heap.limits.maxAlloc then Spec.Outcome(NotNullTerminated, old(s.State()))
            else Spec.Append(s.heap.limits, old(s.heap.grants), old(s.State()), Some(old(CString(cstr))))
    ensures cstr.At? && cstr.block == old(s.data) ==>
            old(CString(cstr)) == Spec.CutAtNul(old(s.Contents())[cstr.off..]) && r != NotNullTerminated
  {
    hide Spec.CutAtNul;
    if cstr.Null? {
      return NullPointer;
    }
    if cstr.block == s.data {
      OwnSuffix(s, cstr.off);
    }
    var i, terminated := Scan(s.heap, cstr);
    if !terminated {
      return NotNullTerminated;
    }
    assert s.Arg(cstr, i) == Some(CString(cstr)) by {
      assert cstr.Bytes(i) == cstr.block[cstr.off..][..i];
    }
    r := s.Append(cstr, i);
  }

  // oe_string_copy_to_cstr: on truncation the count is computed again, and it
  // is the number of bytes that were written. A null out_copied gets no count.
  method CopyToCstr(s: OeString, out: Ptr, outLen: nat, wantsCount: bool) returns (r: Code, outCopied: Option<nat>)
    requires s.Valid()
    requires out.At? && outLen > 0 ==> s.heap.Readable(out, Min(s.size, outLen - 1) + 1)
    modifies if out.At? then {out.block} else {}
    ensures (out.At? && out.block == s.data) || (s.Valid() && s.State() == old(s.State()))
    ensures r == Ok <==> out.At? && s.size < outLen
    ensures r == Truncated <==> out.At? && 0 < outLen <= s.size
    ensures r in {Ok, Truncated} ==>
      && (forall i :: 0 <= i < s.size && i < outLen - 1 ==> out.block[out.off + i] == old(s.Contents())[i])
      && out.block[out.off + Min(s.size, outLen - 1)] == NUL
    ensures out.At? ==>
      forall i | 0 <= i < out.block.Length :: out.block[i] == old(out.block[i])
        || (r in {Ok, Truncated} && out.off <= i <= out.off + Min(s.size, outLen - 1))
    ensures outCopied == if !wantsCount then None
                         else Some(if r in {Ok, Truncated} then Min(s.size, outLen - 1) else 0)
  {
    var copied;
    r, copied := s.CopyToCstr(out, outLen);
    outCopied := None;
    if r != Ok {
      if r == Truncated && wantsCount && outLen > 0 {
        var available := s.size;
        outCopied := Some(if available < outLen - 1 then available else outLen - 1);
      } else if wantsCount {
        outCopied := Some(0);
      }
      return;
    }
    if wantsCount {
      outCopied := Some(copied);
    }
  }

  // from_cstr(s.c_str()): the contents up to the first NUL, unless memory runs out.
  method FromOwnCstr(s: OeString, literal: array<byte>) returns (r: Code, t: OeString)
    requires s.Valid()
    requires literal in s.heap.borrowed && literal[..] == [NUL]
    modifies s.heap
    ensures t.Valid() && s.Valid() && r in {Ok, OutOfMemory}
    ensures r == Ok ==> t.Contents() == Spec.CutAtNul(s.Contents())
  {
    var p := s.CStr(literal);
    if s.data != null {
      OwnSuffix(s, 0);
      assert s.Contents()[0..] == s.Contents();
    } else {
      assert literal[0..] == [NUL];
    }
    r, t := OeString.FromCstr(s.heap, p);
  }
}
