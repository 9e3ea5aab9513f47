// The pointer-level string follows the step function of StringLaws over any run.
module StringRuns {
  import opened Base
  import opened Memory
  import opened Strings
  import opened Spec = StringSpec
  import opened StringLaws

  // A view of the string's own contents, as view() hands it out.
  method OwnView(s: OeString, off: nat, n: nat) returns (src: Ptr, len: nat)
    requires s.Valid()
    ensures s.View(src, len) && (src.At? ==> src.block == s.data)
    ensures s.Arg(src, len) == Some(Cut(Within(off, n), s.Contents()).In(s.Contents()))
    ensures len > 0 ==> s.ViewSource(src, len) == Cut(Within(off, n), s.Contents())
    ensures len == Cut(Within(off, n), s.Contents()).Len()
  {
    var start := Min(off, s.size);
    len := Min(n, s.size - start);
    src := if s.data == null then Null else At(s.data, start);
    if s.data != null {
      s.OwnBytes(start, len);
    }
  }

  method PerformAppend(s: OeString, arg: Option<seq<byte>>) returns (code: Code)
    requires s.Valid()
    modifies s, s.heap, s.data
    ensures s.Valid() && (s.data != old(s.data) ==> fresh(s.data)) && s.OwnsAsBefore()
    ensures Outcome(code, s.State()) == Append(s.heap.limits, old(s.heap.grants), old(s.State()), arg)
  {
    hide Append;
    if arg.None? {
      code := s.Append(Null, 1);
    } else {
      var block := s.heap.BorrowBytes(arg.value);
      code := s.Append(At(block, 0), |arg.value|);
      s.heap.Return(block);
    }
  }

  method PerformAssign(s: OeString, arg: Option<seq<byte>>) returns (code: Code)
    requires s.Valid()
    modifies s, s.heap, s.data
    ensures s.Valid() && (s.data != old(s.data) ==> fresh(s.data)) && s.OwnsAsBefore()
    ensures Outcome(code, s.State()) == Assign(s.heap.limits, old(s.heap.grants), old(s.State()), arg)
  {
    hide Assign;
    if arg.None? {
      code := s.Assign(Null, 1);
    } else {
      var block := s.heap.BorrowBytes(arg.value);
      code := s.Assign(At(block, 0), |arg.value|);
      s.heap.Return(block);
    }
  }

  lemma EmptySourcesAreAlike(lim: Limits, grants: bool, st: Text, pos: nat, length: nat, a: Source, b: Source)
    requires st.WellFormed(lim) && a.FitsIn(st.contents) && b.FitsIn(st.contents)
    requires a.Len() == b.Len() == 0
    ensures Insert(lim, grants, st, pos, a) == Insert(lim, grants, st, pos, b)
    ensures Replace(lim, grants, st, pos, length, a) == Replace(lim, grants, st, pos, length, b)
  {
    if pos + length <= |st.contents| {
      assert Fetched(st.contents, pos, length, a) == [] == Fetched(st.contents, pos, length, b);
    }
  }

  method PerformInsert(s: OeString, pos: nat, source: Source) returns (code: Code)
    requires s.Valid()
    modifies s, s.heap, s.data
    ensures s.Valid() && (s.data != old(s.data) ==> fresh(s.data)) && s.OwnsAsBefore()
    ensures Outcome(code, s.State()) ==
            Insert(s.heap.limits, old(s.heap.grants), old(s.State()), pos, Cut(source, old(s.Contents())))
  {
    hide Insert;
    ghost var st, grants := s.State(), s.heap.grants;
    match source
    case External(bytes) =>
      var block := s.heap.BorrowBytes(bytes);
      assert s.ViewSource(At(block, 0), |bytes|) == source;
      code := s.Insert(pos, At(block, 0), |bytes|);
      s.heap.Return(block);
    case Within(off, n) =>
      var src, len := OwnView(s, off, n);
      if len == 0 {
        EmptySourcesAreAlike(s.heap.limits, grants, st, pos, 0, External([]), Cut(source, st.contents));
      }
      code := s.Insert(pos, src, len);
  }

  method PerformReplace(s: OeString, pos: nat, length: nat, source: Source) returns (code: Code)
    requires s.Valid()
    modifies s, s.heap, s.data
    ensures s.Valid() && (s.data != old(s.data) ==> fresh(s.data)) && s.OwnsAsBefore()
    ensures Outcome(code, s.State()) ==
            Replace(s.heap.limits, old(s.heap.grants), old(s.State()), pos, length, Cut(source, old(s.Contents())))
  {
    hide Replace;
    ghost var st, grants := s.State(), s.heap.grants;
    match source
    case External(bytes) =>
      var block := s.heap.BorrowBytes(bytes);
      assert s.ViewSource(At(block, 0), |bytes|) == source;
      code := s.Replace(pos, length, At(block, 0), |bytes|);
      s.heap.Return(block);
    case Within(off, n) =>
      var src, len := OwnView(s, off, n);
      if len == 0 {
        EmptySourcesAreAlike(s.heap.limits, grants, st, pos, length, External([]), Cut(source, st.contents));
      }
      code := s.Replace(pos, length, src, len);
  }

  method Perform(s: OeString, op: Op) returns (code: Code)
    requires s.Valid()
    modifies s, s.heap, s.data
    ensures s.Valid() && (s.data != old(s.data) ==> fresh(s.data)) && s.OwnsAsBefore()
    ensures Outcome(code, s.State()) == Step(s.heap.limits, old(s.heap.grants), old(s.State()), op)
  {
    hide Append, Assign, Insert, Replace, Reserve;
    match op
    case OpAppendChar(c) => code := s.AppendChar(c);
    case OpAppend(arg) => code := PerformAppend(s, arg);
    case OpAppendSelf(off, n) =>
      var src, len := OwnView(s, off, n);
      code := s.Append(src, len);
    case OpAssign(arg) => code := PerformAssign(s, arg);
    case OpAssignSelf(off, n) =>
      var src, len := OwnView(s, off, n);
      code := s.Assign(src, len);
    case OpInsert(pos, source) => code := PerformInsert(s, pos, source);
    case OpReplace(pos, length, source) => code := PerformReplace(s, pos, length, source);
    case OpReserve(newCap) => code := s.Reserve(newCap);
    case OpClear =>
      s.Clear();
      code := Ok;
    case OpSecureClear =>
      s.SecureClear();
      code := Ok;
  }

  // Any run at all, with the allocator granting or refusing as it likes:
  // contents, capacity and codes are those of the step function, and verify()
  // holds at the end, hence after every prefix.
  method PerformAll(s: OeString, run: seq<Event>) returns (codes: seq<Code>)
    requires s.Valid()
    modifies s, s.heap, s.data
    ensures s.Valid() && s.Verify()
    ensures s.State() == After(s.heap.limits, old(s.State()), run)
    ensures codes == Codes(s.heap.limits, old(s.State()), run)
  {
    hide Step;
    codes := [];
    ghost var start := s.State();
    for i := 0 to |run|
      invariant s.Valid() && (s.data != old(s.data) ==> fresh(s.data))
      invariant s.State() == After(s.heap.limits, start, run[..i])
      invariant codes == Codes(s.heap.limits, start, run[..i])
    {
      s.heap.grants := run[i].grants;
      assert run[..i + 1][..i] == run[..i];
      var code := Perform(s, run[i].op);
      codes := codes + [code];
    }
    assert run[..|run|] == run;
  }
}
