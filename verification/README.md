# Verification of onedge

onedge is a small C++17 library of bounds-checked byte containers. Its claims
are about memory: a buffer or string may be appended to, inserted into or
overwritten with a view of *itself*, across a `realloc`, and the result is still
the edit that was asked for; a refused operation changes nothing; no block is
leaked or freed twice; what a `writer` wrote a `reader` reads back. This project
models the library down to blocks and pointers and proves those claims, and says
exactly where one of them does not hold.

## How it is modelled

- `Memory.Heap` is a C heap. A block is an array, a pointer is a block and an
  offset, every block has an integer address, and live blocks do not overlap.
  `realloc` gives a new block at any free address (the old one's included) and
  kills the old one. All modelled code reads and writes blocks through
  `Heap.Load`, `LoadBytes`, `Store`, `Memmove`, `Memset` and `SecureZero` only;
  each demands that the block is live, so a use of a stale pointer does not
  verify. `pointer_in_range` compares integer addresses, as the code does; that
  this decides aliasing is proved.
  `memmove`, `realloc` and `free` have their ISO C11 contracts (sections
  7.24.2.2, 7.22.3.5 and 7.22.3.3). Whether memory is granted is the field
  `grants`, which the environment sets as it likes between operations.
- `Base.Limits` holds `SIZE_MAX` and `ONEDGE_MAX_ALLOC_BYTES`, both symbolic.
- `Buffers.Buffer`, `Strings.OeString`, `FixedBuffers.FixedBuffer`,
  `Writers.Writer` and `Readers.Reader` are classes with the fields of the
  originals, whose methods move bytes in place. Each method is proved against a
  pure specification (`BufferSpec`, `StringSpec`, `Codec`), written in unbounded
  arithmetic on byte sequences; the laws are proved about that specification,
  and what it says of each operation is proved again byte by byte.
- Every audit macro is an `assert` at the entry of the method that carries it.

## What is proved

- **In-place edits.** `insert`, `append`, `assign` and `buffer::write` are plain
  splices for every external view and every self-view inside the contents, with
  or without reallocation, and read only live memory. `replace` is a splice for
  every external view; for a self-view at `off` it is one, for all contents,
  if and only if the view does not start strictly inside the replaced range
  while the moved tail comes to lie on it (`Editing.ReplaceIsSpliceIff`). In the
  remaining case the bytes it reads instead are determined exactly. The table
  in the repository's README (line 89) counts replace among the operations that
  handle an aliased source, without that exception; the code is what is modelled
  here.
- **Each operation.** When it succeeds, the code of every refusal, every byte
  afterwards and the capacity are stated in indices and sums alone, without the
  specification's own notions (`BufferMeaning`, `StringMeaning`, and the lemmas
  of `Codec`, `Readers` and `Frames` whose names end in `Mean`, `Means` or
  `Codes`). For `replace` this includes the bytes of the misread case.
- **Runs.** Any run of operations on a buffer or string, from any valid state and
  with memory granted or refused at every step, has the contents, capacities and
  codes of a pure step function; every reachable state passes `verify()`; a
  refusal changes nothing.
- **Growth.** Success of growth is decided exactly. That growth is amortised, in
  the sense that a run without explicit reserve moves no more bytes than its
  final capacity, holds only up to a size: for every cap and every bound on the
  sizes of a run it is decided whether all runs within the bound have the
  property. With a cap `M` of at least 126 bytes the largest such bound is
  `M / 2 + 1` (`BufferRuns.RunsAreAmortisedIff`, `StringLaws.RunsAreAmortisedIff`,
  which cover the smaller caps too). Past it doubling no longer fits the cap and
  every byte may cost a reallocation: a buffer capped at 100 and resized to 1, 33
  and 65 moves 96 bytes to end with a capacity of 65. With a cap of 2^30 bytes a
  string grown one character at a time stops at exactly 2^29 of them.
- **Ownership.** Over any interleaving of construction (by every factory, those
  that hand over a block included), mutation with bytes from anywhere (another
  owner's contents included), moves (self-moves included) and destruction of any
  number of buffers and strings, live heap blocks and non-empty owners are in
  bijection.
- **`fixed_buffer<N>`** cannot be told from a buffer capped at `N`, if and only
  if `N` is less than `SIZE_MAX`; a method runs the two objects side by side.
- **Codec.** Reading inverts writing, and writing inverts reading, for every list
  of fields, at the level of bytes and through the real buffer. Over any run of a
  reader the bytes the caller is given (in an array, through a view, or as an
  integer) and the bytes skipped are, laid end to end, the data the cursor has
  moved past. The two frame parsers accept the same frames.
- **`checked_cast`** returns the value exactly when it is representable, except
  from a signed type to a strictly wider signed one, where it refuses everything.

Two facts the source does not state and a caller should know: `replace(0, 0, "")`
on a string without storage stores its terminator through a null pointer, and a
string refuses to grow when doubling lands exactly on the cap. The first has an
outcome of its own in the model, `NullStore`, which is no error code: the
contract of `Strings.OeString.Replace` and `StringLaws.ReplaceWithoutStorageIff`
say exactly when it occurs, `StringLaws.NoNullStoreIff` says which runs are free
of it, and it is the one exception to "insert is replace of an empty range" and
"assign is replace of everything".

## Model

| member | source | states |
|---|---|---|
| CheckedMath.CheckedAdd | include/onedge/checked_math.h:19-22 | the sum, exactly when it fits size_t |
| CheckedMath.AddAndSubAreInverse | include/onedge/checked_math.h:19-27 | checked_add(a, b) is c exactly when checked_sub(c, b) is a, for all machine integers: each undoes the other |
| CheckedMath.CheckedMul | include/onedge/checked_math.h:29-33 | the product, exactly when it fits size_t, although decided by dividing |
| CheckedMath.BoundsTestsAgree | include/onedge/checked_math.h:62-68 | the additive range test and the subtractive one of span and reader both decide offset + length <= size for all machine integers |
| CheckedMath.CheckedCastExact | include/onedge/checked_math.h:71-89 | for every width and signedness: the value itself iff representable, and nothing at all from signed to strictly wider signed |
| CheckedMath.CheckedCastCompleteIff | include/onedge/checked_math.h:71-89 | checked_cast accepts every representable value iff it does not widen a signed type |
| CheckedMath.SignedBounds | include/onedge/checked_math.h:78-80 | between signed types the bounds stay exact when narrowing and become 0 and -1 when widening |
| Memory.Heap.PointerInRangeDecidesAliasing | include/onedge/onedge_config.h:77-82 | for every pointer to a live byte the integer comparison holds exactly when the pointer is into that part of that block, and pointer subtraction gives its offset |
| Memory.Heap.AliasOffset | src/buffer.cpp:160-166 | the alias snapshot is the true offset of a self-view, and none for every other live pointer |
| Memory.Heap.SecureZero | include/onedge/onedge_config.h:70-74 | the countdown loop zeroes exactly the first n bytes and tolerates null |
| Growth.NextCapacityExact | src/string.cpp:15-23 | doubling with checked arithmetic is doubling in unbounded arithmetic under the cap |
| Growth.AmortisedGrowth | src/buffer.cpp:121-126 | while doubling fits the cap, each reallocation at least doubles, and all of them together move at most the final capacity |
| Growth.CapWithinTwicePeak | src/buffer.cpp:121-126 | with or without room to double, no run leaves more capacity than max(32, twice its largest size) |
| Growth.AmortisedIff | src/buffer.cpp:121-126 | for every cap and every bound on the sizes: all runs within the bound move no more than their final capacity iff the bound is at most AmortisedPeak of the cap |
| Growth.DoublesIff | src/buffer.cpp:121-126 | for every cap and every bound on the sizes: every reallocation of every run within the bound at least doubles iff the bound is at most DoublingPeak of the cap |
| Buffers.Buffer.ValidMeansAuditsPass | src/buffer.cpp:26-38 | in every valid state verify() is true and no audit fires |
| Buffers.Buffer.WithCapacity | src/buffer.cpp:65-77 | exact code, an empty buffer of exactly that capacity, its own fresh block |
| Buffers.Buffer.FromBytes | src/buffer.cpp:79-88 | a fresh buffer with exactly the bytes; null, cap and memory refusals |
| Buffers.Buffer.Clone | src/buffer.cpp:90-93 | equal contents in a block of its own of exactly their size, or a refusal and an empty buffer |
| Buffers.Buffer.Get | src/buffer.cpp:95-99 | the byte of the contents at i, exactly when there is one |
| Buffers.Buffer.Set | src/buffer.cpp:101-106 | one byte of the contents replaced, or out_of_range |
| Buffers.Buffer.Reserve | src/buffer.cpp:108-119 | succeeds iff there is room already, or the capacity is within the cap and memory is granted; contents kept across the move; refusals change nothing |
| Buffers.Buffer.GrowToAtLeast | src/buffer.cpp:121-126 | growth fails exactly when needed exceeds the cap or memory is refused |
| Buffers.Buffer.Resize | src/buffer.cpp:128-144 | each byte: the old one below the old size, the fill byte from there on, whatever the spare bytes held |
| Buffers.Buffer.Clear | src/buffer.cpp:146-149 | no contents, same block |
| Buffers.Buffer.SecureClear | src/buffer.cpp:151-155 | no contents, and their bytes in the block are zero |
| Buffers.Buffer.SnapshotAndGrow | src/buffer.cpp:160-173 | after growth a self-view is at its old offset in the present block, and any other source where it was |
| Buffers.Buffer.CopyInPossiblyAliased | src/buffer.cpp:157-179 | the bytes at dst are those src had before growth, self-views included; an end offset past SIZE_MAX is an overflow |
| Buffers.Buffer.AppendByte | src/buffer.cpp:181-190 | the byte at the end, or a refusal that changes nothing |
| Buffers.Buffer.Append | src/buffer.cpp:192-202 | old contents plus the bytes src had at the call, self-views included |
| Buffers.Buffer.Write | src/buffer.cpp:204-216 | each byte: the one src had at the call inside [offset, offset + len), the old one elsewhere, overlap included; exact codes |
| Buffers.Buffer.Read | src/buffer.cpp:218-227 | copies the clamped range out, to any place, the buffer's own block included, and touches nothing else |
| Buffers.Buffer.FillAll | src/buffer.cpp:229-232 | every byte of the contents, and no other, is the fill byte |
| Buffers.Buffer.MoveFrom | src/buffer.cpp:45-50 | the block changes hands and the old owner is empty |
| Buffers.Buffer.MoveAssign | src/buffer.cpp:52-63 | own block freed, the other's taken; self-assignment changes nothing |
| Buffers.Buffer.Destroy | src/buffer.cpp:40-43 | exactly its own block is freed |
| BufferRuns.StepIsSafe | src/buffer.cpp:95-232 | each operation keeps well-formedness, changes nothing when refused, and grows by the rule |
| BufferRuns.EveryRunIsSafe | src/buffer.cpp:95-232 | well-formedness, and no change by a refusal, at every point of every run from any well-formed state |
| BufferRuns.AppendSucceedsIff | src/buffer.cpp:121-126 | appending succeeds exactly when there is room, or the new size fits the cap and memory is granted |
| BufferRuns.ShrinkThenGrow | src/buffer.cpp:128-144 | bytes cut off by shrinking never come back |
| BufferRuns.CapacityIsLedger | src/buffer.cpp:121-126 | the capacity after a run, and the bytes its reallocations moved, are those of the growth ledger of its sizes |
| BufferRuns.RunIsAmortised | src/buffer.cpp:121-126 | while doubling stays under the cap, a run from empty without reserve at least doubles at every reallocation and moves at most its final capacity |
| BufferRuns.RunStaysWithinTwicePeak | src/buffer.cpp:121-126 | the capacity after a run from empty without reserve is at most max(32, twice the bound on its sizes), for every cap |
| BufferRuns.RunsAreAmortisedIff | src/buffer.cpp:121-126 | all runs from empty without reserve and with sizes up to a bound move at most their final capacity, iff the bound is at most AmortisedPeak of the cap (or no size can exceed it) |
| BufferRuns.RunsDoubleIff | src/buffer.cpp:121-126 | all reallocations of such runs at least double, iff the bound is at most DoublingPeak of the cap (or no size can exceed it) |
| BufferRuns.SmallCapRunMovesMore | src/buffer.cpp:121-144 | a run that moves more than it keeps: with a cap of 100, sizes 1, 33 and 65 end at 65 having moved 96 |
| BufferRuns.Perform | src/buffer.cpp:95-232 | the pointer-level buffer does what the step function says, for every operation |
| BufferRuns.PerformAll | src/buffer.cpp:26-38 | over any run from any valid state, with any pattern of memory refusals: contents, capacity, codes, and verify() |
| BufferMeaning.GrowthMeans | src/buffer.cpp:11-22 | growth: the exact codes, and twice the capacity (at least 32) if that is enough and allowed, else what was asked for |
| BufferMeaning.ReserveMeans | src/buffer.cpp:108-119 | reserve: exact codes; the larger of the two capacities on success; contents unchanged |
| BufferMeaning.ResizeMeans | src/buffer.cpp:128-144 | resize: exact codes, every byte, capacity |
| BufferMeaning.AppendMeans | src/buffer.cpp:181-202 | append: exact codes, every byte, capacity |
| BufferMeaning.WriteMeans | src/buffer.cpp:204-216 | write: succeeds iff nothing is written or the range is inside the contents; exactly the bytes of the range change |
| BufferMeaning.NullIsRefused | src/buffer.cpp:192-207 | null with a length is refused and changes nothing |
| BufferMeaning.SetMeans | src/buffer.cpp:101-106 | set: one byte, or out_of_range |
| BufferMeaning.FillMeans | src/buffer.cpp:229-232 | fill: every byte of the contents |
| BufferMeaning.CreateMeans | src/buffer.cpp:65-88 | the exact codes of the factories |
| BufferMeaning.RunsCompose | src/buffer.cpp:95-232 | a run in two parts is the one after the other, in state and codes |
| StringSpec.CutAtNul | src/string.cpp:26-35 | the longest prefix without a NUL |
| Editing.InsertInPlace | src/string.cpp:232-248 | every byte after the two moves of insert, for sources before, after and straddling pos |
| Editing.ReplaceInPlace | src/string.cpp:276-296 | every byte after the two moves of replace, the misread ones included; no offset underflows |
| Editing.InsertBlock | src/string.cpp:232-248 | the in-place insert is a splice for every source |
| Editing.ReplaceBlock | src/string.cpp:276-296 | the in-place replace leaves exactly the specified bytes |
| Editing.ReplaceIsSpliceIff | src/string.cpp:283-296 | for a self-view replace is a splice for all contents iff no view byte lies under the moved tail |
| Editing.ReplaceByExternalIsSplice | src/string.cpp:283-296 | for any other source it always is |
| Editing.ReplaceByOwnBytesCanMisread | src/string.cpp:283-296 | the smallest misreading: "abcdef" becomes "efef", not "cdef" |
| Strings.BoundedStrlen | src/string.cpp:26-35 | the length up to the first NUL or the bound, reading no byte past either |
| Strings.CStringMeans | src/string.cpp:26-35 | the bytes from the pointer up to the first NUL, place by place in memory |
| Strings.OeString.ViewSourceMeans | src/string.cpp:223-227 | the source of an edit holds the bytes of the view, and is the string itself iff the view points into it, at the place it points to |
| Strings.OeString.ValidMeansAuditsPass | src/string.cpp:39-54 | in every valid state verify() is true and no audit fires |
| Strings.OeString.WithCapacity | src/string.cpp:80-86 | exact code and an empty string of that capacity |
| Strings.OeString.FromBytes | src/string.cpp:88-98 | a fresh string with exactly the bytes; null, overflow, cap and memory refusals |
| Strings.OeString.FromCstr | src/string.cpp:100-106 | the bytes up to the first NUL; never overflow or capacity_exceeded |
| Strings.OeString.Clone | src/string.cpp:108-111 | equal contents in a block of their own, or a refusal and an empty string |
| Strings.OeString.Get | src/string.cpp:113-117 | the byte of the contents at i, exactly when there is one |
| Strings.OeString.ReserveExact | src/string.cpp:119-132 | exact outcome with the terminator's byte; contents and terminator kept across the move |
| Strings.OeString.Reserve | src/string.cpp:134-137 | the same behind the audit |
| Strings.OeString.GrowToAtLeast | src/string.cpp:139-144 | growth fails exactly when needed reaches the cap, doubling hits it exactly, or memory is refused |
| Strings.OeString.Clear | src/string.cpp:146-150 | no contents, terminator in place |
| Strings.OeString.SecureClear | src/string.cpp:152-157 | no contents, and their bytes in the block are zero |
| Strings.OeString.SnapshotAndGrow | src/string.cpp:163-168 | after growth a self-view is at its old offset in the present block, and any other source where it was |
| Strings.OeString.CopyInPossiblyAliased | src/string.cpp:159-171 | the bytes at dst are those src had before growth, self-views included |
| Strings.OeString.AppendChar | src/string.cpp:173-183 | the character at the end and the terminator behind it, or nothing changed |
| Strings.OeString.Append | src/string.cpp:185-195 | old contents plus the bytes src had at the call, self-views included |
| Strings.OeString.Assign | src/string.cpp:201-213 | exactly the bytes src had at the call, self-views included |
| Strings.OeString.Insert | src/string.cpp:215-253 | a splice of the bytes sv had at the call, for every source; exact codes; refusals change nothing |
| Strings.OeString.Replace | src/string.cpp:255-301 | exact contents, capacity and code for every source; refusals change nothing; the terminator is stored through null iff there is no storage, nothing is inserted and the range is the empty one at 0 |
| Strings.OeString.Substr | src/string.cpp:303-311 | a fresh string with exactly that range; exact codes |
| Strings.OeString.CopyToCstr | src/string.cpp:313-324 | min(size, out_len - 1) bytes the string had and a NUL, to any place, nothing else touched; truncated iff size >= out_len |
| Strings.OeString.MoveFrom | src/string.cpp:60-65 | the block changes hands and the old owner is empty |
| Strings.OeString.MoveAssign | src/string.cpp:67-78 | own block freed, the other's taken; self-assignment changes nothing |
| Strings.OeString.Destroy | src/string.cpp:56-58 | exactly its own block is freed |
| StringLaws.InsertIsEmptyReplace | src/string.cpp:215-301 | insert is replace of an empty range, in contents, capacity and code, iff there is storage, a byte to insert, or pos > 0 |
| StringLaws.InsertAtEndIsAppend | src/string.cpp:219 | insert at the end is append, so the fast path of the TODO would be right |
| StringLaws.AssignIsReplaceAll | src/string.cpp:201-301 | assign is replace of everything, self-views included, iff there is storage or a byte to assign |
| StringLaws.ReplaceWithoutStorageIff | src/string.cpp:298-299 | exactly when the final store of replace goes through a null pointer |
| StringLaws.StepIsSafe | src/string.cpp:119-301 | each operation keeps well-formedness and changes nothing when refused, and stores through null iff it is a replace that is not legal |
| StringLaws.StepGrowsByTheRule | src/string.cpp:139-144 | no operation but reserve changes the capacity in any other way than growth |
| StringLaws.EveryRunIsSafe | src/string.cpp:119-301 | well-formedness, and no change by a refusal, at every point of every run from any well-formed state |
| StringLaws.NoNullStoreIff | src/string.cpp:255-301 | a run stores through null nowhere iff every replace in it has storage, a byte to insert or a range other than the empty one at 0 where it stands |
| StringLaws.CapacityIsLedger | src/string.cpp:139-144 | the capacity after a run, and the bytes its reallocations moved, are those of the growth ledger of its sizes |
| StringLaws.RunIsAmortised | src/string.cpp:139-144 | while doubling stays under the cap, a run from empty without reserve at least doubles at every reallocation and moves at most its final capacity |
| StringLaws.RunStaysWithinTwicePeak | src/string.cpp:139-144 | the capacity after a run from empty without reserve is at most max(32, twice the bound on its sizes), for every cap |
| StringLaws.RunsAreAmortisedIff | src/string.cpp:139-144 | all runs from empty without reserve and with sizes up to a bound move at most their final capacity, iff the bound is at most AmortisedPeak of the cap (or no size can exceed it) |
| StringLaws.RunsDoubleIff | src/string.cpp:139-144 | all reallocations of such runs at least double, iff the bound is at most DoublingPeak of the cap (or no size can exceed it) |
| StringLaws.PushingSaturatesAtHalfTheCap | src/string.cpp:173-183 | with a cap of 64 * 2^k, only the capacities 0 and 32 * 2^j occur and the string saturates at half the cap |
| StringLaws.DefaultCapHoldsHalfAGibi | src/string.cpp:119-125 | with the default cap: exactly 2^29 characters |
| StringRuns.Perform | src/string.cpp:119-301 | the pointer-level string does what the step function says, for every operation, append(char) and secure_clear included |
| StringRuns.PerformAll | src/string.cpp:39-54 | over any run from any valid state, with any pattern of memory refusals: contents, capacity, codes, and verify() |
| StringMeaning.GrowthMeans | src/string.cpp:119-144 | growth: the exact codes, from the size of the block with its terminator |
| StringMeaning.ReserveMeans | src/string.cpp:119-137 | reserve: exact codes; the larger of the two capacities on success; contents unchanged |
| StringMeaning.CreateMeans | src/string.cpp:80-98 | the exact codes of the factories |
| StringMeaning.AppendMeans | src/string.cpp:173-195 | append: exact codes, every byte, capacity |
| StringMeaning.AssignMeans | src/string.cpp:201-213 | assign: exact codes, the new bytes and no others, capacity |
| StringMeaning.InsertCodes | src/string.cpp:215-230 | when insert succeeds, with which code it does not, capacity |
| StringMeaning.InsertMeans | src/string.cpp:232-252 | every byte after insert, for every source |
| StringMeaning.ReplaceCodes | src/string.cpp:255-274 | when replace succeeds, with which code it does not, capacity |
| StringMeaning.ReplaceMeans | src/string.cpp:276-300 | every byte after replace, for every range and every source, the misread ones included |
| StringMeaning.ReplaceSplices | src/string.cpp:276-300 | a successful replace is the splice asked for, unless a byte of a self-view lies under the moved tail |
| StringMeaning.NullIsRefused | src/string.cpp:185-207 | null with a length is refused and changes nothing |
| StringMeaning.RunsCompose | src/string.cpp:119-301 | a run in two parts is the one after the other, in state and codes |
| CApi.OwnSuffix | src/c_api.cpp:191-203 | every suffix pointer of a string's own c_str() is a C string inside the contents, shorter than the cap |
| CApi.Scan | src/c_api.cpp:196-200 | the scan loop agrees with bounded_strlen on every input |
| CApi.AppendCstr | src/c_api.cpp:191-203 | old contents plus the C string at the call, own suffixes included; refusals change nothing |
| CApi.CopyToCstr | src/c_api.cpp:211-230 | what is written, and the count handed back: computed again on truncation, it is the number of bytes written; a null out_copied gets none |
| CApi.FromOwnCstr | src/string.cpp:100-106 | from_cstr(s.c_str()) is s cut at its first NUL, unless memory runs out |
| Ownership.Owners.EveryBlockHasOneOwner | src/string.cpp:56-78 | no block is shared between owners and none has no owner |
| Ownership.Owners.BufferWithCapacity | src/buffer.cpp:65-77 | a buffer constructed with a block enters the bijection; a refusal leaves it alone |
| Ownership.Owners.BufferFromBytes | src/buffer.cpp:79-88 | the same for a copy of bytes from anywhere |
| Ownership.Owners.CloneBuffer | src/buffer.cpp:90-93 | the same for a copy of another owner |
| Ownership.Owners.StringWithCapacity | src/string.cpp:80-86 | a string constructed with a block enters the bijection; a refusal leaves it alone |
| Ownership.Owners.StringFromBytes | src/string.cpp:88-98 | the same for a copy of bytes from anywhere |
| Ownership.Owners.StringFromCstr | src/string.cpp:100-106 | the same for a copy of a C string |
| Ownership.Owners.CloneString | src/string.cpp:108-111 | the same for a copy of another owner |
| Ownership.Owners.SubstrOf | src/string.cpp:303-311 | the same for a copy of a range of another owner |
| Ownership.Owners.MutateBuffer | src/buffer.cpp:114-117 | growth keeps the bijection of blocks and owners |
| Ownership.Owners.MutateString | src/string.cpp:126-130 | growth keeps the bijection of blocks and owners, for every operation on a string |
| Ownership.Owners.ViewString | include/onedge/string.h:58 | a view of any owner's contents may be passed to every owner |
| Ownership.Owners.EditBufferFrom | src/buffer.cpp:192-216 | append and write with the bytes in another owner's block, or anywhere else, do what they do and keep the bijection |
| Ownership.Owners.EditStringFrom | src/string.cpp:185-301 | append, assign, insert and replace with the bytes in another owner's block, or anywhere else, do what they do and keep the bijection |
| Ownership.Owners.MoveConstructBuffer | src/buffer.cpp:45-50 | move construction keeps it and hands the contents over |
| Ownership.Owners.MoveConstructString | src/string.cpp:60-65 | move construction keeps the bijection and hands the contents over |
| Ownership.Owners.MoveAssignBuffer | src/buffer.cpp:52-63 | move assignment keeps it, onto itself included |
| Ownership.Owners.MoveAssignString | src/string.cpp:67-78 | move assignment keeps the bijection, onto itself included |
| Ownership.Owners.DestroyBuffer | src/buffer.cpp:40-43 | destruction frees a live block once and keeps it |
| Ownership.Owners.DestroyString | src/string.cpp:56-58 | destruction frees a live block once and keeps the bijection |
| Ownership.Owners.AnyRun | src/buffer.cpp:40-63 | any interleaving of all factories, operations, edits from other owners, moves and destructions keeps the bijection, whatever memory is refused |
| Ownership.Owners.DestroyAll | src/buffer.cpp:40-43 | when the owners are gone, no block is left |
| FixedBuffers.FixedBuffer.Get | include/onedge/fixed_buffer.h:34-37 | the byte of the contents at i, exactly when there is one |
| FixedBuffers.FixedBuffer.Set | include/onedge/fixed_buffer.h:39-43 | one byte of the contents replaced, or out_of_range |
| FixedBuffers.FixedBuffer.AppendByte | include/onedge/fixed_buffer.h:45-49 | the byte at the end, or capacity_exceeded |
| FixedBuffers.FixedBuffer.Append | include/onedge/fixed_buffer.h:51-60 | old contents plus the bytes src had at the call, self-views included; exact codes |
| FixedBuffers.FixedBuffer.Resize | include/onedge/fixed_buffer.h:62-67 | each byte: the old one below the old size, the fill byte from there on; or capacity_exceeded |
| FixedBuffers.FixedBuffer.Clear | include/onedge/fixed_buffer.h:69 | no contents |
| FixedBuffers.FixedBuffer.SecureClear | include/onedge/fixed_buffer.h:72-75 | empty, and all N bytes are zero |
| FixedBuffers.FixedBuffer.FillAll | include/onedge/fixed_buffer.h:77-79 | every byte of the contents is the fill byte |
| FixedBuffers.StepsAgree | include/onedge/fixed_buffer.h:34-79 | each shared operation has the code and contents of a heap buffer capped at N that is never short of memory |
| FixedBuffers.SameRunsIff | include/onedge/fixed_buffer.h:34-79 | all runs of the two step functions from equal contents agree, in codes and contents, iff N < SIZE_MAX |
| FixedBuffers.FullAddressSpaceDiffers | include/onedge/fixed_buffer.h:45-49 | the run that tells them apart when N == SIZE_MAX |
| FixedBuffers.Perform | include/onedge/fixed_buffer.h:34-79 | the fixed_buffer object does what its step function says, for every operation it shares with buffer |
| FixedBuffers.PerformAll | include/onedge/fixed_buffer.h:34-79 | over any run of those: contents, codes and verify() |
| FixedBuffers.RunBoth | include/onedge/fixed_buffer.h:34-79 | the same run on a fixed_buffer object and on a buffer object capped at N < SIZE_MAX gives the same codes and contents |
| Bits.MaskIsMod | include/onedge/writer.h:35-36 | masking with k ones is the remainder modulo 2^k |
| Bits.OrIsSum | include/onedge/reader.h:65-67 | or-ing into cleared low bits adds |
| Codec.ValueOfBytes | include/onedge/writer.h:33-67 | big-endian bytes denote the number they were made from |
| Codec.BytesOfValue | include/onedge/reader.h:63-102 | and a number read from bytes gives the bytes back |
| Codec.EncodersArePositional | include/onedge/writer.h:33-59 | the shift-and-mask encoders produce positional notation, most significant byte first, or its reverse |
| Codec.EncodersMean | include/onedge/writer.h:33-59 | byte i of a little-endian integer v is v / 256^i % 256, and the big-endian ones the other way round |
| Codec.EightBytesMean | include/onedge/writer.h:61-67 | the eight bytes, most significant first, add up to the number |
| Codec.DecodeU16IsPositional | include/onedge/reader.h:63-70 | shift-and-or decoding is the big-endian value |
| Codec.DecodeU32BeIsPositional | include/onedge/reader.h:72-81 | the same for four bytes |
| Codec.DecodeU32LeIsPositional | include/onedge/reader.h:83-92 | the little-endian value |
| Codec.DecodersMean | include/onedge/reader.h:63-92 | each decoder as a weighted sum of its bytes |
| Codec.FieldsMean | include/onedge/writer.h:22-67 | the bytes of every kind of field |
| Codec.DecodesWhatWasEncoded | include/onedge/writer.h:22-67 | every list of fields, followed by anything, reads back as itself |
| Codec.ReencodesWhatWasDecoded | include/onedge/reader.h:34-102 | fields read from any bytes encode to exactly the bytes used, and reading fails only for lack of bytes |
| Writers.Writer.WriteBytes | include/onedge/writer.h:22-27 | appended and counted, or neither; null target refused |
| Writers.Writer.WriteU8 | include/onedge/writer.h:29-31 | one byte |
| Writers.Writer.WriteU16Be | include/onedge/writer.h:33-39 | the big-endian bytes of v |
| Writers.Writer.WriteU32Be | include/onedge/writer.h:41-49 | the big-endian bytes of v |
| Writers.Writer.WriteU32Le | include/onedge/writer.h:51-59 | the bytes v % 256, v / 256 % 256, v / 256^2 % 256 and v / 256^3 % 256, in this order |
| Writers.Writer.WriteU64Be | include/onedge/writer.h:61-67 | the big-endian bytes of v |
| Writers.EncodeU64Be | include/onedge/writer.h:62-65 | the shift loop produces the big-endian bytes |
| Readers.Span.Subspan | include/onedge/span.h:56-60 | exactly the slices that are in bounds |
| Readers.SliceBytes | include/onedge/span.h:56-60 | a slice views exactly its part of the bytes |
| Readers.Reader.Skip | include/onedge/reader.h:28-32 | moves the cursor n bytes, or not at all |
| Readers.Reader.ReadBytes | include/onedge/reader.h:34-41 | the next len bytes in the caller's array and nothing else of it touched, or the cursor and the array stay |
| Readers.Reader.ReadView | include/onedge/reader.h:44-49 | a view of the next len bytes, or the cursor stays |
| Readers.Reader.PeekView | include/onedge/reader.h:51-54 | the same without moving |
| Readers.Reader.ReadU8 | include/onedge/reader.h:56-61 | the next byte, or the cursor stays |
| Readers.Reader.ReadU16Be | include/onedge/reader.h:63-70 | the big-endian value of the next two bytes |
| Readers.Reader.ReadU32Be | include/onedge/reader.h:72-81 | the big-endian value of the next four bytes |
| Readers.Reader.ReadU32Le | include/onedge/reader.h:83-92 | b0 + 256 * b1 + 256^2 * b2 + 256^3 * b3 of the next four bytes |
| Readers.Reader.ReadU64Be | include/onedge/reader.h:94-102 | the accumulate loop gives the big-endian value of eight bytes and loses no bit |
| Readers.ReadingConserves | include/onedge/reader.h:24-102 | over any run from any cursor the cursor stays in range, and what is handed over and skipped is the data it has moved past, in order; peeks show what lies ahead |
| Readers.PiecesMean | include/onedge/reader.h:28-102 | exactly the reads that ask for more than there is are refused; the others give the bytes at the cursor, as many as their width |
| Readers.UnskippedIsDelivered | include/onedge/reader.h:24-102 | pieces that tile the data without skips concatenate to exactly the data between the two cursors |
| Readers.Perform | include/onedge/reader.h:28-102 | what a caller gets out of a read, in its array, under its view or as an integer, is the data at the cursor, or the exact refusal |
| Readers.PerformAll | include/onedge/reader.h:24-102 | over any run of reads on the reader object, what the caller got tiles the data the cursor has moved past; without skips, it is that data |
| Messages.WriteAll | include/onedge/writer.h:22-67 | the buffer holds the encoding of the accepted fields, and written() is its length |
| Messages.ReadAll | include/onedge/reader.h:24-102 | reading a schema field by field is decoding |
| Messages.WriteThenRead | include/onedge/reader.h:24-102 | what the writer wrote through the buffer the reader gives back, using exactly written() bytes |
| Frames.ParsersAgree | examples/parse_framed_message.cpp:15-45 | both parsers accept exactly the acceptable frames and return the same payload |
| Frames.RefusalCodes | examples/parse_framed_message.cpp:15-45 | the code of every refusal of both parsers |
| Frames.FrameRoundTrip | examples/parse_framed_message.cpp:15-45 | a framed payload parses back to itself, whatever follows it |
| Frames.ParseFramedMessage | examples/parse_framed_message.cpp:15-45 | the hand-written parser over memory, into a fresh buffer |
| Frames.Parse | README.md:41-50 | the reader-based parser over memory, into a fresh buffer |

## Left out

- Strings.OeString.Insert: self-views must lie inside the contents; a view of the terminator or of spare capacity is not covered, nor for the other operations that take views.
- Strings.OeString.CopyToCstr: an output inside the string's own block gets its bytes, but nothing is then promised of the string, whose terminator it may have overwritten.
- Readers.Reader.ReadBytes: the output lies outside the block the reader reads from, which `memcpy` asks for only where the two ranges overlap.
- StringLaws.Codes: nothing returns from a `NullStore`; what the model says of a run after one is of no account.
- Ownership.Owners.AnyRun: storage of the caller's own that has been passed in stays live; only owners' blocks are freed.
- Memory.Heap.PointerInRangeDecidesAliasing: addresses are unbounded integers, so base + len cannot wrap, as for every C object.
- Frames.ParsersAgree: needs a size_t of at least 32 bits, so that the length field survives its cast.
- `result<T>` storage and messages: a plain code, and an out-parameter or option for the value.
- `error.cpp`, invariant_failure's printing and abort: only that no audit fires.
- `secure_buffer` and `secure_string`, and the volatile semantics of `secure_zero`: forwarding, and compiler behaviour.
- C API handles, null-handle guards and the enum lockstep: one-branch facts.
- `safe_add`, `safe_sub`, `safe_mul`, `checked_grow`, `span::first` and `span::last`: they follow from the members above.
- `malloc`, `realloc`, `free`, `memmove`, `memset`: contracts, not implementations.
