# Verification of the vkd3d core algorithms

This project models, in Dafny, the self-contained algorithms of vkd3d and proves what they promise: the intrusive
red-black tree and the intrusive circular list of its private headers, the MD5 checksum of its shader library with the
DXBC variant, the UTF-8 conversion, option lists, growing arrays, bit masks and the exchange built from
compare-and-exchange of its common library, and the mesh that its gears demo builds. `dafny verify dfyconfig.toml`
checks all of it.

## How the model is laid out

**Red-black tree** (`RbShapes`, `RbColours`, `RbRepair`, `RbTree`, `RbWalks`, `RbRuns`). `Entry` and `RbTree` are
classes whose pointers and colours the methods rewrite as `rb_rotate_left` and the others do. Beside them stands a ghost
value, `Tree`, with a context type, `Ctx`, for the part of a tree around an entry; `Holds` says that the links of the
entries are those of a value. `RbShapes` says how a pointer update changes the value, `RbColours` and `RbRepair` what
the steps of both fixup loops do to colours, black heights and order, and `RbTree` proves the methods against them. The
branches of the fixup loops are methods of their own. The colour flag is a Boolean. The slot pointer of `rb_put` is the
parent and a side. The key of an entry, and so its place in the order, does not change, and the compare function has to
be consistent. What a callback of a walk is told is recorded as a list; the callback of the postorder walk may in
addition do anything to the entry that it gets.

**MD5** (`Md5Block`, `Md5Words`, `Md5Padding`, `Md5Context`, `Md5`, `Md5Empty`). Words are `bv32`; bytes, lengths and
the two words of the bit count are integers with explicit wrap-around. The block function takes its word operations as
a parameter: once those of sections 3.3 and 3.4 of RFC 1321, once those of the code. `Pad` and `DxbcPad` are the two
padded messages, and `Context` is the buffered machine that never has the whole message. The machine is little-endian.
`Md5Empty` computes one digest step by step, which fixes the tables, the rotation and the byte order by value.

**UTF-8** (`Unicode`, `Utf8`). `Unicode` is what section 4 of RFC 3629 and section 2 of RFC 2781 say, as a strict decoder
and an encoder of surrogate pairs; `Utf8` is the code. Whether there is memory is a parameter.

**Gears** (`Gears`, `GearTable`, `GearSolid`, `GearExact`, `GearEuler`, `GearPacking`). A position is kept as the expression that
the code writes for it: which of the three radii, which tooth, how many quarters of a tooth from its start, which side.
Two vertices are in the same place when their expressions are the same. `GearTable` looks up every side of every
triangle of a tooth; the rest is for any number of teeth. Slots and indices are computed modulo 2^32 and stored in 16
bits, as in the code.

**Lists** (`ListRings`, `Lists`, `ListMoves`, `ListSlices`, `ListWalks`). `Node` is a class with its two links. A list is
a sequence of nodes whose first one is the list head; `Ring` says that the links are those of the sequence. The *gap*
`g` of a sequence is the place after its `g`-th node, where the last gap is the one before the head.

**The common library.** `AtomicExchange` is a state machine whose steps are single accesses to the shared word, taken
by any thread in any order. `Bits`, `BitMasks` and `BitRuns` take masks as numbers below 2^32. `DebugList` takes strings
as their characters without the NUL, and a flag word as the set of its bits. `ArrayReserve` keeps `*elements` and
`*capacity` as fields of an object, and the byte count of a reallocation wraps around at 2^64. `Machine` and `Powers`
hold what several parts need.

## Results that differ from what one might expect

- `vkd3d_compute_md5` takes a `size_t` but hands it to `md5_update`, which takes an `unsigned int`: the digest is that
  of the first `size` modulo 2^32 bytes (`Md5.ComputeMd5`), and the padded message is the right one exactly below 2^32
  bytes (`Md5Padding.TruncationExact`).
- `list_move_slice_head` and `list_move_slice_tail` tear the list exactly when the slice is at its destination already
  (`ListSlices.MoveSliceHead`, `ListSlices.MoveSliceTail`).
- `vkd3d_debug_list_has_member` finds elements of the list exactly for members without a separator
  (`DebugList.ElementsExactly`). For the empty member its loop goes on forever unless the string is empty or begins with
  a separator (`DebugList.EndsExactly`).
- `vkd3d_array_reserve` computes the size of the new block without wrap-around exactly if four elements fit into the
  address space (`ArrayReserve.FitsExactly`).
- Every directed edge of a gear mesh has its reverse exactly as long as 12 * tooth_count is at most 65536, the number of
  indices that 16 bits hold (`GearExact.EdgesPairExactly`). No directed edge is used twice exactly if in addition there
  are three teeth or more, or none (`GearExact.EdgesDifferExactly`, for every tooth count).
- Beyond 2^32 faces the slots of the index buffer wrap around, and faces overwrite one another
  (`Gears.PlacesDifferExactly`).
- The conversion of 32-bit strings does not check its input: it is faithful exactly for Unicode scalar values
  (`Utf8.FaithfulExactly`).

## Model

| member | source | states |
|---|---|---|
| `RbTree.RbTree.constructor` | include/private/rbtree.h:142-146 | a new tree is valid and empty |
| `RbShapes.RotateTree` | include/private/rbtree.h:54-88 | the pointer updates of a rotation, at any place of any tree, give the links of the rotated tree, with the same entries |
| `RbColours.RotatedInorder` | include/private/rbtree.h:54-88 | a rotation in either direction keeps the in-order listing |
| `RbTree.RbTree.RotateLeft` | include/private/rbtree.h:54-70 | every link and the root after a left rotation, for the entry, its right child, the parent and the subtree that changes sides |
| `RbTree.RbTree.RotateRight` | include/private/rbtree.h:72-88 | the mirror image for a right rotation |
| `RbTree.RbTree.FlipColor` | include/private/rbtree.h:90-95 | the heap holds the tree with the colours of the entry and of both of its children inverted |
| `RbRepair.FlipStep` | include/private/rbtree.h:208-213 | a red-red edge below a red uncle moves two levels up; black heights and order are kept |
| `RbRepair.InnerStep` | include/private/rbtree.h:215-219 | an inner red-red edge becomes an outer one by a rotation of the parent; order and heights are kept |
| `RbRepair.OuterStep` | include/private/rbtree.h:220-222 | an outer red-red edge is gone after the rotation of the grandparent, and nothing above has to change |
| `RbRepair.BlackenRoot` | include/private/rbtree.h:246-248 | with its root painted black, the tree that the loop leaves is a red-black tree with the same listing |
| `RbTree.RbTree.FindPlace` | include/private/rbtree.h:185-197 | the search ends at the entry with an equal key, or at the empty place that the key belongs to |
| `RbTree.RbTree.PutRound` | include/private/rbtree.h:204-244 | one round of the insertion loop: the grandparent is there, the entry gets closer to the root, and the red-red edge is repaired or is the only fault left |
| `RbTree.RbTree.PutFixup` | include/private/rbtree.h:204-244 | the insertion loop ends and leaves at most a red root to repair; the listing is kept |
| `RbTree.RbTree.Put` | include/private/rbtree.h:183-249 | the tree stays a valid, sorted red-black tree; the result is -1, with nothing changed, exactly if an equal key is there; otherwise the entry is the only addition |
| `RbColours.SortedInsert` | include/private/rbtree.h:187-197 | an entry put after everything that compares lower and before everything that compares higher keeps a listing sorted |
| `RbRepair.SiblingExists` | include/private/rbtree.h:294-297 | when one side lacks a black entry the sibling is never null, and a red one has two black children |
| `RbRepair.RedSiblingStep` | include/private/rbtree.h:297-303 | the rotation around a red sibling makes the sibling black and keeps the fault where it is, below a red parent |
| `RbRepair.PushUpStep` | include/private/rbtree.h:292-356 | a black sibling with black children, painted red, moves the missing black entry one level up |
| `RbRepair.NearStep` | include/private/rbtree.h:306-312 | a red near nephew becomes a red far one, with the fault and the listing kept |
| `RbRepair.FarStep` | include/private/rbtree.h:313-319 | with a red far nephew, the rotation of the parent ends the repair: the whole tree is a red-black tree again |
| `RbRepair.ShortEnds` | include/private/rbtree.h:290-357 | where the loop stops, painting the child black ends the repair |
| `RbTree.RbTree.RemoveFixup` | include/private/rbtree.h:290-357 | the deletion loop ends, never reads through a null sibling, and leaves a red-black tree with the same listing |
| `RbRepair.UnlinkColours` | include/private/rbtree.h:262-273 | unlinking an entry with at most one child leaves a missing black entry exactly if the entry was black |
| `RbTree.RbTree.Successor` | include/private/rbtree.h:256-260 | the entry that is unlinked in place of one with two children is its in-order successor and has no left child |
| `RbTree.RbTree.TakeOver` | include/private/rbtree.h:275-288 | the successor gets the place, the colour and all links of the removed entry; no payload is copied |
| `RbRepair.SpliceInorder` | include/private/rbtree.h:256-288 | unlinking the successor and putting it in the removed entry's place takes exactly the removed entry out of the listing |
| `RbTree.RbTree.TakeOut` | include/private/rbtree.h:251-289 | before the repair, the heap holds a tree without the entry, with everything else in its order |
| `RbTree.RbTree.Remove` | include/private/rbtree.h:251-358 | the tree stays a valid, sorted red-black tree, and its listing is the old one without exactly this entry |
| `RbTree.RbTree.RemoveKey` | include/private/rbtree.h:360-364 | the entry with an equal key is removed if there is one; otherwise nothing changes |
| `RbColours.HeightBound` | include/private/rbtree.h:171-181 | a red-black tree of n entries has a height of at most 2 log2(n + 1) |
| `RbTree.RbTree.Get` | include/private/rbtree.h:171-181 | an entry with an equal key is found exactly if there is one, with at most 2 log2(n + 1) comparisons |
| `RbTree.RbTree.Head` | include/private/rbtree.h:97-102 | the leftmost entry of a subtree |
| `RbTree.RbTree.Next` | include/private/rbtree.h:104-109 | the entry at the next place of the in-order listing, from the parent links alone, or null after the last one |
| `RbWalks.ForEachEntry` | include/private/rbtree.h:148-157 | the walk ends and visits exactly the tree's entries, in ascending order of keys |
| `RbWalks.ChildrenFirst` | include/private/rbtree.h:111-140 | the postorder listing has every entry once, and each after everything below it |
| `RbWalks.PostorderNext` | include/private/rbtree.h:122-127 | the next entry of the postorder listing, found without reading an entry that has been delivered |
| `RbWalks.PostorderWalk` | include/private/rbtree.h:129-140 | the walk delivers the postorder listing, whatever the callback does to the entries that it gets |
| `RbWalks.Clear` | include/private/rbtree.h:159-164 | every entry is delivered once if there is a callback, and the tree is empty |
| `RbRuns.SortedIsMap` | include/private/rbtree.h:183-249 | the entries of a sorted tree have distinct keys: they are a finite map |
| `RbRuns.Run` | include/private/rbtree.h:142-364 | every run of put, get, remove_key and clear, with or without a callback that overwrites the entries, gives from the empty tree on the results and the contents that a finite map gives |
| `Md5Words.F1IsF` | libs/vkd3d-shader/checksum.c:57-61 | the fast form of the first function is the textbook one |
| `Md5Words.FirstSelects` | libs/vkd3d-shader/checksum.c:57-58 | where the first word has a bit the first function takes that of the second, elsewhere that of the third |
| `Md5Words.SecondSelects` | libs/vkd3d-shader/checksum.c:59 | where the third word has a bit the second function takes that of the first, elsewhere that of the second |
| `Md5Words.ThirdIsParity` | libs/vkd3d-shader/checksum.c:60 | the third function has a bit where one of the three words or all of them have it |
| `Md5Words.FourthByCases` | libs/vkd3d-shader/checksum.c:61 | the fourth function by its truth table |
| `Md5Words.RotatesLeft` | libs/vkd3d-shader/checksum.c:64-65 | by any shift from 1 to 31 the low bits go up by the shift, and the high ones come in below them |
| `Md5Words.CodeAgreesWithRfc` | libs/vkd3d-shader/checksum.c:57-66 | the operations of the code are those of section 3.4 of RFC 1321, for all words, rounds and shifts |
| `Md5Words.StepAsInTheRfc` | libs/vkd3d-shader/checksum.c:63-66 | a step is b + ((a + f(b, c, d) + x + t) <<< s), as in section 3.4 of RFC 1321 |
| `Md5Block.AllSteps` | libs/vkd3d-shader/checksum.c:76-147 | the 64 unrolled steps are 64 steps of a loop over tables of constants, block words and shifts |
| `Md5Block.Transform` | libs/vkd3d-shader/checksum.c:72-153 | the four words become the table-driven block function of them |
| `Md5Block.BlockAdds` | libs/vkd3d-shader/checksum.c:149-152 | each of the four words after the 64 steps is added to what it was before them |
| `Md5Block.StepsBijective` | libs/vkd3d-shader/checksum.c:63-147 | the steps, any number of them, can be undone and redone from either end |
| `Md5.BlockStepsBijective` | libs/vkd3d-shader/checksum.c:72-147 | for a fixed block, the 64 steps of the code are a bijection on the four-word state |
| `Md5Context.ByteReverse` | libs/vkd3d-shader/checksum.c:155-168 | on a little-endian machine the bytes stay as they are |
| `Md5.StartState` | libs/vkd3d-shader/checksum.c:174-182 | the bytes of the start state, as section 3.3 of RFC 1321 gives them |
| `Md5.WordIs` | libs/vkd3d-shader/checksum.c:213-232 | word k of a block is the number that its bytes from 4k on stand for, low byte first |
| `Md5.DigestIs` | libs/vkd3d-shader/checksum.c:301-302 | the digest is the four words in their order, low byte first |
| `Md5Context.Context.constructor` | libs/vkd3d-shader/checksum.c:174-182 | a new context has seen the empty message, whatever its buffer holds |
| `Md5Context.Counts` | libs/vkd3d-shader/checksum.c:193-198 | the two words with their carry hold the number of bits modulo 2^64 |
| `Md5Context.Context.Count` | libs/vkd3d-shader/checksum.c:191-201 | the new bit count, and the number of bytes that wait in the buffer |
| `Md5Context.Context.Absorb` | libs/vkd3d-shader/checksum.c:202-235 | all whole blocks of what has been seen are chained, and the buffer begins with the rest |
| `Md5Context.Context.Update` | libs/vkd3d-shader/checksum.c:188-236 | the context has seen the old message with the new bytes after it, however the message is cut |
| `Md5Padding.ZeroCountIsLeast` | libs/vkd3d-shader/checksum.c:250-279 | the number of zeros is the least that section 3.1 of RFC 1321 allows |
| `Md5Padding.PaddedLength` | libs/vkd3d-shader/checksum.c:257-280 | padding takes one block if eight bytes are left in it after the mark, and two otherwise |
| `Md5Padding.SameBlockCount` | libs/vkd3d-shader/checksum.c:238-303 | both variants make the same number of blocks |
| `Md5Padding.PadIs` | libs/vkd3d-shader/checksum.c:250-298 | the standard padding byte by byte: the message, 0x80, zeros, and the number of bits modulo 2^64 |
| `Md5Padding.DxbcPadIs` | libs/vkd3d-shader/checksum.c:250-298 | the DXBC padding byte by byte: the number of bits comes before the rest of the message, or after it if there are two blocks; the last word is the odd one |
| `Md5Padding.MarkIs` | libs/vkd3d-shader/checksum.c:289 | the last word of the DXBC padding is twice the number of bytes modulo 2^29, plus one |
| `Md5Context.OddIs` | libs/vkd3d-shader/checksum.c:289 | setting the lowest bit makes a word odd and leaves its half alone |
| `Md5Padding.PadInjective` | libs/vkd3d-shader/checksum.c:257-298 | different messages have different padded messages in the standard variant |
| `Md5Padding.DxbcPadInjective` | libs/vkd3d-shader/checksum.c:257-298 | the same for the DXBC variant |
| `Md5Context.Context.PadTail` | libs/vkd3d-shader/checksum.c:243-279 | the buffer and the state before the length is put in, for both variants, with one block or two |
| `Md5Context.Context.PutLength` | libs/vkd3d-shader/checksum.c:281-298 | where the length words go in each variant |
| `Md5Context.PadSplit` | libs/vkd3d-shader/checksum.c:257-300 | folding the padded message is folding its whole blocks and then the one or two blocks that the code makes |
| `Md5Context.Context.Final` | libs/vkd3d-shader/checksum.c:238-303 | the digest is that of padding everything that was seen and folding the block function over it |
| `Md5.CodeDigestIsRfcDigest` | libs/vkd3d-shader/checksum.c:55-153 | digests with the operations of the code are those with the operations of RFC 1321 |
| `Md5Empty.DigestOfEmpty` | libs/vkd3d-shader/checksum.c:72-153 | the digest of the empty message is the one in section A.5 of RFC 1321 |
| `Md5.ComputeMd5` | libs/vkd3d-shader/checksum.c:305-315 | for every message, init, update and final give the digest of the bytes that reach md5_update: sections 3.1 to 3.5 of RFC 1321, or the DXBC form |
| `Md5.ComputeInPieces` | libs/vkd3d-shader/checksum.c:174-303 | any sequence of updates gives the digest of the pieces put together |
| `Md5Padding.TruncationExact` | libs/vkd3d-shader/checksum.c:305-313 | the padded message is that of the whole message exactly below 2^32 bytes |
| `Utf8.Append` | libs/vkd3d-common/utf8.c:40-83 | the bytes of one value are appended, in the form that its size asks for |
| `Utf8.Utf16Read` | libs/vkd3d-common/utf8.c:85-104 | a pair or a single unit is read, never past the terminator, and zero stands for an unpaired surrogate |
| `Utf8.Utf16Size` | libs/vkd3d-common/utf8.c:108-119 | the sizing pass counts exactly the bytes of the result |
| `Utf8.Utf16Write` | libs/vkd3d-common/utf8.c:124-132 | the writing pass fills a buffer of that size exactly, terminator included |
| `Utf8.StrdupW16` | libs/vkd3d-common/utf8.c:106-135 | null exactly without memory; otherwise the encoded scalar values and one NUL |
| `Utf8.StrdupW32` | libs/vkd3d-common/utf8.c:137-157 | the same for 32-bit strings |
| `Utf8.EncodeAll` | libs/vkd3d-common/utf8.c:25-83 | what a strict UTF-8 decoder accepts is the encoding of what it decodes to: only shortest forms occur |
| `Utf8.FaithfulExactly` | libs/vkd3d-common/utf8.c:137-157 | the bytes decode to the values that were encoded exactly if these are scalar values |
| `Utf8.NoNul` | libs/vkd3d-common/utf8.c:40-83 | no byte of the encoding of non-zero values is NUL |
| `Utf8.ScalarsArePaired` | libs/vkd3d-common/utf8.c:85-135 | the values read are scalar values; as UTF-16 they are the input without its unpaired surrogates |
| `Utf8.Faithful16` | libs/vkd3d-common/utf8.c:106-135 | for every string, the result is valid UTF-8 without an inner NUL and decodes to the input without its unpaired surrogates |
| `Utf8.SameOutput16` | libs/vkd3d-common/utf8.c:106-135 | two strings have the same result exactly if they differ in unpaired surrogates only |
| `Utf8.Injective16` | libs/vkd3d-common/utf8.c:106-135 | on well-formed UTF-16 the conversion is injective |
| `Utf8.ExamplesOfRfc3629` | libs/vkd3d-common/utf8.c:25-83 | the examples of section 7 of RFC 3629 |
| `Utf8.ExampleOfRfc2781` | libs/vkd3d-common/utf8.c:85-104 | the example of section 5 of RFC 2781, both ways |
| `Gears.WeldIsSamePosition` | demos/gears.c:442-471 | two vertices are in the same place exactly if they are the same, or 1 and 10, or 2 and 11, of one tooth |
| `Gears.Profile` | demos/gears.c:442-471 | every vertex of a tooth lies in it: the tips at quarters 1 and 2, the rest at 0 and 3, the bore at 0; only vertices 0 and 5 are in the bore |
| `Gears.BackIsFront` | demos/gears.c:442-465 | the first five vertices are in front, and the next five right behind them |
| `Gears.FrontRuns` | demos/gears.c:442-450 | the outline of the front goes on by a quarter from each vertex to the next one, over the end of the tooth |
| `Gears.OutlineRuns` | demos/gears.c:491-499 | every side of an outward face with both ends in front goes back by exactly one quarter, and with both ends behind on by one |
| `Gears.FacesLie` | demos/gears.c:477-518 | the first five faces of a tooth are in front, the next five behind; the bore has a corner of these and of the smooth ones only |
| `Gears.SmoothExactly` | demos/gears.c:513-518 | a face is smooth exactly if all of its corners are in the bore |
| `Gears.FirstCorners` | demos/gears.c:477-499 | the first corner of a flat face, whose normal it is drawn with, belongs to that side of the tooth alone |
| `Gears.VerticesApartExactly` | demos/gears.c:437 | no vertex is overwritten exactly as long as the last tooth's number times 12 fits into 32 bits |
| `Gears.CreateVertices` | demos/gears.c:435-472 | every vertex slot is filled, with the position of its tooth and number, as long as none is overwritten |
| `Gears.PlacesDifferExactly` | demos/gears.c:476-512 | no face is overwritten exactly up to 2^32 faces |
| `Gears.CreateFaces` | demos/gears.c:474-526 | every face slot is filled, flat faces first, with indices that wrap around at the last tooth, as long as none is overwritten |
| `Gears.SlotSurjective` | demos/gears.c:474-526 | every slot of the index buffer belongs to a face of a tooth |
| `Gears.SlotInjective` | demos/gears.c:474-526 | no slot is written for two faces |
| `GearSolid.IndexIs` | demos/gears.c:504-506 | the modulo sends a corner past the last tooth to the first one; every index is below the vertex count |
| `GearTable.AllListed` | demos/gears.c:477-518 | each of the 60 sides of a tooth's triangles has one partner that runs the other way, and no two are alike |
| `GearExact.EdgesDifferExactly` | demos/gears.c:474-526 | for every tooth count, no directed edge is used twice exactly with no teeth, or with three or more and 12 * tooth_count at most 65536 |
| `GearExact.EdgesPairExactly` | demos/gears.c:474-526 | every directed edge has its reverse, so that the solid is closed, exactly up to 12 * tooth_count == 65536 |
| `GearExact.TooManyEdges` | demos/gears.c:77-80 | more than 2^32 edges with 16-bit indices cannot all be different |
| `GearExact.SixteenBitsExactly` | demos/gears.c:504-524 | 16 bits hold every index exactly if the unsigned product tooth_count * 12, the modulus, is at most 65536 |
| `GearEuler.Euler` | demos/gears.c:435-532 | 10n positions, 30n edges and 20n faces: V - E + F is 0, as for a ring |
| `GearPacking.DrawShowsGear` | demos/gears.c:597-612 | the two draws of a gear show its flat and its smooth faces, whatever other gears share the buffers |
| `GearPacking.MeshIsWhole` | demos/gears.c:474-532 | the faces of a mesh that the code has built stay within its vertices, cut or not |
| `GearPacking.Pack` | demos/gears.c:559-612 | the buffers are exactly filled with all gears, and every gear's draws show it |
| `ListRings.RingTurned` | include/private/list.h:68-83 | a ring may be read from any of its nodes |
| `Lists.AddAfter` | include/private/list.h:68-74 | the list has the new element after the given one, wherever that is |
| `Lists.AddBefore` | include/private/list.h:77-83 | the list has the new element before the given one; before the head means at the end |
| `Lists.Remove` | include/private/list.h:98-102 | the list without the element, whose own links are kept |
| `ListWalks.Count` | include/private/list.h:145-151 | the number of elements, modulo 2^32 |
| `ListMoves.EmptyExactly` | include/private/list.h:133-136 | the test for an empty list |
| `ListMoves.MoveBefore` | include/private/list.h:154-163 | all elements of a disjoint list go, in order, before the given element, and that list is left empty |
| `ListMoves.MoveAfter` | include/private/list.h:166-175 | the same after the given element |
| `ListSlices.InPlaceExactly` | include/private/list.h:190-211 | the slice fills its destination already exactly if its neighbour there is the destination |
| `ListSlices.MoveSliceHead` | include/private/list.h:190-199 | exactly the slice moves to the place after the destination, in its own list or another one, if and only if it is not there already |
| `ListSlices.MoveSliceTail` | include/private/list.h:202-211 | the same for the place before the destination |
| `ListWalks.ForEachSafe` | include/private/list.h:218-221 | with any set of elements removed and overwritten on the way, every original element is visited once, in order, and the others are left |
| `AtomicExchange.EveryRun` | include/private/vkd3d_common.h:485-523 | in every interleaving the successful swaps form a chain: each call returns the value installed just before its own |
| `AtomicExchange.FailureMeansProgress` | include/private/vkd3d_common.h:514-519 | an attempt fails only if another swap has happened since the load |
| `AtomicExchange.AloneFinishes` | include/private/vkd3d_common.h:514-521 | a thread that is left alone finishes with its next load and compare |
| `AtomicExchange.AloneFinishesAnyway` | include/private/vkd3d_common.h:514-521 | from anywhere in the loop, also with a stale value, three turns on its own bring a thread to return the current value |
| `AtomicExchange.StepIsLocal` | include/private/vkd3d_common.h:514-521 | a turn of one thread leaves the others alone, and the word changes only with a swap |
| `AtomicExchange.LockFree` | include/private/vkd3d_common.h:514-521 | in every run in which no swap succeeds, no thread that has something left to do has had more than two turns |
| `AtomicExchange.Conservation` | include/private/vkd3d_common.h:507-523 | after every schedule, the returned values and the current one are, with multiplicity, the first value and the installed ones |
| `BitMasks.PopCount` | include/private/vkd3d_common.h:278-289 | the portable form gives the number of set bits of every 32-bit mask |
| `Bits.Pairs` | include/private/vkd3d_common.h:285 | the subtraction leaves the number of set bits of every pair, in the pair |
| `Bits.Quads` | include/private/vkd3d_common.h:286 | adding neighbouring pairs counts every four bits |
| `Bits.Bytes` | include/private/vkd3d_common.h:287 | adding neighbouring fours counts every eight bits |
| `BitMasks.TopByte` | include/private/vkd3d_common.h:287 | the wrapping multiplication gathers the four counts in the top byte |
| `BitRuns.AndIsBitwise` | include/private/vkd3d_common.h:297 | the intersection of two masks has exactly the bits that both have |
| `BitRuns.Stopped` | include/private/vkd3d_common.h:295-303 | where the loop stops, the counts agree exactly if the mask is one run of set bits |
| `BitRuns.IsContiguous` | include/private/vkd3d_common.h:291-304 | true exactly for masks ((1 << len) - 1) << start within 32 bits, the empty mask included |
| `DebugList.IsElement` | libs/vkd3d-common/debug.c:356-376 | the elements of the string split at separators are its separator-free matches between separators or ends |
| `DebugList.SplitAtSeparator` | libs/vkd3d-common/debug.c:356-359 | at a comma or a semicolon a string splits into what its two parts split into |
| `DebugList.SplitWord` | libs/vkd3d-common/debug.c:356-359 | a string without comma, semicolon and NUL is its only element |
| `DebugList.SeparatorsAre` | libs/vkd3d-common/debug.c:356-359 | the separators are the comma, the semicolon and the NUL |
| `DebugList.SkipMissesNothing` | libs/vkd3d-common/debug.c:371-376 | going on after a whole match whose boundary check failed misses no element |
| `DebugList.ElementsExactly` | libs/vkd3d-common/debug.c:361-381 | the search tells the elements of every string exactly if the member has no separator in it |
| `DebugList.EndsExactly` | libs/vkd3d-common/debug.c:366-378 | the loop gets stuck where it began exactly for the empty member in a string that begins with something else than a separator |
| `DebugList.HasMember` | libs/vkd3d-common/debug.c:361-381 | the loop ends, and for a separator-free member tells whether it is an element |
| `DebugList.ParseOptions` | libs/vkd3d-common/debug.c:383-398 | a flag bit is on exactly if some option brings it and the search finds that option |
| `DebugList.HasElements` | libs/vkd3d-common/debug.c:393 | for options whose names are words these are the options among the elements of the string |
| `ArrayReserve.SizesHave64Bits` | libs/vkd3d-common/memory.c:30 | the greatest size is that of 64 bits |
| `ArrayReserve.Grow` | libs/vkd3d-common/memory.c:34-39 | the capacity, or 4, times the least power of two that reaches the count, while doubling stays within the greatest capacity; the count itself if that does not reach it |
| `ArrayReserve.FitsExactly` | libs/vkd3d-common/memory.c:30-41 | the byte count of a growth does not wrap around exactly if four elements fit |
| `ArrayReserve.RoomExactly` | libs/vkd3d-common/memory.c:41 | a block of a computed, possibly wrapped size has the room exactly if it did not wrap |
| `ArrayReserve.Vector.Reserve` | libs/vkd3d-common/memory.c:22-48 | success exactly when expected and with the capacity asked for; failure changes nothing; the capacity never shrinks and the elements are kept |
| `ArrayReserve.Vector.AppendAll` | libs/vkd3d-common/memory.c:22-48 | n appends, one element at a time, copy fewer than 2n elements |

## Left out

- The COM and DXGI headers, the shader compiler, the command queues and the demos' windows: interfaces, foreign calls and
  floating point.
- Log levels, formatted output, string escaping, environment variables, threads and dynamic libraries: calls into the
  system.
- Simple accessors of lists, `align`, range checks, the logarithm table, bitmap and packing helpers: facts about one
  expression.
- Compiler built-ins and Windows intrinsics in place of the portable forms, and big-endian machines: `byte_reverse` then
  really reverses.
- The sines behind the MD5 constants: the table is taken as it is, and confirmed by the one digest of `Md5Empty`.
- The last `byte_reverse`, of the four words of the digest, and the copy of the digest into the caller's words: on a
  little-endian machine the digest is the bytes of the words.
- Real positions and normals of gear vertices: two expressions of the model may be equal in floating point although they
  differ, and none of the proofs depends on that. A failed allocation in `cxg_mesh_create`, which leaves the mesh unset.
- CreateVertices: says nothing of the positions once vertices are overwritten, from 357913942 teeth on.
- CreateFaces: says nothing but the number of slots once faces are overwritten, from 214748365 teeth on; tooth counts
  with a modulus of 0 modulo 2^32, by which the code would divide, are not modelled.
- EdgesPairExactly: is about meshes without overwritten faces; which edges the overwritten ones leave depends on where
  indices wrap around.
- Keys of tree entries are constant and compared by a pure function; an entry whose key changes while it is in the tree
  is outside of the contract of `rbtree.h`.
- A callback of `rb_for_each_entry` that changes the tree: the header offers only the postorder walk for that.
- Slices that contain their destination, and lists whose `list_move_before` or `list_move_after` destination is in the
  source list itself: the operations have no meaning there.
- A NULL string in `vkd3d_debug_list_has_member`, for which the loop is not entered, and NULL option tables.
- Memory ordering weaker than sequential consistency: an access to the shared word is one step of `AtomicExchange`.
- `vkd3d_array_reserve` with an element size of zero, which divides by zero.
- `realloc` that fails for reasons of its own is a parameter, as is every other allocation.
