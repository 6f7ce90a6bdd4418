# MindsEye verification models

Dafny models of the hardest parts of the MindsEye engine and of the libraries it builds on, with proofs of what they are for.
`dafny verify dfyconfig.toml` checks the whole project.

| files | subject |
|---|---|
| `Bytes`, `Reflection`, `BinaryFormat`, `BinaryLaws`, `BinaryLayout`, `Chunker`, `BinaryWalk`, `Serialize`, `SerializeLaws` | the reflection-driven serializer in binary mode: the cursor class, the recursive walk in its four modes, the three passes that collect dependencies, the reader with its header and parent |
| `TextFormat`, `TextLayout`, `TextWalk`, `TextSerialize` | the same walk in text mode over abstract JSON trees: the path stack, missing keys, inheritance from a parent |
| `DeepCopy`, `DeepCopyLaws` | reflected equality, deep copy and destruction over an explicit heap |
| `JsmnSpec`, `Jsmn`, `JsmnTree`, `JsmnLaws`, `JsmnSkip` | the two-pass JSON tokenizer and the iterative subtree skipper of cgltf |
| `NodeTree`, `Rotation`, `Accessor`, `AccessorLayout`, `Base64` | further parts of cgltf: node parents, cycle check and world transforms; sparse accessors; base64 buffers |
| `CommandLine` | Windows argument quoting composed with Ninja escaping, against the readers of both |
| `ResourcePool`, `AssetMachine`, `AssetWorker` | generational handles, the asset load machine on top of them, and its worker left to itself |
| `LSystem` | the L-system interpreter as a stack machine |
| `Treemap` | the squarified treemap |
| `Arena` | the bump allocator |
| `Common` | what several of these share |

Each core has a specification made of functions and predicates, the imperative code of the repository as methods and classes
proved to compute exactly what the specification says, and laws about the specification.

## Results that are not plain successes

Each comes with its exact condition and with a concrete input.

* Lengths are cast to 32 bits: a value is restored if and only if every string and buffer is shorter than 2^32 bytes
  (`BinaryLaws.MergeAgrees`, `BinaryLaws.LongStringLost`).
* A type without a header is read as an asset when its bytes happen to look like one. Its round trip holds exactly when they are
  not rejected as one; looking like one does no harm by itself (`SerializeLaws.HeaderlessRoundTrip`, `HeaderlessCanFail`,
  `HeaderlessCanBeAccepted`).
* Comparing two dynamic arrays indexes an element by its byte offset, which an assertion holds against the number of elements, so
  arrays of two or more multi-byte elements are compared up to that point and then stop the process (`DeepCopy.ArrayVerdict`,
  `DeepCopy.TwoNumbersTrap`). Equality means the same, and a deep copy is equal to its source, exactly for values in which no such
  array is reached (`DeepCopy.EqualMeansSame`, `DeepCopy.CopyIsEqual`).
* A pool slot counts generations in 16 bits but a handle carries 8: a handle created after 256 destructions of its slot does not
  resolve (`ResourcePool.NewHandleResolves`, `ResourcePool.WornOut`). The pool's handles are safe as long as no such slot is given
  out again; the asset system looks every new handle up, so there it stops at the assertion of the lookup instead
  (`AssetMachine.CanCreateExact`).
* A job asks for the parent its file names and waits for it on the only worker, so it fails unless the parent was loaded before,
  and every failing job wears out the slot it was given. The worker left to itself drains its queue if and only if every chain of
  parents ends within 255 links (`AssetWorker.DrainsExactly`). An endless chain, or an ending one of 256 links, stops the process at
  the 257th job (`AssetWorker.LongChainTraps`, `CyclicParents`, `LongestChain`). Cyclic dependencies do no harm.
* Unloading an asset by its current handle while its job is still running breaks the correspondence of stages and jobs; it is
  sound exactly for loaded assets (`AssetMachine.UnloadWhileLoading`, `AssetMachine.UnloadedTooEarly`).
* The arena checks neither the in-place resize nor the wrap-around of an allocation. `Arena.StepExact` says exactly which events
  keep live blocks apart, also when marks end; `Arena.AllocWraps`, `GrowBeyondMemory`, `ShrinkBelowMark`, `EmptyBlockShares`,
  `EmptyOutOfRange`, `MoveWithoutRoom` and `ClearUnderMark` are runs in which each part of the condition fails.
* A treemap group has room for 32 rectangles. `Treemap.RunTooLong` says exactly when a run needs more, `Treemap.CrumbsTooLong`
  shows an input, and `Treemap.LargeItemsFit` gives a condition on the sizes under which it never does.
* Reading sparse elements singly takes the first entry for an index and in bulk the last; they agree for all indices exactly when
  the indices are strictly increasing, which glTF 2.0 section 3.6.2.3 asks for (`Accessor.EntriesAgree`, `Accessor.RepeatedIndex`).
  Then the two calls agree on all elements exactly when base and sparse data can be reached, or the single form has nothing to
  read (`Accessor.BulkAgreesWithSingle`, `SparseUnreachable`, `BaseUnreachable`). The bulk form writes behind the requested
  floats exactly when a sparse index is not below the requested elements (`Accessor.WritesInside`, `WritesBeyondRequest`).
* A normalized signed component lies within [-1, 1] exactly when it is not the lowest number of its type; glTF 2.0 section 3.11
  asks for -1 there, which the code does not enforce (`Accessor.NormalizedMeaning`, `Accessor.EndValues`).
* The tokenizer detects every text that is cut short (`JsmnLaws.TruncationDetected`) but accepts texts that are no JSON: a closing
  bracket can go unnoticed, exactly under the condition of `JsmnLaws.FindOpenExact` (`JsmnLaws.StrayBracket`). What holds of every
  accepted text is `JsmnLaws.AcceptedMeaning`.
* Arguments with line breaks do not survive a Ninja variable; all others do (`CommandLine.ResponseFileRoundTrip`,
  `CommandLine.LineBreakLost`).

## Where comments and code differ

The model follows the code. A handle has 23 index bits, although a comment in `mindseye/core/me_core.h` speaks of 24. The header
comment of cgltf says that `cgltf_accessor_read_float` refuses sparse accessors; the code reads them. The comment of
`mindseye/core/me_chunker.h` says that asymmetric serialization code is detected; what the code detects is a step beyond the end
of the buffer (and a marker mismatch, which the reflected walk does not use).

## Model

| member | source | states |
|---|---|---|
| `Bytes.LE32RoundTrip` | mindseye/core/me_chunker.cpp:195-203 | A u32 handed to the cursor as its four little-endian bytes comes back unchanged, for every u32. |
| `Bytes.LowestFirst` | mindseye/core/me_chunker.cpp:195-203 | The four bytes of a word come lowest first: the first is the remainder by 256, and without it they hold the quotient; every four bytes are those of the word they hold. |
| `Reflection.DefaultTyped` | mindseye/core/me_serialize.cpp:252-278 | Setting storage of any well-formed descriptor to its defaults yields a value of that descriptor. |
| `BinaryFormat.CollectFirstOccurrences` | mindseye/core/me_serialize.cpp:773-791 | Collecting asset ids one `AddAssetDependency` at a time yields the duplicate-free list of exactly the valid ids in order of first occurrence, and collecting the same ids again changes nothing. |
| `BinaryFormat.AddAllCovered` | mindseye/core/me_serialize.cpp:781-788 | An id that is already listed never changes the list, so a complete list survives any further pass. |
| `BinaryLaws.DecodeEmit` | mindseye/core/me_serialize.cpp:344-442 | Round trip of the binary walk: for every descriptor and every value of it, decoding the emitted bytes followed by anything else returns the storage merged with the value and leaves exactly the bytes behind it. |
| `BinaryLaws.DecodeExtend` | mindseye/core/me_chunker.cpp:177-193 | A read that succeeds depends only on the bytes it consumed: it gives the same result when more bytes follow. |
| `BinaryLaws.TruncationDetected` | mindseye/core/me_chunker.cpp:177-193 | Decoding any strict prefix of what was emitted never succeeds. |
| `BinaryLaws.MergeAgrees` | mindseye/core/me_serialize.cpp:294-442 | What a reader gets back agrees with the written value at every serializable member if and only if all strings and buffers are shorter than 2^32 bytes (lengths are cast to u32). |
| `BinaryLaws.LongStringLost` | mindseye/core/me_chunker.cpp:210-226 | A string of 2^32 bytes is written with length 0 and comes back empty. |
| `BinaryLaws.MergeKeepsExcluded` | mindseye/reflector/reflection_types.h:211-214 | A member that is excluded, padding or untyped keeps what the storage held before the read. |
| `BinaryLayout.AssetsExact` | mindseye/core/me_serialize.cpp:344-442 | The ids the walk collects are exactly those of the asset references it can reach, through aliases, arrays and serializable members at any depth. |
| `BinaryLayout.EmitExact` | mindseye/core/me_serialize.cpp:344-442 | Writing with the complete list of ids succeeds if and only if no place the walk reaches is a view, a member without a type, a struct without members or an array of 2^32 elements. |
| `BinaryLayout.MembersInOrder` | mindseye/core/me_serialize.cpp:415-438 | A struct is written member by member in the order of its declaration, with nothing between them and nothing for members that are not visited. |
| `BinaryLayout.ArrayLayout` | mindseye/core/me_serialize.cpp:294-342 | A dynamic array is its count in four bytes, lowest first, and then its elements in order; a constant array is only the elements. |
| `BinaryLayout.LeafLayout` | mindseye/core/me_serialize.cpp:572-690 | Primitives are their bytes, strings and buffers their 32-bit length and as many bytes, asset references the two numbers of the id. |
| `BinaryLayout.EmitDecode` | mindseye/core/me_serialize.cpp:344-442 | The round trip the other way: whatever bytes can be read, writing the value read gives exactly the bytes that were consumed. |
| `BinaryLayout.DecodeExact` | mindseye/core/me_serialize.cpp:344-442 | Bytes can be read as a type if and only if they start with what some value of the type is written as. |
| `Chunker.PushedTwice` | mindseye/core/me_chunker.cpp:177-193 | Handing two blocks to the cursor one after the other has the effect of handing over their concatenation, in Write, Measure and Verify mode and across a switch to Measure. |
| `Chunker.CopyInto` | mindseye/core/me_chunker.cpp:186 | The copy into the buffer changes exactly the copied range. |
| `Chunker.Chunker.constructor` | mindseye/core/me_chunker.cpp:156-162 | A new cursor stands at the start of its buffer in the requested mode. |
| `Chunker.Chunker.DoBinaryVoid` | mindseye/core/me_chunker.cpp:177-193 | A step that would leave the buffer switches to Measure first; otherwise Write stores, Read fetches, Verify compares exactly the next bytes. Nothing outside the buffer is touched and the cursor always advances. |
| `Chunker.Chunker.DoU32` | mindseye/core/me_chunker.cpp:195-203 | A u32 is pushed or pulled as four bytes; a read that overruns leaves the value alone and the cursor in Measure mode. |
| `Chunker.Chunker.DoSized` | mindseye/core/me_chunker.cpp:210-226 | A length prefix and then the bytes: what is pushed is the length mod 2^32 and that many bytes; what is pulled is exactly what the format function says, or the cursor is in Measure mode. |
| `BinaryWalk.DependencyList.Add` | mindseye/core/me_serialize.cpp:773-791 | The mutable list after one call is the specified list: unchanged for an invalid or listed id, one longer otherwise. |
| `BinaryWalk.Walk` | mindseye/core/me_serialize.cpp:344-442 | The recursive walk in any mode does what the format functions say: it pushes exactly the emitted bytes and collects exactly the asset ids it meets, or pulls exactly the decoded value, or fails as they do. |
| `BinaryWalk.WalkLeaf` | mindseye/core/me_serialize.cpp:572-690 | Primitives, sized buffers and strings, with serialization disallowed for views, in any mode. |
| `BinaryWalk.WalkAsset` | mindseye/core/me_serialize.cpp:793-824 | An asset reference records its id, writes only the id, and is read back with no runtime state. |
| `BinaryWalk.WalkDynArray` | mindseye/core/me_serialize.cpp:294-342 | A dynamic array: count and elements, read into a fresh array of default elements. |
| `BinaryWalk.BeginArray` | mindseye/core/me_serialize.cpp:308-323 | The count written is that of the array the pass sees now; a read count creates that many default elements. |
| `BinaryWalk.WalkAll` | mindseye/core/me_serialize.cpp:324-341 | The loop over elements refines the recursive element format in every mode. |
| `BinaryWalk.WalkMembers` | mindseye/core/me_serialize.cpp:415-438 | The loop over members visits exactly the serializable typed members, in order. |
| `Serialize.SerializeChunkerPass` | mindseye/core/me_serialize.cpp:465-493 | One pass over a prepared object: its size, its bytes and the dependency list it leaves, and when it fails. |
| `Serialize.FixpointReached` | mindseye/core/me_serialize.cpp:495-519 | After the first pass the list covers every asset id of the object, so further passes leave it alone; whatever the last pass can emit the first could too. |
| `Serialize.SerializeBlocking` | mindseye/core/me_serialize.cpp:495-519 | Success exactly when the object with its completed list can be emitted and is not empty; then the blob holds exactly those bytes, its size is the second measurement, and the list is the first-occurrence list. |
| `Serialize.PreparedIsObject` | mindseye/core/me_serialize.cpp:79-103 | A stamped object is still an object of the type, and stamping it again changes nothing. |
| `Serialize.PreparedKeeps` | mindseye/core/me_serialize.cpp:79-103 | Stamping changes only the header: in it the asset id and the parent id stay the object's own, and the words are magic, format version, type version, name hash and 0. |
| `Serialize.ResetTyped` | mindseye/core/me_serialize.cpp:280-292 | A parent copy with its visited members reset to defaults is still a value of the type. |
| `Serialize.ReadPass` | mindseye/core/me_serialize.cpp:560-563 | A read pass succeeds with the decoded value exactly when decoding succeeds, and leaves the buffer alone. |
| `Serialize.TryReadSerializedHeaderField` | mindseye/core/me_serialize.cpp:444-463 | The header is reported exactly when the blob starts with the magic words and a whole header can be decoded. |
| `Serialize.ValidateExact` | mindseye/core/me_serialize.cpp:150-175 | A header is accepted exactly for the magic word, the format, the name and the version of the type; a version mismatch is reported exactly when only the version is another. |
| `Serialize.DeserializeBlocking` | mindseye/core/me_serialize.cpp:521-570 | The entry point computes the specified result code and value for every blob and parent. |
| `SerializeLaws.AssetRoundTrip` | mindseye/core/me_serialize.cpp:495-570 | End to end: a written asset blob is accepted, every serializable member has the written value whatever the parent is (if and only if lengths fit), and the only failure is a parent that cannot be used. |
| `SerializeLaws.ReadBack` | mindseye/core/me_serialize.cpp:177-225 | A written asset is read if and only if its parent id is invalid, or of the kind of its own id and the parent is there. Members that are not visited are then the parent's, or the default's when no parent is named; visited ones are read over their own defaults. |
| `SerializeLaws.SavedAsset` | mindseye/core/me_serialize.cpp:495-570 | Saving an object and loading it: the header names the object's own id and parent, the result is a success exactly when that parent can be used, and then every visited member agrees with the object if and only if its lengths fit. |
| `BinaryLayout.SavedFront` | mindseye/core/me_serialize.cpp:79-103 | The first forty bytes of a saved asset are "MEAS", the format, the type's version and name hash, zero, the object's own id and parent id, and the number of dependencies, byte for byte. |
| `BinaryLayout.SavedDependencies` | mindseye/core/me_serialize.cpp:495-519 | The list saved with an object holds exactly the valid ids of the asset references the walk reaches in it. |
| `BinaryLayout.AcceptedExact` | mindseye/core/me_serialize.cpp:521-570 | Of all blobs exactly those are read as an asset that start with a header of the type naming no parent or a usable one, and with what some value of the type is written as. |
| `SerializeLaws.TruncatedBlobRejected` | mindseye/core/me_serialize.cpp:560-570 | No strict prefix of a written blob is ever deserialized successfully. |
| `SerializeLaws.ForeignReader` | mindseye/core/me_serialize.cpp:152-175 | Any reader reports a version mismatch for a written asset blob exactly when the blob is of its own type in another version, and never reads a blob of another type. |
| `SerializeLaws.HeaderlessRoundTrip` | mindseye/core/me_serialize.cpp:531-545 | A type without a header is read back exactly when its bytes are not rejected as somebody's asset header; whenever it is read, taken for an asset or not, every serializable member has the written value (if and only if lengths fit). |
| `SerializeLaws.HeaderlessCanFail` | mindseye/core/me_serialize.cpp:40-50 | A concrete type whose own bytes look like a foreign asset header and are refused. |
| `SerializeLaws.HeaderlessCanBeAccepted` | mindseye/core/me_serialize.cpp:531-545 | A concrete type whose own bytes look like an asset header and are accepted all the same. |
| `SerializeLaws.FourPasses` | mindseye/core/me_chunker.h:3-18 | Measure, Write, Read, Verify on one value: the write exactly fits, the read restores, the verification meets no difference. |
| `SerializeLaws.VerifyPass` | mindseye/core/me_chunker.cpp:177-193 | A verify pass over any buffer that is long enough meets a difference if and only if other bytes would be written. |
| `TextFormat.DecodeEmit` | mindseye/core/me_serialize.cpp:344-442 | Text round trip: for every descriptor with distinct member names, reading what was written restores every visited member whatever the storage held. |
| `TextFormat.KeyWritten` | mindseye/core/me_chunker.cpp:461-473 | Every visited member has its own key in the written object, holding what that member emits. |
| `TextFormat.AllMembers` | mindseye/core/me_serialize.cpp:422-438 | A struct is read if and only if each member can be read by itself, and then member by member. |
| `TextFormat.Overlay` | mindseye/core/me_serialize.cpp:425-436 | One-level inheritance: a top-level member takes the document value read over its own type's default when its key is present, and the parent's value when it is not. |
| `TextFormat.NestedMissingKey` | mindseye/core/me_serialize.cpp:436 | A key missing inside a present member leaves that member type's default, not the parent's value. |
| `TextFormat.ParentShowsOnlyInGaps` | mindseye/core/me_serialize.cpp:425-436 | Two parents can differ only in members the document leaves out; a document with all keys reads over either. |
| `TextFormat.WrittenDocumentRestores` | mindseye/core/me_serialize.cpp:546-563 | A document the walk wrote restores the value over the defaults and over every parent. |
| `TextLayout.KeysExact` | mindseye/core/me_serialize.cpp:415-438 | An object has one key for every visited member and no other key. |
| `TextLayout.DocumentShape` | mindseye/core/me_serialize.cpp:344-442 | Numbers, texts, the two keys of an asset id, lists with the elements in order and objects with the names of the visited members: what each kind of value looks like in a document. |
| `TextLayout.EmitExact` | mindseye/core/me_serialize.cpp:344-442 | A document can be written if and only if no place the walk reaches is a view, a member without a type, a struct without members or an array whose count is no u32. |
| `TextLayout.ReadExact` | mindseye/core/me_serialize.cpp:344-442 | Whether a document can be read depends on it and on the type alone, not on the parent it is read over: keys may be missing or unknown, but what is there has to fit. |
| `TextLayout.IdHalves` | mindseye/core/me_serialize.cpp:793-824 | A half of an asset id without a key stays invalid; one that is no four-byte number makes the read fail. |
| `TextWalk.TextChunker.constructor` | mindseye/core/me_chunker.cpp:102-131 | A new text cursor stands at the root with an empty stack. |
| `TextWalk.TextChunker.BeginObject` | mindseye/core/me_chunker.cpp:445-455 | Writing starts an empty object; reading asks whether the place is an object and changes nothing. |
| `TextWalk.TextChunker.Field` | mindseye/core/me_chunker.cpp:461-473 | Reading a missing key fails without moving; otherwise the enclosing place is pushed and the key entered. |
| `TextWalk.TextChunker.EndField` | mindseye/core/me_chunker.cpp:475-478 | Leaving a field pops the enclosing object with what is now at that key. |
| `TextWalk.TextChunker.BeginArray` | mindseye/core/me_chunker.cpp:480-495 | Writing starts an empty array; reading reports the count mod 2^32 of an array. |
| `TextWalk.TextChunker.Element` | mindseye/core/me_chunker.cpp:501-512 | Reading past the end fails without moving; otherwise the array is pushed and the element entered, a new one included. |
| `TextWalk.TextChunker.EndElement` | mindseye/core/me_chunker.cpp:514-541 | Leaving an element pops the array with that element replaced or appended. |
| `TextWalk.Walk` | mindseye/core/me_serialize.cpp:344-442 | For every descriptor: the text walk restores the path stack, leaves exactly the emitted tree and collects exactly the asset ids it meets when writing, and yields exactly the decoded value when reading, or fails as decoding does; only a descriptor nested deeper than what is left of the stack of 128 places can stop it at the assertion of the push. |
| `TextWalk.WalkMembers` | mindseye/core/me_serialize.cpp:415-438 | The member loop with missing keys and one-level resets refines the member format. |
| `TextWalk.WalkElements` | mindseye/core/me_serialize.cpp:324-341 | The element loop refines the element format. |
| `TextWalk.WalkAsset` | mindseye/core/me_serialize.cpp:793-824 | The id object of an asset reference, with missing keys left invalid. |
| `TextWalk.WalkLeaf` | mindseye/core/me_chunker.cpp:360-390 | Numbers, buffers and strings; a buffer that is not a string switches to Measure mode, which is a failure. |
| `TextWalk.WalkDynArray` | mindseye/core/me_serialize.cpp:294-342 | A dynamic array is read into fresh default elements without resets. |
| `TextWalk.WalkFixedArray` | mindseye/core/me_serialize.cpp:383-410 | A constant array is refused unless the document has exactly its count. |
| `TextSerialize.SerializeChunkerPass` | mindseye/core/me_serialize.cpp:465-493 | One pass over a prepared object: the document is the emitted tree with the list as the walk finds it when it gets to the header (what it held at the start and the ids of the members before), and the list it leaves. |
| `TextSerialize.SerializeBlocking` | mindseye/core/me_serialize.cpp:495-519 | Three passes in text mode, wherever the header stands: success exactly when the object with its completed list can be emitted; the document is that tree and the list holds the first occurrences of exactly the valid ids. |
| `TextSerialize.SameAssets` | mindseye/core/me_serialize.cpp:503-509 | What stands in the header has no influence on the asset references of an object, so the passes after the first collect nothing new. |
| `TextSerialize.ShorterListEmits` | mindseye/core/me_serialize.cpp:495-519 | What can be emitted with a list can be emitted with any list that is no longer, so whatever the last pass can emit the first could too. |
| `TextSerialize.SeenOfComplete` | mindseye/core/me_serialize.cpp:495-519 | The list a header sees in the first pass is no longer than the complete one; once the list is complete the header sees all of it, whatever stands before it. |
| `TextSerialize.TryReadSerializedHeaderField` | mindseye/core/me_serialize.cpp:444-463 | The header of a document is the decoded member "header" of its root object, if it has one. |
| `TextSerialize.DeserializeBlocking` | mindseye/core/me_serialize.cpp:521-570 | Header check, parent check, defaults or parent copy, and the read pass compute the specified result for every document. |
| `TextSerialize.InheritedDocument` | mindseye/core/me_serialize.cpp:425-436 | Of a document whose header names a usable parent: the result is a success exactly when each visited member with a key can be read over the default of its own type; those members are then what is read, and all others are the parent's. |
| `TextSerialize.OwnDocument` | mindseye/core/me_serialize.cpp:546-563 | Of a document whose header names no parent, or of a type without a header: members with a key are read over the initial values of the type, and the others keep these. |
| `TextSerialize.RefusedDocument` | mindseye/core/me_serialize.cpp:531-545 | A document whose header is of another type or version is refused with that verdict, and one without the header its type needs with a failure; neither leaves a value. |
| `TextSerialize.NoDeepMerge` | mindseye/core/me_serialize.cpp:432-436 | A key missing inside a member that is present takes the default of the member's type and never the parent's value. |
| `TextSerialize.WrittenHeader` | mindseye/core/me_serialize.cpp:444-463 | The header found in a written document validates and names the same asset and parent as the written one. |
| `TextSerialize.StampedKeeps` | mindseye/core/me_serialize.cpp:79-103 | Stamping changes only the header: in it the asset id and the parent id stay the object's own, and the words are those of the type. |
| `TextSerialize.SavedDocument` | mindseye/core/me_serialize.cpp:495-570 | Saving an object as a document and loading it: the header names the object's own id and parent, the result is a success exactly when that parent can be used, and then every visited member is restored. |
| `TextSerialize.ForeignReader` | mindseye/core/me_serialize.cpp:152-175 | A written asset document is refused by readers of another type, and reported as a version mismatch exactly by readers of another version of its type. |
| `TextSerialize.AssetRoundTrip` | mindseye/core/me_serialize.cpp:521-570 | A written asset document restores every serializable member over defaults or any usable parent, and is refused exactly when it names an unusable one. |
| `TextSerialize.SerializedRoundTrip` | mindseye/core/me_serialize.cpp:495-570 | End to end in text mode: what the three passes write of an asset is read back with every serializable member as written, or is refused because it names an unusable parent. |
| `DeepCopy.EqualMeansSame` | mindseye/reflector/reflection_types.cpp:61-322 | Reflected equality says equal if and only if both values have the same meaning behind their pointers, apart from what is not serialized, and every dynamic array it reaches has at most one element or one-byte elements; it says unequal only of values that differ. Equal values that cannot be compared stop the process at the index assertion. |
| `DeepCopy.ArrayVerdict` | mindseye/reflector/reflection_types.cpp:293-322 | Comparing two dynamic arrays of n elements of s bytes looks at ceil(n / s) of them: it says unequal exactly when the lengths differ or the first of these that is not equal differs, equal exactly when these are all and all are equal, and otherwise stops the process, because an element is indexed by its byte offset. |
| `DeepCopy.ReachedExact` | mindseye/core/containers/dynarray.h:38-47 | With n elements of s bytes the byte offsets of the first ceil(n / s) elements meet the index assertion and that of the next does not; these are all elements if and only if there is at most one or they are single bytes. |
| `DeepCopy.CopyGrows` | mindseye/reflector/reflection_types.cpp:324-390 | A deep copy adds fresh blocks only and leaves every existing block as it was. |
| `DeepCopy.CopyMeans` | mindseye/reflector/reflection_types.cpp:324-390 | In every heap that has the copy's own blocks the copy is valid and means what the source meant. |
| `DeepCopy.CopyIsEqual` | mindseye/reflector/reflection_types.cpp:61-390 | Comparing a value with its deep copy never finds a difference: it says equal if and only if every dynamic array it reaches has at most one element or one-byte elements, and otherwise stops the process. Every block the copy owns is fresh. |
| `DeepCopy.CopyKeepsSkipped` | mindseye/reflector/reflection_types.cpp:375-390 | At every depth reached through aliases, arrays and visited members, a member of the copy that is not visited is the source's stored member bit for bit. |
| `DeepCopyLaws.MeaningAlike` | mindseye/reflector/reflection_types.cpp:61-322 | Two values mean the same exactly when their buffers and strings hold equal bytes, their arrays as many elements that do, and their numbers are equal, wherever their blocks are. |
| `DeepCopyLaws.EqualExact` | mindseye/reflector/reflection_types.cpp:61-322 | Reflected equality says equal exactly for values with the same contents that can be compared, unequal only for values with other contents, and stops the process on equal contents that cannot be compared. |
| `DeepCopyLaws.CopyAlike` | mindseye/reflector/reflection_types.cpp:324-390 | A deep copy has the contents of its source, below types that are not serialized too, in every heap that has its blocks. |
| `DeepCopy.TwoNumbersTrap` | mindseye/reflector/reflection_types.cpp:310-316 | Concrete input: a dynamic array of two 32-bit numbers cannot be compared with its own copy. |
| `DeepCopy.DestroyCopy` | mindseye/reflector/reflection_types.cpp:125-183 | Destroying a copy frees exactly the blocks the copy allocated, each once. |
| `DeepCopy.CopyThenDestroy` | mindseye/reflector/reflection_types.cpp:125-205 | Copying and destroying the copy gives back the original heap: no leak, no double free. |
| `DeepCopy.CopyOutlivesSource` | mindseye/reflector/reflection_types.cpp:143-183 | Destroying the source leaves the copy valid with the same meaning. |
| `DeepCopy.NoSharing` | mindseye/reflector/reflection_types.cpp:233-264 | Changes outside the copy's blocks never reach the copy, and changes outside the old blocks never reach the source. |
| `DeepCopy.DestroySpares` | mindseye/reflector/reflection_types.cpp:266-291 | Destroying a value spares every block that did not exist when the value was valid. |
| `DeepCopy.Memory.EqualFields` | mindseye/reflector/reflection_types.cpp:61-123 | The comparing walk computes reflected equality, a failed assertion included. |
| `DeepCopy.Memory.EqualBodies` | mindseye/reflector/reflection_types.cpp:72-123 | The comparison by kind: an alias uses the comparison of its target directly when it has one. |
| `DeepCopy.Memory.EqualElements` | mindseye/reflector/reflection_types.cpp:293-322 | The element loop with its early exit and its index assertion computes elementwise equality from the front. |
| `DeepCopy.Memory.EqualMembers` | mindseye/reflector/reflection_types.cpp:100-119 | The member loop with its early exit compares exactly the visited members. |
| `DeepCopy.Memory.DeepCopy` | mindseye/reflector/reflection_types.cpp:324-390 | The copying walk leaves the specified value and heap. |
| `DeepCopy.Memory.CopyElements` | mindseye/reflector/reflection_types.cpp:250-263 | The element loop of a dynamic or constant array copy. |
| `DeepCopy.Memory.CopyMembers` | mindseye/reflector/reflection_types.cpp:375-390 | The member loop: visited members are copied deeply, the others stay the bitwise copy. |
| `DeepCopy.Memory.Destroy` | mindseye/reflector/reflection_types.cpp:125-183 | The destroying walk frees what the value owns, or stops at a block that is already gone. |
| `JsmnSpec.PassesAgree` | mindseye/external/cgltf.h:7035-7187 | For every byte string and every parser state: when the counting pass counts n tokens the filling pass with at least n tokens never runs out of them and, if it succeeds, fills exactly the counted number. |
| `JsmnSpec.GivenCount` | mindseye/external/cgltf.h:6593-6615 | A number of tokens given by the caller is enough, and gives the same tokens, if and only if it is no smaller than the counted one. |
| `JsmnSpec.ScanBounds` | mindseye/external/cgltf.h:6919-7033 | Scanning a string or primitive never leaves the input and always advances. |
| `Jsmn.ParsePrimitive` | mindseye/external/cgltf.h:6919-6966 | The primitive scanner stops at the specified place or fails with the specified error. |
| `Jsmn.ParseString` | mindseye/external/cgltf.h:6968-7033 | The string scanner, escapes and hex digits included, stops at the specified place or fails with the specified error. |
| `Jsmn.Parser.Count` | mindseye/external/cgltf.h:7035-7187 | The pass without a token array returns the specified count or error. |
| `Jsmn.Parser.Push` | mindseye/external/cgltf.h:6890-6917 | An opened container takes the next token, hangs under the open one and bumps its size. |
| `Jsmn.Parser.Close` | mindseye/external/cgltf.h:7070-7113 | A closing bracket closes the innermost open container of its kind and reopens its parent, or fails. |
| `Jsmn.Parser.Fill` | mindseye/external/cgltf.h:7035-7187 | The pass with a token array fills exactly the specified tokens and counts as many as it fills; on success every container is closed. |
| `Jsmn.TokenizeJson` | mindseye/external/cgltf.h:6593-6628 | Count unless the caller gives the number of tokens, allocate one more, fill, mark: success exactly when filling that many succeeds with a token; then the array holds the specified tokens, as many as counting finds, and an undefined sentinel. With a counted number it cannot run out of tokens. |
| `JsmnTree.TokenizeDocument` | mindseye/external/cgltf.h:7035-7187 | Tokenizing any rendered container with any white space fills the array with the pre-order flattening of the tree (positions, sizes, parents), and the count is the number of its tokens. |
| `JsmnTree.FlattenHung` | mindseye/external/cgltf.h:7035-7187 | In a flattening every parent index is smaller than its child's and every container is closed. |
| `JsmnLaws.StringExact` | mindseye/external/cgltf.h:6968-7033 | A string ends at a quote if and only if the characters before it are the contents of a string by RFC 8259 section 7 (control characters allowed). |
| `JsmnLaws.PrimitiveExact` | mindseye/external/cgltf.h:6919-6966 | A primitive ends at a place if and only if a delimiter stands there and only printable characters that are none stand before. |
| `JsmnLaws.FindOpenExact` | mindseye/external/cgltf.h:7075-7094 | A bracket closes the innermost open container around the last token when that is of its kind; it goes unnoticed if and only if no container is open there, the outermost token is of its kind and a next value would have an owner; otherwise it is an error. |
| `JsmnLaws.AcceptedMeaning` | mindseye/external/cgltf.h:7035-7187 | Of every accepted text, JSON or not: each token stands where the text has its quotes, its matching brackets or its delimiter, tokens are in the order of the text, no bracket closes two containers, sizes count children, and no primitive is a key or a second value of one. |
| `JsmnLaws.TruncationDetected` | mindseye/external/cgltf.h:7177-7184 | A text accepted as a container is never accepted when it is cut within that container: the error is that a part is missing. |
| `JsmnLaws.DocumentCutShort` | mindseye/external/cgltf.h:7035-7187 | So every rendered document is told from all texts that stop before its last bracket. |
| `JsmnLaws.StrayBracket` | mindseye/external/cgltf.h:7084-7089 | Concrete text: behind a colon a closing bracket of the same kind goes unnoticed. |
| `JsmnSkip.SkipJson` | mindseye/external/cgltf.h:2798-2826 | The iterative skipper computes the specified skip for every token array that ends in an undefined token. |
| `JsmnSkip.SkipValue` | mindseye/external/cgltf.h:2798-2826 | From the root of a flattened value the skipper lands one past it, whatever else is still owed. |
| `JsmnSkip.SkipAnySubtree` | mindseye/external/cgltf.h:2798-2826 | In the token array of a document, skipping from the root of any subtree lands exactly one past that subtree. |
| `CommandLine.CmdQuote` | tools/nob.h:974-1012 | The quoting loops append exactly the quoted argument line. |
| `CommandLine.QuoteOne` | tools/nob.h:977-1010 | One argument is appended plain or quoted. |
| `CommandLine.QuoteCharacters` | tools/nob.h:988-1004 | The character loop doubles backslashes before quotes and nothing else. |
| `CommandLine.Render` | tools/ninja_generate.h:81-89 | Rendering a list of arguments is quoting it into a fresh builder. |
| `CommandLine.Ninja.Escape` | tools/ninja_generate.h:284-294 | The escaping loop appends exactly the escaped text. |
| `CommandLine.Ninja.Variable` | tools/ninja_generate.h:316-320 | A variable line is its name and the escaped value. |
| `CommandLine.Ninja.Arguments` | tools/ninja_generate.h:322-328 | The response-file variable of a command is the escaped rendering of its arguments. |
| `CommandLine.UnescapeEscaped` | tools/ninja_generate.h:284-294 | Ninja reads an escaped value back as the text if and only if the text has no line break. |
| `CommandLine.SplitQuoted` | tools/nob.h:974-1012 | Splitting a quoted line by the Microsoft rules gives back the arguments, empty ones and trailing backslashes included, with or without the rule for doubled quotes. |
| `CommandLine.ResponseFileRoundTrip` | tools/ninja_generate.h:316-328 | Unescaping and then splitting gives back the argument list if and only if no argument contains a line break. |
| `CommandLine.LineBreakLost` | tools/ninja_generate.h:316-328 | A concrete argument with a line break, which Ninja cannot read back. |
| `CommandLine.PlainExact` | tools/nob.h:976-986 | An argument is put in quotes if and only if it is empty or has white space or a quote in it; every other stays as it is. |
| `CommandLine.EscapedExact` | tools/ninja_generate.h:284-294 | Escaping leaves a text alone if and only if it has no dollar and, in a path, no space and no colon. |
| `NodeTree.MeetingPoint` | mindseye/external/cgltf.h:1747-1759 | From every node the slow and the fast pointer meet within as many rounds as there are nodes. |
| `NodeTree.MeetingIsCycle` | mindseye/external/cgltf.h:1752-1755 | Meeting at a node means the parent chain never ends. |
| `NodeTree.CheckCycles` | mindseye/external/cgltf.h:1747-1759 | The check terminates and succeeds if and only if every parent chain reaches null. |
| `NodeTree.FixupParents` | mindseye/external/cgltf.h:6800-6812 | Fixup succeeds if and only if all child entries are in range and no node is listed twice; then a node's parent is exactly the node that lists it. |
| `NodeTree.EnterRow` | mindseye/external/cgltf.h:6802-6812 | Entering one node's children either extends the entered part or finds a bad entry. |
| `NodeTree.ApplyMul` | mindseye/external/cgltf.h:2189-2203 | Transforming by an affine product is transforming by its factors one after the other. |
| `NodeTree.ShortcutIsProduct` | mindseye/external/cgltf.h:2189-2207 | The three-column update with the added translation is the full 4x4 product for affine matrices. |
| `NodeTree.MulInPlace` | mindseye/external/cgltf.h:2189-2207 | One round of the loop multiplies in place. |
| `NodeTree.LocalAffine` | mindseye/external/cgltf.h:2132-2175 | A transform given by parts is always affine, one given by a matrix exactly when that matrix is. |
| `NodeTree.LocalMeans` | mindseye/external/cgltf.h:2132-2175 | A node given by translation, unit quaternion q and scale moves a point p by scaling it along the axes, then turning it into q p q^-1, then translating it. |
| `NodeTree.TransformWorld` | mindseye/external/cgltf.h:2177-2210 | On a chain of affine transforms that reaches null the loop ends and leaves the product of the local matrices from the node to the root. |
| `NodeTree.WorldMeaning` | mindseye/external/cgltf.h:2177-2210 | The world matrix moves every point as the local transforms up to the root do one after the other. |
| `Accessor.OffsetsAgree` | mindseye/external/cgltf.h:2284-2327 | The written-out component offsets of the three special cases and the general one are those of the alignment rule (columns start at multiples of four bytes). |
| `Accessor.OffsetFits` | mindseye/external/cgltf.h:6386-6398 | Every component lies within the element size. |
| `Accessor.SizeExact` | mindseye/external/cgltf.h:6386-6398 | An element takes up its columns, each rounded up to four bytes in a matrix, and nothing more. |
| `AccessorLayout.ColumnsAligned` | mindseye/external/cgltf.h:2284-2327 | Component r of column q of a matrix stands q columns and r components into the element; a column is as long as its components, rounded up to four bytes. |
| `AccessorLayout.ViewExact` | mindseye/external/cgltf.h:2330-2341 | A view's own data comes before the buffer's, and the offset counts for the buffer only; there are no data exactly when there is neither. |
| `AccessorLayout.BaseStands` | mindseye/external/cgltf.h:2399-2407 | Base element i is read i strides behind the accessor's offset in its view, component by component. |
| `AccessorLayout.SparseStands` | mindseye/external/cgltf.h:2385 | Sparse value k is read k strides of the accessor behind the offset of the values, component by component. |
| `AccessorLayout.IndexStands` | mindseye/external/cgltf.h:2364-2384 | Sparse index k is the one k index components behind the offset of the indices. |
| `Accessor.IntegerExact` | mindseye/external/cgltf.h:2212-2229 | An integer component is the one number in the range of its type that has these bytes, lowest first and negative ones in two's complement. |
| `Accessor.IndexExact` | mindseye/external/cgltf.h:2231-2244 | An index is the unsigned number with these bytes; components that are not unsigned give 0. |
| `Accessor.FloatExact` | mindseye/external/cgltf.h:2246-2251 | A float component keeps its 32 bits, whether it is called normalized or not. |
| `Accessor.NormalizedMeaning` | mindseye/external/cgltf.h:2253-2271 | A normalized component is its share of the largest number of its type, so that the largest gives 1 and zero 0; it lies within [-1, 1] if and only if it is not the lowest number of a signed type. Otherwise the number itself is given. |
| `Accessor.EndValues` | mindseye/external/cgltf.h:2253-2271 | Concrete bytes: 255 is 1 as normalized unsigned byte and -1 as signed byte; 0x80 as normalized signed byte lies below -1. |
| `Accessor.ReadElement` | mindseye/external/cgltf.h:2274-2328 | Fails exactly when the output is too small; otherwise writes exactly the converted components. |
| `Accessor.FindSparseIndex` | mindseye/external/cgltf.h:2355-2386 | The branchless search only reports an entry for the index and, on sorted indices, finds the first one exactly when there is one. |
| `Accessor.FirstIn` | mindseye/external/cgltf.h:2369-2385 | Where the bracket closes is the lower bound. |
| `Accessor.EntriesAgree` | mindseye/external/cgltf.h:2355-2484 | On sorted indices the first entry (single read) and the last entry (bulk read) for an index coincide for all indices if and only if the indices are strictly increasing. |
| `Accessor.RepeatedIndex` | mindseye/external/cgltf.h:2355-2484 | With an index given twice the single form takes the first entry and the bulk form the last. |
| `Accessor.AccessorReadFloat` | mindseye/external/cgltf.h:2388-2408 | One element into an output of any size: zeros over the whole output without entry and base, failure without data or for too small an output, otherwise the sparse value if there is one, else the base value. |
| `Accessor.UnpackFloats` | mindseye/external/cgltf.h:2410-2484 | The bulk form: null output asks for the size; 0 when base or sparse data is missing; otherwise the output is the base elements with every sparse entry at its place, and the only other outcome is a place beyond the memory of the output. |
| `Accessor.UnpackBase` | mindseye/external/cgltf.h:2423-2452 | The first pass, plain copy included, leaves the base elements. |
| `Accessor.UnpackSparse` | mindseye/external/cgltf.h:2454-2481 | The second pass writes every sparse entry to its place in the output, requested or not. |
| `Accessor.FlatFloats` | mindseye/external/cgltf.h:2437-2440 | For tightly packed floats the bytes one after the other are the elements one after the other. |
| `Accessor.BulkAgreesWithSingle` | mindseye/external/cgltf.h:2388-2484 | With strictly increasing sparse indices the results of the two calls agree for all elements if and only if base and sparse data can both be reached, or there is nothing the single form could read (no element, or no base and no entry for any element). |
| `Accessor.SparseUnreachable` | mindseye/external/cgltf.h:2388-2484 | Concrete input: no base and unreachable sparse data; the single read gives 0, the bulk form fails. |
| `Accessor.BaseUnreachable` | mindseye/external/cgltf.h:2388-2484 | Concrete input: an unreachable base and a sparse entry; the single read gives the entry, the bulk form fails. |
| `Accessor.UnpackedRows` | mindseye/external/cgltf.h:2423-2481 | Whatever is written elsewhere, the requested floats are the base rows with the last sparse entry for each of them. |
| `Accessor.WritesInside` | mindseye/external/cgltf.h:2471-2479 | Floats behind the requested elements stay as they are, whatever they hold, if and only if all sparse indices are below the number of requested elements. |
| `Accessor.WritesBeyondRequest` | mindseye/external/cgltf.h:2471-2479 | Concrete input: asked for one float the bulk form writes the second one too. |
| `Base64.Decode` | mindseye/external/cgltf.h:1320-1365 | Succeeds exactly when the needed characters are there and in the alphabet; takes exactly ceil(8 size / 6) of them; the bytes hold their leading bits. |
| `Base64.Refill` | mindseye/external/cgltf.h:1337-1357 | Taking in characters keeps given-out and pending bits together equal to the bits of the characters taken. |
| `Base64.TakeIn` | mindseye/external/cgltf.h:1354-1356 | The 32-bit buffer with wrap-around always holds the pending bits in its low bits. |
| `Base64.GiveOut` | mindseye/external/cgltf.h:1359-1360 | The top eight pending bits become the next byte. |
| `Base64.DataBitsInjective` | mindseye/external/cgltf.h:1320-1365 | Bytes are determined by their bits. |
| `Base64.AlphabetExact` | mindseye/external/cgltf.h:1340-1352 | A character stands for its place in the alphabet of RFC 4648 section 4, and every other one is refused. |
| `Base64.EncodeBits` | mindseye/external/cgltf.h:1320-1365 | The encoding of RFC 4648 section 4 has the needed characters and their bits start with those of the data. |
| `Base64.PaddingFollows` | mindseye/external/cgltf.h:1333-1361 | All characters after the needed ones are padding. |
| `Base64.EncodeThenDecode` | mindseye/external/cgltf.h:1320-1365 | Decoding inverts the encoding of every byte sequence and never reads padding. |
| `Treemap.NormalizeSizes` | mindseye/algo/me_treemap.h:46-52 | Positive sizes are scaled by one factor so that they fill the rectangle. |
| `Treemap.LayoutRow` | mindseye/algo/me_treemap.h:68-82 | The row loop leaves the specified rectangles. |
| `Treemap.LayoutColumn` | mindseye/algo/me_treemap.h:85-99 | The column loop leaves the specified rectangles. |
| `Treemap.Leftover` | mindseye/algo/me_treemap.h:111-141 | What remains beside a strip. |
| `Treemap.RestFills` | mindseye/algo/me_treemap.h:111-141 | The remaining sizes fill the remaining rectangle. |
| `Treemap.ComputeWorstRatio` | mindseye/algo/me_treemap.h:144-156 | The largest aspect ratio of the strip, or 10^9 beyond 32 items. |
| `Treemap.ChooseGroup` | mindseye/algo/me_treemap.h:181-187 | The group is the longest start along which the worst ratio does not grow. |
| `Treemap.GroupTooLong` | mindseye/algo/me_treemap.h:181-191 | A group exceeds the 32 rectangles it has room for if and only if there are more items, the ratio never grows up to 32, and 32 items have a ratio of at least 10^9; it then takes all remaining items. |
| `Treemap.RunTooLong` | mindseye/algo/me_treemap.h:159-202 | A whole run outgrows its room if and only if it reaches such a start. |
| `Treemap.LargeItemsFit` | mindseye/algo/me_treemap.h:144-202 | A condition on the input: when every size times 10^9 exceeds the square of the longer side, no group of the run outgrows its room. |
| `Treemap.CrumbsTooLong` | mindseye/algo/me_treemap.h:181-191 | Concrete input: 33 crumbs beside one large item make a group of 34. |
| `Treemap.FewItemsFit` | mindseye/algo/me_treemap.h:189-191 | With at most 32 items no group ever exceeds its room. |
| `Treemap.SquarifyImpl` | mindseye/algo/me_treemap.h:159-202 | The recursion places item i with its size, its user data and the i-th tile, in input order, and touches nothing else; it writes beyond its 32 rectangles exactly when some group is too long. |
| `Treemap.Squarify` | mindseye/algo/me_treemap.h:205-223 | The public entry, padded or not, for every input that fills the bounds. |
| `Treemap.TilesExact` | mindseye/algo/me_treemap.h:159-202 | Every point of the bounds lies in exactly one tile. |
| `Treemap.TilesOutside` | mindseye/algo/me_treemap.h:159-202 | No tile holds a point outside the bounds. |
| `Treemap.TileArea` | mindseye/algo/me_treemap.h:68-99 | Tile i has the area of item i. |
| `Treemap.PaddedInside` | mindseye/algo/me_treemap.h:55-65 | Padding keeps every rectangle within its tile. |
| `Treemap.PaddedCentre` | mindseye/algo/me_treemap.h:55-65 | Padding keeps the middle of a rectangle and takes two units off every side longer than that. |
| `Treemap.RatioMeaning` | mindseye/algo/me_treemap.h:151-152 | A ratio says how many times the shorter side of a rectangle goes into the longer one. |
| `Treemap.WorstExact` | mindseye/algo/me_treemap.h:144-156 | The worst ratio of at most 32 items is that of one of their rectangles and no smaller than any other. |
| `Treemap.GroupExact` | mindseye/algo/me_treemap.h:176-182 | A group takes one item more exactly as long as the worst ratio does not grow. |
| `Treemap.FirstStrip` | mindseye/algo/me_treemap.h:68-141 | The first group stands side by side, equally thick, along the whole shorter side of the bounds, and the other items are laid out beside it in the same way. |
| `ResourcePool.UnpackPack` | mindseye/core/me_core.h:16-24 | The three bit fields do not overlap: reading the number of a handle gives its fields back. |
| `ResourcePool.PackUnpack` | mindseye/core/me_core.h:16-24 | The fields leave no bit out: every 32-bit number is the number of its fields. |
| `ResourcePool.MakeEye` | mindseye/core/me_core.h:49-55 | Construction cuts values to their fields, and keeps them when they fit. |
| `ResourcePool.NewHandleResolves` | mindseye/core/me_resourcepool.h:151-161 | A handle just created resolves to its object if and only if the 16-bit generation of the slot it was given fits the 8-bit field, that is, is below 256. |
| `ResourcePool.WornOut` | mindseye/core/me_resourcepool.h:151-213 | After n rounds of creating and destroying a template the next handle resolves exactly when n is below 256. |
| `ResourcePool.Resources.Push` | mindseye/core/containers/me_blocklist.inl:14-56 | The first free slot, in a new block when there is none. |
| `ResourcePool.Resources.Create` | mindseye/core/me_resourcepool.h:151-161 | Creation fills that slot with a new object, keeps its generation and returns the handle. |
| `ResourcePool.Resources.Destroy` | mindseye/core/me_resourcepool.h:200-213 | Destruction bumps the generation and frees the slot; index 0 is left alone. |
| `ResourcePool.Resources.GetShared` | mindseye/core/me_resourcepool.h:237-244 | A handle resolves only in a used slot of its own generation. |
| `ResourcePool.RunKeepsGood` | mindseye/core/me_resourcepool.h:151-213 | Every allowed run keeps used slots and current handles in correspondence. |
| `ResourcePool.HandleSafety` | mindseye/core/me_resourcepool.h:151-244 | Over every run with fewer than 2^23 slots in which no slot is given out again after 256 destructions: current handles resolve to their own distinct objects, destroyed ones match nothing, index 0 is never issued and the bad data stays. |
| `AssetMachine.RequestMeaning` | mindseye/asset/me_asset.cpp:346-431 | A request enqueues at most one job: for the first unloaded asset all of whose predecessors are busy or loaded and have loaders. |
| `AssetMachine.RequestExact` | mindseye/asset/me_asset.cpp:346-431 | A request enqueues exactly the first id that is unloaded, has a loader and only has busy or loaded predecessors with loaders; if there is none it changes nothing. |
| `AssetMachine.SucceedMeaning` | mindseye/asset/me_asset.cpp:594-599 | A load that succeeds makes its asset loaded; the first wanted dependency is afterwards Loading and last in the queue, and if there is none the queue is as before. No other stage changes. |
| `AssetMachine.FirstInFirstOut` | mindseye/asset/me_asset.cpp:346-431 | Over every run jobs are taken up in the order in which they were enqueued; none is lost and none is made up. |
| `AssetMachine.CanCreateExact` | mindseye/asset/me_asset.cpp:534-537 | The lookup after a creation finds the new object, and does not stop the process at its assertion, if and only if the slot has been destroyed fewer than 256 times (and the pool has an index left). |
| `AssetMachine.StepKeepsInv` | mindseye/asset/me_asset.cpp:346-632 | Every step of the machine, the parent request of a job included, keeps stages, jobs, handles and pools consistent. |
| `AssetMachine.LoadMachine` | mindseye/asset/me_asset.cpp:346-619 | Over every run, up to the point where a failing assertion may stop the process: Loading or Compiling if and only if exactly one job is pending or running; Loaded entries have a live handle with their content; Unloaded ones have none. |
| `AssetMachine.HandleBijection` | mindseye/asset/me_asset.cpp:519-632 | Over every run handles held by entries are in bijection with current template handles, type by type. |
| `AssetMachine.UnloadWhileLoading` | mindseye/asset/me_asset.cpp:603-632 | Unloading by a current handle keeps the machine consistent if and only if the load is over. |
| `AssetMachine.UnloadedTooEarly` | mindseye/asset/me_asset.cpp:519-632 | Concrete run: requested, begun, compiling, unloaded by its current handle; its job goes on. |
| `AssetWorker.WorkerStops` | mindseye/asset/me_asset.cpp:561-601 | When every chain of parents ends (naming itself ends it) the worker left to itself takes at most a fixed number of steps, from every state, for every dependency graph, cyclic ones included, and however often pool slots are reused. |
| `AssetWorker.EndsSoon` | mindseye/core/me_serialize.cpp:182-205 | A chain of parents that ends does so within as many links as there are files naming a parent. |
| `AssetWorker.ParentRound` | mindseye/asset/me_asset.cpp:519-601 | If files can be read, a job whose parent is not loaded can only begin, create its resource, request the parent, wait in vain on the only worker and fail; the parent is queued, nothing else is going on, and the slot has been destroyed once more. |
| `AssetWorker.DrainsExactly` | mindseye/asset/me_asset.cpp:346-601 | From the start, after a request for any of the assets, the worker left to itself ends with nothing left to do after a bounded number of steps, whatever files can be read and whatever the dependencies are, if and only if every chain of parents ends within 255 links. |
| `AssetWorker.LongChainTraps` | mindseye/asset/me_asset.cpp:519-601 | After a first request for an asset whose chain of parents is endless or longer than 255 links, every run of the worker in which files can be read never gets to an end: each job fails for the lack of its parent, and the run stops after exactly 1025 steps, when the 257th job hits the assertion of the lookup. |
| `AssetWorker.LongestChain` | mindseye/asset/me_asset.cpp:519-601 | Concrete input: a chain of 255 links drains; a chain of 256 links, which ends as well, does not. |
| `AssetWorker.CyclicParents` | mindseye/asset/me_asset.cpp:561-601 | Concrete input: two assets of one type that name each other as parents fail in turn until the 257th job stops the process. |
| `AssetWorker.WorkerNotStuck` | mindseye/asset/me_asset.cpp:519-601 | The worker cannot go on if and only if nothing is queued or running, or the running job is about to create its resource in a slot that has been destroyed 256 times and stops at the assertion of the lookup (or no index is left). |
| `AssetWorker.DrainsUnlessTrapped` | mindseye/asset/me_asset.cpp:519-601 | From every state of the machine, when every chain of parents ends: the worker left to itself ends with nothing left to do after a bounded number of steps, whatever it does, if and only if none of its runs meets the failing assertion. |
| `AssetWorker.DrainedMeaning` | mindseye/asset/me_asset.cpp:561-601 | When the worker has stopped with nothing queued or running every asset is loaded or unloaded. |
| `AssetMachine.JobAllowed` | mindseye/asset/me_asset.cpp:519-601 | A job at the head of the queue can run to its end whichever way it goes. |
| `AssetMachine.JobLoadsDependency` | mindseye/asset/me_asset.cpp:561-601 | A whole job that works leaves its asset loaded and the first dependency wanted at its start Loading behind all other jobs, or the rest of the queue if there is none. |
| `AssetMachine.AssetSystem.RequestLoadTemplate` | mindseye/asset/me_asset.cpp:346-431 | The request loop computes the specified state and job. |
| `AssetMachine.AssetSystem.BeginCompile` | mindseye/asset/me_asset.cpp:519-535 | The entry becomes Compiling with a new template handle and its content. |
| `AssetMachine.AssetSystem.CompileJob` | mindseye/asset/me_asset.cpp:519-559 | Compiling creates the resource, asks for the parent and succeeds exactly when the file can be read, its parent is of the same type and was loaded before, and the type-specific part works. |
| `AssetMachine.AssetSystem.LoadParent` | mindseye/core/me_serialize.cpp:177-225 | The parent is requested, and is there exactly when it was loaded before. |
| `AssetMachine.AssetSystem.FailJob` | mindseye/asset/me_asset.cpp:581-593 | A failed load leaves the entry Unloaded and gives the handle back. |
| `AssetMachine.AssetSystem.FinishJob` | mindseye/asset/me_asset.cpp:594-600 | A successful load requests the dependencies and marks the asset Loaded. |
| `AssetMachine.AssetSystem.UnloadBlocking` | mindseye/asset/me_asset.cpp:603-632 | Unloading resets the registry entry and destroys the handle. |
| `AssetMachine.AssetSystem.CreateNewAsset` | mindseye/asset/me_asset.cpp:268-309 | A new asset gets a handle; a template is registered as loaded. |
| `AssetMachine.AssetSystem.RunJob` | mindseye/asset/me_asset.cpp:561-601 | A whole job, with a parent named in its file or not, is the specified sequence of steps. |
| `LSystem.PickRule` | mindseye/external/par_shapes.h:1150-1172 | The two loops compute the specified choice. |
| `LSystem.PickedIsChosen` | mindseye/external/par_shapes.h:1150-1172 | As long as the name has any weight the choice is the first of its rules whose cumulative share reaches the random number; it never falls through. |
| `LSystem.PickExample` | mindseye/external/par_shapes.h:1150-1172 | Concrete rules: of two rules of the name with weights 1 and 3 the first is taken for a quarter of the random numbers, whatever other rules there are. |
| `LSystem.ApplyTurtle` | mindseye/external/par_shapes.h:1190-1207 | Every point of a shape is scaled, turned and moved as the turtle says. |
| `LSystem.MovesPoints` | mindseye/external/par_shapes.h:1389-1429 | What each command does to where points are put: a translation moves along the turtle's own axis, a scaling scales the shape along that axis or as a whole, a rotation turns the scaled shape; the other parts of the turtle are kept. |
| `LSystem.TurnsRight` | mindseye/external/par_shapes.h:772-798 | Turning around an axis keeps the place along it and turns the next axis towards the one after it. |
| `LSystem.QuarterTurn` | mindseye/external/par_shapes.h:772-798 | A quarter turn takes the next axis onto the one after it. |
| `LSystem.TurnKeepsDot` | mindseye/external/par_shapes.h:772-798 | Turning keeps lengths and angles. |
| `LSystem.SceneRigid` | mindseye/external/par_shapes.h:1345-1433 | Whatever the program, every turtle that places a shape has axes of length one at right angles. |
| `LSystem.CallExample` | mindseye/external/par_shapes.h:1380-1388 | Concrete program: a called rule starts where its caller stands and its moves end with it; without a level for it the call is left out. |
| `LSystem.StepsBounded` | mindseye/external/par_shapes.h:1345-1433 | The steps of a rule from any command are bounded by its remaining commands times the bound of one level less. |
| `LSystem.RuleBounded` | mindseye/external/par_shapes.h:1345-1433 | A whole run takes at most a number of steps that depends only on the longest rule and the depth. |
| `LSystem.CallStep` | mindseye/external/par_shapes.h:1380-1388 | A call pushes a frame with its own copy of the turtle and one step less to do. |
| `LSystem.StayStep` | mindseye/external/par_shapes.h:1371-1430 | A shape or a move changes only its frame and does what the recursive meaning says. |
| `LSystem.ReturnStep` | mindseye/external/par_shapes.h:1357-1361 | A finished frame is dropped and its mesh, which no other frame uses, is freed. |
| `LSystem.Interpret` | mindseye/external/par_shapes.h:1345-1433 | The interpreter ends, stays within the stack, frees every mesh exactly once, and builds exactly the scene of the recursive meaning in exactly its number of steps. |
| `Arena.ArenaAllocator.Alloc` | mindseye/core/me_arena.cpp:92-110 | Out of memory changes nothing; otherwise the block starts at the old offset (with 64-bit wrap-around). |
| `Arena.ArenaAllocator.Resize` | mindseye/core/me_arena.cpp:112-139 | In place for the most recent block, moved and copied otherwise; a block out of range stops the process at an assertion, and copying to null or out of the memory is the one other outcome. |
| `Arena.ArenaAllocator.Clear` | mindseye/core/me_arena.cpp:141-148 | Both offsets return to zero. |
| `Arena.ArenaAllocator.TempEnd` | mindseye/core/me_arena.cpp:179-183 | Both offsets return to the mark. |
| `Arena.StepExact` | mindseye/core/me_arena.cpp:92-183 | An event leaves all live blocks, those of open marks included, in bounds, in order and disjoint if and only if it is allowed; what is allowed is stated in offsets and sizes a caller can check. |
| `Arena.AllocExact` | mindseye/core/me_arena.cpp:92-110 | An allocation is sound if and only if it is refused or the 64-bit addition did not wrap. |
| `Arena.ResizeInPlaceExact` | mindseye/core/me_arena.cpp:121-125 | Resizing the block at the most recent allocation returns if and only if the block is not an empty one at the offset; it is then sound if and only if the new end fits the backing memory, does not lie below the innermost mark, and every block allocated later is empty, none of which the code checks. |
| `Arena.ResizeByMovingExact` | mindseye/core/me_arena.cpp:126-131 | Resizing another block is sound if and only if there is room for the new one, or the block is empty and the allocation is refused. |
| `Arena.ResizeKeepsContent` | mindseye/core/me_arena.cpp:112-139 | A resize keeps the first min(old, new) bytes of the block and the list of the other blocks. |
| `Arena.EventKeepsContents` | mindseye/core/me_arena.cpp:92-183 | No event changes the contents of any live block. |
| `Arena.BlocksDisjoint` | mindseye/core/me_arena.cpp:92-183 | After every allowed run, with empty blocks too, any two live blocks are in bounds and disjoint. |
| `Arena.TempRestores` | mindseye/core/me_arena.cpp:171-183 | Whatever happens between a mark and its end, properly nested: offsets, live blocks and the memory below them are as before. |
| `Arena.EmptyBlockShares` | mindseye/core/me_arena.cpp:121-125 | Concrete run: resizing an empty block cuts off the block allocated after it at the same address. |
| `Arena.ShrinkBelowMark` | mindseye/core/me_arena.cpp:121-183 | Concrete run: a most recent block older than the mark is shrunk within the memory, its tail is handed out, and ending the mark makes it live again. |
| `Arena.GrowBeyondMemory` | mindseye/core/me_arena.cpp:121-125 | Concrete run: growing the most recent block in place leaves the memory. |
| `Arena.AllocWraps` | mindseye/core/me_arena.cpp:92-110 | Concrete run: an allocation whose end wraps around succeeds, and the next one is given memory in use. |
| `Arena.ClearUnderMark` | mindseye/core/me_arena.cpp:141-183 | Concrete run: the arena is cleared under an open mark, the memory of a block is handed out, and ending the mark makes that block live again. |
| `Arena.MoveWithoutRoom` | mindseye/core/me_arena.cpp:126-137 | Concrete run: a block that has to move when there is no room is copied to null. |
| `Arena.EmptyOutOfRange` | mindseye/core/me_arena.cpp:112-138 | Concrete run: resizing an empty block at the offset stops the process at the assertion that it is in range. |

## Left out

- `Chunker.Chunker.DoBinaryVoid`: does not model the assertion of Verify mode as an abort; a difference sets a flag, because later steps are then still defined.
- `BinaryWalk.Walk`: object memory is modelled as values, so pointers into it are not; the one pointer that matters, from a pass to the dependency list inside the object, is the value `Live`.
- `BinaryWalk.WalkDynArray`: arrays of 2^32 elements or more are refused, because the element count of the container is itself 32 bits wide.
- `BinaryWalk.WalkLeaf`: a view, and a type without a serializer, is refused by returning false; the code asserts before it does so (in text mode too).
- `TextWalk.Walk`: says that only a descriptor nested deeper than what is left of the stack can stop at the push, not exactly which values of such a descriptor do (an empty array of a deeper type does not).
- `TextFormat.DecodeEmit`: number formatting, conversions between number types, text encoding and JSON exceptions are left out; a number stands for the bytes of its primitive.
- `TextSerialize.SerializeChunkerPass`: values hold no pointers, so the object's own dependency list enters the walk with the items the walk will find there.
- `TextSerialize.SerializeBlocking`: the size of the printed text is left out.
- `DeepCopy.ArrayVerdict`: the 32-bit wrap-around of a byte offset, in arrays of 2^32 bytes and more, is left out.
- `DeepCopy.Memory.DeepCopy`: views (`StringView`) and asset references count as plain bytes, and members that reflection excludes are copied bitwise and own nothing here; an array's spare capacity is not modelled.
- `NodeTree.TransformWorld`: takes each node's local matrix (`NodeTree.Local`) over reals; rounding is left out.
- `Accessor.ReadElement`: 32-bit floats stay the bits of the file and integers become exact rationals, so rounding is left out.
- `Treemap.SquarifyImpl`: over reals, for positive sizes that fill the bounds; what a write beyond the 32 rectangles destroys is left out.
- `LSystem.Interpret`: starts from the parsed program; command names are constructors, sine, cosine and number parsing are parameters, rule weights are not negative and the random numbers are a given sequence between 0 and 1. Mesh merging and connecting are the list of placed shapes, so the assertion against connecting to an empty scene is left out.
- `ResourcePool.Resources.Push`: the linked blocks of 32 slots are one sequence; block headers and the unused `inUse` flag are left out.
- `AssetMachine.RunKeepsInv`: requests are single steps and there is one worker; callbacks, events, the write path, instance unload order and two assets drawing the same random id are left out.
- `AssetMachine.CompileKeepsInv`: whether a file can be read, which parent it names and the type-specific parts of a load are inputs from outside, files do not change during a run of the worker, and waiting for a parent takes no time; a file that holds another asset's id, on which the code asserts after reading, is left out; the early exit for an entry that is already loaded cannot occur and is left out.
- `AssetWorker.DrainsExactly`: asks for fewer than 2^23 assets, because handle indices of a pool wrap around there.
- `Jsmn.Parser.Fill`: token counts are unbounded integers, so the 32-bit overflow of a document with more than 2^31 tokens is left out.
- `CommandLine.Ninja.Variable`: reading edges and paths, where `|` is not escaped, is left out; argument lists hold no null entry.
- `Base64.Decode`: a failing allocation is left out.
- `Arena.ArenaAllocator.Resize`: addresses below the backing memory, the debug clearing of memory and what a copy out of the memory destroys are left out.
- `Accessor.UnpackFloats`: what a write beyond the memory of the output destroys, and what the output holds when data is missing, is left out.
- Dynamic arrays whose elements are dynamic arrays: their element descriptor lacks the inner type, so the code cannot walk them.
- Quaternion and vector descriptors have serializers of their own, which are modelled as constant arrays of floats; `DoMarker` and `DoPointerOffset` are not used by the walk.
- Uninitialised element storage after an overrun, threads and locks, operating system calls, logging, rendering and the editor.
- `par_shapes__weld_points`, point sorting, and the per-feature key parsers of cgltf.
