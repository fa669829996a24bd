# Wire-Cell toolkit point-cloud core, modelled in Dafny

This project models the **hierarchical point-cloud tree** of the Wire-Cell
toolkit and the smaller pieces of logic around it, and proves properties of
the model:

- **The N-ary tree** of `NaryTree.h` (module `NaryTree`). Nodes live in an
  arena, the class `Forest`, and each node is an index into it. The model
  covers:
  - inserting a child by value or by node;
  - `first`, `last`, `prev` and `next`;
  - the depth-first iterator: `increment`, `equal`, `dereference` and the
    end iterator.

  Ghost rank and root fields record that the parent links form no cycle
  and which root holds each node. The walk is proved to keep going past the
  subtree it starts in, and to visit every node of the tree exactly once
  when started at a root.
- **The typeless array** of `PointCloudArray.h` (module `PointCloudArray`).
  The model covers:
  - `assign` with and without sharing, `clear` and `assure_mutable`;
  - `elements`, `indexed`, `size_major` and `is_type`;
  - the 1-D constructors.

  A shared array views the caller's `array<Byte>`, so later writes by the
  caller show through `Bytes()`. The byte count is a `size_t` product that
  wraps modulo 2^64 (`NBytes`); `NBytesWraps` shows one shape where it wraps.
- **Scopes and the Points cache** of `PointTree.cxx` (module `PointTree`).
  The model covers:
  - `Scope` equality and its hash;
  - `in_scope`;
  - `scoped_pc`, which gathers a disjoint dataset along the walk, fails on a
    missing coordinate and caches the result;
  - `on_insert`, both as written and with the cache bound by reference;
  - `on_remove`.

  The disjoint dataset and the k-d index get just enough modelling for these
  operations (module `Disjoint`).
- **The channel-mask codec** of `TensorDMframe.cxx` (module `TensorDMframe`).
  The model covers:
  - `as_config` for channel masks and for mask maps;
  - `as_cmm`, with the round trip `as_cmm(as_config(m)) == m`;
  - the checks `as_frame` makes of trace tensor ranks and of trace data.

  The JSON values, their iteration order, `std::to_string` and `atoi` are in
  module `Json`.
- **`remove_blobs`** of `TestProjection2D.cxx` (module `TestProjection2D`),
  over a graph given as vertex and edge lists.
- **File lookup** of `Persist.cxx` (module `Persist`):
  - `file_extension`;
  - `resolve` and `Parser::resolve`, with the order of the parser's search
    list;
  - how `load`, `Parser::load`, `dump` and `slurp` pick what to read or
    write.

  The filesystem is a parameter: the working directory, an existence
  predicate and canonicalisation.
- **`TensorFanout`** (module `TensorFanout`): `configure`,
  `default_configuration`, `output_types` and the fan-out call.
- **`SimpleMeasure`** (module `SimpleMeasure`): `ident`, `signal` and
  `channels`.

Module `Wrappers` holds `Option`, `Result`, the 32-bit `Int32` and the
exception kinds the code raises, as `Error` values. Operations that throw
return `Result`s instead.

The following are parameters of the model:
- the filesystem and the `WIRECELL_PATH` entries, as an already split
  sequence;
- the Boost hash primitives, `Hasher`: the hash of a string and the `hash_combine` step;
- the local point clouds of each node.

Source paths below are relative to the repository root.

## Model

| member | source | states |
|---|---|---|
| NaryTree.End | util/inc/WireCellUtil/NaryTree.h:171-172 | the default iterator stands on no node and is `equal` to exactly the iterators that stand on none |
| NaryTree.Forest.Begin | util/inc/WireCellUtil/NaryTree.h:144 | `depth()` gives an iterator that is not the end and dereferences to the node's own payload |
| NaryTree.Forest.Dereference | util/inc/WireCellUtil/NaryTree.h:239-241 | the payload of the node the iterator stands on |
| NaryTree.Equal | util/inc/WireCellUtil/NaryTree.h:234-237 | two iterators are equal exactly when they stand on the same node, so the end iterator equals only the end |
| NaryTree.Forest.NewNode | util/inc/WireCellUtil/NaryTree.h:67-70 | a new parentless, childless node holding the value is added at the next index, and every other node is unchanged |
| NaryTree.Forest.InsertNode | util/inc/WireCellUtil/NaryTree.h:84-88 | the inserted parentless node becomes the last child of `p`: its parent is `p`, its sibling position is the old child count, and `Last(p)` is the node; every other field of every other node is unchanged and the tree invariant is kept |
| NaryTree.Forest.InsertNodeValid | util/inc/WireCellUtil/NaryTree.h:84-88 | grafting a parentless tree under a node outside it keeps every child, parent and root link consistent and ranks strictly decreasing |
| NaryTree.Forest.InsertValue | util/inc/WireCellUtil/NaryTree.h:73-81 | inserting a value adds exactly one new node, holding the value, as the last child of `p`; the earlier children of `p` keep their order and all other nodes are unchanged |
| NaryTree.Forest.First | util/inc/WireCellUtil/NaryTree.h:99-102 | null exactly when the node has no children; otherwise the front child, whose parent is the node and whose sibling position is 0 |
| NaryTree.Forest.Last | util/inc/WireCellUtil/NaryTree.h:104-107 | null exactly when the node has no children; otherwise the back child, whose parent is the node and whose sibling position is the last one |
| NaryTree.Forest.Prev | util/inc/WireCellUtil/NaryTree.h:110-121 | null exactly for a root or a first child; otherwise a node with the same parent one position earlier |
| NaryTree.Forest.Next | util/inc/WireCellUtil/NaryTree.h:123-134 | null exactly for a root or a last child; otherwise a node with the same parent one position later |
| NaryTree.Forest.PrevNext | util/inc/WireCellUtil/NaryTree.h:110-134 | `prev(next(n)) == n` whenever `next(n)` exists, and `next(prev(n)) == n` whenever `prev(n)` exists |
| NaryTree.Forest.Increment | util/inc/WireCellUtil/NaryTree.h:195-232 | incrementing the end leaves the end; otherwise the iterator moves to the first child, or else to the next sibling of the node or of its nearest ancestor that has one, or else to the end |
| NaryTree.Forest.Depth | util/src/PointTree.cxx:73-74 | the depth of a node is at least 1, and exactly 1 for a root |
| NaryTree.Forest.PathDepth | util/src/PointTree.cxx:73-74 | a parent chain from a root down to a node has as many entries as the node's depth, so `path.size()` is the inserted node's depth when `path` runs from its root |
| NaryTree.Forest.PreorderSucc | util/inc/WireCellUtil/NaryTree.h:195-232 | starting at `c`, `increment` steps through the preorder of the subtree of `c` (node before children, children left to right), and from its last node it goes where climbing out of `c` goes |
| NaryTree.Forest.PreorderInSubtree | util/inc/WireCellUtil/NaryTree.h:195-232 | every node the preorder of `c` lists lies in the subtree of `c` |
| NaryTree.Forest.PreorderMember | util/inc/WireCellUtil/NaryTree.h:195-232 | a node is in the preorder of `c` if and only if it lies in the subtree of `c` |
| NaryTree.Forest.PreorderDistinct | util/inc/WireCellUtil/NaryTree.h:195-232 | the preorder of a subtree lists no node twice |
| NaryTree.Forest.Walk | util/inc/WireCellUtil/NaryTree.h:144 | the nodes `depth()` started at a node visits: they start at that node, each is the `increment` of the one before, none repeats, and the last one increments to the end |
| NaryTree.Forest.WalkLeavesSubtree | util/inc/WireCellUtil/NaryTree.h:214-229 | a walk started at `c` first visits the subtree of `c` in preorder and only ends there when `c` has no later sibling and neither does any ancestor; otherwise it continues at that next sibling |
| NaryTree.Forest.WalkFromRoot | util/inc/WireCellUtil/NaryTree.h:195-232 | the walk from a root visits every node of its tree exactly once, and no other node, each step an `increment`, ending at the end iterator |
| PointCloudArray.NBytesExact | util/inc/WireCellUtil/PointCloudArray.h:120-123 | when the product does not overflow `size_t`, the byte count of `assign` is `sizeof(T)` times the product of the shape |
| PointCloudArray.NBytesWraps | util/inc/WireCellUtil/PointCloudArray.h:120-123 | the byte count is a `size_t` product: a 2^32 by 2^32 shape of one-byte elements gives 0 bytes, though it has 2^64 elements |
| PointCloudArray.NBytesOne | util/inc/WireCellUtil/PointCloudArray.h:87 | the byte count of a 1-D shape `{n}` is `n * sizeof(T)` |
| PointCloudArray.Chop | util/inc/WireCellUtil/PointCloudArray.h:208-210 | the reinterpreted span has as many elements as there are whole elements in the bytes |
| PointCloudArray.ChopAt | util/inc/WireCellUtil/PointCloudArray.h:208-210 | byte `k` of element `i` of the span is byte `i * size + k` of the buffer |
| PointCloudArray.Array.Empty | util/inc/WireCellUtil/PointCloudArray.h:91 | a default array has no shape, element size 0, no dtype, an empty store and no bytes |
| PointCloudArray.Array.constructor | util/inc/WireCellUtil/PointCloudArray.h:66-81 | the pointer and range constructors do what `assign` does |
| PointCloudArray.Array.FromRange | util/inc/WireCellUtil/PointCloudArray.h:84-88 | the 1-D range constructor (and the initializer-list one at lines 106-109) gives shape `{n}`, the element type's size and dtype, and an unshared store holding a copy of the `n` elements |
| PointCloudArray.Array.Clear | util/inc/WireCellUtil/PointCloudArray.h:147-154 | afterwards the shape is empty, the element size 0, the dtype empty, the store empty and there are no bytes |
| PointCloudArray.Array.Assign | util/inc/WireCellUtil/PointCloudArray.h:115-132 | dtype, shape and element size are set, and the array sees the first `NBytes` bytes of `elements`. With sharing it views the caller's buffer and the store stays empty; without sharing the store holds a copy and the view is the store |
| PointCloudArray.Array.AssureMutable | util/inc/WireCellUtil/PointCloudArray.h:159-165 | afterwards the array views its store, which holds exactly the bytes seen before. Bytes, shape, element size and dtype are unchanged, and an array that already viewed its store keeps it, so a second call changes nothing |
| PointCloudArray.Array.Elements | util/inc/WireCellUtil/PointCloudArray.h:203-221 | succeeds exactly when `sizeof(T)` is the element size (ValueError otherwise), with one element per whole element of the bytes |
| PointCloudArray.Array.Indexed | util/inc/WireCellUtil/PointCloudArray.h:174-197 | succeeds exactly when the element size matches and the rank equals the shape's length (ValueError otherwise); it is the flat elements with the array's shape |
| PointCloudArray.Array.SizeMajor | util/inc/WireCellUtil/PointCloudArray.h:278-282 | 0 for an empty shape; otherwise the first dimension, which times the size of one major slice (the product of the other dimensions) gives the element count |
| PointCloudArray.Array.IsType | util/inc/WireCellUtil/PointCloudArray.h:300-306 | false whenever the dtype is empty; otherwise true exactly when the type's dtype is the array's |
| PointCloudArray.Array.ElementCount | util/inc/WireCellUtil/PointCloudArray.h:115-132 | a valid array whose byte count did not wrap has one element per entry of its shape, `size_major()` major slices of them |
| PointTree.DefaultScope | util/test/doctest_pointtree.cxx:59 | a default scope wants no coordinates and has no depth limit, so a node is in it exactly when it has a cloud named `""`, at any depth |
| PointTree.Equals | util/src/PointTree.cxx:21-30 | `==` holds exactly when depth, name, coordinate count and each coordinate position agree (`SameScope`), and this is exactly equality of the scopes, coordinate order included |
| PointTree.NotEquals | util/src/PointTree.cxx:31-35 | `!=` is the negation of `==` |
| PointTree.Hash | util/src/PointTree.cxx:10-19 | the loop computes the hash from the name, the depth and the coordinates in order, each folded in with the 64-bit `hash_combine` step given as a parameter |
| PointTree.HashRespectsEquality | util/src/PointTree.cxx:10-30 | scopes that `operator==` calls equal hash alike, whatever the string hash and the combining step are |
| PointTree.InScopeCheck | util/src/PointTree.cxx:49-69 | false when the depth limit is positive and exceeded, false when the node has no cloud of the scope's name, false when that cloud lacks a coordinate, true otherwise |
| PointTree.CoordsCompleteIff | util/src/PointTree.cxx:122-127 | the intersection test of `scoped_pc` passes exactly when every wanted coordinate is an array of the cloud and no coordinate is wanted twice |
| PointTree.DuplicateCoordsRejected | util/src/PointTree.cxx:122-127 | a scope listing a coordinate twice is accepted by `in_scope` but fails the `scoped_pc` coordinate test on the same cloud |
| PointTree.CollectSpec | util/src/PointTree.cxx:113-133 | a first build appends the named cloud of each visited node in walk order and skips nodes without one; its point count is the sum of their sizes; at the first cloud lacking a coordinate it stops with the clouds appended before it |
| PointTree.TwoChildrenTwoDatasets | util/test/doctest_pointtree.cxx:114-117 | a root without clouds and two children with 3-d clouds give a dataset of exactly those two clouds |
| PointTree.InsertKeepsAgreement | util/src/PointTree.cxx:76-92 | insertion by reference keeps every k-d index covering exactly its scope's points, creates no scope, and grows each scope's point count by the node's points when the node is in scope (else not at all) |
| PointTree.InsertedAsWrittenDisagrees | util/src/PointTree.cxx:76-91 | as written, the cache and the k-d index part ways after one insertion: the cache stays at 0 points while the index covers 1 |
| PointTree.Points.OnConstruct | util/src/PointTree.cxx:42-45 | attaches the cache to the node and changes nothing else |
| PointTree.Points.Gather | util/src/PointTree.cxx:113-133 | the loop over the walk from the attached node, filtered by the depth limit, computes `Collect` |
| PointTree.Points.ScopedPc | util/src/PointTree.cxx:105-135 | a cached scope returns its entry and changes nothing; otherwise the built dataset is stored and returned, or IndexError is raised with the partial dataset left in the cache; the agreement of the caches is kept |
| PointTree.Points.OnInsertAsWritten | util/src/PointTree.cxx:71-95 | as written: returns true, the cached datasets are unchanged, and every cached, indexed scope the node is in has its k-d index given the node's point range |
| PointTree.Points.WrittenOne | util/src/PointTree.cxx:76-92 | one pass over a copy of the cache entry: only the k-d index of an in-scope scope changes, by the range from the old count to the old count plus the node's points |
| PointTree.Points.OnInsert | util/src/PointTree.cxx:71-95 | by reference: returns true, every cached scope the node is in gets the node's cloud appended and its k-d index the appended range, and agreement of the caches is kept |
| PointTree.Points.InsertAll | util/src/PointTree.cxx:76-92 | the loop over the cached scopes, in any order, ends in the state `InsertedDds` and `InsertedKds` describe |
| PointTree.Points.InsertOne | util/src/PointTree.cxx:77-91 | one pass for one scope: nothing happens outside the scope; inside, the cloud is appended and the index, if any, gets the range `[old count, new count)` |
| PointTree.Points.OnRemove | util/src/PointTree.cxx:97-102 | always raises ValueError |
| Disjoint.Append | util/src/PointTree.cxx:83-85 | `append` adds the dataset as the last segment and the point count grows by its size |
| Disjoint.Index | util/test/doctest_pointtree.cxx:125-126 | `index(i)` succeeds exactly for `i` below the point count (IndexError otherwise), and gives a segment and a position inside it whose offset plus position is `i` |
| Disjoint.IndexUnique | util/test/doctest_pointtree.cxx:125-126 | every (segment, position) pair inside its segment is what `index` returns for its global index |
| Disjoint.AppendStable | util/src/PointTree.cxx:83-85 | appending keeps every old global index where it was and puts the new points after them in the new segment |
| Disjoint.CoversAddPoints | util/src/PointTree.cxx:83-91 | a fresh index covers its points, and `addpoints(n, n + k)` on an index covering `n` points covers `n + k` |
| Disjoint.CoversOnlyContiguous | util/src/PointTree.cxx:83-91 | a range starting anywhere but the current point count leaves a gap or an overlap |
| TensorDMframe.AsConfigCms | aux/src/TensorDMframe.cxx:55-74 | an object with exactly one member per channel, keyed by its decimal string, holding the channel's ranges in their order as `[first, second]` arrays |
| TensorDMframe.EncodeChannel | aux/src/TensorDMframe.cxx:60-66 | the ranges as an array of two-element arrays, in order |
| TensorDMframe.AsConfigCmm | aux/src/TensorDMframe.cxx:76-84 | an object with exactly one member per tag, each the encoding of that tag's channel masks |
| TensorDMframe.DecodeCmm | aux/src/TensorDMframe.cxx:249-254 | null reads as the empty map |
| TensorDMframe.AsCmm | aux/src/TensorDMframe.cxx:249-278 | the triple loop computes `DecodeCmm`: tags and channels in jsoncpp's iteration order, keys through `atoi`, pairs through `asInt`, appended in array order |
| TensorDMframe.ReadChannels | aux/src/TensorDMframe.cxx:262-275 | the middle loop computes `DecodeCms` |
| TensorDMframe.ReadRanges | aux/src/TensorDMframe.cxx:271-274 | the inner loop computes `DecodeRanges` |
| TensorDMframe.RangesRoundTrip | aux/src/TensorDMframe.cxx:271-274 | reading encoded pairs appends exactly those ranges, in order |
| TensorDMframe.ChannelRoundTrip | aux/src/TensorDMframe.cxx:269-274 | one channel's encoding reads back as its ranges |
| TensorDMframe.ChannelsRoundTrip | aux/src/TensorDMframe.cxx:262-275 | reading the members of a channel-mask encoding writes each channel's ranges under its id |
| TensorDMframe.TagsRoundTrip | aux/src/TensorDMframe.cxx:256-276 | reading the members of a mask-map encoding writes each tag's channel masks under the tag |
| TensorDMframe.CmsRoundTrip | aux/src/TensorDMframe.cxx:256-277 | `as_cmm` reads one tag's encoding back as exactly the channel masks written |
| TensorDMframe.CmmRoundTrip | aux/src/TensorDMframe.cxx:249-278 | `as_cmm(as_config(m)) == m` for every channel-mask map |
| TensorDMframe.WriteThenRead | aux/src/TensorDMframe.cxx:76-84 | writing a mask map with `as_config` and reading it with `as_cmm` gives the map back |
| TensorDMframe.WriteFrameMasks | aux/src/TensorDMframe.cxx:151 | frame metadata gets the mask encoding under `"masks"`, and no other member changes |
| TensorDMframe.MasksLostAsWritten | aux/src/TensorDMframe.cxx:347 | as written, `as_frame` reads `"cmm"`, so a frame whose non-empty masks were written under `"masks"` comes back with no masks |
| TensorDMframe.FrameMasksRoundTrip | aux/src/TensorDMframe.cxx:347 | reading `"masks"` instead gives back exactly the masks written |
| TensorDMframe.ReadFrameMasks | aux/src/TensorDMframe.cxx:343-347 | the corrected read of the frame's masks computes `FrameMasks` |
| TensorDMframe.TracesFail | aux/src/TensorDMframe.cxx:326-331 | forming traces fails exactly when some trace tensor has rank other than 1 or 2, with ValueError |
| TensorDMframe.TracesShape | aux/src/TensorDMframe.cxx:332-339 | on success a rank-1 tensor gives one trace and a rank-2 tensor one per row, so the trace count is their sum and each trace names a tensor and one of its rows |
| TensorDMframe.FormTraces | aux/src/TensorDMframe.cxx:321-340 | the loop over trace tensors computes `Traces` |
| TensorDMframe.TaglessChids | aux/src/TensorDMframe.cxx:361-376 | tagless trace data sets every trace's channel in order, and is a ValueError exactly when its chid count differs from the trace count |
| TensorDMframe.RetaggedSpec | aux/src/TensorDMframe.cxx:391-399 | after tagged trace data each trace has the channel of the last entry naming it, or its earlier channel when none does |
| TensorDMframe.RetaggedAt | aux/src/TensorDMframe.cxx:391-399 | one trace after tagged trace data: the channel of the last entry naming it, or the earlier one |
| TensorDMframe.TaggedChids | aux/src/TensorDMframe.cxx:379-400 | tagged trace data is a ValueError exactly when it has no index, or has a chid array of another length than the index; without chids the channels are unchanged |
| TensorDMframe.TaggedLengthMismatch | aux/src/TensorDMframe.cxx:394-396 | one trace, index `[5]` and chid `[1,2]`: a ValueError from the length check, although index 5 names no trace |
| TensorDMframe.AssignChids | aux/src/TensorDMframe.cxx:397-399 | the loop computes `Retagged` |
| Json.MembersOf | aux/src/TensorDMframe.cxx:256-262 | walking a value visits what `Members` lists: an object's members in key order, an array's elements in order, nothing for a scalar |
| Json.ObjectMembers | aux/src/TensorDMframe.cxx:256 | taking the least remaining key each time lists an object's members in key order |
| Json.MembersOfObject | aux/src/TensorDMframe.cxx:256 | iterating an object visits each member once, with its value, in strictly increasing key order |
| Json.ObjPairsOrdered | aux/src/TensorDMframe.cxx:256 | the listed keys are strictly increasing |
| Json.At | aux/src/TensorDMframe.cxx:272-273 | indexing null or an array succeeds (null past the end), any other value is a LogicError |
| Json.Get | aux/src/TensorDMframe.cxx:347 | a member lookup on null or an object succeeds (null when missing), any other value is a LogicError |
| Json.AsInt | aux/src/TensorDMframe.cxx:272-273 | `asInt` of an in-range integer is that integer, of null 0, of a string, array or object a LogicError |
| Json.AtoiDecimal | aux/src/TensorDMframe.cxx:268 | `atoi` reads back every `int` that `std::to_string` writes |
| Json.DecimalInjective | aux/src/TensorDMframe.cxx:70 | distinct channel ids have distinct decimal keys |
| Json.AtoiStopsAtNonDigit | aux/src/TensorDMframe.cxx:268 | `atoi("12abc")` is 12 |
| Json.AtoiSkipsSpace | aux/src/TensorDMframe.cxx:268 | `atoi(" \t-7")` is -7 |
| Json.AtoiNoDigits | aux/src/TensorDMframe.cxx:268 | `atoi("x1")` is 0 |
| TestProjection2D.KeptIdxSpec | img/src/TestProjection2D.cxx:83-95 | the copied vertices come in increasing input order and are exactly the ones kept |
| TestProjection2D.KeptVertices | img/src/TestProjection2D.cxx:85-94 | every non-blob is copied; a blob is copied exactly when it is not in the set (removal mode) or when it is in the set (keep mode) |
| TestProjection2D.KeptCount | img/src/TestProjection2D.cxx:81-95 | the output has one vertex per non-blob plus one per copied blob (the `nblobs` count) |
| TestProjection2D.KeptEdgesSpec | img/src/TestProjection2D.cxx:100-113 | an input edge is copied exactly when both ends were copied, renumbered through `old2new`, in input order, and no other edge appears |
| TestProjection2D.RemoveBlobs | img/src/TestProjection2D.cxx:77-116 | the output's vertices are the kept input vertices in order, with `old2new` mapping each kept vertex, and only those, to its new index; its edges are `KeptEdges` of the input edges; the input is a value, so it is not modified |
| TestProjection2D.CopyVertices | img/src/TestProjection2D.cxx:83-95 | the vertex loop copies the kept vertices in order and records their new indices |
| TestProjection2D.CopyEdges | img/src/TestProjection2D.cxx:100-113 | the edge loop computes `KeptEdges` |
| Persist.LastDot | util/src/Persist.cxx:30 | `rfind(".")`: none exactly when there is no dot; otherwise a dot with no dot after it |
| Persist.FileExtension | util/src/Persist.cxx:28-35 | `""` exactly when the name has no dot; otherwise the suffix from the last dot on, dot included, wherever that dot is |
| Persist.FirstHitNone | util/src/Persist.cxx:108-114 | the search gives `""` when no directory holds the name |
| Persist.FirstHitAt | util/src/Persist.cxx:108-114 | the search gives the canonical path through the earliest directory that holds the name |
| Persist.Resolved | util/src/Persist.cxx:93-100 | `""` resolves to `""`, and a name starting with `/` to itself, without a look at the filesystem |
| Persist.Search | util/src/Persist.cxx:108-114 | the first-hit loop computes `FirstHit` |
| Persist.Resolve | util/src/Persist.cxx:93-115 | `resolve` searches the working directory and then every `WIRECELL_PATH` entry, in order |
| Persist.LoadPlan | util/src/Persist.cxx:117-144 | `load` is an IOError exactly when the name does not resolve; otherwise it reads the resolved path, evaluating `.jsonnet`, decompressing `.bz2` and parsing anything else as JSON |
| Persist.DumpCompresses | util/src/Persist.cxx:37-47 | `dump` compresses exactly when the name ends in `.bz2` |
| Persist.BzSuffix | util/src/Persist.cxx:39-44 | the extension is `.bz2` exactly when the name ends in `.bz2` |
| Persist.SlurpSourceAsWritten | util/src/Persist.cxx:65-76 | as written, `slurp` is an IOError exactly when the name does not resolve, and otherwise opens the name as given |
| Persist.SlurpSource | util/src/Persist.cxx:65-71 | `slurp` as intended: an IOError exactly when the name does not resolve, otherwise it reads the resolved path |
| Persist.SlurpOpensUnresolved | util/src/Persist.cxx:67-72 | with `a.txt` only in a search directory, `slurp` as written opens `a.txt` in the working directory, where it does not exist |
| Persist.Parser.Make | util/src/Persist.cxx:212-231 | constructing a parser fails with the filesystem error of `canonical` (an IOError) exactly when some search directory does not exist; otherwise the parser has the constructor's search list and jsonnet directories |
| Persist.Parser.constructor | util/src/Persist.cxx:212-231 | when every search directory exists, the search list is the working directory, then the given load paths, then the `WIRECELL_PATH` entries; the jsonnet VM gets their canonical forms in reverse order |
| Persist.Parser.Resolve | util/src/Persist.cxx:257-273 | `Parser::resolve` applies the first-hit rule over the parser's search list |
| Persist.Parser.LoadPlan | util/src/Persist.cxx:275-302 | `Parser::load` is an IOError exactly when the name does not resolve; it evaluates jsonnet exactly for extension `.jsonnet` or none, and decompresses for `.bz2` |
| Persist.NoExtensionDiffers | util/src/Persist.cxx:283 | a name without an extension is parsed as JSON by `Persist::load` but evaluated as jsonnet by `Parser::load` |
| TensorFanout.CInt | aux/src/TensorFanout.cxx:21 | the `(int)` cast of a `size_t`: the value itself below 2^31, and always congruent to it modulo 2^32 |
| TensorFanout.Configured | aux/src/TensorFanout.cxx:24-31 | a positive `int` under `"multiplicity"` is taken, zero or less is a ValueError, and an integer beyond `int` is the LogicError of `asInt`; a missing key or null configuration falls back to `(int)` of the current value, kept when positive and a ValueError otherwise; every accepted value is a positive `int` |
| TensorFanout.Fanout.constructor | aux/src/TensorFanout.cxx:10-14 | the node starts with the given multiplicity |
| TensorFanout.Fanout.DefaultConfiguration | aux/src/TensorFanout.cxx:17-23 | an object whose only member, `"multiplicity"`, is the current multiplicity cast to `int` |
| TensorFanout.Fanout.Configure | aux/src/TensorFanout.cxx:24-31 | stores the configured multiplicity, or reports the error and leaves the node unchanged |
| TensorFanout.Fanout.OutputTypes | aux/src/TensorFanout.cxx:33-38 | exactly `multiplicity` entries, all the output type's name |
| TensorFanout.Fanout.Apply | aux/src/TensorFanout.cxx:40-57 | the output has `multiplicity` slots, each holding the input (so an end-of-stream input gives only end-of-stream outputs), and the call returns true |
| TensorFanout.Resize | aux/src/TensorFanout.cxx:42 | `resize(n)` keeps the first `n` entries and fills new slots with null |
| TensorFanout.DefaultConfigurationRoundTrip | aux/src/TensorFanout.cxx:17-31 | configuring with the default configuration keeps a positive `int` multiplicity and rejects 0, the constructor's default |
| SimpleMeasure.Measure.constructor | iface/inc/WireCellIface/SimpleMeasure.h:10-12 | the measure holds the given ident, signal and channels |
| SimpleMeasure.Measure.Signal | iface/inc/WireCellIface/SimpleMeasure.h:22 | the stored signal, unchanged |
| SimpleMeasure.Measure.Channels | iface/inc/WireCellIface/SimpleMeasure.h:23 | the stored channels, unchanged |
| SimpleMeasure.Measure.Ident | iface/inc/WireCellIface/SimpleMeasure.h:27-38 | as written: `id` when it is in `[0, 0x7fffffff)`; otherwise the ident of the last channel whose ident is below `id`, or `0x7fffffff` when none is (so with no channels) |
| SimpleMeasure.LastBelowSpec | iface/inc/WireCellIface/SimpleMeasure.h:30-37 | the loop's result is `0x7fffffff` when no channel is below `id`, and otherwise the ident of a channel below `id` with none below `id` after it |
| SimpleMeasure.Measure.SmallestIdent | iface/inc/WireCellIface/SimpleMeasure.h:25-26 | as the comment describes: `id` when reasonable, otherwise the smallest channel ident (or `0x7fffffff`) |
| SimpleMeasure.SmallestSpec | iface/inc/WireCellIface/SimpleMeasure.h:25-26 | the smallest ident is at most `0x7fffffff` and every channel ident, and is one of them or `0x7fffffff` |
| SimpleMeasure.IdentIgnoresChannels | iface/inc/WireCellIface/SimpleMeasure.h:33 | with `id == -1` and one channel of ident 5, `ident()` as written gives `0x7fffffff` where the smallest channel ident is 5 |
| SimpleMeasure.IdentKeepsLast | iface/inc/WireCellIface/SimpleMeasure.h:31-36 | with `id == 0x7fffffff` and channels 3 then 7, `ident()` as written gives 7 where the smallest is 3 |

## Left out

- Walking a node's children by iterator, the `children()` accessors, and the `const` iterator `depth_const_iter`. These are left out because the const iterator behaves exactly like `depth_iter`. The debug output of `increment` is also left out.
- Argument-taking `depth(limit)` and `child_values()`: the header declares neither. The depth-limited walk `scoped_pc` uses is instead modelled as the plain walk filtered by depth. The limit semantics come from `in_scope`: 0 means no limit, and otherwise nodes deeper than the limit are excluded. Depth is counted from the tree root (`Forest.Depth`), not from the node the `Points` cache is attached to. The two agree when the cache is attached to a root, as in util/test/doctest_pointtree.cxx.
- These Array members of PointCloudArray.h: `append`, `zeros_like`, `num_elements`, the copy constructor and copy assignment, `element()`, `metadata()`, and the `Dtype.h` strings. The header only declares some of them; the rest touch nothing modelled.
- The iterator `assign(beg, end, shape, share)` (PointCloudArray.h:141-144). It calls a four-argument `assign` that does not exist, so it cannot be instantiated.
- The numeric value of an element. `elements` gives the right bytes for each element (`Chop`), but they are not reinterpreted as numbers.
- PointCloudArray.Array.Assign and the pointer/range constructor PointCloudArray.Array.constructor: require the caller's buffer to hold the computed number of bytes. The C++ reads past the end otherwise.
- The internals of the k-d tree (floating-point queries) and `scoped_kd`, which is not in PointTree.cxx. An index is modelled only by the point ranges it has been given.
- Dataset and DisjointDataset internals. Dataset headers are not part of this model: a dataset is its array names and its size, and a disjoint dataset is its list of segments.
- PointTree.Points.OnInsertAsWritten and OnInsert: take any non-empty `path` and use `path.size()` as the depth, as the source does. Nothing requires `path` to be the node's parent chain from its root: the code that builds the path is not part of this model. `Forest.PathDepth` proves that such a chain's length is the node's depth.
- PointTree.Hash: Boost's string hash and its `hash_combine` step are parameters (the `Hasher`), because the mixing step of `hash_combine` differs between Boost releases. Only the order in which the fields are folded in is modelled, along with the fact that the depth hashes to itself.
- TensorDMframe: `as_tensors`, `as_trace_tensor` and the float sample values of traces, including the `transform`, `reintraceenate` dtype checks and `tbin` are left out, because they involve floating point and frame interfaces this model does not have.
- The trace data pipeline is modelled only as channel idents. Summaries, `tag_traces`, `tag_frame` and the frame ident, time and tick are not modelled.
- TensorDMframe.TaggedChids: when a chid array is present and its length matches the index, requires every index entry to name an existing trace. Only after that length check does the source index the trace list, and it does so unchecked, which is undefined behaviour for a bad index. Without a chid array, any index is accepted, as in the source.
- NaryTree.Forest.InsertNode: requires `p` to lie outside the tree of `n`. The source does not reject inserting a node under its own subtree: `n->first()->insert(std::move(n))` compiles, and it makes an ownership cycle that `increment` never leaves. Every call in the source inserts a fresh node (NaryTree.h:73-81).
- TensorDMframe.AssignChids: requires every index entry to name an existing trace, for the same reason.
- The jsoncpp library: floating-point JSON values and `asInt` of doubles and unsigned values are not modelled. An integer out of `int` range is a LogicError in the model.
- Json.Atoi: an out-of-range value is returned as `Undefined`, because the C library leaves it undefined.
- Persist: the jsonnet VM, bz2 streams, file contents, `dumps`, `loads`, `exists` and the extvar/extcode arguments are left out. Only which file is read or written, and how, is modelled. `String::split` of `WIRECELL_PATH` is assumed done: the entries are a parameter.
- Persist's `init_parser` assigns the VM to its by-value pointer argument, so the caller's pointer stays uninitialised. This is not modelled, since the VM is not.
- TestProjection2D: `operator()`, timing, logging and the geometry helpers it calls are left out. Vertex properties are carried as an opaque payload.
- `SimpleMeasure`'s signal is a type parameter: the `value_t` of floats is not modelled.
- TensorFanout: the logger and the `typeid` name are left out; the type name is a parameter of `OutputTypes`.
- Configuration.h's `get<int>` is modelled directly on the JSON value.

## Findings

| source | as written | input that shows it | evidently intended | confidence | as-written member | corrected member |
|---|---|---|---|---|---|---|
| util/src/PointTree.cxx:76-84 | `for (auto [scope,dds] : m_dds)` binds a copy, so `dds.append(ds)` is lost while `addpoints(beg, end)` reaches the cached k-d index | one cached scope with 0 points and a k-d index over them; insert a node with a 1-point cloud in scope: the cache stays at 0 points, the index covers `[0, 1)` | bind by reference (`auto& [scope,dds]`) so the cache grows with the index | not executed | PointTree.InsertedAsWrittenDisagrees | PointTree.InsertKeepsAgreement |
| aux/src/TensorDMframe.cxx:347 | `as_frame` reads the masks from `fmd["cmm"]`, but `as_tensors` writes them under `"masks"` (line 151) | any frame with a non-empty channel-mask map: read back, its masks are empty | read `fmd["masks"]` | not executed | TensorDMframe.MasksLostAsWritten | TensorDMframe.FrameMasksRoundTrip |
| iface/inc/WireCellIface/SimpleMeasure.h:33 | each channel ident is compared with `id`, not with the running minimum `ret`, though the comment says the smallest channel ident is used | `id = 0x7fffffff`, channels with idents 3 then 7: the result is 7; `id = -1`, one channel 5: the result is `0x7fffffff` | compare `chid < ret` | not executed | SimpleMeasure.IdentKeepsLast | SimpleMeasure.Measure.SmallestIdent |
| util/src/Persist.cxx:72 | `slurp` checks the resolved name `fname` but opens `filename` as given | `a.txt` present only in a `WIRECELL_PATH` directory `/p`, working directory `/w`: `resolve` finds `/p/a.txt`, but `/w/a.txt` is opened | open `fname` | not executed | Persist.SlurpOpensUnresolved | Persist.SlurpSource |
