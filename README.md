# tlfs in Dafny

tlfs is a local-first document store. A document is a tree of CRDTs kept as a
set of byte-encoded paths: a path names a value together with the peer and
the nonce (together, the dot) that wrote it. Replicas exchange `Causal`
deltas, each made of the paths it adds and the paths it expires (its
tombstones), and join them into their local state. Every write is checked
against the document's schema and its access-control policy, and a
document's schema evolves through a list of lenses. This project models that
core as executable Dafny and proves what each piece promises.

One file per source file, one module per file:

| file | module | models |
|---|---|---|
| `wrappers.dfy`, `bytes.dfy` | `Wrappers`, `Bytes` | `Option`/`Result`; little- and big-endian byte codecs |
| `dot.dfy`, `vclock.dfy`, `dotset.dfy` | `Dots`, `VClocks`, `DotSets` | dots and version vectors (`src/dot.rs`, `src/clock.rs`) and per-peer dot sets (`crdt/src/dotset.rs`) |
| `cloudclock.dfy` | `CloudClocks` | the compacting causal context of `crdt/src/clock.rs` |
| `stores.dfy` | `Stores` | dot stores (`DotSet`, `DotFun`, `DotMap`) and their causal join (`crdt/src/store.rs`, `src/store.rs`) |
| `path.dfy` | `Paths` | the segment encoding of paths (`crdt/src/path.rs`) |
| `crdt.dfy` | `PathCrdt` | the path-level `Causal` and `Crdt` of `crdt/src/crdt.rs` |
| `crdts.dfy`, `orarray.dfy` | `TypedCrdts`, `ORArrays` | the typed CRDTs (flag, register, map, array) of `crdt/src/crdts.rs` |
| `fraction.dfy`, `posid.dfy` | `Fractions`, `Positions` | dense array positions (`crdt/src/fraction.rs`, `crdt/src/pos_identifier.rs`) |
| `schema.dfy`, `lens.dfy`, `lenslists.dfy` | `Schemas`, `Lenses`, `LensLists` | schema validation and lenses (`crdt/src/schema.rs`, `crdt/src/lens.rs`) |
| `doccursor.dfy`, `arraycursor.dfy` | `DocCursor`, `ArrayCursors` | the document cursor and the array cursor (`crdt/src/cursor.rs`) |
| `docacl.dfy` | `DocAcl` | the document ACL engine (`crdt/src/acl.rs`) |
| `datalog.dfy`, `aclengine.dfy`, `aclscenarios.dfy` | `AclRules`, `AclEngine`, `AclEngineTests` | the Datalog rules of the ACL crate (`acl/src/engine.rs`) and its tests |
| `acllabel.dfy`, `acldata.dfy`, `aclschema.dfy`, `aclcursor.dfy` | `AclLabels`, `AclData`, `AclSchema`, `AclCursor` | the ACL crate's labels, data, schema and cursor |
| `cambriacrdt.dfy`, `cambriaschema.dfy`, `cambrialens.dfy`, `cambrialayout.dfy` | `CambriaCrdt`, `CambriaSchema`, `CambriaLenses`, `CambriaLayout` | the cambria crate |
| `jsonpointer.dfy` | `JsonPointers` | `JsonPointer` of `wasm-ffi/src/api.rs` (section 4 of RFC 6901) |
| `radixdb.dfy` | `RadixDb` | `MemStorage` and `Batch` of `crdt/src/radixdb.rs` |
| `secrets.dfy` | `SecretStore` | secret metadata and the nonce counter of `src/secrets.rs` |
| `tlfsc.dfy`, `tlfscexample.dfy` | `SchemaCompiler`, `SchemaCompilerExample` | the schema compiler of `tlfsc/src/lib.rs` and its todo-app test |

Conventions used throughout:

- Sled trees and radix trees are finite sets and maps.
- A set of counters per peer (`RangeSet2`) is a `set<nat>`.
- The blake3 hash of a path (`Path::dot`) is an injective wrapper around the path's bytes.
- Iteration over a hash map or hash set, whose order Rust leaves open, takes the order as a parameter.
- A panic, `unwrap` or `expect` on the way is an `Err` with the source's message where it has one.
- Randomness (nonces) and signature checks are parameters.
- Where the source is wrong, the model keeps the code as written next to the corrected code (see "## Findings"). The corrected code is what the rest of the model builds on.

Classes model the objects the source mutates in place:

- the clocks and dot stores, with their join loops;
- the path buffer and the observed-remove array;
- `Causal` and `Crdt`;
- the ACL engines;
- `MemStorage` and `Secrets`;
- the schema compiler's `SchemaBuilder` and `Interpreter`.

Their methods are proved against functions on values, and the properties are
proved about those functions.

## Model

| member | source | states |
|---|---|---|
| `Bytes.ToBe` | crdt/src/path.rs:338-357 | `to_be_bytes` of a value that fits writes exactly `w` bytes |
| `Bytes.FromBe` | crdt/src/path.rs:52-83 | `from_be_bytes` of `w` bytes is a value below 256^w |
| `Bytes.ToLe` | cambria/src/layout.rs:33-36 | `to_le_bytes` of a value that fits writes exactly `w` bytes |
| `Bytes.FromLe` | cambria/src/layout.rs:27-30 | `from_le_bytes` of `w` bytes is a value below 256^w |
| `Bytes.FromBeToBe` | crdt/src/path.rs:297-300 | reading back the big-endian bytes of a value gives the value |
| `Bytes.ToBeFromBe` | crdt/src/path.rs:52-83 | writing back the value read from big-endian bytes gives the bytes |
| `Bytes.FromLeToLe` | cambria/src/layout.rs:27-36 | reading back the little-endian bytes of a value gives the value |
| `Bytes.ToLeFromLe` | cambria/src/layout.rs:27-36 | writing back the value read from little-endian bytes gives the bytes |
| `Bytes.Signed` | crdt/src/path.rs:131-152 | the two's-complement reading of a `w`-byte pattern lies in the signed range and leaves non-negative values alone |
| `Bytes.Unsigned` | crdt/src/path.rs:354-357 | the bit pattern of a signed value fits `w` bytes |
| `Bytes.SignedUnsigned` | crdt/src/path.rs:354-357 | reading the bit pattern of a signed value gives the value back, so `i64` segments round-trip |
| `Dots.New` | src/dot.rs:14-19 | a new dot has the given actor and counter |
| `Dots.FromPair` | src/dot.rs:86-90 | the dot built from a pair has the pair's actor and counter |
| `Dots.Inc` | src/dot.rs:21-29 | the successor keeps the actor and adds one to the counter |
| `Dots.CmpEqualIffEq` | src/dot.rs:42-72 | for a total order on actors, two dots compare equal exactly when they are equal |
| `Dots.CmpAntisymmetric` | src/dot.rs:63-72 | comparing the other way round reverses the ordering |
| `Dots.CmpTransitive` | src/dot.rs:63-72 | the order on dots is transitive |
| `Dots.IncIsGreater` | src/dot.rs:21-29 | a dot is less than its successor |
| `Paths.TypeOfTag` | crdt/src/path.rs:33-50 | a tag byte names a segment type exactly when it is below 11, and the type found carries that tag |
| `Paths.TagRoundTrip` | crdt/src/path.rs:19-50 | every segment type is recovered from its own `repr(u8)` tag |
| `Paths.LastElement` | crdt/src/path.rs:52-83 | a decoded last element ends at the buffer's last byte (its tag); a fixed-size one spans tag plus fixed content, a variable-length one spans tag, big-endian `u16` length and that many content bytes |
| `Paths.FirstElementOf` | crdt/src/path.rs:85-94 | the first element, when found, lies within the buffer and has a well-formed shape |
| `Paths.FirstElement` | crdt/src/path.rs:85-94 | the loop that strips elements off the end returns exactly the specified first element |
| `Paths.Content` | crdt/src/path.rs:328-382 | the content bytes of a fixed-size segment have exactly the type's size, those of a variable-length one fit a `u16` length |
| `Paths.SegmentNew` | crdt/src/path.rs:131-152 | the segment rebuilt from a type and content bytes has that type |
| `Paths.SegmentNewWf` | crdt/src/path.rs:131-152 | every segment decoded from a well-shaped element respects the Rust type bounds |
| `Paths.SegmentNewContent` | crdt/src/path.rs:131-152 | decoding the content bytes a pusher writes gives the same segment back |
| `Paths.EncodeSegment` | crdt/src/path.rs:302-326 | every pushed segment writes at least its tag byte |
| `Paths.LastOfPushed` | crdt/src/path.rs:52-83 | whatever precedes it, a pushed segment is decoded back from the end of the buffer |
| `Paths.EncodeEmptyIff` | crdt/src/path.rs:426-439 | a path built from segments is empty exactly when there are no segments |
| `Paths.AncestorOfExtension` | crdt/src/path.rs:455-458 | the path of a prefix of the segments is an ancestor of the path of all of them |
| `Paths.Last` | crdt/src/path.rs:473-477 | the last segment, when present, has the type of the last decoded element |
| `Paths.Parent` | crdt/src/path.rs:491-496 | the parent is a proper prefix, and there is none exactly when no last element decodes |
| `Paths.First` | crdt/src/path.rs:479-483 | the first segment, when present, has the type of the first decoded element |
| `Paths.Child` | crdt/src/path.rs:485-489 | the child is a proper suffix, and there is none exactly when no first element decodes |
| `Paths.SplitFirst` | crdt/src/path.rs:510-515 | `split_first` succeeds exactly when `first` does and pairs it with `child` |
| `Paths.SplitLast` | crdt/src/path.rs:517-522 | `split_last` succeeds exactly when `parent` does and pairs it with `last` |
| `Paths.DotInjective` | crdt/src/path.rs:498-501 | two paths have the same dot exactly when they are equal (the blake3 hash is taken as injective) |
| `Paths.ParentOfEncode` | crdt/src/path.rs:473-496 | the parent of a built path is the path of all segments but the last, and its last segment is the last pushed |
| `Paths.EmptyPath` | crdt/src/path.rs:450-496 | the empty path has no parent, last, first or child segment and yields no segments |
| `Paths.FirstOfEncode` | crdt/src/path.rs:85-94 | the first element of a built path is that of its first segment |
| `Paths.ChildOfEncode` | crdt/src/path.rs:479-489 | the first segment of a built path is the first pushed and its child is the path of the remaining segments |
| `Paths.SegmentsOfEncode` | crdt/src/path.rs:544-566 | iterating a built path yields exactly the pushed segments, in order |
| `Paths.SegmentsWf` | crdt/src/path.rs:544-566 | every segment that iteration yields respects the type bounds and can be pushed again |
| `Paths.IterAfter` | crdt/src/path.rs:524-542 | `iter_after` succeeds exactly when the prefix's items start the iterator's, and then leaves the rest of the iterator |
| `Paths.StrippedOfEncode` | crdt/src/path.rs:503-508 | stripping a base from a path that extends it gives the path of the remaining segments |
| `Paths.StrippedRefuses` | crdt/src/path.rs:503-508 | stripping fails when the path's segments do not start with the base's |
| `Paths.StripPrefix` | crdt/src/path.rs:503-508 | the method computes the specified strip |
| `Paths.FromSegments` | crdt/src/path.rs:426-439 | collecting segments into a fresh buffer leaves exactly their encoding |
| `Paths.PathBuf.constructor` | crdt/src/path.rs:293-295 | a new path buffer is empty |
| `Paths.PathBuf.PushLen` | crdt/src/path.rs:297-300 | appends the length as two big-endian bytes |
| `Paths.PathBuf.Push` | crdt/src/path.rs:302-309 | appends content, the length for variable-length types, then the tag, and nothing else changes |
| `Paths.PathBuf.PushSegment` | crdt/src/path.rs:311-326 | appends exactly the encoding of the segment |
| `Paths.PathBuf.PushDoc` | crdt/src/path.rs:328-331 | appends the encoding of a document segment |
| `Paths.PathBuf.PushPeer` | crdt/src/path.rs:333-336 | appends the encoding of a peer segment |
| `Paths.PathBuf.PushNonce` | crdt/src/path.rs:338-341 | appends the encoding of a nonce segment |
| `Paths.PathBuf.PushBool` | crdt/src/path.rs:343-347 | appends the encoding of a boolean segment |
| `Paths.PathBuf.PushU64` | crdt/src/path.rs:349-352 | appends the encoding of a `u64` segment |
| `Paths.PathBuf.PushI64` | crdt/src/path.rs:354-357 | appends the encoding of an `i64` segment |
| `Paths.PathBuf.PushStr` | crdt/src/path.rs:359-362 | appends the encoding of a string segment |
| `Paths.PathBuf.PushPolicy` | crdt/src/path.rs:364-367 | appends the encoding of a policy segment |
| `Paths.PathBuf.PushDot` | crdt/src/path.rs:369-372 | appends the encoding of a dot segment |
| `Paths.PathBuf.PushPosition` | crdt/src/path.rs:374-377 | appends the encoding of a position segment |
| `Paths.PathBuf.PushSig` | crdt/src/path.rs:379-382 | appends the encoding of a signature segment |
| `Paths.PathBuf.Pop` | crdt/src/path.rs:384-390 | truncates the buffer to its parent, and leaves a buffer without a decodable last segment unchanged |
| `Paths.PathBuf.Extend` | crdt/src/path.rs:397-400 | appends the other path's bytes |
| `Paths.PopOfEncode` | crdt/src/path.rs:384-390 | popping a built path drops exactly its last segment; popping an empty one changes nothing |
| `Paths.ExtendOfEncode` | crdt/src/path.rs:397-400 | extending a built path by another yields the segments of both, in order |
| `DotSets.Inc` | crdt/src/dotset.rs:40-44 | `inc` hands back the dot as it was and leaves the counter one higher |
| `DotSets.Next` | crdt/src/dotset.rs:184-188 | the next dot as documented: same id, a positive counter above every counter recorded for the id, and not yet in the set |
| `DotSets.InsertContains` | crdt/src/dotset.rs:145-165 | after `insert` the set holds exactly the old dots plus the new one, and inserting counter 0 changes nothing |
| `DotSets.OpsWf` | crdt/src/dotset.rs:195-246 | union, intersection and difference keep the invariant that no id maps to an empty set and counter 0 is never stored |
| `DotSets.UnionContains` | crdt/src/dotset.rs:235-246 | a dot is in the union exactly when it is in either set |
| `DotSets.IntersectionContains` | crdt/src/dotset.rs:195-212 | a dot is in the intersection exactly when it is in both sets |
| `DotSets.DifferenceContains` | crdt/src/dotset.rs:214-233 | a dot is in the difference exactly when it is in the first set and not the second |
| `DotSets.Extensionality` | crdt/src/dotset.rs:79 | two well-formed dot sets with the same members are equal |
| `DotSets.UnionIdempotent` | crdt/src/dotset.rs:334-337 | the union of a set with itself is the set |
| `DotSets.UnionCommutative` | crdt/src/dotset.rs:339-342 | union is commutative |
| `DotSets.UnionAssociative` | crdt/src/dotset.rs:344-347 | union is associative |
| `DotSets.IntersectionIdempotent` | crdt/src/dotset.rs:349-352 | the intersection of a set with itself is the set |
| `DotSets.IntersectionCommutative` | crdt/src/dotset.rs:354-357 | intersection is commutative |
| `DotSets.IntersectionAssociative` | crdt/src/dotset.rs:359-362 | intersection is associative |
| `DotSets.UnionDistributes` | crdt/src/dotset.rs:364-367 | union distributes over intersection |
| `DotSets.IntersectionDistributes` | crdt/src/dotset.rs:369-372 | intersection distributes over union |
| `DotSets.DifferenceIntersectionRestores` | crdt/src/dotset.rs:374-377 | the difference joined with the intersection gives back the first set |
| `DotSets.MaxMeaning` | crdt/src/dotset.rs:167-182 | `max` bounds every counter recorded for the id, is 0 exactly when the id is absent, and `dot` of a present id is a member |
| `DotSets.NextAsWrittenIsPresent` | crdt/src/dotset.rs:184-188 | `next` as written returns a dot already in the set whenever the id is present, one below the documented next dot |
| `DotSets.NextAsWrittenExample` | crdt/src/dotset.rs:184-188 | for the set {(i, 1)} `next` as written gives (i, 1) where its documentation promises (i, 2) |
| `DotSets.FromMapContains` | crdt/src/dotset.rs:119-126 | `from_map` holds exactly the counters 1 to the given maximum of each id |
| `DotSets.FromMapCausal` | crdt/src/dotset.rs:119-126 | every set `from_map` builds is causal |
| `DotSets.FromMapMax` | crdt/src/dotset.rs:119-126 | the maxima of a `from_map` set are the given ones, 0 for absent ids |
| `DotSets.CausalIffFromMap` | crdt/src/dotset.rs:248-254 | `is_causal` holds exactly of the sets that `from_map` rebuilds from their maxima |
| `DotSets.FromDotsContains` | crdt/src/dotset.rs:81-117 | collecting dots gives a set holding exactly the dots with a nonzero counter |
| `DotSets.DotSet.constructor` | crdt/src/dotset.rs:108-110 | a new dot set is empty and well formed |
| `DotSets.DotSet.Insert` | crdt/src/dotset.rs:145-165 | inserting in place keeps the set well formed and leaves the specified inserted set |
| `DotSets.DotSet.Union` | crdt/src/dotset.rs:235-246 | merging another set in place keeps it well formed and leaves the union of the two |
| `VClocks.DominatesFromKeys` | src/clock.rs:44-56 | a clock dominates another when it is at least as high on every actor the other names |
| `VClocks.MutualDominationIsEquality` | src/clock.rs:44-56 | two clocks without zero entries that dominate each other are equal |
| `VClocks.PartialCmpMeaning` | src/clock.rs:44-56 | `partial_cmp` answers Equal exactly for equal clocks, Greater exactly when self strictly dominates, Less exactly when other strictly dominates, and none for concurrent clocks |
| `VClocks.ConcurrentMeaning` | src/clock.rs:127-131 | two clocks are concurrent exactly when neither dominates the other |
| `VClocks.IntersectGet` | src/clock.rs:137-150 | `intersect` keeps the smaller counter of actors in both clocks and introduces no zero entry |
| `VClocks.DifferenceGet` | src/clock.rs:151-164 | `difference` keeps exactly the counters strictly above the other clock's and introduces no zero entry |
| `VClocks.AppliedGet` | src/clock.rs:200-207 | `apply` raises only the dot's actor, and only when the dot is ahead; no counter goes down |
| `VClocks.MaxOfGets` | src/clock.rs:165-174 | a clock whose counters are the pointwise maxima of two clocks is their join |
| `VClocks.MaxGet` | src/clock.rs:165-174 | each counter of the join is the larger of the two |
| `VClocks.MaxIdempotent` | src/clock.rs:165-174 | `union` of a clock with itself changes nothing |
| `VClocks.MaxCommutative` | src/clock.rs:165-174 | `union` is commutative |
| `VClocks.MaxAssociative` | src/clock.rs:165-174 | `union` is associative |
| `VClocks.Clock.constructor` | src/clock.rs:72-75 | a new clock is empty |
| `VClocks.Clock.GetOf` | src/clock.rs:107-111 | `get` reads the actor's counter, 0 for an absent actor |
| `VClocks.Clock.IncOf` | src/clock.rs:98-105 | `inc` is the dot one past the actor's counter, and leaves the clock unchanged |
| `VClocks.Clock.Apply` | src/clock.rs:200-207 | applying a dot in place keeps the clock free of zero entries and leaves the specified applied clock |
| `VClocks.Clock.Union` | src/clock.rs:165-174 | after the in-place `union` every counter is the larger of the two, and the clock is their join |
| `VClocks.ApplyIncAdvances` | src/clock.rs:98-105 | applying the dot `inc` returns advances exactly that actor by one and leaves a strictly greater clock |
| `CloudClocks.NormalIsCompactable` | crdt/src/clock.rs:119-140 | a compacted clock satisfies the precondition of `compact` |
| `CloudClocks.CausalIffDownwardClosed` | crdt/src/clock.rs:26-30 | `is_causal` (an empty cloud) holds of a compacted clock exactly when its dots are downward closed |
| `CloudClocks.DotFor` | crdt/src/clock.rs:57-61 | `dot` is the actor's current entry |
| `CloudClocks.IncFor` | crdt/src/clock.rs:63-67 | `inc` is one past the actor's entry, and a compacted clock does not contain it yet |
| `CloudClocks.NormalUnique` | crdt/src/clock.rs:119-140 | a compacted clock is determined by the dots it contains |
| `CloudClocks.UnionIdempotent` | crdt/src/clock.rs:181-184 | the union of a compacted clock with itself is the clock |
| `CloudClocks.UnionCommutative` | crdt/src/clock.rs:186-189 | union is commutative |
| `CloudClocks.UnionAssociative` | crdt/src/clock.rs:191-194 | union is associative |
| `CloudClocks.IntersectOfMeaning` | crdt/src/clock.rs:69-83 | the corrected intersection is compacted and holds exactly the dots both clocks hold |
| `CloudClocks.IntersectAsWrittenLosesDot` | crdt/src/clock.rs:69-83 | the intersection as written loses a dot that one clock holds in its cloud and the other covers by its entry |
| `CloudClocks.IntersectIdempotent` | crdt/src/clock.rs:196-199 | the intersection of a clock with itself is the clock |
| `CloudClocks.IntersectCommutative` | crdt/src/clock.rs:201-204 | intersection is commutative |
| `CloudClocks.IntersectAssociative` | crdt/src/clock.rs:206-209 | intersection is associative |
| `CloudClocks.UnionDistributesOverIntersect` | crdt/src/clock.rs:211-214 | union distributes over intersection |
| `CloudClocks.IntersectDistributesOverUnion` | crdt/src/clock.rs:216-219 | intersection distributes over union |
| `CloudClocks.DifferenceOfNormal` | crdt/src/clock.rs:85-102 | the difference of a compacted clock is compacted |
| `CloudClocks.UnionDifferenceIntersect` | crdt/src/clock.rs:221-224 | the difference joined with the corrected intersection gives back the first clock |
| `CloudClocks.UnionDifferenceIntersectAsWrittenFails` | crdt/src/clock.rs:221-224 | with the intersection as written, the same law fails on a concrete pair of clocks |
| `CloudClocks.MaxClockContents` | crdt/src/clock.rs:104-117 | once the entries are raised, the clock holds its own dots and those the other clock's entries cover, and can be compacted |
| `CloudClocks.RetainStep` | crdt/src/clock.rs:119-140 | one step of `retain` neither gains nor loses a dot and keeps the clock compactable |
| `CloudClocks.PassStep` | crdt/src/clock.rs:119-140 | each visited cloud dot keeps the invariant of a `retain` pass |
| `CloudClocks.Clock.constructor` | crdt/src/clock.rs:21-24 | a new clock has no entries and an empty cloud |
| `CloudClocks.Clock.RetainPass` | crdt/src/clock.rs:119-140 | one `retain` pass keeps the same dots, shrinks the cloud when it makes progress, and leaves a compacted clock when it does not |
| `CloudClocks.Clock.Compact` | crdt/src/clock.rs:119-140 | `compact` leaves a compacted clock holding the same dots |
| `CloudClocks.Clock.Insert` | crdt/src/clock.rs:39-51 | `insert` adds exactly the dot and keeps the clock compacted; a contained dot changes nothing, a dot beyond the next goes to the cloud, the next one advances the entry |
| `CloudClocks.Clock.RaiseEntries` | crdt/src/clock.rs:104-111 | the first loop of `union` raises each entry to the other clock's and leaves the cloud alone |
| `CloudClocks.Clock.InsertAll` | crdt/src/clock.rs:112-116 | the last loop of `union` adds exactly the other cloud's dots and keeps the clock compacted |
| `CloudClocks.Clock.Union` | crdt/src/clock.rs:104-117 | the in-place `union` leaves the compacted clock holding the dots of both |
| `CloudClocks.Clock.Intersect` | crdt/src/clock.rs:69-83 | `intersect` builds a fresh compacted clock equal to the corrected intersection |
| `CloudClocks.Clock.Difference` | crdt/src/clock.rs:85-102 | `difference` builds a fresh compacted clock with the entries ahead of the other clock and the cloud dots it does not contain |
| `CloudClocks.FromDots` | crdt/src/clock.rs:142-150 | collecting dots gives a compacted clock containing exactly those dots and the zero-counter ones |
| `Stores.SetJoinAsWrittenPerActor` | crdt/src/store.rs:164-175 | per actor, the `DotSet` join as written lets the side whose clock is ahead win outright and intersects on a tie |
| `Stores.SetJoinAsWritten` | crdt/src/store.rs:164-175 | the `DotSet` join as written keeps every dot both sides hold and invents none (`SetJoinAsWrittenPerActor` states per actor which survive) |
| `Stores.SetJoinAsWrittenKeepsRemoved` | crdt/src/store.rs:164-175 | the join as written keeps a dot the other replica has seen and removed, where the observed-remove join drops it |
| `Stores.SetJoin` | crdt/src/store.rs:164-175 | the observed-remove join keeps only dots that one of the two sides holds |
| `Stores.SetJoinDropsRemoved` | crdt/src/store.rs:164-175 | a dot one side has seen and dropped stays dropped; one the other side has not seen, or both hold, survives |
| `Stores.SetJoinCovered` | crdt/src/store.rs:150-156 | the join of stores covered by their clocks is covered by the united clock |
| `Stores.SetJoinIdempotent` | crdt/src/store.rs:164-175 | joining a store with itself changes nothing, under the observed-remove join and the join as written alike |
| `Stores.SetJoinCommutative` | crdt/src/store.rs:164-175 | the observed-remove join and the join as written are both commutative |
| `Stores.SetJoinAssociative` | crdt/src/store.rs:150-175 | joining three covered stores in either grouping, under the united clocks, gives the same store |
| `Stores.FunJoin` | crdt/src/store.rs:177-190 | the `DotFun` join keeps exactly the dots the `DotSet` join keeps |
| `Stores.FunJoinAsWritten` | crdt/src/store.rs:177-190 | the `DotFun` join as written keeps exactly the dots the `DotSet` join as written keeps |
| `Stores.FunJoinAsWrittenKeepsRemoved` | crdt/src/store.rs:177-190 | the `DotFun` join as written keeps an entry the other replica has seen and removed, with its old value, where the observed-remove join drops it |
| `Stores.FunJoinIdempotent` | crdt/src/store.rs:177-190 | for an idempotent value join, joining a function with itself changes nothing, under the observed-remove join and the join as written alike |
| `Stores.FunJoinCommutative` | crdt/src/store.rs:177-190 | for a commutative value join, the observed-remove `DotFun` join and the one as written are both commutative |
| `Stores.MapJoin` | crdt/src/store.rs:192-205 | the `DotMap` join keeps every key of either side |
| `Stores.MapJoinIdempotent` | crdt/src/store.rs:192-205 | when nested joins are idempotent, joining a map with itself changes nothing |
| `Stores.MapJoinCommutative` | crdt/src/store.rs:192-205 | when nested joins are commutative, the `DotMap` join is commutative |
| `Stores.TakenRetained` | crdt/src/store.rs:164-175 | the insert loop followed by the `retain` pass computes the observed-remove join |
| `Stores.FunTakenRetained` | crdt/src/store.rs:177-190 | the loop over the other function followed by `retain` computes the `DotFun` join |
| `Stores.MapMergedEnds` | crdt/src/store.rs:192-205 | the loop over the other map starts from this map and ends at the `DotMap` join |
| `Stores.DotSet.constructor` | crdt/src/store.rs:21-27 | a default dot set is empty |
| `Stores.DotSet.Join` | crdt/src/store.rs:164-175 | the in-place `causal_join` leaves the observed-remove join of the two stores |
| `Stores.DotSet.Retain` | crdt/src/store.rs:171-174 | the `retain` pass keeps exactly the dots the other side holds or has not seen |
| `Stores.DotFun.constructor` | crdt/src/store.rs:48-54 | a default dot function is empty |
| `Stores.DotFun.Join` | crdt/src/store.rs:177-190 | the in-place `causal_join` leaves the `DotFun` join |
| `Stores.DotFun.Retain` | crdt/src/store.rs:186-189 | the `retain` pass keeps exactly the entries whose dot the other side holds or has not seen |
| `Stores.DotMap.constructor` | crdt/src/store.rs:75-81 | a default dot map is empty |
| `Stores.DotMap.Join` | crdt/src/store.rs:192-205 | the in-place `causal_join` leaves the `DotMap` join |
| `Stores.Causal.constructor` | src/store.rs:51-55 | a new causal store has an empty store and an empty clock |
| `Stores.Causal.Join` | src/store.rs:62-67 | `join` joins the stores against both clocks and then leaves the union of the clocks |
| `Stores.CloudCausal.constructor` | crdt/src/store.rs:119-134 | a new causal store has an empty store and an empty clock |
| `Stores.CloudCausal.Join` | crdt/src/store.rs:150-156 | `join` joins the stores against both clocks and then leaves the union of the clocks |
| `Stores.CausalJoinLaws` | crdt/src/store.rs:150-156 | on states whose stores their clocks cover, `Causal::join` is idempotent, commutative and associative |
| `Fractions.At` | crdt/src/fraction.rs:20-26 | indexing reads the byte at `i`, and 0 past the end |
| `Fractions.Digit` | crdt/src/fraction.rs:130-134 | `digit` is the number part of the byte at `i`, a value below 128 |
| `Fractions.DigitsOf` | crdt/src/fraction.rs:124-128 | `digits` gives exactly `n` base-128 digits |
| `Fractions.StripZeros` | crdt/src/fraction.rs:50-58 | stripping keeps a prefix of the digits of at least one digit, ending in a nonzero digit unless it is a single digit, and makes an empty input the digit 0 |
| `Fractions.SetBits` | crdt/src/fraction.rs:59-70 | shifting in the continuation bits keeps the number of bytes |
| `Fractions.DValBound` | crdt/src/fraction.rs:124-134 | `n` digits are worth less than 128^n |
| `Fractions.DValCons` | crdt/src/fraction.rs:124-134 | the leading digit weighs 128 to the power of the number of digits after it |
| `Fractions.DValPad` | crdt/src/fraction.rs:124-134 | padding with zero digits multiplies the value by the weight of the padding |
| `Fractions.DValUpdate` | crdt/src/fraction.rs:98-113 | replacing one digit shifts the value by the difference times that digit's weight |
| `Fractions.DigitsOfSnoc` | crdt/src/fraction.rs:124-134 | reading one more digit past the end multiplies the value by 128 |
| `Fractions.CanonCanonical` | crdt/src/fraction.rs:50-70 | `from_digits` yields a canonical fraction |
| `Fractions.CanonDigits` | crdt/src/fraction.rs:50-70 | `from_digits` keeps the digits, up to trailing zeros |
| `Fractions.StripZerosPad` | crdt/src/fraction.rs:50-58 | the digits stripped are zeros and the ones kept are unchanged |
| `Fractions.CanonicalLength` | crdt/src/fraction.rs:50-70 | a canonical fraction ends in a nonzero digit unless it is a single digit, and reads as zeros beyond its end |
| `Fractions.CanonicalDigitsInjective` | crdt/src/fraction.rs:50-70 | a canonical fraction is determined by its digits |
| `Fractions.LessIsValueOrder` | crdt/src/fraction.rs:8-12 | on digit sequences of one length, lexicographic order is numeric order |
| `Fractions.LessTotal` | crdt/src/fraction.rs:8-12 | the derived byte order is total |
| `Fractions.LessIrreflexive` | crdt/src/fraction.rs:8-12 | the derived byte order is irreflexive |
| `Fractions.ZerosLess` | crdt/src/fraction.rs:8-12 | all-zero digits are below any sequence of the same length with a nonzero digit |
| `Fractions.LessIsDigitOrder` | crdt/src/fraction.rs:8-12 | on canonical fractions byte order is digit order |
| `Fractions.LessIsNumericOrder` | crdt/src/fraction.rs:8-12 | on canonical fractions byte order is numeric order, at any width holding both |
| `Fractions.Zero` | crdt/src/fraction.rs:118-120 | `zero` is canonical and worth 0 |
| `Fractions.Half` | crdt/src/fraction.rs:121-123 | `half` is canonical and worth one half |
| `Fractions.FromDigits` | crdt/src/fraction.rs:50-70 | `from_digits` returns a canonical fraction no longer than its input whose digits are the input's, up to trailing zeros |
| `Fractions.StripTrailingZeros` | crdt/src/fraction.rs:50-58 | the first loop of `from_digits` computes the specified stripping |
| `Fractions.ShiftInBits` | crdt/src/fraction.rs:59-70 | the second loop of `from_digits` computes the specified bit shifting |
| `Fractions.Mid` | crdt/src/fraction.rs:72-96 | `mid` is canonical, exactly the average of the two fractions, strictly between them when they are ordered, and equal to them when they agree |
| `Fractions.HalfValue` | crdt/src/fraction.rs:72-96 | appending half a digit to a halved sequence doubles back to the whole |
| `Fractions.MidOrder` | crdt/src/fraction.rs:177-194 | a canonical number whose double is the sum of two others lies strictly between them |
| `Fractions.SumDigits` | crdt/src/fraction.rs:76-85 | the adding loop of `mid` yields digits and a carry worth the sum of the two fractions |
| `Fractions.SumStep2` | crdt/src/fraction.rs:76-85 | one step of the adding loop keeps its invariant |
| `Fractions.HalveDigits` | crdt/src/fraction.rs:86-95 | the halving loop of `mid` yields digits whose double plus the low bit is the carry and digits it started from |
| `Fractions.Succ` | crdt/src/fraction.rs:98-113 | `succ` is canonical, one unit of its last digit above the fraction, and above it in byte order |
| `Fractions.Increment` | crdt/src/fraction.rs:98-113 | the increment loop adds exactly one to the digits |
| `Fractions.IncrementStep` | crdt/src/fraction.rs:98-113 | one step of the increment loop keeps its invariant, passing the carry on over a largest digit |
| `Fractions.LessCommonPrefix` | crdt/src/fraction.rs:204-215 | a common prefix does not change the byte order |
| `Fractions.LessIgnoresSuffix` | crdt/src/fraction.rs:204-215 | distinct canonical fractions keep their order whatever is appended to them |
| `Fractions.ConcatOrder` | crdt/src/fraction.rs:167-215 | comparing vectors of canonical fractions is comparing their concatenated bytes |
| `Positions.ValueScale` | crdt/src/pos_identifier.rs:32-39 | at widths holding the exponent, each further bit of width doubles the value |
| `Positions.ScaleKeepsOrder` | crdt/src/pos_identifier.rs:47-55 | scaling both values by the same positive factor keeps their order |
| `Positions.CmpAtWidth` | crdt/src/pos_identifier.rs:47-55 | comparing at any width holding both exponents gives `cmp` |
| `Positions.CmpAntisymmetric` | crdt/src/pos_identifier.rs:47-55 | `cmp` reverses when its arguments are swapped |
| `Positions.CmpTransitive` | crdt/src/pos_identifier.rs:47-55 | `cmp` is transitive |
| `Positions.MaxPos` | crdt/src/pos_identifier.rs:47-55 | the common width is the larger exponent |
| `Positions.CmpIgnoresRepresentation` | crdt/src/pos_identifier.rs:14-55 | `cmp` compares values, so two positions can compare Equal while the derived equality tells them apart |
| `Positions.CmpExamples` | crdt/src/pos_identifier.rs:140-145 | the orderings the unit test asserts hold |
| `Positions.Between` | crdt/src/pos_identifier.rs:96-134 | on signed mantissas, with only a left neighbour the result is above it and with only a right neighbour below it, whatever the neighbour |
| `Positions.BetweenBelowWraps` | crdt/src/pos_identifier.rs:99-103 | below a right neighbour of mantissa 0 the code as written wraps to the largest mantissa, above the neighbour |
| `Positions.BetweenBelowAgrees` | crdt/src/pos_identifier.rs:99-103 | with a positive right mantissa the code as written agrees with the corrected `between` |
| `Positions.BetweenAsWritten` | crdt/src/pos_identifier.rs:96-134 | `between` as written agrees with the corrected `between` except below a right neighbour with no left one whose mantissa is 0, where the `u128` mantissa wraps to stay in range (exhibited by `BetweenBelowWraps`) |
| `Positions.BetweenIsAverage` | crdt/src/pos_identifier.rs:110-132 | with both neighbours, the result is their exact average at one bit more than the larger exponent |
| `Positions.AverageWithZero` | crdt/src/pos_identifier.rs:111-115 | taking the other neighbour one bit further averages it with a zero neighbour |
| `Positions.AverageAtExponent` | crdt/src/pos_identifier.rs:116-128 | scaling the smaller-exponent neighbour up, adding and adding one bit averages the two |
| `Positions.BetweenIsStrict` | crdt/src/pos_identifier.rs:96-134 | between two positions that compare unequal, `between` makes one strictly between them, in either order |
| `Positions.BetweenExamples` | crdt/src/pos_identifier.rs:146-149 | `between(None, None)` is zero, and the unit test's example gives (9, 2) |
| `Positions.IdCmpLaws` | crdt/src/pos_identifier.rs:77-84 | identifiers at distinct positions order by position, at equal positions by dot; Equal means same position and same dot; the order reverses with its arguments |
| `Positions.CmpThree` | crdt/src/pos_identifier.rs:47-55 | three positions compare as their values at one common width |
| `Positions.DotCmpTransitive` | crdt/src/dotset.rs:26-31 | the derived order on dots is transitive |
| `Positions.IdCmpTransitive` | crdt/src/pos_identifier.rs:77-84 | the order on identifiers is transitive |
| `Positions.IdBetween` | crdt/src/pos_identifier.rs:90-94 | the new identifier carries the given dot and the position between those of its neighbours |
| `Positions.IdBetweenIsStrict` | crdt/src/pos_identifier.rs:90-94 | a new identifier between two whose positions differ sorts strictly between them, whatever its dot |
| `Positions.IdBetweenAsWritten` | crdt/src/pos_identifier.rs:90-103 | the identifier as written carries the dot, and differs from the corrected one only below a right neighbour with no left one |
| `Positions.IdBetweenAtTie` | crdt/src/pos_identifier.rs:77-94 | between two identifiers at one position the new one gets that same position, and sorts between them exactly when its dot lies between theirs |
| `Positions.IdBetweenTieExample` | crdt/src/pos_identifier.rs:1-5 | two identifiers at position 1 with dots (1, 1) and (2, 1): the one made between them with dot (3, 1) sorts after both |
| `DenseIds.Between` | crdt/src/pos_identifier.rs:1-5 | the corrected identifier for a gap is non-empty and ends in a digit carrying the operation's dot |
| `DenseIds.DigitCmpLaws` | crdt/src/pos_identifier.rs:77-84 | digits compare Equal exactly when they are equal, and the order reverses with its arguments |
| `DenseIds.DigitCmpTransitive` | crdt/src/pos_identifier.rs:77-84 | the order on digits is transitive |
| `DenseIds.LexCmpLaws` | crdt/src/pos_identifier.rs:77-84 | dense identifiers compare Equal exactly when they are equal, and the order reverses with its arguments |
| `DenseIds.LexCmpTransitive` | crdt/src/pos_identifier.rs:77-84 | the order on dense identifiers is transitive |
| `DenseIds.BetweenIsStrict` | crdt/src/pos_identifier.rs:1-5 | for any two dense identifiers in order, and beside any one, the new identifier sorts strictly between its neighbours, for every dot |
| `DenseIds.BetweenAtTie` | crdt/src/pos_identifier.rs:1-5 | at the tie of `Positions.IdBetweenTieExample`, the dense identifier made between the two sorts between them |
| `PathCrdt.Grand` | crdt/src/crdt.rs:170-173 | the store path a tombstone kills, its grandparent, is a proper prefix of it |
| `PathCrdt.GrandOfEncode` | crdt/src/crdt.rs:170-173 | the tombstone built two segments below a store path kills exactly that store path |
| `PathCrdt.KilledIsAncestor` | crdt/src/crdt.rs:341-349 | a path some tombstone kills is an ancestor of that tombstone, so a prefix scan of the tombstones finds it |
| `PathCrdt.CtxMeaning` | crdt/src/crdt.rs:166-176 | `ctx` holds the dot of a path as live exactly when the path is live, and as expired exactly when a tombstone kills it |
| `PathCrdt.JoinedAsWrittenKeepsKilled` | crdt/src/crdt.rs:179-186 | `Causal::join` as written keeps a live path that a tombstone of the other side kills, where `Crdt::join` drops it |
| `PathCrdt.Joined` | crdt/src/crdt.rs:341-369 | the join unites the tombstones and keeps only live paths of either side |
| `PathCrdt.JoinedConsistent` | crdt/src/crdt.rs:341-369 | after the join no live path is killed by a tombstone |
| `PathCrdt.JoinedIdempotent` | crdt/src/crdt.rs:815-818 | joining a consistent state with itself changes nothing |
| `PathCrdt.JoinedCommutative` | crdt/src/crdt.rs:820-825 | the join is commutative |
| `PathCrdt.JoinedAssociative` | crdt/src/crdt.rs:827-830 | the join is associative |
| `PathCrdt.JoinedAsWrittenIdempotent` | crdt/src/crdt.rs:179-186 | the join as written is idempotent on states that never hold a path both live and as a tombstone |
| `PathCrdt.Unjoined` | crdt/src/crdt.rs:189-205 | `unjoin` returns some of the state's live paths and some of its tombstones |
| `PathCrdt.JoinUnjoin` | crdt/src/crdt.rs:809-813 | joining a state with any of its unjoins gives the state back |
| `PathCrdt.UnjoinOwnContext` | crdt/src/crdt.rs:189-205 | unjoining against the state's own context yields nothing |
| `PathCrdt.UnjoinDelivers` | crdt/src/crdt.rs:166-205 | the delta `a.unjoin(b.ctx())` brings `b` to the join of both: the same live paths and the same killed paths |
| `PathCrdt.DotStore.constructor` | crdt/src/crdt.rs:22-25 | a store built from a set of paths holds exactly them |
| `PathCrdt.DotStore.Union` | crdt/src/crdt.rs:66-70 | `union` inserts every path of the other store |
| `PathCrdt.DotStore.RetainSurviving` | crdt/src/crdt.rs:183-185 | the `retain` pass keeps exactly the paths no tombstone kills |
| `PathCrdt.Causal.constructor` | crdt/src/crdt.rs:149-152 | a transaction holds the given live paths and tombstones in two fresh stores |
| `PathCrdt.Causal.Join` | crdt/src/crdt.rs:179-186 | the in-place join leaves the corrected join of the two transactions |
| `PathCrdt.Causal.Ctx` | crdt/src/crdt.rs:166-176 | the loops of `ctx` compute the specified context |
| `PathCrdt.StoreDotsOf` | crdt/src/crdt.rs:168-170 | the first loop of `ctx` collects the dot of every live path |
| `PathCrdt.KilledDotsOf` | crdt/src/crdt.rs:171-174 | the second loop of `ctx` collects the dot of the path every tombstone kills, each tombstone having a grandparent as the unwraps demand |
| `PathCrdt.Causal.Unjoin` | crdt/src/crdt.rs:189-205 | `unjoin` computes the specified difference |
| `PathCrdt.UnknownTombstonesOf` | crdt/src/crdt.rs:190-196 | the first loop of `unjoin` keeps the tombstones whose killed path the context does not know as expired |
| `PathCrdt.UnknownPathsOf` | crdt/src/crdt.rs:197-203 | the second loop of `unjoin` keeps the live paths the context knows neither as live nor as expired and that are not kept tombstones |
| `PathCrdt.CrdtJoined` | crdt/src/crdt.rs:341-369 | `Crdt::join` grows the tombstones by exactly the transmitted ones the peer may write |
| `PathCrdt.CrdtJoinedConsistent` | crdt/src/crdt.rs:341-369 | `Crdt::join` keeps the replica free of killed live paths |
| `PathCrdt.CrdtJoinedAgrees` | crdt/src/crdt.rs:832-840 | with every write allowed, joining a transaction into a replica is the causal join of the two, wherever store paths are ancestors of tombstones only as their grandparents |
| `PathCrdt.CrdtJoinedKeepsTombstonedPath` | crdt/src/crdt.rs:357-366 | a transaction whose tombstone is a store path itself leaves that path in the store after `Crdt::join` |
| `PathCrdt.CrdtUnjoined` | crdt/src/crdt.rs:371-420 | `Crdt::unjoin` returns some of the replica's live paths and tombstones |
| `PathCrdt.CrdtUnjoinedAgrees` | crdt/src/crdt.rs:842-851 | on a replica of one document with every read allowed, `Crdt::unjoin` is `Causal::unjoin` |
| `PathCrdt.KilledBySurviving` | crdt/src/crdt.rs:357-367 | removing the paths admitted tombstones kill is retaining the surviving paths |
| `PathCrdt.KillAdmitted` | crdt/src/crdt.rs:357-367 | the tombstone loop of `Crdt::join` removes exactly the paths admitted tombstones kill and records exactly those tombstones |
| `PathCrdt.Crdt.constructor` | crdt/src/crdt.rs:272-278 | a new replica is empty |
| `PathCrdt.Crdt.Join` | crdt/src/crdt.rs:341-369 | `join` leaves the specified replica; a live path expired locally or that the peer may not write is not inserted; every admitted tombstone is recorded and its killed path is gone |
| `PathCrdt.Crdt.InsertLive` | crdt/src/crdt.rs:342-356 | the first loop inserts exactly the live paths no tombstone lies under and the peer may write, and leaves the tombstones alone |
| `PathCrdt.Crdt.ApplyTombstones` | crdt/src/crdt.rs:357-367 | the second loop removes the paths the admitted tombstones kill and records those tombstones |
| `PathCrdt.Crdt.Remove` | crdt/src/crdt.rs:422-434 | `remove` drops exactly the live paths and tombstones under the document |
| `PathCrdt.OutsideDoc` | crdt/src/crdt.rs:425-432 | a loop of `remove` keeps a path exactly when it is not under the document |
| `TypedCrdts.SetJoin` | crdt/src/crdts.rs:53-55 | the observed-remove join of two flags keeps only dots one of the two holds |
| `TypedCrdts.SetJoinLaws` | crdt/src/crdts.rs:53-55 | on stores their contexts cover, the flag join is idempotent, commutative and associative and keeps the store covered by the united contexts |
| `TypedCrdts.FlagJoin` | crdt/src/crdts.rs:53-55 | the joined flag's context is the union of the two, and a dot survives exactly when both hold it or one holds it and the other has not seen it |
| `TypedCrdts.Value` | crdt/src/crdts.rs:80-87 | the flag reads true exactly while it holds a dot |
| `TypedCrdts.EnableAsWritten` | crdt/src/crdts.rs:62-70 | `enable` as written yields the new dot with the whole context of the state it was made from |
| `TypedCrdts.Enable` | crdt/src/crdts.rs:62-70 | `enable` as its comment defines it yields the new dot with a context of only the flag's own dots and the new one |
| `TypedCrdts.DisableAsWritten` | crdt/src/crdts.rs:71-78 | `disable` as written yields an empty store with the whole context |
| `TypedCrdts.Disable` | crdt/src/crdts.rs:71-78 | `disable` as its comment defines it yields an empty store with a context of the flag's own dots and the dot used |
| `TypedCrdts.EnableThenRead` | crdt/src/crdts.rs:424-433 | joining an enable with a fresh dot leaves exactly that dot, so the flag reads true, as written and as commented alike |
| `TypedCrdts.DisableThenRead` | crdt/src/crdts.rs:424-433 | joining a disable empties the flag, so it reads false, as written and as commented alike |
| `TypedCrdts.EnableWins` | crdt/src/crdts.rs:62-87 | an enable and a disable made concurrently from one state leave the flag on, in either join order |
| `TypedCrdts.FunJoin` | crdt/src/crdts.rs:127-129 | the register join keeps the dots the dot-set join keeps; a dot only one side holds keeps that side's value |
| `TypedCrdts.FunJoinIdempotent` | crdt/src/crdts.rs:127-129 | for an idempotent value join, a covered register joined with itself is itself |
| `TypedCrdts.FunJoinCommutative` | crdt/src/crdts.rs:127-129 | for a commutative value join, the register join of covered registers is commutative |
| `TypedCrdts.FunJoinAssociative` | crdt/src/crdts.rs:127-129 | for an associative value join, three covered registers join to the same register in either grouping |
| `TypedCrdts.WriteAsWritten` | crdt/src/crdts.rs:136-145 | `write` as written maps the new dot to the value and carries the whole context |
| `TypedCrdts.Write` | crdt/src/crdts.rs:136-145 | `write` as its comment defines it maps the new dot to the value with a context of the register's own dots and the new one |
| `TypedCrdts.Read` | crdt/src/crdts.rs:147-153 | `read` yields exactly the values the register holds under its dots |
| `TypedCrdts.WriteThenRead` | crdt/src/crdts.rs:435-446 | a write joined into its own state replaces every value it saw, so only the new value is read |
| `TypedCrdts.ConcurrentWritesBothRead` | crdt/src/crdts.rs:435-446 | two writes made concurrently with distinct fresh dots both stay readable once both are joined |
| `TypedCrdts.MapJoin` | crdt/src/crdts.rs:365-367 | the map join keeps only keys of either side and never a key whose joined store is empty |
| `TypedCrdts.MapJoinIs` | crdt/src/crdts.rs:365-367 | the map join is the map holding, under each key of either side, the non-empty join of its two stores |
| `TypedCrdts.GetMapJoin` | crdt/src/crdts.rs:365-367 | a key's store in the joined map is the nested join of its two stores, the default standing in for a missing one |
| `TypedCrdts.MapJoinIdempotent` | crdt/src/crdts.rs:365-367 | when the nested join is idempotent on each key's store, a map without empty stores joined with itself is itself |
| `TypedCrdts.MapJoinCommutative` | crdt/src/crdts.rs:365-367 | when the nested join is commutative on each key's stores, so is the map join |
| `TypedCrdts.MapJoinAssociative` | crdt/src/crdts.rs:365-367 | when the nested join is associative on each key's stores and keeps empty stores empty, three maps join to the same map in either grouping |
| `TypedCrdts.Lookup` | crdt/src/crdts.rs:408-417 | `get` finds a value exactly for a present key, and it is that key's store |
| `TypedCrdts.Apply` | crdt/src/crdts.rs:375-391 | `apply` names only the key, and carries the store and context of the operation run on the key's store (or the default) |
| `TypedCrdts.Remove` | crdt/src/crdts.rs:393-406 | `remove` yields an empty store whose context is the key's dots and the new dot, or nothing for a missing key |
| `TypedCrdts.UntouchedKeysStay` | crdt/src/crdts.rs:365-367 | a key the delta does not name keeps its flag when the delta's context has not seen its dots |
| `TypedCrdts.ApplyEnable` | crdt/src/crdts.rs:448-481 | `apply(k, enable)` with a fresh dot sets the key's flag to that dot and keeps every other key |
| `TypedCrdts.ApplyDisable` | crdt/src/crdts.rs:448-481 | `apply(k, disable)` drops the key once joined |
| `TypedCrdts.RemoveDropsKey` | crdt/src/crdts.rs:448-481 | `remove(dot, k)` drops the key once joined |
| `TypedCrdts.MapScenario` | crdt/src/crdts.rs:448-481 | the map test: enable shows the key, disable hides it, a second enable shows it again, remove hides it |
| `TypedCrdts.EnableAsWrittenErasesOtherKeys` | crdt/src/crdts.rs:62-70 | as written, enabling one key of a map and joining erases another key, which the commented `enable` keeps |
| `ORArrays.Put` | crdt/src/crdts.rs:198-209 | the ordered content after putting one entry grows by at most that entry |
| `ORArrays.PutBetween` | crdt/src/crdts.rs:198-209 | an entry whose identifier lies strictly between the neighbours at `t` lands at index `t` |
| `ORArrays.PutReplaces` | crdt/src/crdts.rs:198-209 | an entry at an identifier already present replaces that entry's uid and value in place |
| `ORArrays.PutSorted` | crdt/src/crdts.rs:198-209 | putting keeps the content ordered by identifier and adds no identifier but the new one |
| `ORArrays.ExtendedSorted` | crdt/src/crdts.rs:207 | extending by the other side's entries keeps the content ordered |
| `ORArrays.Kept` | crdt/src/crdts.rs:208 | the retain pass keeps only entries of the content whose identifier is kept |
| `ORArrays.KeptSorted` | crdt/src/crdts.rs:208 | the retain pass keeps the content ordered |
| `ORArrays.Without` | crdt/src/crdts.rs:198-209 | the content without element `u` holds exactly the entries of other elements |
| `ORArrays.Values` | crdt/src/crdts.rs:181-183 | the values are read in array order, one per entry |
| `ORArrays.ValueAt` | crdt/src/crdts.rs:184-187 | a value is found exactly for an index inside the array, and it is the value at that index |
| `ORArrays.JoinStores` | crdt/src/crdts.rs:198-209 | the joined metadata is the metadata join, and every entry left sits at an identifier the joined metadata places |
| `ORArrays.Join` | crdt/src/crdts.rs:198-209 | the joined state's context is the union of the two, its metadata the metadata join, and every entry left sits at an identifier that metadata places |
| `ORArrays.JoinSorted` | crdt/src/crdts.rs:198-209 | the join keeps the content ordered whatever the other side holds |
| `ORArrays.PathJoinReplaces` | crdt/src/crdts.rs:198-199 | a placement this side has seen and the other side dropped gives way to the other side's unseen placement |
| `ORArrays.PathJoinKeeps` | crdt/src/crdts.rs:198-199 | a placement the other side has not seen stays |
| `ORArrays.InnerJoinReplaces` | crdt/src/crdts.rs:198-199 | an element's placements are replaced by the other side's when all of this side's are seen there |
| `ORArrays.InnerJoinKeeps` | crdt/src/crdts.rs:198-199 | an element's placements the other side has not seen stay |
| `ORArrays.MetaJoinUpdate` | crdt/src/crdts.rs:198-199 | joining a delta about one element replaces that element's placements (or drops it) and leaves every other element as it was |
| `ORArrays.Clamp` | crdt/src/crdts.rs:226 | the index is clamped to the length and left alone inside it |
| `ORArrays.Place` | crdt/src/crdts.rs:226-237 | the identifier made for a gap carries the operation's dot as its tie-breaker |
| `ORArrays.PlaceIsBetween` | crdt/src/crdts.rs:226-237 | the identifier made for a gap lies strictly between the gap's neighbours, when their positions differ |
| `ORArrays.PlaceAsWritten` | crdt/src/crdts.rs:226-237 | the identifier as written carries the dot, and equals the corrected one except at the front of a non-empty array |
| `ORArrays.SecondFrontInsert` | crdt/src/pos_identifier.rs:99-103 | a second insert at index 0 lands after the first as written, and in front of it with the corrected placement |
| `ORArrays.Insert` | crdt/src/crdts.rs:225-247 | `insert` yields one new element whose uid is the dot, placed by that dot at the clamped index, with only the dot as context |
| `ORArrays.InsertPlaces` | crdt/src/crdts.rs:530-552 | an insert joined into its own state, into a gap whose neighbours' positions differ, puts the value at the clamped index, shifts nothing else and keeps the state well formed |
| `ORArrays.Delete` | crdt/src/crdts.rs:249-259 | `delete` yields an empty store whose context is the element's placing dots and the new dot, or nothing past the end |
| `ORArrays.DeletePastEnd` | crdt/src/crdts.rs:249-259 | a delete past the end leaves the state unchanged |
| `ORArrays.DeleteRemoves` | crdt/src/crdts.rs:501-528 | a delete joined into its own state removes the element at that index and nothing else |
| `ORArrays.DeleteLater` | crdt/src/crdts.rs:249-259 | a delete made earlier still removes the element from a later state that has not touched it since |
| `ORArrays.Update` | crdt/src/crdts.rs:261-282 | `update` yields the element at the index with the new value at its old identifier, placed by the new dot alone, or only the dot past the end |
| `ORArrays.JoinFreshDot` | crdt/src/crdts.rs:261-282 | a delta holding only a fresh dot changes nothing but the context |
| `ORArrays.UpdateReplaces` | crdt/src/crdts.rs:554-569 | an update joined into its own state changes the value at that index and nothing else |
| `ORArrays.Move` | crdt/src/crdts.rs:284-317 | `move` yields the element with its uid and value at a new identifier in the gap before the clamped target, every placing dot of it repathed there |
| `ORArrays.Repath` | crdt/src/crdts.rs:302-310 | a moved element keeps its placing dots, each now leading only to the new identifier |
| `ORArrays.RepathSingle` | crdt/src/crdts.rs:302-310 | a moved element has exactly one placing dot and one identifier |
| `ORArrays.Moved` | crdt/src/crdts.rs:284-317 | moving keeps the sequence's length |
| `ORArrays.MovedIsPermutation` | crdt/src/crdts.rs:284-317 | moving is a permutation of the values |
| `ORArrays.MovedLands` | crdt/src/crdts.rs:284-317 | the moved value lands just before what was at the target, and what lies before both indices stays put |
| `ORArrays.MoveExample` | crdt/src/crdts.rs:571-586 | moving index 3 to index 8 of 0..9 yields 0,1,2,4,5,6,7,3,8,9 |
| `ORArrays.MovePlaces` | crdt/src/crdts.rs:571-586 | a move joined into its own state, into a gap whose neighbours' positions differ, moves that element's value to the target and leaves every other value in order |
| `ORArrays.Extend` | crdt/src/crdts.rs:207 | the loop puts each of the other side's entries in turn |
| `ORArrays.Retain` | crdt/src/crdts.rs:208 | the loop keeps exactly the entries the retain pass keeps, in order |
| `ORArrays.ORArray.constructor` | crdt/src/crdts.rs:165-172 | a new array holds no element |
| `ORArrays.ORArray.Join` | crdt/src/crdts.rs:198-209 | joining in place leaves the array equal to the store join of its old state and the other side |
| `ORArrays.ORArray.Position` | crdt/src/crdts.rs:184-187 | a value is found exactly for an index inside the array, and it is the value at that index |
| `Schemas.KindValidates` | crdt/src/schema.rs:21-30 | a segment validates for a primitive kind exactly when it is a segment of that kind's type |
| `Schemas.SplitOfEncode` | crdt/src/schema.rs:84-101 | splitting an encoded path yields its first segment and the encoding of the rest, and only the empty path does not split |
| `Schemas.PolicyOfEncode` | crdt/src/schema.rs:111-115 | a path passes the policy check exactly when it is one policy segment |
| `Schemas.ValidateSplit` | crdt/src/schema.rs:77-103 | one step of path validation for each kind of schema, in terms of the path's first segment and its rest |
| `Schemas.ValidatePathOfEncode` | crdt/src/schema.rs:77-108 | an encoded path validates exactly when its segments conform to the schema tree |
| `Schemas.LeafPaths` | crdt/src/schema.rs:82-93 | `Null` admits only the empty path, a flag exactly one nonce, a register a nonce followed by one primitive of its kind |
| `Schemas.InnerPaths` | crdt/src/schema.rs:94-103 | a table path starts with a key of the table's kind and a struct path with a declared field, and the rest validates against the value schema |
| `Schemas.PolicyAnywhere` | crdt/src/schema.rs:78-80 | a lone policy segment is valid under every schema |
| `Schemas.VerifySigOfEncode` | crdt/src/schema.rs:117-128 | a path signed by a peer yields the unsigned path exactly when the signature verifies, and nothing otherwise |
| `Schemas.StorePathOfEncode` | crdt/src/schema.rs:51-59 | a live path of a document is valid exactly when its signature verifies and its segments conform |
| `Schemas.ExpiredPathOfEncode` | crdt/src/schema.rs:60-73 | a tombstone is valid exactly when both signatures verify, it does not end in a policy and its segments conform |
| `Schemas.StoreValid` | crdt/src/schema.rs:51-59 | the first loop accepts exactly when every live path is valid |
| `Schemas.ExpiredValid` | crdt/src/schema.rs:60-73 | the second loop accepts exactly when every tombstone is valid |
| `Schemas.Validate` | crdt/src/schema.rs:46-75 | a causal delta is valid exactly when every live path and every tombstone is |
| `Lenses.ReverseInvolutive` | crdt/src/lens.rs:89-109 | reversing twice gives the lens back, so flipping the direction flag reverses the lens |
| `Lenses.Reversible` | crdt/src/lens.rs:304-311 | whenever a lens applies to a schema, its reverse applies to the result and restores the schema exactly |
| `Lenses.Failures` | crdt/src/lens.rs:111-222 | when `make`, `add`, `remove` and `rename` apply: on a null schema with a non-null kind, on a struct without the key, on a struct whose key is null, on a struct with the old and without the new name |
| `Lenses.MakeDestroyShape` | crdt/src/lens.rs:111-222 | `Make` succeeds only on a null schema and yields a non-null one; `Destroy` succeeds only on a non-null schema and yields null |
| `Lenses.AllReversible` | crdt/src/lens.rs:304-311 | every lens is undone by its reverse |
| `Lenses.ToSchema` | crdt/src/lens.rs:251-261 | the schema a lens list builds is the lenses applied in order from `Null`, or the first failure |
| `Lenses.Transform` | crdt/src/lens.rs:263-280 | the lenses between two lists are the reversed suffix of the first after the common prefix, then the suffix of the second |
| `Lenses.TransformReachesTarget` | crdt/src/lens.rs:263-280 | applying those lenses to the schema the first list builds yields the schema the second builds |
| `LensLists.ApplyAllAppend` | crdt/src/lens.rs:251-255 | applying a concatenation of lenses applies the first part and then the second |
| `LensLists.Refs` | crdt/src/lens.rs:253-254 | each stored lens is applied forwards, in order |
| `LensLists.Undo` | crdt/src/lens.rs:273-275 | the undoing list holds each lens reversed, last first |
| `LensLists.UndoRestores` | crdt/src/lens.rs:273-275 | a lens list that applies is undone by its reversed lenses in reverse order |
| `LensLists.ToSchema` | crdt/src/lens.rs:251-255 | the loop applies the lenses in order from the empty schema, stopping at the first failure |
| `LensLists.PrefixLen` | crdt/src/lens.rs:264-271 | the common prefix length bounds both lists, they agree up to it and differ just past it |
| `LensLists.CommonPrefix` | crdt/src/lens.rs:264-271 | the first loop counts exactly the longest common prefix |
| `LensLists.UndoSuffix` | crdt/src/lens.rs:273-275 | the second loop yields the first list's lenses past the prefix, reversed and last first |
| `LensLists.Transform` | crdt/src/lens.rs:263-280 | `transform` yields the undone suffix of the first list followed by the suffix of the second |
| `LensLists.PrefixMonotone` | crdt/src/lens.rs:264-271 | every common prefix is no longer than the one `transform` finds |
| `LensLists.PrefixStops` | crdt/src/lens.rs:264-271 | where the lists first differ or one ends, the common prefix ends |
| `LensLists.TransformReachesTarget` | crdt/src/lens.rs:263-280 | for any reversible lens kind, the transform lenses take the first list's schema to the second's |
| `AclRules.Bind` | acl/src/engine.rs:147-153 | binding a conditional grant keeps its permission and label and takes the actor of the grant that met the condition |
| `AclRules.FromSays` | acl/src/engine.rs:201-203 | the statement rule derives only grants |
| `AclRules.FromSaysIf` | acl/src/engine.rs:205-207 | the conditional statement rule derives only conditional grants |
| `AclRules.FromRevokes` | acl/src/engine.rs:209-212 | the revoke statement rule derives only revocation requests |
| `AclRules.FromCondition` | acl/src/engine.rs:214-218 | condition resolution derives only grants |
| `AclRules.FromAuthority` | acl/src/engine.rs:220-224 | the local-authority rule yields only authorizations |
| `AclRules.FromDelegation` | acl/src/engine.rs:226-238 | the ownership and control rules yield only authorizations |
| `AclRules.FromRevocation` | acl/src/engine.rs:240-248 | the revocation rule yields only revocations |
| `AclRules.Monotone` | acl/src/engine.rs:195-249 | adding facts only adds consequences |
| `AclRules.ConsequencesInUniverse` | acl/src/engine.rs:195-249 | no rule yields a fact that mentions anything the statements do not |
| `AclRules.IterateReachesFixpoint` | acl/src/engine.rs:269-272 | iterating the rules from below any closed set ends at a fixpoint inside that set |
| `AclRules.LfpIsLeastFixpoint` | acl/src/engine.rs:269-272 | the derived facts are a fixpoint of the rules and lie inside every set the rules leave closed |
| `AclRules.LfpInUniverse` | acl/src/engine.rs:269-272 | the derived facts mention only what the statements mention |
| `AclRules.RuleOf` | acl/src/engine.rs:195-249 | each kind of consequence comes from the rules that produce that kind |
| `AclRules.LfpSays` | acl/src/engine.rs:201-203 | every stated grant is derived |
| `AclRules.LfpCondition` | acl/src/engine.rs:214-218 | a conditional grant whose condition an authorized grant implies is derived for that grant's actor |
| `AclRules.LfpAuthority` | acl/src/engine.rs:220-224 | a derived grant by the speaker for the root of its label is authorized |
| `AclRules.LfpDelegation` | acl/src/engine.rs:226-238 | a derived grant whose author holds an authorized owner grant above it, or a control grant above it for a controllable permission, is authorized |
| `AclRules.LfpRevocation` | acl/src/engine.rs:240-248 | a revocation of an authorized grant by someone holding an overriding authorized grant takes effect |
| `AclRules.DerivedCanOrigin` | acl/src/engine.rs:201-218 | every derived grant was stated, or was stated under a condition an authorized grant implies and is bound to that grant's actor |
| `AclRules.AuthorizedHasReason` | acl/src/engine.rs:220-238 | every authorized grant was derived and its author is the root's authority, an owner above it, or a controller above it of a controllable permission |
| `AclRules.RevokedHasReason` | acl/src/engine.rs:209-248 | every revocation goes back to a revoke statement for an authorized grant and an authorized grant of the revoker that overrides it |
| `AclRules.AuthorityGrantsAndRevokes` | acl/src/engine.rs:220-248 | a grant stated by the root's authority is authorized, and that authority's revocation of it takes effect |
| `AclRules.OnlyConditionsWithoutGrants` | acl/src/engine.rs:195-249 | without any unconditional statement only conditional grants are derived, so nothing is authorized |
| `AclRules.AuthorizedWasStated` | acl/src/engine.rs:201-238 | without conditional statements every authorized grant was stated as it stands |
| `AclRules.RevokedOnlyIfNamed` | acl/src/engine.rs:209-248 | only a revoke statement that names a grant can revoke it |
| `AclEngine.Rank` | acl/src/engine.rs:25-36 | permissions are ranked with `Own` highest and `Control` next |
| `AclEngine.RankOrder` | acl/src/engine.rs:25-36 | the ranks order `Sync < Read < Write < Control < Own` and tell permissions apart |
| `AclEngine.Controllable` | acl/src/engine.rs:38-45 | a controller may hand out exactly the permissions below `Control` |
| `AclEngine.Semantics` | acl/src/engine.rs:183-249 | the rule engine's reading of permissions: a rank is controllable exactly below `Control`'s, and the control and own thresholds are `Control`'s and `Own`'s ranks |
| `AclEngine.ActorOf` | acl/src/engine.rs:60-67 | a document id becomes that document's actor and a peer id that peer's |
| `AclEngine.Grant` | acl/src/engine.rs:87-90 | a grant holds the actor, the permission's rank and the label given |
| `AclEngine.ImpliesIs` | acl/src/engine.rs:137-145 | a rule implies a request exactly when the actors match (or the request is unbound, or the rule anonymous), the rule's permission is at least the request's and its label an ancestor of the request's |
| `AclEngine.AnyImplies` | acl/src/engine.rs:282-289 | the loop answers yes exactly when some rule implies the request |
| `AclEngine.Engine.constructor` | acl/src/engine.rs:252-255 | a new engine holds no statement |
| `AclEngine.Engine.Says` | acl/src/engine.rs:257-259 | `says` appends a grant by the issuer of the dot |
| `AclEngine.Engine.SaysIf` | acl/src/engine.rs:261-263 | `says_if` appends a conditional grant by the issuer of the dot |
| `AclEngine.Engine.Revokes` | acl/src/engine.rs:265-267 | `revokes` appends a revocation of the named statement by the issuer of the dot |
| `AclEngine.Engine.Rules` | acl/src/engine.rs:269-280 | the rules are exactly the authorized grants whose statement is not revoked |
| `AclEngine.Engine.Can` | acl/src/engine.rs:282-289 | `can` answers yes exactly when the statements so far allow the request |
| `AclEngine.RootStatementRules` | acl/src/engine.rs:220-224 | without revocations, a grant a document states for its own root is a rule |
| `AclEngine.AllowedBy` | acl/src/engine.rs:282-289 | an authorized, unrevoked grant that implies a request allows it |
| `AclEngine.DeniedUnless` | acl/src/engine.rs:282-289 | a request no authorized, unrevoked grant implies is denied |
| `AclLabels.RootOf` | acl/src/data.rs:220-228 | a label's root document's root label is an ancestor of the label |
| `AclLabels.AncestorShape` | acl/src/data.rs:301-305 | an ancestor is no deeper and shares the root, and one of equal depth is the label itself |
| `AclLabels.AncestorTransitive` | acl/src/data.rs:301-305 | ancestry is transitive |
| `AclLabels.AncestorAntisymmetric` | acl/src/data.rs:301-305 | two labels each an ancestor of the other are equal |
| `AclLabels.AncestorRendersPrefix` | acl/src/data.rs:301-305 | every real ancestor passes the check on rendered labels |
| `AclLabels.SiblingPassesAsWritten` | acl/src/data.rs:301-305 | the check on rendered labels accepts field `b` as an ancestor of its sibling `bc`, which is not one |
| `AclEngineTests.LocalOnlyRoot` | acl/src/engine.rs:318-331 | of the two grants document 9 states, only the one on its own root is authorized |
| `AclEngineTests.LocalAuthorityGrants` | acl/src/engine.rs:318-331 | peer `a` may write and read anywhere in document 9 but not own it, peer `b` may not read it, and the grant on document 42 has no effect |
| `AclEngineTests.ConditionUnmet` | acl/src/engine.rs:334-341 | before its condition holds, a conditional grant gives nothing |
| `AclEngineTests.ConditionMet` | acl/src/engine.rs:343-358 | once document 42 grants peer `a` Write, the conditional grant lets peer `a` read document 9, whether it named peer `a` or was unbound |
| `AclEngineTests.ControlCannotGrantOwn` | acl/src/engine.rs:362-371 | a controller's grant of ownership is never authorized |
| `AclEngineTests.ControlDenies` | acl/src/engine.rs:362-371 | so peer `c` may not read the field |
| `AclEngineTests.ControlGrantsRead` | acl/src/engine.rs:373-377 | a controller's grant of Read is authorized, so peer `c` may read the field |
| `AclEngineTests.OwnerGranted` | acl/src/engine.rs:381-384 | a document's grant of ownership of its root is in force |
| `AclEngineTests.OwnerRevoked` | acl/src/engine.rs:385-386 | once the document revokes it, the grant gives nothing |
| `AclEngineTests.ChainBothOwn` | acl/src/engine.rs:390-394 | an owner's grant of ownership makes a second owner |
| `AclEngineTests.ChainRevoked` | acl/src/engine.rs:395-396 | the document's revocation of the second owner's grant takes effect |
| `AclEngineTests.ChainSelfRevokeFails` | acl/src/engine.rs:400-406 | the second owner cannot revoke the grant that made it an owner: it holds the same permission at the same label as its grantor and is no authority |
| `AclEngineTests.ChainSelfRevoke` | acl/src/engine.rs:400-406 | so both owners keep their ownership |
| `AclEngineTests.NothingByDefault` | acl/src/engine.rs:410-412 | without statements nothing is allowed |
| `AclEngineTests.AnonymousReads` | acl/src/engine.rs:413-417 | a grant to anyone lets peer `a` read |
| `DocAcl.Rank` | crdt/src/acl.rs:31-41 | permissions are ranked with `Own` highest, then `Control`, with `Read` lowest |
| `DocAcl.Semantics` | crdt/src/acl.rs:205-279 | the rule engine's reading of permissions: a rank is controllable exactly below `Control`'s, and the control and own thresholds are `Control`'s and `Own`'s ranks |
| `DocAcl.RankInjective` | crdt/src/acl.rs:31-41 | the ranks tell permissions apart |
| `DocAcl.Controllable` | crdt/src/acl.rs:42-50 | a controller may delegate exactly the permissions below `Control` |
| `DocAcl.ActorOf` | crdt/src/acl.rs:73-80 | a peer becomes that peer's actor and no peer means anybody, never an unbound actor |
| `DocAcl.RootOf` | crdt/src/acl.rs:149-151 | a grant's root is the document of its path's first segment, and a path without one has none |
| `DocAcl.Grant` | crdt/src/acl.rs:103-106 | a grant holds the actor, the permission's rank and the path given |
| `DocAcl.ImpliesIs` | crdt/src/acl.rs:153-161 | a rule implies a request exactly when the actors match (or the request is unbound, or the rule is for anybody), the permission is at most the rule's and the rule's path is an ancestor of the request's |
| `DocAcl.AncestorPreorder` | crdt/src/path.rs:455-458 | path ancestry is reflexive and transitive |
| `DocAcl.AncestorBelowDoc` | crdt/src/acl.rs:336-348 | below one document, ancestry of whole paths is ancestry of what follows the document segment |
| `DocAcl.KeyBytesInjective` | crdt/src/acl.rs:313-325 | two entry keys are equal exactly when their bytes are |
| `DocAcl.KeyHead` | crdt/src/acl.rs:337-340 | an entry key's bytes start with its document and peer, which is the prefix `implies` scans |
| `DocAcl.KeyOf` | crdt/src/acl.rs:313-321 | `add_rule` keys a grant by its root document, its peer (the zero peer for anybody) and the path after the document |
| `DocAcl.Unrevoked` | crdt/src/acl.rs:327-334 | exactly the entries whose statement is not revoked stay, unchanged |
| `DocAcl.PermitsWeaker` | crdt/src/acl.rs:336-363 | a permitted permission permits every weaker one |
| `DocAcl.PermitsBelow` | crdt/src/acl.rs:336-363 | a permission on a path is permitted on every path below it |
| `DocAcl.PermitsMonotone` | crdt/src/acl.rs:336-363 | more or stronger entries only permit more |
| `DocAcl.Acl.constructor` | crdt/src/acl.rs:299-301 | a new table holds the entries of the tree given |
| `DocAcl.Acl.AddRule` | crdt/src/acl.rs:313-325 | `add_rule` writes the rule under its grant's key, replacing whatever was there, and changes nothing else |
| `DocAcl.Acl.RevokeRules` | crdt/src/acl.rs:327-334 | `revoke_rules` leaves exactly the entries whose statement is not revoked |
| `DocAcl.Acl.Implies` | crdt/src/acl.rs:336-348 | the scan answers yes exactly when an entry of the peer below the document sits on an ancestor of the path with at least the permission |
| `DocAcl.Acl.Can` | crdt/src/acl.rs:350-363 | `can` answers yes exactly when the peer is the document itself, or an entry of the peer or of anybody covers the request |
| `DocAcl.StatementOf` | crdt/src/acl.rs:403-421 | a signed policy path parses exactly when it ends in policy, peer and signature and the policy decodes, into a statement by that peer about the path before the policy |
| `DocAcl.StatementOfPolicyPath` | crdt/src/acl.rs:403-421 | a policy written below a path and signed by a peer is read back as the statement it encodes |
| `DocAcl.InForce` | crdt/src/acl.rs:426-431 | the grants in force are authorizations on paths with a root document |
| `DocAcl.Engine.constructor` | crdt/src/acl.rs:392-397 | a new engine holds no statement and the table given |
| `DocAcl.Engine.AddPolicy` | crdt/src/acl.rs:399-421 | `add_policy` adds the parsed statement, or nothing when the path does not parse, and leaves the table alone |
| `DocAcl.Engine.UpdateAcl` | crdt/src/acl.rs:423-435 | after `update_acl` no entry's statement is revoked, every grant in force has an entry at its key at least as strong, and every entry is an old one or a grant in force |
| `DocAcl.InstallStrongest` | crdt/src/acl.rs:428-432 | the install loop leaves every grant covered by an entry at least as strong, and writes nothing but grants |
| `DocAcl.InstallSources` | crdt/src/acl.rs:428-431 | the install loop as written keeps every previous rule and installs only rules of unrevoked authorized facts, each under its own key |
| `DocAcl.InstallKeeps` | crdt/src/acl.rs:428-431 | after the install loop as written, every unrevoked fact's key holds an unrevoked rule (a later fact may have overwritten an earlier one) |
| `DocAcl.UpdateAsWritten` | crdt/src/acl.rs:423-435 | `update_acl` as written installs unrevoked rules then revokes: no revoked rule remains and every unrevoked fact's key holds a rule |
| `DocAcl.InstalledPermits` | crdt/src/acl.rs:336-363 | an entry at least as strong as a grant in force permits every request the grant implies |
| `DocAcl.SourcedSound` | crdt/src/acl.rs:336-363 | a table built only from grants in force (none for the zero peer or unbound) permits a peer other than the document only what some grant in force implies |
| `DocAcl.OwnAndReadInForce` | crdt/src/acl.rs:423-435 | a document's Own and Read grants to one peer on its root are both in force |
| `DocAcl.OverwriteLosesPermission` | crdt/src/acl.rs:428-432 | installed one after another as written, the later Read grant overwrites the Own entry, so the owner may no longer write |
| `DocAcl.StrongestKeepsPermission` | crdt/src/acl.rs:423-435 | with the strongest entry kept per key, the owner may write |
| `AclData.EmptyHasNoDots` | acl/src/data.rs:76-99 | an empty node holds no dot |
| `AclData.Join` | acl/src/data.rs:101-117 | a join with null yields the other side; otherwise a result has the left side's kind, the two sides having the same kind; the as-written mode fails on null |
| `AclData.CrdtJoin` | acl/src/data.rs:163-167 | the CRDT join succeeds exactly when its data join does, and then its policy keys are the union of both sides' |
| `AclData.Unjoin` | acl/src/data.rs:119-136 | `unjoin` keeps the kind of its input and never adds a table key or struct field |
| `AclData.CrdtEmptyHasNoDots` | acl/src/data.rs:153-161 | an empty document (no data, no policy) holds no dot |
| `AclData.MismatchPanics` | acl/src/data.rs:101-117 | two non-empty nodes of different kinds never join |
| `AclData.StructJoinFields` | acl/src/data.rs:106-114 | a struct join keeps every field of both sides: one-sided fields as they are, shared fields joined |
| `AclData.JoinIdempotent` | acl/src/data.rs:101-117 | with `Null` as the empty node, a node joined with itself is itself |
| `AclData.CrdtJoinIdempotent` | acl/src/data.rs:163-167 | a document joined with itself is itself |
| `AclData.JoinAsWrittenPanics` | acl/src/data.rs:101-117 | as written, a register holding a value cannot be joined with itself, nor `Null` with `Null` |
| `AclData.Say` | acl/src/data.rs:190-194 | a policy delta holds that one policy, no data and an empty context |
| `AclData.SayAsWrittenPanics` | acl/src/data.rs:101-117 | as written, a policy delta never joins into a document whose root is a struct |
| `AclData.SayJoins` | acl/src/data.rs:163-167 | with `Null` as the empty node, a policy delta adds exactly its policy and leaves the data alone |
| `AclData.UnjoinDropsEmpty` | acl/src/data.rs:119-136 | an unjoined table or struct keeps no empty entry |
| `AclData.UnjoinDots` | acl/src/data.rs:119-136 | unjoin keeps exactly the node's dots that are in the difference |
| `AclData.CrdtUnjoinDots` | acl/src/data.rs:169-179 | a document's unjoin keeps exactly its dots that are in the difference, policies included |
| `AclSchema.KindValidates` | acl/src/schema.rs:16-30 | a primitive validates exactly for its own kind |
| `AclSchema.Validate` | acl/src/schema.rs:41-83 | validation accepts exactly the documents whose nodes match the schema tree, with every register value, table key and struct field allowed |
| `AclSchema.Default` | acl/src/schema.rs:85-93 | the default document holds no policy |
| `AclSchema.DefaultIsValid` | acl/src/schema.rs:85-93 | the default document is empty and valid for its schema |
| `AclSchema.MismatchInvalid` | acl/src/schema.rs:41-83 | a node of another kind than the schema's is invalid |
| `AclSchema.JoinPreservesValidity` | acl/src/schema.rs:41-83 | with `Null` as the empty node, two valid documents of one schema join, into a valid document |
| `AclSchema.NullSchemaJoinPanics` | acl/src/schema.rs:43 | as written, the one valid node of a `Null` schema cannot be joined with itself |
| `AclSchema.UnjoinPreservesValidity` | acl/src/schema.rs:41-83 | the part of a valid document that unjoin extracts is valid |
| `AclCursor.Enabled` | acl/src/cursor.rs:46-52 | a flag reads true exactly while it holds a dot, and a non-flag reads nothing |
| `AclCursor.Values` | acl/src/cursor.rs:54-61 | a register reads exactly its values, and a non-register nothing |
| `AclCursor.Bools` | acl/src/cursor.rs:63-72 | the boolean values of a register, the others skipped |
| `AclCursor.U64s` | acl/src/cursor.rs:74-83 | the unsigned values of a register, the others skipped |
| `AclCursor.I64s` | acl/src/cursor.rs:85-94 | the signed values of a register, the others skipped |
| `AclCursor.Strs` | acl/src/cursor.rs:96-105 | the string values of a register, the others skipped |
| `AclCursor.KeyCursor` | acl/src/cursor.rs:107-120 | a cursor moves to a key exactly when the node is a table holding it, onto that entry |
| `AclCursor.FieldCursor` | acl/src/cursor.rs:122-135 | a cursor moves to a field exactly when the node is a struct holding it, onto that field |
| `AclCursor.NavigationDescends` | acl/src/cursor.rs:107-135 | a cursor only moves below its label, within the same document |
| `AclCursor.Writer.constructor` | acl/src/cursor.rs:138-156 | a writer starts from the peer and counter given |
| `AclCursor.Writer.NextDot` | acl/src/cursor.rs:165-169 | each new dot bumps the shared counter and carries its new value |
| `AclCursor.Enable` | acl/src/cursor.rs:172-180 | `enable` yields nothing and draws no dot without Write or on a non-flag; otherwise it draws one dot and yields the enable delta for it |
| `AclCursor.Disable` | acl/src/cursor.rs:183-191 | `disable` yields nothing and draws no dot without Write or on a non-flag; otherwise it draws one dot and yields the disable delta for it |
| `AclCursor.FlagDeltasTakeEffect` | acl/src/cursor.rs:172-191 | joining an enable delta switches the flag on and joining a disable delta switches it off |
| `AclCursor.Assign` | acl/src/cursor.rs:194-207 | `assign` yields nothing and draws no dot unless the value fits the register's kind, the peer may write and the node is a register; otherwise it yields the write delta for a new dot |
| `AclCursor.AssignDeltaValid` | acl/src/cursor.rs:194-207 | an assigned value makes a delta valid for the schema, and once joined the register reads only that value |
| `AclCursor.FieldMut` | acl/src/cursor.rs:248-283 | `field_mut` yields a delta exactly when the schema declares the field, the peer may write and the node is a struct |
| `AclCursor.FieldMutValid` | acl/src/cursor.rs:248-283 | a field delta valid for the field's schema makes a struct delta with that field alone, valid for the struct's schema |
| `AclCursor.KeyMut` | acl/src/cursor.rs:210-245 | `key_mut` yields a delta exactly when the schema is a table whose key kind fits, the peer may write and the node is a table |
| `AclCursor.KeyMutValid` | acl/src/cursor.rs:210-245 | the table delta holds the key alone, and is valid when the callback's delta is valid for the value schema |
| `AclCursor.ActorOf` | acl/src/cursor.rs:286-294 | a peer becomes that peer's actor and no peer means anybody |
| `AclCursor.SayCan` | acl/src/cursor.rs:286-294 | `say_can` yields nothing and draws no dot unless the peer may say the permission; otherwise it yields the policy delta for a new dot |
| `AclCursor.SayCanIf` | acl/src/cursor.rs:297-308 | `say_can_if` yields nothing and draws no dot unless the peer may say the permission; otherwise it yields the conditional policy delta for a new dot |
| `AclCursor.Revoke` | acl/src/cursor.rs:311-314 | `revoke` always draws a dot and yields the revoke policy delta, checking no permission |
| `AclCursor.MaySayNeeds` | acl/src/cursor.rs:286-294 | saying anything needs Control, handing out Own or Control needs Own too, and Control with Own may say anything |
| `CambriaCrdt.EmptyHasNoDots` | cambria/src/crdt.rs:55-78 | an empty node holds no dot |
| `CambriaCrdt.Join` | cambria/src/crdt.rs:80-96 | joining two values of the same kind yields that kind; joining values of different kinds yields null |
| `CambriaCrdt.MismatchEmpties` | cambria/src/crdt.rs:80-96 | nodes of different kinds, or a `Null` on either side, join to `Null` |
| `CambriaCrdt.StructJoinFields` | cambria/src/crdt.rs:85-93 | a struct join keeps every field of both sides: one-sided fields as they are, shared fields joined |
| `CambriaCrdt.JoinIdempotent` | cambria/src/crdt.rs:80-96 | a node joined with itself is itself |
| `CambriaCrdt.UnjoinShape` | cambria/src/crdt.rs:98-115 | an unjoined node keeps its kind, and an unjoined table or struct keeps no empty entry |
| `CambriaCrdt.UnjoinDots` | cambria/src/crdt.rs:98-115 | unjoin keeps exactly the node's dots that are in the difference |
| `CambriaSchema.KindValidates` | cambria/src/schema.rs:15-29 | a primitive validates exactly for its own kind |
| `CambriaSchema.Validate` | cambria/src/schema.rs:40-82 | validation accepts exactly the nodes matching the schema tree, a struct needing every declared field and no other |
| `CambriaSchema.MismatchInvalid` | cambria/src/schema.rs:40-82 | a node of another kind than the schema's is invalid |
| `CambriaSchema.JoinPreservesValidity` | cambria/src/schema.rs:40-82 | two valid nodes of one schema join to a valid node |
| `CambriaSchema.UnjoinDropsRequiredField` | cambria/src/schema.rs:63-68 | unjoin of a valid struct can drop a declared field, leaving an invalid node |
| `CambriaSchema.UnjoinIsValidPart` | cambria/src/schema.rs:40-82 | what unjoin extracts from a valid node is a valid part of it: declared fields only, each valid |
| `CambriaSchema.ValidIsPart` | cambria/src/schema.rs:40-82 | a valid node is a valid part of itself |
| `CambriaLenses.PrimSchema` | cambria/src/lens.rs:64-72 | a primitive kind's schema is the boolean, number or text schema |
| `CambriaLenses.DefaultPrim` | cambria/src/lens.rs:340-355 | the value a lens creates for a primitive kind is of that kind |
| `CambriaLenses.PrimValid` | cambria/src/lens.rs:74-116 | a primitive is valid exactly for its own kind's schema |
| `CambriaLenses.Validate` | cambria/src/lens.rs:74-116 | validation accepts exactly the values the schema describes |
| `CambriaLenses.ReverseInvolutive` | cambria/src/lens.rs:178-201 | reversing twice gives the lens back, so flipping the direction flag reverses the lens |
| `CambriaLenses.Reversible` | cambria/src/lens.rs:203-336 | whenever a lens applies to a schema, its reverse applies to the result and restores it exactly |
| `CambriaLenses.Failures` | cambria/src/lens.rs:203-336 | when `make`, `wrap`, `head` and `convert` apply: `make` on `Null` with a non-null kind, `wrap` always, `head` on a non-empty array, `convert` on the source kind |
| `CambriaLenses.MakeDestroyShape` | cambria/src/lens.rs:203-336 | `Make` succeeds only on a null schema and yields a non-null one; `Destroy` succeeds only on a non-null schema and yields null |
| `CambriaLenses.Lookup` | cambria/src/lens.rs:406-419 | a conversion finds the other side of a pair whose key side is the primitive, and finds nothing when no pair has it |
| `CambriaLenses.TransformValue` | cambria/src/lens.rs:338-427 | the loops transform the value as the lens prescribes |
| `CambriaLenses.ConvertLookup` | cambria/src/lens.rs:407-412 | the lookup loop finds the first pair whose key side is the primitive |
| `CambriaLenses.ConvertedKind` | cambria/src/lens.rs:406-419 | a conversion as intended leaves a primitive of the target kind |
| `CambriaLenses.TransformPreservesValidity` | cambria/src/lens.rs:338-427 | a value valid for a schema is, once transformed as intended, valid for the schema the lens makes of it |
| `CambriaLenses.ConvertAsWrittenBreaksValidity` | cambria/src/lens.rs:406-419 | as written, converting `true` to a number yields the boolean `false`, which the number schema rejects |
| `CambriaLenses.HeadUndoesWrap` | cambria/src/lens.rs:386-395 | `head` undoes `wrap`, on schemas and on values |
| `CambriaLenses.ConvertFreeRef` | cambria/src/lens.rs:138-201 | reversing and applying a stored lens keep it free of conversions |
| `CambriaLenses.ReadingsAgree` | cambria/src/lens.rs:338-427 | without conversions the value transform as written is the intended one |
| `CambriaLenses.AllReversible` | cambria/src/lens.rs:203-336 | every lens is undone by its reverse |
| `CambriaLenses.ToSchema` | cambria/src/lens.rs:442-452 | the schema a lens list builds is the lenses applied in order from `Null`, or the first failure |
| `CambriaLenses.Transform` | cambria/src/lens.rs:454-471 | the lenses between two lists are the reversed suffix of the first after the common prefix, then the suffix of the second |
| `CambriaLenses.TransformReachesTarget` | cambria/src/lens.rs:454-471 | those lenses take the schema the first list builds to the schema the second builds |
| `CambriaLenses.ListPreservesValidity` | cambria/src/lens.rs:338-471 | a lens list that applies to a schema keeps every valid value valid |
| `CambriaLayout.NumberToBytes` | cambria/src/layout.rs:33-37 | a number is stored in 8 bytes |
| `CambriaLayout.NumberFromBytes` | cambria/src/layout.rs:27-31 | 8 bytes read back as a signed 64-bit number |
| `CambriaLayout.NumberRoundTrip` | cambria/src/layout.rs:27-37 | a number survives the trip through its bytes, and any 8 bytes the trip through their number |
| `CambriaLayout.BoolToBytes` | cambria/src/layout.rs:85-90 | a boolean is stored in 8 bytes |
| `CambriaLayout.FromLeZero` | cambria/src/layout.rs:79-83 | a little-endian number is zero exactly when all its bytes are |
| `CambriaLayout.BoolRoundTrip` | cambria/src/layout.rs:79-90 | a boolean survives the trip through its bytes, and bytes read as true exactly when one is non-zero |
| `CambriaLayout.BoolBytesCanonical` | cambria/src/layout.rs:79-90 | only the bytes of `0` and `1` come back unchanged through a boolean |
| `CambriaLayout.SizeOf` | cambria/src/layout.rs:132-138 | sizes are whole slots of 8 bytes, zero only for an object without fields |
| `CambriaLayout.IndexOf` | cambria/src/layout.rs:114-130 | a key's position is where it first occurs |
| `CambriaLayout.KeyOffset` | cambria/src/layout.rs:114-130 | a missing key has no offset, a present one 8 bytes for each key before it |
| `CambriaLayout.IndexUnique` | cambria/src/layout.rs:114-130 | in a list without repetitions a key has one position |
| `CambriaLayout.SlotsFit` | cambria/src/layout.rs:114-138 | different fields of an object have different slots, each ending within the object's size |
| `CambriaLayout.EnumerationSize` | cambria/src/layout.rs:114-138 | an enumeration of a map's keys without repetitions is as long as the map |
| `DocCursor.New` | crdt/src/cursor.rs:24-36 | a new cursor stands at the root of its document, with the peer, schema, store and rules given |
| `DocCursor.ScanAsWrittenCovers` | crdt/src/crdt.rs:284-289 | the byte-prefix scan finds every path below the cursor |
| `DocCursor.Apply` | crdt/src/crdt.rs:484-487 | corrected apply, the one the crate's tests expect: the store afterwards holds exactly the old and new paths the transaction does not expire |
| `DocCursor.Enabled` | crdt/src/cursor.rs:48-62 | `enabled` answers exactly on a flag |
| `DocCursor.Values` | crdt/src/cursor.rs:64-122 | the value readers answer exactly on a register of their kind, and only with values of that kind |
| `DocCursor.KeyCursor` | crdt/src/cursor.rs:124-168 | a key step succeeds exactly on a table keyed by the key's kind, onto the value schema below that key |
| `DocCursor.FieldCursor` | crdt/src/cursor.rs:180-192 | a field step succeeds exactly on a struct declaring the field, failing with "not a struct" or "field doesn't exist" |
| `DocCursor.DescendNarrows` | crdt/src/cursor.rs:124-192 | a cursor moved down stays well formed, sees only paths its parent sees and keeps every permission its parent has |
| `DocCursor.EnableDelta` | crdt/src/cursor.rs:201-217 | `enable` succeeds exactly on a flag the peer may write, adding one unsigned path `path/peer/nonce` with a new nonce and expiring nothing |
| `DocCursor.DisableDelta` | crdt/src/cursor.rs:220-240 | `disable` succeeds exactly on a flag the peer may write, failing with "not a flag" or "unauthorized" |
| `DocCursor.AssignDelta` | crdt/src/cursor.rs:242-298 | `assign` succeeds exactly when the peer may write a register of the value's kind, adding one path with a new nonce and the value |
| `DocCursor.RemoveDelta` | crdt/src/cursor.rs:301-315 | `remove` succeeds exactly when the peer may write, and adds no path |
| `DocCursor.RemoveAsWritten` | crdt/src/cursor.rs:301-315 | `remove` over the byte-prefix scan succeeds exactly when the peer may write, and adds no path |
| `DocCursor.SayDelta` | crdt/src/cursor.rs:317-339 | as written, `say` succeeds exactly when the peer may say the policy there, adding one unsigned path `path/peer/policy` and expiring nothing |
| `DocCursor.MaySayBounds` | crdt/src/cursor.rs:317-329 | an owner may say anything, and saying anything takes at least Control |
| `DocCursor.ScanWhere` | crdt/src/cursor.rs:227-236 | the scan loop collects exactly the paths below the cursor that the selector picks |
| `DocCursor.Disable` | crdt/src/cursor.rs:220-240 | the loop yields the `disable` delta |
| `DocCursor.Assign` | crdt/src/cursor.rs:242-263 | the loop yields the `assign` delta |
| `DocCursor.Remove` | crdt/src/cursor.rs:301-315 | the loop yields the `remove` delta |
| `DocCursor.EnableTakesEffect` | crdt/src/cursor.rs:201-217 | after `enable` the flag reads as enabled |
| `DocCursor.DisableTakesEffect` | crdt/src/crdt.rs:484-487 | under the corrected apply, after `disable` the flag reads as disabled, and only its nonce paths are gone |
| `DocCursor.AssignTakesEffect` | crdt/src/crdt.rs:555-561 | under the corrected apply, after `assign` with a fresh nonce the register holds exactly the new value, and every policy below it survives |
| `DocCursor.RemoveTakesEffect` | crdt/src/crdt.rs:794-803 | under the corrected apply, after `remove` nothing is left below the cursor and nothing else changes |
| `DocCursor.SayTakesEffect` | crdt/src/cursor.rs:317-339 | after `say` as written, its unsigned policy path is stored below the cursor |
| `DocCursor.ApplyAsWritten` | crdt/src/crdt.rs:341-369 | `Crdt::join` as written, for a peer that may write everything: a transmitted path is added unless a tombstone lies at or below it, and a store path is removed exactly when a transmitted tombstone lies two segments below it |
| `DocCursor.ApplyAsWrittenWithoutTombstones` | crdt/src/crdt.rs:341-369 | on a transaction that expires nothing, into a store without tombstones, the join as written and the corrected apply agree |
| `DocCursor.DisableAsWrittenKeepsFlag` | crdt/src/crdt.rs:357-366 | as written, `disable` applied by `Crdt::join` leaves an enabled flag enabled, while the corrected apply disables it |
| `DocCursor.AssignAsWrittenKeepsOld` | crdt/src/crdt.rs:357-366 | as written, `assign` applied by `Crdt::join` leaves the old value beside the new one, while the corrected apply keeps only the new one |
| `DocCursor.AssignAsWrittenScan` | crdt/src/crdt.rs:357-366 | as written, the register keeps the old value's path beside the new one after `assign` |
| `DocCursor.ValuesOfPair` | crdt/src/cursor.rs:64-122 | a register whose two paths end in values of its kind reads exactly those two values |
| `DocCursor.SayAsWrittenUnread` | crdt/src/acl.rs:404-409 | as written, the path `say` stores is never parsed as a statement by the access list, which expects `policy/peer/sig` at the end |
| `DocCursor.SaySigned` | crdt/src/acl.rs:404-409 | corrected `say`: succeeds exactly when `say` does, storing the policy, the peer and its signature below the cursor |
| `DocCursor.SaySignedIsStatement` | crdt/src/acl.rs:404-421 | after the corrected `say`, the access list reads the path back as a statement by the cursor's peer about the cursor's path, a revocation exactly when the policy is one |
| `DocCursor.StrPrefix` | crdt/src/crdt.rs:284-289 | the bytes of key `b` are a prefix of those of a longer sibling key |
| `DocCursor.RemoveAsWrittenDropsSibling` | crdt/src/crdt.rs:284-289 | `remove` of key `b` over the byte-prefix scan also expires a value under a sibling key, which the segment-wise scan keeps |
| `ArrayCursors.ValueFromPath` | crdt/src/cursor.rs:865-896 | a value path parses exactly when it is "VALUES", a position, a uid and at least three more segments, into that uid, position and sixth segment; anything else is "Unexpected layout" |
| `ArrayCursors.MetaFromPath` | crdt/src/cursor.rs:908-945 | a record path parses exactly when it is "META", three numbers and a position, into the uid, last update, last move and position |
| `ArrayCursors.Locate` | crdt/src/cursor.rs:398-460 | a value path locates its element exactly when it starts with "VALUES", a position and a uid |
| `ArrayCursors.LocateExtendsFromPath` | crdt/src/cursor.rs:865-896 | every path the value parser accepts locates the same element |
| `ArrayCursors.Inner` | crdt/src/cursor.rs:379-390 | element reads and writes go through the cursor moved to the element's value path, with the same store, peer and schema |
| `ArrayCursors.LocateReadsElement` | crdt/src/cursor.rs:379-390 | every path written below the element's value path locates the element again |
| `ArrayCursors.MetaRecord` | crdt/src/cursor.rs:373-378 | a position record of the element parses back to its uid, stamps and position |
| `ArrayCursors.ValueEntry` | crdt/src/cursor.rs:379-390 | a value path of the element parses back to its uid, position and value |
| `ArrayCursors.ValuesApartFromMeta` | crdt/src/cursor.rs:373-396 | no value path of the element is a position record |
| `ArrayCursors.FlagElementUnreadable` | crdt/src/cursor.rs:865-896 | as written, an enabled flag element's path fails the value parser though it locates its element |
| `ArrayCursors.Clamp` | crdt/src/cursor.rs:398-400 | the index is clamped to the length and left alone inside it |
| `ArrayCursors.Index` | crdt/src/cursor.rs:170-178 | `index` fails with "not an Array<_>" exactly off an array; on one, an index inside names the element of that value path, and one past the end a new element |
| `ArrayCursors.MovePosition` | crdt/src/cursor.rs:462-500 | the new position of a move lies strictly between the positions around the clamped target and is canonical |
| `ArrayCursors.UpdateLoops` | crdt/src/cursor.rs:619-644 | the loops of `update` yield the update delta |
| `ArrayCursors.Applied` | crdt/src/crdt.rs:595-607 | the corrected apply (`DocCursor.Apply`) on an array cursor's store keeps the array cursor well formed |
| `ArrayCursors.AugmentCommits` | crdt/src/crdt.rs:595-603 | under the corrected apply, after `augment_causal` the inner delta is kept whole and the new record is in force, reading back the element and its position, and an existing element keeps only that record |
| `ArrayCursors.Mutate` | crdt/src/cursor.rs:747-848 | an element write succeeds exactly when the inner cursor's does, with its message otherwise, and adds the position record to the inner delta |
| `ArrayCursors.InnerBelowValue` | crdt/src/cursor.rs:747-848 | every inner delta writes below the element's value path only |
| `ArrayCursors.MutateCommits` | crdt/src/crdt.rs:595-603 | under the corrected apply, an element write commits the element's position, as the only record when the element already existed |
| `ArrayCursors.EnableElement` | crdt/src/cursor.rs:747-755 | `enable` on an element with a fresh nonce leaves its flag enabled |
| `ArrayCursors.Assign` | crdt/src/cursor.rs:766-809 | `assign` on an element succeeds exactly when the peer may write a register of the value's kind, and writes only value paths of that element |
| `ArrayCursors.DeleteLoop` | crdt/src/cursor.rs:599-617 | the loop of `delete` yields the delete delta |
| `ArrayCursors.DeleteTakesEffect` | crdt/src/crdt.rs:605-607 | under the corrected apply, after `delete` the element has neither values nor records, and nothing outside it changes |
| `ArrayCursors.MovedRecordAsWritten` | crdt/src/cursor.rs:530-560 | as written, `move` rewrites a record with the move's stamp but the old position |
| `ArrayCursors.MoveAsWrittenRecordsOldPosition` | crdt/src/cursor.rs:530-560 | as written, the moved element's record names its old position while its value names the new one |
| `ArrayCursors.MovedRecord` | crdt/src/cursor.rs:530-560 | a rewritten record names the new position with the move's stamp |
| `ArrayCursors.Move` | crdt/src/cursor.rs:462-576 | `move` expires every record of the element and its first old value path, writes only at the new canonical position, and fails without a record |
| `JsonPointers.Split` | wasm-ffi/src/api.rs:259-261 | splitting at '/' gives at least one piece and no piece holds a slash |
| `JsonPointers.UnescapeAll` | wasm-ffi/src/api.rs:262 | every token is unescaped, one for one |
| `JsonPointers.New` | wasm-ffi/src/api.rs:254-265 | `new` succeeds exactly on the empty string, which has no tokens, or on a string starting with '/'; anything else is "Invalid pointer" |
| `JsonPointers.Escape` | wasm-ffi/src/api.rs:262 | an escaped token holds no slash, so it survives splitting |
| `JsonPointers.EscapeAll` | wasm-ffi/src/api.rs:262 | escaping a token list escapes every token, one for one, keeping the count |
| `JsonPointers.Format` | wasm-ffi/src/api.rs:254-258 | a formatted pointer is empty exactly when it has no tokens, and otherwise starts with '/' as `new` demands |
| `JsonPointers.FirstPass` | wasm-ffi/src/api.rs:262 | replacing "~1" by "/" in an escaped token restores its slashes and leaves its tildes escaped |
| `JsonPointers.SecondPass` | wasm-ffi/src/api.rs:262 | replacing "~0" by "~" then restores the token |
| `JsonPointers.UnescapeEscape` | wasm-ffi/src/api.rs:262 | the two replacements, in the source's order, undo escaping for every token |
| `JsonPointers.SplitFormat` | wasm-ffi/src/api.rs:259-261 | the pieces after the leading '/' of a formatted pointer are its escaped tokens |
| `JsonPointers.NewFormat` | wasm-ffi/src/api.rs:254-265 | `new` reads back exactly the tokens of every pointer formatted from them |
| `JsonPointers.Decimal` | wasm-ffi/src/api.rs:272-289 | a rendered number is a non-empty run of digits without a sign |
| `JsonPointers.DecimalValue` | wasm-ffi/src/api.rs:272-289 | the digits of a number read back as that number |
| `JsonPointers.ParseUnsigned` | wasm-ffi/src/api.rs:272-290 | an unsigned token parses only to a value inside the integer's range |
| `JsonPointers.ParseI64` | wasm-ffi/src/api.rs:278 | a signed token parses only to a value inside the range of `i64` |
| `JsonPointers.ParseRendered` | wasm-ffi/src/api.rs:272-289 | every number in range renders to a token that parses back to it |
| `JsonPointers.TokenStep` | wasm-ffi/src/api.rs:269-297 | one token moves the cursor to the child the schema has there, fails with "Hit a leaf" below a leaf, and "-" on an array names one past its end |
| `JsonPointers.Goto` | wasm-ffi/src/api.rs:267-300 | the loop of `goto` follows the tokens one by one as the walk function does, stopping at the first failure |
| `JsonPointers.TokenStepRender` | wasm-ffi/src/api.rs:269-297 | the token rendered from a step leads back to that step and child schema |
| `JsonPointers.GotoRender` | wasm-ffi/src/api.rs:267-300 | for every walk along the schema, `goto` on the rendered tokens retraces exactly that walk |
| `JsonPointers.GotoWalks` | wasm-ffi/src/api.rs:267-300 | a successful `goto` takes one step per token, each to a child the schema has |
| `SecretStore.New` | src/secrets.rs:16-20 | the top-level query is 65 zero bytes |
| `SecretStore.Doc` | src/secrets.rs:22-26 | `doc` writes the document id into bytes 0..32 of a copy and leaves every other byte alone |
| `SecretStore.Peer` | src/secrets.rs:28-32 | `peer` writes the peer id into bytes 32..64 of a copy and leaves every other byte alone |
| `SecretStore.Ty` | src/secrets.rs:34-37 | `ty` writes the kind tag into byte 64 of a copy and leaves every other byte alone |
| `SecretStore.BuildersCommute` | src/secrets.rs:22-37 | the builders touch disjoint bytes, so applying any two in either order gives the same query |
| `SecretStore.KeysDistinct` | src/secrets.rs:5-37 | two fully built queries are equal exactly when their document, peer and kind agree |
| `SecretStore.Secrets.constructor` | src/secrets.rs:55-57 | the store starts with the given tree |
| `SecretStore.Secrets.NextNonce` | src/secrets.rs:73-85 | `nonce` answers the stored counter, zero when absent, and stores its successor under the nonce key of the query, changing no other entry |
| `RadixDb.MemStorage.constructor` | crdt/src/radixdb.rs:185-188 | the default storage holds no files |
| `RadixDb.MemStorage.Append` | crdt/src/radixdb.rs:191-202 | an empty chunk changes nothing; otherwise the chunk is appended to the file, which is created when missing, and no other file changes |
| `RadixDb.MemStorage.Load` | crdt/src/radixdb.rs:204-212 | the callback sees the file's bytes, and an empty slice for a missing file, which is not created |
| `RadixDb.MemStorage.Mv` | crdt/src/radixdb.rs:214-228 | moving a file onto itself changes nothing; otherwise a non-empty source replaces the target and is gone, a missing or empty source deletes the target, and no other file changes |
| `RadixDb.Difference` | crdt/src/radixdb.rs:53-62 | `difference_with` keeps exactly the entries whose key the other tree lacks, with their values |
| `RadixDb.Added` | crdt/src/radixdb.rs:53-57 | `added` lists exactly the keys present now and absent before, with their current values |
| `RadixDb.Patch` | crdt/src/radixdb.rs:63-67 | applying a diff sets each changed key to its new value or removes it, keeps every unchanged key and invents no other key |
| `RadixDb.AddedRemovedApart` | crdt/src/radixdb.rs:53-62 | the added and removed keys of a batch are disjoint, and a batch of two equal versions has neither |
| `RadixDb.PatchReplays` | crdt/src/radixdb.rs:53-67 | replaying the added and removed entries on the previous version gives the current one when the versions agree on shared keys |
| `RadixDb.ValueChangeUnseen` | crdt/src/radixdb.rs:53-67 | a key whose value alone changed appears in neither difference, so the replay misses it |
| `SchemaCompiler.ReplaceThenNavigate` | tlfsc/src/lib.rs:129-170 | putting a node where a walk ends and walking again finds it; a second put overrides the first; putting back what was there changes nothing |
| `SchemaCompiler.NavigateSnoc` | tlfsc/src/lib.rs:146-170 | a walk one segment longer takes one more step from where the shorter walk ends |
| `SchemaCompiler.ReplaceSnoc` | tlfsc/src/lib.rs:129-144 | putting a node at a longer walk is putting, at the shorter walk, the node reached with its one child replaced |
| `SchemaCompiler.WrapShape` | tlfsc/src/lib.rs:131-140 | a lens wraps in a path exactly when the path has fields and `{}` only, and the last segment is the innermost layer |
| `SchemaCompiler.WrapSuffixFails` | tlfsc/src/lib.rs:131-140 | a path whose tail cannot be wrapped fails with the tail's error |
| `SchemaCompiler.WrapAppliesAt` | tlfsc/src/lib.rs:129-144 | a wrapped lens applies to a schema exactly when the path reaches a node the bare lens applies to, and then changes that node alone |
| `SchemaCompiler.KindAtDestroys` | tlfsc/src/lib.rs:146-210 | the kind `kind_of` reports is the one `Destroy` needs: destroying succeeds exactly on an emptied node, and `Make` of that kind rebuilds it |
| `SchemaCompiler.KindAt` | tlfsc/src/lib.rs:146-170 | `kind_of` succeeds exactly when the path leads to a schema that is neither null nor an array |
| `SchemaCompiler.RulePlan` | tlfsc/src/lib.rs:172-240 | a rule plans one or two lens steps, each at a prefix of its path; a declared kind ends with `Make` of that kind at the path; a rule without a kind needs a path ending in neither a field nor a table value |
| `SchemaCompiler.RunTwo` | tlfsc/src/lib.rs:172-240 | a rule of two lenses adds the first and then the second to the schema the first left |
| `SchemaCompiler.RunPlanReplays` | tlfsc/src/lib.rs:129-240 | the wrapped lenses a rule pushes, applied in order to the schema before it, give the schema after it |
| `SchemaCompiler.AddLensAt` | tlfsc/src/lib.rs:129-144 | adding a lens at a path succeeds exactly when the path reaches a node the lens applies to, and puts the transformed node back in its place |
| `SchemaCompiler.FieldSlot` | tlfsc/src/lib.rs:187-196 | after a field is set in a struct, the path one field longer reaches it, and putting a node there sets the field |
| `SchemaCompiler.FieldRuleDeclares` | tlfsc/src/lib.rs:187-196 | `.a.f: K` applies exactly when `.a` is a struct without `f` and `K` is not null, and then declares `f` at `.a` with the empty schema of kind `K` |
| `SchemaCompiler.RemovePlan` | tlfsc/src/lib.rs:204-210 | `.a.f.remove()` adds `Destroy` of the kind at `.a.f`, then `RemoveProperty(f)` at `.a`, and fails when `kind_of` does |
| `SchemaCompiler.RemoveSteps` | tlfsc/src/lib.rs:204-210 | the two lenses of a remove succeed on a struct holding `f` exactly when `f` holds an emptied node, and drop `f` |
| `SchemaCompiler.RemoveRuleDrops` | tlfsc/src/lib.rs:204-210 | `.a.f.remove()` applies exactly when `.a` is a struct whose field `f` holds an emptied node, and then `.a` loses `f` and nothing else changes |
| `SchemaCompiler.Ty` | tlfsc/src/lib.rs:291-311 | the loop of `ty` over the identifiers, last first, gives the kind the type reading defines, and an error where the source panics |
| `SchemaCompiler.TyReadsTypeName` | tlfsc/src/lib.rs:291-311 | every non-null kind is read back from its written type name (`MVReg<k>`, `Table<k>`, `EWFlag`, `Struct`, `Array`), and null has none |
| `SchemaCompiler.Invocation` | tlfsc/src/lib.rs:266-289 | the loop of `invocation` over the identifiers gives the operation the call reading defines, and an error where the source panics |
| `SchemaCompiler.InvocationReadsSpelling` | tlfsc/src/lib.rs:266-289 | `remove()`, `hoist()`, `rename(x)` and `plunge(x)` read back as those operations whatever the argument, and no call reads as a field or `[]`/`{}` |
| `SchemaCompiler.SchemaBuilder.constructor` | tlfsc/src/lib.rs:97-102 | a builder starts with no version open, the null schema and no lenses or versions |
| `SchemaCompiler.SchemaBuilder.StartVersion` | tlfsc/src/lib.rs:105-107 | `start_version` opens the version and changes nothing else |
| `SchemaCompiler.SchemaBuilder.EndVersion` | tlfsc/src/lib.rs:109-112 | `end_version` records the open version with the lens count so far as a `u32` and closes it, and fails with none open |
| `SchemaCompiler.SchemaBuilder.PushKeepsValid` | tlfsc/src/lib.rs:129-144 | pushing a lens that takes the schema to `t` keeps the lens list building the schema from null |
| `SchemaCompiler.SchemaBuilder.AddLens` | tlfsc/src/lib.rs:129-144 | `add_lens` succeeds exactly when the wrapped lens applies, then takes the schema to the result and pushes the wrapped lens; on failure the schema is unchanged, and the lens list always builds the schema |
| `SchemaCompiler.SchemaBuilder.KindOf` | tlfsc/src/lib.rs:146-170 | `kind_of` walks the schema along the path and names the kind of the node reached, failing where the source panics |
| `SchemaCompiler.SchemaBuilder.AddAll` | tlfsc/src/lib.rs:172-240 | adding the lenses of a rule in order succeeds exactly when every one applies, and extends the lens list by them |
| `SchemaCompiler.SchemaBuilder.Rule` | tlfsc/src/lib.rs:172-240 | `rule` succeeds exactly when its lenses apply in order, taking the schema through them and pushing them; the open version is untouched |
| `SchemaCompiler.SchemaBuilder.SchemaVersion` | tlfsc/src/lib.rs:114-127 | `schema_version` runs the version's rules in order and records the version with the lens count reached, failing when a rule does |
| `SchemaCompiler.SchemaBuilder.SchemaVersions` | tlfsc/src/lib.rs:57-70 | compiling a list of versions succeeds exactly when the step-by-step compilation does, records one version per input in order, and on success holds the compiled schema with the compiled lenses appended |
| `SchemaCompiler.VersionsAdvance` | tlfsc/src/lib.rs:57-70 | the version loop, having reached version `i`, continues from that version's result with its lenses appended |
| `SchemaCompiler.VersionsFail` | tlfsc/src/lib.rs:57-70 | a failing version makes the whole list fail |
| `SchemaCompiler.VersionAdvance` | tlfsc/src/lib.rs:114-127 | the rule loop of one version, having reached rule `i`, continues from that rule's result with its lenses appended |
| `SchemaCompiler.VersionFails` | tlfsc/src/lib.rs:114-127 | a failing rule makes the whole version fail |
| `SchemaCompiler.Interpreter.constructor` | tlfsc/src/lib.rs:35-40 | the interpreter starts with no schema open and none stored |
| `SchemaCompiler.Interpreter.StartSchema` | tlfsc/src/lib.rs:43-46 | `start_schema` opens the name with a fresh empty builder and keeps the stored schemas |
| `SchemaCompiler.Interpreter.EndSchema` | tlfsc/src/lib.rs:48-55 | `end_schema` succeeds exactly when a schema is open under a name not yet taken, stores its builder under that name and closes it |
| `SchemaCompiler.Interpreter.Schema` | tlfsc/src/lib.rs:57-70 | `schema` succeeds exactly when the name is new and its versions compile; it then stores under that name alone a fresh builder with the compiled schema and lenses and one recorded version per version, in order; on error nothing is stored |
| `SchemaCompiler.Interpreter.IntoPackages` | tlfsc/src/lib.rs:72-82 | `into_packages` gives one package per stored schema in the map's listing order, with its name, its lenses and their count as a `u32`, and the lenses of each build its schema from null |
| `SchemaCompilerExample.VersionCons` | tlfsc/src/lib.rs:114-127 | a version's first typed rule adds the lenses of that rule and the rest of the version continues from there |
| `SchemaCompilerExample.Step` | tlfsc/src/lib.rs:114-127 | a version reaches its final schema from rule `i` when rule `i` leads to `t` and the rest reaches the final schema from `t` |
| `SchemaCompilerExample.FirstCompiles` | tlfsc/src/lib.rs:318-328 | version 0.1.0 of the todo app compiles from the null schema to a table of todos with a string title and a completion flag |
| `SchemaCompilerExample.SecondCompiles` | tlfsc/src/lib.rs:329-337 | version 0.1.1 compiles from where 0.1.0 ends: the table becomes `tasks`, and after the title's trip through `attrs` and back and the removals the items are as before |

## Definitions

These definitions model source functions without carrying a contract of their own. Each is pinned down by the members named after it, which have rows above.

- `Dots.Cmp` (src/dot.rs:64-71): `Dots.CmpEqualIffEq`, `Dots.CmpAntisymmetric`, `Dots.CmpTransitive`.
- `VClocks.Get`, `VClocks.Intersect`, `VClocks.Difference`, `VClocks.Max`, `VClocks.Applied` (src/clock.rs:108-205): `VClocks.IntersectGet`, `VClocks.DifferenceGet`, `VClocks.MaxOfGets`, `VClocks.AppliedGet`.
- `VClocks.PartialCmp`, `VClocks.Concurrent` (src/clock.rs:45-55, 128-130): `VClocks.PartialCmpMeaning`, `VClocks.ConcurrentMeaning`.
- `Paths.Encode`, `Paths.Segments` (crdt/src/path.rs:302-325, 549-556): `Paths.SegmentsOfEncode`, `Paths.ParentOfEncode`, `Paths.FirstOfEncode`, `Paths.EncodeEmptyIff`.
- `Paths.IsAncestor` (crdt/src/path.rs:455-457): `Paths.AncestorOfExtension`.
- `Paths.Stripped` (crdt/src/path.rs:629-653): `Paths.StrippedOfEncode`, `Paths.StrippedRefuses`, `Paths.StripPrefix`.
- `Paths.Shaped`, `Paths.ElementOf` (crdt/src/path.rs:52-83): `Paths.LastElement`, `Paths.FirstElementOf`, `Paths.LastOfPushed`.
- `Paths.DotOf` (crdt/src/path.rs:498-500): `Paths.DotInjective`.
- `DotSets.Max`, `DotSets.DotOf` (crdt/src/dotset.rs:167-176): `DotSets.MaxMeaning`, `DotSets.FromMapMax`.
- `DotSets.NextAsWritten` (crdt/src/dotset.rs:186-188): `DotSets.NextAsWrittenIsPresent`, `DotSets.NextAsWrittenExample`.
- `DotSets.Inserted`, `DotSets.UnionOf`, `DotSets.Intersection`, `DotSets.Difference` (crdt/src/dotset.rs:145-246): `DotSets.InsertContains`, `DotSets.UnionContains`, `DotSets.IntersectionContains`, `DotSets.DifferenceContains`, `DotSets.OpsWf`.
- `DotSets.FromMap`, `DotSets.IsCausal` (crdt/src/dotset.rs:119-126, 248-254): `DotSets.FromMapContains`, `DotSets.FromMapCausal`, `DotSets.CausalIffFromMap`.
- `DotSets.FromDots` (crdt/src/dotset.rs:82-98): `DotSets.FromDotsContains`.
- `CloudClocks.IntersectAsWritten` (crdt/src/clock.rs:69-82): `CloudClocks.IntersectAsWrittenLosesDot`.
- `CloudClocks.IntersectOf`, `CloudClocks.DifferenceOf` (crdt/src/clock.rs:69-101): `CloudClocks.IntersectOfMeaning`, `CloudClocks.IntersectCommutative`, `CloudClocks.IntersectAssociative`, `CloudClocks.DifferenceOfNormal`.
- `CloudClocks.IsCausal` (crdt/src/clock.rs:27-29): `CloudClocks.CausalIffDownwardClosed`.
- `Stores.CausalJoin` (crdt/src/store.rs:147-161): `Stores.CausalJoinLaws`.
- `Positions.Cmp`, `Positions.IdCmp` (crdt/src/pos_identifier.rs:48-51, 78-83): `Positions.CmpAtWidth`, `Positions.CmpAntisymmetric`, `Positions.IdCmpLaws`, `Positions.IdCmpTransitive`.
- `Positions.BetweenBelowAsWritten` (crdt/src/pos_identifier.rs:98-102): `Positions.BetweenBelowWraps`, `Positions.BetweenBelowAgrees`.
- `Fractions.Canon` (crdt/src/fraction.rs:50-69): `Fractions.CanonCanonical`, `Fractions.CanonDigits`, `Fractions.FromDigits`.
- `PathCrdt.JoinedAsWritten` (crdt/src/crdt.rs:179-186): `PathCrdt.JoinedAsWrittenKeepsKilled`, `PathCrdt.JoinedAsWrittenIdempotent`.
- `PathCrdt.CtxOf` (crdt/src/crdt.rs:166-176): `PathCrdt.CtxMeaning`, `PathCrdt.UnjoinOwnContext`.
- `PathCrdt.UnknownTombstones`, `PathCrdt.UnknownPaths` (crdt/src/crdt.rs:189-205): `PathCrdt.UnknownTombstonesOf`, `PathCrdt.UnknownPathsOf`.
- `PathCrdt.Inserted`, `PathCrdt.Admitted` (crdt/src/crdt.rs:341-369): `PathCrdt.CrdtJoined`, `PathCrdt.Crdt.InsertLive`, `PathCrdt.Crdt.ApplyTombstones`.
- `TypedCrdts.RegJoin` (crdt/src/crdts.rs:127-129): `TypedCrdts.WriteThenRead`, `TypedCrdts.ConcurrentWritesBothRead`.
- `TypedCrdts.FlagMapJoin` (crdt/src/crdts.rs:365-367): `TypedCrdts.UntouchedKeysStay`, `TypedCrdts.ApplyEnable`, `TypedCrdts.ApplyDisable`, `TypedCrdts.RemoveDropsKey`.
- `ORArrays.MetaJoin`, `ORArrays.AllPos` (crdt/src/crdts.rs:198-209): `ORArrays.MetaJoinUpdate`, `ORArrays.JoinStores`, `ORArrays.Join`.
- `Schemas.ValidatePath` (crdt/src/schema.rs:77-108): `Schemas.ValidateSplit`, `Schemas.ValidatePathOfEncode`, `Schemas.LeafPaths`, `Schemas.InnerPaths`.
- `Schemas.ValidatePolicy`, `Schemas.VerifySig` (crdt/src/schema.rs:111-128): `Schemas.PolicyOfEncode`, `Schemas.VerifySigOfEncode`.
- `Schemas.StorePathValid`, `Schemas.ExpiredPathValid` (crdt/src/schema.rs:50-75): `Schemas.StorePathOfEncode`, `Schemas.ExpiredPathOfEncode`, `Schemas.Validate`.
- `Lenses.ToRef`, `Lenses.Reverse`, `Lenses.MaybeReverse` (crdt/src/lens.rs:60-109): `Lenses.ReverseInvolutive`, `Lenses.ToSchema`.
- `Lenses.TransformSchema` (crdt/src/lens.rs:111-222): `Lenses.MakeDestroyShape`, `Lenses.Reversible`, `Lenses.Failures`, `Lenses.AllReversible`.
- `LensLists.TransformOf` (crdt/src/lens.rs:111-222): `LensLists.Transform`, `LensLists.TransformReachesTarget`.
- `DocAcl.Permits`, `DocAcl.Covers` (crdt/src/acl.rs:336-363): `DocAcl.Acl.Can`, `DocAcl.Acl.Implies`, `DocAcl.PermitsWeaker`, `DocAcl.PermitsBelow`, `DocAcl.PermitsMonotone`.
- `DocAcl.PathAncestor` (crdt/src/path.rs:455-457): `DocAcl.AncestorPreorder`, `DocAcl.AncestorBelowDoc`.
- `DocAcl.InstallAsWritten` (crdt/src/acl.rs:423-435): `DocAcl.InstallSources`, `DocAcl.InstallKeeps`.
- `DocCursor.Scan`, `DocCursor.ScanAsWritten` (crdt/src/crdt.rs:284-289): `DocCursor.ScanAsWrittenCovers`, `DocCursor.DescendNarrows`, `DocCursor.ScanWhere`.
- `DocCursor.Can` (crdt/src/cursor.rs:43-45): `DocCursor.DescendNarrows`, `DocCursor.MaySayBounds`.
- `ArrayCursors.Insert`, `ArrayCursors.Update`, `ArrayCursors.Augment` (crdt/src/cursor.rs:588-597, 619-658): `ArrayCursors.UpdateLoops`, `ArrayCursors.AugmentCommits`, `ArrayCursors.Mutate`.
- `ArrayCursors.Delete` (crdt/src/cursor.rs:599-615): `ArrayCursors.DeleteLoop`, `ArrayCursors.DeleteTakesEffect`.
- `ArrayCursors.ValuePath`, `ArrayCursors.MetaPath` (crdt/src/cursor.rs:373-396): `ArrayCursors.Inner`, `ArrayCursors.MetaRecord`, `ArrayCursors.ValuesApartFromMeta`.
- `AclRules.Lfp`, `AclRules.Iterate` (acl/src/engine.rs:269-272): `AclRules.LfpIsLeastFixpoint`, `AclRules.IterateReachesFixpoint`, `AclRules.LfpInUniverse`.
- `AclEngine.Allows` (acl/src/engine.rs:282-289): `AclEngine.Engine.Can`, `AclEngine.AllowedBy`, `AclEngine.DeniedUnless`.
- `AclLabels.IsAncestor` (acl/src/data.rs:301-305): `AclLabels.AncestorTransitive`, `AclLabels.RootOf`.
- `AclLabels.IsAncestorAsWritten` (acl/src/data.rs:301-305): `AclLabels.AncestorRendersPrefix`, `AclLabels.SiblingPassesAsWritten`.
- `AclData.Dots`, `AclData.CrdtDots` (acl/src/data.rs:87-99, 158-161): `AclData.EmptyHasNoDots`, `AclData.UnjoinDots`, `AclData.CrdtEmptyHasNoDots`, `AclData.CrdtUnjoinDots`.
- `AclData.CrdtUnjoin` (acl/src/data.rs:169-179): `AclData.CrdtUnjoinDots`, `AclSchema.UnjoinPreservesValidity`.
- `AclSchema.Valid` (acl/src/schema.rs:41-83): `AclCursor.AssignDeltaValid`, `AclCursor.FieldMutValid`, `AclCursor.KeyMutValid`, `AclSchema.DefaultIsValid`.
- `AclCursor.Can`, `AclCursor.MaySay` (acl/src/cursor.rs:41-43, 286-314): `AclCursor.Enable`, `AclCursor.Disable`, `AclCursor.MaySayNeeds`.
- `CambriaCrdt.IsEmpty`, `CambriaCrdt.Dots` (cambria/src/crdt.rs:56-78): `CambriaCrdt.EmptyHasNoDots`, `CambriaCrdt.UnjoinShape`.
- `CambriaCrdt.Unjoin` (cambria/src/crdt.rs:97-114): `CambriaCrdt.UnjoinShape`, `CambriaCrdt.UnjoinDots`, `CambriaSchema.UnjoinIsValidPart`, `CambriaSchema.UnjoinDropsRequiredField`.
- `CambriaSchema.Valid` (cambria/src/schema.rs:40-82): `CambriaSchema.ValidIsPart`, `CambriaSchema.UnjoinIsValidPart`.
- `CambriaLayout.BoolFromBytes` (cambria/src/layout.rs:80-82): `CambriaLayout.BoolRoundTrip`, `CambriaLayout.BoolBytesCanonical`.
- `CambriaLenses.KindOf` (cambria/src/lens.rs:40-46): `CambriaLenses.PrimValid`, `CambriaLenses.ConvertedKind`.
- `CambriaLenses.ToRef`, `CambriaLenses.Reverse`, `CambriaLenses.MaybeReverse` (cambria/src/lens.rs:138-201): `CambriaLenses.ReverseInvolutive`, `CambriaLenses.ConvertFreeRef`.
- `CambriaLenses.TransformSchema` (cambria/src/lens.rs:203-336): `CambriaLenses.ToSchema`, `CambriaLenses.Failures`, `CambriaLenses.TransformPreservesValidity`.
- `CambriaLenses.ValueAfter` (cambria/src/lens.rs:338-422): `CambriaLenses.TransformValue`, `CambriaLenses.TransformPreservesValidity`, `CambriaLenses.HeadUndoesWrap`, `CambriaLenses.ReadingsAgree`.
- `JsonPointers.Unescape` (wasm-ffi/src/api.rs:262): `JsonPointers.UnescapeAll`, `JsonPointers.UnescapeEscape`, `JsonPointers.FirstPass`, `JsonPointers.SecondPass`.
- `JsonPointers.GotoOf` (wasm-ffi/src/api.rs:267-300): `JsonPointers.Goto`, `JsonPointers.GotoRender`, `JsonPointers.GotoWalks`.
- `RadixDb.Changes`, `RadixDb.Removed` (crdt/src/radixdb.rs:53-67): `RadixDb.PatchReplays`, `RadixDb.ValueChangeUnseen`, `RadixDb.AddedRemovedApart`.
- `SecretStore.KeyOf` (src/secrets.rs:18-37): `SecretStore.KeysDistinct`.
- `SchemaCompiler.Navigate`, `SchemaCompiler.Replace` (tlfsc/src/lib.rs:242-264): `SchemaCompiler.ReplaceThenNavigate`, `SchemaCompiler.NavigateSnoc`, `SchemaCompiler.ReplaceSnoc`.
- `SchemaCompiler.Wrap`, `SchemaCompiler.AddLensOf` (tlfsc/src/lib.rs:129-144): `SchemaCompiler.WrapShape`, `SchemaCompiler.WrapSuffixFails`, `SchemaCompiler.WrapAppliesAt`, `SchemaCompiler.AddLensAt`.
- `SchemaCompiler.RuleOf` (tlfsc/src/lib.rs:172-240): `SchemaCompiler.FieldRuleDeclares`, `SchemaCompiler.RemovePlan`, `SchemaCompiler.RemoveRuleDrops`.
- `SchemaCompiler.TyOf`, `SchemaCompiler.InvocationOf` (tlfsc/src/lib.rs:266-311): `SchemaCompiler.TyReadsTypeName`, `SchemaCompiler.InvocationReadsSpelling`.
- `SchemaCompiler.VersionOf`, `SchemaCompiler.VersionsOf` (tlfsc/src/lib.rs:105-127): `SchemaCompiler.VersionsAdvance`, `SchemaCompiler.VersionAdvance`, `SchemaCompiler.VersionFails`.

The remaining definitions without a row are predicates and helpers of the proofs (well-formedness, membership, the fixtures of the access-control and schema-compiler scenarios), not source functions.

## Left out

- `Dots.Inc`: does not model the overflow of the `u64` counter at `counter + 1`; counters are unbounded.
- `Positions.Between`: works on unbounded signed mantissas, so it never wraps. Only the as-written members `Positions.BetweenBelowAsWritten`, `Positions.BetweenAsWritten`, `Positions.IdBetweenAsWritten` and `ORArrays.PlaceAsWritten` reduce the mantissa modulo 2^128, which is where the source's `u128` wraps in release builds; a debug build panics there instead. The other `u128` arithmetic (sums and shifts) is unbounded. The exponent is an unbounded `nat`, while the source keeps it in a `u8`: `r.exponent += 1` (`crdt/src/pos_identifier.rs:130`) overflows once it passes 255, which repeated inserts right after an element at position zero reach, since each takes the right neighbour and adds one to its exponent. That overflow, a panic in debug builds and a wrap to exponent 0 in release builds, is not modelled.
- `Positions.IdBetweenIsStrict`: requires the neighbours' positions to differ. At equal positions the source leaves no room (see "## Findings"). The tie is resolved in `DenseIds`, whose identifiers always have room.
- `ORArrays.PlaceIsBetween`, `ORArrays.InsertPlaces`, `ORArrays.MovePlaces`: require the gap's neighbours to sit at distinct positions (`ORArrays.Room`). `ORArrays` keeps the source's identifiers, so an insert between two elements at the same position is not promised a place between them. `DenseIds` gives the corrected identifiers.
- `Positions`: `Position` orders by value, but its derived equality compares the representation, so (5, 1) and (10, 2) are equal in order and different as values. The model keeps both relations apart and does not reconcile them.
- `SecretStore.Secrets.NextNonce`: the counter wraps at 2^64 as a release build does; a debug build would panic on overflow.
- `SecretStore`: `keypair`, `key`, `key_nonce`, `generate_keypair`, `generate_key` and `add_key` are outside the modelled core. Key generation needs randomness and cryptography. Also, `generate_key` writes eight zero bytes over the key it has just stored.
- Paths: an unknown segment tag makes the source panic (`SegmentType::new`); the model returns `None`. String segments are not checked to be UTF-8.
- `CloudClocks.Clock.RetainPass`: the source visits the cloud in ascending order; the model allows any order. The normal form it reaches is unique either way, and that is what is proved.
- The clock generator of the property tests in `crdt/src/clock.rs` builds clocks whose cloud touches the counter, which are not in normal form. The lattice laws are proved for normal clocks only.
- `crdt/src/clock.rs`, `crdt/src/store.rs`, `crdt/src/crdts.rs` and `crdt/src/pos_identifier.rs` are not compiled into the crate. They are modelled on their own terms.
- `crdt/src/crdts.rs` calls store operations that `crdt/src/store.rs` does not have. `TypedCrdts` therefore gives its types their own joins, over a context that is a set of dots (the `DotSet`, `DotFun` and `DotMap` joins of that file). `Stores` models `crdt/src/store.rs`, whose contexts are counters.
- `Stores.DotMap.Join`: as written, the map join never drops a key whose inner store became empty. The model keeps that behaviour.
- `Stores.CloudCausal.Join`: covers the store join by the clocks' entries (`clock.get`), as the source does, not by their clouds.
- `ORArrays`: `unjoin`, `is_bottom` and `dots` of the array CRDT (`crdt/src/crdts.rs:211-222`) are not modelled. The `Lattice` for identifiers is never reached by the join and is modelled as keep-first.
- `PathCrdt`: `Causal::transform`, `Crdt::transform`, `join_policy`, `watch_path` and the document scan of `Crdt::ctx` are not modelled. They depend on lenses over stored paths, on the signature oracle or on the sled watcher.
- Lenses: `transform_dotstore` and `transform_crdt` in `crdt/src/lens.rs` have empty bodies, so no lens-preserves-validity property is stated for stored data there; it is proved for cambria, whose transform is complete.
- Schemas: signature verification (`verify_sig`) is an oracle parameter, since the cryptography is not modelled. Array validation is `todo!` in the source; the model answers `None` there, as for a path the schema does not allow.
- `DocAcl.Engine.UpdateAcl`: the source skips revoked facts while installing (`crdt/src/acl.rs:428-431`) and then revokes. What goes wrong is the overwrite order: rules are installed in hash-set order, so a weaker rule can overwrite a stronger one under the same key (see "## Findings"). The corrected engine installs the strongest permission per key. `DocAcl.UpdateAsWritten` models the install order as a parameter.
- The ACL crate does not type-check as a whole: its cursor calls `Engine::can` with arguments of a different shape, and its data and engine use different dot types. `AclCursor` reads "peer may do `perm` at `label`" as the engine's `Allows` relation.
- `AclCursor`: the callbacks of `key_mut` and `field_mut` are pure functions of the cursor; their use of the shared nonce counter is not modelled.
- `AclData`: the inner `unjoin` of flags, registers and tables is not in the sources. The model keeps the dots that lie in the difference. `Primitive::join` panics on a register dot present on both sides; the corrected join keeps the first.
- `CambriaLayout`: the unsafe pointer reads of `Ptr` are not modelled. Key offsets take the enumeration of the keys as a parameter.
- `ArrayCursors.Move`: the panic of `.expect("non empty")` is an `Err`.
- `ArrayCursors`: several things are kept as the source has them: after navigation `cursor.path` moves but `array_path` does not; `index` counts value paths, not elements; `assign` writes no position record; the peer segment comes before the nonce.
- `JsonPointers.Goto`: the cursor that `goto` moves is not in these sources, so the model records the steps taken and the schema reached. `usize` is 32 bits, as on wasm32. `bool` tokens read "true" and "false".
- `RadixDb`: the mutex around `MemStorage` and concurrent access are not modelled. `Batch` differences compare keys, so a change of value alone is not seen (`RadixDb.ValueChangeUnseen`). Serializers, file storage and watchers are outside the core.
- `SchemaCompiler`: `tlfsc/src/lib.rs` is written against a newer CRDT crate than `crdt/src/lens.rs`, with `Lens::LensMap` and `Kind::Array`. This lens set has neither, so a `[]` segment and the `Array` type are errors in the model. The pest grammar is not modelled: rules arrive as segment lists and identifier lists. `into_packages` takes the listing order of its hash map as a parameter.
- `SchemaCompiler.SchemaBuilder.EndVersion`: the lens count is reduced modulo 2^32, as its `u32` cast does.
- `dotset2` (the range-set variant of dot sets) is not modelled.
- Documents, their sled backend, futures channels, the network and the FFI layers outside `JsonPointer` are not modelled.
- `Paths.PathBuf.PushLen`, `Paths.PathBuf.Push`, `Paths.PathBuf.PushStr`, `Paths.PathBuf.PushPolicy`, `Paths.PathBuf.PushPosition`: require a content of at most 65535 bytes where `push_len` asserts it (`crdt/src/path.rs:298`). The panic on a longer content is not modelled.
- `DocCursor.FieldCursor`: inherits that bound on the field name from the path it pushes.
- `DocAcl.InForce`: leaves out grants whose label has no root. `CanRef::root` panics on those (`crdt/src/acl.rs:149-151`), and that panic is not modelled.
- `Dots`: a dot's fixed 32-byte encoding is not modelled; a dot is an actor and an unbounded counter.
- `DotSets.FromDots`: unites all dots of an actor. The source's `group_by` groups only adjacent dots of the same actor, and collecting the groups into the map keeps the last group of each actor, so an input not sorted by actor loses dots. The model does not capture that loss.
- `AclData.Join`: a table join keeps a key present on one side only, with its value unchanged.
- `AclCursor.Writer.NextDot`: the writer's counter is unbounded; its `u64` overflow is not modelled.
- `DocAcl.Acl.Can`, `DocAcl.Acl.AddRule`: require a path that starts with a document id. The source panics on any other path (`CanRef::root`, `crdt/src/acl.rs:149-151`), and that panic is not modelled.
- `AclCursor.Values`, `AclCursor.Bools`, `DocCursor.Values`: return sets. The source's iterators yield one item per stored path, in store order, so duplicates and their order are not modelled.
- `CambriaCrdt.Unjoin`: the table's own `unjoin` is not in these sources. The model drops the keys whose entry becomes empty, as the struct does.
- `JsonPointers.Goto`: the errors of `token.parse()` and of the cursor steps carry their own library messages in the source. The model gives short fixed messages ("invalid bool", "invalid integer", "field doesn't exist") and does not model the exact texts.
- `DocCursor.ApplyAsWritten`: leaves out the per-path write check of `Crdt::join` (the peer is taken to be allowed every write). It finds tombstones below a path segment by segment, where the store scans bytes.
- `DocCursor.SaySigned`: the signature is a parameter, since signing is not modelled. Element writes of `ArrayCursors` say through it.

## Findings

| source | as written | input that shows it | evidently intended | confidence | as-written member | corrected member |
|---|---|---|---|---|---|---|
| crdt/src/dotset.rs:184-188 | `next` returns the copy that `Dot::inc` takes before incrementing, so it returns the largest dot held | the set {(i, 1)}: `next(i)` gives (i, 1) | the documented next dot, (i, max + 1) | high, not executed | `DotSets.NextAsWrittenExample` | `DotSets.Next` |
| crdt/src/clock.rs:69-83 | `intersect` matches cloud dots only against the other cloud | a = cloud {(x, 2)}, b = entry x: 3; both contain (x, 2) and the intersection does not | the dots both clocks contain | high, not executed | `CloudClocks.IntersectAsWrittenLosesDot` | `CloudClocks.Clock.Intersect` |
| crdt/src/pos_identifier.rs:99-103 | `between(None, Some(r))` subtracts one from the mantissa | r with mantissa 0: the `u128` wraps and the result lies above r | a position strictly below r | medium, not executed | `Positions.BetweenBelowWraps`, `ORArrays.SecondFrontInsert` | `Positions.Between` |
| crdt/src/pos_identifier.rs:77-94 | `PositionalIdentifier::between` takes the value between the neighbours' positions and orders equal values by dot, so two neighbours at the same position leave no room | x = (position 1, dot (1, 1)), z = (position 1, dot (2, 1)), new dot (3, 1): the new identifier sorts after z, not between x and z | an identifier strictly between any two distinct neighbours | medium, not executed | `Positions.IdBetweenTieExample` | `DenseIds.BetweenIsStrict` |
| crdt/src/store.rs:164-175 | the `DotSet` join keeps a dot when the other side's counter for that peer is higher, not when the other side has seen the dot | a = {(x, 1), (x, 2)} having seen x up to 2; b = {} having seen x up to 1: the join keeps (x, 1) | drop the dots the other side has seen and removed | high, not executed | `Stores.SetJoinAsWrittenKeepsRemoved` | `Stores.SetJoinDropsRemoved` |
| crdt/src/store.rs:177-190 | the `DotFun` join keeps an entry when the other side's counter for that peer is higher, as the `DotSet` join does (also `src/store.rs:88-101`) | f = {(0, 1): 7, (0, 2): 8} having seen 0 up to 2; g = {} having seen 0 up to 1: the join keeps (0, 1), which g has seen and removed | keep only entries the other side holds or has not seen | high, not executed | `Stores.FunJoinAsWrittenKeepsRemoved` | `Stores.FunJoin` |
| crdt/src/crdts.rs:62-78 | `enable` and `disable` put the whole state's context in the delta | a map in which key "a" is enabled: enabling key "b" and joining the delta erases "a" | the delta's context holds only the dots it adds or removes | high, not executed | `TypedCrdts.EnableAsWrittenErasesOtherKeys` | `TypedCrdts.ApplyEnable` |
| acl/src/data.rs:301-305 | `is_ancestor` compares the rendered labels as strings | field `b` is taken as an ancestor of its sibling `bc` | compare the labels segment by segment | high, not executed | `AclLabels.SiblingPassesAsWritten` | `AclLabels.AncestorRendersPrefix` |
| crdt/src/acl.rs:423-435 | `update_acl` installs the rules in hash-set order, so a later rule for the same peer and label overwrites an earlier one | Own and Read granted to one peer at one label: if Read lands last, the owner can no longer write | keep the strongest permission | medium, not executed | `DocAcl.OverwriteLosesPermission` | `DocAcl.StrongestKeepsPermission` |
| acl/src/data.rs:101-117 | `Data::join` panics whenever one side is `Null` | a policy delta (`Null` data) joined into a document whose root is a struct | `Null` is the bottom of the join | high, not executed | `AclData.SayAsWrittenPanics` | `AclData.SayJoins` |
| cambria/src/lens.rs:406-419 | `Convert` looks up the value and then overwrites it with the default of the source kind | a conversion from boolean to number that maps `true` to 1 turns `true` into the boolean `false` | the converted value, of the target kind | high, not executed | `CambriaLenses.ConvertAsWrittenBreaksValidity` | `CambriaLenses.TransformPreservesValidity` |
| crdt/src/crdt.rs:284-289 | `scan_path` matches paths by byte prefix | a table keyed by strings: `remove` of key "b" also expires a value under a sibling key whose bytes start with the encoding of "b" | match whole segments | high, not executed | `DocCursor.RemoveAsWrittenDropsSibling` | `DocCursor.RemoveTakesEffect` |
| crdt/src/cursor.rs:865-896 | `ArrayCursor::new` parses element paths with `ArrayValue::from_path`, which needs a sixth segment | an enabled flag element, whose path ends at the nonce: `index` fails | locate the element by position and uid | medium, not executed | `ArrayCursors.FlagElementUnreadable` | `ArrayCursors.Index` |
| crdt/src/cursor.rs:534-547 | `move` rewrites each position record with the element's old position | moving an element: its record names the old position and its value the new one | the new position, as `crdt/src/crdts.rs` does | high, not executed | `ArrayCursors.MoveAsWrittenRecordsOldPosition` | `ArrayCursors.Move` |
| crdt/src/crdt.rs:179-186 | `Causal::join` unites stores and tombstones and drops only live paths that are themselves expired | a holds path p live; b holds a tombstone two segments below p, which kills p: the join keeps p | the same result as `Crdt::join`, which drops p (the property test `crdt_join` expects equality) | medium, not executed | `PathCrdt.JoinedAsWrittenKeepsKilled` | `PathCrdt.CrdtJoinedAgrees` |
| crdt/src/cursor.rs:229-234 | `disable`, `assign` and `remove` expire the store paths themselves, while `Crdt::join` (crdt/src/crdt.rs:357-366) removes the path two segments above each tombstone | a flag whose one path is `doc/peer/nonce`: `disable` expires that path, the join removes `doc` instead, and the flag still reads enabled | each expired path carries its peer and signature below it, the layout crdt/src/schema.rs:60-62 checks, so the join removes the path itself and the transaction takes effect, as the crate's tests expect (crdt/src/crdt.rs:484-487, 555-561, 605-607) | high, not executed | `DocCursor.ApplyAsWritten`, `DocCursor.DisableAsWrittenKeepsFlag`, `DocCursor.AssignAsWrittenKeepsOld`, `PathCrdt.CrdtJoinedKeepsTombstonedPath` | `DocCursor.Apply`, `DocCursor.DisableTakesEffect` |
| crdt/src/cursor.rs:330-334 | `say` stores the unsigned path `path/peer/policy`, while the access list reads statements from `path/policy/peer/sig` (crdt/src/acl.rs:404-409, and `join_policy` at crdt/src/crdt.rs:319-330) | `say_can` at a document root: the stored path ends in the peer and the policy, and no statement is read from it | the statement is stored where the access list reads it, signed by the peer | high, not executed | `DocCursor.SayDelta`, `DocCursor.SayAsWrittenUnread` | `DocCursor.SaySigned`, `DocCursor.SaySignedIsStatement` |
