# Storj node core in Dafny

This project models the core of an early Storj storage node and its tools.
Each part is a Dafny module, with the properties the code and its tests rely on proved about it.

- **Kademlia routing table.**
  - The table holds an ordered set of bucket ids, where each id is the inclusive upper end of its bucket.
  - It also holds a node store ordered by id and a per-bucket replacement cache.
  - The bit helpers are modelled: `xorTwoIds`, `splitBucket`, `determineDifferingBitIndex` and `determineLeafDepth`.
  - Bucket lookup and ranges are modelled.
  - `addNode` is modelled with bucket splitting and the replacement cache, along with `removeNode` and `updateNode`.
  - `createOrUpdateKBucket` is modelled.
  - `sortByXOR` is modelled as an in-place insertion sort on an array.
- **Node `Query` handler.** Ping the sender back, report the outcome to the routing table, then answer with `FindNear`. Every call made is recorded in a trace.
- **Erasure-decode bookkeeping.**
  - `Decode` validation and the decoded size are modelled.
  - `decodedReader.Read` is modelled: it drains its output buffer, filters piece errors and keeps a sticky end-of-stream flag.
  - `Close` is modelled with its first-error rule.
- **Test node ids.** `fit` padding and truncation, and the id builders over bytes and strings.
- **Pointer DB server.**
  - `Put`, `Get` and `Delete` are modelled with the API-key check and error mapping.
  - `List` is modelled over a sorted key/value store: prefix, recursive collapsing, exclusive bounds, limit, `More`, and meta flags.
- **Overlay cache.** `Get`, `GetAll` and `Put` over a key/value store that counts its calls.
- **`uplink cp` path rules.**
  - `cleanAbsPath` is modelled, over a model of Go's Unix `filepath.Clean`, `Join` and `Base`.
  - The argument dispatch of `copyMain` is modelled.
  - The destination-name default of `upload`, `copy` and `download` is modelled.
- **Signing encoders.**
  - The fields `EncodeOrderLimit`, `EncodeOrder` and `EncodePieceHash` put into the signed message are modelled.
  - So is the clear-and-restore of the signature in `EncodeVoucher` and `EncodeStreamID`.
- **TLS file options.**
  - Path naming from base names and the client flag.
  - `EnsureAbsPaths`.
  - The create or not-exist decision of `EnsureExists`, over an abstract set of files.

Modelling choices:

- **Ids.** Kademlia ids are modelled as integers below 0x10000: the first two bytes of a node id, which are the bytes the routing-table tests compare. `KadRoutingFixtures.TwoByteIds` proves that the 0x01 padding of the test ids changes no XOR.
- **Map iteration.** A Go `map` ranged over in an unspecified order is given as an `order` sequence that lists every key once.
- **External operations.** These are parameters:
  - protobuf marshalling;
  - the erasure decoder;
  - URL parsing;
  - the store and I/O failures: each store or transfer call is given whether it fails.

## Model

| member | source | states |
|---|---|---|
| KadIds.Distance | pkg/kademlia/routing_helpers_test.go:306-309 | the XOR distance of two ids is zero exactly when the ids are equal |
| KadIds.DistanceSymmetric | pkg/kademlia/routing_helpers_test.go:306-309 | the distance does not depend on argument order |
| KadIds.DistanceIsBytewise | pkg/kademlia/routing_helpers_test.go:306-309 | the distance of two ids is the id built from the XOR of their high bytes and of their low bytes |
| KadIds.XorTwoIds | pkg/kademlia/routing_helpers_test.go:306-309 | xorTwoIds keeps the length, and its result is all zero bytes exactly when the inputs are equal |
| KadIds.XorTwoIdsSymmetric | pkg/kademlia/routing_helpers_test.go:306-309 | xorTwoIds is symmetric |
| KadIds.XorTwoIdsPadded | internal/storj/node.go:28-34 | appending the same padding to both ids only appends zero bytes to their XOR |
| KadIds.XorTwoIdsIsDistance | pkg/kademlia/routing_helpers_test.go:306-309 | byte-wise xorTwoIds of two-byte ids agrees with the integer distance |
| KadIds.XorTwoIdsFixture | pkg/kademlia/routing_helpers_test.go:306-309 | [191] XOR [159] is [32] |
| KadIds.BytesOrderIsNumeric | pkg/kademlia/routing_helpers_test.go:208-211 | byte-wise key order of two-byte bucket keys is numeric id order, in both directions |
| KadIds.DifferingBitIndex | pkg/kademlia/routing_helpers_test.go:698-789 | fails with IdenticalIds exactly for equal ids; otherwise the index lies in -1..15 and is -1 exactly when the ids differ only by zero standing for all-ones |
| KadIds.DifferingBitIndexSymmetric | pkg/kademlia/routing_helpers_test.go:708-719 | the index does not depend on argument order |
| KadIds.DifferingBitIndexMeaning | pkg/kademlia/routing_helpers_test.go:720-743 | with bits counted from the most significant, a non-negative index d is a bit where the ids differ, and they agree on every bit after d: d is the least significant differing bit |
| KadIds.DifferingBitIndexFixturesA | pkg/kademlia/routing_helpers_test.go:708-755 | cases A, B, G and H: 1 both ways for BFFF and FFFF, IdenticalIds for FFFF twice, -1 for FFFF against zero |
| KadIds.DifferingBitIndexFixturesB | pkg/kademlia/routing_helpers_test.go:720-743 | cases C to F: 5FFF gives 2 against 7FFF, 3 against 4FFF, 2 against 3FFF |
| KadIds.DifferingBitIndexFixturesC | pkg/kademlia/routing_helpers_test.go:756-773 | cases I to K: 7FFF, 3FFF and 1FFF give 0, 1 and 2 against zero |
| KadIds.SplitBucket | pkg/kademlia/routing_helpers_test.go:791-837 | splitting never raises a bucket id |
| KadIds.SplitBucketBits | pkg/kademlia/routing_helpers_test.go:791-837 | splitBucket(b, d) clears bit d, counted from the most significant bit, and keeps every other bit |
| KadIds.SplitBucketFixtures | pkg/kademlia/routing_helpers_test.go:791-837 | the split fixtures: FFFF/1 gives BFFF, BFFF/2 gives 9FFF, 00FF/8 gives 007F, 5FFF/4 gives 57FF, and others |
| KadPartition.BucketIndex | pkg/kademlia/routing_helpers_test.go:296-304 | every id falls in some bucket of a well-formed boundary list |
| KadPartition.BucketIndexUnique | pkg/kademlia/routing_helpers_test.go:296-304 | the bucket an id falls in is unique |
| KadPartition.InBucketDisjoint | pkg/kademlia/routing_helpers_test.go:296-304 | no id is in two buckets: the buckets partition the id space |
| KadPartition.KBucketRange | pkg/kademlia/routing_helpers_test.go:588-622 | fails with BucketNotFound exactly for an unknown bucket id; the range's upper end is the bucket id |
| KadPartition.KBucketRangeOfBoundary | pkg/kademlia/routing_helpers_test.go:588-622 | the range is (previous bucket id, bucket id], starting at zero for the first bucket, and an id is in the bucket exactly when it is in that range |
| KadPartition.KBucketRangeFixtures | pkg/kademlia/routing_helpers_test.go:588-622 | with buckets 3FFF, 7FFF, FFFF the ranges are (7FFF, FFFF], (3FFF, 7FFF] and [0, 3FFF] |
| KadPartition.LeafDepth | pkg/kademlia/routing_helpers_test.go:640-696 | the depth lies in 0..16, and an unknown bucket fails with BucketNotFound |
| KadPartition.LeafDepthOfDyadic | pkg/kademlia/routing_helpers_test.go:640-696 | in a binary-trie partition, a bucket of 2^m ids has leaf depth 16 - m |
| KadPartition.LeafDepthFixturesA | pkg/kademlia/routing_helpers_test.go:653-668 | cases A and B: a lone FFFF has depth 0, then 7FFF has depth 1 |
| KadPartition.LeafDepthFixturesB | pkg/kademlia/routing_helpers_test.go:669-676 | case C: with 3FFF, 7FFF, FFFF, bucket FFFF has depth 1 |
| KadPartition.LeafDepthFixturesC | pkg/kademlia/routing_helpers_test.go:677-681 | case D: bucket 7FFF has depth 2 |
| KadPartition.LeafDepthFixturesD | pkg/kademlia/routing_helpers_test.go:682-686 | case E: bucket 3FFF has depth 2 |
| KadPartition.SingleBucketDyadic | pkg/kademlia/routing_helpers_test.go:28-48 | the fresh table's single bucket FFFF is a well-formed binary-trie partition |
| KadPartition.SplitPointOfDyadic | pkg/kademlia/routing_helpers_test.go:119-124 | splitting a bucket at its leaf depth gives the midpoint of its range |
| KadPartition.InsertBoundaryAscending | pkg/kademlia/routing_helpers_test.go:284-294 | adding a bucket id keeps the ids ascending and adds exactly that id |
| KadPartition.InsertBoundaryPresent | pkg/kademlia/routing_helpers_test.go:284-294 | adding an existing bucket id changes nothing |
| KadPartition.InsertBoundaryWellFormed | pkg/kademlia/routing_helpers_test.go:284-294 | adding a bucket id keeps the all-ones bucket last |
| KadPartition.InsertBoundaryAt | pkg/kademlia/routing_helpers_test.go:119-124 | a split point strictly inside bucket i is inserted just before bucket i |
| KadPartition.SplitKeepsDyadic | pkg/kademlia/routing_helpers_test.go:119-124 | splitting a bucket at its midpoint keeps the partition a binary trie, with two halves of half the size |
| KadStore.Find | pkg/kademlia/routing_helpers_test.go:231-282 | a found record is stored and has the id; nothing is found exactly when no record has the id |
| KadStore.IdsFind | pkg/kademlia/routing_helpers_test.go:231-282 | an id is listed in the store exactly when it is found |
| KadStore.PutContents | pkg/kademlia/routing_helpers_test.go:231-254 | put keeps the store sorted, adds the record and replaces any record with the same id |
| KadStore.FindPut | pkg/kademlia/routing_helpers_test.go:231-254 | after put, the id finds the new record, and other ids find what they found before |
| KadStore.DeleteContents | pkg/kademlia/routing_helpers_test.go:256-282 | delete keeps the store sorted and removes exactly the records with the id |
| KadStore.FindDelete | pkg/kademlia/routing_helpers_test.go:256-282 | after delete the id finds nothing, and other ids find what they found before |
| KadStore.InRangeContents | pkg/kademlia/routing_helpers_test.go:479-515 | a range query returns exactly the stored records with lo < id <= hi |
| KadStore.InRangeSorted | pkg/kademlia/routing_helpers_test.go:479-515 | a range query of a sorted store is sorted |
| KadStore.InRangeCountDown | pkg/kademlia/routing_helpers_test.go:256-282 | deleting a stored id inside a range leaves one record fewer in that range |
| KadTable.NewTable | pkg/kademlia/routing_helpers_test.go:28-48 | a new table holds the local node and one bucket, FFFF, which every id falls in |
| KadTable.KBucketId | pkg/kademlia/routing_helpers_test.go:296-304 | an id's bucket is the smallest bucket id at or above it |
| KadTable.NodeIdsWithin | pkg/kademlia/routing_helpers_test.go:479-515 | fails with BucketNotFound exactly for an unknown bucket id |
| KadTable.NodeIdsWithinMembers | pkg/kademlia/routing_helpers_test.go:479-515 | a bucket's ids are exactly the stored ids that fall in it, in ascending order |
| KadTable.HasRoom | pkg/kademlia/routing_helpers_test.go:456-477 | a known bucket has room exactly when it holds fewer than bucketSize records |
| KadTable.ContainsLocal | pkg/kademlia/routing_helpers_test.go:439-454 | true exactly for the bucket whose range holds the local id |
| KadTable.AddToCacheEntry | pkg/kademlia/routing_helpers_test.go:256-282 | the bucket's cache gets the node appended and keeps at most rcBucketSize of the newest entries |
| KadTable.AddToCacheOthers | pkg/kademlia/routing_helpers_test.go:256-282 | adding to one bucket's cache leaves the other buckets' caches unchanged |
| KadTable.AddToCacheBounded | pkg/kademlia/routing_helpers_test.go:256-282 | every cache stays within rcBucketSize |
| KadTable.SplitStep | pkg/kademlia/routing_helpers_test.go:119-124 | a successful split point lies strictly inside the bucket being split |
| KadTable.UpdateNode | pkg/kademlia/routing_helpers_test.go:231-254 | updating fails with NodeNotFound exactly when the id is not stored |
| KadTable.CreateOrUpdateKBucket | pkg/kademlia/routing_helpers_test.go:284-294 | the bucket ids gain exactly the given id, stay well formed, and the nodes and caches are untouched |
| KadTable.SplitStepOfDyadic | pkg/kademlia/routing_helpers_test.go:119-124 | in a binary-trie partition a full bucket of two or more ids always splits at its midpoint, and the result is again a binary trie |
| KadTable.AddNodeOk | pkg/kademlia/routing_helpers_test.go:76-229 | on a binary-trie partition addNode never errs. It keeps the old bucket ids and the settings. Added means stored by id; not added means the node went to its bucket's replacement cache |
| KadTable.AddNodeKeepsValid | pkg/kademlia/routing_helpers_test.go:76-229 | addNode keeps the table well formed and its partition a binary trie |
| KadTable.AddNodeCapacity | pkg/kademlia/routing_helpers_test.go:89-118 | addNode never fills a bucket beyond bucketSize nor a cache beyond rcBucketSize |
| KadTable.AddNodeRoom | pkg/kademlia/routing_helpers_test.go:89-118 | a node whose bucket has room is stored, with result true |
| KadTable.AddNodeSplits | pkg/kademlia/routing_helpers_test.go:119-124 | a full bucket holding the local node is split at its midpoint and the insertion is retried |
| KadTable.AddNodeRetries | pkg/kademlia/routing_helpers_test.go:119-124 | a full bucket holding the local node is split at the computed split point and the insertion is retried |
| KadTable.AddNodeCaches | pkg/kademlia/routing_helpers_test.go:160-165 | a full bucket without the local node is not split: the node is not added and goes to that bucket's replacement cache |
| KadTable.RemoveNodeEffect | pkg/kademlia/routing_helpers_test.go:256-282 | removing an absent id changes nothing. Removing a stored id deletes it and keeps the buckets. The newest cached candidate of its bucket, if any, is promoted and dropped from the cache |
| KadTable.RemoveNodeCapacity | pkg/kademlia/routing_helpers_test.go:256-282 | removal keeps every bucket within bucketSize and every cache within rcBucketSize |
| KadTable.RemoveNodeCacheBounded | pkg/kademlia/routing_helpers_test.go:256-282 | removal keeps every cache within rcBucketSize |
| KadTable.UpdateNodeEffect | pkg/kademlia/routing_helpers_test.go:231-254 | updating a stored node replaces its record only: buckets, caches, other records and bucket counts are unchanged |
| KadRouting.RoutingTable.constructor | pkg/kademlia/routing_helpers_test.go:28-48 | the new table is the one-bucket table holding the local node |
| KadRouting.RoutingTable.GetKBucketId | pkg/kademlia/routing_helpers_test.go:296-304 | the loop over the bucket ids returns the id's bucket |
| KadRouting.RoutingTable.GetNodeIdsWithinKBucket | pkg/kademlia/routing_helpers_test.go:479-515 | returns the bucket's member ids in ascending order, or BucketNotFound |
| KadRouting.RoutingTable.KadBucketHasRoom | pkg/kademlia/routing_helpers_test.go:456-477 | answers whether the bucket holds fewer than bucketSize records |
| KadRouting.RoutingTable.KadBucketContainsLocalNode | pkg/kademlia/routing_helpers_test.go:439-454 | answers whether the bucket's range holds the local id |
| KadRouting.RoutingTable.AddNode | pkg/kademlia/routing_helpers_test.go:76-229 | the in-place addNode leaves the table addNode computes. On a binary-trie partition it never errs and keeps the table valid |
| KadRouting.RoutingTable.RemoveNode | pkg/kademlia/routing_helpers_test.go:256-282 | the in-place removeNode leaves the table removeNode computes, and the table stays valid |
| KadRouting.RoutingTable.UpdateNode | pkg/kademlia/routing_helpers_test.go:231-254 | the in-place updateNode replaces the record, or fails with NodeNotFound and changes nothing |
| KadRouting.RoutingTable.AddToReplacementCache | pkg/kademlia/routing_helpers_test.go:268 | only the named bucket's cache changes: the node is appended and the oldest entries are dropped past rcBucketSize |
| KadRouting.RoutingTable.CreateOrUpdateKBucket | pkg/kademlia/routing_helpers_test.go:284-294 | the bucket id is added to the table's bucket ids |
| KadRouting.AddNodeSteps | pkg/kademlia/routing_helpers_test.go:119-124 | the split-and-retry loop computes addNode, keeping the settings and well-formed bucket ids |
| KadRouting.CollectIds | pkg/kademlia/routing_helpers_test.go:479-515 | the scan over the node store collects the ids of the records in the range, in store order |
| KadRouting.SortByXor | pkg/kademlia/routing_helpers_test.go:311-333 | sortByXOR sorts the keys in place into ascending XOR distance from the pivot, as a permutation of the input |
| KadRouting.DistanceInjective | pkg/kademlia/routing_helpers_test.go:311-333 | two ids at the same distance from a pivot are equal |
| KadRouting.SortedByDistanceUnique | pkg/kademlia/routing_helpers_test.go:311-333 | two orderings of the same keys by distance from a pivot are identical, so the sorted order is unique |
| KadRoutingFixtures.TwoByteIds | pkg/kademlia/routing_helpers_test.go:69-74 | a test id built from two bytes has them as its model id, and its XOR with another is the two-byte XOR followed by zeros |
| KadRoutingFixtures.SortByXorFixture | pkg/kademlia/routing_helpers_test.go:311-333 | sorting 7FFF, 85FF, 8FFF, BFFF, FFFF around 7FFF gives 7FFF, FFFF, BFFF, 8FFF, 85FF |
| KadRoutingFixtures.ExpectedOrderSorted | pkg/kademlia/routing_helpers_test.go:311-333 | the test's expected order 7FFF, FFFF, BFFF, 8FFF, 85FF is ascending in XOR distance from 7FFF |
| KadRoutingFixtures.ContainsLocalFixture | pkg/kademlia/routing_helpers_test.go:439-454 | only bucket FFFF holds local node B7FF |
| KadRoutingFixtures.NodeIdsWithinFixture | pkg/kademlia/routing_helpers_test.go:479-515 | bucket FFFF holds B7FF, bucket 7FFF holds 2FFF and 6FFF, and FF00 is not a bucket |
| KadRoutingFixtures.HasRoomFixture | pkg/kademlia/routing_helpers_test.go:456-477 | the single bucket has room with one record and none with six |
| KadRoutingFixtures.RemoveNodeFixture | pkg/kademlia/routing_helpers_test.go:256-282 | removing BB promotes the cached CC and empties the cache; removing the absent DD changes nothing |
| KadRoutingFixtures.UpdateNodeFixture | pkg/kademlia/routing_helpers_test.go:231-254 | updating BB with address "BB" replaces its record; an unknown node fails |
| KadFixtures.AddNodeFirstFixture | pkg/kademlia/routing_helpers_test.go:89-94 | PO joins the fresh table's bucket FFFF beside OO |
| KadFixtures.AddNodeSplitFixture | pkg/kademlia/routing_helpers_test.go:119-124 | SO splits the full local bucket at 7FFF, 3FFF, 5FFF and 4FFF and joins bucket 5FFF |
| KadFixtures.SplitFixtureStep1 | pkg/kademlia/routing_helpers_test.go:119-124 | adding SO to the full one-bucket table splits it at 7FFF, keeping a binary trie, and the addition then goes on from the split table |
| KadFixtures.SplitFixtureStep2 | pkg/kademlia/routing_helpers_test.go:119-124 | the next split, of bucket 7FFF, is at 3FFF |
| KadFixtures.SplitFixtureStep3 | pkg/kademlia/routing_helpers_test.go:119-124 | the next split, of bucket 7FFF again, is at 5FFF |
| KadFixtures.SplitFixtureStep4 | pkg/kademlia/routing_helpers_test.go:119-124 | the last split, of bucket 5FFF, is at 4FFF |
| KadFixtures.AddNodeCacheFixture | pkg/kademlia/routing_helpers_test.go:160-165 | 8O falls in the full bucket 3FFF without the local node: not added, and cached for 3FFF |
| KadFixtures.AddNodeSecondSplitFixture | pkg/kademlia/routing_helpers_test.go:196-201 | @O splits the full local bucket 4FFF at 47FF and joins the new bucket |
| StorjNodeIds.Fit | internal/storj/node.go:28-34 | fit gives exactly 32 bytes: the prefix of a long input, or a short input followed by 0x01 padding |
| StorjNodeIds.FitBytes | internal/storj/node.go:28-34 | byte i of fit(b) is b[i] where b has one, and 0x01 after |
| StorjNodeIds.FitIdempotent | internal/storj/node.go:28-34 | fitting a fitted id changes nothing |
| StorjNodeIds.NodeIdFromBytes | internal/storj/node.go:5-8 | the id is the bytes, truncated or padded with 0x01 to 32 |
| StorjNodeIds.StringBytesAscii | internal/storj/node.go:10-12 | an ASCII string's bytes are its character codes |
| StorjNodeIds.NodeIdFromString | internal/storj/node.go:10-12 | the id of a string is the id of its UTF-8 bytes |
| StorjNodeIds.NodeIdFromTwoChars | internal/storj/node.go:10-12 | a two-character ASCII name gives its two codes followed by thirty 0x01 bytes |
| StorjNodeIds.NodeIdsFromBytes | internal/storj/node.go:14-19 | the list keeps its length and order, converting each element by NodeIDFromBytes |
| StorjNodeIds.NodeIdsFromStrings | internal/storj/node.go:21-26 | the list keeps its length and order, converting each element by NodeIDFromString |
| NodeServer.Query | pkg/node/server.go:26-54 | no routing table: only that call, an error and an empty response. Without pingback: no ping, then FindNear. A failed ping: ConnectionFailed, then "connection failed" or "could not respond" and no FindNear. A successful ping: ConnectionSuccess before FindNear, and its failure aborts. Success: exactly the FindNear nodes with the request's sender |
| EestreamDecode.Decode | pkg/eestream/decode.go:112-140 | fails on differing sizes exactly when two pieces differ. No pieces give an empty ranger. Otherwise: NotBlockMultiple, then NotEnoughReaders, then a decoded ranger of that size |
| EestreamDecode.SizeScales | pkg/eestream/decode.go:142-145 | the decoded size times the encoded block size is the input size times the decoded block size |
| EestreamDecode.Survivors | pkg/eestream/decode.go:64-75 | the decoder gets exactly the pieces read in full, with their data |
| EestreamDecode.Gather | pkg/eestream/decode.go:55-75 | gathering fails with end-of-stream exactly when some piece hit EOF, and otherwise gives the survivors |
| EestreamDecode.PieceReader.Close | pkg/eestream/decode.go:92-101 | closing marks the piece closed and reports its close error |
| EestreamDecode.FirstErrorIsFirst | pkg/eestream/decode.go:92-101 | the first error is absent exactly when all are absent, and otherwise it is the earliest error in order |
| EestreamDecode.DecodedReader.constructor | pkg/eestream/decode.go:30-41 | a new reader has an empty output buffer and no error |
| EestreamDecode.DecodedReader.Drain | pkg/eestream/decode.go:84-89 | copies min(len p, len outbuf) bytes and leaves the rest of p alone; the unread bytes stay, in order, at the front of a shorter outbuf |
| EestreamDecode.DecodedReader.Read | pkg/eestream/decode.go:43-90 | as written: a non-empty buffer is drained. With a sticky error and an empty buffer it returns (0, nil). Otherwise it refills |
| EestreamDecode.DecodedReader.ReadCorrected | pkg/eestream/decode.go:43-90 | as intended: the same, but with a sticky error it returns (0, that error) |
| EestreamDecode.DecodedReader.Refill | pkg/eestream/decode.go:55-80 | any EOF sets the sticky error and returns it with an empty buffer. Otherwise the buffer is the decoder's output over the survivors, with the decode error passed on |
| EestreamDecode.DecodedReader.Close | pkg/eestream/decode.go:92-101 | every piece reader is closed and the first close error, in iteration order, is returned |
| EestreamDecode.CloseStep | pkg/eestream/decode.go:92-101 | closing one more reader keeps an earlier error and otherwise takes the new one |
| EestreamDecode.StickyEofAsWritten | pkg/eestream/decode.go:44-49 | a first read hits EOF; a second read then returns (0, nil) |
| EestreamDecode.StickyEofCorrected | pkg/eestream/decode.go:44-49 | with the correction the second read returns (0, EOF) again |
| SortedKv.BelowTotal | pkg/pointerdb/pointerdb_test.go:196-207 | byte-wise key order is total and antisymmetric |
| SortedKv.BelowTransitive | pkg/pointerdb/pointerdb_test.go:196-207 | key order is transitive |
| SortedKv.BelowCommonPrefix | pkg/pointerdb/pointerdb_test.go:256-264 | stripping a common prefix keeps key order |
| SortedKv.LookupAt | pkg/pointerdb/pointerdb_test.go:71-111 | every stored entry is found under its key |
| SortedKv.Insert | pkg/pointerdb/pointerdb_test.go:35-69 | storing keeps the store sorted, maps the key to the new value and leaves every other key's value alone |
| SortedKv.Remove | pkg/pointerdb/pointerdb_test.go:113-146 | deleting keeps the store sorted and unmaps exactly the key; deleting an absent key changes nothing |
| PointerDb.Server.Put | pkg/pointerdb/pointerdb_test.go:35-69 | a wrong API key gives Unauthenticated "Invalid API credential" and a store error gives Internal, both leaving the store as it was; otherwise the pointer is stored |
| PointerDb.Server.Get | pkg/pointerdb/pointerdb_test.go:71-111 | a wrong key gives Unauthenticated; a store error gives Internal; otherwise the stored bytes unchanged, or Internal key-not-found |
| PointerDb.Server.Delete | pkg/pointerdb/pointerdb_test.go:113-146 | a wrong key gives Unauthenticated; a store error gives Internal; a missing key gives Internal key-not-found; otherwise the key is removed |
| PointerDb.WholeSegments | pkg/pointerdb/pointerdb_test.go:302-309 | a non-empty prefix is made a whole directory by ending it in "/" |
| PointerDb.UnderLookup | pkg/pointerdb/pointerdb_test.go:256-264 | the prefix-relative view holds key q exactly when the store holds prefix + q |
| PointerDb.UnderSorted | pkg/pointerdb/pointerdb_test.go:256-264 | the prefix-relative view stays sorted |
| PointerDb.BetweenLookup | pkg/pointerdb/pointerdb_test.go:266-300 | StartAfter and EndBefore are exclusive bounds, and an empty bound is none |
| PointerDb.SegmentShape | pkg/pointerdb/pointerdb_test.go:235-244 | the collapsed segment of a deeper path is its first directory ending in "/" |
| PointerDb.SegmentMonotone | pkg/pointerdb/pointerdb_test.go:235-244 | collapsing to segments keeps key order |
| PointerDb.CollapseAscending | pkg/pointerdb/pointerdb_test.go:235-244 | a non-recursive listing of a sorted store is strictly ascending, so each directory appears once |
| PointerDb.CollapseComplete | pkg/pointerdb/pointerdb_test.go:235-244 | every entry's item, or its directory, is in the listing |
| PointerDb.CollapseSound | pkg/pointerdb/pointerdb_test.go:235-244 | every listed item comes from a stored entry |
| PointerDb.CollapseRecursive | pkg/pointerdb/pointerdb_test.go:196-207 | a recursive listing has one item per entry, in order |
| PointerDb.List | pkg/pointerdb/pointerdb_test.go:148-329 | List fails exactly for a wrong API key, with Unauthenticated "Invalid API credential" |
| PointerDb.ListAscending | pkg/pointerdb/pointerdb_test.go:196-207 | a listing of a sorted store is in ascending path order |
| PointerDb.Window | pkg/pointerdb/pointerdb_test.go:246-300 | after prefix and bounds, the entries are sorted and hold q exactly when q is in bounds and prefix + q is stored |
| PointerDb.ListingRecursive | pkg/pointerdb/pointerdb_test.go:196-220 | a recursive listing names exactly the in-bounds stored paths under the prefix, with the pointer exactly when meta flags are set |
| PointerDb.ListingDirectEntries | pkg/pointerdb/pointerdb_test.go:235-244 | a non-recursive listing's non-prefix items are in-bounds stored paths without "/", with the pointer exactly when meta flags are set |
| PointerDb.ListingSubdirectories | pkg/pointerdb/pointerdb_test.go:275-283 | a non-recursive listing's prefix items are "dir/" segments of some in-bounds stored path, without pointer |
| PointerDb.ListingComplete | pkg/pointerdb/pointerdb_test.go:235-283 | every in-bounds stored path under the prefix appears, as itself or as its "dir/" segment |
| PointerDbFixtures.ListRecursiveFixture | pkg/pointerdb/pointerdb_test.go:196-220 | the recursive listing of the seven paths, with pointers exactly when meta flags are set |
| PointerDbFixtures.ListWrongKeyFixture | pkg/pointerdb/pointerdb_test.go:222-223 | a wrong API key is refused |
| PointerDbFixtures.ListLimitFixture | pkg/pointerdb/pointerdb_test.go:225-233 | limit 3 gives the first three paths and More |
| PointerDbFixtures.ListTopLevelFixture | pkg/pointerdb/pointerdb_test.go:235-244 | the top level lists müsic, müsic/, sample.😶 and ビデオ/, with pointers on files only |
| PointerDbFixtures.ListEndBeforeFixture | pkg/pointerdb/pointerdb_test.go:246-254 | ending before ビデオ drops the ビデオ/ directory |
| PointerDbFixtures.ListMusicRecursiveFixture | pkg/pointerdb/pointerdb_test.go:256-264 | the recursive listing under müsic/ gives the four relative paths |
| PointerDbFixtures.ListMusicStartAfterFixture | pkg/pointerdb/pointerdb_test.go:266-273 | starting after album/söng3.mp3 leaves the three songs |
| PointerDbFixtures.ListMusicFixture | pkg/pointerdb/pointerdb_test.go:275-283 | listing müsic/ gives album/ and the three songs |
| PointerDbFixtures.ListMusicAfterSong1Fixture | pkg/pointerdb/pointerdb_test.go:285-291 | starting after söng1.mp3 leaves söng2.mp3 and söng4.mp3 |
| PointerDbFixtures.ListMusicBeforeSong4Fixture | pkg/pointerdb/pointerdb_test.go:293-300 | ending before söng4.mp3 leaves album/, söng1.mp3 and söng2.mp3 |
| PointerDbFixtures.ListPartialSegmentFixture | pkg/pointerdb/pointerdb_test.go:302-309 | the partial prefix müs lists nothing |
| OverlayCache.KvStore.Get | pkg/overlay/cache_test.go:166-188 | one get call. A failing call gives StoreFailed. Otherwise a stored key gives its bytes, and a missing key gives KeyNotFound on the real backends and no value on the mock |
| OverlayCache.KvStore.GetAll | pkg/overlay/cache_test.go:198-323 | one getAll call: StoreFailed when the call fails, otherwise one value or none per key, in key order |
| OverlayCache.KvStore.Put | pkg/overlay/cache_test.go:333-344 | one put call: a failing call gives StoreFailed and stores nothing; otherwise the key maps to the value and every other key is unchanged |
| OverlayCache.Values | pkg/overlay/cache_test.go:198-307 | one entry per key, in order: the stored bytes, or none for a missing key |
| OverlayCache.DecodeAllPositions | pkg/overlay/cache_test.go:198-307 | a decoded GetAll keeps positions: none exactly where the value was missing, otherwise the decoded record |
| OverlayCache.DecodeAllRecords | pkg/overlay/cache_test.go:198-307 | decoding succeeds when every present value decodes |
| OverlayCache.Cache.Get | pkg/overlay/cache_test.go:113-188 | one store get: the store's failure passed on, else the decoded record, an undecodable-record error, or the store's missing-key result |
| OverlayCache.Cache.GetAll | pkg/overlay/cache_test.go:198-323 | no keys gives OverlayError "no keys provided" with no store call. Otherwise one store call: its failure is passed on, and its values are decoded by position |
| OverlayCache.Cache.Put | pkg/overlay/cache_test.go:333-344 | one store put. A failing call's error is returned and nothing is stored. Otherwise no error, and the key holds the encoded node |
| OverlayCache.PutGetRoundTrip | pkg/overlay/cache_test.go:333-344 | with a round-tripping encoding, Get after Put of a node gives the node |
| OverlayCache.GetAllPositions | pkg/overlay/cache_test.go:263-307 | over decodable data GetAll succeeds, giving each stored key's record and none for each missing key, "" included |
| OverlayFixtures.ValidGetFixture | pkg/overlay/cache_test.go:113-138 | a stored key gives its node with one store call, on every backend |
| OverlayFixtures.MissingGetFixture | pkg/overlay/cache_test.go:166-188 | a missing key gives KeyNotFound on Bolt and Redis and no node on the mock |
| OverlayFixtures.MixedGetAllFixture | pkg/overlay/cache_test.go:263-290 | a stored and a missing key give the node and then none, with one store call |
| OverlayFixtures.EmptyKeysFixture | pkg/overlay/cache_test.go:291-307 | two "" keys give two missing entries |
| OverlayFixtures.NoKeysFixture | pkg/overlay/cache_test.go:308-323 | no keys gives the overlay error with no store call |
| OverlayFixtures.PutFixture | pkg/overlay/cache_test.go:551-571 | Put calls the store once, and the stored bytes decode to the node |
| GoPath.SplitJoin | cmd/uplink/cmd/cp.go:35 | joining path elements with "/" and splitting again gives the elements back |
| GoPath.JoinSplit | cmd/uplink/cmd/cp.go:35 | splitting a path on "/" and joining again gives the path back |
| GoPath.RootedCleanForm | cmd/uplink/cmd/cp.go:35 | cleaning a rooted path gives a clean absolute path |
| GoPath.RootedClean | cmd/uplink/cmd/cp.go:35 | a root followed by plain elements is already clean |
| GoPath.CleanIdempotent | cmd/uplink/cmd/cp.go:35 | cleaning a rooted path twice is cleaning it once |
| GoPath.CleanAbsNoTrailing | cmd/uplink/cmd/cp.go:36 | a clean absolute path other than "/" does not end in "/" |
| GoPath.JoinUnder | cmd/uplink/cmd/cp.go:51 | joining a clean absolute path and a plain name appends the name with one "/" |
| GoPath.JoinedBase | cmd/uplink/cmd/cp.go:51 | the base of a path joined with a plain name is that name |
| GoPath.BaseShape | cmd/uplink/cmd/cp.go:51 | a base is never empty and is "/" or holds no "/" |
| UplinkCp.CleanAbsPath | cmd/uplink/cmd/cp.go:33-40 | the result is a rooted path |
| UplinkCp.CleanAbsPathForm | cmd/uplink/cmd/cp.go:33-40 | without a trailing "/", the result is Join("/", path), a clean absolute path. It ends in "/" exactly when the input did or it is "/" |
| UplinkCp.CleanAbsPathIdempotent | cmd/uplink/cmd/cp.go:33-40 | cleaning a cleaned path changes nothing |
| UplinkCp.CleanAbsPathEmpty | cmd/uplink/cmd/cp.go:33-40 | the empty path cleans to "/" |
| UplinkCp.CleanAbsPathDirectory | cmd/uplink/cmd/cp.go:33-40 | "name/" cleans to "/name/", keeping the trailing slash |
| UplinkCp.DestinationPathForm | cmd/uplink/cmd/cp.go:48-52 | the destination is a clean absolute path. Without a trailing "/" it is the cleaned path; with one, the source's base name is appended and becomes the destination's base |
| UplinkCp.DestinationUnderDir | cmd/uplink/cmd/cp.go:150-154 | joining a directory destination with a plain name gives the directory followed by the name |
| UplinkCp.Upload | cmd/uplink/cmd/cp.go:43-76 | an empty destination scheme gives "Invalid destination" and changes nothing. Otherwise the destination path becomes the default-named destination and the transfer's error is returned |
| UplinkCp.Copy | cmd/uplink/cmd/cp.go:122-164 | an object-store error is returned before the path changes. Otherwise the destination path becomes the default-named destination, from the source path, or from its own cleaned path when both URLs are one object |
| UplinkCp.DownloadTargetName | cmd/uplink/cmd/cp.go:79-91 | downloading into a directory names the file after the source object's base name |
| UplinkCp.Dispatch | cmd/uplink/cmd/cp.go:167-211 | 0 args: "No object specified for copy". 1 arg: "No destination specified". Upload: scheme-less source and a destination host. Download: scheme-less destination and a source host. Copy: both schemes set |
| UplinkCp.DispatchTotal | cmd/uplink/cmd/cp.go:192-211 | with two parsed URLs each command is chosen exactly under its condition, and every other case is "No bucket specified" |
| UplinkCp.NoInvalidSource | cmd/uplink/cmd/cp.go:79-82 | a dispatched download always has a source scheme, so "Invalid source" never happens |
| UplinkCp.CopyMain | cmd/uplink/cmd/cp.go:167-211 | the command returns the dispatch error, or runs the chosen transfer and returns its error together with the default-named destination it targeted |
| SigningEncode.OrderLimitOptionalFields | pkg/auth/signing/encode.go:22-46 | the uplink key and the three times are signed exactly when non-zero, the deprecated uplink id exactly when set and non-zero, and each as it is |
| SigningEncode.TimeFieldDetermines | pkg/auth/signing/encode.go:35-43 | leaving out the zero time loses nothing: equal fields mean equal times |
| SigningEncode.OrderLimitSigningCovers | pkg/auth/signing/encode.go:15-47 | two order limits have the same signed form exactly when they agree on every field but the signature |
| SigningEncode.EncodeOrderLimitCovers | pkg/auth/signing/encode.go:15-47 | the encoding ignores the signature. With an injective marshalling, equal encodings mean the signed fields agree |
| SigningEncode.EncodeOrderCovers | pkg/auth/signing/encode.go:50-62 | an order's encoding depends on its serial number and amount and nothing else |
| SigningEncode.EncodePieceHashCovers | pkg/auth/signing/encode.go:65-80 | the timestamp is signed exactly when non-zero; the encoding depends on piece id, hash, size and timestamp and not on the signature |
| SigningEncode.Unsigned | pkg/auth/signing/encode.go:85-87 | the marshalled message keeps its body and has an empty signature |
| SigningEncode.EncodeSatelliteSigned | pkg/auth/signing/encode.go:83-101 | the message is marshalled with its signature cleared, and afterwards it is exactly as before |
| SigningEncode.UnsignedIgnoresSignature | pkg/auth/signing/encode.go:83-101 | messages differing only in signature encode alike |
| SigningEncode.EncodeTwice | pkg/auth/signing/encode.go:83-101 | encoding twice gives the same bytes and leaves the message unchanged |
| PeerTlsOptions.Required | pkg/peertls/tls_test.go:155-165 | four distinct required roles: root cert and key, plus client or leaf cert and key by the client flag |
| PeerTlsOptions.AbsKeepsBase | pkg/peertls/tls_test.go:167-178 | making a plain name absolute gives a clean absolute path with the same base name |
| PeerTlsOptions.MissingNone | pkg/peertls/tls_test.go:410-448 | nothing is missing exactly when every required path exists; every missing path is required and absent |
| PeerTlsOptions.MakeAbsolute | pkg/peertls/tls_test.go:141-185 | either a required role with an empty relative path is reported, or every required role gets the absolute form of its relative path; other roles keep their paths |
| PeerTlsOptions.TlsFileOptions.EnsureAbsPaths | pkg/peertls/tls_test.go:141-185 | succeeds exactly when every required relative path is non-empty, then setting each absolute path. Otherwise it names an empty role. Other settings are unchanged |
| PeerTlsOptions.TlsFileOptions.MissingFiles | pkg/peertls/tls_test.go:410-448 | the scan returns the required paths that do not exist |
| PeerTlsOptions.TlsFileOptions.EnsureExists | pkg/peertls/tls_test.go:284-331 | with Create, and Overwrite or a missing file, every required file is written. Otherwise missing files give NotExist, and when none is missing nothing is written. The leaf or client certificate is set exactly when there is no error. With Create all required files exist afterwards |
| PeerTlsOptions.RelPathsNamed | pkg/peertls/tls_test.go:89-122 | the relative paths are base.root.cert, base.root.key and base.client.* or base.leaf.* by the client flag, all non-empty |
| PeerTlsOptions.NewTlsFileOptions | pkg/peertls/tls_test.go:66-139 | the paths are named from the bases and the settings echoed. Each required path is made absolute. It succeeds exactly with Create or when no required file is missing, and otherwise fails with NotExist naming the missing files. The client or leaf certificate is set exactly when it succeeds. With Create all required files exist |
| PeerTlsFixtures.NewTlsFileOptionsFixture | pkg/peertls/tls_test.go:66-139 | in an empty directory with Create: no error, root and client or leaf paths named from the bases, the certificate set, hosts, client and overwrite echoed |
| PeerTlsFixtures.EnsureAbsPathFixture | pkg/peertls/tls_test.go:141-185 | every required role gets a non-empty absolute path with its relative path's base name |
| PeerTlsFixtures.EnsureExistsCreateFixture | pkg/peertls/tls_test.go:284-331 | with Create every required file exists afterwards |
| PeerTlsFixtures.EnsureExistsLoadFixture | pkg/peertls/tls_test.go:214-225 | with Create but not Overwrite and every required file present: no error, nothing written, and the leaf certificate loaded |
| PeerTlsFixtures.EnsureExistsNotExistFixture | pkg/peertls/tls_test.go:410-448 | without Create, in an empty directory, the result is a not-exist error |

## Left out

- The routing table's implementation file (pkg/kademlia/routing_table.go) is not part of this model. The table is built from the contracts of pkg/kademlia/routing_helpers_test.go, and the rules below are the readings that fit every fixture:
  - the differing-bit index is taken at the lowest differing bit, with a zero argument standing for all-ones;
  - the leaf depth is the differing-bit index against the previous bucket id, plus one;
  - only a full bucket holding the local node is split, at its leaf depth;
  - `updateNode` of an id the table does not hold fails with NodeNotFound (the tests update only a stored node);
  - a split whose point would not fall strictly inside the full bucket fails with CannotSplit. This is reachable only on a bucket-id set that is not a binary trie, such as one made by `createOrUpdateKBucket` with an arbitrary id, and `KadTable.AddNodeOk` proves a binary-trie table never meets it.
- KadTable.AddNode: the source returns (false, nil) for a full bucket without the local node. The model also puts the node in that bucket's replacement cache, the outcome the Kademlia paper (Maymounkov and Mazières, section 2.4) intends.
- Ids are modelled at 16 bits, the two bytes the fixtures compare (`idLength: 16`). Bytes beyond the second take no part in bucket or distance decisions.
- The byte-key form of bucket ids (`keyToBucketID`) is left out. TestCreateFirstBucketID and TestBucketIDZeroValue compare against 0x01-padded ids and are not modelled as asserted.
- TestAddNode only prints the per-bucket member lists, and its replacement-cache check is guarded by a test name that never matches. KadFixtures proves the bucket ids of those cases and the member lists they print instead.
- The nearest-k and furthest-in-k operations (`nodeIsWithinNearestK`, `determineFurthestIDWithinK`) are left out. Their fixtures mix raw two-byte keys with padded ids.
- Node (un)marshalling helpers (`getNodesFromIDs`, `unmarshalNodes`, `getUnmarshaledNodesFromBucket`) are left out. Records are values in the model.
- The bucket timestamps written by `createOrUpdateKBucket` are left out: clocks are not modelled. The routing table's mutex is left out: the model is single-threaded.
- The routing-table failures `Query` reacts to, and the nodes `FindNear` returns, are parameters of `NodeServer.Query`. The network behind them is left out.
- decode.go: the goroutine fan-out and channels in `Read` are left out. The outcome of each piece read is a parameter, and the erasure decoder is a function parameter.
- decode.go: the `int64` arithmetic of `Size` and `Decode` is unbounded in the model.
- EestreamDecode.Decode: erasure schemes are taken to have a positive encoded block size. Go divides by it, and accepts zero only for an empty reader map, where the model also requires it positive.
- pkg/pointerdb/pointerdb.go and the storage backends are not part of this model. The listing semantics are read from the test fixtures:
  - the prefix is made a whole path segment;
  - the bounds are exclusive on prefix-relative paths;
  - the limit takes the first items, and `More` says whether items remain.
- PointerDb.List: meta flags are either none or all. Partial projections of the pointer are not modelled.
- The overlay cache's forced-get-error case applies to the mock only and is not modelled; store failures of the real backends are the `fail` parameter of each store call. The Bolt and Redis backends are one key/value store whose missing-key behaviour is a flag.
- OverlayCache.Cache.Put: protobuf marshalling of a node record is taken never to fail, so a marshal error is not modelled; a store failure is.
- Protobuf marshalling is a function parameter. The overlay round trip assumes it decodes what it encodes. The signing lemmas assume it is injective only where they say so.
- cp.go: `utils.ParseURL`, the bucket store and the object stores are parameters. The file and object I/O are represented by the error they return. Printing is left out.
- cp.go: the `os.Stat` directory check in `download` is a boolean parameter.
- Paths follow Go's Unix path rules; Windows volume names and separators are left out.
- pkg/peertls/tls.go is not part of this model. `EnsureAbsPaths`, `EnsureExists` and `NewTLSFileOptions` are read from pkg/peertls/tls_test.go, over an abstract set of file paths. The readings that fit the tests are:
  - `EnsureAbsPaths` recomputes every required absolute path from its relative path, even one already set, and refuses a required role without a relative path. The tests start from empty absolute paths, and those that set absolute paths never call it;
  - `EnsureExists` loads the certificate from the files when every required file exists and nothing is generated. Loading is taken never to fail.
- Certificate and key generation, loading, and the certificate contents are left out. Only that the leaf or client certificate is set is modelled.
- The `Overwrite` size checks in TestEnsureExists_Overwrite discard their results and are not modelled.
- PeerTlsOptions.AbsKeepsBase: stated for base names without "/", the names the fixtures build. Random test names holding "/" are not covered.
- pkg/pb and pkg/storj are not part of this model. `storj.NodeID` is taken as 32 bytes.

## Findings

| source | as written | input that shows it | evidently intended | confidence | as-written member | corrected member |
|---|---|---|---|---|---|---|
| pkg/eestream/decode.go:47-49 | once the sticky error is set, `Read` with an empty output buffer returns the named result `err`, which is nil, so it returns (0, nil) | a read that meets EOF, then a second read: it returns (0, nil) instead of (0, EOF). A caller loops forever | return the stored error: (0, EOF) on every later read | not executed | EestreamDecode.StickyEofAsWritten | EestreamDecode.StickyEofCorrected |
