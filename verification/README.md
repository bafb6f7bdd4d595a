# OpenZFS send and pool reader: model and proofs

A Dafny model of the parts of the program that decide which bytes a user gets back, and proofs of what those parts
promise each other. Two replays of a send stream (one rewriting a file, one an interval map read on demand) give the
same bytes up to a stated set of offsets; applying increments and extracting from the history differ exactly at
offsets worked out from the records; the checksum tree of an encrypted object is the same built upwards from a send
and checked downwards in a pool; two builders of the authenticated transcript of a dnode block agree; LZNT1 decoding
is exact and cached random access equals the plaintext; block ids reach the right leaf of the indirect tree; and the
stream reader accepts exactly a grammar of correctly summed, located records.

Where a promise fails on some input, the program is modelled as it is: a lemma gives such an input and an
if-and-only-if says exactly when the promise holds.

## Layout

| files | component |
|---|---|
| Bytes, Records | byte sequences, machine integers, send records, decoding parameters |
| Sparse, Replay, Incremental | files written in place, eager replay, incremental apply |
| History, HistoryChains, Resurfacing, SendSegments, HistoryExamples | where apply and extraction from the history differ, for one increment and for many; the offsets read off record headers; which segments of an accepted stream those lie in; files on which they differ |
| Segments, StreamImage, LazyEager, LazyAccepts, SendFile, ImageExamples | interval map, lazy image with its cache, lazy against eager bytes and verdicts, which inputs are read to their end, from file bytes to target bytes, files on which they differ |
| Fletcher, Stream, Framing, SendWriter, SmallSends | checksum, byte-level reader, grammar and offsets, files written and read back, small ones |
| Planning, PlannedReplay | snapshot chains, replays under the plan of their own headers |
| RawLeaves, BlockPointers, Merkle, MerkleTree, MerkleBinding | raw leaves, portable pointers, the checksum tree built, checked and binding |
| Transcript, TranscriptAgreement, DnodeDecryption, TypeZero, TranscriptLoops | both dnode transcripts, their agreement, both decryptions, a block on which they differ, the loops |
| Lznt1, Lznt1Stream, Lznt1Decoder | tokens and serialization, chunk streams, the in-place decoder |
| NtfsRunMap, NtfsCompression, NtfsReads | opening, units as allocated prefixes, cached reads |
| PoolWalk, PoolReads, SectorReads | indirect addressing, pool file reads, sector-widened reads |

Code that changes things step by step is a class or a method with its loop, proved against a recursive function of the
same name family; the theorems are lemmas about those functions. A file is a byte sequence that reads zero past its
end. `None` stands for an error return.

## Model

| member | source | states |
|---|---|---|
| `Sparse.SparseFile.WriteExtent` | src/sparse.rs:22-37 | Writing an extent leaves exactly `Extent` of the old file: chunks of a mebibyte, zero chunks as holes, data chunks overwritten, an error once the position passes 64 bits. |
| `Sparse.ExtentBytes` | src/sparse.rs:22-37 | Whatever mixture of holes and stores its chunks took, a written extent replaces exactly its own bytes, never shrinks the file and never grows it past the extent. |
| `Sparse.ExtentSucceeds` | src/sparse.rs:22-37 | A write fails exactly when a non-empty extent ends past 64 bits. |
| `Sparse.SparseFile.ZeroRange` | src/sparse.rs:39-57 | Freeing a range cuts at the old end, truncates for a length of u64::MAX, and zeroes in place whether or not the platform punches a hole. |
| `Sparse.SparseFile.WriteZeros` | src/sparse.rs:98-110 | The fallback loop zeroes exactly the range. |
| `Sparse.ZeroedBytes` | src/sparse.rs:39-57 | Byte by byte, a freed range reads zero and nothing else changes. |
| `Sparse.SparseFile.CopyFrom` | src/sparse.rs:59-97 | The portable zero-detecting copy reproduces the source file. |
| `Sparse.CopyStep` | src/sparse.rs:83-97 | One round of the copy extends the finished prefix by exactly the bytes just read. |
| `Segments.CutCorrect` | src/inception.rs:1755-1806 | Cutting a range out of a well-formed segment map keeps it well formed and removes exactly that range from the byte-level owner map, keeping both split pieces of an overlapping segment. |
| `Segments.InsertCorrect` | src/inception.rs:1807-1825 | Inserting into a cleared range keeps the map well formed and makes the new block the owner of exactly that range. |
| `Segments.CutIsWellFormed` | src/inception.rs:1755-1806 | Segments stay non-empty and disjoint and inside their block's logical length, so the "points outside its decoded replay block" error cannot occur. |
| `Segments.SegmentMap.Clear` | src/inception.rs:1750-1753 | Clearing leaves no owner. |
| `Segments.SegmentMap.Remove` | src/inception.rs:1755-1806 | Removal succeeds exactly when the range fits 64 bits (u64::MAX means to the end) and refines removal from a map of last writers. |
| `Segments.SegmentMap.Insert` | src/inception.rs:1807-1825 | Insertion refines overwriting in a map of last writers, with its error case and what that case leaves behind. |
| `Replay.ReplaceFileExtent` | src/operations.rs:1023-1033 | An embedded write zeroes its whole length and then stores the shorter payload, or fails on overflow or a longer payload. |
| `Replay.ReplayObject` | src/operations.rs:845-928 | The eager record loop succeeds exactly when the recursive definition of a replay does and leaves exactly its bytes; plain and raw sends. |
| `Replay.ReplayBody` | src/operations.rs:880-919 | One record of a selected substream does to the file what the definition says, for every record kind. |
| `Replay.Extract` | src/operations.rs:168-179 | Extraction is the replayed file cut or zero-extended to the logical size. |
| `StreamImages.IndexBody` | src/inception.rs:1915-1998 | One record does to the segment map, keys and flags what the definition of lazy replay says. |
| `StreamImages.Index` | src/inception.rs:1867-2012 | The indexing loop succeeds exactly when the definition does and ends with its owner map and keys. |
| `StreamImages.Build` | src/inception.rs:1867-2012 | An opened image owns exactly the indexed blocks and starts with an empty, valid cache. |
| `StreamImages.IdsAreUnique` | src/inception.rs:1941-1977 | Over any run, two different replay blocks never carry one descriptor id. |
| `StreamImages.StreamImage.Decode` | src/inception.rs:2014-2090 | Decoding through the one-block cache equals decoding without it, over every sequence of reads. |
| `StreamImages.StreamImage.ReadExactAt` | src/inception.rs:2098-2129 | A positioned read succeeds exactly when it lies in the file and every block it meets decodes; it then returns, byte by byte, the owner's byte or zero. |
| `LazyEager.LazyMasksStaleBytes` | src/inception.rs:1867-2129 | For every send file both replays accept, each extracted byte is the one stored for the block the image reads there, or for the block it was dropped from, or zero; and the image decodes each block to what extraction stored for it, unless the block's substream and the plan disagree on being raw. |
| `LazyEager.LazyEqualsEagerIff` | src/inception.rs:1915-1938 | For every such file a full read of the image succeeds and equals extraction if and only if no offset below the logical size was dropped from a block that stored a non-zero byte there, and every block there of a substream that disagrees with the plan on being raw decodes to the stored bytes. |
| `LazyEager.TypeStableLeavesNothingStale` | src/inception.rs:1915-1938 | If the object's type changes only across a FREEOBJECTS nothing is stale. |
| `LazyEager.LazyEqualsEager` | src/operations.rs:880-919 | So it does when the substreams agree with the plan on being raw and the object's type changes only across a FREEOBJECTS. |
| `ImageExamples.TypeChangeDiffers` | src/inception.rs:1915-1938 | A send file, read back record by record and planned from its own header, on which both replays succeed and differ, because the lazy side clears on a type change and the eager side does not. |
| `LazyAccepts.OpensIff` | src/inception.rs:1867-2012 | A send file that extraction accepts opens as an image if and only if every raw substream unlocks and holds no embedded block of the target, every WRITE follows an OBJECT record, every freed or replaced range fits 64 bits, and the object is live at the end. |
| `ImageExamples.MixedRawDiffers` | src/inception.rs:1867-1912 | A send file with a raw full send and a plain incremental, planned from its own headers, that both sides accept and read differently. |
| `LazyEager.ReadWholeFile` | src/inception.rs:2098-2129 | The calls themselves on one unchanged file: extraction and a full read of the image give equal bytes exactly under the condition of `LazyEager.LazyEqualsEagerIff`. |
| `Incremental.ApplyIncremental` | src/operations.rs:327-493 | Applying a plain incremental succeeds exactly when every check of its definition passes and leaves the defined file and sidecar. |
| `Incremental.ApplyBody` | src/operations.rs:394-462 | One record of the increment does to the file, the stored size and the deletion flag what the definition says. |
| `History.HistoryExtractsIff` | src/operations.rs:845-928 | Behind an increment that applies, the whole history can be extracted if and only if the increment's GUID is not yet in the chain and the base replays with it. |
| `History.ApplyDivergesExactly` | src/operations.rs:366-493 | Then the applied file and the extracted history, for any increment and any base, have the same length and differ exactly at the offsets worked out from the replay alone, where the applied file holds the worked-out byte. |
| `History.ApplyCommutesIff` | src/operations.rs:168-179 | Apply commutes with extraction if and only if the increment's GUID is not in the chain, the base replays with it, and none of those offsets lies below the new size. |
| `History.FreshGuidRebases` | src/operations.rs:845-878 | When no substream of the base carries the increment's GUID the base replays as before, and the two files start apart exactly at the non-zero bytes extraction cut away. |
| `HistoryChains.StepCommutesIff` | src/operations.rs:327-493 | Behind increments that commute, the next one commutes if and only if that condition holds for it. |
| `HistoryChains.AllPrefixesCommuteIff` | src/operations.rs:327-493 | Applying any number of increments one after the other agrees with the whole history after each of them if and only if the condition holds for each. |
| `Resurfacing.ApplyMasksResurfacedBytes` | src/operations.rs:366-493 | When every record that changes the object lies in a selected substream and none starts the file over, the offsets that differ are exactly those where the two files start apart and no record rewrites or frees, and there the applied file holds the extracted byte, zero past the extracted size. |
| `SendSegments.OrderlyBySegments` | src/stream.rs:240-386 | On a stream the reader accepts, that is the case exactly when each such record stands in a segment whose BEGIN the plan selects, so not in a compound package's own segment. |
| `HistoryExamples.ResurfacingDiffers` | src/operations.rs:168-179 | A base file, an incremental file and the file of both, each read back record by record: extraction truncates a written byte and the two results differ. |
| `HistoryExamples.CompoundBodyDiffers` | src/operations.rs:366-493 | Likewise a compound package whose own segment writes the object, with nothing cut away: apply stores the bytes and extraction skips them. |
| `Fletcher.SplitUpdate` | src/stream.rs:186-202 | Updating over any four-byte-aligned split equals updating once. |
| `Fletcher.ClosedForm` | src/stream.rs:186-202 | The four sums are the binomial-weighted sums of the words modulo 2^64. |
| `Fletcher.DetectsOneWord` | src/stream.rs:181-202 | Two inputs of equal length that differ in one word have different checksums, at any length. |
| `Fletcher.DetectsTwoWords` | src/stream.rs:181-202 | Below 2^32 words so do two inputs that differ in one or two words. |
| `Fletcher.Fletcher4.Update` | src/stream.rs:186-202 | An update either rejects a length that is not a multiple of four or folds the bytes into the sums. |
| `Stream.StreamReader.NextRecord` | src/stream.rs:240-386 | Reading one record from the bytes at the current offset yields the defined record, end of input or error, and the defined next state of flags, offset and sums. |
| `Stream.StreamReader.ValidateChecksum` | src/stream.rs:388-424 | Trailer and END checksums are compared where they are non-zero, with the sums advanced over header and payload. |
| `Framing.FramingIsTheGrammar` | src/stream.rs:240-386 | The flag automaton accepts an event sequence to its end exactly when it is a concatenation of substreams and concluded compound packages. |
| `Framing.NextFollowsFraming` | src/stream.rs:240-386 | Every record the byte-level reader returns is a step of that automaton. |
| `Framing.IntactFailsOnlyOnFraming` | src/stream.rs:240-386 | A record that is whole, decodable and correctly summed is refused only where the automaton refuses it. |
| `Framing.RunsAreLocated` | src/stream.rs:373-385 | Each record's stream offset is the sum of all earlier header and payload sizes, and its payload lies there in the input. |
| `Framing.AcceptedFilesAreGrammatical` | src/stream.rs:240-386 | An input read to its end consists of records whose events form the grammar. |
| `Framing.SumsAlwaysCover` | src/stream.rs:388-424 | Inside a segment the running sums are the one-pass checksum of all bytes since its BEGIN. |
| `Framing.AcceptedChecksumsAreOnePass` | src/stream.rs:388-424 | Every accepted non-zero trailer or END checksum equals one-pass Fletcher-4 over the bytes since that segment's BEGIN. |
| `SendFile.ReadableIff` | src/stream.rs:240-386 | Any input is read to its end exactly when every record the reader comes to is intact and the headers, found by stepping over payloads, spell a concatenation of substreams and concluded packages. |
| `SendFile.ReadAll` | src/stream.rs:240-386 | The loop every client runs ends with all records of the input exactly under that condition, and otherwise stops at the first failing record. |
| `SendFile.ReadRecordsAreIndexed` | src/inception.rs:1941-1974 | The payload offset an index entry remembers is where the payload still lies in the unchanged file. |
| `SendWriter.HeaderDecodes` | src/stream.rs:426-575 | The header written for a record of any kind decodes to that kind and to the payload length. |
| `SendWriter.WrittenIsRead` | src/stream.rs:240-424 | Any list of records that fits the format and whose framing is grammatical, written header by header and payload by payload, is read back exactly, with its offsets, to a clean end. |
| `SendFile.LazyEqualsEagerOnFile` | src/inception.rs:2014-2089 | From the bytes of a send file to the bytes of the target: the same if-and-only-if on the records the reader gets from the file. |
| `Planning.PlanSnapshot` | src/filesystem.rs:712-738 | The backwards search terminates, succeeds exactly when the links exist, and returns their GUIDs in chain order. |
| `Planning.PlanIsSound` | src/filesystem.rs:712-738 | A plan starts at a full send and every link names its predecessor's GUID at an earlier file position. |
| `Planning.PlanIsNearestIff` | src/filesystem.rs:712-738 | For any headers, repeated GUIDs included, the search returns a list of links exactly when they form a replayable chain in which each link is the nearest earlier substream with the wanted GUID. |
| `Planning.NearestCanMiss` | src/filesystem.rs:712-738 | A concrete file with a repeated GUID that holds a chain the search misses. |
| `Planning.PlanIsComplete` | src/filesystem.rs:712-738 | With distinct GUIDs the search returns exactly the replayable chain, whenever there is one. |
| `Planning.PlanExtendsIff` | src/filesystem.rs:712-738 | An incremental from a planned target, appended to the file, extends the plan by exactly itself if and only if no substream after the target produces the target's GUID again. |
| `Planning.FilterIsExactIff` | src/filesystem.rs:103-120 | Filtering by the chain's GUID set activates exactly the chain's substreams, in order, if and only if no other substream carries one of its GUIDs. |
| `Planning.DistinctGuidsHaveNoStranger` | src/filesystem.rs:103-120 | Distinct GUIDs are enough for that. |
| `Planning.CountsAgreeIff` | src/operations.rs:922-926 | A chain has as many distinct GUIDs as entries exactly when none occurs twice. |
| `PlannedReplay.ReplayFollowsHeaders` | src/operations.rs:861-878 | Whatever the records, an accepted replay turns active at exactly the headers whose GUID the plan names and has seen exactly their GUIDs. |
| `PlannedReplay.PlannedReplayIff` | src/filesystem.rs:691-738 | A replay under the plan of its file's own headers turns active at exactly the links of the plan if and only if no other substream carries one of their GUIDs, and its final count check passes if and only if no GUID occurs twice in the chain. |
| `RawLeaves.RunIsFiniteMap` | src/filesystem.rs:307-442 | Over any accepted run of OBJECT, WRITE, FREE and FREEOBJECTS every object's leaf list is a finite map from block id to pointer, and the one the records describe. |
| `RawLeaves.LeavesStayDistinct` | src/filesystem.rs:398-407 | Block ids in a leaf list stay pairwise distinct. |
| `RawLeaves.UpsertIsUpdate` | src/filesystem.rs:398-407 | Replacing in place or appending is a map update. |
| `RawLeaves.RetainIsFilter` | src/filesystem.rs:673-689 | Retaining by a test keeps exactly the entries that pass it. |
| `RawLeaves.SurvivesFreeIff` | src/filesystem.rs:673-689 | For every leaf and every accepted FREE: a leaf survives exactly when its offset fits 64 bits and its bytes miss the freed range, except that an empty FREE also drops a leaf it falls strictly inside. |
| `RawLeaves.EmptyFreeDropsALeaf` | src/filesystem.rs:673-689 | A concrete empty FREE that drops a leaf. |
| `RawLeaves.RawIndex.FreeBlocks` | src/operations.rs:827-843 | Freeing changes one object's leaf list to the surviving leaves, or fails when the end overflows. |
| `RawLeaves.RawIndex.Add` | src/filesystem.rs:223-442 | One record, of a selected substream or not, changes the index as the definition says, or fails where it does; the END of a selected substream takes the current range. |
| `BlockPointers.EncodeInjective` | src/encrypted.rs:506-517 | Under either key version different property/MAC pairs have different encodings. |
| `BlockPointers.MasksKeepPortableFields` | src/encrypted.rs:519-541 | The masks clear the dedup and checksum fields, and for indirect pointers byte order, compression and physical size, and no other field of the word. |
| `BlockPointers.PoolPropMatchesSend` | src/encrypted.rs:714-742 | The masked on-disk word equals the word built from record fields, for leaves and indirect pointers. |
| `BlockPointers.VersionZeroAgreesIff` | src/encrypted.rs:523-541 | Under key version 0 the two words of a stored pointer agree if and only if it is a leaf or an indirect pointer stored with compression and byte order zero; under version 1 they always do. |
| `BlockPointers.VersionZeroHoleIff` | src/encrypted.rs:523-541 | Under key version 0 a hole agrees with the send side's empty pointer if and only if every kept field is zero. |
| `MerkleTree.ComputeIndirectMac` | src/pool.rs:1954-1964 | The pool's digest of an indirect block hashes the portable encoding of each of its pointers in order. |
| `MerkleTree.TreeLifts` | src/encrypted.rs:646-676 | Lifting the leaves below a checked tree gives its normalized pointer, for every depth and fan-out. |
| `MerkleTree.ClimbSucceeds` | src/encrypted.rs:646-676 | On the leaves of a checked tree the send side never misses a level's properties: a level where they are invalid holds no stored pointer. |
| `MerkleTree.BottomUpIsTopDown` | src/encrypted.rs:613-686 | Under either key version, when every stored indirect block passes the reader's check and has portable properties, and holes stand for all-hole subtrees and normalize to the empty pointer, the root pointers rebuilt from the leaves are the dnode's normalized top pointers. |
| `Merkle.ComputeRootPointers` | src/encrypted.rs:613-686 | The loops over leaves, levels and chunks compute the recursive definition, with all error cases. |
| `Merkle.ReplayHasNoDuplicates` | src/encrypted.rs:632-644 | Leaves that come from replay never trip the duplicate-WRITE error. |
| `MerkleBinding.ParentBinds` | src/encrypted.rs:646-676 | Equal parents come from equal groups or from two different hashed inputs with one digest; a hole never equals an indirect pointer. |
| `MerkleBinding.RootsDetermineLeaves` | src/encrypted.rs:613-686 | Equal root pointers mean equal leaf tuples at every block, or a digest collision at a named group of a named level. |
| `TranscriptLoops.ScanDnode` | src/encrypted.rs:307-363 | One on-disk dnode adds the defined bytes and region, or is refused for its layout. |
| `TranscriptLoops.ScanBlock` | src/encrypted.rs:307-363 | The on-disk loop builds the defined transcript. |
| `TranscriptLoops.DecryptPoolDnodeBlock` | src/encrypted.rs:294-383 | The whole on-disk operation, including the untouched all-plaintext block. |
| `TranscriptLoops.ScanSendDnode` | src/encrypted.rs:424-467 | One send-record dnode adds the defined bytes and bonus, or fails one of its checks. |
| `TranscriptLoops.ScanRange` | src/encrypted.rs:417-468 | The send-record loop builds the defined transcript. |
| `TranscriptLoops.DecryptDnodeBonuses` | src/encrypted.rs:385-481 | The whole send operation, including duplicate, overlap and range checks. |
| `Transcript.AcceptedVisitsAll` | src/encrypted.rs:469-471 | An accepted range skips no OBJECT record. |
| `TranscriptAgreement.SameCore` | src/encrypted.rs:580-602 | The masked disk core equals the core built from the OBJECT record. |
| `TranscriptAgreement.SamePart` | src/encrypted.rs:338-362 | One dnode adds the same bytes on both sides unless its object type is zero and its bonus encrypted. |
| `TranscriptAgreement.CheckedTreesAreOnDisk` | src/encrypted.rs:613-686 | Top pointers whose trees pass the reader's checks are the pointers the send side puts into the transcript. |
| `TranscriptAgreement.ScansRelate` | src/encrypted.rs:294-481 | Slot by slot over multi-slot, spill, encrypted, plain and free entries, the two scans stay related. |
| `DnodeDecryption.SameTranscript` | src/encrypted.rs:294-481 | For a block laid out from an accepted send, the on-disk side accepts it and both transcripts are identical if and only if no dnode with an encrypted bonus has object type zero; regions and bonuses then match one to one. |
| `TypeZero.TypeZeroDiffers` | src/encrypted.rs:294-481 | A concrete accepted send and a block laid out from it, with object type zero and an encrypted bonus, whose transcripts differ. |
| `DnodeDecryption.SameBonuses` | src/encrypted.rs:294-481 | Both decryptions recover the same bonus bytes: those of each object stand at its bonus offset in the decrypted block. |
| `DnodeDecryption.DecryptionKeepsPlainBytes` | src/encrypted.rs:364-383 | Decrypting any block changes no byte outside the bonus regions. |
| `DnodeDecryption.PoolScanOrdered` | src/encrypted.rs:307-363 | Regions lie in order inside the block and are as long as the ciphertext, so the inconsistent-length error needs a cipher that changes lengths. |
| `Lznt1.LeastWidth` | src/ntfs_compression.rs:399-402 | The split loop picks the least displacement width of at least 4 bits that covers the position, so every legal distance is encodable. |
| `Lznt1.CopyRepeats` | src/ntfs_compression.rs:412-416 | In an overlapping copy every byte equals the byte `distance` before it. |
| `Lznt1.MatchRoundTrip` | src/ntfs_compression.rs:394-404 | A legal back-reference fits 16 bits and reads back. |
| `Lznt1.ChunkRoundTrip` | src/ntfs_compression.rs:374-419 | Decoding the serialization of any legal token list reads exactly that list. |
| `Lznt1.AcceptedLength` | src/ntfs_compression.rs:374-419 | An accepted chunk is exactly as long as the serialization of its tokens. |
| `Lznt1Stream.StreamRoundTrip` | src/ntfs_compression.rs:335-372 | Decoding a written chunk stream, whatever padding follows, reads exactly its chunks. |
| `Lznt1Stream.AcceptedFits` | src/ntfs_compression.rs:335-372 | Every accepted stream consists of chunks that could have been written: full ones, then one reaching the required length. |
| `Lznt1Stream.DecodesWrittenStream` | src/ntfs_compression.rs:335-372 | Decoding into a buffer gives the LZ77 plaintext of the chunks, each expanded on its own, and leaves later bytes alone. |
| `Lznt1Decoder.SplitAt` | src/ntfs_compression.rs:399-402 | The split loop. |
| `Lznt1Decoder.CopyBack` | src/ntfs_compression.rs:412-416 | The in-place forward copy equals the byte-by-byte LZ77 copy. |
| `Lznt1Decoder.DecodeChunk` | src/ntfs_compression.rs:374-419 | The in-place chunk decoder writes the expansion of the tokens it parses, accepted or not, and touches nothing else. |
| `Lznt1Decoder.DecodeLznt1` | src/ntfs_compression.rs:335-372 | The stream decoder's verdict and the whole buffer it leaves, also after a failure. |
| `NtfsRunMap.ReadExtent` | src/ntfs_compression.rs:154-229 | A data attribute becomes an extent exactly when its header and runs pass every check. |
| `NtfsRunMap.Open` | src/ntfs_compression.rs:36-127 | Opening succeeds exactly when the sorted extents follow each other from zero and cover the initialized units. |
| `NtfsRunMap.OpenedIsCovering` | src/ntfs_compression.rs:83-127 | An opened run map is one gapless chain inside the volume that covers every unit with initialized bytes. |
| `NtfsCompression.UnitIsPrefix` | src/ntfs_compression.rs:273-308 | After open no unit can miss or truncate a run: its clusters are an allocated prefix collected in order, or it is refused for an allocated cluster after a sparse one. |
| `NtfsReads.PartitionPoint` | src/ntfs_compression.rs:283-283 | Binary search finds the first run ending after a position. |
| `NtfsReads.CompressedStream.Collect` | src/ntfs_compression.rs:280-308 | The loop over runs collects the unit as defined. |
| `NtfsReads.CompressedStream.LoadUnit` | src/ntfs_compression.rs:273-322 | Verdict and cache contents of a load, also after a failure. |
| `NtfsReads.CompressedStream.Hold` | src/ntfs_compression.rs:251-256 | From a coherent cache a unit becomes the cached one exactly when it loads; after a failure the cache is coherent if and only if it outlives the failing unit. From any cache, a unit already labelled as cached is kept as it is. |
| `NtfsReads.CompressedStream.ReadExactAt` | src/ntfs_compression.rs:236-271 | From a coherent cache a read succeeds exactly when it lies in the file and its units load, returns the plaintext slice with zeros from the initialized length on, and keeps the cache coherent; after a failure it is coherent exactly when it outlives the failing unit. From any cache, a read inside the labelled unit returns what the cache holds. |
| `NtfsReads.FailureLeavesStaleCache` | src/ntfs_compression.rs:236-322 | On a run map that opening returns for a concrete attribute, three reads: one unit, a failing one, and the first again; the last succeeds and shows a byte that is not in the file. |
| `PoolWalk.ReadDnodeData` | src/pool.rs:1562-1612 | The shift-and-mask loop computes the recursive descent. |
| `PoolWalk.WalkIsFlat` | src/pool.rs:1585-1611 | Each block id leads to the slot of that number in the flattened array of leaves, and is refused for want of a top pointer exactly when the array has no such slot. |
| `PoolReads.Extract` | src/pool.rs:1456-1501 | Writing a file record by record succeeds exactly when all its records exist and can be read; file and hashed bytes are then both the contents. |
| `PoolReads.WriteFileRecord` | src/pool.rs:1674-1691 | A short record is zero-extended alike in the file and in the hash. |
| `PoolReads.ReadExactAt` | src/pool.rs:1620-1662 | A positioned read returns the slice of the contents, exactly when it lies in the file and its stored records can be read. |
| `PoolReads.ExtractedIsServed` | src/pool.rs:1620-1662 | For every offset and length, a file that can be extracted can be read there, with the slice of the extracted file. |
| `PoolReads.ReadSmallFile` | src/pool.rs:1008-1030 | The small-file loop computes its recursive definition. |
| `PoolReads.SmallIsContents` | src/pool.rs:1008-1030 | Without a short record it returns the contents. |
| `PoolReads.SmallAgreesIff` | src/pool.rs:1008-1030 | It agrees with extraction on all contents of given record lengths if and only if no record is short, because it re-reads a short record from its start. |
| `SectorReads.PositionedRead` | src/source.rs:248-272 | Partial reads add up to the whole request or fail at the device's end; the device is asked each time for all that is still missing, and for nothing else. |
| `SectorReads.AlignedIffWhole` | src/source.rs:248-272 | The requests for a run of whole sectors are all aligned if and only if the device answers each with a whole number of sectors. |
| `SectorReads.RoundsAligned` | src/source.rs:229-246 | Round by round through the scratch space, whatever the device answers, no request exceeds the scratch space and all are aligned exactly when every answer is a whole number of sectors. |
| `SectorReads.ShortAnswerMisaligns` | src/source.rs:248-272 | A concrete short answer after which the next request is not aligned. |
| `SectorReads.ReadChunk` | src/source.rs:237-243 | One round asks the device for exactly the whole sectors around the position that the scratch space takes and copies out exactly the wanted part. |
| `SectorReads.ReadExactAt` | src/source.rs:211-247 | For every offset, length and sector size the loop ends and returns exactly the requested bytes when their sectors are on the device. The requests the device has seen since are one run to the caller's buffer or the rounds through a scratch space of at most a mebibyte, aligned exactly when every answer is a whole number of sectors. |
| `SectorReads.DecryptedSlice` | src/datto.rs:146-156 | Decrypting whole sectors out of the middle is the middle of the decrypted image. |
| `SectorReads.DettoReadExactAt` | src/datto.rs:129-160 | Any byte range of a .detto image is that range of the sector-by-sector decrypted image. |

## Left out

- History.ApplyCommutesIff: plain sends only, and files compared at the size apply ends with. The raw apply path reuses the leaf bookkeeping of `RawLeaves` and the transcript of `TranscriptLoops`, and the rest of it adds no branch with a harder property. The SHA-256 check of the target against its sidecar is not modelled.
- HistoryChains.AllPrefixesCommuteIff: the same restrictions for every increment.
- Incremental.ApplyIncremental: the sidecar file on disk, temporary files, renames and fsync are not modelled; the updated sidecar is a result.
- MerkleTree.BottomUpIsTopDown: under key version 0 its hypotheses on indirect pointers and holes exclude trees the pool accepts; `BlockPointers.VersionZeroAgreesIff` and `BlockPointers.VersionZeroHoleIff` say which.
- Merkle.ComputeRootPointers: a key version other than 0 and 1, which the program refuses, cannot be expressed.
- TranscriptLoops.DecryptPoolDnodeBlock: the cipher is a parameter that keeps lengths, as an in-place cipher does.
- TypeZero.TypeZeroDiffers: shown for key version 1.
- SendWriter.WrittenIsRead: files whose checksum fields are zero, which the reader accepts unchecked; the program itself writes no send streams.
- MerkleBinding.RootsDetermineLeaves: the digest is an arbitrary function, so the conclusion offers a collision instead of assuming there is none.
- StreamImages.StreamImage.Decode: CRC, cipher, authentication code and library codecs are parameters; a codec that answers is taken to produce the logical size it was asked for. I/O errors on an unchanged file do not occur.
- Stream.StreamReader.NextRecord: the remembered first BEGIN, dataset names and the fields of BEGIN no other component reads are left out, as is what a caller may do with the reader after an error.
- Sparse.SparseFile.PunchHole: the platform either zeroes the range or reports that it cannot; sparse-file controls, SEEK_DATA/SEEK_HOLE and allocated-range copying are not modelled.
- Segments.SegmentMap.Remove: the ordered tree map is a finite map with least and greatest keys searched out of it.
- NtfsRunMap.Open: walking attributes and attribute lists and decoding mapping pairs belong to the ntfs crate, whose source is not part of this model; a call starts from the unnamed data attributes in the order they are met, and sorting is a stable insertion.
- NtfsReads.CompressedStream.ReadExactAt: the disk is a byte sequence of the volume's size, so reads inside it do not fail.
- PoolWalk.WalkIsFlat: the largest supported number of levels comes from the zfs-core crate and is a parameter. A shift by 64 bits or more is the mathematical shift; the program's result there is not modelled, so the statement speaks of the program where (levels - 1) * shift is below 64.
- PoolReads.Extract: reading a stored block (copies, checksums, decompression, gang blocks) is one function of its pointer; SHA-256 is left out and the bytes fed to it are the result.
- SectorReads.ReadExactAt: what an operating system returns for one positioned read is any non-empty part of the request below the end of the device; a device that refuses unaligned requests would fail where one is issued, as `SectorReads.ShortAnswerMisaligns` shows can happen, and that refusal is not modelled.
- RawLeaves.RawIndex.Add: decryption and storage of data blocks beside the leaf bookkeeping, the check that all selected substreams share one key, and what becomes of a range when it is taken are left out.
- Planning.PlanSnapshot: selecting the target by name, GUID or latest is string matching and is left out; the target is a position.
- Cryptographic primitives, key derivation and unwrapping: parameters or left out.
- Big-endian pools, pool labels, datasets, directories, paths and attributes; FAT, ext4, QCOW2, VMDK, LUKS and partition tables: field checks and crates whose source is not part of this model.
- Locks: they guard single-threaded state updates.
- Error texts and which of several failing checks reports first: every error is one error value except in the stream reader and the root computation.
