# Proofs about iroh-experiments

Dafny models of three programs of this repository, and proofs of what they promise.

**The DAG sync protocol (`iroh-dag-sync`).** A sender and a receiver walk the same DAG over different
databases. The sender writes one frame per cid, and the frames carry no cids. The receiver reads the links of a
block only after it has stored the block. The main results:

- the explicit-stack traversal is the recursive depth-first search, covers exactly what is reachable, and is lazy
- sender and receiver stay in lockstep, at every byte at which the stream may be cut, for every honest sender: it
  may lack blocks, and what it does not deliver it need not hold
- a sync interrupted any number of times can be rerun, two staged syncs amount to one, and an incremental sync
  completes a DAG
- whoever sends, and whatever a receiver held, only true rows are added
- any node, after whatever imports and syncs, can take part in all of this, and a node that was synced answers
  the next one with the very bytes of its source
- an exported archive imports to an equivalent database

**The content tracker (`content-discovery/iroh-content-tracker`).** One actor batches its queue into
transactions. It is proved indistinguishable from an interpreter that handles one message at a time, and the
interpreter is proved to keep a last-writer-wins table, to answer queries exactly, and to collect garbage
without effect on verified queries (under an exact condition). The choice of a random chunk is exactly uniform.

**The HTTP/3 send stream (`h3-iroh`).** A polled state machine that gives its transport stream away and takes
it back loses no byte if and only if its caller sends only when nothing is buffered.

## How the model is built

Every loop or object that changes state is a method or a class. Its contract equates its result and its new
state with a function on values, and the theorems are about these functions.

| files | content |
|---|---|
| `Base`, `Ipld`, `Tables` | bytes and sequences; cids and library functions; the mapping tables |
| `Traversal`, `DepthFirst`, `Coverage` | the traversals as state machines, and what they yield |
| `Replication`, `Sync`, `Lockstep`, `SyncTheorems` | block transfer, the protocol, and its theorems |
| `ReceiverRuns` | every outcome of a frame and of a run, for any bytes |
| `Incremental` | a node that holds a part asks for the rest |
| `Car`, `Archives` | export and import of archives, and archives that are cut |
| `Nodes` | any history of a node, and serving in turn |
| `TraversalObjects`, `SyncNode`, `CarFiles` | the programs of the DAG sync, with their objects, loops and streams |
| `TrackerKeys`, `Tracker`, `TrackerTheorems`, `TrackerReplies`, `TrackerActor` | key order, interpreter, theorems, replies and actor of the tracker |
| `ChunkChoice` | the choice of a chunk to probe |
| `SendStream`, `SendStreamObjects` | the send stream as a state machine, and as an object |

Hash functions, the DAG-CBOR link extractor, the bao encoding, the encodings of cids, link lists and archive
headers, and signature checks are library code. They are parameters (`Ipld.Libs`, `Tracker.Config`). What a
theorem needs of them is a named hypothesis: decoding undoes encoding and consumes no more than its own bytes,
and a bao stream that is cut short does not decode. They are asked of data and cids that the libraries can
express: a cid of version 0 has the dag-pb codec and a sha2-256 hash, and no digest has more than 64 bytes. No hash
is assumed injective. Where collisions matter, a hypothesis says that the data in question, a finite set, do not
clash.

A row of the link table is true for a cid (`Tables.Faithful`) when the entry under *that cid's codec* lists exactly
the links of its data, and is absent when there are none.

## Where the code and its documentation differ

The models follow the code.

- The documentation says that a traversal of an incomplete DAG stops at a missing block. The code fails there
  (`FailsIffLinksMissing`, `JustRawNeedsStem`).
- The documentation says that links are extracted according to the format in the cid. The code applies the
  DAG-CBOR extractor to every block, so a raw block that it rejects cannot be received (`BlockTakenIff`).
- The documentation says that a frame without data gives the receiver a mapping from cid to blake3 hash. The
  code drops the mapping (`HashFrameDropped`). So a multihash has a mapping in the end exactly when it had one, or
  when the data of a cid with that multihash was inlined (`MappedIff`).
- The documentation says that the tables hold validated data only. The import command does not compare data
  with the hash in its cid (`ImportUnhashed` imports a wrong block). So an import keeps a node backed exactly when
  the archive cannot be imported, or when its last block with each multihash has that hash
  (`ImportBackedIffHashed`).
- A response that is finished inside a frame header counts as complete, without error (`SyncInterrupted`). So does
  that of a sender that fails for want of a mapping, but not for want of data (`SenderFails`).
- A query names a content with its format, but the answer ignores the format (`RangeScan`). Answers have the
  format exactly when no announce has the same hash in another format (`AnswersExactlyIff`).
- Garbage collection is to keep recent announces, and recently probed ones. The announce age that the code
  compares is the age of the last good probe. So an announce of this instant is removed if its probe is old
  (`GcRemovesRecent`), and one that was never probed is kept for ever (`GcKeepsUnprobed`).
  `GcRemovesOutdatedIff` says exactly when outdated announces, and only these, are removed.
- The contents to probe at an endpoint are documented as all that it announced. The code keeps one for each
  kind (`OneContentPerKind`), which is all exactly when the endpoint has no two contents of one kind
  (`CoversAllIff`).
- The random chunk is uniform over the *complete* chunks of the children. A shorter child, or the rest of a
  longer one, is never chosen (`SelectIsBijective`), so every chunk can be drawn exactly when all sizes are
  multiples of a chunk (`EveryChunkIff`). With no complete chunk at all there is nothing to draw
  (`SomeChunkIffTotal`), where the code panics.
- `send_data` accepts a buffer while another is being written. As many bytes are lost as were still buffered
  (`RunLoses`), of the one buffer or of the other (`SendDataDuringWrite` loses the new one). So a run keeps all
  bytes exactly when every `send_data` finds nothing buffered (`RunConservesIff`).

## Model

| member | source | states |
|---|---|---|
| DepthFirst.TraversalIsDfs | iroh-dag-sync/src/traversal.rs:160-193 | for all tables, roots and visited sets, the stack machine with deferred link reading, reversed pushes and check on pop yields exactly what the recursive left-to-right pre-order search finds, and fails when and how the search does |
| Coverage.ExactCoverage | iroh-dag-sync/src/traversal.rs:167-193 | no cid is yielded twice; every yielded cid is reachable from the root along a path that avoids the visited set and leaves no raw cid; without error all such cids are yielded |
| Coverage.FailsIffLinksMissing | iroh-dag-sync/src/tables.rs:31-40 | a traversal fails if and only if it can reach a cid that is not raw and whose links cannot be read |
| Coverage.FailsIffRowsMissing | iroh-dag-sync/src/tables.rs:31-40 | in terms of the tables: it can reach a cid, not raw, without mapping or with a row that does not decode, and the error says which |
| Coverage.DataCoverage | iroh-dag-sync/src/traversal.rs:167-193 | over blocks that are held faithfully, a traversal yields, each once, exactly the cids that the links of the stored data lead to from the root around the visited ones |
| Coverage.IncrementalTraversal | iroh-dag-sync/src/traversal.rs:148-193 | when the visited cids that the unrestricted traversal yields link to visited cids only, the traversal yields the unrestricted sequence without the visited cids, in the same order and with the same error |
| Coverage.Laziness | iroh-dag-sync/src/traversal.rs:168-191 | over two databases that change between calls, the output is the same if they agree on the links of each yielded cid at the call after it |
| Coverage.PushesBounded | iroh-dag-sync/src/traversal.rs:175-179 | the pushes of a whole traversal, after the root, number the out-degrees of the yielded cids, on any link graph |
| Traversal.PendingDecreases | iroh-dag-sync/src/traversal.rs:184-190 | every yield takes one cid from the finite set of cids that may still be yielded, so every traversal ends |
| Traversal.FaithfulChildren | iroh-dag-sync/src/tables.rs:31-40 | from a block that is held faithfully the traversal goes to exactly the links of its data, in their order, and from a raw one nowhere |
| Traversal.NextIsFirstChild | iroh-dag-sync/src/traversal.rs:175-190 | the next cid is the first link of the last that was not visited; the links after it wait on top of the stack, the first of them uppermost |
| Traversal.NextAfterFailure | iroh-dag-sync/src/traversal.rs:167-175 | a call that fails drops the deferred cid only |
| Traversal.FilteredRun | iroh-dag-sync/src/traversal.rs:90-100 | a filtered traversal yields the inner sequence without the rejected cids, and ends as the inner one does |
| Traversal.SequenceRun | iroh-dag-sync/src/traversal.rs:125-130 | a sequence traversal yields its list |
| Traversal.BareRequest | iroh-dag-sync/src/protocol.rs:233-238 | a request for just a root yields all that the search from the root finds |
| Traversal.UnfilteredRequest | iroh-dag-sync/src/traversal.rs:205-218 | the visited set of a request is empty by default, and its filter keeps all |
| Traversal.FilteredRequest | iroh-dag-sync/src/traversal.rs:217-229 | for each filter, the cids with the codecs that it names, in the order of the search |
| Traversal.SequenceRequest | iroh-dag-sync/src/traversal.rs:200-204 | a request for a list yields the list |
| Traversal.RequestRoots | iroh-dag-sync/src/traversal.rs:106-108 | the roots of a request are its root, or its list |
| TraversalObjects.FullTraversal.Next | iroh-dag-sync/src/traversal.rs:167-193 | the loop over the fields `prev`, `stack` and `visited` makes one step of the state machine, errors included, and ends on every call |
| TraversalObjects.FullTraversal.constructor | iroh-dag-sync/src/traversal.rs:149-157 | a new traversal has the root on its stack and nothing deferred |
| TraversalObjects.Filtered.Next | iroh-dag-sync/src/traversal.rs:93-100 | the loop returns the first cid that passes, the end, or the inner error |
| TraversalObjects.SequenceTraversal.Next | iroh-dag-sync/src/traversal.rs:128-130 | the next cid of the list, or the end |
| TraversalObjects.BoxedTraversal.Next | iroh-dag-sync/src/traversal.rs:45-54 | a boxed traversal steps as the traversal inside |
| TraversalObjects.BoxedTraversal.Roots | iroh-dag-sync/src/traversal.rs:106-108 | the roots are the remaining list, or the stack of the inner traversal |
| TraversalObjects.GetTraversal | iroh-dag-sync/src/traversal.rs:200-230 | the traversal that options select, over the given database |
| Tables.TableStore.GetLinks | iroh-dag-sync/src/tables.rs:31-40 | lookup through both keys: an unknown hash is an error, no row means no links, an undecodable row is an error |
| Tables.TableStore.Insert | iroh-dag-sync/src/tables.rs:84-93 | both tables after an insertion; no link row for data without links; nothing changes when the links cannot be extracted |
| Replication.InsertIsMerge | iroh-dag-sync/src/tables.rs:84-93 | storing one faithfully supplied block takes over exactly its rows and its blob |
| Replication.MergeTwice | iroh-dag-sync/src/tables.rs:84-93 | taking over blocks in two rounds is taking over all at once, in any order |
| Replication.MergedAgrees | iroh-dag-sync/src/tables.rs:84-93 | what was taken over answers like the source and is held faithfully |
| Replication.MergedFaithfulIff | iroh-dag-sync/src/tables.rs:84-93 | storing a block makes it faithfully held if and only if no stale link row was there for its data |
| Replication.BackedAgrees | iroh-dag-sync/src/tables.rs:7-12 | a node whose link rows are backed has no stale link row for the source's blocks, and agrees with the source on what it holds faithfully |
| Sync.HeaderRoundTrip | iroh-dag-sync/src/protocol.rs:97-114 | an encoded header is read back, whatever follows |
| Sync.HeaderCanonical | iroh-dag-sync/src/protocol.rs:105-113 | a stream is read as a header only if it starts with the encoding of that header |
| Sync.LittleEndianRoundTrip | iroh-dag-sync/src/sync.rs:113 | sizes survive their little-endian form |
| Sync.MostSignificantLast | iroh-dag-sync/src/sync.rs:113 | the last byte of a size is the most significant |
| Sync.FrameFormat | iroh-dag-sync/src/traversal.rs:234-243 | the bytes of a frame, with the data for just the codecs that the inline options name |
| SyncNode.AsBytes | iroh-dag-sync/src/protocol.rs:98-103 | the 33-byte buffer holds the encoded header |
| SyncNode.FromStream | iroh-dag-sync/src/protocol.rs:105-113 | fewer than 33 bytes are the end of a finished stream and an error of a lost one, an unknown discriminator is an error, else header and rest |
| SyncNode.WriteItem | iroh-dag-sync/src/sync.rs:66-83 | the frame for one cid; without a mapping nothing is written; without the blob the header is already out |
| SyncNode.WriteSyncResponse | iroh-dag-sync/src/sync.rs:54-87 | the sender loop writes exactly the bytes of the sender function and ends with its error |
| SyncNode.ReadVerified | iroh-dag-sync/src/sync.rs:113-120 | the size and the verified data that follow a header; a stream that is finished too early, one that is lost, and one that does not verify are told apart |
| SyncNode.ReadItem | iroh-dag-sync/src/sync.rs:101-131 | the outcome of one frame for the expected cid: every check in its order, and what is stored in each case |
| SyncNode.HandleSyncResponse | iroh-dag-sync/src/sync.rs:89-134 | the receiver loop, with its traversal over the growing tables, ends with the cids, tables, blobs and error of the receiver function |
| SyncNode.Database.SyncFrom | iroh-dag-sync/src/main.rs:156-177 | one transaction for a sync, abandoned on error; blobs stay; the error is the receiver's |
| Lockstep.SameNext | iroh-dag-sync/src/traversal.rs:167-193 | a receiver in step takes the sender's next step, unless the sender fails: same cid, same traversal state |
| Lockstep.FrameTaken | iroh-dag-sync/src/sync.rs:105-131 | a whole honest frame is taken, its block stored if it has one, and the rest of the stream left |
| Lockstep.FrameCut | iroh-dag-sync/src/sync.rs:101-120 | an honest frame cut at any byte is not taken: no frame if the stream is finished within the header, and an error otherwise |
| Lockstep.HashFrameDropped | iroh-dag-sync/src/sync.rs:105-110 | a frame without data is passed over, and changes neither tables nor blobs, whoever sends it |
| Lockstep.BlockTakenIff | iroh-dag-sync/src/sync.rs:121-131 | a verified block is taken if and only if it has the multihash of the expected cid and its links can be extracted |
| ReceiverRuns.NoFrameIff | iroh-dag-sync/src/sync.rs:101-104 | only the end of a finished stream within a header is no frame |
| ReceiverRuns.HeaderVerdict | iroh-dag-sync/src/protocol.rs:105-113 | a frame that starts with 0 is passed over, one that starts with more than 1 is malformed |
| ReceiverRuns.TransferVerdict | iroh-dag-sync/src/sync.rs:113-120 | the error of data that ends too early, or does not verify |
| ReceiverRuns.DataVerdict | iroh-dag-sync/src/sync.rs:121-131 | the checks of verified data in their order, the error of each, what is stored all the same, and the rows of data that passes |
| ReceiverRuns.ReceiverEnds | iroh-dag-sync/src/sync.rs:97-133 | any receiver, any bytes: it takes frames as long as there is one it can take, and ends without error if and only if then its traversal has ended, or the stream is finished with less than a header left |
| ReceiverRuns.ReceiverCids | iroh-dag-sync/src/sync.rs:98-100 | each frame is taken for the cid that the traversal yields before it, over the tables at that point |
| ReceiverRuns.CommitsIff | iroh-dag-sync/src/main.rs:175-177 | the tables after a sync are those after its last frame if and only if the run ends so, and else the old ones |
| Lockstep.FrameKeepsInStep | iroh-dag-sync/src/sync.rs:97-131 | after its frame, the receiver can follow the links of the yielded cid, and is still in step |
| Lockstep.SendsStream | iroh-dag-sync/src/sync.rs:54-87 | any sender writes the frames of its traversal in order, up to the first cid it lacks the mapping or the data for, or to the end, and with the error of that |
| Lockstep.SendSucceedsIff | iroh-dag-sync/src/sync.rs:65-84 | a sender succeeds if and only if its traversal does, and it has every mapping and the data of every inlined cid |
| Lockstep.ReceiveCut | iroh-dag-sync/src/sync.rs:97-133 | on any prefix of an honest stream, complete or broken off by its sender, the receiver takes the whole frames one by one |
| Lockstep.WholeFramesMeaning | iroh-dag-sync/src/sync.rs:65-84 | the whole frames and what is left over make up the bytes, and the next frame does not fit |
| SyncTheorems.SyncLockstep | iroh-dag-sync/src/sync.rs:54-134 | over a whole run with an honest sender, the receiver yields exactly the cids that were sent, every inlined one ends faithfully held, and nothing else of the receiver changes; if the sender does not fail, neither does the receiver, and these are all cids of the request |
| SyncTheorems.SenderFails | iroh-dag-sync/src/sync.rs:65-84 | a sender that lacks a mapping or data fails with the error for it, and the receiver takes that for a complete response if and only if a mapping was missing and the stream is finished |
| SyncTheorems.MappedIff | iroh-dag-sync/src/sync.rs:105-131 | a multihash has a mapping after a sync if and only if it had one, or is that of an inlined cid that was sent |
| SyncTheorems.SyncInterrupted | iroh-dag-sync/src/sync.rs:97-133 | for every honest sender and every cut, whether the stream is finished or lost there: exactly the whole frames are taken; and, except after all frames of a sender whose own links failed it, there is no error if and only if all frames of the request arrived, or the stream is finished with less than a header left over |
| SyncTheorems.SyncCutAfterFrames | iroh-dag-sync/src/sync.rs:97-133 | finished after any k whole frames, the receiver ends without error with the first k cids |
| SyncTheorems.SyncResumed | iroh-dag-sync/src/main.rs:156-177 | however often and wherever a sync was cut, finished or lost, the same request run again gives the tables, blobs and cids of an uninterrupted run, and the command ends as without the cuts when the sender does not fail |
| SyncTheorems.TwoStages | iroh-dag-sync/src/traversal.rs:216-228 | a sync without raw blocks and then one of just the raw blocks end in the tables and blobs of one sync of everything |
| SyncTheorems.StemServed | iroh-dag-sync/src/traversal.rs:216-219 | a sender that holds just the blocks that are not raw below a root serves a request for these, to a receiver that holds anything |
| SyncTheorems.JustRawNeedsStem | iroh-dag-sync/src/traversal.rs:219-220 | the second stage alone fails before it reads a byte when the root is neither raw nor held |
| Incremental.IncrementalSync | iroh-dag-sync/src/protocol.rs:150-155 | for any visited set: a node that holds what cannot be reached around it ends with everything below the root |
| Incremental.IncrementalSyncClosed | iroh-dag-sync/src/protocol.rs:150-155 | in particular when the visited cids below the root are held and link to visited cids only |
| Incremental.IncrementalSyncHolds | iroh-dag-sync/src/protocol.rs:150-155 | for any visited set: a node that holds everything below the visited cids that the request comes upon, such as the last element of a list, ends with everything below the root, by its own tables |
| Incremental.MergeKeepsFaithful | iroh-dag-sync/src/tables.rs:84-93 | a block held faithfully still is after any blocks of another node were taken over, and has the same links |
| SyncTheorems.AnySenderAddsBacked | iroh-dag-sync/src/sync.rs:105-131 | for any bytes and any receiver, backed or not: every mapping in the end is the old one or is backed by stored data with both hashes, every link row is the old one or the non-empty list of links of its data, and no row or blob is lost |
| SyncTheorems.AnySenderKeepsBacked | iroh-dag-sync/src/sync.rs:105-131 | for any bytes whatsoever, a receiver whose rows are all backed ends so |
| SyncTheorems.BlobsOnlyGrow | iroh-dag-sync/src/sync.rs:126-131 | a run neither removes nor replaces a blob |
| SyncTheorems.SyncCommandCommits | iroh-dag-sync/src/main.rs:175-177 | at any node, a sync that fails leaves the tables as they were, and in any case only backed rows are added; a backed node stays backed, and backed link rows stay so |
| Car.VarintRoundTrip | iroh-dag-sync/src/main.rs:254-256 | an encoded length is read back, whatever follows |
| Car.LengthFits | iroh-dag-sync/src/main.rs:241-256 | a length fits the 9-byte buffer if and only if it is below 2^63 |
| Car.VarintFormat | iroh-dag-sync/src/main.rs:254-256 | seven bits a byte, low bits first, the high bit set on all bytes but the last |
| Car.ExportFailsIffTooLarge | iroh-dag-sync/src/main.rs:242-258 | an export of cids with mapping and blob fails if and only if a block is too large for the length buffer |
| Archives.ExportSucceedsIff | iroh-dag-sync/src/main.rs:239-259 | an export succeeds if and only if its traversal does and every cid has a mapping, data, and a block below 2^63 bytes; the archive is then the header and all blocks |
| Archives.ExportWrites | iroh-dag-sync/src/main.rs:242-258 | any export writes the blocks in order up to the first that it cannot write, with the error for that |
| Car.ImportExported | iroh-dag-sync/src/main.rs:78-97 | exported blocks are imported as the same list of cids and data, into any node, as if merged from the source |
| Car.ExportThenImport | iroh-dag-sync/src/main.rs:217-261 | an archive imported into an empty node gives a database over which the traversal from the same root yields the same cids, all faithfully held |
| Car.ImportLeads | iroh-dag-sync/src/main.rs:77-97 | any stream imported into any node, as far as it goes: a mapping in the end is to the last imported block with the multihash or is the old one, every link row is the old one or is backed, and no blob is lost |
| Car.LastDataMeaning | iroh-dag-sync/src/main.rs:94-96 | which imported block a mapping is to: the one with the multihash that no other with it follows |
| Car.ImportSucceedsIff | iroh-dag-sync/src/main.rs:70-98 | an import takes the blocks of the archive up to the first without extractable links, and succeeds if and only if the archive is readable and has no such block |
| Archives.NoBlockIff | iroh-dag-sync/src/main.rs:78-79 | nothing but the end of an archive is taken for its end |
| Archives.ArchiveCut | iroh-dag-sync/src/main.rs:76-99 | for every cut of an exported archive: it is imported if and only if the cut is after the header at the end of a block, and then as the blocks before; else the tables stay as they were |
| Archives.BadHeaderFails | iroh-dag-sync/src/main.rs:74 | an archive whose header cannot be decoded is not imported at all |
| Car.ImportBackedIffHashed | iroh-dag-sync/src/main.rs:70-98 | a backed node is backed after the import of an archive if and only if the archive cannot be imported, or for each multihash its last block has data with this hash |
| Car.ImportUnhashed | iroh-dag-sync/src/main.rs:78-96 | any block with the data of another, alone in an archive, is imported without error and leaves a mapping that is not backed |
| Car.ImportKeepsLinkRows | iroh-dag-sync/src/main.rs:83-93 | no import leaves a link row that is not the list of links of its data |
| Nodes.AnyHistoryKeepsLinkRows | iroh-dag-sync/src/main.rs:70-177 | after any imports and syncs, honest or not, cut or not, every link row is the non-empty list of links of stored data |
| Nodes.AnyHistoryCanSync | iroh-dag-sync/src/main.rs:70-177 | a node that began empty meets what the theorems on syncs ask of a receiver, whatever it imported and synced before |
| Nodes.SyncedServes | iroh-dag-sync/src/sync.rs:54-87 | after any complete sync, a request that yields and follows only cids that came with their data is answered with exactly the bytes of the source, and honestly |
| Nodes.SyncedServesRoot | iroh-dag-sync/src/protocol.rs:143-163 | in particular for the same root, any visited set, any choice of inlined data, and any filter that keeps no more: any request at all after all blocks, requests for the stem after the stem |
| CarFiles.WriteBlock | iroh-dag-sync/src/main.rs:243-257 | the length-prefixed block for one cid, or the error for a missing mapping, missing data or a length beyond the buffer |
| CarFiles.ExportTraversal | iroh-dag-sync/src/main.rs:217-261 | the export loop writes header and blocks of the export function and ends with its error |
| CarFiles.StoreBlock | iroh-dag-sync/src/main.rs:83-96 | links first, then blob, link row and mapping; nothing changes if the links cannot be extracted |
| CarFiles.ImportAll | iroh-dag-sync/src/main.rs:77-97 | the import loop ends with the rows, blobs, blocks and error of the import function, and with the first cid |
| CarFiles.ImportFile | iroh-dag-sync/src/main.rs:70-103 | one transaction for an import, abandoned on error |
| TrackerKeys.PathRoundTrip | content-discovery/iroh-content-tracker/src/tracker.rs:635-664 | a key is its bytes |
| TrackerKeys.PathBytesRoundTrip | content-discovery/iroh-content-tracker/src/tracker.rs:635-664 | any 66 bytes are a key |
| TrackerKeys.PathAsBytes | content-discovery/iroh-content-tracker/src/tracker.rs:653-664 | the filled buffer holds hash, format, kind and endpoint in place |
| TrackerKeys.KeyFormat | content-discovery/iroh-content-tracker/src/tracker.rs:564-574 | hash, format, kind and endpoint in this order; raw and partial are 0, the others 1 |
| TrackerKeys.PartsOfAnyKey | content-discovery/iroh-content-tracker/src/tracker.rs:574-591 | of any key, only 0 stands for a raw format, and only 0 for a partial kind |
| TrackerKeys.PathKeepsParts | content-discovery/iroh-content-tracker/src/tracker.rs:564-595 | content, kind and endpoint of a key are those it was made from |
| TrackerKeys.ByteOrderIsFieldOrder | content-discovery/iroh-content-tracker/src/tracker.rs:671-675 | the byte order of keys is the order of their fields |
| TrackerKeys.BeforeMeaning | content-discovery/iroh-content-tracker/src/tracker.rs:671-675 | a key is before another if and only if its bytes are the lesser at the first place where they differ |
| TrackerKeys.BeforeIsTotal | content-discovery/iroh-content-tracker/src/tracker.rs:671-675 | two different keys are ordered one way and only one |
| TrackerKeys.RangeIsHash | content-discovery/iroh-content-tracker/src/tracker.rs:597-613 | a key lies between the bounds of a content if and only if it has its hash |
| TrackerKeys.RangeScan | content-discovery/iroh-content-tracker/src/tracker.rs:402-404 | the range scan of a content is the ordered list of all keys with its hash, in any format |
| TrackerKeys.SortedElems | content-discovery/iroh-content-tracker/src/tracker.rs:348-349 | a scan meets every key |
| TrackerKeys.SortedAscends | content-discovery/iroh-content-tracker/src/tracker.rs:348-349 | a scan meets the keys in strictly ascending order |
| Tracker.JoinSplit | content-discovery/iroh-content-tracker/src/tracker.rs:531-550 | splitting an announce into key and value and joining them gives it back |
| Tracker.Elapsed | content-discovery/iroh-content-discovery/src/protocol.rs:56-62 | the age of a timestamp that is not after now |
| Tracker.InterpretAppend | content-discovery/iroh-content-tracker/src/tracker.rs:184-262 | two stretches of messages in turn are one |
| TrackerTheorems.AnnounceTable | content-discovery/iroh-content-tracker/src/tracker.rs:359-395 | from any table, without gc: the table has a path exactly if it had it or a verified announce arrived for it, and holds the first among those with the greatest timestamp, the old entry counting as first |
| TrackerTheorems.AnnouncesConverge | content-discovery/iroh-content-tracker/src/tracker.rs:377-390 | with distinct timestamps, trackers that got the same verified announces, stored before or arriving in any order and number, end with the same table |
| TrackerTheorems.RunsStayVerified | content-discovery/iroh-content-tracker/src/tracker.rs:365-368 | in every run, gc included, every entry joins to an announce that verifies and belongs under its key |
| TrackerTheorems.QueryAnswers | content-discovery/iroh-content-tracker/src/tracker.rs:397-440 | an answer has exactly the announces of the table with the hash, complete if asked for, no older than the announce timeout, and, if asked for, probed within the probe timeout; all verify if the entries do |
| TrackerTheorems.AnswersExactlyIff | content-discovery/iroh-content-tracker/src/tracker.rs:402-404 | all queries for a content are answered with just this content if and only if the table has no announce with its hash in another format |
| TrackerTheorems.QueryInOrder | content-discovery/iroh-content-tracker/src/tracker.rs:409-437 | an answer is in strict key order, so it has no path twice |
| TrackerTheorems.OneContentPerKind | content-discovery/iroh-content-tracker/src/tracker.rs:342-357 | for each kind an endpoint announced, the content with the greatest key |
| TrackerTheorems.CoversAllIff | content-discovery/iroh-content-tracker/src/tracker.rs:342-357 | every content of an endpoint is in the reply under its kind if and only if no two of its contents have one kind |
| TrackerTheorems.ProbeTimes | content-discovery/iroh-content-tracker/src/tracker.rs:442-456 | a good probe sets the time of its path, a failed one changes nothing |
| TrackerTheorems.GcRemoves | content-discovery/iroh-content-tracker/src/tracker.rs:490-528 | gc removes from both tables exactly the paths probed longer ago than both expiries, never an unprobed announce |
| TrackerTheorems.GcRemovesOutdatedIff | content-discovery/iroh-content-tracker/src/tracker.rs:499-518 | gc removes exactly the announces that are past their expiry and not probed within the expiry of probes, if and only if unprobed announces are within their expiry, and announce and probe of every other with an expired probe are past it together |
| TrackerTheorems.GcRemovesRecent | content-discovery/iroh-content-tracker/src/tracker.rs:498-506 | an announce of this instant is removed when its last good probe is older than both expiries |
| TrackerTheorems.GcKeepsUnprobed | content-discovery/iroh-content-tracker/src/tracker.rs:494-498 | an announce of any age stays when no probe of it was good |
| TrackerTheorems.GcIdempotent | content-discovery/iroh-content-tracker/src/tracker.rs:490-528 | a second gc at the same time changes nothing |
| TrackerTheorems.GcInvisible | content-discovery/iroh-content-tracker/src/tracker.rs:424-434 | if a probe times out no later than it expires, a verified query at or after the time of a gc is answered as without it |
| TrackerTheorems.GcInvisibleIff | content-discovery/iroh-content-tracker/src/tracker.rs:498-519 | the condition of that is necessary as well |
| TrackerReplies.QueryReplies | content-discovery/iroh-content-tracker/src/tracker.rs:271-274 | in every run, each query is replied to with exactly the announces of the table at that point that it asks for |
| TrackerReplies.AnnounceReplies | content-discovery/iroh-content-tracker/src/tracker.rs:365-395 | a reply rejects exactly what does not verify, and else says whether hash, and content, kind and host, are new |
| TrackerReplies.SizeReplies | content-discovery/iroh-content-tracker/src/tracker.rs:275-282 | a size asked for is the last that was set before |
| TrackerReplies.ContentReplies | content-discovery/iroh-content-tracker/src/tracker.rs:283-286 | in every run, contents to probe are, for each kind, that with the greatest key at that point |
| TrackerReplies.DistinctReplies | content-discovery/iroh-content-tracker/src/tracker.rs:287-290 | in every run, exactly the contents and the endpoints of the table at that point |
| TrackerReplies.ReadsChangeNothing | content-discovery/iroh-content-tracker/src/tracker.rs:264-299 | messages that only read change no state |
| TrackerReplies.GcMessage | content-discovery/iroh-content-tracker/src/tracker.rs:490-528 | gc takes the paths probed longer ago than both expiries from both tables, and changes nothing else |
| TrackerReplies.ProbeTable | content-discovery/iroh-content-tracker/src/tracker.rs:442-456 | over any run without gc, a path has the time of its last good probe, or the time it had |
| TrackerActor.PeekableReceiver.Peek | content-discovery/iroh-content-tracker/src/tracker/util.rs:19-24 | the next message, which stays in the queue |
| TrackerActor.PeekableReceiver.Recv | content-discovery/iroh-content-tracker/src/tracker/util.rs:30-35 | the next message, which leaves the queue; the slot is free after it |
| TrackerActor.PeekableReceiver.PushBack | content-discovery/iroh-content-tracker/src/tracker/util.rs:39-46 | with a free slot the message is the next again, else it is returned |
| TrackerActor.Actor.ApplyAnnounce | content-discovery/iroh-content-tracker/src/tracker.rs:359-395 | table and reply after an announce, whether the content and the host are new included |
| TrackerActor.Actor.AnswerQuery | content-discovery/iroh-content-tracker/src/tracker.rs:397-440 | the loop over the range scan answers with the filter of the whole table |
| TrackerActor.Actor.ContentForEndpoint | content-discovery/iroh-content-tracker/src/tracker.rs:342-357 | the loop over a full scan keeps the last content of each kind |
| TrackerActor.Actor.DistinctContent | content-discovery/iroh-content-tracker/src/tracker.rs:475-488 | all contents and all endpoints of the table |
| TrackerActor.Actor.SaveProbeResult | content-discovery/iroh-content-tracker/src/tracker.rs:442-456 | the probes table after the results of one endpoint |
| TrackerActor.Actor.CollectGarbage | content-discovery/iroh-content-tracker/src/tracker.rs:490-528 | both loops of gc leave the tables without the expired paths |
| TrackerActor.Actor.HandleReadonly | content-discovery/iroh-content-tracker/src/tracker.rs:264-299 | handles exactly the messages of the read category but Stop, as the interpreter does, and gives the others back |
| TrackerActor.Actor.HandleReadwrite | content-discovery/iroh-content-tracker/src/tracker.rs:301-337 | handles exactly the messages of the write category, as the interpreter does, and gives the others back unchanged |
| TrackerActor.Actor.Batch | content-discovery/iroh-content-tracker/src/tracker.rs:191-257 | a batch handles a prefix of the queue as the interpreter does, loses none, never fails to push one back, and ends in the one outcome that queue and clock allow |
| TrackerActor.OneOutcome | content-discovery/iroh-content-tracker/src/tracker.rs:199-221 | queue and clock determine how many messages a batch handles, how long it waits and why it ends |
| TrackerActor.FullIff | content-discovery/iroh-content-tracker/src/tracker.rs:214-220 | a batch is full if and only if 1002 messages of its category come in time, and has then handled exactly these: the count is compared with 1000 before it is increased |
| TrackerActor.Actor.Transaction | content-discovery/iroh-content-tracker/src/tracker.rs:190-258 | a write batch is committed, a read batch leaves the database alone, and either is the interpreter on the messages handled |
| TrackerActor.Actor.Run | content-discovery/iroh-content-tracker/src/tracker.rs:184-262 | for every queue and every placement of timeouts: each message before Stop is handled once and in order, with the replies and tables of the interpreter; the actor ends only at Stop or a closed queue, and does end when given time |
| ChunkChoice.SelectIsBijective | content-discovery/iroh-content-tracker/src/iroh_blobs_util.rs:200-227 | drawn numbers and complete chunks of children correspond one to one |
| ChunkChoice.DrawableIff | content-discovery/iroh-content-tracker/src/iroh_blobs_util.rs:206-220 | what can be drawn is any 1024 bytes, from a multiple of 1024 on, that are all in the child |
| ChunkChoice.EveryChunkIff | content-discovery/iroh-content-tracker/src/iroh_blobs_util.rs:203-209 | every chunk of every child, a shorter last one included, can be drawn if and only if every size is a multiple of 1024 |
| ChunkChoice.SomeChunkIffTotal | content-discovery/iroh-content-tracker/src/iroh_blobs_util.rs:206-210 | there is a number to draw if and only if some child has a complete chunk |
| ChunkChoice.RandomHashSeqRanges | content-discovery/iroh-content-tracker/src/iroh_blobs_util.rs:205-227 | the ranges have exactly one that is not empty, the selected chunk, at the index of its child plus one, and that is the last |
| SendStream.PollReadyConserves | h3-iroh/src/lib.rs:519-542 | over any polls, accepted and buffered bytes stay the same in sum; ready means nothing buffered and the stream in its slot |
| SendStream.PollReadyResult | h3-iroh/src/lib.rs:519-542 | over any polls: what the writes report moves from the buffer to the transport; the result is ready when nothing is left, an error at the first failed write that is met, and else pending |
| SendStream.PollResults | h3-iroh/src/lib.rs:545-614 | when the other polls panic, fail, wait or succeed |
| SendStream.StepConserves | h3-iroh/src/lib.rs:514-615 | each operation adds to the outgoing bytes exactly what it hands over |
| SendStream.PollSendMoves | h3-iroh/src/lib.rs:594-614 | a direct write moves bytes from the front of the caller's buffer to the transport and reports their number; otherwise neither changes |
| SendStream.RunConserves | h3-iroh/src/lib.rs:501-615 | over any calls of a caller that sends only when nothing is buffered, accepted bytes and then buffered bytes are all that was sent, in order |
| SendStream.SentInOrder | h3-iroh/src/lib.rs:501-615 | what reaches the transport of a new stream is a prefix of what was sent |
| SendStream.RunLoses | h3-iroh/src/lib.rs:568-575 | a run that does not panic loses exactly as many bytes as were buffered when a new buffer took their place |
| SendStream.RunConservesIff | h3-iroh/src/lib.rs:501-615 | a run that does not panic keeps all bytes, in order, if and only if every `send_data` finds nothing buffered |
| SendStream.SendDataDuringWrite | h3-iroh/src/lib.rs:568-575 | a concrete run in which a buffer sent during a write is lost |
| SendStreamObjects.SendStream.PollReady | h3-iroh/src/lib.rs:519-542 | the loop makes the state machine's step; the transport stream is owned by slot or future and never both; the placeholder future is never polled |
| SendStreamObjects.SendStream.SendData | h3-iroh/src/lib.rs:568-575 | the buffer is replaced, whatever was in it |
| SendStreamObjects.SendStream.PollSend | h3-iroh/src/lib.rs:594-614 | a direct write, with the number of bytes written and the caller's buffer advanced by them; it panics while a buffer is being written |
| SendStreamObjects.SendStream.PollFinish | h3-iroh/src/lib.rs:545-556 | panics if and only if the stream is in the write future, else gives what finishing the transport gives |

## Left out

- QUIC connections, endpoints, discovery, DHT publishing, HTTP fetching, the S3 store, the naming system, the axum adapter and the command line are not modelled: I/O and plumbing.
- Bao, blake3, multihash, ed25519, DAG-CBOR, postcard and ron are parameters with stated hypotheses; only the 33-byte frame header and the variable-length block length are modelled byte by byte.
- redb is a pair of maps with snapshots, atomic commits and an ordered scan; its own errors, and errors of beginning or committing a transaction, are not modelled.
- The archive reader `iroh-car` is not part of this model; archives are read as the "Data" section of CARv1 says, without a limit on the block size and without a check of the version in the header.
- TrackerActor.Actor.Batch: stands for the two transaction loops of the source, which differ in nothing but the handler they call.
- TrackerActor.Actor.Run: an open channel without messages shows as a timeout only, since waiting has no other effect; the clock is an input, and the model stops where that input ends.
- Tracker.Elapsed: a timestamp after now gives a wrapped age, as an unchecked build does; a checked build panics.
- The clock reading of a query or of gc is part of its message; durations are whole microseconds, to which ages compare the same.
- Output of `Dump` and of the print loop, logs, and probes over the network with the loops that start them are not modelled: they change no state modelled here.
- The byte forms of the values of the tracker's tables are not modelled: two fixed-width fields.
- SendStreamObjects.SendStream.PollReady: nothing is promised after a panic, and a poll result that no transport gives (more bytes than the chunk, or none of a chunk) counts as pending, in `poll_send` too.
- SendStream.RunLoses: assumes a buffer that panics when it is advanced beyond its remaining bytes, and whose payload is one contiguous piece; the type of the buffer, `B: Buf`, fixes neither.
- SendStream.RunConservesIff: the same assumptions.
- `RecvStream`, `reset` and `send_id` of the HTTP/3 adapter are not modelled: the same hand-over of a stream, without data to conserve.
- Closures are modelled by the options that select them: filters and inline predicates.
- Boxing, pinning and async scheduling are not modelled: a call is a step.
