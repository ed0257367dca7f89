# Verified model of the document database core

The database keeps JSON documents in named stores. A store is an ordered index
from document ids to documents, and the index is a copy-on-write B-tree or a set
of such trees with the keys striped over them. Documents can be edited by JSON
Patch, and all stores are saved to a snapshot file by a background writer. This
project models these parts in Dafny and proves what they promise:

- **Copy-on-write B-tree**, for every minimum degree `t >= 2` and every totally
  ordered key type. Tree values carry the algorithms (`TreeInsert`,
  `TreeDelete`) and the proof that every operation keeps the B-tree shape and
  changes the finite map at one key. The heap version (`BTreeNodes`,
  `BTreeScan`, `BTreeIndex`) clones and edits node objects in place; it
  computes those tree values and writes to no node that existed before.
- **Readers beside writers** (`SnapshotReads`): a step machine in which readers
  load the root once and then visit one node per step while a writer allocates,
  writes and publishes. Every result answers the reader's latest request with the
  map at the root load, within a number of the reader's own steps that is fixed
  there (`ReaderProgress`).
  `WriterSteps` ties the machine to the heap version: every call of the index is
  steps of its writer.
- **Sharded index** (`ShardModel`, `ShardRuns`, `ShardedIndex`), for every shard
  count and every hash: one map sequentially, and a precise weaker promise for
  a query that loads the shards while writers run.
- **JSON Patch** (RFC 6902) and **JSON Pointer** (RFC 6901): the value-level
  operations and their laws (`JsonPointer`, `JsonPatch`, `JsonPatchLaws`), when
  each operation succeeds and how a patch is made of them (`JsonPatchOps`), and
  the in-place edits of maps and slices over backing arrays (`PatchHeap`,
  `PatchApply`), which compute exactly the value-level result because no
  container is ever reachable by two paths.
- **Snapshot writer** (`SnapshotWriter`): request threads, the one-slot dirty
  channel, the debounce, the store-by-store save and `Close`, as a step machine.
- **Documents** (`Ids`, `DocumentModel`, `Documents`, `Persistence`): writes,
  metadata in every interleaving, export and import, save and load.

`OrderedEntries` (sorted key/value sequences and the maps they stand for),
`Weave` (in-order listings) and `Slices` are shared groundwork. The main results
are `TreeDelete.DeleteCorrect`, `BTreeIndex.BTree.Remove`,
`SnapshotReads.ReadsAreSnapshots`, `ShardRuns.ConcurrentQuery`,
`PatchApply.Apply`, `SnapshotWriter.NoLostChange` and
`SnapshotWriter.CloseFinishes`.

Where code and prose disagree the model follows the code:

- A query with `start == end` lists everything (btreeidx/btreeidx.go:154-156);
  db/db.go:84-85 speaks of two empty bounds, and a range of one id does not list
  one id.
- A malformed `path` of add, replace, move or copy is taken for the document
  root (patch/patch.go:297-305): `JsonPatchLaws.MalformedPathIsRoot`, and
  `MalformedPathSucceeds` for when that yields a document.
- Section 4.4 of RFC 6902 forbids moving a value below itself;
  patch/patch.go:85-95 removes and then adds, which can succeed.
  `JsonPatchLaws.MoveBelowItself` says exactly when,
  `MoveBelowItselfCanSucceed` gives a document.
- Section 4 of RFC 6901 admits only plain decimal array indices;
  patch/patch.go:317-323 also takes "+1" and "-0":
  `JsonPatchLaws.IndexGrammar`. Path laws are stated over resolved positions.
- `Close` is said to flush a final snapshot (dbServer/server.go:106-107), but
  requests are served until `HTTP.Close`, which comes after that save. A change
  that is made once the save has read its place is answered and signalled, and
  lost: `SnapshotWriter.LostIffTooLate` gives the exact condition at the instant
  of the change, `LateChangeIsLost` a run.
- A document or store whose name extends the 2000-character sentinel is left out
  of snapshots (db/snapshot.go:13, dbServer/server.go:127):
  `DocumentModel.ExportThenRestore` and `Persistence.SaveThenLoad` give the exact
  condition, `LostId` and `LostStore` concrete names.

`dafny verify dfyconfig.toml` checks the whole project.

## Model

| member | source | states |
|---|---|---|
| TreeModel.SearchLeft | btreeidx/btreeidx.go:58-72 | everything listed before the child that binary search selects is below the key |
| TreeModel.SearchRight | btreeidx/btreeidx.go:58-72 | everything listed after that child is above the key when the node does not hold it |
| TreeInsert.Insert | btreeidx/btreeidx.go:233-256 | leaf depth is kept; a whole node stays within 2t-1 keys, a split gives halves of t-1 and t keys |
| TreeInsert.SplitShape | btreeidx/btreeidx.go:259-274 | splitting a 2t-key node around its median keeps the listing, the depth and the occupancy of both halves |
| TreeInsert.InsertCorrect | btreeidx/btreeidx.go:233-256 | insertion changes the sorted listing of a subtree at exactly the given key |
| TreeDelete.MaxIsLast | btreeidx/btreeidx.go:415-420 | the rightmost descent finds the last entry of the listing |
| TreeDelete.MinIsFirst | btreeidx/btreeidx.go:423-428 | the leftmost descent finds the first entry of the listing |
| TreeDelete.BorrowPrevFlat | btreeidx/btreeidx.go:368-389 | moving a key from the left sibling through the parent keeps the listing of the node |
| TreeDelete.BorrowNextFlat | btreeidx/btreeidx.go:392-412 | moving a key from the right sibling through the parent keeps the listing of the node |
| TreeDelete.MergeFlat | btreeidx/btreeidx.go:348-365 | merging two children around their separator keeps the listing of the node |
| TreeDelete.MergeShape | btreeidx/btreeidx.go:348-365 | two minimal children merge into one of 2t-1 keys, and the node keeps its shape with one key less |
| TreeDelete.FillShape | btreeidx/btreeidx.go:326-343 | after fill the child descended into has at least t keys, and the node keeps its shape and loses at most one key |
| TreeDelete.FillListing | btreeidx/btreeidx.go:326-343 | fill keeps the listing, before, inside and after the child it hands over |
| TreeDelete.Descend | btreeidx/btreeidx.go:318-323 | every child that deletion descends into has at least t keys |
| TreeDelete.Delete | btreeidx/btreeidx.go:279-324 | deletion keeps leaf depth and occupancy; the top node loses at most one key |
| TreeDelete.DeleteInner | btreeidx/btreeidx.go:284-313 | the same for a key found in an internal node, by predecessor, successor or merge |
| TreeDelete.DeleteCorrect | btreeidx/btreeidx.go:276-324 | deletion takes exactly the key out of the listing and reports the value it had |
| TreeDelete.DeleteInnerCorrect | btreeidx/btreeidx.go:291-312 | all three replacements remove exactly the key found in the internal node |
| TreeIndex.InsertIndexCorrect | btreeidx/btreeidx.go:213-229 | the whole invariant holds again, the map changes at one key, height grows by at most one |
| TreeIndex.RemoveIndexCorrect | btreeidx/btreeidx.go:129-152 | the whole invariant holds again, the map loses exactly the key, its old value is returned if it was there |
| TreeIndex.LookupStep | btreeidx/btreeidx.go:89-103 | one step of the descent keeps the answer of the lookup |
| TreeIndex.OccupancyBound | btreeidx/btreeidx.go:31-33 | a tree of height h holds at least 2t^h - 1 keys |
| TreeIndex.SubtreeSize | btreeidx/btreeidx.go:31-33 | a subtree of height h below the root holds at least t^(h+1) - 1 keys |
| TreeIndex.RunRefinesMap | btreeidx/btreeidx.go:112-152 | after any run of upserts and removes the tree is the plain map of that run, in logarithmic height |
| BTreeNodes.Node.Clone | btreeidx/btreeidx.go:44-55 | a fresh node with the same keys, values and children |
| BTreeNodes.Node.Search | btreeidx/btreeidx.go:58-72 | binary search returns the number of smaller keys, and whether the key is there |
| BTreeNodes.Node.InsertEntry | btreeidx/btreeidx.go:431-437 | inserts a key and its value at one position of a node |
| BTreeNodes.Node.RemoveEntry | btreeidx/btreeidx.go:440-443 | removes the key and the value of one position of a node |
| SliceCells.Copied | btreeidx/btreeidx.go:46-54 | a copied slice has the same elements in a backing array of its own |
| SliceCells.Append | btreeidx/btreeidx.go:352-355 | append writes one spare cell, or moves to a new array |
| SliceCells.Insert | btreeidx/btreeidx.go:431-437 | inserts one element, writing only to the slice's own array or a new one |
| SliceCells.Remove | btreeidx/btreeidx.go:440-443 | removes one element in place |
| SliceCells.EditedCopy | btreeidx/btreeidx.go:234-242 | inserting into a clone's slice leaves the original's elements alone |
| BTreeNodes.SplitNode | btreeidx/btreeidx.go:259-274 | two fresh nodes that hold the halves, and the median |
| BTreeNodes.InsertNode | btreeidx/btreeidx.go:233-256 | the fresh subtree of the value-level insertion; no earlier node changes |
| BTreeNodes.InsertBelow | btreeidx/btreeidx.go:240-251 | the clone gets the key, or the rewritten child with its promoted key |
| BTreeNodes.MaxEntryOf | btreeidx/btreeidx.go:415-420 | the loop finds the value-level maximum entry |
| BTreeNodes.MinEntryOf | btreeidx/btreeidx.go:423-428 | the loop finds the value-level minimum entry |
| BTreeNodes.MergeChildren | btreeidx/btreeidx.go:348-365 | edits the cloned parent and a cloned left child into the value-level merge; the right child is only read |
| BTreeNodes.BorrowFromPrev | btreeidx/btreeidx.go:368-389 | clones both siblings and edits them and the cloned parent into the value-level borrow |
| BTreeNodes.BorrowFromNext | btreeidx/btreeidx.go:392-412 | the same from the right sibling |
| BTreeNodes.FillChild | btreeidx/btreeidx.go:328-343 | the cloned parent becomes the value-level fill, and the returned index is where to descend |
| BTreeNodes.DeleteNode | btreeidx/btreeidx.go:279-324 | the fresh subtree and the value of the value-level deletion; no earlier node changes |
| BTreeNodes.DeleteFound | btreeidx/btreeidx.go:291-312 | a key found in an internal clone is replaced as the value-level deletion does |
| BTreeNodes.DeleteBelow | btreeidx/btreeidx.go:315-323 | fills if needed, descends, and puts the rewritten child back |
| BTreeScan.Walk | btreeidx/btreeidx.go:164-203 | appends exactly the in-range part of a subtree's listing; the first poll of the context that says stop ends it with what is in range to the left of the node just entered |
| BTreeScan.WalkChildren | btreeidx/btreeidx.go:189-202 | the loop over an internal node, early exit past `end` included |
| BTreeScan.WalkLeaf | btreeidx/btreeidx.go:180-188 | the loop over a leaf, early exit past `end` included |
| BTreeIndex.BTree.constructor | btreeidx/btreeidx.go:82-84 | an empty index with the default degree 32 unless another is given |
| BTreeIndex.BTree.Find | btreeidx/btreeidx.go:89-103 | the value of the map at the key; at most height + 1 nodes are visited |
| BTreeIndex.BTree.Query | btreeidx/btreeidx.go:159-205 | the in-range part of the listing (all of it when start == end); the first poll that says stop ends it with the prefix listed by then |
| BTreeIndex.BTree.Upsert | btreeidx/btreeidx.go:105-126 | stores what the check returns, or changes nothing and reports the error only for a new key; every earlier node stands for the same tree as before |
| BTreeIndex.BTree.InsertLocked | btreeidx/btreeidx.go:213-229 | the value-level insertion, with a new root above a split |
| BTreeIndex.BTree.Remove | btreeidx/btreeidx.go:129-152 | the map loses the key and its value is returned; an absent key leaves the root; every earlier node stands for the same tree as before |
| BTreeIndex.BTree.Publish | btreeidx/btreeidx.go:144-151 | an emptied internal root gives way to its child, an emptied leaf to no root |
| BTreeIndex.QueryMeaning | btreeidx/btreeidx.go:153-158 | the complete answer has exactly the bindings with start <= key <= end, everything when start == end, and is the only strictly ascending listing of them |
| BTreeIndex.VisitBound | btreeidx/btreeidx.go:31-33 | a lookup that visits v nodes needs 2t^(v-1) - 1 keys or more |
| BTreeIndex.SnapshotKept | btreeidx/btreeidx.go:44-45 | a root whose nodes are left alone stands for the same tree in any later state |
| SnapshotReads.ReadsAreSnapshots | btreeidx/btreeidx.go:89-205 | in every interleaving each finished Find or Query answers the key or bounds it was last asked for with what the map held when its reader loaded the root, and a Query stops short exactly if it was cancelled |
| SnapshotReads.ReadersNeverBlock | btreeidx/btreeidx.go:88-103 | a reader's next step is enabled in every reachable state |
| ReaderProgress.StepWork | btreeidx/btreeidx.go:89-103 | every own step of a reader lowers its work left, no step of anyone else raises it |
| ReaderProgress.OwnStepsBounded | btreeidx/btreeidx.go:89-205 | the steps a reader has made for its request and those it may still need are bounded by its root's tree, whatever writers do |
| ReaderProgress.LookupSteps | btreeidx/btreeidx.go:89-103 | a lookup makes at most h + 1 steps, and height h needs 2t^h - 1 keys |
| SnapshotReads.WritersRefineMap | btreeidx/btreeidx.go:112-152 | the map changes only at a root store, and there by the writer's operation; `WriterSteps` shows that the index makes such steps |
| SnapshotReads.LockedOp | btreeidx/btreeidx.go:112-152 | a writer at work does the operation with which the lock was last taken |
| SnapshotReads.LockHeld | btreeidx/btreeidx.go:112-114 | a writer keeps the lock until it stores or unlocks; no other takes it in between |
| SnapshotReads.WritesAreLocked | btreeidx/btreeidx.go:112-152 | only the holder of the lock writes nodes, stores a root or unlocks |
| SnapshotReads.StoresApplyLocked | btreeidx/btreeidx.go:112-152 | over whole runs each root store changes the map by the one operation that was locked, and no other step changes it |
| SnapshotReads.WriterStepInv | btreeidx/btreeidx.go:112-152 | writes to unpublished nodes and a root store keep what running readers rely on |
| WriterSteps.NodeDenotes | btreeidx/btreeidx.go:36-40 | a published valid node object denotes its tree in the machine's heap |
| WriterSteps.RootDenotesValue | btreeidx/btreeidx.go:75-79 | the machine's root denotes the value of the index object |
| WriterSteps.CallIsRun | btreeidx/btreeidx.go:112-152 | a call that leaves published nodes alone and yields the operation's value is writes to unpublished nodes and one root store, and the state mirrors the objects again |
| WriterSteps.InsertIsRun | btreeidx/btreeidx.go:213-229 | the insertion of the index class is such a call |
| WriterSteps.RemoveIsRun | btreeidx/btreeidx.go:129-152 | so is its removal; an absent key is no step but the unlocking |
| WriterSteps.ReadersKeepMirror | btreeidx/btreeidx.go:89-103 | reader steps in between change nothing the index can see |
| WriterSteps.StoreReachable | btreeidx/btreeidx.go:112-152 | from every reachable state with a locked operation some writes lead to its root store |
| SnapshotReads.ReaderStepInv | btreeidx/btreeidx.go:159-205 | every reader step keeps results plus remaining work equal to the answer for its root |
| ShardModel.OwnerDecides | shardedidx/shardedidx.go:61-65 | only the shard that the hash selects can hold a key, so it alone answers for it |
| ShardModel.ListingsDistinct | shardedidx/shardedidx.go:86-93 | the concatenated shard answers hold no key twice |
| ShardModel.SortIsStrict | shardedidx/shardedidx.go:94 | any sort of them is strictly ascending, so an unstable sort has one possible outcome |
| ShardRuns.ShardStep | shardedidx/shardedidx.go:67-76 | an operation in the owning shard is that operation on the one map, and keeps the routing |
| ShardRuns.MergedListing | shardedidx/shardedidx.go:83-96 | the sorted answers are exactly the bindings of the one map in the range |
| ShardRuns.MergedIsTreeQuery | shardedidx/shardedidx.go:83-96 | they are what a single tree with the same map answers |
| ShardRuns.ShardsRefineTree | shardedidx/shardedidx.go:49-96 | for every shard count, hash and operation sequence, lookups and queries answer as one B-tree after the same operations |
| ShardRuns.ConcurrentQuery | shardedidx/shardedidx.go:83-96 | with writers between the shard loads: strictly sorted, every binding held at some instant of the query, every binding that held throughout is there |
| ShardedIndex.Sharded.constructor | shardedidx/shardedidx.go:49-58 | the given number of empty shards, at least one |
| ShardedIndex.Sharded.Find | shardedidx/shardedidx.go:79-81 | the value of the one map at the key |
| ShardedIndex.Sharded.Upsert | shardedidx/shardedidx.go:69-71 | upsert on the one map, with the errors of a single tree |
| ShardedIndex.Sharded.Remove | shardedidx/shardedidx.go:74-76 | removal on the one map, with the old value |
| ShardRuns.PartialListing | shardedidx/shardedidx.go:83-96 | any sort of a part of the shard answers is strictly ascending and within the one map and the range |
| ShardedIndex.Sharded.Query | shardedidx/shardedidx.go:85-96 | strictly ascending, exactly the bindings in the range; under cancellation some of them |
| ShardedIndex.Sharded.Gather | shardedidx/shardedidx.go:86-93 | the loop over the shards concatenates their answers |
| ShardedIndex.SortByKey | shardedidx/shardedidx.go:94 | some ascending permutation |
| JsonPointer.Tokens | patch/patch.go:281-295 | the decoding loop yields the parsed tokens, or an error exactly for a non-empty path without a leading slash |
| JsonPointer.SplitJoin | patch/patch.go:288 | the parts of a path are the only slash-free pieces that, joined by slashes, make it up |
| JsonPointer.TwoPassesAreOne | patch/patch.go:290-291 | the two replacement passes equal one left-to-right decoding pass, stray "~" kept |
| JsonPointer.DecodeEscape | patch/patch.go:290-291 | decoding inverts the escaping of section 3 of RFC 6901 |
| JsonPointer.ParseFormat | patch/patch.go:281-295 | parsing inverts formatting for every token list |
| JsonPatch.RemoveReturnsValue | patch/patch.go:191-223 | the removed value is what the path read before |
| JsonPatch.AddThenRemove | patch/patch.go:129-223 | removing what was added at an absent member or a concrete index gives the old document and the value |
| JsonPatch.RemoveThenAdd | patch/patch.go:129-223 | adding a removed value back at its path gives the old document |
| JsonPatch.ReplaceIsRemoveThenAdd | patch/patch.go:161-188 | below the root, replace is remove then add, failures included |
| JsonPatchLaws.GetAtResolves | patch/patch.go:257-278 | reading by tokens is reading along the resolved path, failures included |
| JsonPatchLaws.GetAfterPut | patch/patch.go:129-188 | after add or replace the resolved path reads the new value |
| JsonPatchLaws.EditFrame | patch/patch.go:129-255 | every path that diverges at a member or a smaller index reads as before |
| JsonPatchLaws.SiblingsShift | patch/patch.go:145-150 | array siblings at or past the place shift by exactly one, with everything below them |
| JsonPatchLaws.MoveCarries | patch/patch.go:85-95 | after a move the target reads what the source read |
| JsonPatchLaws.MoveAndBack | patch/patch.go:85-95 | moving to a vacant place and back gives the old document |
| JsonPatchLaws.CopyCarries | patch/patch.go:97-107 | after a copy the target reads what the source reads |
| JsonPatchLaws.RemoveIfPresent | patch/patch.go:191-223 | a removal succeeds exactly at the places below the root that can be read |
| JsonPatchLaws.MoveBelowItself | patch/patch.go:85-95 | for every path that goes through the removed place, however it is spelled, the add succeeds exactly when the next array element can take the value |
| JsonPatchLaws.GoesThroughResolves | patch/patch.go:310-332 | going through a place is resolving to its steps |
| JsonPatchLaws.MoveOpBelowItself | patch/patch.go:85-95 | the same for the whole move operation |
| JsonPatchLaws.MoveBelowItselfCanSucceed | patch/patch.go:85-95 | a concrete document where it does |
| JsonPatchLaws.MalformedPathIsRoot | patch/patch.go:53-107 | with a malformed path the value that add, replace, copy or move puts there becomes the whole document; remove and test fail |
| JsonPatchLaws.MalformedPathSucceeds | patch/patch.go:297-305 | which paths are malformed, and exactly when such an operation yields a document |
| JsonPatchLaws.IndexGrammar | patch/patch.go:310-323 | which tokens are array numbers: the plain ones within 64 bits, and two signed forms |
| JsonPatchLaws.IndexResolves | patch/patch.go:310-332 | exactly which tokens resolve to a given position, "-" and the end position included |
| JsonPatchOps.ShowSpells | patch/patch.go:310-323 | the decimal form of every number is a plain token that spells it |
| JsonPatchOps.SpelledByShow | patch/patch.go:310-323 | no other plain token spells it |
| JsonPatchOps.AddIfRoom | patch/patch.go:129-158 | an add succeeds exactly at the root, at any member of an object that can be read, or at a position or the end of an array that can be read |
| JsonPatchOps.ReplaceIfPresent | patch/patch.go:161-188 | a replacement succeeds exactly at the root and at places that can be read |
| JsonPatchOps.AddOp | patch/patch.go:55-60 | exactly when the add operation succeeds; the place then reads the given value |
| JsonPatchOps.ReplaceOp | patch/patch.go:61-66 | the same for replace |
| JsonPatchOps.RemoveOp | patch/patch.go:67-73 | the remove operation succeeds exactly at readable places below the root, and adding the value back undoes it |
| JsonPatchOps.MoveSucceeds | patch/patch.go:85-95 | exactly when a move succeeds: `from` can be read below the root, and what is left has room at `path` |
| JsonPatchOps.CopySucceeds | patch/patch.go:97-107 | exactly when a copy succeeds |
| JsonPatchOps.TestOp | patch/patch.go:109-126 | a test succeeds exactly if the place reads the given value, and changes nothing |
| JsonPatchOps.UnknownOp | patch/patch.go:79-82 | any other operation name fails |
| JsonPatchOps.PatchIsItsSteps | patch/patch.go:43-50 | a patch yields a document exactly if there is one document per operation, each made by its operation from the one before, the last being the result; it fails exactly if some operation fails on what those before it left |
| JsonPatchOps.PatchConcat | patch/patch.go:43-50 | a patch of two parts is the second part applied to what the first leaves, and fails if either does |
| PatchHeap.RearrangedFits | patch/patch.go:129-255 | slots kept, moved or newly filled by an unshared value make a container without sharing |
| PatchHeap.SetMember | patch/patch.go:172-173 | writes a member in place; the container stays unshared |
| PatchHeap.DropMember | patch/patch.go:199-204 | deletes a member in place and hands out its detached value |
| PatchHeap.SetCell | patch/patch.go:175-180 | overwrites an array cell in place |
| PatchHeap.DropCell | patch/patch.go:206-211 | shifts the backing array down; the stale last cell is past the new length |
| PatchHeap.InsertCell | patch/patch.go:139-150 | shifts up inside spare capacity, or in a bigger backing array |
| PatchHeap.WriteBack | patch/patch.go:239-251 | stores a rewritten child, giving up what it replaced |
| PatchHeap.EditPath | patch/patch.go:129-255 | the in-place edit along a path computes the value-level edit and leaves an unshared document |
| PatchHeap.EditBelow | patch/patch.go:227-255 | one level of the descent, with write-back |
| PatchApply.Unmarshal | patch/patch.go:334-343 | a decoded value is a fresh unshared tree, whatever spare capacity its slices grew |
| PatchApply.DeepCopy | patch/patch.go:345-362 | an equal value made of fresh containers only |
| PatchApply.GetVal | patch/patch.go:257-278 | the loop reads what the value-level path reads, or fails as it does |
| PatchApply.Move | patch/patch.go:85-95 | in place, the value-level move, without sharing |
| PatchApply.CopyOp | patch/patch.go:97-107 | in place, the value-level copy, without sharing |
| PatchApply.Test | patch/patch.go:109-126 | the document itself, exactly when the place reads the given value |
| PatchApply.DeepEqual | patch/patch.go:122-124 | walking two heap trees in parallel decides whether they hold equal values |
| PatchApply.ApplyOne | patch/patch.go:53-83 | one operation in place is the value-level operation and keeps the document a tree |
| PatchApply.Apply | patch/patch.go:32-51 | in place, all operations one after the other: a result is reached through one document per operation, and no result means that some operation fails on what those before it left |
| SnapshotWriter.StepInv | dbServer/server.go:62-115 | every step of requests, writer and Close keeps the invariant: a change is covered exactly if it was not too late for Close's own save when it was made |
| SnapshotWriter.NoLostChange | dbServer/server.go:62-149 | in every reachable state each signalled change is in the file, or covered by a token, a debounce, a save that read it or has yet to read it, or the final save, exactly if it was not too late; no change made before Close was called is too late |
| SnapshotWriter.LostIffTooLate | dbServer/server.go:108-149 | in every continuation a change gets into the final file if and only if, when it is made, Close's own save has not yet read its place |
| SnapshotWriter.LateChangeIsLost | dbServer/server.go:108-115 | a run whose signalled change is missing from the final file |
| SnapshotWriter.AllCaught | dbServer/server.go:119-149 | a save that read every place after its last change wrote the current memory |
| SnapshotWriter.QuietMeansSaved | dbServer/server.go:70-99 | an idle writer with an empty slot and all changes signalled means file equals memory |
| SnapshotWriter.CloseSavesAll | dbServer/server.go:108-115 | every part of the final file was read after Close was called, so it has every change completed before |
| SnapshotWriter.ClosedFileIsFinal | dbServer/server.go:108-115 | nothing is saved after the final save |
| SnapshotWriter.StepDecreases | dbServer/server.go:70-149 | once changes stop, every step, those of Close and its save included, lowers the measure over unsignalled changes, token, phases, timer and stores left |
| SnapshotWriter.SomeStep | dbServer/server.go:70-99 | before Close, while something is left to do, a step that does it is enabled |
| SnapshotWriter.WriterFinishes | dbServer/server.go:70-99 | every run of the writer alone is bounded, and one that cannot go on is idle with file equal to memory |
| SnapshotWriter.SomeCloseStep | dbServer/server.go:108-149 | from the call of Close until it is done, a step of Close or the writer is enabled, and then of the handlers that have yet to signal |
| SnapshotWriter.CloseFinishes | dbServer/server.go:108-149 | after Close is called, runs without changes are bounded, and one that cannot go on has closed, with file equal to memory if nothing changed since the call |
| SnapshotWriter.CloseReached | dbServer/server.go:108-149 | from every reachable state in which Close was called, steps of Close and the writer alone finish it |
| SnapshotWriter.CloseInstant | dbServer/server.go:108-109 | the instant that these statements call the call of Close is that of its step |
| SnapshotWriter.ClosedMeansSaved | dbServer/server.go:108-115 | closed, with no change since Close was called, means file equals memory |
| SnapshotWriter.SaveAfterQuiet | dbServer/server.go:76-93 | a background save starts only after the timer ran out with no signal received since it was last set |
| SnapshotWriter.SignalReceived | dbServer/server.go:74-87 | an idle or settling writer can always receive a signal, which empties the slot and sets the timer anew |
| SnapshotWriter.SaveStartsAndEnds | dbServer/server.go:94-112 | only the settled writer or Close starts a save, and only writing its finished image ends it |
| SnapshotWriter.ChangeShows | dbServer/server.go:119-149 | what a save that follows a change must show: the new documents of a store under all its names, an empty new store, no dropped one |
| Ids.PastSentinel | db/snapshot.go:12-13 | an id lies past the sentinel exactly when it extends it |
| Ids.BeforeIsTotalOrder | main.go:93-107 | the string order of ids is a strict total order, as the index requires |
| DocumentModel.MetadataHistory | db/db.go:58-73 | in every interleaving, from any loaded store, a document has the creation fields it was loaded with or the user and clock of the write that created it, and the user, clock and data of its last overwrite, or those it began with |
| DocumentModel.ExistsIffCreated | db/db.go:58-104 | a document exists exactly when its loaded incarnation was never deleted or one of its writes has no delete after it |
| DocumentModel.EmptyIdUntouched | db/db.go:59-61 | a loaded document with the empty id stays as it is until it is deleted |
| DocumentModel.SnapshotFields | db/snapshot.go:16-49 | which field of the snapshot form holds which field of the document, both ways |
| DocumentModel.ExportThenRestore | db/snapshot.go:16-49 | export then restore gives back every document and all four metadata fields exactly when no id extends the sentinel |
| DocumentModel.LostId | db/snapshot.go:12-35 | a concrete id that no snapshot keeps |
| Documents.Database.constructor | db/db.go:46-52 | an empty store |
| Documents.Database.WriteDocument | db/db.go:58-73 | a new document has the caller as creator and last writer, both clock readings and the data; an overwrite keeps the creation fields; an empty id is an error, a refused overwrite changes nothing and is no error |
| Documents.Database.ReadDocument | db/db.go:76-82 | the document of the id, if any |
| Documents.Database.ListDocuments | db/db.go:84-96 | ascending, only documents in the range, without gaps, all of them unless cancelled; equal bounds mean the whole store |
| Documents.ListingFacts | db/db.go:86-95 | why: a prefix of the index's answer has these properties, the whole answer is complete |
| Documents.Database.DeleteDocument | db/db.go:99-104 | removes exactly the id, or reports that it is absent and changes nothing |
| Documents.Database.ExportSnapshot | db/snapshot.go:16-35 | exactly the documents up to the sentinel, in snapshot form |
| Documents.Database.ImportSnapshot | db/snapshot.go:39-49 | adds the restored documents, whatever the iteration order of the map |
| Persistence.Server.SaveSnapshot | dbServer/server.go:119-149 | the file holds every store up to the sentinel; without a path nothing changes |
| Persistence.Server.LoadSnapshot | dbServer/server.go:153-185 | the stores of the file are added, whatever the iteration order; without a path or file nothing changes |
| Persistence.SaveThenLoad | dbServer/server.go:117-185 | save then load gives all stores back exactly when no name or id extends the sentinel |
| Persistence.LostStore | dbServer/server.go:126-130 | a concrete store name that no snapshot keeps |

## Left out

- HTTP handlers, routing, server-sent events, the admin page, authentication, schema validation: input/output around the core; only "a request changes a store, then signals" is kept, as steps of `SnapshotWriter`.
- JSON text, number formats and the file system: documents are trees over opaque scalars, document data is an opaque string, the snapshot file is a value, and a save or rename does not fail.
- Error texts: an error is a missing result or a constructor.
- The Go memory model: atomic loads and stores, mutex and channel operations are single steps; the timer is armed or fired.
- Sharing of backing arrays across a whole B-tree operation: a node's slices are sequences in its fields. `SliceCells` proves slice by slice that a clone has its own backing array and that edits write only there or to a new one; that no two nodes ever share one is not carried through the tree.
- FNV hashing: an arbitrary function of the key.
- NaN keys: the key order must be total; the program uses strings.
- Strings that are not valid UTF-8: ids are sequences of code points.
- ShardedIndex.SortByKey: stands for sort.Slice by its contract; the library's algorithm is not part of this model.
- SnapshotWriter.NoLostChange: takes the export of one store, and the listing of stores, as one step each, which is what one B-tree query is by `SnapshotReads.ReadsAreSnapshots`; with the sharded index an export reads one shard after another. No bound is claimed while changes keep coming, since each one can reset the timer.
- Documents.Database.ListDocuments: runs over one B-tree; over the sharded index the answers are the same by `ShardRuns.ShardsRefineTree`.
- PatchHeap.EditPath: is one member for the three recursive edits add, replace and remove, which differ only at the last token.
- Persistence.Server.SaveSnapshot: runs without requests in between; those are in `SnapshotWriter`.
