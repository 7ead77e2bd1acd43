# Verified models of the compositor's state-heavy cores

Dafny models of the algorithms in the compositor whose promises are exact, with proofs
that the promises hold. Each module follows one core of the repository: its operations
are modelled branch for branch, imperative code as methods and classes, and what the
code or its documentation promises is stated about them and proved for all inputs,
all runs or all interleavings. Pixels, samples and coefficients are opaque values.

    dafny verify dfyconfig.toml

| files | what they model |
|---|---|
| HamtTrie, HamtStore, HamtOps, HamtVersions, HamtRecovery | the reference-counted, path-copying 32-way map over 64-bit ids; many versions over shared nodes; recovery of the counts |
| Records, Document, Journaling | object records; single-publish transactions, revision stamps, touched ids; coalescing, undo and redo under a byte budget |
| DocumentTrie | the same writes, commits, coalescing and navigation as they run on the trie and its counted slots |
| ChunkChains, Membership, ContentChains, ChunkOwners | layer order inline or in chunk chains; identity text and input lists; whose chunk is whose over a whole document |
| RasterPyramid, RasterPaint, TileBlobs, RasterStore | tiled mip pyramid, incremental repair after a paint, tile counts, version slots |
| DamagePlanning, RepaintRegions | the banded sweep over dirty rectangles, against a pixel-by-pixel reference |
| Resampler | polyphase conversion, whole-stream and streaming |
| SlotPool | the two-level slot allocator with quarantine and restore |
| Lookahead | the seqlock ring, as interleaved single accesses |
| RationalTime | reduced 64-bit rationals and affine time maps |
| Refinement | the refinement queue, the gates that consult it, the deadline sweep |
| TileGrid | tile coverage, delivery windows, coarser fallbacks |
| PyramidCache | the pinned, budgeted image cache |
| Mixer, RevisionFold | the 64-bit mixer, the revision fold over cyclic graphs |
| DamageRouting, DamagePaths | damage routing, and exactly what its memo can miss |
| Checksums, PngFormat, PngWriter | CRC-32, Adler-32, the PNG writer and a reader for it |
| Bits, Numbers, Sequences, Wrappers | machine words by arithmetic; quotients, bounds and C++ division; lists without repetition; Option and Result |

How to read it. A count, an owner map or a chain of documents that only the proof needs is
a ghost value beside the real state, and a class's `Valid()` says how the two agree: since
every method keeps it, it holds after every run. `Journaling.Journal.Valid` says that the
applied entries lead, document by document, to the published one. What a run can lose is a
predicate of its own, and each method says when it keeps it: that the redo tail leads on
from the published document (`Journaling.Journal.Threaded`), and that the documents it
leads through are the very ones that were published (`Journaling.Journal.Anchored`).
Allocation refusals are inputs (`limit`, `grants`, `granted`), so each failure path is
covered at each point it can strike. The references `RowSweep`, `IsPyramid` and `ReadPng`
do not look at the algorithm they judge; `OutFrame`, the frame every resampler output is
compared with, is the whole-stream form of the code's own position and taps.

Five places where the code does not do what is said or expected of it:

- `src/model/journal.cpp:67-69` says trimming only follows an append. `set_byte_budget`
  trims too; after undos it may drop entries that are not applied, and redo then rebinds
  records over a document the entry never saw, so that undo does not return from it.
  `Journaling.TrimBelowTheCursorLosesTheAnchor` runs into it. Redo and undo return exactly
  when the document holds, for every object the entries touch, the record the first of them
  names as the one before (`Journaling.Journal.SetByteBudget`, `Journaling.Journal.RedoUndo`).
  What is applied is not harmed: after any run, undo and redo return
  (`Journaling.Journal.UndoRedo`).
- `src/compositor/operator_graph.cpp:77-101` keeps for every later descent what it found
  out below one. Damage is lost along a chain that repeats nothing: on a cyclic graph
  (`DamageRouting.MemoLosesDamageOnACycle`), and on an acyclic one whose contents are first
  met near the end of the depth budget (`DamageRouting.MemoLosesDamageAtTheBudget`).
  Over all orders of the inputs, no such chain is missed exactly when every descent within
  the budget that enters one leaves room for the rest of it
  (`DamagePaths.NoRouteMissedIffCrossingsFit`), and no chain at all exactly when none is
  longer than the budget (`DamagePaths.RoutesEverythingIffWithinBudget`).
- `src/model/model.cpp:1935-1951` removes one record. The chunks of a removed composition or
  content stay behind, owned by nobody (`ChunkOwners.RemovedContentLeavesItsText`): exactly its
  own, and none only when it had none (`ChunkOwners.RemoveOrphansExactlyItsChunks`).
- `src/compositor/tile_planning.cpp:232-246` says a region narrower than two aprons is
  held whole by its centre's tile. That holds when it is so narrow in both axes
  (`TileGrid.ThinRegionIsShown`), not in one (`TileGrid.ThinStripIsNotShown`).
- `src/audio_engine/lookahead.cpp:443-459` can answer true for the reserved index of an
  empty slot, at any capacity and block length (`Lookahead.DrainingTheSentinelLies`). A true
  answer is a delivered block exactly when the index asked for is not that one
  (`Lookahead.DrainIsAllOrSilence`).

## Model

| member | source | states |
|---|---|---|
| `HamtTrie.DistinctKeysDiffer` | src/model/model.cpp:104-132 | two distinct 64-bit keys differ in one of the thirteen 5-bit digits, so the descent of `split` ends at a shift of at most 60 |
| `HamtTrie.DigitsAreBase32` | src/model/model.cpp:104-132 | the digits are the key's in base 32, the lowest first |
| `HamtTrie.BindingsAreFinds` | src/model/model.cpp:350-374 | a well-formed trie stands for a finite map: a key is in it exactly when following its digits ends at its leaf, with that record |
| `HamtTrie.ExtendedTrieReadsAlike` | src/model/model.cpp:58-95 | while nodes are only added, an existing trie keeps its shape and every lookup in it |
| `HamtStore.RetainNodeExact` | src/model/model.cpp:25-30 | one retain on a counted slot keeps every count exact for one more handle |
| `HamtStore.RetainRecordExact` | src/model/model.cpp:32-37 | the same for record slots |
| `HamtStore.ReleaseNodeExact` | src/model/arbc/model/hamt.hpp:103-121 | one release keeps every count exact for one handle less, and queues the slot exactly when its count reaches zero |
| `HamtStore.StoreChildExact` | src/model/model.cpp:63-95 | storing a child edge turns one held count into one edge: all counts stay exact |
| `HamtStore.StoreLeafExact` | src/model/model.cpp:41-56 | storing a record edge in a leaf turns one held record count into one edge |
| `HamtStore.SaturatedMeansCrowded` | src/model/model.cpp:21-37 | a count can refuse to grow only when that many edges and handles exist |
| `HamtOps.MakeLeaf` | src/model/model.cpp:41-56 | a fresh leaf with its own record count; refused allocation or saturation leaves every count exact |
| `HamtOps.BranchWithChild` | src/model/model.cpp:63-95 | a fresh branch with the base's children and one replaced, siblings shared; a refusal at any of the up to 33 steps leaves every count exact |
| `HamtOps.BranchWithoutChild` | src/model/model.cpp:190-214 | a fresh branch sharing every child but one; the same on every failure path |
| `HamtOps.Split` | src/model/model.cpp:104-132 | the new subtrie binds both keys and nothing else; at most one new node for each level left and one more |
| `HamtOps.InsertRec` | src/model/model.cpp:134-159 | the new subtrie reads as the old one except that it binds the key; older nodes are untouched; fails only when the pool is out or a count saturated |
| `HamtOps.ShareNode` | src/model/model.cpp:180-186 | a second owning handle on an unchanged subtree, or a refusal with exact counts |
| `HamtOps.CollapsedBranchReads` | src/model/model.cpp:240-253 | a branch left with a single leaf child reads, without the erased key, as that leaf |
| `HamtOps.DropChild` | src/model/model.cpp:243-256 | dropping an emptied child (collapse, empty branch or one edge less) gives the subtrie without the key |
| `HamtOps.EraseRec` | src/model/model.cpp:221-256 | the new subtrie reads as the old one without the key, and is absent only when nothing is left |
| `HamtVersions.HamtInsert` | src/model/model.cpp:334-340 | the new root's map is the old map with the key bound; on refusal all counts are exact and every older node is as it was |
| `HamtVersions.HamtErase` | src/model/model.cpp:342-348 | the new root's map is the old map without the key, and the root is absent exactly when the map is empty |
| `HamtVersions.HamtLookup` | src/model/model.cpp:350-374 | the loop ends and answers what the root's map binds |
| `HamtVersions.DestroyNode` | src/model/arbc/model/hamt.hpp:103-121 | destroying an uncounted node gives back every count it owned; children that reach zero are queued |
| `HamtVersions.Drain` | src/model/model.cpp:933-936 | destroying in any order until nothing is queued terminates with all counts exact and only deletes |
| `HamtVersions.DrainKeepsHeldVersions` | src/model/model.cpp:933-936 | a version somebody holds reads the same map after any drain |
| `HamtVersions.ExtendedVersions` | src/model/model.cpp:177-186 | a version keeps its map while other versions are built over shared nodes |
| `HamtVersions.NothingLeaks` | src/model/model.cpp:933-936 | after a drain every live node lies in every set that holds the handles and is closed under child edges: it is reachable |
| `HamtVersions.NoRecordLeaks` | src/model/model.cpp:933-936 | after a drain every live record is held or bound by a live leaf |
| `HamtVersions.PutRecord` | src/model/model.cpp:1046-1072 | create, insert and give up the creator's count: on success one more version, on failure at any point exact counts and no version moved |
| `HamtVersions.Versions.Put` | src/model/model.cpp:1046-1072 | any number of held roots side by side: a put adds the version with the key rebound, and every older root still reads its own map |
| `HamtVersions.Versions.Erase` | src/model/model.cpp:1935-1951 | an erase adds the version without the key, every older root unchanged |
| `HamtVersions.Versions.Drop` | src/model/model.cpp:910-917 | letting go of one version changes no other |
| `HamtVersions.Versions.Collect` | src/model/model.cpp:933-936 | reclaims everything no held version reaches and nothing else |
| `HamtRecovery.ExpandBranch` | src/model/model.cpp:877-894 | one branch: each child edge counted, each child listed and stacked on first sight only |
| `HamtRecovery.RebuildCounts` | src/model/model.cpp:826-897 | the rebuilt counts are the in-degrees among reachable edges plus the version handle, the listed slots are exactly the reachable ones, once each, under any sharing; the collected content states are exactly the non-zero ones the listed records carry, each under its record's id and kind, as many as there are and in the records' order |
| `HamtRecovery.ReopenRestoresCounts` | src/model/model.cpp:826-897 | a drained document whose only handle is its root gets back exactly its own counts |
| `HamtRecovery.Resume` | src/model/model.cpp:790-818 | the id counter resumes one past the greatest reachable id and a document with a root one above the greatest reachable stamp, so above every bound record's; without a root nothing is reachable and it is the empty document at revision 0 |
| `Document.FoldEdit` | src/model/model.cpp:378-402 | folding one edit keeps the first before and the last after of each object, objects distinct |
| `Records.WriteForks` | src/model/model.cpp:1008-1015 | a write listed by `touch` keeps the working tree a fork: it differs from its base at listed ids only, and what it holds there carries the new stamp |
| `Document.CoalesceEntries` | src/model/model.cpp:378-409 | the merged entry is first-before, last-after over the union of touched objects and contents, under the base's key |
| `Document.MergedEditsMap` | src/model/model.cpp:378-409 | if the two entries turn d0 into d1 and d1 into d2, the merged one turns d0 into d2 and changes nothing else |
| `Document.Navigate` | src/model/model.cpp:2034-2065 | every touched object is rebound to (or erased for) its target, everything else is as it was; refused exactly when the pool runs out |
| `Document.NavigationInverts` | src/model/model.cpp:2034-2077 | navigating an entry from the document on one side of it gives the document on the other side, record for record |
| `Document.StampedByTransaction` | src/model/model.cpp:996-1006 | what a transaction publishes never reuses an (object, stamp) pair of an earlier published record |
| `Document.Model.Publish` | src/model/model.cpp:2015-2020 | one publish moves the revision up by one and keeps stamps unique over everything ever published |
| `Document.Model.LoadBaseline` | src/model/model.cpp:959-992 | a load publishes its records stamped 0 as revision 0, or nothing when its build failed |
| `Document.Transaction.Put` | src/model/model.cpp:1046-1072 | rebinds one record stamped with the publish revision; inert after the first refusal |
| `Document.Transaction.Remove` | src/model/model.cpp:1935-1951 | erases exactly the named record, and only if present |
| `Document.Transaction.SetContentState` | src/model/model.cpp:1697-1758 | a no-op off content objects, else a stamped copy with the new handle and one (before, after) pair per object |
| `Document.Transaction.AttachLayer` | src/model/model.cpp:1590-1621 | on the working tree of an open transaction: a refused transaction and a no-op change nothing; otherwise the list is the old one with the layer inserted, the whole document stays organized with no chunk left behind, and the tree stays a fork whose every change is touched |
| `Document.Transaction.DetachLayer` | src/model/model.cpp:1627-1662 | the same for the first occurrence removed |
| `Document.Transaction.ReorderLayer` | src/model/model.cpp:1664-1695 | the same for a move |
| `Document.Transaction.SetContentIdentity` | src/model/model.cpp:1870-1898 | the same for a content's identity text, its inputs kept |
| `Document.Transaction.SetContentInputs` | src/model/model.cpp:1900-1933 | the same for a content's inputs, its identity kept |
| `Document.Transaction.Abort` | src/model/model.cpp:1960-1971 | an open transaction drops its tree and edits, a closed one is unchanged |
| `Document.Transaction.BuildEntry` | src/model/model.cpp:1981-2013 | the entry turns the base document into the working one, with one pair for each touched id, in touch order |
| `Document.Transaction.Commit` | src/model/model.cpp:1973-2030 | publishes once or not at all, and the entry handed on maps the document before the commit to the one after |
| `DocumentTrie.StillShows` | src/model/model.cpp:350-374 | a version shows the same document, record for record, while nodes and records are only added |
| `DocumentTrie.ShownUnique` | src/model/model.cpp:350-374 | a root and the records under it show one document only |
| `DocumentTrie.ReboundShows` | src/model/model.cpp:334-348 | binding or erasing one key in the trie is binding or erasing that object in the document |
| `DocumentTrie.WriteObject` | src/model/model.cpp:1081-1108 | create, insert and let the old working root go: the document with that record written, or the pool's refusal with the working root as it was; counts exact either way |
| `DocumentTrie.BuildEntry` | src/model/model.cpp:1990-2012 | the entry owns, with exact counts, what either root binds to each touched id; the first refused retain gives back every one before it |
| `DocumentTrie.NamesMap` | src/model/model.cpp:1990-2012 | read through the records, the entry maps the base document to the new one and every untouched object is the same in both |
| `DocumentTrie.Rebind` | src/model/model.cpp:2034-2068 | the loop over the entry's edits shows the document with each object rebound; a refusal at any edit gives the partial root back with exact counts |
| `DocumentTrie.Workspace.Begin` | src/model/model.cpp:996-1006 | the working root is the published one with a handle of its own, and the draft the published document |
| `DocumentTrie.Workspace.Put` | src/model/model.cpp:1081-1108 | on the stores a setter is `Records.Write` of the draft; a refusal is the pool's, leaves the draft and makes the transaction inert; every version, entry and count stays exact |
| `DocumentTrie.Workspace.Remove` | src/model/model.cpp:1935-1951 | on the stores a remove is `Records.Erase` of the draft, a no-op on an absent object, with the same refusals |
| `DocumentTrie.Workspace.Commit` | src/model/model.cpp:1973-2030 | one version and one owning entry more, the entry mapping the published document to the draft, or neither: a refused retain leaves all counts exact |
| `DocumentTrie.Workspace.Abort` | src/model/model.cpp:1960-1971 | the working tree goes and its handle with it |
| `DocumentTrie.Workspace.Navigate` | src/model/model.cpp:2034-2077 | one version more, the published document with the entry's objects rebound, or none: counts exact either way, older versions and entries untouched |
| `DocumentTrie.Workspace.Forget` | src/model/model.cpp:910-917 | an older version goes and every other still shows its document |
| `DocumentTrie.Workspace.Discard` | src/model/journal.cpp:60-78 | a dropped entry gives up each record it owned, once for each side that named it |
| `DocumentTrie.FoldSlots` | src/model/model.cpp:378-393 | folding one edit: a known object keeps its first edge and trades its last for a copy of the new one, an unknown one comes with copies of both; counts exact, and a saturated count means that crowded a store |
| `DocumentTrie.MergeSlots` | src/model/model.cpp:378-393 | the whole loop and the end of the entry folded in: the merge owns what the two did less the records between, counts exact |
| `DocumentTrie.Workspace.Coalesce` | src/model/journal.cpp:80-95 | one entry for the last two on the stores, first edges before and last edges after, the middle records given up; versions and other entries untouched |
| `DocumentTrie.MergeReads` | src/model/model.cpp:378-402 | read through the records, the merge of two entries is the merge of what they read as |
| `DocumentTrie.CoalesceThenUndo` | src/model/journal.cpp:80-138 | two commits coalesced on the stores are one undo: a single navigation publishes the document before the first |
| `DocumentTrie.Workspace.Collect` | src/model/model.cpp:933-936 | a drain leaves no node the versions do not reach and no record that neither a leaf binds nor an entry owns |
| `DocumentTrie.CommitThenUndo` | src/model/model.cpp:1973-2077 | on the stores, undoing a commit publishes the document before it, record for record |
| `Journaling.EntryCost` | src/model/journal.cpp:15-35 | one record size for each owning edge plus the cost of each content handle |
| `Journaling.DroppedIsLeast` | src/model/journal.cpp:60-78 | the trim drops the least number of front entries after which the rest fits the budget or one entry is left |
| `Journaling.Journal.Trim` | src/model/journal.cpp:60-78 | exactly that prefix goes; cursor and total cost follow |
| `Journaling.Journal.FoldIntoTip` | src/model/journal.cpp:80-95 | a coalesced commit leaves one tip entry mapping the document before the gesture to the one after, recosted |
| `Journaling.Journal.Append` | src/model/journal.cpp:97-113 | an appended commit is the new tip and the cursor follows |
| `Journaling.Journal.DropRedoTail` | src/model/journal.cpp:97-104 | exactly the entries past the cursor go, and their costs |
| `Journaling.Journal.OnCommit` | src/model/journal.cpp:80-113 | fold or append then trim, in any state: costs sum up, every entry is sound, the cursor is at the tip and the entries lead to the new document, whatever was trimmed before; when the history was anchored, or nothing was applied, it is anchored |
| `Journaling.Journal.Commit` | src/model/model.cpp:1973-2030 | a transaction commit and its journaling together, in any state: the published document, the entry between it and the one before, the whole new history, and that it leads to that document; nothing moves when it does not publish |
| `Journaling.Journal.Step` | src/model/model.cpp:2034-2077 | one undo or redo is an ordinary publish of the document on the entry's other side; refused, nothing moves |
| `Journaling.Journal.Undo` | src/model/journal.cpp:115-138 | moves one entry back exactly when there is one and the pool grants the copies; the entry maps the document published to the one it was undone on, and the rest of the applied entries lead to it |
| `Journaling.Journal.Redo` | src/model/journal.cpp:140-157 | moves one entry on exactly when there is one and the pool grants the copies; with that entry, the applied ones lead to the document published, even where the entry was not made on it |
| `Journaling.Journal.SetByteBudget` | src/model/journal.cpp:60-78 | re-budgeting drops the same prefix; afterwards the redo tail leads on from the current document exactly when that holds, for every object a retained entry touches, what the first such entry names before; always when no more entries go than are applied and it did before |
| `Journaling.ThreadsExactly` | src/model/journal.cpp:60-78 | wherever the applied entries lead to a document, some chain through all the entries passes it exactly when it holds what the entries past the cursor first expect, object by object |
| `Journaling.Journal.UndoRedo` | src/model/journal.cpp:115-157 | in every reachable state k undos and then k redos restore the identical document, at revision + 2k |
| `Journaling.Journal.RedoUndo` | src/model/journal.cpp:115-157 | in every reachable state k redos and then k undos restore the identical document exactly when it holds what the k entries first expect; no condition when the redo tail leads on |
| `Journaling.LeadsBack` | src/model/model.cpp:2034-2077 | undone from any document the applied entries lead to, an entry maps the result back to it and the entries before it lead to the result |
| `Journaling.LeadsOn` | src/model/model.cpp:2034-2077 | redone from any document the applied entries lead to, with the next entry they lead to the result |
| `Journaling.CommitKeepsTheChainExactly` | src/model/journal.cpp:97-113 | some documents lead through the applied entries and a new one to the new document exactly when some led through the applied entries to the document it was made on |
| `Journaling.CoalescesExactly` | src/model/journal.cpp:80-113 | a commit folds into the tip exactly when it repeats the tip's non-zero key with the cursor there, and then there is no entry more; otherwise it follows the applied entries; the budget takes from the front only, never the tip, and nothing when all fits |
| `Journaling.AttachUndoRedo` | src/model/model.cpp:1590-1621 | attach, commit, undo, redo, on the real journal in any state: the layer order reads back as it was, then with the layer in it, whether inline or spilled and whatever was trimmed, then or before |
| `Journaling.TrimBelowTheCursorLosesTheAnchor` | src/model/journal.cpp:64-69 | a run of the journal: two commits, two undos, a budget of one record, redo, undo ends in a document that is not the one the redo started from |
| `ChunkChains.ReadChain` | src/model/model.cpp:296-313 | following the links collects exactly the chain's items and chunk ids, in order |
| `ChunkChains.ChainHolds` | src/model/model.cpp:296-313 | chunk p holds the items from 8p (bytes from 96p) on, every chunk but the last is full, and each names the next |
| `ChunkChains.FlattenParts` | src/model/model.cpp:1453-1588 | cutting a list into chunk-sized parts and joining them gives the list |
| `ChunkChains.EraseAll` | src/model/model.cpp:1453-1588 | every listed record goes and no other; exactly these ids are touched |
| `Membership.MoveAndBack` | src/model/model.cpp:1664-1695 | a move and its reverse cancel |
| `Membership.MovePermutes` | src/model/model.cpp:1664-1695 | a move keeps every layer as often as it was there |
| `Membership.MovedKeepsTheRest` | src/model/model.cpp:1686-1689 | what a move is, place by place, and that with the moved layer left out on both sides the order is the one it was |
| `Membership.AttachAndDetach` | src/model/model.cpp:1590-1662 | detaching what was just attached ahead of any other occurrence gives the list back |
| `Membership.InsertedAt` | src/model/model.cpp:1614-1616 | inserting puts the layer at the index and moves what was there and after it one place on |
| `Membership.RemovedAt` | src/model/model.cpp:1655-1656 | removing moves what stood after the index up one place |
| `Membership.ReadLayerOrder` | src/model/model.cpp:262-290 | inline or spilled, the records read back as the list they store |
| `Membership.MembershipIsStored` | src/model/model.cpp:1453-1588 | up to eight members in the record itself, more in chunks of eight alone, all full but the last, the first named by the record |
| `Membership.RewriteChunk` | src/model/model.cpp:1453-1588 | a chunk whose members and link did not change is the very record it was |
| `Membership.StoreInline` | src/model/model.cpp:1453-1588 | a list of at most eight is stored inline and its whole old chain is gone; exactly these chunks and the owner are touched |
| `Membership.StoreSpilled` | src/model/model.cpp:1453-1588 | a longer list is stored in ceil(n/8) chunks, ids reused by position, growth minted, surplus erased; exactly the owner, the surplus and the chunks rewritten are touched |
| `Membership.StoreMembership` | src/model/model.cpp:1453-1588 | at any size, across inline and spilled: the new list reads back, unchanged chunks are shared and not touched, no chunk leaks, no other record changes, and every change is touched, a refusal half way included |
| `Membership.AttachLayer` | src/model/model.cpp:1590-1621 | attach is insertion at the index clamped to the length; a no-op off compositions or for an unknown layer |
| `Membership.DetachLayer` | src/model/model.cpp:1627-1662 | detach removes the first occurrence; a non-member changes nothing |
| `Membership.ReorderLayer` | src/model/model.cpp:1664-1695 | the stored order has the layer at its new place, the ones passed over moved up or down by one, and all others where they were; out of range or in place changes nothing |
| `Membership.MembershipUnique` | src/model/model.cpp:262-290 | the records determine one list and one chain |
| `ContentChains.IdentityRoundTrip` | src/model/model.cpp:314-330 | kind id and parameters read back as written exactly when the kind id has no NUL |
| `ContentChains.ClearedWhenEmpty` | src/model/model.cpp:1870-1887 | a content is left without an identity chain exactly when kind id and parameters are both empty |
| `ContentChains.TextIsStored` | src/model/model.cpp:1870-1897 | the identity text stands in chunks of 96 bytes, the first named by the record |
| `ContentChains.InputsAreStored` | src/model/model.cpp:1900-1933 | up to four inputs in the record itself, more in chunks of eight alone, the first named by the record |
| `ContentChains.ContentIdentity` | src/model/model.cpp:480-491 | the stored text split at its first NUL; empty off content objects |
| `ContentChains.ContentInputs` | src/model/model.cpp:493-512 | the input list, inline or chained; empty off content objects |
| `ContentChains.WriteChain` | src/model/model.cpp:1769-1868 | the old chain is gone, a fresh one holds the items, nothing else changed, and exactly both chains are touched |
| `ContentChains.SetContentIdentity` | src/model/model.cpp:1870-1898 | the new text is stored, the inputs and every other record kept, no chunk leaked |
| `ContentChains.SetContentInputs` | src/model/model.cpp:1900-1933 | the new inputs are stored, inline up to four, the identity kept, no chunk leaked |
| `ChunkOwners.RelaidKeepsOrganized` | src/model/model.cpp:1453-1588 | over the whole document: an edit of one owner's lists keeps every owner well formed and all chains apart, and leaves no chunk without an owner |
| `ChunkOwners.SetterKeepsOrganized` | src/model/model.cpp:1110-1451 | setting a field other than its lists keeps every owner's lists, chunks included |
| `ChunkOwners.AddKeepsOrganized` | src/model/model.cpp:1017-1108 | adding a layer, or an owner with empty lists, keeps the document organized |
| `ChunkOwners.RemoveOrphansExactlyItsChunks` | src/model/model.cpp:1935-1951 | removing an object keeps the other owners organized, and the chunks it leaves without an owner are exactly its own |
| `ChunkOwners.RemovedContentLeavesItsText` | src/model/model.cpp:1935-1951 | a concrete document whose content, removed, leaves its identity chunk owned by nobody |
| `RasterPyramid.DecimateIsLocal` | src/kind_raster/raster_content.cpp:122-136 | a parent pixel depends on child pixels 2x-2..2x+3 only, edge clamping included |
| `RasterPyramid.DecimateReads` | src/kind_raster/raster_content.cpp:130-136 | a parent pixel is the filter over six lines, line j over six pixels of one row: the positions nearest, in the child, to 2x-2..2x+3 and to 2y-2..2y+3, in that order |
| `RasterPyramid.DecimateReadsSupport` | src/kind_raster/raster_content.cpp:130-136 | away from the border these are the pixels 2x-2..2x+3 of the rows 2y-2..2y+3 themselves |
| `RasterPyramid.TilesCover` | src/kind_raster/raster_content.cpp:49-57 | the tiles across are the least number that covers the extent |
| `RasterPyramid.HalfUpPairs` | src/kind_raster/raster_content.cpp:219-220 | each level halves the extents, an odd pixel left over making a parent of its own |
| `RasterPyramid.PyramidUnique` | src/kind_raster/raster_content.cpp:207-246 | level 0 determines every pixel of every level |
| `RasterPyramid.Retile` | src/kind_raster/raster_content.cpp:430-469 | the tile loop: each selected tile gets a fresh blob, as many as are selected and no other, and the others are the predecessor's own |
| `RasterPaint.AppendHigherLevels` | src/kind_raster/raster_content.cpp:214-246 | appends exactly the decimation chain down to one pixel, padding transparent |
| `RasterPaint.Build` | src/kind_raster/raster_content.cpp:248-254 | a full build reads as the grid at level 0 and as its decimations above; every tile's padding is transparent |
| `RasterPaint.CenterIsSpanned` | src/kind_raster/raster_content.cpp:256-260 | a pixel is covered exactly when its centre, half a pixel in, lies in the half-open region, infinite sides included |
| `RasterPaint.OverlapIsShared` | src/kind_raster/raster_content.cpp:262-270 | a tile overlaps the region exactly when they share a point off both their borders |
| `RasterPaint.MeetIsShared` | src/kind_raster/raster_content.cpp:498-521 | a tile is reached by a rectangle of pixels exactly when one of its pixels lies in it |
| `RasterPaint.TileBoxHolds` | src/kind_raster/raster_content.cpp:461-465 | a tile's rectangle holds exactly the level's pixels that lie in the tile |
| `RasterPaint.ParentBoxExactly` | src/kind_raster/raster_content.cpp:475-496 | a parent is propagated to exactly when its two by two pixels, dilated by three, reach the rectangle |
| `RasterPaint.TouchedBox` | src/kind_raster/raster_content.cpp:430-470 | the reported rectangle is the least one around every overlapped tile |
| `RasterPaint.SupportMisses` | src/kind_raster/raster_content.cpp:475-496 | the dilation is wide enough: a parent outside the propagated rectangle reads no dirty child pixel |
| `RasterPaint.RepairRung` | src/kind_raster/raster_content.cpp:487-521 | recomputing only the tiles over the dilated rectangle leaves the whole rung the decimation of the new child |
| `RasterPaint.RepairAbove` | src/kind_raster/raster_content.cpp:487-521 | after the repair the table is again a full pyramid, and above level 0 only tiles the dilated rectangle reaches are new |
| `RasterPaint.Paint` | src/kind_raster/raster_content.cpp:410-525 | level 0 is source-over at exactly the covered centres, the result is a complete pyramid, untouched tiles are shared, the predecessor's blobs are unchanged and padding stays transparent; exactly one blob is allocated for each tile touched and each tile above that the propagated rectangle reaches |
| `RasterPaint.PaintEqualsRebuild` | src/kind_raster/raster_content.cpp:472-486 | whatever is rebuilt from the painted level 0 has the painted table's pixels at every level |
| `TileBlobs.RefsAreStored` | src/kind_raster/arbc/kind_raster/raster_content.hpp:136-153 | a table holds counts on exactly the tiles it stores |
| `TileBlobs.RetainTiles` | src/kind_raster/arbc/kind_raster/raster_content.hpp:136-144 | a table's constructor adds one count for every tile of every level |
| `TileBlobs.ReleaseTiles` | src/kind_raster/arbc/kind_raster/raster_content.hpp:145-153 | its destructor gives exactly these back; a blob goes with its last count and no other does |
| `TileBlobs.AddTable` | src/kind_raster/raster_content.cpp:342-356 | a table over freshly built blobs: after it has retained its tiles and the builder's counts are given back, the counts are exactly what the live tables hold |
| `TileBlobs.RemoveTable` | src/kind_raster/arbc/kind_raster/raster_content.hpp:145-153 | a table goes: counts stay exact, and every other table keeps its blobs and its pixels |
| `TileBlobs.BlobsAreStored` | src/kind_raster/raster_content.cpp:618-636 | with exact counts a blob is in the pool exactly while some live table stores it |
| `RasterStore.Store.constructor` | src/kind_raster/raster_content.cpp:342-356 | the built image is the base and the first version, one table with exact tile counts |
| `RasterStore.Store.Intern` | src/kind_raster/raster_content.cpp:328-340 | a version takes a freed slot or a new one, never a live one; tile counts stay exact |
| `RasterStore.Store.RetainVersion` | src/kind_raster/raster_content.cpp:608-616 | one more count on a live version, nothing otherwise |
| `RasterStore.Store.ReleaseVersion` | src/kind_raster/raster_content.cpp:618-636 | one count less; at zero the slot is free exactly once, and its table goes exactly when neither the base, another slot nor a reader holds it, with the tiles nobody else stores |
| `RasterStore.Store.DropUnheld` | src/kind_raster/raster_content.cpp:629-636 | the last owner of a table takes it along; every other table keeps its pixels |
| `RasterStore.Store.Pin` | src/kind_raster/raster_content.cpp:381-390 | a resolved table is held by its reader until it lets go |
| `RasterStore.Store.LetGo` | src/kind_raster/arbc/kind_raster/raster_content.hpp:145-153 | a reader letting go drops the table exactly when it held it last |
| `RasterStore.Store.SetBase` | src/kind_raster/raster_content.cpp:397-400 | the new base is pinned; the old one goes exactly when nothing else holds it |
| `RasterStore.Store.PaintVersion` | src/kind_raster/raster_content.cpp:410-525 | paints a version (or the base) into a new one while every live table keeps its pixels, and the tile counts stay exact; the blobs ever allocated grow by exactly what the paint costs |
| `DamagePlanning.RunsUnique` | src/compositor/damage_planning.cpp:52-78 | separated sorted runs are determined by the points they cover |
| `DamagePlanning.BandsUnique` | src/compositor/damage_planning.cpp:196-260 | coalesced bands are determined by the pixels they cover |
| `DamagePlanning.BoxesDisjoint` | src/compositor/damage_planning.cpp:196-260 | the boxes of a coalesced band list are pairwise disjoint |
| `RepaintRegions.IntegerInputs` | src/compositor/damage_planning.cpp:31-50 | the kept integer rectangles lie in the viewport and cover exactly the viewport pixels some (possibly infinite) input meets |
| `RepaintRegions.Compact` | src/compositor/damage_planning.cpp:68-77 | in-place merging of sorted intervals gives separated runs over the same points |
| `RepaintRegions.BandRuns` | src/compositor/damage_planning.cpp:58-78 | the runs of a band cover exactly the points of the rectangles that span it |
| `RepaintRegions.RepaintRegion` | src/compositor/damage_planning.cpp:172-194 | the least box around the dirty pixels, absent exactly when there are none |
| `RepaintRegions.RepaintRegions` | src/compositor/damage_planning.cpp:196-260 | the sweep returns the row-by-row decomposition of the dirty pixel set, or its least box when that has more than 64 parts |
| `RepaintRegions.PlanIsExactPartition` | src/compositor/damage_planning.cpp:196-260 | under the cap: pairwise disjoint, inside the viewport, together exactly the dirty pixels |
| `RepaintRegions.PlanMissesNothing` | src/compositor/damage_planning.cpp:249-257 | over the cap too, no dirty pixel is missed |
| `RepaintRegions.PlanDependsOnPixelsOnly` | src/compositor/damage_planning.cpp:196-260 | inputs covering the same pixels, in any order, overlap or splitting, give the same list |
| `Resampler.PositionIsOneRounding` | src/media/audio_resampler.cpp:570-590 | centre and phase are one rounding of the exact position: no drift at any frame |
| `Resampler.CenterMonotone` | src/media/audio_resampler.cpp:579-590 | later outputs never look further back |
| `Resampler.MacFrame` | src/media/audio_resampler.cpp:592-613 | the ordered multiply-accumulate over the window is that of the whole stream |
| `Resampler.OutFrameIs` | src/media/audio_resampler.cpp:592-613 | a frame, channel by channel, is the ordered multiply-accumulate of the samples from centre - half + 1 to centre + half, silence outside the stream, with the coefficients of the phase, of the generated bank when decimating and the frozen one otherwise; centre, phase and half from the exact position and ratio alone |
| `Resampler.TapsAreLeast` | src/media/audio_resampler.cpp:644-652 | the half width is the least h with h * dst >= 8 * src when decimating, and eight otherwise |
| `Resampler.ReadyMeansArrived` | src/media/audio_resampler.cpp:615-625 | a frame is ready exactly when the sample of each of its taps has arrived |
| `Resampler.OutFrameStable` | src/media/audio_resampler.cpp:743-751 | a frame whose support has arrived is the same for every longer stream |
| `Resampler.ResampleAudio` | src/media/audio_resampler.cpp:671-709 | every output frame is the whole-stream reduction; equal or zero rates change nothing |
| `Resampler.StreamingResampler.constructor` | src/media/audio_resampler.cpp:711-735 | all storage is allocated here, one block plus twice the taps; both rates zero is allowed and converts nothing |
| `Resampler.StreamingResampler.CanProduce` | src/media/audio_resampler.cpp:743-751 | true exactly when the newest sample the next frame reaches has been pushed |
| `Resampler.StreamingResampler.Produce` | src/media/audio_resampler.cpp:753-771 | the next frame of the whole-stream conversion of everything pushed |
| `Resampler.StreamingResampler.DropStale` | src/media/audio_resampler.cpp:778-801 | exactly the frames no later output can reach go, and nothing a later frame needs is lost |
| `Resampler.StreamingResampler.PushInput` | src/media/audio_resampler.cpp:773-806 | takes whatever fits the storage once the stale frames are gone; the stream and the output stay in step |
| `Resampler.StreamingResampler.DrainedBlockFits` | src/media/audio_resampler.cpp:711-735 | once drained less than the filter's width is kept, so a block of the configured size always fits |
| `Resampler.StreamingResampler.Drain` | src/media/audio_resampler.cpp:743-771 | producing while possible ends, and ends drained, for every non-zero source rate and for a zero one that starts drained |
| `Resampler.ZeroRateStaysReady` | src/media/audio_resampler.cpp:743-771 | at a source rate of zero a frame that is ready stays ready however many are produced, so a drain begun then would never end |
| `Resampler.StreamingResampler.Convert` | src/media/audio_resampler.cpp:711-806 | feeding any blocks, draining after each, yields exactly the whole-stream frames whose support arrived |
| `Resampler.DrainedOutputUnique` | src/media/audio_resampler.cpp:711-806 | the output depends on the stream alone, not on how it was cut |
| `SlotPool.PushInto` | src/pool/slot_store.cpp:158-172 | a freed slot tops the thread's stack; a full batch spills in order |
| `SlotPool.Refill` | src/pool/slot_store.cpp:174-188 | the top batch moves over in order, so the two levels together are the same stack |
| `SlotPool.PopFrom` | src/pool/slot_store.cpp:190-206 | hands out the thread's most recently freed slot, refilling first when dry |
| `SlotPool.SlotStore.Allocate` | src/pool/slot_store.cpp:190-236 | never a live slot; the last slot freed to this stack, else growth, refused only when a chunk is needed and cannot be had |
| `SlotPool.SlotStore.Grow` | src/pool/slot_store.cpp:208-235 | the mark's slot, in a new chunk exactly at a chunk boundary |
| `SlotPool.SlotStore.Release` | src/pool/slot_store.cpp:238-252 | the slot leaves the live set for quarantine behind a fence, else for the thread's pool |
| `SlotPool.SlotStore.FreeNow` | src/pool/slot_store.cpp:254-257 | a quarantined slot becomes the top of the thread's stack |
| `SlotPool.SlotStore.Restore` | src/pool/slot_store.cpp:268-319 | on a fresh store: refused exactly when chunks are missing, else the free list is the complement of the live slots, lowest hole on top, and every slot is in one place again |
| `SlotPool.FreeListIsComplement` | src/pool/slot_store.cpp:300-319 | the free list holds each dead slot below the mark once, in descending order |
| `SlotPool.FinalizeByStore` | src/model/model.cpp:765-786 | grouped by store, each store's free list is the complement of the union of its live sets |
| `SlotPool.FinalizingTwiceFreesLiveNodes` | src/model/model.cpp:770-779 | finalizing a shared store with one view's set alone would put a live slot of the other on the free list |
| `Lookahead.SlotAtIsResidue` | src/audio_engine/lookahead.cpp:39-42 | negative indices included, the slot is the index modulo the capacity |
| `Lookahead.BlockContainsInstant` | src/audio_engine/lookahead.cpp:114-125 | the block of an instant is the one whose half-open window holds it |
| `Lookahead.NextKeeps` | src/audio_engine/lookahead.cpp:49-80 | every single access of the producer, a retire or any reader keeps the protocol invariant |
| `Lookahead.ReaderKeeps` | src/audio_engine/lookahead.cpp:428-473 | every access of a drain keeps it |
| `Lookahead.RunInv` | src/audio_engine/lookahead.cpp:49-80 | so it holds in every state of every interleaving |
| `Lookahead.DrainIsAllOrSilence` | src/audio_engine/lookahead.cpp:428-473 | in every interleaving a drain that returned true has delivered one completed publish of the index, samples and both metadata, exactly when the index is not the reserved one; one that returned false delivers silence, after it read another block or after its fourth attempt; at most four attempts; the counter is the number of false answers |
| `Lookahead.UnderrunsCountMisses` | src/audio_engine/lookahead.cpp:462-472 | the counter moves exactly when a drain returns false, by one |
| `Lookahead.ReaderProgresses` | src/audio_engine/lookahead.cpp:437-461 | each step of a drain uses up a bounded amount of work, whatever the producer does |
| `Lookahead.DrainAloneAnswers` | src/audio_engine/lookahead.cpp:437-472 | in any run a drain left alone from its first load on returns true exactly when its slot is stable and holds the block asked for; it is handed that very publish and misses nothing, and otherwise it is one underrun |
| `Lookahead.DrainAloneReturns` | src/audio_engine/lookahead.cpp:437-472 | and from any state of any run it does return |
| `Lookahead.WriteAloneEnds` | src/audio_engine/lookahead.cpp:49-80 | a publish or retire left alone ends and leaves its whole goal in its slot, two generations on |
| `Lookahead.PublishThenDrain` | src/audio_engine/lookahead.cpp:49-473 | from any state of any run with the producer idle: publish a block and drain it, and the drain returns true with its samples, rate and exactness, without an underrun |
| `Lookahead.RetireThenDrain` | src/audio_engine/lookahead.cpp:72-80 | retire a slot and drain its block: false, and one underrun more |
| `Lookahead.EmptySlotAnswersTrue` | src/audio_engine/lookahead.cpp:428-473 | a drain of the reserved index that finds its slot empty and is left alone returns true |
| `Lookahead.DrainingTheSentinelLies` | src/audio_engine/lookahead.cpp:443-459 | at any capacity, block length and caller's buffer there is a run in which a drain of the reserved index returns true with nothing published |
| `RationalTime.GcdLoop` | src/base/rational_time.cpp:11-18 | the loop computes the greatest common divisor |
| `RationalTime.EuclidsLemma` | src/base/rational_time.cpp:11-18 | a divisor of a product that shares nothing with one factor divides the other |
| `RationalTime.ReducedUnique` | src/base/rational_time.cpp:47-63 | a fraction has one lowest-terms form |
| `RationalTime.FromI128` | src/base/rational_time.cpp:47-63 | returns that form, and fails exactly when one of its magnitudes exceeds 2^63 - 1 |
| `RationalTime.Mul` | src/base/rational_time.cpp:65-70 | the exact product in lowest terms, or it does not fit; no 128-bit overflow |
| `RationalTime.Add` | src/base/rational_time.cpp:72-79 | the exact sum in lowest terms, or it does not fit; no 128-bit overflow |
| `RationalTime.From` | src/base/rational_time.cpp:81-94 | the composed map of one edge is that edge at every instant |
| `RationalTime.AndThen` | src/base/rational_time.cpp:96-112 | the composed map is one map after the other at every instant |
| `RationalTime.Compose` | src/base/rational_time.cpp:122-133 | the composed map is every edge in turn, exactly; a failure means some exactly composed prefix could not take in its next edge |
| `RationalTime.RoundFraction` | src/base/rational_time.cpp:150-177 | the nearest integer, ties to even; fails exactly when no 64-bit integer is |
| `RationalTime.RoundedUnique` | src/base/rational_time.cpp:150-177 | there is one such integer |
| `RationalTime.Evaluate` | src/base/rational_time.cpp:135-178 | when it answers, the exact value rounded once; it refuses exactly when a 128-bit intermediate or the result is out of range |
| `Refinement.TileInFlight` | src/compositor/refinement.cpp:72-119 | true exactly when a live render of the key is queued or a finished one waits for the poll |
| `Refinement.InputPending` | src/compositor/refinement.cpp:165-172 | presence in the queue, nothing else |
| `Refinement.OperatorWaveUnmet` | src/compositor/refinement.cpp:190-223 | the unmet inputs of the output still queued; non-empty exactly when its wave is pending |
| `Refinement.RecordOperatorWait` | src/compositor/refinement.cpp:176-188 | one wait per output: replaced or appended, none for an empty unmet set |
| `Refinement.Poll` | src/compositor/refinement.cpp:225-312 | what settled leaves the queue; successes enter the cache in order with one damage record each; ended waves go |
| `Refinement.InsertedIs` | src/compositor/refinement.cpp:225-312 | a settled success becomes its key's cache entry, the last one winning, and no other entry changes |
| `Refinement.DamagesAre` | src/compositor/refinement.cpp:225-312 | one damage record per success, at its own content, rung, column, row and instant, none for a failure |
| `Refinement.PollAccountsForEach` | src/compositor/refinement.cpp:225-312 | a poll accounts for every entry exactly once: still queued, arrived, or dropped |
| `Refinement.SurvivingAre` | src/compositor/refinement.cpp:225-312 | a wait survives exactly when it names a still-queued input |
| `Refinement.EmptyQueueOpensEveryGate` | src/compositor/refinement.cpp:190-205 | an emptied queue leaves no operator gated |
| `Refinement.PruneMovesNoGate` | src/compositor/refinement.cpp:190-205 | dropping ended waits changes no gate's answer |
| `Refinement.SuppressedTileArrives` | src/compositor/refinement.cpp:72-119 | a dispatch held back is never stranded: after the next poll the tile is cached or a live render is still queued |
| `Refinement.DeadRendersDoNotSuppress` | src/compositor/refinement.cpp:72-119 | failed, taken or cancelled entries alone never hold a dispatch back |
| `Refinement.FrameLoop.PlanGate` | src/compositor/tile_planning.cpp:707-739 | a miss renders exactly when its render is not in flight and its wave is not running |
| `Refinement.FrameLoop.PullGate` | src/compositor/pull_service.cpp:288-361 | deliver, join, defer with the placeholder, or render, in that order; everything reported unmet is queued |
| `Refinement.FrameLoop.Dispatch` | src/compositor/tile_planning.cpp:707-739 | a gated dispatch keeps at most one live render per key |
| `Refinement.FrameLoop.Settle` | src/compositor/refinement.cpp:225-312 | a worker may settle a cancelled entry either way; the invariant stays |
| `Refinement.TileWanted` | src/compositor/refinement.cpp:121-145 | true exactly when the frame wants the tile or a live wait of an output it wants names it |
| `Refinement.SweepTiles` | src/runtime/interactive.cpp:516-530 | an expired frame cancels exactly the unsettled renders nobody wants; its two counters split the unsettled ones |
| `Refinement.SweepSparesWhatIsOwed` | src/compositor/refinement.cpp:121-145 | the sweep never touches a render that a wanted output's wait names; it moves no wave's gate, and a wanted tile is in flight after it exactly when it was before |
| `Refinement.OwedInputArrives` | src/runtime/interactive.cpp:492-530 | what a wanted output waits for, once in flight, is cached or still in flight after a sweep and the poll that follows it |
| `Refinement.WaveNeverCancelled` | src/runtime/interactive.cpp:492-530 | over any run of settles, dispatches, waits, sweeps and polls whose frames want the output, no unsettled render that its standing wait names is ever cancelled |
| `Refinement.FrameLoop.EnforceDeadline` | src/runtime/interactive.cpp:516-530 | an expired deadline sweeps the queue and counts what it kept and cancelled; a met one changes nothing |
| `Refinement.FrameLoop.PollFrame` | src/compositor/refinement.cpp:225-312 | the drain of a frame, on the live state; every wait that remains names a queued input |
| `TileGrid.TilesCovering` | src/compositor/tile_planning.cpp:195-219 | exactly the cells that share a point with the half-open region, once each, row by row |
| `TileGrid.BeforeIsRowMajor` | src/compositor/tile_planning.cpp:195-219 | the order of the listing: rows first, then columns, strict and total |
| `TileGrid.PointHasOneCell` | src/compositor/tile_planning.cpp:221-226 | every point has one cell |
| `TileGrid.InDevicePixels` | src/compositor/tile_planning.cpp:221-257 | in device pixels, at every rung: cells of 256 at 256 times their column and row, surfaces four further on every side, twice the scale from rung to rung |
| `TileGrid.TilesCoveringRender` | src/compositor/tile_planning.cpp:228-247 | wider than two aprons in both axes, the tiles' surfaces cover the region; otherwise the centre's one tile does exactly when its surface contains it |
| `TileGrid.ThinRegionIsShown` | src/compositor/tile_planning.cpp:231-246 | a region thin in both axes is always inside its centre's surface |
| `TileGrid.ThinStripIsNotShown` | src/compositor/tile_planning.cpp:240-246 | a strip thin in one axis only is not |
| `TileGrid.PlacedIs` | src/compositor/pull_service.cpp:119-158 | where a tile's delivery window lands: on its own cell, opened by an apron on the sides where the block ends |
| `TileGrid.BlockPaintsEachPointOnce` | src/compositor/pull_service.cpp:119-133 | the delivery windows of a block partition its apron-grown rectangle: one tile inside, none outside |
| `TileGrid.PaintsWithinItsSurface` | src/compositor/pull_service.cpp:135-158 | a tile paints only where it rendered |
| `TileGrid.PullPaintsRegionOnce` | src/compositor/pull_service.cpp:119-158 | each point of a covered region is painted by exactly one tile |
| `TileGrid.FloorDiv` | src/compositor/tile_planning.cpp:42-51 | truncating division corrected to the floor |
| `TileGrid.CoarserTileReachesFarEnough` | src/compositor/tile_planning.cpp:150-190 | the coarser tile chosen for a fallback contains the fine cell, and its surface extends two of its own pixels past everything the fine surface shows |
| `PyramidCache.PickVictim` | plugins/image/image_content.cpp:137-152 | the least recently used resident unpinned entry, whatever order the table is walked in |
| `PyramidCache.EvictToFit` | plugins/image/image_content.cpp:154-165 | ends within the budget or with nothing unpinned left; drops oldest first and never one too many; pinned entries untouched |
| `PyramidCache.EvictionIsDetermined` | plugins/image/image_content.cpp:137-165 | budget, recency order and no needless drop leave exactly one outcome, so the contracts fix the cache completely |
| `PyramidCache.Cache.Touch` | plugins/image/image_content.cpp:167-182 | a hit or a re-decode of the retained bytes: the entry is resident, used more recently than every other, whose last uses stay, and the size total follows |
| `PyramidCache.Cache.Resolve` | plugins/image/image_content.cpp:184-234 | absence is never answered from the cache; otherwise the answer decodes the first bytes admitted for the URI, the entry becomes the most recently used and the others' last uses stay; the table is trimmed, and what goes was used longer ago than everything unpinned that is left |
| `PyramidCache.Cache.Pin` | plugins/image/image_content.cpp:236-258 | the same answer, resident, most recently used and pinned once more when the call returns, whatever the budget; the rest trimmed, oldest first |
| `PyramidCache.Cache.Unpin` | plugins/image/image_content.cpp:260-271 | one pin less, no use counted; the last one makes the entry a candidate at once; the budget promise holds after |
| `PyramidCache.Cache.SetByteBudget` | plugins/image/image_content.cpp:273-277 | the new budget holds at once, oldest unpinned first |
| `PyramidCache.PinnedStaysResident` | plugins/image/image_content.cpp:137-165 | in every reachable state a pinned entry's pixels are resident |
| `PyramidCache.FirstBytesWin` | plugins/image/image_content.cpp:184-258 | after any history a URI is answered by decoding the first acceptable bytes offered for it, budget and pins notwithstanding |
| `Mixer.MixIsBijective` | src/base/arbc/base/hash_mix.hpp:32-39 | the 64-bit mixer has a two-sided inverse |
| `Mixer.FoldIsInjective` | src/base/arbc/base/hash_mix.hpp:33-37 | an xor-shift loses no information |
| `RevisionFold.PushInputs` | src/compositor/operator_graph.cpp:50-56 | marks and stacks exactly the bound inputs not seen before, each once |
| `RevisionFold.AggregateRevision` | src/compositor/operator_graph.cpp:13-59 | terminates on every graph and returns the sum modulo 2^64 of the mixed contributions of the reachable set, each once |
| `RevisionFold.EdgeOrderIsIrrelevant` | src/compositor/operator_graph.cpp:26-30 | edge order, repetition and unbound edges do not matter |
| `RevisionFold.OneChangeAlwaysShows` | src/compositor/operator_graph.cpp:37-48 | one changed contribution changes the revision exactly if its content is reachable |
| `DamageRouting.MapDamageUp` | src/compositor/operator_graph.cpp:70-103 | terminates on every graph and computes the memoized walk |
| `DamageRouting.MergedIsLeast` | src/model/arbc/model/damage.hpp:33-74 | the merged damage of an object is the least rectangle and the least range around all of its damages, present exactly when it has any |
| `DamageRouting.DamageAdd` | src/model/arbc/model/damage.hpp:65-74 | each object is listed once, with the merge of everything added for it |
| `DamageRouting.RouteOperatorDamage` | src/compositor/operator_graph.cpp:107-129 | each operator but the damaged content itself is asked with a memo of its own; what they answer is merged by the object that shows them |
| `DamageRouting.NeverTooMuch` | src/compositor/operator_graph.cpp:70-103 | on any graph, cyclic or not, every assignment of rectangles consistent with the mappings covers the answers |
| `DamageRouting.AnswersComeAlongChains` | src/compositor/operator_graph.cpp:70-103 | on any graph an answer means that some chain of inputs reaches the damaged content |
| `DamageRouting.MemoLosesDamageOnACycle` | src/compositor/operator_graph.cpp:77-102 | a concrete cyclic graph where the memo drops damage that a chain without repetition carries |
| `DamageRouting.MemoLosesDamageAtTheBudget` | src/compositor/operator_graph.cpp:77-102 | a concrete acyclic graph where a content first met near the end of the budget is believed where it is met again, and a chain well within the budget is dropped |
| `DamagePaths.PaysWhatIsOwed` | src/compositor/operator_graph.cpp:70-103 | where every crossing fits, each answer covers what can still be reached below its descent, and whatever the memo keeps is right for every later descent |
| `DamagePaths.GoesStraight` | src/compositor/operator_graph.cpp:70-103 | along a descent each of whose contents reads the next one first, the walk runs into its own stack or the end of the budget, and brings back and remembers nothing |
| `DamagePaths.CrossingLost` | src/compositor/operator_graph.cpp:77-102 | a descent that enters a chain without leaving room for the rest of it loses that whole chain in some order of the inputs |
| `DamagePaths.NoRouteMissedIffCrossingsFit` | src/compositor/operator_graph.cpp:70-129 | no chain that visits nothing twice is missed, whatever the order of the inputs, the damage and the monotone mappings, exactly when every descent within the budget that enters such a chain leaves room for the rest of it |
| `DamagePaths.RepetitionOutgrowsEveryAnswer` | src/compositor/operator_graph.cpp:63-69 | with a repeating chain no rectangle covers every chain of some monotone mapping |
| `DamagePaths.RoutesEverythingIffWithinBudget` | src/compositor/operator_graph.cpp:70-129 | no chain at all is missed, in any order, exactly when no chain from the operator to the damage is longer than the budget |
| `DamagePaths.AmpleBudget` | src/compositor/operator_graph.cpp:83-85 | for a budget no smaller than the graph that is: exactly when no chain repeats a content |
| `Checksums.Crc32` | examples/common/png_writer.hpp:26-37 | the bit-at-a-time loop equals the table-driven form of section 15 of RFC 2083 |
| `Checksums.StepBits` | examples/common/png_writer.hpp:26-37 | bit by bit, a step of the division is the next higher bit of the register, flipped where the polynomial has a term when a one falls out |
| `Checksums.OneByteChangeIsDetected` | examples/common/png_writer.hpp:26-37 | changing any single byte changes the checksum |
| `Checksums.Adler32` | examples/common/png_writer.hpp:39-48 | the running sums equal, in closed weighted form modulo 65521, the sums section 2.2 of RFC 1950 defines |
| `PngWriter.PutU32` | examples/common/png_writer.hpp:52-57 | appends four bytes that read back as the value in network order |
| `PngWriter.PutChunk` | examples/common/png_writer.hpp:59-68 | appends length, type, payload and the checksum over type and payload |
| `PngWriter.ChunkReadsBack` | examples/common/png_writer.hpp:59-68 | a written chunk reads back, in front of anything |
| `PngWriter.WriteScanlines` | examples/common/png_writer.hpp:94-104 | each row behind a zero filter byte, in order |
| `PngWriter.WriteZlib` | examples/common/png_writer.hpp:106-123 | the block loop writes header, stored blocks of at most 65535 bytes and the checksum |
| `PngWriter.BlocksReadBack` | examples/common/png_writer.hpp:106-122 | the stored blocks inflate to the raw bytes and leave the rest alone |
| `PngWriter.ZlibReadsBack` | examples/common/png_writer.hpp:106-123 | the zlib stream inflates to the raw bytes, checksum and header checks included |
| `PngWriter.ScanlinesReadBack` | examples/common/png_writer.hpp:94-104 | removing the filter bytes gives the pixels back |
| `PngWriter.EncodeRgba8` | examples/common/png_writer.hpp:75-128 | no bytes exactly for a wrong size; otherwise the one stream these bytes determine |
| `PngWriter.PngReadsBack` | examples/common/png_writer.hpp:75-128 | the standards' reader recovers width, height and every pixel of every image whose stream fits 32 bits |
| `PngWriter.LengthFieldIsExact` | examples/common/png_writer.hpp:61-67 | the data chunk's length field is right exactly when the stream fits 32 bits |

## Left out

- Journaling.EntryCost: content costs come from a given function; display names, damage lists and the published history rows are not modelled.
- Journaling.Journal.Undo: the restore of the live content states that follows it (`src/model/journal.cpp:128-134`); the same for `Journaling.Journal.Redo`.
- Document.CoalesceEntries: the union of the two entries' damage lists; `DamageRouting.DamageAdd` is that union where damage is routed.
- Document.Transaction.Put: stands for every add and set; the setters' no-op on an absent object or one of another kind is modelled for `SetContentState` only. A document is a finite map here; `DocumentTrie` runs its writes, commits and navigation on the trie.
- HamtVersions.HamtErase: map semantics only; erase does not restore a canonical shape (`src/model/model.cpp:248-255` collapses onto leaves, not branches).
- HamtVersions.Drain: the queue's batching and its lock-free stacks; slots are numbered afresh on reuse, so a recycled slot is a new one.
- HamtRecovery.RebuildCounts: the generation counters; the file's edges are assumed to land inside the file, and a recounted degree to fit 32 bits.
- Membership.StoreMembership: a refusal leaves the transaction inert; what the half-edited tree holds is stated only as far as its changes are all touched, since it is never published.
- RasterPaint.Paint: the tilewise fill that declines, `resample` and the codecs.
- TileBlobs.ReleaseTiles: blob slots are numbered afresh, so the block pool's size classes and its reuse of a freed slot are not modelled; how an owner of a table is counted is taken for granted.
- RepaintRegions.RepaintRegions: device coordinates are reals with two infinities; NaN coordinates are not modelled.
- Resampler.PositionIsOneRounding: `n * src` is unbounded; the 64-bit wrap after 2^64 / rate frames is not modelled.
- Resampler.StreamingResampler.constructor: a device rate of zero beside a non-zero source rate divides by zero in `configure` and is excluded.
- Resampler.StreamingResampler.Drain: a zero source rate is allowed only when nothing is ready; otherwise a caller that drains never ends (`Resampler.ZeroRateStaysReady`).
- Resampler.MacFrame: the coefficient values, frozen and generated, are an arbitrary function of bank, phase and tap; rounding of the accumulation is inside the opaque operation.
- SlotPool.SlotStore.Allocate: each pool operation is one step; interleavings inside one operation are left to its mutex.
- Lookahead.RunInv: accesses are sequentially consistent; the generation counter is unbounded; mixing, priming and the horizon are not modelled.
- RationalTime.Evaluate: may refuse for an intermediate although the final value would fit, as the code does.
- Refinement.Poll: pixels are opaque; the surface copy, the clearing outside the content's bounds, eviction from the tile cache and the prefetch rings are not modelled.
- Refinement.SweepTiles: the sweep is one step, workers settle before or after it; the park before it is its input `expired`.
- DocumentTrie.Workspace.Begin: copying a handle asserts that its count is not saturated (`src/pool/arbc/pool/refs.hpp:106-118`); the same for `DocumentTrie.Workspace.Navigate`, while `DocumentTrie.Workspace.Coalesce` reports it. One transaction is open at a time and nothing navigates meanwhile; content edits, coalescing keys and the byte budget are in `Document` and `Journaling`.
- TileGrid.TilesCovering: geometry is over reals (rung scales are powers of two) and tile coordinates are unbounded rather than 32 bits.
- TileGrid.TilesCoveringRender: the centre's one-point rectangle is modelled as the one cell that contains the centre.
- PyramidCache.Cache.Resolve: decoding is a function of the bytes, so the defensive branch for retained bytes that no longer decode cannot happen; the decode and eviction counters and the mutex are left out.
- DamagePaths.NoRouteMissedIffCrossingsFit: exact over all orders of every content's inputs; a particular order may miss nothing although some crossing does not fit.
- DamageRouting.MergedIsLeast: coordinates are integers, so the infinite rectangle of structural damage is not among them.
- Rendering, blending, decoding, memory mapping, checkpoints, plugin loading, device sinks, the registry and the serializers.
- Identity resolution and most of the frame driver: of them only the refinement gates and the tile grid's arithmetic are modelled.
