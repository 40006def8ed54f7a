# FirteX: lexicon, document reader, proxy and watchdog in Dafny

A Dafny model of six stateful parts of the FirteX search engine, with proofs of what each of them is for.
`dafny verify dfyconfig.toml` checks all of it.

**Double-array trie** (`TrieCells`, `TrieRelocation`, `TrieUpdates`, `TrieConflicts`, `TrieLookup`, `TrieSteps`, `DoubleArrayTrie`,
`TrieRuns`). The lexicon keeps all states in one array of base/check cells. A conflict over a cell moves the children of one of the two
contenders and re-parents the grandchildren. `DoubleArrayTrie` is a class over a growable array. Its ghost field `path` labels
every occupied cell with the bytes that lead to it from the root, its ghost field `dict` is the map the cells stand for.
`Tree` is the structural invariant, `Represents` ties the cells to the map, `KeysPlus(C, D, added)` says that cells `D` have the
label strings of `C` and `added`, with every leaf value kept. Cells outside the array read as free (`At`), so growth changes nothing.
Besides that, `TrieSteps` says exactly which cells one `createTransition` changes (`Created`), so that a run can be followed cell by cell.
Two properties one would expect are not true of the code, and are replaced by their exact conditions:

* A stored key is not always found. `next` (`DoubleArrayTrie.h:356`) compares `s + key2state(ch)` with the array size although
  the cell it reads is `base[s] + key2state(ch)`, so a transition out of a state close to the end of the array is invisible to the
  searches while `insert`, which grows the array first, sees it; a relocation can move a state there later. The searches return the map's
  value exactly for keys that `Sees` holds of. `SearchMissesStoredKey` inserts two keys into a fresh trie of 4096 cells, `n` bytes 200 for any
  `n` from 3491 to 3636 and the byte 201, after which the first key is not found. 512 spare cells past the last base make `Sees` the same as
  membership.
* An insertion can inspect a cell outside the array: `createTransition` calls `getCheck(t)` on the strength of the same test
  (`DoubleArrayTrie.cpp:148-149`). The model reports this as `ok == false` with the map unchanged, where a debug build's assertion stops
  the code; other builds define the assertion away (`Exception.h:410-422`) and read past the array. `InsertFits` says when it happens, and
  `InsertLooksOutside` reaches it with the fourth insertion into a fresh trie. An array of 256 cells per inserted byte rules it out.

**Max-forward segmenter** (`Segmenter`). Atomic tokens of a lexer are merged by the longest lexicon match. The lexer is a parameter:
non-empty atoms that make up the text, each with a type and a separator mark, and length 0 at the end of the text
(`UTF8TokenLexer.ll:156-160`).

**OLE compound files** (`OleFile`, `OleStream`, `OleChain`, `OleTables`). An open entry is a cursor over scattered blocks; its content
is defined independently, as the join of the blocks in chain order cut to the entry's length. What a read delivers is stated for every
file, cut short or not (`ReadAt`); on a complete file (`Intact`) it is the content. The tables follow [MS-CFB], sections 2.3
(FAT), 2.4 (mini FAT) and 2.5 (DIFAT). Sector `b` lies at `512 + b * sectorSize`, as in the code; for 4096-byte sectors [MS-CFB]
section 2.2 puts it at `(b + 1) * sectorSize`. `ole_read` returns bytes although its comment promises blocks. `getlong` builds a
64-bit `long` from four bytes and so is never negative, which makes the code's tests for negative sectors vacuous.

**Proxy** (`RoundRobin`, `Failover`, `AsyncDeliver`, `AsyncRuns`, `TwoPhase`). Replica choice, failover over replicas, the counting barrier of the
request deliverer with its shutdown, and the second search phase that asks the owning shards for documents and merges the answers.
`AsyncDeliver` is a transition system: one delivering thread and any number of workers, a step for every point at which a lock is taken
or released, theorems over every interleaving (`Runs`), and in `AsyncRuns` theorems that
runs exist: the delivering thread never waits for ever.

**RTF groups** (`RtfGroups`). The flat counters and the group stack, refined to a nested scoping semantics of documents; what each kind of
token prints, and what groups and destinations restore and silence, is also stated of the flat run alone.

**Watchdog status file** (`StatusFile`). A save is a sequence of disk operations, and a crash may cut it after any of them. The expected
property, that recovery reads the whole old or the whole new table, is false: `File::moveTo` (`File.cpp:145-150`) copies and then removes,
so a crash inside the second copy leaves a torn primary file, which recovery prefers to the intact temporary one; and the very first save
can leave a torn temporary file. `CrashOutcome` says what is read after every crash, `TornIff` when it is neither table, and `TornExample`
is such a crash. The temporary file is opened with `O_EXCL`, so after any crash inside a save no later save succeeds.

## Model

| member | source | states |
|---|---|---|
| `TrieCells.StepLabel` | include/firtex/analyzer/DoubleArrayTrie.h:342-348 | a transition out of a state exists only to a child labelled with that state's string and one more byte, never out of a leaf |
| `TrieCells.PathsInjective` | src/analyzer/DoubleArrayTrie.cpp:178-202 | two different occupied cells never have the same label string: the structure is a tree |
| `TrieCells.WalkPath` | include/firtex/analyzer/DoubleArrayTrie.h:342-348 | following a cell's label string from the root arrives at that cell |
| `TrieCells.WalkEnds` | include/firtex/analyzer/DoubleArrayTrie.h:342-348 | every walk that stays in the trie ends at the cell labelled with the string walked |
| `TrieCells.AlignedIs` | include/firtex/analyzer/DoubleArrayTrie.h:368-381 | the new size is the first multiple of 4096 past num + n |
| `TrieRelocation.RenCell` | src/analyzer/DoubleArrayTrie.cpp:119-137 | after a relocation each state keeps its base (only the rebased state's moves) and points at its parent's new place |
| `TrieRelocation.RelocateTree` | src/analyzer/DoubleArrayTrie.cpp:108-139 | relocation keeps the tree invariant: one parent and label per cell, free cells zero, bases bounded by the new base |
| `TrieRelocation.RelocateKeys` | src/analyzer/DoubleArrayTrie.cpp:108-139 | relocation neither adds nor loses a label string and keeps every stored value |
| `TrieUpdates.MoveOneMore` | src/analyzer/DoubleArrayTrie.cpp:123-134 | moving children one at a time, in any state of the loop, adds up to the whole move: no step disturbs a child moved earlier or still to move |
| `TrieUpdates.AddEdge` | src/analyzer/DoubleArrayTrie.cpp:173-173 | setting one check hangs a leaf with base 0 below a state and keeps the tree |
| `TrieUpdates.AddEdgeKeys` | src/analyzer/DoubleArrayTrie.cpp:173-173 | ... which adds exactly one label string and changes no stored value |
| `TrieUpdates.SetLeafRepresents` | src/analyzer/DoubleArrayTrie.cpp:200-200 | writing a value into a leaf's base rebinds that key in the map and no other |
| `TrieConflicts.BasesNearLast` | src/analyzer/DoubleArrayTrie.cpp:79-106 | no occupied cell lies more than 256 places past the last base handed out |
| `TrieConflicts.ListedCount` | include/firtex/analyzer/DoubleArrayTrie.h:383-403 | the count findAccepts returns is the number of child labels |
| `TrieConflicts.OwnerFacts` | src/analyzer/DoubleArrayTrie.cpp:155-161 | the owner of a contested cell is another inner state of the trie |
| `TrieConflicts.NewLabelling` | src/analyzer/DoubleArrayTrie.cpp:108-139 | a finished relocation keeps the keys, frees the old cells, keeps the cells for labels not yet used free, and `stand` still names the same state |
| `TrieConflicts.RepresentsStep` | src/analyzer/DoubleArrayTrie.cpp:190-194 | a partly inserted key is invisible: until its closing NUL the map is unchanged, and then only that key is open |
| `TrieConflicts.RoomToInsert` | src/analyzer/DoubleArrayTrie.cpp:141-176 | with 256 cells past the last base no insertion looks outside the array |
| `TrieSteps.RoomedSame` | include/firtex/analyzer/DoubleArrayTrie.h:368-381 | growth before or after a relocation changes nothing about which side moves, to which base and to which cells |
| `TrieSteps.FoundLeast` | src/analyzer/DoubleArrayTrie.cpp:79-106 | a base search on the listed labels finds the least base at which all cells in use are free |
| `TrieSteps.MoverIs` | src/analyzer/DoubleArrayTrie.cpp:155-158 | the two counts choose the side that moves, the same one before and after growth |
| `TrieSteps.ChildCountIsKids` | include/firtex/analyzer/DoubleArrayTrie.h:383-403 | the number of labels findAccepts lists is the number of cells whose check is the state |
| `TrieSteps.FewerMove` | src/analyzer/DoubleArrayTrie.cpp:155-158 | the owner of the contested cell moves if and only if it has children and no more of them than s has |
| `TrieLookup.ForwardWalkIff` | include/firtex/analyzer/DoubleArrayTrie.h:350-366 | the const walk agrees with the real one exactly on paths that pass the guard of `next` at every step, and fails on all others |
| `TrieLookup.LeafSeen` | src/analyzer/DoubleArrayTrie.cpp:204-220 | a const walk reaches a key's leaf if and only if the key is stored and visible; the leaf's base is its value |
| `TrieLookup.RoomySeesAll` | include/firtex/analyzer/DoubleArrayTrie.h:356-356 | 512 free cells past the last base make every stored key visible |
| `DoubleArrayTries.DoubleArrayTrie.constructor` | src/analyzer/DoubleArrayTrie.cpp:16-31 | an empty dictionary: zero cells, as many as the page boundary past the number asked for |
| `DoubleArrayTries.DoubleArrayTrie.ResizeState` | include/firtex/analyzer/DoubleArrayTrie.h:368-381 | grows to the next page boundary past num + n; old cells kept, new ones zero |
| `DoubleArrayTries.DoubleArrayTrie.ForceNext` | include/firtex/analyzer/DoubleArrayTrie.h:332-340 | grows exactly when s + key2state(ch) is outside, and leaves the array alone otherwise; the target is the same before and after growth |
| `DoubleArrayTries.DoubleArrayTrie.ForceForward` | include/firtex/analyzer/DoubleArrayTrie.h:342-348 | the child under ch or 0, unaffected by the growth |
| `DoubleArrayTries.DoubleArrayTrie.FindBase` | src/analyzer/DoubleArrayTrie.cpp:79-106 | ends on every cell content with a base past the last one at which every requested cell is free and in the array, even for a wrong `min`; bounded by the highest occupied cell; the least such base when `min` and `max` are requested labels; grows only when that base needs it |
| `DoubleArrayTries.DoubleArrayTrie.FindAccepts` | include/firtex/analyzer/DoubleArrayTrie.h:383-403 | exactly the child labels in increasing order; max is the last, min the least that is not NUL |
| `DoubleArrayTries.DoubleArrayTrie.Reparent` | src/analyzer/DoubleArrayTrie.cpp:126-128 | every child of the moved cell, and no other cell, gets the new parent |
| `DoubleArrayTries.DoubleArrayTrie.MoveChild` | src/analyzer/DoubleArrayTrie.cpp:123-134 | one child moved with its subtree, all other cells as they were in the middle of the move |
| `DoubleArrayTries.DoubleArrayTrie.MoveTurn` | src/analyzer/DoubleArrayTrie.cpp:121-136 | a label is skipped exactly if no child is left there; `stand` follows its state |
| `DoubleArrayTries.DoubleArrayTrie.MoveChildren` | src/analyzer/DoubleArrayTrie.cpp:119-136 | after the loop all children of s have moved, each once |
| `DoubleArrayTries.DoubleArrayTrie.Relocate` | src/analyzer/DoubleArrayTrie.cpp:108-139 | the tree and all keys and values survive; exactly the children of s have moved, cell by cell, to the least base that suits them; its old child cells are free; `stand` is followed even when it is one of the moved children |
| `DoubleArrayTries.DoubleArrayTrie.Children` | src/analyzer/DoubleArrayTrie.cpp:155-157 | the labels, their number and bounds, for a state of the trie |
| `DoubleArrayTries.DoubleArrayTrie.MakeRoom` | src/analyzer/DoubleArrayTrie.cpp:153-171 | the side with fewer children is moved, exactly, to its least suitable base; the cell for ch is free and in the array afterwards; no key or value changes |
| `DoubleArrayTries.DoubleArrayTrie.Contest` | src/analyzer/DoubleArrayTrie.cpp:156-169 | the owner is moved exactly if it has children and fewer than s will have, and then s keeps its base |
| `DoubleArrayTries.DoubleArrayTrie.RelocateSelf` | src/analyzer/DoubleArrayTrie.cpp:164-168 | s moves its own children to a base that has the cell for ch free as well |
| `DoubleArrayTries.DoubleArrayTrie.CreateTransition` | src/analyzer/DoubleArrayTrie.cpp:141-176 | adds exactly one label string and keeps every key and value, whichever side moved; which cells change, and to what (`Created`); when the array keeps its size; fails exactly if the inspected cell is outside the array |
| `DoubleArrayTries.DoubleArrayTrie.CreateTail` | src/analyzer/DoubleArrayTrie.cpp:190-194 | creates the rest of a key, one createTransition after the other; only its first transition can fail; every other key is as before |
| `DoubleArrayTries.DoubleArrayTrie.Insert` | src/analyzer/DoubleArrayTrie.cpp:178-202 | updates the dictionary at the key and nowhere else, through any relocation; succeeds if and only if every cell inspected is in the array, and changes no binding otherwise; the cells are those after following the key, a trail of createTransition steps and the store of the value |
| `DoubleArrayTries.DoubleArrayTrie.FollowKey` | src/analyzer/DoubleArrayTrie.cpp:185-199 | walks to the first missing transition, growing the array exactly as the walk's tests say |
| `DoubleArrayTries.DoubleArrayTrie.BuildFromFile` | src/analyzer/DoubleArrayTrie.cpp:54-77 | the dictionary of a word list: a key that occurs on several lines has the value of its last line, a key without a line what it had before; never fails in an array of 256 cells per byte |
| `DoubleArrayTries.LastLineWins` | src/analyzer/DoubleArrayTrie.cpp:64-66 | a later line for the same key overwrites an earlier one |
| `DoubleArrayTries.NoLineKeeps` | src/analyzer/DoubleArrayTrie.cpp:64-66 | a key without a line keeps its value, or stays absent |
| `DoubleArrayTries.CostOfEqual` | src/analyzer/DoubleArrayTrie.cpp:183-201 | the bytes the size bound counts: for n words of one length, n times that length and the NUL |
| `DoubleArrayTries.DoubleArrayTrie.ForwardAt` | include/firtex/analyzer/DoubleArrayTrie.h:350-366 | the child under ch unless the guard hides it, else 0 |
| `DoubleArrayTries.DoubleArrayTrie.Search` | src/analyzer/DoubleArrayTrie.cpp:204-220 | the dictionary's value for a stored, visible key, and 0 for every other NUL-free key |
| `DoubleArrayTries.DoubleArrayTrie.SearchLength` | src/analyzer/DoubleArrayTrie.cpp:222-242 | the same for a key given by its length, NUL bytes included |
| `DoubleArrayTries.DoubleArrayTrie.SearchPrefix` | src/analyzer/DoubleArrayTrie.cpp:276-310 | value and end of the longest visible key that prefixes the text when the walk leaves the trie inside it; the whole text or nothing when the walk uses it up; fails exactly if the walk goes on for more than the stack's 128 places |
| `DoubleArrayTries.LongestMatchMeans` | src/analyzer/DoubleArrayTrie.cpp:276-310 | no visible word at the front of the text is longer than the answer, and the answer is such a word with its value |
| `DoubleArrayTries.DoubleArrayTrie.Backtrack` | src/analyzer/DoubleArrayTrie.cpp:290-301 | popping the stack in step with p finds the longest match |
| `DoubleArrayTries.BuildThenSearch` | src/analyzer/DoubleArrayTrie.cpp:54-77 | in an array of any size: whenever 512 cells are left past the last base a search answers the value on the key's last line, 0 for a key without a line; an answer other than 0 is right in any case; 256 cells per byte and 513 more are always enough |
| `TrieRuns.BareStep` | src/analyzer/DoubleArrayTrie.cpp:141-176 | createTransition out of a state without children: it gets the least base that fits the label, one cell is added, no other changes |
| `TrieRuns.ChainInserted` | src/analyzer/DoubleArrayTrie.cpp:178-202 | all cells after inserting n bytes 200 into a fresh trie: state 203 + j has base 3 + j, the last one base 202 + n |
| `TrieRuns.ShortInserted` | src/analyzer/DoubleArrayTrie.cpp:178-202 | all cells after one more one-byte key |
| `TrieRuns.OwnerStep` | src/analyzer/DoubleArrayTrie.cpp:156-161 | the conflict over cell 204: the chain's state 203 loses, its child moves to cell 404 + n, its grandchild is re-parented |
| `TrieRuns.SearchMissesStoredKey` | include/firtex/analyzer/DoubleArrayTrie.h:356-356 | after two insertions into a fresh trie, which succeed, the search for the first key answers 0 |
| `TrieRuns.InsertLooksOutside` | src/analyzer/DoubleArrayTrie.cpp:148-149 | after three insertions into a fresh trie, which succeed, a fourth inspects a cell outside the array |
| `Segmenters.TokenBuffer.Resize` | include/firtex/analyzer/MaxForwardSegmenter.h:84-101 | enlarging the two buffers keeps their content |
| `Segmenters.TokenBuffer.Fill` | src/analyzer/MaxForwardSegmenter.cpp:55-75 | lexes up to and including the next separator and records every atom at its offset, growing the buffers at most once |
| `Segmenters.TokenBuffer.Note` | src/analyzer/MaxForwardSegmenter.cpp:63-72 | one record more, none overwritten |
| `Segmenters.MaxForwardSegmenter.Segment` | src/analyzer/MaxForwardSegmenter.cpp:29-114 | ends, and every token is the lexicon's match at its start or else the single atom there; no non-separator atom is left out; positions count tokens and non-whitespace separators |
| `Segmenters.MaxForwardSegmenter.EmitWords` | src/analyzer/MaxForwardSegmenter.cpp:77-102 | the same for the atoms of one round, ending on an atom boundary |
| `Segmenters.TokensInOrder` | src/analyzer/MaxForwardSegmenter.cpp:77-102 | tokens never overlap, come in text order, and their positions strictly increase |
| `Segmenters.TokensCover` | src/analyzer/MaxForwardSegmenter.cpp:77-102 | every byte of the text lies in one atom, and in some token if and only if that atom is not a separator |
| `Segmenters.TokenIsLongest` | src/analyzer/MaxForwardSegmenter.cpp:79-92 | no visible word that starts where a token starts is longer than the token, which is then itself a word |
| `Segmenters.TokenIsAtom` | src/analyzer/MaxForwardSegmenter.cpp:79-92 | where no visible word starts the token is one whole atom, no separator |
| `Segmenters.BreaksIsCount` | src/analyzer/MaxForwardSegmenter.cpp:101-110 | what a position adds to the number of tokens is the number of separators before it that are no whitespace |
| `OleStreams.SectorAt` | plugins/MSOfficeParserPlugin/Ole.cpp:416-429 | block b of the joined content is the file's bytes at that block's offset |
| `OleFiles.LongRoundTrip` | plugins/MSOfficeParserPlugin/NumUtils.cpp:23-26 | getlong reads back every 32-bit value written lowest byte first, at any offset |
| `OleStreams.SectorPlaceIff` | plugins/MSOfficeParserPlugin/Ole.cpp:419-419 | a sector lies where [MS-CFB] puts it if and only if sectors have 512 bytes |
| `OleStreams.SectorsInARow` | plugins/MSOfficeParserPlugin/Ole.cpp:419-419 | sector 0 lies at 512 and each sector begins where the one before it ends |
| `OleStreams.ShortBlockInMiniStream` | plugins/MSOfficeParserPlugin/Ole.cpp:421-427 | the bytes at a short block's file offset are that block of the mini stream, the join of the root entry's sectors |
| `OleStreams.ShortContent` | plugins/MSOfficeParserPlugin/Ole.cpp:416-429 | the content of a short entry is its chain's blocks of the mini stream, in order |
| `OleStreams.OleEntry.constructor` | plugins/MSOfficeParserPlugin/Ole.cpp:398-406 | a fresh cursor at 0 whose cached offset is the file's, on a complete file or not |
| `OleStreams.OleEntry.ReadPiece` | plugins/MSOfficeParserPlugin/Ole.cpp:472-477 | one read inside a block delivers that block's bytes as far as the file goes, and keeps the cached offset equal to the real one |
| `OleStreams.OleEntry.ReadBlocks` | plugins/MSOfficeParserPlugin/Ole.cpp:478-487 | the block loop extends the buffer by what each whole block delivers, in order |
| `OleStreams.DeliveredIsPieces` | plugins/MSOfficeParserPlugin/Ole.cpp:478-487 | m whole blocks deliver the piece of each in chain order, those behind a piece cut short included |
| `OleStreams.OleEntry.Read` | plugins/MSOfficeParserPlugin/Ole.cpp:442-501 | fills the buffer with what the blocks from the cursor on deliver, advances by that count and touches no other byte of the buffer; on every file |
| `OleStreams.OleEntry.ReadAtIsNext` | plugins/MSOfficeParserPlugin/Ole.cpp:442-501 | on a complete file that is the next min(requested, remaining) bytes of the content |
| `OleStreams.OleEntry.Seek` | plugins/MSOfficeParserPlugin/Ole.cpp:572-613 | a target inside the entry is reached, `offset`, `position + offset` or `length + offset` for the three origins; a target outside is clamped to 0 or the length; any other origin fails; succeeds exactly if the clamped target lies inside a block; moves there with the file on the content's byte, and changes nothing on failure |
| `OleStreams.SeekFailsOnlyAtFullEnd` | plugins/MSOfficeParserPlugin/Ole.cpp:597-605 | a seek with a valid origin fails if and only if it goes to the end of a content that fills its last block |
| `OleStreams.OleEntry.Tell` | plugins/MSOfficeParserPlugin/Ole.cpp:622-628 | the cursor |
| `OleStreams.OleEntry.Eof` | plugins/MSOfficeParserPlugin/Ole.cpp:523-531 | true exactly at the end of the entry, where every further read returns nothing; on a complete file only there |
| `OleStreams.OleEntry.Session` | plugins/MSOfficeParserPlugin/Ole.cpp:442-628 | any interleaving of reads, seeks, tells and end tests answers by the position alone; on a complete file as a plain cursor over the content does |
| `OleStreams.SeekThenTellThenRead` | plugins/MSOfficeParserPlugin/Ole.cpp:572-613 | of that cursor: a seek to place k from the front, from the position or from the end, a tell and a read answer 0, k and the bytes from k on |
| `OleStreams.SeekOutside` | plugins/MSOfficeParserPlugin/Ole.cpp:583-605 | of that cursor: seeks before the front and past the end go to 0 and to the length, the latter fails exactly if the content fills its blocks, and an unknown origin fails and moves nothing |
| `OleStreams.ReadsConcatenate` | plugins/MSOfficeParserPlugin/Ole.cpp:442-501 | consecutive reads of any sizes join to one read of their total size |
| `OleChains.WalkChain` | plugins/MSOfficeParserPlugin/Ole.cpp:348-380 | ends on every table, cyclic ones included, with the chain's blocks up to its first dead link or length / size + 1 of them |
| `OleChains.ReadEntry` | plugins/MSOfficeParserPlugin/Ole.cpp:335-384 | kind, chain and final length of an entry: a big one has the chain of the FAT from its first block, in sectors, a short one that of the mini FAT, in short sectors, cut off at the first dead link or at length / size + 1 blocks; that chain is unique, and with all its blocks the length is kept; fails exactly if the first block is looked up outside its table |
| `OleChains.ChainIs` | plugins/MSOfficeParserPlugin/Ole.cpp:365-379 | the walk finds the one list of blocks in which every table entry names the next block |
| `OleChains.LengthKeptIff` | plugins/MSOfficeParserPlugin/Ole.cpp:383-384 | the length is cut if and only if the chain lacks a live block that the length needs |
| `OleChains.CyclicChain` | plugins/MSOfficeParserPlugin/Ole.cpp:371-379 | a chain that runs into a cycle is followed for exactly length / size + 1 blocks |
| `OleChains.BlocksSuffice` | plugins/MSOfficeParserPlugin/Ole.cpp:456-460 | every block index a read computes is below the number of blocks |
| `OleTables.ReadDifat` | plugins/MSOfficeParserPlugin/Ole.cpp:125-157 | the overlapping reads leave the header's entries followed by each DIFAT sector's entries without its closing link; fails exactly if a sector of the chain is not in the file |
| `OleTables.DifatAlong` | plugins/MSOfficeParserPlugin/Ole.cpp:125-157 | the last four bytes of a DIFAT sector name the next; without them, sector i of that chain is the i-th stretch of the table behind the header's entries |
| `OleTables.TableEntry` | plugins/MSOfficeParserPlugin/Ole.cpp:147-156 | entry e of DIFAT sector j stands at place j * (sectorSize / 4 - 1) + e behind the header's entries |
| `OleTables.ReadFat` | plugins/MSOfficeParserPlugin/Ole.cpp:160-175 | the FAT is the join of the sectors the table names, in order; a bad sector stops it, and so does a header that promises more sectors than the table has entries, where the code reads on behind them |
| `OleTables.LoadFat` | plugins/MSOfficeParserPlugin/Ole.cpp:119-175 | from the header to the FAT: the join of the sectors that header and DIFAT name, or which of the three failures stops it |
| `OleTables.FatEntry` | plugins/MSOfficeParserPlugin/Ole.cpp:365-365 | an entry of the assembled FAT, as the chain walk reads it, is the value at that place of the sector the table names |
| `OleTables.FatPlace` | plugins/MSOfficeParserPlugin/Ole.cpp:365-365 | entry i is value i % (sectorSize / 4) of FAT sector i / (sectorSize / 4) |
| `RoundRobin.NextStartIs` | app/fproxy/RoundRobinPolicy.cpp:38-38 | the wrapping size_t expression, from (size_t)-1 too, names the replica after the last choice |
| `RoundRobin.AfterRoundIs` | app/fproxy/RoundRobinPolicy.cpp:36-46 | after a fruitless round the next choice begins where that round began |
| `RoundRobin.RingIs` | app/fproxy/RoundRobinPolicy.cpp:36-46 | counting on round the ring is counting modulo its size |
| `RoundRobin.RoundRobinPolicy.constructor` | app/fproxy/RoundRobinPolicy.cpp:9-12 | no replicas, and a start before the first |
| `RoundRobin.RoundRobinPolicy.Init` | app/fproxy/RoundRobinPolicy.cpp:18-26 | appends the replicas, all available |
| `RoundRobin.RoundRobinPolicy.Select` | app/fproxy/RoundRobinPolicy.cpp:28-48 | the first available replica on the ring after the last choice; null exactly when none is available; where the cursor stands in either case |
| `RoundRobin.RoundRobinPolicy.MarkState` | app/fproxy/RoundRobinPolicy.cpp:60-72 | changes the first replica with that identity and no other |
| `RoundRobin.ScanMember` | app/fproxy/RoundRobinPolicy.cpp:36-46 | one round of the ring meets a replica if and only if it is available |
| `RoundRobin.RoundRobinIsFair` | app/fproxy/RoundRobinPolicy.cpp:28-48 | k selects among k available replicas choose each exactly once, in ring order |
| `RoundRobin.OneRound` | app/fproxy/RoundRobinPolicy.cpp:28-48 | that many calls of select do choose that round |
| `Failover.SearchShard.Run` | app/fproxy/SearchShardBase.cpp:62-96 | ends; the replicas tried are the available ones in ring order up to the first that answers; exactly those that failed become unavailable and are appended to the list, in order; where the round-robin cursor stands afterwards |
| `Failover.SearchShard.Turn` | app/fproxy/SearchShardBase.cpp:64-95 | one turn tries the next available replica and marks it if it fails, or stops |
| `Failover.AnswersIff` | app/fproxy/SearchShardBase.cpp:62-96 | the status is EC_OK if and only if some initially available replica would answer EC_OK |
| `Failover.TriedOnce` | app/fproxy/SearchShardBase.cpp:62-96 | no replica is tried twice |
| `Failover.EndsOnLastTried` | app/fproxy/SearchShardBase.cpp:62-96 | a search that tried a replica leaves the round-robin cursor on the last one tried |
| `Failover.NextSearchStarts` | app/fproxy/SearchShardBase.cpp:62-96 | the next search after an answer begins behind the replica that answered and comes to that one last |
| `AsyncDeliver.InitInv` | app/fproxy/RequestAsyncDeliver.h:95-117 | the invariant holds after start |
| `AsyncDeliver.StepInv` | app/fproxy/RequestAsyncDeliver.h:119-186 | every step of every thread keeps it: the counter is held + queued + running + run but not yet counted down, one thread holds the mutex, a waiter's wakeup is still to come, no request is queued behind a null |
| `AsyncDeliver.RunInv` | app/fproxy/RequestAsyncDeliver.h:119-186 | the invariant holds after every interleaving |
| `AsyncDeliver.WaitFinishMeansDone` | app/fproxy/RequestAsyncDeliver.h:178-186 | when waitFinish returns, the requests that have run are exactly those delivered, each as often |
| `AsyncDeliver.WorkersComeToRest` | app/fproxy/RequestAsyncDeliver.h:150-166 | left alone, the workers make at most Work(s) steps |
| `AsyncDeliver.WaitingMakesProgress` | app/fproxy/RequestAsyncDeliver.h:132-186 | whenever the delivering thread is blocked some worker can make a step: no deadlock |
| `AsyncDeliver.NoLostWakeup` | include/firtex/thread/Condition.h:28-39 | once the workers rest, the event of a blocked waitFinish has been set |
| `AsyncDeliver.ShutdownDrains` | app/fproxy/RequestAsyncDeliver.h:119-166 | after stop has seen the queue empty, every delivered request has run as often as delivered, and each worker has consumed one null and left |
| `AsyncRuns.SomeStepEnabled` | app/fproxy/RequestAsyncDeliver.h:119-186 | in every state that keeps the invariant, until the deliverer has stopped, some thread can make a step; it is the delivering thread's own whenever the queue holds fewer than 20 items and it has something to queue |
| `AsyncRuns.WorkersRest` | app/fproxy/RequestAsyncDeliver.h:150-166 | the workers can always be run until none of them can make a step, without the delivering thread |
| `AsyncRuns.RestIsIdle` | app/fproxy/RequestAsyncDeliver.h:150-166 | then the queue is empty, nobody is at work, the mutex is free, a waiter's event is set, and workers being joined are gone |
| `AsyncRuns.BossMoves` | app/fproxy/RequestAsyncDeliver.h:119-186 | from every state the delivering thread goes on after some steps of the workers |
| `AsyncRuns.WaitReturns` | app/fproxy/RequestAsyncDeliver.h:178-186 | a waitFinish that has begun has a way to return, with every delivered request run |
| `AsyncRuns.DeliverOne` | app/fproxy/RequestAsyncDeliver.h:169-176 | a deliver that begins in any such state has a way to return, with the request added |
| `AsyncRuns.CanStop` | app/fproxy/RequestAsyncDeliver.h:119-130 | from every state there is a run to the end of stop |
| `AsyncRuns.DeliverAll` | app/fproxy/RequestAsyncDeliver.h:95-186 | for every list of requests there is a run from start that delivers it, waits until exactly these have run, and stops |
| `AsyncRuns.FirstInFirstOut` | include/firtex/utility/BoundedConcurrentQueue.h:128-138 | in every interleaving the queue holds the last requests delivered, in the order of delivery, with the one about to be queued behind them |
| `AsyncRuns.RunsAhead` | include/firtex/utility/BoundedConcurrentQueue.h:128-138 | without any step of a worker the first 20 requests are queued in order, and a 21st waits |
| `TwoPhase.WantedAt` | app/fproxy/SearchShardsBase.cpp:276-293 | a hit stands in its shard's request at the number of earlier hits of that shard |
| `TwoPhase.NothingLost` | app/fproxy/SearchShardsBase.cpp:276-293 | the requests partition the hits: their lengths add up |
| `TwoPhase.SearchShards.constructor` | app/fproxy/SearchShardsBase.h:126-136 | one empty request and one zero cursor for each shard |
| `TwoPhase.SearchShards.BuildRequests` | app/fproxy/SearchShardsBase.cpp:269-302 | each shard is asked for its hits in hit order; exactly the shards that own a hit are asked, in ascending order |
| `TwoPhase.SearchShards.Collect` | app/fproxy/SearchShardsBase.cpp:322-396 | the outcome case by case: first failed shard, first query error with the documents merged before it, a cursor past a shard's documents, or the whole merge with every cursor at its shard's count |
| `TwoPhase.SearchShards.Merge` | app/fproxy/SearchShardsBase.cpp:374-396 | each hit gets the next unread document of its shard, with the hit's score |
| `TwoPhase.FaithfulSucceeds` | app/fproxy/SearchShardsBase.cpp:322-396 | shards that return what was asked, in order, always lead to a whole merge |
| `TwoPhase.MergeInvertsPartition` | app/fproxy/SearchShardsBase.cpp:276-396 | merging undoes the partition: document k is hit k's, from hit k's shard, with hit k's score |
| `TwoPhase.EachReadOnce` | app/fproxy/SearchShardsBase.cpp:377-396 | whatever the shards answer, the documents merged for a shard are its own first ones, as many as asked, each once and in its order |
| `TwoPhase.OutOfRangeIff` | app/fproxy/SearchShardsBase.cpp:393-393 | without reported errors a cursor leaves its range if and only if some shard returned fewer documents than asked |
| `TwoPhase.FirstErrorWins` | app/fproxy/SearchShardsBase.cpp:386-391 | with enough documents, the query error reported is that of the first hit whose shard has one, after the documents of the hits before it |
| `RtfGroups.RtfReader.constructor` | plugins/MSOfficeParserPlugin/RTFRead.cpp:109-119 | no group open, nothing skipped, uc 2 |
| `RtfGroups.RtfReader.OpenGroup` | plugins/MSOfficeParserPlugin/RTFRead.cpp:214-228 | pushes a copy of the top uc, with the array grown when full |
| `RtfGroups.RtfReader.CloseGroup` | plugins/MSOfficeParserPlugin/RTFRead.cpp:229-243 | pops, never below the outermost level, and ends a skip begun deeper |
| `RtfGroups.RtfReader.PrintUnicode` | plugins/MSOfficeParserPlugin/RTFRead.cpp:172-181 | prints unless skipping, and drops uc - 1 following bytes in either case |
| `RtfGroups.RtfReader.Turn` | plugins/MSOfficeParserPlugin/RTFRead.cpp:124-248 | one turn of the loop is one step of the flat interpreter |
| `RtfGroups.RtfReader.Parse` | plugins/MSOfficeParserPlugin/RTFRead.cpp:120-249 | the loop is a run of the flat interpreter |
| `RtfGroups.TextRow` | plugins/MSOfficeParserPlugin/RTFRead.cpp:244-247 | a row of characters prints those that are neither line feed nor carriage return, in order, and changes nothing else; none inside a skipped destination |
| `RtfGroups.HexPrints` | plugins/MSOfficeParserPlugin/RTFRead.cpp:160-165 | a hexadecimal character prints its own code, unless skipped |
| `RtfGroups.UnicodePrints` | plugins/MSOfficeParserPlugin/RTFRead.cpp:172-181 | a unicode character prints its own code, unless skipped, and drops uc - 1 bytes for uc >= 1, none for uc <= 0; a negative one does nothing |
| `RtfGroups.UcInForce` | plugins/MSOfficeParserPlugin/RTFRead.cpp:166-168 | a uc value holds in the groups that follow and after them again; without a command one byte is dropped |
| `RtfGroups.FixedPrints` | plugins/MSOfficeParserPlugin/RTFRead.cpp:132-159 | special characters and line ends are printed in skipped text too |
| `RtfGroups.OutsideGroups` | plugins/MSOfficeParserPlugin/RTFRead.cpp:229-243 | outside every group a closing brace too many ends only the paragraph mode, and a destination command skips nothing |
| `RtfGroups.GroupRestores` | plugins/MSOfficeParserPlugin/RTFRead.cpp:214-243 | the end of a group restores uc values and skipping, whatever the group holds |
| `RtfGroups.DestinationIsSilent` | plugins/MSOfficeParserPlugin/RTFRead.cpp:188-202 | a group that begins with a destination command prints no text at any depth, and text after it prints as before it |
| `RtfGroups.GapAfterPar` | plugins/MSOfficeParserPlugin/RTFRead.cpp:182-241 | after a paragraph every following group begins with a space, up to the end of the group the paragraph ended in; outside every group none does |
| `RtfGroups.FlatMeansNested` | plugins/MSOfficeParserPlugin/RTFRead.cpp:120-249 | from any state, at any depth, the flat counters suppress and drop exactly what nested scoping does, and leave the surrounding groups' uc and skip as they were |
| `RtfGroups.ParseMeansNested` | plugins/MSOfficeParserPlugin/RTFRead.cpp:108-257 | the output for a whole document is that of the nested reading |
| `RtfGroups.BalancedIsDoc` | plugins/MSOfficeParserPlugin/RTFRead.cpp:214-243 | every balanced stream of tokens is such a document |
| `StatusFile.StatusStore.MoveTo` | src/utility/File.cpp:145-150 | a copy, block by block, and then a removal, as far as the disk goes |
| `StatusFile.StatusStore.Write` | src/utility/File_LINUX.cpp:153-165 | the blocks of a text appended in order, as far as the disk goes |
| `StatusFile.StatusStore.Prepare` | app/watchdog/WatchdogServiceBase.cpp:412-424 | the temporary file written and the primary file moved to the backup, as far as the disk goes |
| `StatusFile.StatusStore.Save` | app/watchdog/WatchdogServiceBase.cpp:395-437 | the save is its operation sequence cut where the disk fails; a stale temporary file stops it with nothing changed |
| `StatusFile.WriteProgress` | src/utility/File_LINUX.cpp:153-165 | after j blocks a file being written holds exactly what they hold |
| `StatusFile.CopiedIs` | src/utility/File_LINUX.cpp:153-165 | what j blocks hold are the first j * block characters |
| `StatusFile.CopiedWhole` | src/utility/File_LINUX.cpp:153-165 | that is the whole text from the last block on, and not before |
| `StatusFile.SaveDone` | app/watchdog/WatchdogServiceBase.cpp:412-427 | after a completed save the primary file is the new table, the backup the old one, the temporary file gone |
| `StatusFile.SaveExample` | app/watchdog/WatchdogServiceBase.cpp:412-427 | the disk operations of one save, in order, when a primary file and a backup exist |
| `StatusFile.CrashOutcome` | app/watchdog/WatchdogServiceBase.cpp:445-468 | what recovery reads after a crash at any operation of a save, the first one included: the old table, nothing, the new one, or the blocks of it that a copy has got |
| `StatusFile.TornIff` | app/watchdog/WatchdogServiceBase.cpp:426-427 | for all tables: recovery reads neither the old nor the new one if and only if the crash falls into a copy that recovery reads and the blocks copied are not the old table |
| `StatusFile.TornExample` | src/utility/File.cpp:145-150 | such a crash |
| `StatusFile.StaleTempStopsSaves` | src/utility/XMLDocumentWrapper.cpp:99-106 | after any crash inside a save the temporary file is left over and no later save does anything |
| `StatusFile.RunOfSaves` | app/watchdog/WatchdogServiceBase.cpp:395-437 | over any run of completed saves recovery reads the last table saved, and the disk is again as the crash lemmas need it |

## Left out

- DoubleArrayTries.DoubleArrayTrie.Search: does not find every stored key; the guard of `next` can hide one, so the contract holds for visible keys and returns 0 for the others, as the code does.
- DoubleArrayTries.DoubleArrayTrie.SearchPrefix: promises nothing once the walk outgrows the 128 places of the stack, which the code does not check; it answers nothing but the text itself when the walk uses up the text, as the code does.
- DoubleArrayTries.DoubleArrayTrie.Insert: an access outside the array is an ordinary `ok == false`, and what a build without assertions does after it is not modelled; values are unbounded non-negative integers, so the 32-bit limit of cells is not modelled.
- The search for a NUL-terminated text with an end pointer (`DoubleArrayTrie.cpp:248-274`): it pushes the new state before it fails, so its end is one byte short after backtracking; not modelled.
- The trie's statistics, traversal, file save and memory-mapped load.
- Segmenters.MaxForwardSegmenter.Segment: needs a lexicon of label strings up to 128 bytes, without the empty word, whose words begin and end on atoms and hold no separator (otherwise the code reads buffer places it never wrote), and a lexer that keeps its promise; the generated lexers are parameters.
- Segmenters.MaxForwardSegmenter.EmitWords: needs the same.
- OleStreams.OleEntry.constructor: one entry open at a time; a short sector no larger than a sector (the code divides by their quotient) and short blocks inside the root entry's chain, which the code does not check; the plain-file mode set by set_std_func is left out.
- OleStreams.ShortContent: also needs the short size to divide the long one, as both are powers of two.
- OleChains.ReadEntry: the code does not check that the first block lies in its table; reading past the table is reported as a failure.
- OleTables.LoadFat: takes the header's 512 bytes and a sector size of at least 4; the signature test and the shift that gives the size are left out, and what lies behind the table's entries in memory is not modelled.
- The chains of the mini FAT and of the directory in ole_init, which have no length bound, directory names, temporary copies of pipes, and allocation failures.
- Failover.SearchShard.Run: needs replicas with distinct identities, and no health check running meanwhile; checkUnavailableReplicas calls std::remove without erase and is left out.
- AsyncDeliver.WaitFinishMeansDone: for one delivering thread, which `ProxyServiceBase.cpp:66-70` ensures, and without spurious wakeups; the threads are a transition system on values, not objects.
- AsyncDeliver.NoLostWakeup: the bounded queue is one atomic FIFO of 20 places; its own condition variable and time-outs, and the thread pool, are left out.
- TwoPhase.SearchShards.BuildRequests: every hit's shard number is below the number of shards; the code asserts only that it is not above it. Requests are lists of document numbers, not query text.
- TwoPhase.SearchShards.Collect: answers are parsed documents; XML, tracing, time costs and hit totals are left out. Reading past a shard's documents is an outcome of its own.
- RtfGroups.ParseMeansNested: leaves out the space that para_mode puts before groups, which is not lexically scoped (`GapAfterPar` is about it); the bytes dropped after a unicode character are reported as a number, and the token stream already lacks them.
- RTF command parsing, character sets, and the output buffer, whose flush test can never hold; the output is unbounded.
- RtfGroups.FlatMeansNested: a destination command outside every group skips nothing and special characters are printed even in skipped text, as in the code.
- StatusFile.CrashOutcome: disk operations are atomic and ordered, and a second crash during recovery is left out; a disk with only a backup counts as one without a table, because recovery then tries to parse the missing temporary file (`WatchdogServiceBase.cpp:461`).
- Restart policy of the watchdog, process control, XML, logging, configuration, sockets, thrift, ZooKeeper and the index itself.
