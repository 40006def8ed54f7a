/** The sector chain of a directory entry, as ole_readdir follows it through the FAT or the mini FAT. */
module OleChains {
  import opened Basics
  import opened OleFiles
  import opened OleStreams

  /** The n-th block of the chain from `start`; -1 once the chain has left the table. */
  function Follow(table: seq<int>, start: int, n: nat): int {
    if n == 0 then start
    else
      var p := Follow(table, start, n - 1);
      if 0 <= p < |table| then table[p] else -1
  }

  /** A block number the walk goes on with: block 0 and everything outside the table end it. */
  predicate Live(table: seq<int>, b: int) { 0 < b < |table| }

  ghost predicate OnChain(table: seq<int>, start: nat, blocks: seq<nat>) {
    && (forall i :: 0 <= i < |blocks| ==> blocks[i] == Follow(table, start, i))
    && (forall i :: 1 <= i < |blocks| ==> Live(table, blocks[i]))
  }

  lemma OnChainMore(bytes: seq<Byte>, start: nat, blocks: seq<nat>, b: nat)
    requires OnChain(Entries(bytes), start, blocks) && b == Follow(Entries(bytes), start, |blocks|) < |bytes| / 4
    requires blocks == [] || Live(Entries(bytes), b)
    ensures OnChain(Entries(bytes), start, blocks + [b])
    ensures Follow(Entries(bytes), start, |blocks| + 1) == GetLong(bytes, 4 * b)
  {
  }

  /** `blocks` is the chain from start, up to its first dead link or the block that the stream's
      length makes superfluous. */
  ghost predicate IsChain(table: seq<int>, start: nat, length: nat, size: nat, blocks: seq<nat>)
    requires size > 0
  {
    && 1 <= |blocks| <= length / size + 1
    && OnChain(table, start, blocks)
    && (|blocks| == length / size + 1 || !Live(table, Follow(table, start, |blocks|)))
  }

  /** The chain loop of ole_readdir, on the bytes of a table. It ends on every table, cyclic ones
      included. */
  method WalkChain(bytes: seq<Byte>, start: nat, length: nat, size: nat) returns (blocks: seq<nat>)
    requires size > 0 && start < |bytes| / 4
    ensures IsChain(Entries(bytes), start, length, size, blocks)
  {
    Split(length, size);
    ghost var table := Entries(bytes);
    var full: nat := length / size;
    var chainCurrent: int := start;
    blocks := [];
    while true
      invariant 0 <= chainCurrent < |table| && chainCurrent == Follow(table, start, |blocks|)
      invariant |blocks| <= full && (|blocks| > 0 ==> Live(table, chainCurrent))
      invariant OnChain(table, start, blocks)
      decreases full - |blocks|
    {
      OnChainMore(bytes, start, blocks, chainCurrent);
      blocks := blocks + [chainCurrent];
      chainCurrent := GetLong(bytes, 4 * chainCurrent);
      if chainCurrent <= 0 || chainCurrent >= |bytes| / 4 || |blocks| > full { return; }
    }
  }

  /** The 32-bit value at the place of block d[i] in the table is the next block. */
  predicate LinkAt(bytes: seq<Byte>, d: seq<nat>, i: nat) {
    i + 1 < |d| && d[i] < |bytes| / 4 && GetLong(bytes, 4 * d[i]) == d[i + 1]
  }

  /** d is the chain of the start block in these table bytes: every link is the 32-bit value at its
      place, and it ends where a link is 0 or leaves the table, or when the length asks for no more. */
  ghost predicate WholeChain(bytes: seq<Byte>, start: int, length: nat, size: nat, d: seq<nat>)
    requires size > 0
  {
    && d != [] && d[0] == start && |d| <= length / size + 1
    && (forall i :: 0 <= i < |d| ==> d[i] < |bytes| / 4 && (i > 0 ==> d[i] != 0))
    && (forall i {:trigger LinkAt(bytes, d, i)} :: 0 <= i < |d| - 1 ==> LinkAt(bytes, d, i))
    && (|d| == length / size + 1
        || var end := GetLong(bytes, 4 * d[|d| - 1]); end == 0 || end >= |bytes| / 4)
  }

  lemma {:induction false} FollowIs(bytes: seq<Byte>, start: int, length: nat, size: nat, d: seq<nat>, i: nat)
    requires size > 0 && WholeChain(bytes, start, length, size, d) && i < |d|
    ensures Follow(Entries(bytes), start, i) == d[i]
  {
    if i > 0 {
      FollowIs(bytes, start, length, size, d, i - 1);
      assert LinkAt(bytes, d, i - 1);
    }
  }

  /** The walk does not stop before the end of such a chain ... */
  lemma NoShorter(bytes: seq<Byte>, start: nat, length: nat, size: nat, blocks: seq<nat>, d: seq<nat>)
    requires size > 0 && WholeChain(bytes, start, length, size, d)
    requires IsChain(Entries(bytes), start, length, size, blocks)
    ensures |blocks| >= |d|
  {
    if |blocks| < |d| { FollowIs(bytes, start, length, size, d, |blocks|); }
  }

  /** ... and not after it. */
  lemma NoLonger(bytes: seq<Byte>, start: nat, length: nat, size: nat, blocks: seq<nat>, d: seq<nat>)
    requires size > 0 && WholeChain(bytes, start, length, size, d)
    requires IsChain(Entries(bytes), start, length, size, blocks)
    ensures |blocks| <= |d|
  {
    var last := |d| - 1;
    FollowIs(bytes, start, length, size, d, last);
    if |blocks| > |d| { BlockAlive(Entries(bytes), start, length, size, blocks, last + 1); }
  }

  lemma BlockAlive(table: seq<int>, start: nat, length: nat, size: nat, blocks: seq<nat>, i: nat)
    requires size > 0 && IsChain(table, start, length, size, blocks) && 1 <= i < |blocks|
    ensures Live(table, Follow(table, start, i))
  {
    assert blocks[i] == Follow(table, start, i);
  }

  /** There is only one such chain, and it is the one the walk finds. */
  lemma ChainIs(bytes: seq<Byte>, start: nat, length: nat, size: nat, blocks: seq<nat>, d: seq<nat>)
    requires size > 0 && WholeChain(bytes, start, length, size, d)
    requires IsChain(Entries(bytes), start, length, size, blocks)
    ensures blocks == d
  {
    NoShorter(bytes, start, length, size, blocks, d);
    NoLonger(bytes, start, length, size, blocks, d);
    forall i | 0 <= i < |d| ensures blocks[i] == d[i] { FollowIs(bytes, start, length, size, d, i); }
  }

  /** A chain with a block for every block the length needs does not cut the length. */
  lemma LongEnough(length: nat, size: nat, n: nat)
    requires size > 0 && n == length / size + 1
    ensures length < BlockStart(n, size)
  {
    Split(length, size);
  }

  datatype Tables = Tables(sectorSize: nat, shortSectorSize: nat, fileLength: nat,
                           bbd: seq<Byte>, sbd: seq<Byte>, hasSbd: bool)

  const MINI_CUTOFF: nat := 0x1000

  datatype Entry = Entry(blocks: seq<nat>, length: nat, isBig: bool)

  function SizeOf(t: Tables, isBig: bool): nat { if isBig then t.sectorSize else t.shortSectorSize }

  predicate StartInFile(t: Tables, isBig: bool, startBlock: int)
    requires SizeOf(t, isBig) > 0
  {
    0 <= startBlock <= t.fileLength / SizeOf(t, isBig)
  }

  /** The table of the entry's kind; without a mini FAT every short chain ends at once. */
  function BytesOf(t: Tables, isBig: bool): seq<Byte> {
    if isBig then t.bbd else if t.hasSbd then t.sbd else []
  }

  /** The chain of ole_readdir, if there is one. `ok` is false exactly when the code looks up the
      first block outside its table, which it does not check. */
  method EntryChain(t: Tables, isBig: bool, startBlock: int, rawLength: nat) returns (ok: bool, blocks: seq<nat>)
    requires SizeOf(t, isBig) > 0
    ensures !ok <==> StartInFile(t, isBig, startBlock) && (isBig || t.hasSbd) && startBlock >= |BytesOf(t, isBig)| / 4
    ensures !ok || !StartInFile(t, isBig, startBlock) ==> blocks == []
    ensures ok && StartInFile(t, isBig, startBlock) ==>
              if !isBig && !t.hasSbd then blocks == [startBlock]
              else IsChain(Entries(BytesOf(t, isBig)), startBlock, rawLength, SizeOf(t, isBig), blocks)
  {
    ok, blocks := true, [];
    if StartInFile(t, isBig, startBlock) {
      if !isBig && !t.hasSbd {
        blocks := [startBlock];
      } else if startBlock >= |BytesOf(t, isBig)| / 4 {
        ok := false;
      } else {
        blocks := WalkChain(BytesOf(t, isBig), startBlock, rawLength, SizeOf(t, isBig));
      }
    }
  }

  /** The rest of ole_readdir: kind, chain and final length of an entry. */
  method ReadEntry(t: Tables, startBlock: int, rawLength: nat, isRoot: bool) returns (ok: bool, e: Entry)
    requires t.sectorSize > 0 && t.shortSectorSize > 0
    ensures e.isBig == (rawLength >= MINI_CUTOFF || isRoot)
    ensures !ok <==> StartInFile(t, e.isBig, startBlock) && (e.isBig || t.hasSbd)
                     && startBlock >= |BytesOf(t, e.isBig)| / 4
    ensures !ok || !StartInFile(t, e.isBig, startBlock) ==> e.blocks == []
    ensures ok && StartInFile(t, e.isBig, startBlock) ==>
              if !e.isBig && !t.hasSbd then e.blocks == [startBlock]
              else IsChain(Entries(BytesOf(t, e.isBig)), startBlock, rawLength, SizeOf(t, e.isBig), e.blocks)
    ensures e.length == Min(rawLength, BlockStart(|e.blocks|, SizeOf(t, e.isBig)))
    ensures (rawLength >= 0x1000 || isRoot) && 0 <= startBlock <= t.fileLength / t.sectorSize ==>
              Kept(t.bbd, startBlock, rawLength, t.sectorSize, ok, e)
    ensures rawLength < 0x1000 && !isRoot && t.hasSbd && 0 <= startBlock <= t.fileLength / t.shortSectorSize ==>
              Kept(t.sbd, startBlock, rawLength, t.shortSectorSize, ok, e)
    ensures rawLength < 0x1000 && !isRoot && !t.hasSbd && 0 <= startBlock <= t.fileLength / t.shortSectorSize ==>
              ok && e.blocks == [startBlock] && e.length == Min(rawLength, t.shortSectorSize)
    ensures startBlock < 0 ==> ok && e.blocks == [] && e.length == 0
  {
    var isBig := rawLength >= MINI_CUTOFF || isRoot;
    var blocks;
    ok, blocks := EntryChain(t, isBig, startBlock, rawLength);
    var length := CutLength(SizeOf(t, isBig), |blocks|, rawLength);
    e := Entry(blocks, length, isBig);
    if StartInFile(t, isBig, startBlock) && (isBig || t.hasSbd) {
      KeptBy(BytesOf(t, isBig), startBlock, rawLength, SizeOf(t, isBig), ok, e);
    }
  }

  /** The last step of ole_readdir: no more length than the blocks have. */
  method CutLength(size: nat, n: nat, rawLength: nat) returns (length: nat)
    ensures length == Min(rawLength, BlockStart(n, size))
  {
    BlockStartIsProduct(n, size);
    length := rawLength;
    if length > size * n { length := size * n; }
  }

  /** The entry has the chain that these table bytes hold, and no more length than its blocks have:
      all of it if there is a block for every block the length needs. */
  ghost predicate Kept(bytes: seq<Byte>, start: int, length: nat, size: nat, ok: bool, e: Entry)
    requires size > 0
  {
    forall d {:trigger WholeChain(bytes, start, length, size, d)} :: WholeChain(bytes, start, length, size, d) ==>
      && ok && e.blocks == d && e.length == Min(length, |d| * size)
      && (|d| == length / size + 1 ==> e.length == length)
  }

  lemma KeptBy(bytes: seq<Byte>, start: nat, length: nat, size: nat, ok: bool, e: Entry)
    requires size > 0 && e.length == Min(length, BlockStart(|e.blocks|, size))
    requires !ok ==> start >= |bytes| / 4
    requires ok ==> IsChain(Entries(bytes), start, length, size, e.blocks)
    ensures Kept(bytes, start, length, size, ok, e)
  {
    forall d | WholeChain(bytes, start, length, size, d)
      ensures ok && e.blocks == d && e.length == Min(length, |d| * size)
      ensures |d| == length / size + 1 ==> e.length == length
    {
      ChainIs(bytes, start, length, size, e.blocks, d);
      BlockStartIsProduct(|d|, size);
      if |d| == length / size + 1 { LongEnough(length, size, |d|); }
    }
  }

  /** The length is left alone exactly when the chain has a live block for every block it needs. */
  lemma LengthKeptIff(table: seq<int>, start: nat, length: nat, size: nat, blocks: seq<nat>)
    requires size > 0 && IsChain(table, start, length, size, blocks)
    ensures Min(length, BlockStart(|blocks|, size)) == length <==>
            forall i {:trigger Follow(table, start, i)} :: 1 <= i && BlockStart(i, size) < length ==>
                Live(table, Follow(table, start, i))
  {
    var n := |blocks|;
    Split(length, size);
    var q := length / size;
    assert BlockStart(q + 1, size) == BlockStart(q, size) + size > length;
    assert n == q + 1 ==> BlockStart(n, size) > length;
    if length <= BlockStart(n, size) {
      forall i {:trigger Follow(table, start, i)} | 1 <= i && BlockStart(i, size) < length
        ensures Live(table, Follow(table, start, i))
      {
        BlockInRange(i, size, length, n);
      }
    } else {
      assert !Live(table, Follow(table, start, n));
    }
  }

  /** Every block that a read of the entry touches has a place in the chain. */
  lemma BlocksSuffice(length: nat, n: nat, size: nat, k: nat)
    requires size > 0 && length <= BlockStart(n, size) && k < length
    ensures k / size < n
  {
    BlockOf(k, size, n);
  }

  /** A chain that runs into a cycle is followed for exactly length / size + 1 blocks. */
  lemma CyclicChain(table: seq<int>, start: nat, length: nat, size: nat, blocks: seq<nat>, i: nat, j: nat)
    requires size > 0 && IsChain(table, start, length, size, blocks)
    requires i < j && Follow(table, start, i) == Follow(table, start, j)
    requires forall n {:trigger Follow(table, start, n)} :: 1 <= n <= j ==> Live(table, Follow(table, start, n))
    ensures |blocks| == length / size + 1
  {
    CycleGoesOn(table, start, i, j, |blocks|);
  }

  lemma {:induction false} CycleGoesOn(table: seq<int>, start: nat, i: nat, j: nat, n: nat)
    requires i < j && 1 <= n && Follow(table, start, i) == Follow(table, start, j)
    requires forall n {:trigger Follow(table, start, n)} :: 1 <= n <= j ==> Live(table, Follow(table, start, n))
    ensures Live(table, Follow(table, start, n))
    decreases n
  {
    if n > j {
      SameFrom(table, start, i, j, n - j);
      CycleGoesOn(table, start, i, j, i + (n - j));
    }
  }

  lemma {:induction false} SameFrom(table: seq<int>, start: nat, i: nat, j: nat, m: nat)
    requires Follow(table, start, i) == Follow(table, start, j)
    ensures Follow(table, start, i + m) == Follow(table, start, j + m)
  {
    if m > 0 { SameFrom(table, start, i, j, m - 1); }
  }
}
