/** An open OLE entry as a cursor: read, seek, tell and end-of-file over scattered blocks. */
module OleStreams {
  import opened Basics
  import opened OleFiles

  /** The part of the compound file that turns block numbers into file offsets. */
  datatype Layout = Layout(sectorSize: nat, shortSectorSize: nat, rootBlocks: seq<nat>)

  datatype Whence = SeekSet | SeekCur | SeekEnd | Unsupported

  function BlockSize(o: Layout, isBig: bool): nat {
    if isBig then o.sectorSize else o.shortSectorSize
  }

  /** The layout serves this block: short blocks must lie in a sector of the root entry's chain. */
  predicate BlockMapped(o: Layout, isBig: bool, block: nat) {
    isBig || (0 < o.shortSectorSize <= o.sectorSize && block / (o.sectorSize / o.shortSectorSize) < |o.rootBlocks|)
  }

  /** calcFileBlockOffset, on a block number. */
  function FileBlockOffset(o: Layout, isBig: bool, block: nat): nat
    requires BlockMapped(o, isBig, block)
  {
    if isBig then 512 + block * o.sectorSize
    else
      var perSector := o.sectorSize / o.shortSectorSize;
      512 + o.rootBlocks[block / perSector] * o.sectorSize + block % perSector * o.shortSectorSize
  }

  /** b * size, by repeated addition. */
  function BlockStart(b: nat, size: nat): nat {
    if b == 0 then 0 else BlockStart(b - 1, size) + size
  }

  lemma {:induction false} BlockStartIsProduct(b: nat, size: nat)
    ensures BlockStart(b, size) == b * size
  {
    if b > 0 {
      BlockStartIsProduct(b - 1, size);
      assert b * size == (b - 1) * size + size;
    }
  }

  lemma {:induction false} BlockStartMonotone(a: nat, b: nat, size: nat)
    requires a <= b
    ensures BlockStart(a, size) <= BlockStart(b, size)
  {
    if a < b { BlockStartMonotone(a, b - 1, size); }
  }

  /** Splitting a position into block number and offset in the block. */
  lemma Split(k: nat, size: nat)
    requires size > 0
    ensures k == BlockStart(k / size, size) + k % size
  {
    BlockStartIsProduct(k / size, size);
  }

  predicate InFile(offsets: seq<nat>, size: nat, data: seq<Byte>) {
    forall i :: 0 <= i < |offsets| ==> offsets[i] + size <= |data|
  }

  /** The bytes of the blocks at these file offsets, one block after the other. */
  function Sectors(offsets: seq<nat>, size: nat, data: seq<Byte>): (s: seq<Byte>)
    requires InFile(offsets, size, data)
    ensures |s| == BlockStart(|offsets|, size)
  {
    if offsets == [] then []
    else
      var n := |offsets| - 1;
      Sectors(offsets[..n], size, data) + data[offsets[n]..offsets[n] + size]
  }

  lemma {:induction false} SectorAt(offsets: seq<nat>, size: nat, data: seq<Byte>, b: nat)
    requires InFile(offsets, size, data)
    requires b < |offsets|
    ensures BlockStart(b, size) + size <= |Sectors(offsets, size, data)|
    ensures Sectors(offsets, size, data)[BlockStart(b, size)..BlockStart(b, size) + size] ==
            data[offsets[b]..offsets[b] + size]
  {
    var n := |offsets| - 1;
    var front, last := Sectors(offsets[..n], size, data), data[offsets[n]..offsets[n] + size];
    if b < n {
      SectorAt(offsets[..n], size, data, b);
      SliceOfFront(front, last, BlockStart(b, size), BlockStart(b, size) + size);
    } else {
      SliceOfBack(front, last);
    }
  }

  lemma SliceOfFront(front: seq<Byte>, last: seq<Byte>, a: nat, b: nat)
    requires a <= b <= |front|
    ensures (front + last)[a..b] == front[a..b]
  {
  }

  lemma SliceOfBack(front: seq<Byte>, last: seq<Byte>)
    ensures (front + last)[|front|..|front| + |last|] == last
  {
  }

  /** The layout serves every block of the chain. */
  ghost predicate Mapped(o: Layout, isBig: bool, blocks: seq<nat>) {
    BlockSize(o, isBig) > 0 && forall i {:trigger blocks[i]} :: 0 <= i < |blocks| ==> BlockMapped(o, isBig, blocks[i])
  }

  /** Where the chain's blocks lie in the file. */
  ghost function Offsets(o: Layout, isBig: bool, blocks: seq<nat>): (s: seq<nat>)
    requires Mapped(o, isBig, blocks)
    ensures |s| == |blocks|
  {
    seq(|blocks|, i requires 0 <= i < |blocks| => FileBlockOffset(o, isBig, blocks[i]))
  }

  /** Every block of the chain is in the file as a whole. */
  ghost predicate Complete(o: Layout, isBig: bool, blocks: seq<nat>, data: seq<Byte>) {
    Mapped(o, isBig, blocks) && InFile(Offsets(o, isBig, blocks), BlockSize(o, isBig), data)
  }

  /** The abstract content: the first `length` bytes of the entry's blocks in chain order. */
  ghost function Content(o: Layout, isBig: bool, blocks: seq<nat>, data: seq<Byte>, length: nat): (s: seq<Byte>)
    requires Complete(o, isBig, blocks, data) && length <= BlockStart(|blocks|, BlockSize(o, isBig))
    ensures |s| == length
  {
    Sectors(Offsets(o, isBig, blocks), BlockSize(o, isBig), data)[..length]
  }

  /** What is left from a position, at most n bytes of it. */
  function NextBytes(s: seq<Byte>, at: nat, n: nat): (r: seq<Byte>)
    requires at <= |s|
    ensures |r| == Min(n, |s| - at)
  {
    s[at..at + Min(n, |s| - at)]
  }

  /** A piece of one block is a piece of the content. */
  lemma PieceOfContent(o: Layout, isBig: bool, blocks: seq<nat>, data: seq<Byte>, length: nat, blk: nat, from: nat,
                       n: nat)
    requires Complete(o, isBig, blocks, data) && length <= BlockStart(|blocks|, BlockSize(o, isBig)) && blk < |blocks|
    requires from + n <= BlockSize(o, isBig) && BlockStart(blk, BlockSize(o, isBig)) + from + n <= length
    ensures var place, k := Offsets(o, isBig, blocks)[blk] + from, BlockStart(blk, BlockSize(o, isBig)) + from;
      place + n <= |data| && data[place..place + n] == Content(o, isBig, blocks, data, length)[k..k + n]
  {
    PieceOfSectors(Offsets(o, isBig, blocks), BlockSize(o, isBig), data, length, blk, from, n);
  }

  lemma ByteOfContent(o: Layout, isBig: bool, blocks: seq<nat>, data: seq<Byte>, length: nat, blk: nat, from: nat)
    requires Complete(o, isBig, blocks, data) && length <= BlockStart(|blocks|, BlockSize(o, isBig)) && blk < |blocks|
    requires from < BlockSize(o, isBig) && BlockStart(blk, BlockSize(o, isBig)) + from < length
    ensures var place, k := Offsets(o, isBig, blocks)[blk] + from, BlockStart(blk, BlockSize(o, isBig)) + from;
      place < |data| && data[place] == Content(o, isBig, blocks, data, length)[k]
  {
    PieceOfContent(o, isBig, blocks, data, length, blk, from, 1);
    var place, k := Offsets(o, isBig, blocks)[blk] + from, BlockStart(blk, BlockSize(o, isBig)) + from;
    assert data[place..place + 1][0] == Content(o, isBig, blocks, data, length)[k..k + 1][0];
  }

  lemma OffsetAt(o: Layout, isBig: bool, blocks: seq<nat>, b: nat)
    requires Mapped(o, isBig, blocks) && b < |blocks|
    ensures BlockMapped(o, isBig, blocks[b])
    ensures Offsets(o, isBig, blocks)[b] == FileBlockOffset(o, isBig, blocks[b])
  {
  }

  lemma PieceOfSectors(offsets: seq<nat>, size: nat, data: seq<Byte>, length: nat, b: nat, from: nat, n: nat)
    requires InFile(offsets, size, data)
    requires b < |offsets| && length <= BlockStart(|offsets|, size)
    requires from + n <= size && BlockStart(b, size) + from + n <= length
    ensures var place, k := offsets[b] + from, BlockStart(b, size) + from;
      data[place..place + n] == Sectors(offsets, size, data)[..length][k..k + n]
  {
    var all, start := Sectors(offsets, size, data), BlockStart(b, size);
    SectorAt(offsets, size, data, b);
    assert all[start..start + size] == data[offsets[b]..offsets[b] + size];
    PieceOfSector(all, data, start, offsets[b], size, length, from, n);
  }

  lemma SliceOfSlice(s: seq<Byte>, a: nat, b: nat, c: nat, d: nat)
    requires a <= b <= |s| && c <= d <= b - a
    ensures s[a..b][c..d] == s[a + c..a + d]
  {
    forall i | 0 <= i < d - c ensures s[a..b][c..d][i] == s[a + c..a + d][i] {
      assert s[a..b][c..d][i] == s[a..b][c + i];
    }
  }

  /** The part of the n bytes at `place` that is in the file: what fread delivers. */
  function Piece(data: seq<Byte>, place: nat, n: nat): (s: seq<Byte>)
    ensures |s| == Min(n, if place < |data| then |data| - place else 0)
  {
    data[Min(place, |data|)..Min(place + n, |data|)]
  }

  /** What reading n bytes from byte `from` of block blk on delivers, whether the file is complete or
      not: the pieces of the blocks at these places, one after the other. */
  function Delivered(places: seq<nat>, size: nat, data: seq<Byte>, blk: nat, from: nat, n: nat): (s: seq<Byte>)
    requires from < size && (n > 0 ==> BlockStart(blk, size) + from + n <= BlockStart(|places|, size))
    ensures |s| <= n
    decreases n
  {
    if n == 0 then []
    else
      BlockInRange(blk, size, BlockStart(blk, size) + from + n, |places|);
      if n <= size - from then Piece(data, places[blk] + from, n)
      else
        Piece(data, places[blk] + from, size - from) + Delivered(places, size, data, blk + 1, 0, n - (size - from))
  }

  /** The pieces of whole blocks at these places, joined. */
  function Pieces(places: seq<nat>, size: nat, data: seq<Byte>): seq<Byte> {
    if places == [] then [] else Piece(data, places[0], size) + Pieces(places[1..], size, data)
  }

  /** Reading m whole blocks delivers the piece of each, also of those behind a piece cut short. */
  lemma {:induction false} DeliveredIsPieces(places: seq<nat>, size: nat, data: seq<Byte>, blk: nat, m: nat)
    requires 0 < size && blk + m <= |places|
    ensures BlockStart(blk, size) + BlockStart(m, size) <= BlockStart(|places|, size)
    ensures Delivered(places, size, data, blk, 0, BlockStart(m, size)) == Pieces(places[blk..blk + m], size, data)
    decreases m
  {
    BlockStartAdd(blk, m, size);
    BlockStartMonotone(blk + m, |places|, size);
    if m > 0 {
      DeliveredIsPieces(places, size, data, blk + 1, m - 1);
      assert places[blk..blk + m][1..] == places[blk + 1..blk + m];
      if m == 1 { assert Piece(data, places[blk], size) + [] == Piece(data, places[blk], size); }
    }
  }

  lemma JoinSlices(s: seq<Byte>, k: nat, a: nat, n: nat, head: seq<Byte>, tail: seq<Byte>)
    requires a <= n && k + n <= |s| && head == s[k..k + a] && tail == s[k + a..k + n]
    ensures head + tail == s[k..k + n]
  {
  }

  lemma WholePiece(data: seq<Byte>, place: nat, n: nat)
    requires place + n <= |data|
    ensures Piece(data, place, n) == data[place..place + n]
  {
  }

  /** s is made up of the blocks at these places. */
  ghost predicate Tiled(places: seq<nat>, size: nat, data: seq<Byte>, s: seq<Byte>) {
    |s| == BlockStart(|places|, size) && forall b {:trigger TileAt(places, size, data, s, b)} ::
      0 <= b < |places| ==> TileAt(places, size, data, s, b)
  }

  predicate TileAt(places: seq<nat>, size: nat, data: seq<Byte>, s: seq<Byte>, b: nat)
    requires b < |places|
  {
    && places[b] + size <= |data| && BlockStart(b, size) + size <= |s|
    && s[BlockStart(b, size)..BlockStart(b, size) + size] == data[places[b]..places[b] + size]
  }

  lemma SectorsTiled(places: seq<nat>, size: nat, data: seq<Byte>)
    requires InFile(places, size, data)
    ensures Tiled(places, size, data, Sectors(places, size, data))
  {
    forall b | 0 <= b < |places| ensures TileAt(places, size, data, Sectors(places, size, data), b) {
      SectorAt(places, size, data, b);
    }
  }

  /** From a complete file it is the blocks' bytes, from position k on. */
  lemma {:induction false} DeliveredIsContent(places: seq<nat>, size: nat, data: seq<Byte>, s: seq<Byte>,
                                              blk: nat, from: nat, n: nat, k: nat)
    requires Tiled(places, size, data, s) && from < size && k == BlockStart(blk, size) + from && k + n <= |s|
    ensures Delivered(places, size, data, blk, from, n) == s[k..k + n]
    decreases n
  {
    if n > 0 {
      if n <= size - from {
        FirstPiece(places, size, data, s, blk, from, n, k);
      } else {
        var first := size - from;
        FirstPiece(places, size, data, s, blk, from, first, k);
        DeliveredIsContent(places, size, data, s, blk + 1, 0, n - first, k + first);
        JoinSlices(s, k, first, n, Piece(data, places[blk] + from, first),
                   Delivered(places, size, data, blk + 1, 0, n - first));
      }
    }
  }

  lemma FirstPiece(places: seq<nat>, size: nat, data: seq<Byte>, s: seq<Byte>, blk: nat, from: nat, n: nat, k: nat)
    requires Tiled(places, size, data, s) && 0 < n && from + n <= size
    requires k == BlockStart(blk, size) + from && k + n <= |s|
    ensures blk < |places| && Piece(data, places[blk] + from, n) == s[k..k + n]
  {
    BlockInRange(blk, size, BlockStart(blk, size) + from + n, |places|);
    assert TileAt(places, size, data, s, blk);
    SliceOfSlice(s, BlockStart(blk, size), BlockStart(blk, size) + size, from, from + n);
    SliceOfSlice(data, places[blk], places[blk] + size, from, from + n);
    WholePiece(data, places[blk] + from, n);
  }

  /** A buffer that holds `got` at its front and is what it was (`rest`) behind that. */
  function Fill(rest: seq<Byte>, got: seq<Byte>): (s: seq<Byte>)
    requires |got| <= |rest|
    ensures |s| == |rest|
  {
    got + rest[|got|..]
  }

  predicate Filled(buf: seq<Byte>, rest: seq<Byte>, got: seq<Byte>) {
    |got| <= |rest| && buf == Fill(rest, got)
  }

  /** The buffer with `piece` written at position `at`. */
  function Write(before: seq<Byte>, at: nat, piece: seq<Byte>): seq<Byte>
    requires at + |piece| <= |before|
  {
    before[..at] + piece + before[at + |piece|..]
  }

  lemma FillStep(rest: seq<Byte>, got: seq<Byte>, piece: seq<Byte>)
    requires |got| + |piece| <= |rest|
    ensures Write(Fill(rest, got), |got|, piece) == Fill(rest, got + piece)
  {
    assert Fill(rest, got)[..|got|] == got;
    assert Fill(rest, got)[|got| + |piece|..] == rest[|got| + |piece|..];
  }

  lemma FillFirst(rest: seq<Byte>, piece: seq<Byte>)
    requires |piece| <= |rest|
    ensures Write(rest, 0, piece) == Fill(rest, piece)
  {
  }

  lemma FillNone(buf: seq<Byte>)
    ensures Filled(buf, buf, [])
  {
  }

  lemma PieceOfSector(all: seq<Byte>, data: seq<Byte>, start: nat, place: nat, size: nat, length: nat, from: nat,
                      n: nat)
    requires start + size <= |all| && place + size <= |data| && length <= |all|
    requires all[start..start + size] == data[place..place + size]
    requires from + n <= size && start + from + n <= length
    ensures data[place + from..place + from + n] == all[..length][start + from..start + from + n]
  {
    SliceOfSlice(all, start, start + size, from, from + n);
    SliceOfSlice(data, place, place + size, from, from + n);
    SliceOfSlice(all, 0, length, start + from, start + from + n);
    assert all[0..length] == all[..length];
  }

  /** The mini stream of [MS-CFB] section 2.4: the root entry's sectors, joined. */
  ghost function MiniStream(o: Layout, data: seq<Byte>): (s: seq<Byte>)
    requires Complete(o, true, o.rootBlocks, data)
    ensures |s| == BlockStart(|o.rootBlocks|, o.sectorSize)
  {
    Sectors(Offsets(o, true, o.rootBlocks), o.sectorSize, data)
  }

  lemma {:induction false} BlockStartAdd(a: nat, b: nat, size: nat)
    ensures BlockStart(a + b, size) == BlockStart(a, size) + BlockStart(b, size)
  {
    if b > 0 { BlockStartAdd(a, b - 1, size); }
  }

  /** Short sectors tile the sectors: q sectors of `per` short ones each. */
  lemma {:induction false} BlockStartMany(q: nat, per: nat, short: nat)
    ensures BlockStart(q, BlockStart(per, short)) == BlockStart(q * per, short)
  {
    if q > 0 {
      BlockStartMany(q - 1, per, short);
      assert q * per == (q - 1) * per + per;
      BlockStartAdd((q - 1) * per, per, short);
    }
  }

  lemma ShortFits(r: nat, per: nat, short: nat)
    requires r < per
    ensures BlockStart(r, short) + short <= BlockStart(per, short)
  {
    BlockStartMonotone(r + 1, per, short);
  }

  lemma ShortSplit(block: nat, sector: nat, short: nat)
    requires 0 < short <= sector && sector % short == 0
    ensures sector / short > 0 && sector == sector / short * short
    ensures var per := sector / short; block % per < per && block == block / per * per + block % per
  {
    assert sector == sector / short * short;
  }

  /** Where a short block lies, by its sector and its place in it. */
  lemma ShortOffset(o: Layout, block: nat) returns (q: nat, from: nat)
    requires 0 < o.shortSectorSize <= o.sectorSize && o.sectorSize % o.shortSectorSize == 0
             && BlockMapped(o, false, block)
    ensures q < |o.rootBlocks| && from + o.shortSectorSize <= o.sectorSize
    ensures FileBlockOffset(o, false, block) == FileBlockOffset(o, true, o.rootBlocks[q]) + from
    ensures BlockStart(q, o.sectorSize) + from == BlockStart(block, o.shortSectorSize)
  {
    var short, per := o.shortSectorSize, o.sectorSize / o.shortSectorSize;
    ShortSplit(block, o.sectorSize, short);
    q, from := block / per, block % per * short;
    BlockStartMany(q, per, short);
    BlockStartAdd(q * per, block % per, short);
    ShortFits(block % per, per, short);
    BlockStartIsProduct(per, short);
    BlockStartIsProduct(block % per, short);
  }

  /** The file bytes at a short block's offset are that block of the mini stream. */
  lemma ShortBlockInMiniStream(o: Layout, data: seq<Byte>, block: nat)
    requires Complete(o, true, o.rootBlocks, data) && 0 < o.shortSectorSize <= o.sectorSize
    requires o.sectorSize % o.shortSectorSize == 0 && BlockMapped(o, false, block)
    ensures var place, at := FileBlockOffset(o, false, block), BlockStart(block, o.shortSectorSize);
      && place + o.shortSectorSize <= |data| && at + o.shortSectorSize <= |MiniStream(o, data)|
      && data[place..place + o.shortSectorSize] == MiniStream(o, data)[at..at + o.shortSectorSize]
  {
    var q, from := ShortOffset(o, block);
    BlockStartMonotone(q + 1, |o.rootBlocks|, o.sectorSize);
    var room := BlockStart(|o.rootBlocks|, o.sectorSize);
    OffsetAt(o, true, o.rootBlocks, q);
    PieceOfContent(o, true, o.rootBlocks, data, room, q, from, o.shortSectorSize);
    assert MiniStream(o, data)[..room] == MiniStream(o, data);
  }

  /** The places of short blocks in the mini stream. */
  function MiniPlaces(short: nat, blocks: seq<nat>): (s: seq<nat>)
    ensures |s| == |blocks|
  {
    seq(|blocks|, i requires 0 <= i < |blocks| => BlockStart(blocks[i], short))
  }

  /** The content of a short entry is that of its blocks in the mini stream. */
  lemma {:induction false} ShortContent(o: Layout, data: seq<Byte>, blocks: seq<nat>)
    requires Complete(o, true, o.rootBlocks, data) && 0 < o.shortSectorSize <= o.sectorSize
    requires o.sectorSize % o.shortSectorSize == 0 && Complete(o, false, blocks, data)
    ensures InFile(MiniPlaces(o.shortSectorSize, blocks), o.shortSectorSize, MiniStream(o, data))
    ensures Sectors(Offsets(o, false, blocks), o.shortSectorSize, data) ==
            Sectors(MiniPlaces(o.shortSectorSize, blocks), o.shortSectorSize, MiniStream(o, data))
  {
    var short, mini, offsets := o.shortSectorSize, MiniStream(o, data), Offsets(o, false, blocks);
    var places := MiniPlaces(short, blocks);
    forall i | 0 <= i < |places|
      ensures places[i] + short <= |mini| && data[offsets[i]..offsets[i] + short] == mini[places[i]..places[i] + short]
    {
      ShortBlockInMiniStream(o, data, blocks[i]);
      OffsetAt(o, false, blocks, i);
    }
    SameSectors(offsets, data, places, mini, short, |blocks|);
    assert offsets[..|blocks|] == offsets && places[..|blocks|] == places;
  }

  /** Equal pieces join to equal strings. */
  lemma {:induction false} SameSectors(xs: seq<nat>, data: seq<Byte>, ys: seq<nat>, other: seq<Byte>, size: nat, k: nat)
    requires |xs| == |ys| && InFile(xs, size, data) && InFile(ys, size, other) && k <= |xs|
    requires forall i :: 0 <= i < |xs| ==> data[xs[i]..xs[i] + size] == other[ys[i]..ys[i] + size]
    ensures Sectors(xs[..k], size, data) == Sectors(ys[..k], size, other)
  {
    if k > 0 {
      SameSectors(xs, data, ys, other, size, k - 1);
      assert xs[..k][..k - 1] == xs[..k - 1] && ys[..k][..k - 1] == ys[..k - 1];
    }
  }

  /** Sectors lie one after the other behind the header's 512 bytes, and short sectors one after the
      other inside a sector. */
  lemma SectorsInARow(o: Layout, block: nat)
    ensures FileBlockOffset(o, true, 0) == 512
    ensures FileBlockOffset(o, true, block + 1) == FileBlockOffset(o, true, block) + o.sectorSize
  {
    assert (block + 1) * o.sectorSize == block * o.sectorSize + o.sectorSize;
  }

  /** A sector lies where [MS-CFB] section 2.2 puts it exactly for 512-byte sectors. */
  lemma SectorPlaceIff(o: Layout, block: nat)
    ensures FileBlockOffset(o, true, block) == (block + 1) * o.sectorSize <==> o.sectorSize == 512
  {
    assert (block + 1) * o.sectorSize == block * o.sectorSize + o.sectorSize;
  }

  lemma BlockInRange(b: nat, size: nat, length: nat, n: nat)
    requires BlockStart(b, size) < length <= BlockStart(n, size)
    ensures b < n
  {
    if b >= n { BlockStartMonotone(n, b, size); }
  }

  lemma AtEnd(at: nat, length: nat, n: nat, size: nat)
    requires at <= length <= BlockStart(n, size) && size > 0 && at / size >= n
    ensures at == length
  {
    Split(at, size);
    BlockStartMonotone(n, at / size, size);
  }

  /** Whole blocks and odd bytes that ole_read needs after the first block. */
  method AfterFirst(llen: nat, bytesInBlock: nat, ssize: nat) returns (toReadBlocks: nat, toReadBytes: nat)
    requires ssize > 0
    ensures Min(llen, bytesInBlock) + BlockStart(toReadBlocks, ssize) + toReadBytes == llen && toReadBytes < ssize
  {
    toReadBlocks, toReadBytes := 0, 0;
    if bytesInBlock < llen {
      toReadBlocks := (llen - bytesInBlock) / ssize;
      toReadBytes := (llen - bytesInBlock) % ssize;
      Split(llen - bytesInBlock, ssize);
    }
  }

  /** `at` is where `wanted` is, or the end of the content nearer to it. */
  predicate Clamped(at: nat, wanted: int, length: nat) {
    && (0 <= wanted <= length ==> at == wanted)
    && (wanted < 0 ==> at == 0)
    && (wanted > length ==> at == length)
  }

  class OleEntry {
    const file: FileHandle
    const layout: Layout
    const blocks: seq<nat>
    const isBigBlock: bool
    const length: nat
    var oleOffset: nat
    var fileOffset: nat

    /** ole_open on an entry read from the directory. */
    constructor (f: FileHandle, o: Layout, chain: seq<nat>, isBig: bool, len: nat)
      requires Mapped(o, isBig, chain) && len <= BlockStart(|chain|, BlockSize(o, isBig))
      ensures Valid() && file == f && layout == o && blocks == chain && isBigBlock == isBig && length == len
      ensures oleOffset == 0
    {
      file, layout, blocks, isBigBlock, length := f, o, chain, isBig, len;
      oleOffset, fileOffset := 0, f.pos;
    }

    ghost predicate Sound() {
      Mapped(layout, isBigBlock, blocks) && length <= BlockStart(|blocks|, BlockSize(layout, isBigBlock))
    }

    /** The cached file position is the real one and the cursor is inside the entry. */
    ghost predicate Valid()
      reads this, file
    {
      Sound() && oleOffset <= length && fileOffset == file.pos
    }

    /** The file is not cut short: every block of the chain is there. */
    ghost predicate Intact() { Complete(layout, isBigBlock, blocks, file.data) }

    ghost function Bytes(): (s: seq<Byte>)
      requires Sound() && Intact()
      ensures |s| == length
    {
      Content(layout, isBigBlock, blocks, file.data, length)
    }

    ghost function Places(): (s: seq<nat>)
      requires Sound()
      ensures |s| == |blocks|
    {
      Offsets(layout, isBigBlock, blocks)
    }

    /** fseek to the place about to be read, unless the cached position is there. */
    method GoTo(offset: nat)
      requires fileOffset == file.pos
      modifies this`fileOffset, file
      ensures fileOffset == file.pos == offset
    {
      if fileOffset != offset {
        fileOffset := offset;
        file.Seek(offset);
      }
    }

    /** One fread inside block blk, from its byte `from` on. */
    method ReadPiece(buf: array<Byte>, at: nat, blk: nat, from: nat, n: nat) returns (r: nat)
      requires Sound() && fileOffset == file.pos && blk < |blocks| && at + n <= buf.Length
      modifies this`fileOffset, file, buf
      ensures fileOffset == file.pos
      ensures var piece := Piece(file.data, Places()[blk] + from, n);
        r == |piece| && buf[..] == Write(old(buf[..]), at, piece)
    {
      OffsetAt(layout, isBigBlock, blocks, blk);
      var place := FileBlockOffset(layout, isBigBlock, blocks[blk]) + from;
      GoTo(place);
      ghost var before := buf[..];
      r := file.Read(buf, at, n);
      fileOffset := fileOffset + r;
      assert before[..at] == old(buf[..at]) && before[at + r..] == old(buf[at + r..]);
    }

    /** ole_read: fills the buffer with what the blocks deliver and moves past it. */
    method Read(buf: array<Byte>, size: nat, nmemb: nat) returns (rread: nat)
      requires Valid() && size * nmemb <= buf.Length
      modifies this`oleOffset, this`fileOffset, file, buf
      ensures Valid() && oleOffset == old(oleOffset) + rread
      ensures Filled(buf[..], old(buf[..]), ReadAt(old(oleOffset), size * nmemb))
      ensures rread == |ReadAt(old(oleOffset), size * nmemb)|
    {
      rread := ReadTotal(buf, size * nmemb);
      oleOffset := oleOffset + rread;
    }

    /** ole_read for a number of bytes, up to the move of the cursor. */
    method ReadTotal(buf: array<Byte>, total: nat) returns (rread: nat)
      requires Valid() && total <= buf.Length
      modifies this`fileOffset, file, buf
      ensures fileOffset == file.pos
      ensures Filled(buf[..], old(buf[..]), ReadAt(oleOffset, total)) && rread == |ReadAt(oleOffset, total)|
    {
      var llen: int := total;
      if oleOffset + llen > length { llen := length - oleOffset; }
      var ssize := BlockSize(layout, isBigBlock);
      var blockNumber, modBlock := oleOffset / ssize, oleOffset % ssize;
      PartsInRange(oleOffset, total, ssize, blockNumber, modBlock);
      rread := ReadSome(buf, llen, blockNumber, modBlock, ssize);
      ReadAtParts(oleOffset, total, ssize, blockNumber, modBlock);
    }

    /** ole_read once it knows the block and the number of bytes. */
    method ReadSome(buf: array<Byte>, llen: nat, blockNumber: nat, modBlock: nat, ssize: nat) returns (rread: nat)
      requires Valid() && ssize == BlockSize(layout, isBigBlock) && modBlock < ssize && llen <= buf.Length
      requires blockNumber >= |blocks| ==> llen == 0
      requires llen > 0 ==> BlockStart(blockNumber, ssize) + modBlock + llen <= length
      modifies this`fileOffset, file, buf
      ensures fileOffset == file.pos
      ensures var s := Delivered(Places(), ssize, file.data, blockNumber, modBlock, llen);
        Filled(buf[..], old(buf[..]), s) && rread == |s|
    {
      if blockNumber >= |blocks| || llen <= 0 {
        FillNone(buf[..]);
        return 0;
      }
      rread := ReadFrom(buf, llen, blockNumber, modBlock, ssize);
    }

    /** What a read of n bytes at a position delivers. */
    ghost function ReadAt(at: nat, n: nat): (s: seq<Byte>)
      requires Sound() && at <= length
      ensures |s| <= n && at + |s| <= length
    {
      var m, size := Min(n, length - at), BlockSize(layout, isBigBlock);
      Split(at, size);
      Delivered(Places(), size, file.data, at / size, at % size, m)
    }

    lemma PartsInRange(at: nat, n: nat, size: nat, b: nat, m: nat)
      requires Sound() && at <= length && size == BlockSize(layout, isBigBlock) && b == at / size && m == at % size
      ensures m < size && at == BlockStart(b, size) + m && (b >= |blocks| ==> at == length)
    {
      Split(at, size);
      if b >= |blocks| { AtEnd(at, length, |blocks|, size); }
    }

    /** ReadAt by block number and offset in the block. */
    lemma ReadAtParts(at: nat, n: nat, size: nat, b: nat, m: nat)
      requires Sound() && at <= length && size == BlockSize(layout, isBigBlock) && b == at / size && m == at % size
      requires m < size && at == BlockStart(b, size) + m
      ensures ReadAt(at, n) == Delivered(Places(), size, file.data, b, m, Min(n, length - at))
    {
    }

    /** From a complete file these are the next bytes of the content, as many as are asked for and
        left. */
    lemma ReadAtIsNext(at: nat, n: nat)
      requires Sound() && Intact() && at <= length
      ensures ReadAt(at, n) == NextBytes(Bytes(), at, n)
    {
      var m, size := Min(n, length - at), BlockSize(layout, isBigBlock);
      Split(at, size);
      var all := Sectors(Places(), size, file.data);
      SectorsTiled(Places(), size, file.data);
      DeliveredIsContent(Places(), size, file.data, all, at / size, at % size, m, at);
      SliceOfSlice(all, 0, length, at, at + m);
    }

    /** The body of ole_read, once it is known that something is to be read. */
    method ReadFrom(buf: array<Byte>, llen: nat, blockNumber0: nat, modBlock: nat, ssize: nat) returns (rread: nat)
      requires Valid() && ssize == BlockSize(layout, isBigBlock) && modBlock < ssize && blockNumber0 < |blocks|
      requires 0 < llen <= buf.Length && BlockStart(blockNumber0, ssize) + modBlock + llen <= length
      modifies this`fileOffset, file, buf
      ensures fileOffset == file.pos
      ensures var s := Delivered(Places(), ssize, file.data, blockNumber0, modBlock, llen);
        Filled(buf[..], old(buf[..]), s) && rread == |s|
    {
      var bytesInBlock := ssize - modBlock;
      var toReadBlocks, toReadBytes := AfterFirst(llen, bytesInBlock, ssize);
      ghost var rest := buf[..];
      ghost var got := Piece(file.data, Places()[blockNumber0] + modBlock, Min(llen, bytesInBlock));
      rread := ReadPiece(buf, 0, blockNumber0, modBlock, Min(llen, bytesInBlock));
      FillFirst(rest, got);
      ghost var all := Delivered(Places(), ssize, file.data, blockNumber0, modBlock, llen);
      rread := ReadRest(buf, llen, rread, blockNumber0, toReadBlocks, toReadBytes, ssize, rest, got, all);
    }

    /** What ole_read does after the first block: whole blocks, and the odd bytes of one more. */
    method ReadRest(buf: array<Byte>, llen: nat, rread0: nat, blockNumber0: nat, toReadBlocks: nat, toReadBytes: nat,
                    ssize: nat, ghost rest: seq<Byte>, ghost got: seq<Byte>, ghost all: seq<Byte>) returns (rread: nat)
      requires Sound() && fileOffset == file.pos && llen <= buf.Length
      requires ssize == BlockSize(layout, isBigBlock) && toReadBytes < ssize
      requires rread0 + BlockStart(toReadBlocks, ssize) + toReadBytes <= llen
      requires InChain(blockNumber0 + 1, BlockStart(toReadBlocks, ssize) + toReadBytes, ssize)
      requires Filled(buf[..], rest, got) && rread0 == |got|
      requires Left(all, got, blockNumber0 + 1, BlockStart(toReadBlocks, ssize) + toReadBytes)
      modifies this`fileOffset, file, buf
      ensures fileOffset == file.pos && Filled(buf[..], rest, all) && rread == |all|
    {
      var blockNumber;
      ghost var now;
      rread, blockNumber, now := ReadBlocks(buf, llen, rread0, blockNumber0, toReadBlocks, toReadBytes, ssize, rest,
                                            got, all);
      if toReadBytes > 0 {
        var readbytes;
        readbytes, now := ReadBlock(buf, rread, blockNumber + 1, toReadBytes, ssize, rest, now, 0, all);
        rread := rread + readbytes;
      }
      assert now == all;
    }

    /** The loop of ole_read over the whole blocks. */
    method ReadBlocks(buf: array<Byte>, llen: nat, rread0: nat, blockNumber0: nat, toReadBlocks: nat, toReadBytes: nat,
                      ssize: nat, ghost rest: seq<Byte>, ghost got: seq<Byte>, ghost all: seq<Byte>)
      returns (rread: nat, blockNumber: nat, ghost now: seq<Byte>)
      requires Sound() && fileOffset == file.pos && llen <= buf.Length
      requires ssize == BlockSize(layout, isBigBlock) && toReadBytes < ssize
      requires rread0 + BlockStart(toReadBlocks, ssize) + toReadBytes <= llen
      requires InChain(blockNumber0 + 1, BlockStart(toReadBlocks, ssize) + toReadBytes, ssize)
      requires Filled(buf[..], rest, got) && rread0 == |got|
      requires Left(all, got, blockNumber0 + 1, BlockStart(toReadBlocks, ssize) + toReadBytes)
      modifies this`fileOffset, file, buf
      ensures fileOffset == file.pos && rread == |now| && rread + toReadBytes <= llen
      ensures InChain(blockNumber + 1, toReadBytes, ssize) && Filled(buf[..], rest, now)
      ensures Left(all, now, blockNumber + 1, toReadBytes)
    {
      blockNumber, rread, now := blockNumber0, rread0, got;
      ghost var left := BlockStart(toReadBlocks, ssize) + toReadBytes;
      var i := 0;
      while i < toReadBlocks
        invariant 0 <= i <= toReadBlocks && fileOffset == file.pos && rread == |now|
        invariant left == BlockStart(toReadBlocks - i, ssize) + toReadBytes && rread + left <= llen
        invariant InChain(blockNumber + 1, left, ssize)
        invariant Filled(buf[..], rest, now)
        invariant Left(all, now, blockNumber + 1, left)
      {
        ghost var left' := BlockStart(toReadBlocks - (i + 1), ssize) + toReadBytes;
        assert left == ssize + left';
        blockNumber := blockNumber + 1;
        var n, readbytes := Min(llen - rread, ssize), 0;
        assert n == ssize && n + left' == left;
        readbytes, now := ReadBlock(buf, rread, blockNumber, n, ssize, rest, now, left', all);
        rread, left := rread + readbytes, left';
        i := i + 1;
      }
    }

    /** `now` and what n more bytes from block blk on deliver make up `all`. */
    ghost predicate Left(all: seq<Byte>, now: seq<Byte>, blk: nat, n: nat)
      requires Sound() && InChain(blk, n, BlockSize(layout, isBigBlock))
    {
      all == now + Delivered(Places(), BlockSize(layout, isBigBlock), file.data, blk, 0, n)
    }

    /** n bytes from the start of block blk on lie in the chain. */
    ghost predicate InChain(blk: nat, n: nat, ssize: nat) {
      n > 0 ==> BlockStart(blk, ssize) + n <= BlockStart(|blocks|, ssize)
    }

    /** One block of ole_read after the first, with `more` bytes still to come behind it. */
    method ReadBlock(buf: array<Byte>, rread: nat, blockNumber: nat, n: nat, ssize: nat, ghost rest: seq<Byte>,
                     ghost got: seq<Byte>, ghost more: nat, ghost all: seq<Byte>)
      returns (readbytes: nat, ghost now: seq<Byte>)
      requires Sound() && fileOffset == file.pos && rread + n <= buf.Length && rread == |got|
      requires ssize == BlockSize(layout, isBigBlock) && 0 < n <= ssize && (more > 0 ==> n == ssize)
      requires InChain(blockNumber, n + more, ssize) && Filled(buf[..], rest, got)
               && Left(all, got, blockNumber, n + more)
      modifies this`fileOffset, file, buf
      ensures fileOffset == file.pos && InChain(blockNumber + 1, more, ssize)
      ensures Filled(buf[..], rest, now) && |now| == rread + readbytes && readbytes <= n
      ensures Left(all, now, blockNumber + 1, more)
    {
      BlockInRange(blockNumber, ssize, BlockStart(blockNumber, ssize) + n + more, |blocks|);
      ghost var piece := Piece(file.data, Places()[blockNumber], n);
      readbytes := ReadPiece(buf, rread, blockNumber, 0, n);
      now := got + piece;
      FillStep(rest, got, piece);
      Assoc(got, piece, Delivered(Places(), ssize, file.data, blockNumber + 1, 0, more));
    }

    /** ole_seek: moves the cursor to the clamped target, or fails and changes nothing when that
        target is not inside a block: always so at the end of a chain whose last block is full. */
    method Seek(offset: int, whence: Whence) returns (r: int)
      requires Valid()
      modifies this`oleOffset, this`fileOffset, file
      ensures Valid() && (r == 0 || r == -1)
      ensures r == 0 <==> SeekWorks(length, Room(), old(oleOffset), offset, whence)
      ensures oleOffset == if r == 0 then SeekTarget(old(oleOffset), length, offset, whence) else old(oleOffset)
      ensures r == -1 ==> file.pos == old(file.pos)
      ensures r == 0 && oleOffset < length && Intact() ==>
                file.pos < |file.data| && file.data[file.pos] == Bytes()[oleOffset]
      ensures r == 0 && whence == SeekSet ==> Clamped(oleOffset, offset, length)
      ensures r == 0 && whence == SeekCur ==> Clamped(oleOffset, old(oleOffset) + offset, length)
      ensures r == 0 && whence == SeekEnd ==> Clamped(oleOffset, length + offset, length)
      ensures whence == SeekSet && 0 <= offset < length ==> r == 0
      ensures whence == SeekCur && 0 <= old(oleOffset) + offset < length ==> r == 0
      ensures whence == SeekEnd && 0 <= length + offset < length ==> r == 0
      ensures whence == Unsupported ==> r == -1
    {
      var target: int;
      match whence {
        case SeekSet => target := offset;
        case SeekCur => target := oleOffset + offset;
        case SeekEnd => target := length + offset;
        case Unsupported => return -1;
      }
      if target < 0 { target := 0; }
      if target >= length { target := length; }
      var ssize := BlockSize(layout, isBigBlock);
      var blockNumber := target / ssize;
      BlockOf(target, ssize, |blocks|);
      if blockNumber >= |blocks| { return -1; }
      MoveTo(blockNumber, target % ssize, target);
      oleOffset := target;
      r := 0;
    }

    /** The unconditional fseek of ole_seek. */
    method MoveTo(blockNumber: nat, modBlock: nat, ghost k: nat)
      requires Sound() && blockNumber < |blocks| && modBlock < BlockSize(layout, isBigBlock)
      requires k == BlockStart(blockNumber, BlockSize(layout, isBigBlock)) + modBlock
      modifies this`fileOffset, file
      ensures fileOffset == file.pos
      ensures k < length && Intact() ==> file.pos < |file.data| && file.data[file.pos] == Bytes()[k]
    {
      if k < length && Intact() {
        OffsetAt(layout, isBigBlock, blocks, blockNumber);
        ByteOfContent(layout, isBigBlock, blocks, file.data, length, blockNumber, modBlock);
      }
      fileOffset := FileBlockOffset(layout, isBigBlock, blocks[blockNumber]) + modBlock;
      file.Seek(fileOffset);
    }

    method Tell() returns (r: int)
      requires Valid()
      ensures r == oleOffset
    {
      r := oleOffset;
    }

    /** ole_eof holds exactly when the cursor is at the end of the entry, and then, or on a complete
        file only then, every further read returns nothing. */
    method Eof() returns (r: bool)
      requires Valid()
      ensures r <==> oleOffset == length
      ensures r ==> forall n: nat :: ReadAt(oleOffset, n) == []
      ensures Intact() && !r ==> ReadAt(oleOffset, 1) != []
    {
      r := oleOffset >= length;
      if Intact() { ReadAtIsNext(oleOffset, 1); }
    }

    ghost function Room(): nat { BlockStart(|blocks|, BlockSize(layout, isBigBlock)) }

    ghost function After(at: nat, op: CursorOp): (r: nat)
      requires Sound() && at <= length
      ensures r <= length
    {
      match op
      case DoRead(size, nmemb) => at + |ReadAt(at, size * nmemb)|
      case DoSeek(offset, whence) =>
        if SeekWorks(length, Room(), at, offset, whence) then SeekTarget(at, length, offset, whence) else at
      case _ => at
    }

    ghost function AnswerTo(at: nat, op: CursorOp): Answer
      requires Sound() && at <= length
    {
      match op
      case DoRead(size, nmemb) => Data(ReadAt(at, size * nmemb))
      case DoSeek(offset, whence) => Code(if SeekWorks(length, Room(), at, offset, whence) then 0 else -1)
      case DoTell => Code(at)
      case DoEof => AtEof(at == length)
    }

    /** The answers to a row of calls depend on the position alone. */
    ghost function Run(at: nat, ops: seq<CursorOp>): seq<Answer>
      requires Sound() && at <= length
      decreases |ops|
    {
      if ops == [] then [] else [AnswerTo(at, ops[0])] + Run(After(at, ops[0]), ops[1..])
    }

    /** On a complete file they are those of a plain cursor over the content. */
    lemma {:induction false} RunIsCursor(at: nat, ops: seq<CursorOp>)
      requires Sound() && Intact() && at <= length
      ensures Run(at, ops) == CursorRun(Bytes(), Room(), at, ops)
      decreases |ops|
    {
      if ops != [] {
        if ops[0].DoRead? { ReadAtIsNext(at, ops[0].size * ops[0].nmemb); }
        RunIsCursor(After(at, ops[0]), ops[1..]);
      }
    }

    /** One call on the open entry. */
    method Call(op: CursorOp) returns (a: Answer)
      requires Valid()
      modifies this`oleOffset, this`fileOffset, file
      ensures Valid() && a == AnswerTo(old(oleOffset), op) && oleOffset == After(old(oleOffset), op)
    {
      match op {
        case DoRead(size, nmemb) =>
          var buf := new Byte[size * nmemb](_ => 0);
          var n := Read(buf, size, nmemb);
          a := Data(buf[..n]);
        case DoSeek(offset, whence) =>
          var r := Seek(offset, whence);
          a := Code(r);
        case DoTell =>
          var r := Tell();
          a := Code(r);
        case DoEof =>
          var r := Eof();
          a := AtEof(r);
      }
    }

    /** Any interleaving of calls: what was read or sought before shows only in the position. On a
        complete file the entry is a plain cursor over its content; where the blocks lie, and where
        the file was left, never shows. */
    method Session(ops: seq<CursorOp>) returns (answers: seq<Answer>)
      requires Valid()
      modifies this`oleOffset, this`fileOffset, file
      ensures Valid() && answers == Run(old(oleOffset), ops)
      ensures Intact() ==> answers == CursorRun(Bytes(), Room(), old(oleOffset), ops)
    {
      answers := [];
      ghost var start := oleOffset;
      var i := 0;
      while i < |ops|
        invariant 0 <= i <= |ops| && Valid()
        invariant answers + Run(oleOffset, ops[i..]) == Run(start, ops)
      {
        assert ops[i..][0] == ops[i] && ops[i..][1..] == ops[i + 1..];
        var a := Call(ops[i]);
        answers := answers + [a];
        i := i + 1;
      }
      if Intact() { RunIsCursor(start, ops); }
    }
  }

  datatype CursorOp = DoRead(size: nat, nmemb: nat) | DoSeek(offset: int, whence: Whence) | DoTell | DoEof

  datatype Answer = Data(bytes: seq<Byte>) | Code(code: int) | AtEof(eof: bool)

  /** A plain cursor over a byte string that lies in `room` bytes of blocks. */
  function CursorAfter(s: seq<Byte>, room: nat, at: nat, op: CursorOp): (r: nat)
    requires at <= |s|
    ensures r <= |s|
  {
    match op
    case DoRead(size, nmemb) => at + |NextBytes(s, at, size * nmemb)|
    case DoSeek(offset, whence) =>
      if SeekWorks(|s|, room, at, offset, whence) then SeekTarget(at, |s|, offset, whence) else at
    case _ => at
  }

  function CursorAnswer(s: seq<Byte>, room: nat, at: nat, op: CursorOp): Answer
    requires at <= |s|
  {
    match op
    case DoRead(size, nmemb) => Data(NextBytes(s, at, size * nmemb))
    case DoSeek(offset, whence) => Code(if SeekWorks(|s|, room, at, offset, whence) then 0 else -1)
    case DoTell => Code(at)
    case DoEof => AtEof(at == |s|)
  }

  predicate SeekWorks(length: nat, room: nat, at: nat, offset: int, whence: Whence) {
    whence != Unsupported && SeekTarget(at, length, offset, whence) < room
  }

  function CursorRun(s: seq<Byte>, room: nat, at: nat, ops: seq<CursorOp>): (answers: seq<Answer>)
    requires at <= |s|
    decreases |ops|
  {
    if ops == [] then []
    else [CursorAnswer(s, room, at, ops[0])] + CursorRun(s, room, CursorAfter(s, room, at, ops[0]), ops[1..])
  }

  /** A seek to a place inside the content goes there, counted from the front, from the cursor or
      from the end; a tell says so, and a read delivers what is there. */
  lemma SeekThenTellThenRead(s: seq<Byte>, room: nat, at: nat, k: nat, n: nat)
    requires at <= |s| <= room && k < |s|
    ensures var rest := [Code(0), Code(k), Data(s[k..k + Min(n, |s| - k)])];
      && CursorRun(s, room, at, [DoSeek(k, SeekSet), DoTell, DoRead(1, n)]) == rest
      && CursorRun(s, room, at, [DoSeek(k - at, SeekCur), DoTell, DoRead(1, n)]) == rest
      && CursorRun(s, room, at, [DoSeek(k - |s|, SeekEnd), DoTell, DoRead(1, n)]) == rest
  {
    ThreeCalls(s, room, at, DoSeek(k, SeekSet), DoTell, DoRead(1, n));
    ThreeCalls(s, room, at, DoSeek(k - at, SeekCur), DoTell, DoRead(1, n));
    ThreeCalls(s, room, at, DoSeek(k - |s|, SeekEnd), DoTell, DoRead(1, n));
  }

  lemma ThreeCalls(s: seq<Byte>, room: nat, at: nat, a: CursorOp, b: CursorOp, c: CursorOp)
    requires at <= |s|
    ensures var at1 := CursorAfter(s, room, at, a);
      var at2 := CursorAfter(s, room, at1, b);
      CursorRun(s, room, at, [a, b, c]) ==
        [CursorAnswer(s, room, at, a), CursorAnswer(s, room, at1, b), CursorAnswer(s, room, at2, c)]
  {
    var at1 := CursorAfter(s, room, at, a);
    var at2 := CursorAfter(s, room, at1, b);
    assert [a, b, c][1..] == [b, c] && [b, c][1..] == [c] && [c][1..] == [];
    assert CursorRun(s, room, at2, [c]) == [CursorAnswer(s, room, at2, c)];
    assert CursorRun(s, room, at1, [b, c]) == [CursorAnswer(s, room, at1, b)] + CursorRun(s, room, at2, [c]);
  }

  /** A seek before the content goes to its front, one behind it to its end, and fails there exactly
      when the content fills its blocks; a failed seek leaves the cursor where it was. */
  lemma SeekOutside(s: seq<Byte>, room: nat, at: nat, over: nat)
    requires at <= |s| <= room && 0 < |s|
    ensures CursorRun(s, room, at, [DoSeek(-1 - over, SeekSet), DoTell]) == [Code(0), Code(0)]
    ensures CursorRun(s, room, at, [DoSeek(over, SeekEnd), DoTell]) ==
            if |s| < room then [Code(0), Code(|s|)] else [Code(-1), Code(at)]
    ensures CursorRun(s, room, at, [DoSeek(over, Unsupported), DoTell]) == [Code(-1), Code(at)]
  {
    forall op | op in {DoSeek(-1 - over, SeekSet), DoSeek(over, SeekEnd), DoSeek(over, Unsupported)}
      ensures CursorRun(s, room, at, [op, DoTell]) ==
              [CursorAnswer(s, room, at, op), Code(CursorAfter(s, room, at, op))]
    {
      assert [op, DoTell][1..] == [DoTell] && [DoTell][1..] == [];
    }
  }

  /** Where a seek wants to go, kept inside the content. */
  function SeekTarget(at: nat, length: nat, offset: int, whence: Whence): (r: nat)
    ensures r <= length
  {
    var target :=
      match whence
      case SeekSet => offset
      case SeekCur => at + offset
      case SeekEnd => length + offset
      case Unsupported => at;
    if target < 0 then 0 else Min(target, length)
  }

  lemma BlockOf(k: nat, size: nat, n: nat)
    requires size > 0
    ensures k / size >= 0 && 0 <= k % size < size && k == BlockStart(k / size, size) + k % size
    ensures k / size < n <==> k < BlockStart(n, size)
  {
    Split(k, size);
    if k / size < n { BlockStartMonotone(k / size + 1, n, size); } else { BlockStartMonotone(n, k / size, size); }
  }

  /** A seek inside the content fails exactly at the content's end, and only when the end of the
      content is the end of the chain. */
  lemma SeekFailsOnlyAtFullEnd(length: nat, room: nat, at: nat, offset: int, whence: Whence)
    requires length <= room && at <= length
    ensures !SeekWorks(length, room, at, offset, whence) <==>
            whence == Unsupported || (length == room && SeekTarget(at, length, offset, whence) == length)
  {
  }

  function Sum(sizes: seq<nat>): nat {
    if sizes == [] then 0 else sizes[0] + Sum(sizes[1..])
  }

  /** The bytes delivered by reads of these sizes, one after the other, from position `at`. */
  function ReadAll(s: seq<Byte>, at: nat, sizes: seq<nat>): seq<Byte>
    requires at <= |s|
    decreases |sizes|
  {
    if sizes == [] then []
    else
      var got := NextBytes(s, at, sizes[0]);
      got + ReadAll(s, at + |got|, sizes[1..])
  }

  /** However a read is cut into pieces, the pieces join to the one read. */
  lemma {:induction false} ReadsConcatenate(s: seq<Byte>, at: nat, sizes: seq<nat>)
    requires at <= |s|
    ensures ReadAll(s, at, sizes) == NextBytes(s, at, Sum(sizes))
    decreases |sizes|
  {
    if sizes != [] {
      var got := NextBytes(s, at, sizes[0]);
      ReadsConcatenate(s, at + |got|, sizes[1..]);
      assert ReadAll(s, at, sizes) == got + ReadAll(s, at + |got|, sizes[1..]);
      TwoReads(s, at, sizes[0], Sum(sizes[1..]));
    }
  }

  lemma TwoReads(s: seq<Byte>, at: nat, n: nat, k: nat)
    requires at <= |s|
    ensures var got := NextBytes(s, at, n); got + NextBytes(s, at + |got|, k) == NextBytes(s, at, n + k)
  {
  }
}
