/** Assembly of the sector tables in ole_init: the DIFAT by overlapping reads, then the FAT. */
module OleTables {
  import opened Basics
  import opened OleFiles
  import opened OleStreams

  const MSAT_ORIG_SIZE: nat := 436

  predicate SectorInFile(data: seq<Byte>, size: nat, b: nat) { 512 + b * size + size <= |data| }

  function SectorBytes(data: seq<Byte>, size: nat, b: nat): (s: seq<Byte>)
    requires SectorInFile(data, size, b)
    ensures |s| == size
  {
    data[512 + b * size..512 + b * size + size]
  }

  /** The first n DIFAT sectors are all in the file; each one's last four bytes name the next. */
  predicate DifatInFile(data: seq<Byte>, size: nat, first: nat, n: nat)
    requires size >= 4
    decreases n, 0
  {
    n == 0 || (DifatInFile(data, size, first, n - 1) && SectorInFile(data, size, DifatSector(data, size, first, n - 1)))
  }

  function DifatSector(data: seq<Byte>, size: nat, first: nat, j: nat): nat
    requires size >= 4 && DifatInFile(data, size, first, j)
    decreases j, 1
  {
    if j == 0 then first
    else GetLong(SectorBytes(data, size, DifatSector(data, size, first, j - 1)), size - 4)
  }

  /** The entries of the first n DIFAT sectors, without the closing links. */
  function DifatEntries(data: seq<Byte>, size: nat, first: nat, n: nat): (s: seq<Byte>)
    requires size >= 4 && DifatInFile(data, size, first, n)
    ensures |s| == BlockStart(n, size - 4)
  {
    if n == 0 then []
    else
      DifatEntries(data, size, first, n - 1)
      + SectorBytes(data, size, DifatSector(data, size, first, n - 1))[..size - 4]
  }

  /** Where sector b begins in the file. */
  function SectorPlace(b: nat, size: nat): nat { 512 + b * size }

  /** The last four bytes of DIFAT sector d[i], in the file, are the number of the next. */
  predicate NextDifat(data: seq<Byte>, size: nat, d: seq<nat>, i: nat)
    requires size >= 4
  {
    && i + 1 < |d| && SectorPlace(d[i], size) + size <= |data|
    && GetLong(data, SectorPlace(d[i], size) + (size - 4)) == d[i + 1]
  }

  /** d lists DIFAT sectors from the first one on. */
  ghost predicate DifatChain(data: seq<Byte>, size: nat, first: nat, d: seq<nat>)
    requires size >= 4
  {
    && d != [] && d[0] == first && (forall i :: 0 <= i < |d| ==> SectorPlace(d[i], size) + size <= |data|)
    && (forall i {:trigger NextDifat(data, size, d, i)} :: 0 <= i < |d| - 1 ==> NextDifat(data, size, d, i))
  }

  lemma SectorIs(data: seq<Byte>, size: nat, b: nat)
    requires SectorPlace(b, size) + size <= |data| && size >= 4
    ensures SectorInFile(data, size, b)
    ensures SectorBytes(data, size, b) == data[SectorPlace(b, size)..SectorPlace(b, size) + size]
    ensures GetLong(SectorBytes(data, size, b), size - 4) == GetLong(data, SectorPlace(b, size) + (size - 4))
    ensures SectorBytes(data, size, b)[..size - 4] ==
            data[SectorPlace(b, size)..SectorPlace(b, size) + (size - 4)]
  {
    var place := SectorPlace(b, size);
    GetLongAt(data, place, place + size, size - 4);
    SliceOfSlice(data, place, place + size, 0, size - 4);
  }

  lemma {:induction false} DifatSectorsAre(data: seq<Byte>, size: nat, first: nat, d: seq<nat>, i: nat)
    requires size >= 4 && DifatChain(data, size, first, d) && i < |d|
    ensures DifatInFile(data, size, first, i) && DifatSector(data, size, first, i) == d[i]
  {
    if i > 0 {
      DifatSectorsAre(data, size, first, d, i - 1);
      assert NextDifat(data, size, d, i - 1);
      SectorIs(data, size, d[i - 1]);
    }
  }

  lemma {:induction false} DifatSlice(data: seq<Byte>, size: nat, first: nat, n: nat, i: nat)
    requires size >= 4 && DifatInFile(data, size, first, n) && i < n
    ensures DifatInFile(data, size, first, i) && SectorInFile(data, size, DifatSector(data, size, first, i))
    ensures BlockStart(i, size - 4) + (size - 4) <= |DifatEntries(data, size, first, n)|
    ensures DifatEntries(data, size, first, n)[BlockStart(i, size - 4)..BlockStart(i, size - 4) + (size - 4)] ==
            SectorBytes(data, size, DifatSector(data, size, first, i))[..size - 4]
  {
    var front, last := DifatEntries(data, size, first, n - 1),
                       SectorBytes(data, size, DifatSector(data, size, first, n - 1))[..size - 4];
    if i < n - 1 {
      DifatSlice(data, size, first, n - 1, i);
      SliceOfFront(front, last, BlockStart(i, size - 4), BlockStart(i, size - 4) + (size - 4));
    } else {
      SliceOfBack(front, last);
    }
  }

  /** These are the sectors the table is made of: without its last four bytes, sector i of the chain
      stands at place i * (sectorSize - 4) behind the header's entries. */
  lemma DifatAlong(data: seq<Byte>, size: nat, first: nat, d: seq<nat>, i: nat)
    requires size >= 4 && DifatChain(data, size, first, d) && i < |d|
    ensures DifatInFile(data, size, first, |d|)
    ensures BlockStart(i, size - 4) + (size - 4) <= |DifatEntries(data, size, first, |d|)|
    ensures DifatEntries(data, size, first, |d|)[BlockStart(i, size - 4)..BlockStart(i, size - 4) + (size - 4)] ==
            data[SectorPlace(d[i], size)..SectorPlace(d[i], size) + (size - 4)]
  {
    DifatSectorsAre(data, size, first, d, |d| - 1);
    SectorIs(data, size, d[|d| - 1]);
    DifatSectorsAre(data, size, first, d, i);
    SectorIs(data, size, d[i]);
    DifatSlice(data, size, first, |d|, i);
  }

  method Realloc(buf: array<Byte>, n: nat) returns (grown: array<Byte>)
    requires buf.Length <= n
    ensures fresh(grown) && grown.Length == n && grown[..buf.Length] == buf[..]
  {
    grown := new Byte[n](_ => 0);
    forall i | 0 <= i < buf.Length { grown[i] := buf[i]; }
  }

  /** Room for DIFAT sector i behind the entries read so far. */
  method GrowTable(buf: array<Byte>, i: nat, size: nat) returns (grown: array<Byte>)
    requires size >= 4 && buf.Length == MSAT_ORIG_SIZE + BlockStart(i, size)
    ensures fresh(grown) && grown.Length == MSAT_ORIG_SIZE + BlockStart(i + 1, size)
    ensures buf.Length <= grown.Length && grown[..buf.Length] == buf[..]
    ensures MSAT_ORIG_SIZE + BlockStart(i, size - 4) <= buf.Length
    ensures MSAT_ORIG_SIZE + BlockStart(i, size - 4) + size <= grown.Length
  {
    RoomForSector(i, size);
    BlockStartLess(i, size);
    grown := Realloc(buf, size * (i + 1) + MSAT_ORIG_SIZE);
  }

  /** The MSAT loop of ole_init. The buffer receives the header's entries and then, for each
      DIFAT sector, its entries; the link read with them is overwritten by the next sector. */
  method ReadDifat(file: FileHandle, header: seq<Byte>, size: nat) returns (ok: bool, table: array<Byte>)
    requires |header| == 512 && size >= 4
    modifies file
    ensures fresh(table)
    ensures ok <==> DifatInFile(file.data, size, GetLong(header, 0x44), GetLong(header, 0x48))
    ensures ok ==> MSAT_ORIG_SIZE + BlockStart(GetLong(header, 0x48), size - 4) <= table.Length
    ensures ok ==> table[..MSAT_ORIG_SIZE + BlockStart(GetLong(header, 0x48), size - 4)] ==
                   header[0x4c..0x4c + MSAT_ORIG_SIZE]
                   + DifatEntries(file.data, size, GetLong(header, 0x44), GetLong(header, 0x48))
  {
    var first, msatSize := GetLong(header, 0x44), GetLong(header, 0x48);
    table := new Byte[MSAT_ORIG_SIZE](i requires 0 <= i < MSAT_ORIG_SIZE => header[0x4c + i]);
    var mblock, i, end := first, 0, MSAT_ORIG_SIZE;
    ok := true;
    ghost var head := header[0x4c..0x4c + MSAT_ORIG_SIZE];
    assert table[..end] == head + [];
    while i < msatSize
      invariant 0 <= i <= msatSize && ok && fresh(table)
                && end == MSAT_ORIG_SIZE + BlockStart(i, size - 4) <= table.Length
      invariant table.Length == MSAT_ORIG_SIZE + BlockStart(i, size)
      invariant DifatInFile(file.data, size, first, i) && mblock == DifatSector(file.data, size, first, i)
      invariant table[..end] == head + DifatEntries(file.data, size, first, i)
    {
      table := GrowTable(table, i, size);
      ok, mblock := ReadDifatSector(file, table, end, size, first, i, mblock, head);
      if !ok {
        ShortDifatFails(file.data, size, first, i + 1, msatSize);
        return;
      }
      i := i + 1;
      end := end + (size - 4);
    }
  }

  /** One turn of that loop. */
  method ReadDifatSector(file: FileHandle, table: array<Byte>, end: nat, size: nat, ghost first: nat, ghost i: nat,
                         mblock: nat,
                         ghost head: seq<Byte>) returns (ok: bool, next: nat)
    requires size >= 4 && DifatInFile(file.data, size, first, i) && mblock == DifatSector(file.data, size, first, i)
    requires end + size <= table.Length && table[..end] == head + DifatEntries(file.data, size, first, i)
    modifies file, table
    ensures ok <==> DifatInFile(file.data, size, first, i + 1)
    ensures ok ==> next == DifatSector(file.data, size, first, i + 1)
    ensures ok ==> table[..end + (size - 4)] == head + DifatEntries(file.data, size, first, i + 1)
  {
    next := 0;
    ghost var before := table[..];
    ok := ReadSector(file, table, end, size, mblock);
    if ok {
      TableStep(before, table[..], head, DifatEntries(file.data, size, first, i),
                SectorBytes(file.data, size, mblock), end, size);
      next := GetLong(table[end..end + size], size - 4);
    }
  }

  lemma RoomForSector(i: nat, size: nat)
    requires size >= 4
    ensures BlockStart(i + 1, size) == size * (i + 1)
    ensures BlockStart(i, size - 4) + size <= BlockStart(i + 1, size)
    ensures BlockStart(i, size) <= BlockStart(i + 1, size)
  {
    BlockStartIsProduct(i + 1, size);
    BlockStartLess(i, size);
  }

  lemma {:induction false} ShortDifatFails(data: seq<Byte>, size: nat, first: nat, i: nat, n: nat)
    requires size >= 4 && i <= n && !DifatInFile(data, size, first, i)
    ensures !DifatInFile(data, size, first, n)
  {
    if i < n { ShortDifatFails(data, size, first, i, n - 1); }
  }

  /** One sector into the buffer; false when the file does not hold all of it. */
  method ReadSector(file: FileHandle, buf: array<Byte>, at: nat, size: nat, b: nat) returns (ok: bool)
    requires at + size <= buf.Length && size > 0
    modifies file, buf
    ensures ok <==> SectorInFile(file.data, size, b)
    ensures ok ==> buf[..] == old(buf[..at]) + SectorBytes(file.data, size, b) + old(buf[at + size..])
  {
    file.Seek(512 + b * size);
    var got := file.Read(buf, at, size);
    ok := got == size;
  }

  lemma {:induction false} BlockStartLess(i: nat, size: nat)
    requires size >= 4
    ensures BlockStart(i, size - 4) <= BlockStart(i, size)
  {
    if i > 0 { BlockStartLess(i - 1, size); }
  }

  /** A sector written over the link left by the one before extends the table by its entries. */
  lemma TableStep(before: seq<Byte>, now: seq<Byte>, head: seq<Byte>, entries: seq<Byte>, sector: seq<Byte>, end: nat,
                  size: nat)
    requires end + size <= |before| && |sector| == size >= 4 && before[..end] == head + entries
    requires now == before[..end] + sector + before[end + size..]
    ensures now[..end + (size - 4)] == head + (entries + sector[..size - 4]) && now[end..end + size] == sector
  {
    assert now[..end + (size - 4)] == now[..end] + now[end..end + (size - 4)];
    assert now[end..end + (size - 4)] == sector[..size - 4];
  }

  /** The FAT sectors the table's first n entries name are all inside the file, by the two tests of
      ole_init. */
  predicate FatInFile(data: seq<Byte>, table: seq<Byte>, size: nat, n: nat)
    requires size > 0 && 4 * n <= |table|
  {
    forall i :: 0 <= i < n ==>
      GetLong(table, 4 * i) < |data| / size && SectorInFile(data, size, GetLong(table, 4 * i))
  }

  /** The sectors named by the first n entries of the table, joined. */
  function FatBytes(data: seq<Byte>, table: seq<Byte>, size: nat, n: nat): (s: seq<Byte>)
    requires size > 0 && 4 * n <= |table| && FatInFile(data, table, size, n)
    ensures |s| == BlockStart(n, size)
  {
    if n == 0 then []
    else FatBytes(data, table, size, n - 1) + SectorBytes(data, size, GetLong(table, 4 * (n - 1)))
  }

  /** How the BBD loop ends; PastTable stands for reading on behind the entries of the DIFAT. */
  datatype FatOutcome = Complete | BadSector | PastTable

  /** The BBD loop of ole_init, for a header that promises n sectors: the FAT is the join of the
      sectors that the DIFAT names. */
  method ReadFat(file: FileHandle, table: seq<Byte>, size: nat, n: nat) returns (r: FatOutcome, bbd: array<Byte>)
    requires size > 0
    modifies file
    ensures fresh(bbd)
    ensures r == PastTable <==> n > |table| / 4 && FatInFile(file.data, table, size, |table| / 4)
    ensures r == BadSector <==> !FatInFile(file.data, table, size, Min(n, |table| / 4))
    ensures r == Complete ==> 4 * n <= |table| && FatInFile(file.data, table, size, n)
                              && bbd[..] == FatBytes(file.data, table, size, n)
  {
    BlockStartIsProduct(n, size);
    bbd := new Byte[n * size](_ => 0);
    var i, at := 0, 0;
    while i < n
      invariant 0 <= i <= n && 4 * i <= |table| && bbd.Length == BlockStart(n, size)
                && at == BlockStart(i, size) <= bbd.Length
      invariant FatInFile(file.data, table, size, i) && bbd[..at] == FatBytes(file.data, table, size, i)
    {
      BlockStartMonotone(i + 1, n, size);
      if 4 * i + 4 > |table| { return PastTable, bbd; }
      var bbdSector := GetLong(table, 4 * i);
      if bbdSector >= |file.data| / size { return BadSector, bbd; }
      var read := ReadSector(file, bbd, at, size, bbdSector);
      if !read { return BadSector, bbd; }
      i := i + 1;
      at := at + size;
    }
    assert bbd[..at] == bbd[..];
    r := Complete;
  }

  /** The whole DIFAT: the header's entries and those of its sectors. */
  function Difat(data: seq<Byte>, header: seq<Byte>, size: nat): seq<Byte>
    requires |header| == 512 && size >= 4
    requires DifatInFile(data, size, GetLong(header, 0x44), GetLong(header, 0x48))
  {
    header[0x4c..0x4c + MSAT_ORIG_SIZE] + DifatEntries(data, size, GetLong(header, 0x44), GetLong(header, 0x48))
  }

  /** The two loops of ole_init in a row: from the header to the FAT. */
  method LoadFat(file: FileHandle, header: seq<Byte>, size: nat) returns (ok: bool, r: FatOutcome, bbd: array<Byte>)
    requires |header| == 512 && size >= 4
    modifies file
    ensures fresh(bbd) && (ok <==> DifatInFile(file.data, size, GetLong(header, 0x44), GetLong(header, 0x48)))
    ensures ok ==> var table, n := Difat(file.data, header, size), GetLong(header, 0x2c);
      && (r == PastTable <==> n > |table| / 4 && FatInFile(file.data, table, size, |table| / 4))
      && (r == Complete <==> n <= |table| / 4 && FatInFile(file.data, table, size, n))
      && (r == Complete ==> bbd[..] == FatBytes(file.data, table, size, n))
  {
    r := BadSector;
    var table;
    ok, table := ReadDifat(file, header, size);
    if !ok { return false, BadSector, table; }
    var end := MSAT_ORIG_SIZE + GetLong(header, 0x48) * (size - 4);
    BlockStartIsProduct(GetLong(header, 0x48), size - 4);
    r, bbd := ReadFat(file, table[..end], size, GetLong(header, 0x2c));
  }

  lemma {:induction false} GetLongAt(s: seq<Byte>, a: nat, b: nat, k: nat)
    requires a <= b <= |s| && k + 4 <= b - a
    ensures GetLong(s[a..b], k) == GetLong(s, a + k)
  {
  }

  /** The j-th sector of the join is the sector that entry j names. */
  lemma {:induction false} FatSlice(data: seq<Byte>, table: seq<Byte>, size: nat, n: nat, j: nat)
    requires size > 0 && 4 * n <= |table| && FatInFile(data, table, size, n) && j < n
    ensures BlockStart(j, size) + size <= |FatBytes(data, table, size, n)|
    ensures FatBytes(data, table, size, n)[BlockStart(j, size)..BlockStart(j, size) + size] ==
            SectorBytes(data, size, GetLong(table, 4 * j))
  {
    var front, last := FatBytes(data, table, size, n - 1), SectorBytes(data, size, GetLong(table, 4 * (n - 1)));
    if j < n - 1 {
      FatSlice(data, table, size, n - 1, j);
      SliceOfFront(front, last, BlockStart(j, size), BlockStart(j, size) + size);
    } else {
      SliceOfBack(front, last);
    }
  }

  /** FAT entry i, by [MS-CFB] section 2.3: value e of the FAT sector number j, for 4 * i == j * size
      + 4 * e. */
  lemma FatEntry(data: seq<Byte>, table: seq<Byte>, size: nat, n: nat, i: nat, j: nat, e: nat)
    requires size > 0 && 4 * n <= |table| && FatInFile(data, table, size, n) && j < n
    requires 4 * i == BlockStart(j, size) + 4 * e && 4 * e + 4 <= size
    ensures i < |Entries(FatBytes(data, table, size, n))|
    ensures Entries(FatBytes(data, table, size, n))[i] ==
            GetLong(SectorBytes(data, size, GetLong(table, 4 * j)), 4 * e)
  {
    var bytes := FatBytes(data, table, size, n);
    FatSlice(data, table, size, n, j);
    GetLongAt(bytes, BlockStart(j, size), BlockStart(j, size) + size, 4 * e);
  }

  /** Every entry has such a place: sector i / (size / 4), value i % (size / 4). */
  lemma FatPlace(size: nat, i: nat) returns (j: nat, e: nat)
    requires size >= 4 && size % 4 == 0
    ensures j == i / (size / 4) && e == i % (size / 4)
    ensures 4 * i == BlockStart(j, size) + 4 * e && 4 * e + 4 <= size
  {
    var per := size / 4;
    j, e := i / per, i % per;
    BlockStartIsProduct(j, size);
    assert size == 4 * per && i == j * per + e;
    assert 4 * (j * per) == j * (4 * per);
  }

  /** Entry e of DIFAT sector j is entry 109 + j * (sectorSize / 4 - 1) + e of the table. */
  lemma {:induction false} TableEntry(data: seq<Byte>, size: nat, first: nat, n: nat, j: nat, e: nat)
    requires size >= 4 && DifatInFile(data, size, first, n) && j < n && 4 * e + 4 <= size - 4
    ensures DifatInFile(data, size, first, j) && SectorInFile(data, size, DifatSector(data, size, first, j))
    ensures BlockStart(j, size - 4) + 4 * e + 4 <= |DifatEntries(data, size, first, n)|
    ensures GetLong(DifatEntries(data, size, first, n), BlockStart(j, size - 4) + 4 * e) ==
            GetLong(SectorBytes(data, size, DifatSector(data, size, first, j)), 4 * e)
  {
    if j < n - 1 { TableEntry(data, size, first, n - 1, j, e); }
  }
}
