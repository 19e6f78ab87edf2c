/** MBRBlockDevice: writing a partition into a master boot record, and reading it back as a window on the device. */
module MBRBlockDevices {
  import opened Alignment
  import opened Bytes
  import opened BlockDevices
  import opened SlicingBlockDevices

  const BD_ERROR_INVALID_MBR: int := -3101
  const BD_ERROR_INVALID_PARTITION: int := -3102

  /** Four entries of sixteen bytes and the signature (UEFI Specification, section 5.2.1). */
  const TABLE_SIZE: nat := 66

  // Cylinder, head and sector.

  /** The packing of a sector number into three bytes; shifts and masks are quotients and remainders. */
  function ToChs(lba: nat): (chs: seq<byte>)
    ensures |chs| == 3
  {
    var sector := Min(lba, 0xfffffd) + 1;
    [sector / 0x40 % 0x100, sector % 0x40 + sector / 0x1_0000 / 0x40 % 4 * 0x40, sector / 0x4000 % 0x100]
  }

  function FromChs(chs: seq<byte>): (sector: int)
    requires |chs| == 3
  {
    var c0: int, c1: int, c2: int := chs[0], chs[1], chs[2];
    c1 % 0x40 + 0x40 * c0 + 0x4000 * c2 + 0x40_0000 * (c1 / 0x40)
  }

  /** No bit of the clamped sector number is lost: its 24 bits are spread over the three bytes as the record has it. */
  lemma ChsKeepsSector(lba: nat)
    ensures FromChs(ToChs(lba)) == Min(lba, 0xfffffd) + 1
    ensures var c0: int, c1: int, c2: int := ToChs(lba)[0], ToChs(lba)[1], ToChs(lba)[2];
            c1 % 0x40 + 0x40 * c0 + 0x4000 * c2 + 0x40_0000 * (c1 / 0x40) ==
            if lba < 0xfffffd then lba + 1 else 0xfffffe
  {
    var s: nat := Min(lba, 0xfffffd) + 1;
    DivDiv(s, 0x40, 0x100, 0x4000);
    DivDiv(s, 0x4000, 0x100, 0x40_0000);
    DivDiv(s, 0x1_0000, 0x40, 0x40_0000);
    var d := s / 0x40_0000;
    assert 0 <= d < 4;
    DivUnique(s % 0x40 + d * 0x40, 0x40, d, s % 0x40);
  }

  // The table.

  function EntryAt(part: nat): (r: nat)
    requires 1 <= part <= 4
    ensures r + 16 <= 64
  {
    16 * (part - 1)
  }

  predicate HasSignature(t: seq<byte>)
    requires |t| == TABLE_SIZE
  {
    t[64] == 0x55 && t[65] == 0xAA
  }

  function Status(t: seq<byte>, part: nat): byte
    requires |t| == TABLE_SIZE && 1 <= part <= 4
  {
    t[EntryAt(part)]
  }

  function Type(t: seq<byte>, part: nat): byte
    requires |t| == TABLE_SIZE && 1 <= part <= 4
  {
    t[EntryAt(part) + 4]
  }

  function LbaOffset(t: seq<byte>, part: nat): u32
    requires |t| == TABLE_SIZE && 1 <= part <= 4
  {
    FromLe32(t[EntryAt(part) + 8..EntryAt(part) + 12])
  }

  function LbaSize(t: seq<byte>, part: nat): u32
    requires |t| == TABLE_SIZE && 1 <= part <= 4
  {
    FromLe32(t[EntryAt(part) + 12..EntryAt(part) + 16])
  }

  predicate StatusOk(t: seq<byte>, part: nat)
    requires |t| == TABLE_SIZE && 1 <= part <= 4
  {
    Status(t, part) == 0x00 || Status(t, part) == 0x80
  }

  /** A table that is taken over as it is. */
  predicate TableOk(t: seq<byte>)
    requires |t| == TABLE_SIZE
  {
    HasSignature(t) && StatusOk(t, 1) && StatusOk(t, 2) && StatusOk(t, 3) && StatusOk(t, 4)
  }

  function EmptyTable(): (t: seq<byte>)
    ensures |t| == TABLE_SIZE
  {
    Repeat(0, 64) + [0x55, 0xAA]
  }

  function Entry(kind: byte, lbaOffset: u32, lbaSize: u32): (e: seq<byte>)
    ensures |e| == 16
  {
    [0] + ToChs(lbaOffset) + [kind] + ToChs(W32(lbaOffset + lbaSize - 1)) + ToLe32(lbaOffset) + ToLe32(lbaSize)
  }

  /** The table that partition_absolute writes over `t`. */
  function NewTable(t: seq<byte>, part: nat, kind: byte, lbaOffset: u32, lbaSize: u32): (r: seq<byte>)
    requires |t| == TABLE_SIZE && 1 <= part <= 4
    ensures |r| == TABLE_SIZE
  {
    Blit(if TableOk(t) then t else EmptyTable(), EntryAt(part), Entry(kind, lbaOffset, lbaSize), 0, 16)
  }

  /** Reading back the entry just written; the other three entries are kept exactly when the table was taken over. */
  lemma NewTableReadsBack(t: seq<byte>, part: nat, kind: byte, lbaOffset: u32, lbaSize: u32)
    requires |t| == TABLE_SIZE && 1 <= part <= 4
    ensures var r := NewTable(t, part, kind, lbaOffset, lbaSize);
            && TableOk(r)
            && Type(r, part) == kind && LbaOffset(r, part) == lbaOffset && LbaSize(r, part) == lbaSize
            && (TableOk(t) ==> SameOutside(t, r, EntryAt(part), EntryAt(part) + 16))
            && (!TableOk(t) ==> forall p :: 1 <= p <= 4 && p != part ==> Type(r, p) == 0)
  {
    hide Blit, Entry, FromLe32, ToLe32, TableOk, NewTable;
    var base, r := if TableOk(t) then t else EmptyTable(), NewTable(t, part, kind, lbaOffset, lbaSize);
    EmptyTableOk();
    NewTableBytes(t, base, r, part, kind, lbaOffset, lbaSize);
    EntryBytes(kind, lbaOffset, lbaSize);
    TableStaysOk(base, r, part);
    LeRoundTrip(lbaOffset);
    LeRoundTrip(lbaSize);
    if !TableOk(t) {
      forall p | 1 <= p <= 4 && p != part ensures Type(r, p) == 0 {
        assert Type(base, p) == 0;
      }
    }
  }

  /**
   * The record byte by byte (sixteen bytes an entry). The other entries are kept if the old table was taken over, and
   * are zero if not. The new one is inactive, and holds its start and its last sector as clamped sector numbers, and
   * in 32 bits its start and its number of sectors.
   */
  lemma NewTableOnRecord(t: seq<byte>, r: seq<byte>, part: nat, kind: byte, lbaOffset: u32, lbaSize: u32, at: nat)
    requires |t| == |r| == 66 && 1 <= part <= 4 && at == 16 * (part - 1)
    requires r == NewTable(t, part, kind, lbaOffset, lbaSize)
    ensures r[64] == 0x55 && r[65] == 0xAA && r[at] == 0 && r[at + 4] == kind
    ensures FromChs(r[at + 1..at + 4]) == Min(lbaOffset, 0xfffffd) + 1
    ensures FromChs(r[at + 5..at + 8]) == Min(W32(lbaOffset + lbaSize - 1), 0xfffffd) + 1
    ensures FromLe32(r[at + 8..at + 12]) == lbaOffset && FromLe32(r[at + 12..at + 16]) == lbaSize
    ensures forall i :: 0 <= i < 64 && !(at <= i < at + 16) ==> r[i] == if TableOk(t) then t[i] else 0
  {
    hide Blit, Entry, FromLe32, ToLe32, ToChs, FromChs, W32, NewTable, TableOk;
    var base := if TableOk(t) then t else EmptyTable();
    TableKeptExactly(t);
    NewTableBytes(t, base, r, part, kind, lbaOffset, lbaSize);
    EntryBytes(kind, lbaOffset, lbaSize);
    LeRoundTrip(lbaOffset);
    LeRoundTrip(lbaSize);
    ChsKeepsSector(lbaOffset);
    ChsKeepsSector(W32(lbaOffset + lbaSize - 1));
  }

  /** A table is taken over exactly with the signature and four entries that are inactive or active. */
  lemma TableKeptExactly(t: seq<byte>)
    requires |t| == 66
    ensures TableOk(t) <==>
            && t[64] == 0x55 && t[65] == 0xAA && (t[0] == 0 || t[0] == 0x80) && (t[16] == 0 || t[16] == 0x80)
            && (t[32] == 0 || t[32] == 0x80) && (t[48] == 0 || t[48] == 0x80)
  {
  }

  /** What init looks at, byte by byte. */
  lemma AcceptedOnRecord(t: seq<byte>, part: nat)
    requires |t| == 66 && 1 <= part <= 4
    ensures var at := 16 * (part - 1);
            && (EntryOk(t, part) <==>
                && t[64] == 0x55 && t[65] == 0xAA && (t[at] == 0 || t[at] == 0x80)
                && t[at + 4] != 0 && t[at + 4] != 0x05 && t[at + 4] != 0x0f)
            && Type(t, part) == t[at + 4]
            && LbaOffset(t, part) == FromLe32(t[at + 8..at + 12])
            && LbaSize(t, part) == FromLe32(t[at + 12..at + 16])
  {
  }

  lemma EmptyTableOk()
    ensures TableOk(EmptyTable())
  {
  }

  /** Only the entry changes. */
  lemma NewTableBytes(t: seq<byte>, base: seq<byte>, r: seq<byte>, part: nat, kind: byte, lbaOffset: u32, lbaSize: u32)
    requires |t| == TABLE_SIZE && 1 <= part <= 4 && r == NewTable(t, part, kind, lbaOffset, lbaSize)
    requires base == if TableOk(t) then t else EmptyTable()
    ensures SameOutside(base, r, EntryAt(part), EntryAt(part) + 16)
    ensures var e, at := Entry(kind, lbaOffset, lbaSize), EntryAt(part);
            && r[at] == e[0] && r[at + 1..at + 4] == e[1..4] && r[at + 4] == e[4] && r[at + 5..at + 8] == e[5..8]
            && r[at + 8..at + 12] == e[8..12] && r[at + 12..at + 16] == e[12..16]
  {
    hide Entry, TableOk, Blit;
    var e, at := Entry(kind, lbaOffset, lbaSize), EntryAt(part);
    assert r == Blit(base, at, e, 0, 16);
    assert r[at + 1..at + 4] == e[1..4];
    assert r[at + 5..at + 8] == e[5..8];
    assert r[at + 8..at + 12] == e[8..12];
    assert r[at + 12..at + 16] == e[12..16];
  }

  lemma TableStaysOk(base: seq<byte>, r: seq<byte>, part: nat)
    requires |base| == TABLE_SIZE && 1 <= part <= 4 && TableOk(base)
    requires SameOutside(base, r, EntryAt(part), EntryAt(part) + 16) && r[EntryAt(part)] == 0
    ensures TableOk(r)
  {
    forall p | 1 <= p <= 4 ensures StatusOk(r, p) {
      assert p == part || Status(r, p) == Status(base, p);
    }
  }

  lemma EntryBytes(kind: byte, lbaOffset: u32, lbaSize: u32)
    ensures var e := Entry(kind, lbaOffset, lbaSize);
            && e[0] == 0 && e[4] == kind && e[8..12] == ToLe32(lbaOffset) && e[12..16] == ToLe32(lbaSize)
            && e[1..4] == ToChs(lbaOffset) && e[5..8] == ToChs(W32(lbaOffset + lbaSize - 1))
  {
    hide ToLe32, ToChs, W32;
  }

  // Disjoint partitions.

  /** Sector `s` belongs to the partition of a non-empty entry. */
  predicate Owns(t: seq<byte>, part: nat, s: int)
    requires |t| == TABLE_SIZE && 1 <= part <= 4
  {
    Type(t, part) != 0 && Within(s, LbaOffset(t, part), LbaSize(t, part))
  }

  ghost predicate Disjoint(t: seq<byte>)
    requires |t| == TABLE_SIZE
  {
    forall p, q, s :: 1 <= p < q <= 4 ==> !(Owns(t, p, s) && Owns(t, q, s))
  }

  /** The overlap test of partition_absolute against one neighbour, with its 32-bit sums. */
  predicate OverlapTest(lbaOffset: u32, lbaSize: u32, nOffset: u32, nSize: u32) {
    lbaOffset >= W32(nOffset + nSize) || W32(lbaOffset + lbaSize) <= nOffset
  }

  /** What the asserts of partition_absolute check. */
  predicate OverlapAsserts(t: seq<byte>, part: nat, lbaOffset: u32, lbaSize: u32)
    requires |t| == TABLE_SIZE && 1 <= part <= 4
  {
    forall p :: 1 <= p <= 4 && p != part && Type(t, p) != 0 ==>
      OverlapTest(lbaOffset, lbaSize, LbaOffset(t, p), LbaSize(t, p))
  }

  predicate NoWrap32(offset: u32, size: u32) { offset as int + size as int < U32 }

  predicate Within(x: int, offset: u32, size: u32) { offset <= x < offset as int + size as int }

  /** For non-empty partitions whose ends fit in 32 bits, the test is true exactly if they have no sector in common. */
  lemma OverlapTestExact(o: u32, s: u32, no: u32, ns: u32)
    requires NoWrap32(o, s) && NoWrap32(no, ns) && s > 0 && ns > 0
    ensures OverlapTest(o, s, no, ns) <==> forall x: int :: !(Within(x, o, s) && Within(x, no, ns))
  {
    if !OverlapTest(o, s, no, ns) {
      var x := Max(o, no);
      assert Within(x, o, s) && Within(x, no, ns);
    }
  }

  /** The guard on the ends is needed: an end that wraps makes the test pass for overlapping partitions. */
  lemma OverlapTestWraps()
    ensures OverlapTest(0x8000_0000, 0x8000_0000, 0x9000_0000, 1)
    ensures 0x8000_0000 <= 0x9000_0000 < 0x8000_0000 + 0x8000_0000
  {
  }

  /** If the asserts hold and no end wraps, adding a partition keeps the non-empty entries pairwise disjoint. */
  lemma NewTableDisjoint(t: seq<byte>, part: nat, kind: byte, lbaOffset: u32, lbaSize: u32)
    requires |t| == TABLE_SIZE && 1 <= part <= 4
    requires TableOk(t) ==>
               Disjoint(t) && forall p :: 1 <= p <= 4 && p != part ==> NoWrap32(LbaOffset(t, p), LbaSize(t, p))
    requires NoWrap32(lbaOffset, lbaSize)
    requires OverlapAsserts(NewTable(t, part, kind, lbaOffset, lbaSize), part, lbaOffset, lbaSize)
    ensures Disjoint(NewTable(t, part, kind, lbaOffset, lbaSize))
  {
    hide Blit, FromLe32, NewTable, TableOk;
    var r := NewTable(t, part, kind, lbaOffset, lbaSize);
    NewTableReadsBack(t, part, kind, lbaOffset, lbaSize);
    forall p, q, s | 1 <= p < q <= 4 ensures !(Owns(r, p, s) && Owns(r, q, s)) {
      if TableOk(t) {
        if p != part {
          OtherEntryKept(t, r, part, p);
        }
        if q != part {
          OtherEntryKept(t, r, part, q);
        }
        if p != part && q != part {
          assert !(Owns(t, p, s) && Owns(t, q, s));
        }
      }
    }
  }

  lemma OtherEntryKept(t: seq<byte>, r: seq<byte>, part: nat, p: nat)
    requires |t| == |r| == TABLE_SIZE && 1 <= part <= 4 && 1 <= p <= 4 && p != part
    requires SameOutside(t, r, EntryAt(part), EntryAt(part) + 16)
    ensures Type(r, p) == Type(t, p) && LbaOffset(r, p) == LbaOffset(t, p) && LbaSize(r, p) == LbaSize(t, p)
  {
    var at := EntryAt(p);
    assert r[at + 8..at + 12] == t[at + 8..at + 12] && r[at + 12..at + 16] == t[at + 12..at + 16];
  }

  // Writing the record.

  /** The scratch buffer of partition_absolute: whole program units, at least a table. */
  function BufferSize(programSize: nat): (r: nat)
    requires programSize > 0
  {
    var b := Max(programSize, TABLE_SIZE);
    if b % programSize != 0 then b + (programSize - b % programSize) else b
  }

  lemma BufferSizeFacts(ps: nat)
    requires 0 < ps < U32
    ensures TABLE_SIZE <= BufferSize(ps) < U32 + TABLE_SIZE && ps <= BufferSize(ps) && Aligned(BufferSize(ps), ps)
    ensures ps >= TABLE_SIZE ==> BufferSize(ps) == ps
    ensures ps < TABLE_SIZE ==> BufferSize(ps) < TABLE_SIZE + ps
  {
    var b := Max(ps, TABLE_SIZE);
    if ps >= TABLE_SIZE {
      DivUnique(ps, ps, 1, 0);
    } else if b % ps != 0 {
      assert b == ps * (b / ps) + b % ps;
      assert b + (ps - b % ps) == ps * (b / ps + 1);
      DivUnique(b + (ps - b % ps), ps, b / ps + 1, 0);
    }
  }

  /** Where a buffer ends that is put at 512 minus its size: that difference has 32 bits. */
  function RecordEnd(bufferSize: nat): (r: nat) {
    if bufferSize <= 512 then 512 else U32 + 512
  }

  /** The record can be written: a device of `n` bytes holds it, on whole program units. */
  predicate Writable(ps: nat, n: nat)
    requires ps > 0
  {
    var end := RecordEnd(BufferSize(ps));
    end <= n && Aligned(end, ps)
  }

  /** The writable records end at byte 512 exactly for the program sizes that divide 512. */
  lemma AdmissibleExactly(ps: nat, n: nat)
    requires 0 < ps < U32 && Writable(ps, n)
    ensures RecordEnd(BufferSize(ps)) == 512 <==> 512 % ps == 0
  {
    BufferSizeFacts(ps);
    if 512 % ps == 0 && ps > 512 {
      DivUnique(512, ps, 0, 512);
    }
  }

  /** And no device is too small for those; any other size needs 2^32 + 512 bytes, and to divide that number. */
  lemma WritableExactly(ps: nat, n: nat)
    requires 0 < ps < U32
    ensures Writable(ps, n) <==>
            if ps <= 512 then 512 % ps == 0 && 512 <= n else (U32 + 512) % ps == 0 && U32 + 512 <= n
    ensures 66 <= BufferSize(ps) < 66 + ps && BufferSize(ps) % ps == 0
    ensures RecordEnd(BufferSize(ps)) == if ps <= 512 then 512 else 0x1_0000_0000 + 512
  {
    BufferSizeFacts(ps);
    if ps <= 512 {
      assert BufferSize(ps) <= 512;
    }
  }

  /** There are such sizes above 512. */
  lemma RecordElsewhere(n: nat)
    requires U32 + 512 <= n
    ensures Writable(1536, n) && RecordEnd(BufferSize(1536)) == U32 + 512
  {
    WritableExactly(1536, n);
    BufferSizeFacts(1536);
  }

  /** A sector of the record: an erase block, but no less than 512 bytes. */
  function Sector(eraseSize: nat): (r: nat)
    ensures r >= 512 && r >= eraseSize && (r == 512 || r == eraseSize)
  {
    Max(eraseSize, 512)
  }

  /**
   * The device's bytes after a partition was written, in the terms of its bytes before: the table is in the last 66
   * bytes before `end`, the rest of the buffer before it, and of erase block 0 only the remainder, is lost.
   */
  ghost predicate Partitioned(c: seq<byte>, c': seq<byte>, bd: Device, part: nat, kind: byte, lbaOffset: u32,
                              lbaSize: u32)
    requires 1 <= part <= 4 && bd.programSize > 0
  {
    var b := BufferSize(bd.programSize);
    var end := RecordEnd(b);
    && |c'| == |c| >= end && TABLE_SIZE <= b <= end
    && TableAt(c', end) == NewTable(TableAt(c, end), part, kind, lbaOffset, lbaSize)
    && (forall i :: end - b <= i < end - TABLE_SIZE ==> c'[i] == 0xFF)
    && Confined(c, c', bd.eraseSize, end - b, end)
    && (bd.eraseValue >= 0 ==>
          forall i :: 0 <= i < bd.eraseSize && i < |c| && !(end - b <= i < end) ==> c'[i] == bd.eraseValue)
  }

  /** With a program size that divides 512 that is: the table in bytes 446 to 511, bytes of value 255 before it, and
      nothing else changed outside erase block 0. */
  lemma PartitionedPlainly(c: seq<byte>, c': seq<byte>, bd: Device, part: nat, kind: byte, lbaOffset: u32, lbaSize: u32)
    requires 1 <= part <= 4 && 0 < bd.programSize < U32 && 512 % bd.programSize == 0
    requires Partitioned(c, c', bd, part, kind, lbaOffset, lbaSize)
    ensures |c'| == |c| >= 512 && c'[446..512] == NewTable(c[446..512], part, kind, lbaOffset, lbaSize)
    ensures forall i :: 446 - (BufferSize(bd.programSize) - 66) <= i < 446 ==> 0 <= i && c'[i] == 0xFF
    ensures forall i :: 512 <= i < |c| && bd.eraseSize <= i ==> c'[i] == c[i]
  {
    hide NewTable, BufferSize;
    BufferSizeFacts(bd.programSize);
    if bd.programSize > 512 {
      DivUnique(512, bd.programSize, 0, 512);
    }
  }

  /** The table that ends at `end`. */
  function TableAt(c: seq<byte>, end: nat): (t: seq<byte>)
    requires TABLE_SIZE <= end <= |c|
    ensures |t| == TABLE_SIZE
  {
    c[end - TABLE_SIZE..end]
  }

  /** Outside erase block 0 and [lo, hi) nothing changes. */
  ghost predicate Confined(c: seq<byte>, c': seq<byte>, eraseSize: nat, lo: int, hi: int) {
    |c| == |c'| && forall i :: eraseSize <= i < |c| && !(lo <= i < hi) ==> c'[i] == c[i]
  }

  /** A length in sectors, narrowed to 32 bits. */
  function Sectors(x: nat, eraseSize: nat): (r: u32) {
    W32(x / Sector(eraseSize))
  }

  /** Which requests on the record the device accepts. */
  lemma RecordRequests(bd: Device)
    requires bd.Valid()
    ensures var b := BufferSize(bd.programSize);
            var at, n := RecordEnd(b) - b, |bd.contents|;
            && TABLE_SIZE <= b && 0 <= at == W32(512 - b) && NoWrap(at, b) && NoWrap(0, bd.eraseSize)
            && (bd.ProgramOk(at, b) <==> Writable(bd.programSize, n))
            && (Writable(bd.programSize, n) ==> bd.ReadOk(at, b) && bd.EraseOk(0, bd.eraseSize))
  {
    hide BufferSize;
    var ps, b := bd.programSize, BufferSize(bd.programSize);
    var end := RecordEnd(b);
    BufferSizeFacts(ps);
    if b > 512 {
      DivUnique(512 - b, U32, -1, 512 - b + U32);
    }
    if Aligned(end - b, ps) {
      Multiples(end - b, b, ps);
    }
    if Writable(ps, |bd.contents|) {
      Multiples(end, b, ps);
      DividesTrans(bd.readSize, ps, end - b);
      DividesTrans(bd.readSize, ps, b);
      UnitsApart(0, |bd.contents|, bd.eraseSize);
      DivUnique(bd.eraseSize, bd.eraseSize, 1, 0);
    }
  }

  /**
   * Writes one partition. On a dependable device it succeeds exactly when the record is writable, and the table then
   * ends where the 32-bit arithmetic puts it. A partition that is read but cannot be written costs erase block 0.
   */
  method PartitionAbsolute(bd: Device, part: nat, kind: byte, offset: nat, size: nat) returns (err: int)
    requires bd.Valid() && 1 <= part <= 4
    modifies bd
    ensures bd.Valid() && |bd.contents| == |old(bd.contents)|
    ensures err == 0 ==>
              Partitioned(old(bd.contents), bd.contents, bd, part, kind,
                          Sectors(offset, bd.eraseSize), Sectors(size, bd.eraseSize))
    ensures var b := BufferSize(bd.programSize);
            Confined(old(bd.contents), bd.contents, bd.eraseSize, RecordEnd(b) - b, RecordEnd(b))
    ensures err == 0 ==> Writable(bd.programSize, |bd.contents|)
    ensures bd.reliable && Writable(bd.programSize, |bd.contents|) ==> err == 0
    ensures bd.reliable && RecordLost(bd) && bd.eraseValue >= 0 ==> Filled(bd.contents, 0, bd.eraseSize, bd.eraseValue)
  {
    hide Blit, NewTable, W64, W32, Aligned, SameOutside, BufferSize, Confined, Writable, Filled, RecordEnd;
    ghost var c, end := bd.contents, RecordEnd(BufferSize(bd.programSize));
    RecordRequests(bd);
    var bufferSize := BufferSize(bd.programSize);
    ConfinedItself(c, bd.eraseSize, end - bufferSize, end);
    var buffer := new byte[bufferSize];
    err := bd.Read(buffer, 0, W32(512 - bufferSize), bufferSize);
    if err != 0 {
      return err;
    }
    var lbaOffset, lbaSize := Sectors(offset, bd.eraseSize), Sectors(size, bd.eraseSize);
    var tableStart := bufferSize - TABLE_SIZE;
    assert buffer[tableStart..] == TableAt(c, end);
    UpdateTable(buffer, tableStart, part, kind, lbaOffset, lbaSize);
    ghost var table := buffer[tableStart..];
    MemSet(buffer, 0, 0xFF, tableStart);
    assert buffer[tableStart..] == table;
    err := WriteRecord(bd, buffer, bufferSize);
    if err == 0 {
      RecordStored(c, bd.contents, bd, buffer[..], part, kind, lbaOffset, lbaSize);
    }
  }

  /** The record can be read and the first block erased, but the record cannot be written. */
  ghost predicate RecordLost(bd: Device)
    requires bd.Valid()
    reads bd
  {
    var b := BufferSize(bd.programSize);
    !Writable(bd.programSize, |bd.contents|) && bd.ReadOk(W32(512 - b), b) && bd.EraseOk(0, bd.eraseSize)
  }

  lemma ConfinedItself(c: seq<byte>, eraseSize: nat, lo: int, hi: int)
    ensures Confined(c, c, eraseSize, lo, hi)
  {
  }

  /** What was stored, put together. */
  lemma RecordStored(c: seq<byte>, c': seq<byte>, bd: Device, buffer: seq<byte>, part: nat, kind: byte,
                     lbaOffset: u32, lbaSize: u32)
    requires 1 <= part <= 4 && bd.programSize > 0
    requires TABLE_SIZE <= |buffer| == BufferSize(bd.programSize) <= RecordEnd(|buffer|) <= |c| == |c'|
    requires buffer[|buffer| - TABLE_SIZE..] ==
               NewTable(TableAt(c, RecordEnd(|buffer|)), part, kind, lbaOffset, lbaSize)
    requires forall i :: 0 <= i < |buffer| - TABLE_SIZE ==> buffer[i] == 0xFF
    requires RecordIn(c, c', bd, buffer, RecordEnd(|buffer|) - |buffer|)
    ensures Partitioned(c, c', bd, part, kind, lbaOffset, lbaSize)
  {
    hide NewTable, BufferSize;
    var end := RecordEnd(|buffer|);
    assert TableAt(c', end) == buffer[|buffer| - TABLE_SIZE..];
  }

  /** The buffer is stored from `at` on, and otherwise erase block 0 is erased and the rest kept. */
  ghost predicate RecordIn(c: seq<byte>, c': seq<byte>, bd: Device, buffer: seq<byte>, at: int) {
    && 0 <= at && at + |buffer| <= |c| == |c'|
    && (forall i :: at <= i < at + |buffer| ==> c'[i] == buffer[i - at])
    && (forall i :: 0 <= i < |c| && !(at <= i < at + |buffer|) ==>
          if i < bd.eraseSize then bd.eraseValue >= 0 ==> c'[i] == bd.eraseValue else c'[i] == c[i])
  }

  /** The last two calls of partition_absolute. */
  method WriteRecord(bd: Device, buffer: array<byte>, bufferSize: nat) returns (err: int)
    requires bd.Valid() && buffer.Length == bufferSize == BufferSize(bd.programSize)
    modifies bd
    ensures bd.Valid() && |bd.contents| == |old(bd.contents)|
    ensures var end := RecordEnd(bufferSize);
            && Confined(old(bd.contents), bd.contents, bd.eraseSize, end - bufferSize, end)
            && (err == 0 ==>
                  && Writable(bd.programSize, |bd.contents|) && end <= |bd.contents|
                  && RecordIn(old(bd.contents), bd.contents, bd, buffer[..], end - bufferSize))
    ensures bd.reliable && Writable(bd.programSize, |bd.contents|) ==> err == 0
    ensures (bd.reliable && !Writable(bd.programSize, |bd.contents|) && old(bd.EraseOk(0, bd.eraseSize))
             && bd.eraseValue >= 0) ==> Filled(bd.contents, 0, bd.eraseSize, bd.eraseValue)
  {
    hide Blit, W64, W32, Aligned, BufferSize, Writable, RecordEnd;
    RecordRequests(bd);
    err := bd.Erase(0, bd.eraseSize);
    if err != 0 {
      return err;
    }
    RecordRequests(bd);
    err := bd.Program(buffer, 0, W32(512 - bufferSize), bufferSize);
  }

  /** Takes over or resets the table in the buffer, and puts the new entry into it. */
  method UpdateTable(buffer: array<byte>, at: nat, part: nat, kind: byte, lbaOffset: u32, lbaSize: u32)
    requires at + TABLE_SIZE == buffer.Length && 1 <= part <= 4
    modifies buffer
    ensures buffer[at..] == NewTable(old(buffer[at..]), part, kind, lbaOffset, lbaSize)
  {
    hide Blit, Entry;
    ghost var t := buffer[at..];
    ResetTable(buffer, at);
    var e := Entry(kind, lbaOffset, lbaSize);
    var here := at + EntryAt(part);
    forall k | 0 <= k < 16 {
      buffer[here + k] := e[k];
    }
    assert buffer[at..] == Blit(if TableOk(t) then t else EmptyTable(), EntryAt(part), e, 0, 16) by {
      EntryPut(if TableOk(t) then t else EmptyTable(), buffer[at..], EntryAt(part), e);
    }
  }

  lemma EntryPut(t: seq<byte>, r: seq<byte>, here: nat, e: seq<byte>)
    requires |t| == |r| && |e| == 16 && here + 16 <= |t|
    requires forall k :: here <= k < here + 16 ==> r[k] == e[k - here]
    requires SameOutside(t, r, here, here + 16)
    ensures r == Blit(t, here, e, 0, 16)
  {
  }

  /** Sets up an empty table unless the one in the buffer has the signature and valid states throughout. */
  method ResetTable(buffer: array<byte>, at: nat)
    requires at + TABLE_SIZE == buffer.Length
    modifies buffer
    ensures buffer[at..] == if TableOk(old(buffer[at..])) then old(buffer[at..]) else EmptyTable()
    ensures buffer[..at] == old(buffer[..at])
  {
    hide Blit;
    ghost var t := buffer[at..];
    if buffer[at + 64] != 0x55 || buffer[at + 65] != 0xAA {
      buffer[at + 64] := 0x55;
      buffer[at + 65] := 0xAA;
      MemSet(buffer, at, 0, 64);
      assert buffer[at..] == EmptyTable();
    }
    ghost var t1 := buffer[at..];
    var i := 1;
    while i <= 4
      invariant 1 <= i <= 5 && buffer[at..] == t1 && buffer[..at] == old(buffer[..at])
      invariant forall p :: 1 <= p < i ==> StatusOk(t1, p)
    {
      assert buffer[at + EntryAt(i)] == t1[EntryAt(i)];
      if buffer[at + EntryAt(i)] != 0x00 && buffer[at + EntryAt(i)] != 0x80 {
        assert !StatusOk(t1, i);
        MemSet(buffer, at, 0, 64);
        assert buffer[at..] == EmptyTable();
        return;
      }
      i := i + 1;
    }
  }

  // Reading the record back.

  /** What init reads is a valid request: it does not round its buffer up as the writing side does. */
  predicate InitReadable(readSize: nat, n: nat)
    requires readSize > 0
  {
    var b := Max(readSize, TABLE_SIZE);
    RecordEnd(b) <= n && Aligned(b, readSize) && Aligned(RecordEnd(b) - b, readSize)
  }

  /** Those are the read sizes 1 and 2, the divisors of 512 above the size of the table, and, where the device is large
      enough, the divisors of 2^32 + 512 above 512. */
  lemma InitReadableExactly(rs: nat, n: nat)
    requires 0 < rs < U32
    ensures InitReadable(rs, n) <==>
            if rs <= 512 then (rs <= 2 || (rs > TABLE_SIZE && 512 % rs == 0)) && 512 <= n
            else (U32 + 512) % rs == 0 && U32 + 512 <= n
  {
    if rs > TABLE_SIZE {
      SelfAligned(rs);
      var end := RecordEnd(rs);
      if Aligned(end, rs) {
        Multiples(end, rs, rs);
      }
      if Aligned(end - rs, rs) {
        Multiples(end - rs, rs, rs);
      }
    } else if Aligned(66, rs) && Aligned(446, rs) {
      Multiples(66, 66, rs);
      Multiples(132, 132, rs);
      Multiples(264, 132, rs);
      Multiples(446, 396, rs);
      Multiples(66, 50, rs);
      Multiples(50, 16, rs);
      Multiples(34, 16, rs);
      Multiples(18, 16, rs);
      if rs > 2 {
        DivUnique(2, rs, 0, 2);
      }
    }
  }

  /** A length in bytes, from one in sectors. */
  function Extent(sectors: u32, eraseSize: nat): (r: nat) {
    sectors * Sector(eraseSize)
  }

  lemma ExtentFits(a: u32, b: u32, es: nat)
    requires es <= 0x8000_0000
    ensures Extent(a, es) + Extent(b, es) < U64
  {
    var s: nat, p: nat, q: nat := Sector(es), a, b;
    assert p * s <= (U32 - 1) * 0x8000_0000 by { ProductMono(p, U32 - 1, s, 0x8000_0000); }
    assert q * s <= (U32 - 1) * 0x8000_0000 by { ProductMono(q, U32 - 1, s, 0x8000_0000); }
  }

  /** A length is recorded in sectors, modulo 2^32; a sector is an erase block, or 512 bytes if those are smaller. */
  lemma SectorsOnRecord(x: nat, es: nat, m: nat)
    requires m == if es < 512 then 512 else es
    ensures (x / m - Sectors(x, es)) % 0x1_0000_0000 == 0
    ensures Extent(Sectors(x, es), es) == Sectors(x, es) * m
  {
    assert Sector(es) == m;
  }

  /** Sizes and offsets come back rounded down to whole sectors, exactly if their number of sectors has 32 bits. */
  lemma ExtentOfSectors(x: nat, es: nat)
    ensures Extent(Sectors(x, es), es) == UnitOf(x, Sector(es)) <==> x / Sector(es) < U32
  {
    hide Sector;
    WholeSectors(x, Sector(es), Sectors(x, es));
  }

  lemma WholeSectors(x: nat, m: nat, w: u32)
    requires m > 0 && w == W32(x / m)
    ensures w * m == UnitOf(x, m) <==> x / m < U32
  {
    var q, r, n: nat := x / m, x % m, w;
    assert x == m * q + r;
    assert q * m == m * q == x - r;
    if n < q {
      ProductMono(n + 1, q, m, m);
      assert (n + 1) * m == n * m + m;
    }
  }

  /** Otherwise it is lost: with sectors of 512 bytes, offset 2^41 comes back as 0. */
  lemma OffsetLost()
    ensures Extent(Sectors(0x200_0000_0000, 512), 512) == 0
  {
  }

  /** The entry that init accepts for partition `part`. */
  predicate EntryOk(t: seq<byte>, part: nat)
    requires |t| == TABLE_SIZE && 1 <= part <= 4
  {
    HasSignature(t) && StatusOk(t, part) && Type(t, part) != 0x00 && Type(t, part) != 0x05 && Type(t, part) != 0x0f
  }

  /** Where the table ends that init reads: as in a record written by the same rule. */
  function InitEnd(bd: Device): (r: nat)
    ensures r == if bd.readSize <= 512 then 512 else 0x1_0000_0000 + 512
  {
    RecordEnd(Max(bd.readSize, TABLE_SIZE))
  }

  class MBRBlockDevice {
    const bd: Device
    const part: nat
    var offset: nat
    var size: nat
    var kind: byte
    var initRefCount: nat
    var isInitialized: bool

    ghost predicate Valid()
      reads this, bd
    {
      && bd.Valid() && 1 <= part <= 4
      && (isInitialized <==> initRefCount > 0)
      && (isInitialized ==>
            && offset + size <= |bd.contents|
            && Aligned(offset, bd.eraseSize) && Aligned(offset + size, bd.eraseSize))
    }

    constructor (bd: Device, part: nat)
      requires bd.Valid() && 1 <= part <= 4
      ensures Valid() && this.bd == bd && this.part == part && !isInitialized && initRefCount == 0
    {
      this.bd, this.part := bd, part;
      offset, size, kind, initRefCount, isInitialized := 0, 0, 0, 0, false;
    }

    /** On a dependable device a first init succeeds exactly on a readable, accepted entry whose window is a valid
        erase range. */
    method Init() returns (err: int)
      requires Valid() && initRefCount < U32 - 1
      modifies this
      ensures Valid()
      ensures old(initRefCount) > 0 ==>
                err == 0 && isInitialized && offset == old(offset) && size == old(size) && kind == old(kind)
      ensures old(initRefCount) == 0 && err == 0 ==>
                && isInitialized && InitReadable(bd.readSize, |bd.contents|) && bd.EraseOk(offset, size)
                && var t := TableAt(bd.contents, InitEnd(bd));
                && kind == Type(t, part) && EntryOk(t, part)
                && offset == Extent(LbaOffset(t, part), bd.eraseSize) && size == Extent(LbaSize(t, part), bd.eraseSize)
      ensures err != 0 ==> !isInitialized && initRefCount == 0
      ensures old(initRefCount) == 0 && bd.reliable ==>
                (err == 0 <==>
                 && InitReadable(bd.readSize, |bd.contents|)
                 && var t := TableAt(bd.contents, InitEnd(bd));
                 && EntryOk(t, part)
                 && bd.EraseOk(Extent(LbaOffset(t, part), bd.eraseSize), Extent(LbaSize(t, part), bd.eraseSize)))
    {
      hide Blit, W64, W32, Aligned, InitReadable, FromLe32, Extent;
      initRefCount := initRefCount + 1;
      if initRefCount != 1 {
        return BD_ERROR_OK;
      }
      err := bd.Poke();
      if err != 0 {
        isInitialized, initRefCount := false, 0;
        return err;
      }
      var table;
      err, table := ReadTable();
      if err == 0 {
        err := TakeEntry(table);
      }
      if err != 0 {
        isInitialized, initRefCount := false, 0;
        return err;
      }
      isInitialized := true;
      return BD_ERROR_OK;
    }

    method ReadTable() returns (err: int, table: seq<byte>)
      requires bd.Valid()
      ensures err == 0 ==> InitReadable(bd.readSize, |bd.contents|) && table == TableAt(bd.contents, InitEnd(bd))
      ensures bd.reliable ==> (err == 0 <==> InitReadable(bd.readSize, |bd.contents|))
    {
      hide Blit, W64, W32, Aligned, InitReadable;
      InitRequest(bd);
      var bufferSize := Max(bd.readSize, TABLE_SIZE);
      var buffer := new byte[bufferSize];
      err := bd.Read(buffer, 0, W32(512 - bufferSize), bufferSize);
      table := buffer[bufferSize - TABLE_SIZE..];
    }

    /** The checks of init on its entry, and the attributes taken from it. */
    method TakeEntry(table: seq<byte>) returns (err: int)
      requires |table| == TABLE_SIZE && 1 <= part <= 4 && bd.Valid()
      modifies this`kind, this`offset, this`size
      ensures err == 0 <==>
              && EntryOk(table, part)
              && bd.EraseOk(Extent(LbaOffset(table, part), bd.eraseSize), Extent(LbaSize(table, part), bd.eraseSize))
      ensures err == 0 ==>
                && kind == Type(table, part)
                && offset == Extent(LbaOffset(table, part), bd.eraseSize)
                && size == Extent(LbaSize(table, part), bd.eraseSize)
                && offset + size < U64
    {
      hide FromLe32, Extent, W64, Aligned;
      if table[64] != 0x55 || table[65] != 0xAA {
        return BD_ERROR_INVALID_MBR;
      }
      if Status(table, part) != 0x00 && Status(table, part) != 0x80 {
        return BD_ERROR_INVALID_PARTITION;
      }
      if Type(table, part) == 0x00 || Type(table, part) == 0x05 || Type(table, part) == 0x0f {
        return BD_ERROR_INVALID_PARTITION;
      }
      kind := Type(table, part);
      offset := Extent(LbaOffset(table, part), bd.eraseSize);
      size := Extent(LbaSize(table, part), bd.eraseSize);
      ExtentFits(LbaOffset(table, part), LbaSize(table, part), bd.eraseSize);
      if !bd.EraseOk(offset, size) {
        return BD_ERROR_INVALID_PARTITION;
      }
      return BD_ERROR_OK;
    }

    /** The bytes of the partition. */
    ghost function View(): (v: seq<byte>)
      requires Valid() && isInitialized
      reads this, bd
    {
      bd.contents[offset..offset + size]
    }

    /** Where a request goes. */
    function Forwarded(addr: nat): (r: nat)
      reads this
    {
      W64(addr + offset)
    }

    /** A request whose own end is representable reads the partition; any other reads the device where it is
        forwarded to. */
    method Read(b: array<byte>, at: nat, addr: nat, n: nat) returns (err: int)
      requires Valid() && addr < U64 && n < U64 && at + n <= b.Length
      modifies b
      ensures !isInitialized ==> err == BD_ERROR_DEVICE_ERROR
      ensures err == 0 ==> isInitialized && W64(addr + n) <= size
      ensures err == 0 && NoWrap(addr, n) ==> addr + n <= size && b[..] == Blit(old(b[..]), at, View(), addr, n)
      ensures err == 0 && NoWrap(Forwarded(addr), n) ==>
                Forwarded(addr) + n <= |bd.contents| && b[..] == Blit(old(b[..]), at, bd.contents, Forwarded(addr), n)
      ensures err != 0 || !NoWrap(Forwarded(addr), n) ==> SameOutside(old(b[..]), b[..], at, at + n)
      ensures (isInitialized && bd.reliable && addr + n <= size
               && Aligned(addr, bd.readSize) && Aligned(n, bd.readSize)) ==> err == 0
    {
      hide Aligned, W64, Blit, SameOutside;
      SameItself(b[..], at, at + n);
      if !isInitialized {
        return BD_ERROR_DEVICE_ERROR;
      }
      if !IsValidRead(bd.readSize, size, addr, n) {
        return BD_ERROR_DEVICE_ERROR;
      }
      AlignedInWindow(bd, offset, addr);
      ghost var before, from := b[..], addr + offset;
      err := bd.Read(b, at, W64(addr + offset), n);
      if NoWrap(addr, n) {
        WindowRead(before, at, bd.contents, offset, offset + size, addr, from, n);
      }
    }

    method Program(b: array<byte>, at: nat, addr: nat, n: nat) returns (err: int)
      requires Valid() && addr < U64 && n < U64 && at + n <= b.Length
      modifies bd
      ensures Valid() && |bd.contents| == |old(bd.contents)|
      ensures !isInitialized ==> err == BD_ERROR_DEVICE_ERROR && bd.contents == old(bd.contents)
      ensures err == 0 ==> isInitialized && W64(addr + n) <= size
      ensures err == 0 && NoWrap(addr, n) ==> addr + n <= size && View() == Blit(old(View()), addr, b[..], at, n)
      ensures err == 0 && NoWrap(Forwarded(addr), n) ==>
                && Forwarded(addr) + n <= |bd.contents|
                && bd.contents == Blit(old(bd.contents), Forwarded(addr), b[..], at, n)
      ensures isInitialized && NoWrap(addr, n) ==> SameOutside(old(bd.contents), bd.contents, offset, offset + size)
      ensures (isInitialized && bd.reliable && addr + n <= size
               && Aligned(addr, bd.programSize) && Aligned(n, bd.programSize)) ==> err == 0
    {
      hide Aligned, W64, Blit, SameOutside, Torn;
      SameItself(bd.contents, offset, offset + size);
      if !isInitialized {
        return BD_ERROR_DEVICE_ERROR;
      }
      if !IsValidProgram(bd.programSize, size, addr, n) {
        return BD_ERROR_DEVICE_ERROR;
      }
      AlignedInWindow(bd, offset, addr);
      ghost var c, from := bd.contents, addr + offset;
      err := bd.Program(b, at, W64(addr + offset), n);
      if NoWrap(addr, n) {
        if err == 0 {
          WindowProgrammed(c, offset, offset + size, addr, from, b[..], at, n);
          BlitOutside(c, from, b[..], at, n);
        } else {
          TornOutside(c, bd.contents, from, b[..], at, n);
        }
        WindowChanged(c, bd.contents, offset, offset + size, addr, from, n);
      }
    }

    method Erase(addr: nat, n: nat) returns (err: int)
      requires Valid() && addr < U64 && n < U64
      modifies bd
      ensures Valid() && |bd.contents| == |old(bd.contents)|
      ensures !isInitialized ==> err == BD_ERROR_DEVICE_ERROR && bd.contents == old(bd.contents)
      ensures err == 0 ==> isInitialized && W64(addr + n) <= size
      ensures err == 0 && NoWrap(addr, n) ==>
                && addr + n <= size
                && (bd.eraseValue >= 0 ==> Filled(View(), addr, addr + n, bd.eraseValue))
                && SameOutside(old(View()), View(), addr, addr + n)
      ensures err == 0 && NoWrap(Forwarded(addr), n) && bd.eraseValue >= 0 ==>
                Filled(bd.contents, Forwarded(addr), Forwarded(addr) + n, bd.eraseValue)
      ensures isInitialized && NoWrap(addr, n) ==> SameOutside(old(bd.contents), bd.contents, offset, offset + size)
      ensures (isInitialized && bd.reliable && addr + n <= size && Aligned(addr, bd.eraseSize)
               && Aligned(addr + n, bd.eraseSize)) ==> err == 0
    {
      hide Aligned, W64, Filled, SameOutside;
      SameItself(bd.contents, offset, offset + size);
      if !isInitialized {
        return BD_ERROR_DEVICE_ERROR;
      }
      if !IsValidErase(bd.eraseSize, bd.eraseSize, size, addr, n) {
        return BD_ERROR_DEVICE_ERROR;
      }
      AlignedInWindow(bd, offset, addr);
      AlignedInWindow(bd, offset, addr + n);
      ghost var c, from := bd.contents, addr + offset;
      err := bd.Erase(W64(addr + offset), n);
      if NoWrap(addr, n) {
        WindowChanged(c, bd.contents, offset, offset + size, addr, from, n);
        if err == 0 && bd.eraseValue >= 0 {
          WindowFilled(bd.contents, offset, offset + size, addr, from, n, bd.eraseValue);
        }
      }
    }
  }

  /** A request admitted by a partition, whose forwarded end is representable, stays inside the partition exactly if its
      own end is representable. */
  lemma PartitionInsideExactly(p: MBRBlockDevice, addr: nat, n: nat)
    requires p.Valid() && p.isInitialized && addr < U64 && 0 < n < U64 && W64(addr + n) <= p.size
    requires NoWrap(p.Forwarded(addr), n)
    ensures p.offset <= p.Forwarded(addr) && p.Forwarded(addr) + n <= p.offset + p.size <==> NoWrap(addr, n)
  {
    if addr + p.offset >= U64 {
      WrapOnce(addr + p.offset);
    }
  }

  /** A program request that partition and device admit, and that is forwarded to a place outside the partition. */
  ghost predicate Escapes(p: MBRBlockDevice, addr: nat, n: nat)
    requires p.Valid() && p.isInitialized
    reads p, p.bd
  {
    && addr < U64 && 0 < n < U64 && IsValidProgram(p.bd.programSize, p.size, addr, n)
    && p.bd.ProgramOk(p.Forwarded(addr), n) && NoWrap(p.Forwarded(addr), n) && addr + p.offset >= U64
  }

  /** A partition behind the start of its device can be left exactly if the program size divides 2^64; then the last
      program unit before address 2^64 goes to the unit before the partition. */
  lemma PartitionEscapes(p: MBRBlockDevice)
    requires p.Valid() && p.isInitialized && p.offset > 0
    ensures (exists addr, n :: Escapes(p, addr, n)) <==> U64 % p.bd.programSize == 0
    ensures U64 % p.bd.programSize == 0 ==>
              var m := p.bd.programSize;
              m <= p.offset && Escapes(p, U64 - m, m) && p.Forwarded(U64 - m) == p.offset - m
  {
    hide Escapes;
    if U64 % p.bd.programSize == 0 {
      LastUnitEscapes(p);
    }
    if addr, n :| Escapes(p, addr, n) {
      EscapeDivides(p, addr, n);
    }
  }

  lemma LastUnitEscapes(p: MBRBlockDevice)
    requires p.Valid() && p.isInitialized && p.offset > 0 && U64 % p.bd.programSize == 0
    ensures var m := p.bd.programSize;
            m <= p.offset && Escapes(p, U64 - m, m) && p.Forwarded(U64 - m) == p.offset - m
  {
    hide W64;
    var m, total := p.bd.programSize, |p.bd.contents|;
    WholeUnits(p.offset, p.bd.eraseSize);
    WholeUnits(p.bd.eraseSize, m);
    WrapOnce(U64 - m + p.offset);
    WrapOnce(U64 - m + m);
    SelfAligned(m);
    Multiples(U64, m, m);
    DividesTrans(m, p.bd.eraseSize, p.offset);
    Multiples(p.offset, m, m);
    assert W64(p.offset - m + m) == p.offset;
  }

  lemma EscapeDivides(p: MBRBlockDevice, addr: nat, n: nat)
    requires p.Valid() && p.isInitialized && Escapes(p, addr, n)
    ensures U64 % p.bd.programSize == 0
  {
    hide W64;
    var m := p.bd.programSize;
    WrapOnce(addr + p.offset);
    DividesTrans(m, p.bd.eraseSize, p.offset);
    Multiples(addr, p.offset, m);
    Multiples(addr + p.offset, addr + p.offset - U64, m);
  }

  /** Which request of init the device accepts. */
  lemma InitRequest(bd: Device)
    requires bd.Valid()
    ensures var b := Max(bd.readSize, TABLE_SIZE);
            && 0 <= RecordEnd(b) - b == W32(512 - b) && NoWrap(W32(512 - b), b)
            && (bd.ReadOk(W32(512 - b), b) <==> InitReadable(bd.readSize, |bd.contents|))
  {
    var b := Max(bd.readSize, TABLE_SIZE);
    if b > 512 {
      DivUnique(512 - b, U32, -1, 512 - b + U32);
    }
  }

  /**
   * The round trip. After a partition was written, init on the same entry succeeds exactly if it reads the record, and
   * where it was written, the type is one it supports, and the recovered window is a valid erase range; it then has the
   * type, and the offset and size, which are those written rounded down to sectors exactly if their number has 32 bits.
   * Of a device without an erase value nothing is said where the record is not read where it was written, and a device
   * that may fail may do so; if both calls succeed the result is the same.
   */
  method RoundTrip(bd: Device, part: nat, kind: byte, offset: nat, size: nat)
    returns (mbr: MBRBlockDevice, written: int, err: int)
    requires bd.Valid() && 1 <= part <= 4
    modifies bd
    ensures bd.Valid() && |bd.contents| == |old(bd.contents)|
    ensures written == 0 ==> Writable(bd.programSize, |bd.contents|)
    ensures bd.reliable && Writable(bd.programSize, |bd.contents|) ==> written == 0
    ensures mbr.part == part && mbr.bd == bd
    ensures written == 0 ==>
              var end := RecordEnd(BufferSize(bd.programSize));
              var found := InitReadable(bd.readSize, |bd.contents|) && InitEnd(bd) == end;
              var o := Extent(Sectors(offset, bd.eraseSize), bd.eraseSize);
              var s := Extent(Sectors(size, bd.eraseSize), bd.eraseSize);
              && (found && err == 0 ==> kind != 0x00 && kind != 0x05 && kind != 0x0f && bd.EraseOk(o, s))
              && (found && bd.reliable && kind != 0x00 && kind != 0x05 && kind != 0x0f && bd.EraseOk(o, s) ==> err == 0)
              && (found && err == 0 ==> mbr.kind == kind && mbr.offset == o && mbr.size == s)
              && (!found && bd.eraseValue >= 0 ==> err != 0)
              && (o == UnitOf(offset, Sector(bd.eraseSize)) <==> offset / Sector(bd.eraseSize) < U32)
              && (s == UnitOf(size, Sector(bd.eraseSize)) <==> size / Sector(bd.eraseSize) < U32)
  {
    hide Blit, W64, W32, Aligned, InitReadable, FromLe32, Extent, NewTable, UnitOf, Sectors, SameOutside, BufferSize,
         Sector, RecordEnd, Writable, InitEnd, Confined, TableAt, Filled, Partitioned;
    ghost var c := bd.contents;
    written := PartitionAbsolute(bd, part, kind, offset, size);
    ghost var o, s := Sectors(offset, bd.eraseSize), Sectors(size, bd.eraseSize);
    mbr := new MBRBlockDevice(bd, part);
    err := mbr.Init();
    if written == 0 {
      RecordFound(c, bd.contents, bd, part, kind, o, s);
      ExtentOfSectors(offset, bd.eraseSize);
      ExtentOfSectors(size, bd.eraseSize);
    }
  }

  /** What init finds after a partition was written. */
  lemma RecordFound(c: seq<byte>, c': seq<byte>, bd: Device, part: nat, kind: byte, lbaOffset: u32, lbaSize: u32)
    requires 1 <= part <= 4 && bd.Shaped(|c|) && Partitioned(c, c', bd, part, kind, lbaOffset, lbaSize)
    ensures InitEnd(bd) <= |c'|
    ensures InitEnd(bd) == RecordEnd(BufferSize(bd.programSize)) ==>
              var t := TableAt(c', InitEnd(bd));
              && Type(t, part) == kind && LbaOffset(t, part) == lbaOffset && LbaSize(t, part) == lbaSize
              && (EntryOk(t, part) <==> kind != 0x00 && kind != 0x05 && kind != 0x0f)
    ensures InitEnd(bd) != RecordEnd(BufferSize(bd.programSize)) && bd.eraseValue >= 0 ==>
              !EntryOk(TableAt(c', InitEnd(bd)), part)
  {
    hide NewTable, FromLe32, BufferSize, Aligned;
    var ps, b := bd.programSize, BufferSize(bd.programSize);
    BufferSizeFacts(ps);
    WholeUnits(ps, bd.readSize);
    WholeUnits(bd.eraseSize, ps);
    if InitEnd(bd) == RecordEnd(b) {
      NewTableReadsBack(TableAt(c, RecordEnd(b)), part, kind, lbaOffset, lbaSize);
    } else if bd.eraseValue >= 0 {
      var t := TableAt(c', 512);
      assert t[64] == c'[510] && t[65] == c'[511];
    }
  }

  /** Both happen: a device of program size 1536 is partitioned, and init finds nothing in the sector it reads. */
  method PartitionNotFound() returns (written: int, err: int)
    ensures written == 0 && err != 0
  {
    hide Writable, InitReadable, Sectors, Extent, UnitOf, BufferSize, RecordEnd;
    var bd := new Device(1, 1536, 1536, 0xFF, true, Repeat(0, 4_294_969_344));
    RecordElsewhere(4_294_969_344);
    assert InitEnd(bd) == 512 by { AtSectorEnd(bd); }
    var mbr;
    mbr, written, err := RoundTrip(bd, 1, 0x83, 0, 0);
  }

  lemma AtSectorEnd(bd: Device)
    requires bd.readSize <= 512
    ensures InitEnd(bd) == 512
  {
  }

  /** Read sizes from 4 to 64 can be partitioned but never initialized: here 4, with program size 4. */
  lemma RecordNotReadable()
    ensures Writable(4, 512) && !InitReadable(4, 512)
  {
    WritableExactly(4, 512);
    InitReadableExactly(4, 512);
  }

  /** The rounded-down window is valid whenever erase blocks are no smaller than 512 bytes, or divide 512. */
  lemma RoundedWindowValid(bd: Device, offset: nat, size: nat)
    requires bd.Valid() && offset + size <= |bd.contents| && bd.EraseOk(offset, size)
    requires bd.eraseSize >= 512 || 512 % bd.eraseSize == 0
    ensures bd.EraseOk(UnitOf(offset, Sector(bd.eraseSize)), UnitOf(size, Sector(bd.eraseSize)))
  {
    var m, e := Sector(bd.eraseSize), bd.eraseSize;
    assert Aligned(m, e) by { DivUnique(e, e, 1, 0); }
    DividesTrans(e, m, UnitOf(offset, m));
    DividesTrans(e, m, UnitOf(size, m));
    Multiples(UnitOf(offset, m), UnitOf(size, m), e);
  }

  lemma CommonSector(t: seq<byte>, p: nat, q: nat)
    requires |t| == TABLE_SIZE && 1 <= p <= 4 && 1 <= q <= 4 && p != q
    requires Type(t, p) != 0 && Type(t, q) != 0 && LbaSize(t, p) > 0 && LbaSize(t, q) > 0
    requires LbaOffset(t, q) < LbaOffset(t, p) + LbaSize(t, p) && LbaOffset(t, p) < LbaOffset(t, q) + LbaSize(t, q)
    ensures !Disjoint(t)
  {
    hide FromLe32;
    var x, lo, hi := Max(LbaOffset(t, p), LbaOffset(t, q)), if p < q then p else q, if p < q then q else p;
    assert Owns(t, lo, x) && Owns(t, hi, x);
  }

  /** Disjoint entries are disjoint windows on the device. */
  lemma DisjointWindowsOfEntries(t: seq<byte>, p: nat, q: nat, es: nat)
    requires |t| == TABLE_SIZE && 1 <= p <= 4 && 1 <= q <= 4 && p != q && Disjoint(t)
    requires Type(t, p) != 0 && Type(t, q) != 0 && LbaSize(t, p) > 0 && LbaSize(t, q) > 0
    ensures var a, b := Extent(LbaOffset(t, p), es), Extent(LbaOffset(t, q), es);
            a + Extent(LbaSize(t, p), es) <= b || b + Extent(LbaSize(t, q), es) <= a
  {
    hide FromLe32, Sector;
    var m: nat, o: nat, s: nat := Sector(es), LbaOffset(t, p), LbaSize(t, p);
    var o': nat, s': nat := LbaOffset(t, q), LbaSize(t, q);
    if o + s <= o' {
      ProductMono(o + s, o', m, m);
      assert o * m + s * m == (o + s) * m;
    } else if o' + s' <= o {
      ProductMono(o' + s', o, m, m);
      assert o' * m + s' * m == (o' + s') * m;
    } else {
      CommonSector(t, p, q);
    }
  }

  ghost predicate Apart(p: MBRBlockDevice, q: MBRBlockDevice)
    reads p, q
  {
    p.bd == q.bd && (p.offset + p.size <= q.offset || q.offset + q.size <= p.offset)
  }

  /** Two partitions initialized from a table whose entries are disjoint share no byte. */
  method InitBeside(bd: Device, part: nat, other: nat) returns (p: MBRBlockDevice, q: MBRBlockDevice, ok: bool)
    requires bd.Valid() && 1 <= part <= 4 && 1 <= other <= 4 && part != other
    ensures ok ==>
              && p.Valid() && q.Valid() && p.isInitialized && q.isInitialized && p.bd == bd == q.bd
              && InitEnd(bd) <= |bd.contents|
              && (Disjoint(TableAt(bd.contents, InitEnd(bd))) && p.size > 0 && q.size > 0 ==> Apart(p, q))
    ensures bd.reliable && InitReadable(bd.readSize, |bd.contents|) ==>
              var t := TableAt(bd.contents, InitEnd(bd));
              (ok <==>
               && EntryOk(t, part) && EntryOk(t, other)
               && bd.EraseOk(Extent(LbaOffset(t, part), bd.eraseSize), Extent(LbaSize(t, part), bd.eraseSize))
               && bd.EraseOk(Extent(LbaOffset(t, other), bd.eraseSize), Extent(LbaSize(t, other), bd.eraseSize)))
  {
    hide FromLe32, Extent, Disjoint, InitReadable, RecordEnd, InitEnd, TableAt, W64, Aligned, IsValidErase, EntryOk;
    ReadableEnd(bd);
    p := new MBRBlockDevice(bd, part);
    q := new MBRBlockDevice(bd, other);
    var first := p.Init();
    var second := q.Init();
    ok := first == 0 && second == 0;
    if ok {
      var t := TableAt(bd.contents, InitEnd(bd));
      if Disjoint(t) && p.size > 0 && q.size > 0 {
        EntriesApart(t, part, other, bd.eraseSize);
      }
    }
  }

  lemma ReadableEnd(bd: Device)
    requires bd.Valid()
    ensures InitReadable(bd.readSize, |bd.contents|) ==> InitEnd(bd) <= |bd.contents|
  {
  }

  lemma EntriesApart(t: seq<byte>, p: nat, q: nat, es: nat)
    requires |t| == TABLE_SIZE && 1 <= p <= 4 && 1 <= q <= 4 && p != q && Disjoint(t) && EntryOk(t, p) && EntryOk(t, q)
    requires Extent(LbaSize(t, p), es) > 0 && Extent(LbaSize(t, q), es) > 0
    ensures var a, b := Extent(LbaOffset(t, p), es), Extent(LbaOffset(t, q), es);
            a + Extent(LbaSize(t, p), es) <= b || b + Extent(LbaSize(t, q), es) <= a
  {
    hide FromLe32, Disjoint;
    DisjointWindowsOfEntries(t, p, q, es);
  }

  /** Programming through one partition is invisible through another one, for requests whose end is representable. */
  method ProgramBeside(p: MBRBlockDevice, q: MBRBlockDevice, b: array<byte>, at: nat, addr: nat, n: nat)
    returns (err: int)
    requires p.Valid() && q.Valid() && p.isInitialized && q.isInitialized && Apart(p, q)
    requires NoWrap(addr, n) && at + n <= b.Length
    modifies p.bd
    ensures p.Valid() && q.Valid() && q.View() == old(q.View())
    ensures err == 0 ==> addr + n <= p.size && p.View() == Blit(old(p.View()), addr, b[..], at, n)
  {
    hide Blit, SameOutside, Aligned, W64;
    ghost var c := p.bd.contents;
    err := p.Program(b, at, addr, n);
    DisjointWindows(c, p.bd.contents, p.offset, p.offset + p.size, q.offset, q.offset + q.size);
  }

  method EraseBeside(p: MBRBlockDevice, q: MBRBlockDevice, addr: nat, n: nat) returns (err: int)
    requires p.Valid() && q.Valid() && p.isInitialized && q.isInitialized && Apart(p, q) && NoWrap(addr, n)
    modifies p.bd
    ensures p.Valid() && q.Valid() && q.View() == old(q.View())
    ensures err == 0 && p.bd.eraseValue >= 0 ==> Filled(p.View(), addr, addr + n, p.bd.eraseValue)
  {
    hide Filled, SameOutside, Aligned, W64;
    ghost var c := p.bd.contents;
    err := p.Erase(addr, n);
    DisjointWindows(c, p.bd.contents, p.offset, p.offset + p.size, q.offset, q.offset + q.size);
  }

  // The ranges that the two forms of partition compute, and the documented ones.

  function Magnitude(x: int): (r: nat) { if x < 0 then -x else x }

  /** Offset and size for a start alone, on a device of `n` bytes. */
  function RangeFromStart(n: nat, es: nat, start: int): (r: (int, int)) {
    var size := Magnitude(start);
    var size' := if size < 512 then size + Sector(es) else size;
    (n - size', size')
  }

  /** Offset and size for a start and a stop. */
  function RangeFromStartStop(es: nat, start: int, stop: int): (r: (int, int)) {
    var offset := Magnitude(start);
    var offset' := if offset < 512 then offset + Sector(es) else offset;
    (offset', Magnitude(stop) - offset')
  }

  /** An address in the first 512 bytes is moved by one sector, to leave room for the record. */
  function PastRecord(es: nat, x: int): (r: int) {
    if x < 512 then x + Sector(es) else x
  }

  /** The documentation: from the start to the stop, where negative addresses count from the end, without the record. */
  function DocumentedRange(n: nat, es: nat, start: int, stop: int): (r: (int, int)) {
    var s, t := PastRecord(es, if start < 0 then n + start else start), if stop < 0 then n + stop else stop;
    (s, t - s)
  }

  /** A start alone is always taken from the end: as documented for the negative ones that leave at least 512 bytes on
      both sides, and otherwise only where counting from either end meets. */
  lemma StartTakenFromEnd(n: nat, es: nat, start: int)
    requires Magnitude(start) <= n
    ensures RangeFromStart(n, es, start) == DocumentedRange(n, es, start, n) <==>
            if start < 0 then start <= -512 && n + start >= 512 else 2 * PastRecord(es, start) == n
  {
  }

  /** Of a start and a stop the signs are dropped: as documented for positive ones, and otherwise only where the address
      and its magnitude meet. */
  lemma SignsDropped(n: nat, es: nat, start: int, stop: int)
    requires Magnitude(start) <= n && Magnitude(stop) <= n
    ensures RangeFromStartStop(es, start, stop) == DocumentedRange(n, es, start, stop) <==>
            && (start >= 0 || -2 * start == n
                || (start > -512 && n + start >= 512 && -2 * start + Sector(es) == n)
                || (start <= -512 && n + start < 512 && -2 * start == n + Sector(es)))
            && (stop >= 0 || -2 * stop == n)
  {
  }

  /** partition with a start alone. */
  method PartitionFromStart(bd: Device, part: nat, kind: byte, start: int) returns (err: int)
    requires bd.Valid() && 1 <= part <= 4 && -I63 <= start < I63
    modifies bd
    ensures bd.Valid() && |bd.contents| == |old(bd.contents)|
    ensures err == 0 ==>
              var (o, s) := RangeFromStart(|bd.contents|, bd.eraseSize, start);
              Partitioned(old(bd.contents), bd.contents, bd, part, kind,
                          Sectors(W64(o), bd.eraseSize), Sectors(W64(s), bd.eraseSize))
    ensures bd.reliable ==> (err == 0 <==> Writable(bd.programSize, |bd.contents|))
  {
    hide Blit, NewTable, W64, W32, Aligned, SameOutside, BufferSize, Partitioned, Writable, Confined, RecordEnd, Filled;
    err := bd.Poke();
    if err != 0 {
      return err;
    }
    var size := Magnitude(start);
    var offset: int := |bd.contents|;
    if size < 512 {
      size := W64(size + Sector(bd.eraseSize));
    }
    offset := W64(offset - size);
    err := PartitionAbsolute(bd, part, kind, offset, size);
    if err != 0 {
      return err;
    }
    err := bd.Poke();
  }

  /** partition with a start and a stop. */
  method PartitionFromStartStop(bd: Device, part: nat, kind: byte, start: int, stop: int) returns (err: int)
    requires bd.Valid() && 1 <= part <= 4 && -I63 <= start < I63 && -I63 <= stop < I63
    modifies bd
    ensures bd.Valid() && |bd.contents| == |old(bd.contents)|
    ensures err == 0 ==>
              var (o, s) := RangeFromStartStop(bd.eraseSize, start, stop);
              Partitioned(old(bd.contents), bd.contents, bd, part, kind,
                          Sectors(W64(o), bd.eraseSize), Sectors(W64(s), bd.eraseSize))
    ensures bd.reliable ==> (err == 0 <==> Writable(bd.programSize, |bd.contents|))
  {
    hide Blit, NewTable, W64, W32, Aligned, SameOutside, BufferSize, Partitioned, Writable, Confined, RecordEnd, Filled;
    err := bd.Poke();
    if err != 0 {
      return err;
    }
    var offset := Magnitude(start);
    var size: int := Magnitude(stop);
    if offset < 512 {
      offset := W64(offset + Sector(bd.eraseSize));
    }
    size := W64(size - offset);
    err := PartitionAbsolute(bd, part, kind, offset, size);
    if err != 0 {
      return err;
    }
    err := bd.Poke();
  }
}
