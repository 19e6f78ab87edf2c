/** USBMSD: a block device served to a USB host, where unaligned requests become reads and rewrites of whole erase
    blocks. */
module UsbMassStorage {
  import opened Alignment
  import opened Bytes
  import opened BlockDevices

  const MSD_ERROR: int := -1

  /** A 32-bit unsigned number returned as a 32-bit signed one. */
  function AsInt32(x: int): (r: int)
    requires 0 <= x < U32
  {
    if x < 0x8000_0000 then x else x - U32
  }

  /** The number of bytes is returned unchanged exactly when it is below 2^31; from there on success looks like an
      error. */
  lemma ReturnedSizeExact(x: int)
    requires 0 <= x < U32
    ensures AsInt32(x) == x <==> x < 0x8000_0000
    ensures AsInt32(x) < 0 <==> x >= 0x8000_0000
    ensures W32(AsInt32(x)) == x && -0x8000_0000 <= AsInt32(x) < 0x8000_0000
  {
  }

  /** The size of a block as the host is told it: 16 bits of the erase size. */
  function GetBlockSize(eraseSize: nat): (r: nat)
    ensures r < 0x1_0000 && (eraseSize - r) % 0x1_0000 == 0
  {
    eraseSize % 0x1_0000
  }

  /** The host finds a block where read and write put it, which use the whole erase size, exactly if that has 16 bits,
      or the block is the first. */
  lemma HostAddressExactly(lba: nat, eraseSize: nat)
    ensures RequestAddress(lba, GetBlockSize(eraseSize), 0) == RequestAddress(lba, eraseSize, 0) <==>
            lba == 0 || eraseSize < 0x1_0000
  {
    if lba > 0 && eraseSize >= 0x1_0000 {
      ProductMono(1, lba, eraseSize - GetBlockSize(eraseSize), eraseSize - GetBlockSize(eraseSize));
      assert lba * (eraseSize - GetBlockSize(eraseSize)) == lba * eraseSize - lba * GetBlockSize(eraseSize);
    }
  }

  /** With erase blocks of 64 KiB the host is told that blocks have no bytes. */
  lemma NoBlockSize()
    ensures GetBlockSize(0x1_0000) == 0
  {
  }

  /** Where a request starts, given the size of the blocks. */
  function RequestAddress(lba: nat, blockSize: nat, offset: nat): (r: nat) { lba * blockSize + offset }

  /** Block `lba` of the device, at `offset` in it; a larger offset goes on in the blocks behind it. */
  lemma BlockAndOffset(lba: nat, blockSize: nat, offset: nat)
    requires blockSize > 0
    ensures var a := RequestAddress(lba, blockSize, offset);
            a / blockSize == lba + offset / blockSize && a % blockSize == offset % blockSize
  {
    var q, r := offset / blockSize, offset % blockSize;
    assert offset == blockSize * q + r;
    assert (lba + q) * blockSize == lba * blockSize + q * blockSize;
    DivUnique(lba * blockSize + offset, blockSize, lba + q, r);
  }

  ghost predicate Inside(bd: Device, lba: nat, offset: nat, n: nat)
    reads bd
  {
    lba * bd.eraseSize + offset + n <= |bd.contents|
  }

  /** How a write ends: done, without the unit being opened, or with a call of the device failing. */
  datatype Outcome = Done | NotOpened | DeviceFailed

  class USBMSD {
    const bds: seq<Device>
    var msdBuffer: array?<byte>
    var msdBufferSize: nat

    ghost predicate Valid()
      reads this
    {
      msdBuffer != null ==> msdBuffer.Length == msdBufferSize
    }

    constructor (bds: seq<Device>)
      ensures Valid() && this.bds == bds && msdBuffer == null
    {
      this.bds := bds;
      msdBuffer, msdBufferSize := null, 0;
    }

    method Begin(lun: nat) returns (ok: bool)
      ensures ok ==> lun < |bds|
      ensures lun < |bds| && (bds[lun].reliable || bds[lun].writeProtected) ==> ok
    {
      if lun < |bds| {
        var err := bds[lun].Poke();
        return err == 0;
      }
      return false;
    }

    method AllocateMsdBuffer(s: nat)
      requires Valid()
      modifies this
      ensures Valid() && msdBuffer != null && msdBuffer.Length == s
      ensures msdBuffer == old(msdBuffer) || fresh(msdBuffer)
    {
      if msdBuffer != null && s == msdBufferSize {
        return;
      }
      msdBuffer := new byte[s];
      msdBufferSize := s;
    }

    /** A successful read delivers exactly the requested slice. */
    method Read(lun: nat, lba: nat, offset: nat, buffer: array<byte>, bufsize: nat) returns (r: int)
      requires Valid() && (lun < |bds| ==> bds[lun].Valid())
      requires lba < U32 && offset < U32 && bufsize < U32 && bufsize <= buffer.Length
      requires buffer != msdBuffer
      modifies this, msdBuffer, buffer
      ensures Valid() && (msdBuffer == old(msdBuffer) || fresh(msdBuffer))
      ensures SameOutside(old(buffer[..]), buffer[..], 0, bufsize)
      ensures r >= 0 ==> lun < |bds| && r == bufsize
      ensures r >= 0 && bufsize > 0 ==>
                var addr := lba * bds[lun].eraseSize + offset;
                && addr + bufsize <= |bds[lun].contents|
                && buffer[..] == Blit(old(buffer[..]), 0, bds[lun].contents, addr, bufsize)
      ensures lun < |bds| && bds[lun].reliable && Inside(bds[lun], lba, offset, bufsize) ==> r == AsInt32(bufsize)
    {
      hide Blit, Aligned, SameOutside;
      SameItself(buffer[..], 0, bufsize);
      var ok := Begin(lun);
      if !ok {
        return MSD_ERROR;
      }
      var sizeToReturn := bufsize;
      AddressFits(lba, bds[lun].eraseSize, offset);
      var requestedAddress := RequestAddress(lba, bds[lun].eraseSize, offset);
      AllocateMsdBuffer(bds[lun].eraseSize);
      var retval := ReadBlocks(bds[lun], requestedAddress, buffer, bufsize);
      if retval == 0 {
        return AsInt32(sizeToReturn);
      } else {
        return MSD_ERROR;
      }
    }

    /** The read loop, block by block through the shared buffer. */
    method ReadBlocks(bd: Device, addr: nat, buffer: array<byte>, size: nat) returns (retval: int)
      requires bd.Valid() && addr + U32 < U64 && size < U32 && size <= buffer.Length
      requires msdBuffer != null && msdBuffer.Length == bd.eraseSize && buffer != msdBuffer
      modifies msdBuffer, buffer
      ensures SameOutside(old(buffer[..]), buffer[..], 0, size)
      ensures retval == 0 && size > 0 ==>
                addr + size <= |bd.contents| && buffer[..] == Blit(old(buffer[..]), 0, bd.contents, addr, size)
      ensures bd.reliable && addr + size <= |bd.contents| ==> retval == 0
    {
      hide Blit, Aligned, SameOutside, Written;
      ghost var dst, src := buffer[..], bd.contents;
      ghost var inside := addr <= |src|;
      BlockOf(addr, bd.eraseSize);
      var blockOffset: nat := addr % bd.eraseSize;
      var blockAddress: nat := addr - blockOffset;
      var bufOut: nat, bufsize: nat := 0, size;
      ghost var done: nat := 0;
      SameItself(dst, 0, size);
      if inside { WrittenNone(dst, 0, src, addr); }
      retval := 0;
      while bufsize > 0 && retval == 0
        invariant bufOut == done <= size && (retval == 0 ==> done + bufsize == size)
        invariant blockOffset < bd.eraseSize && Aligned(blockAddress, bd.eraseSize)
        invariant retval == 0 && bufsize > 0 ==> blockAddress + blockOffset == addr + done && blockAddress + U32 < U64
        invariant SameOutside(dst, buffer[..], 0, size)
        invariant retval == 0 && inside ==> Written(dst, buffer[..], 0, src, addr, done)
        invariant retval == 0 && !inside ==> done == 0
        invariant bd.reliable && addr + size <= |src| ==> retval == 0
      {
        ghost var cur, here, from := buffer[..], done, addr + done;
        var bytesToCopy := if bufsize > bd.eraseSize - blockOffset then bd.eraseSize - blockOffset else bufsize;
        retval := ReadBlock(bd, blockAddress, blockOffset, buffer, bufOut, bytesToCopy, from);
        SameTrans(dst, cur, buffer[..], 0, size, here, here + bytesToCopy);
        if retval == 0 {
          WrittenMore(dst, cur, buffer[..], 0, src, addr, done, here, from, bytesToCopy);
        }
        NextBlock(bd, blockAddress);
        done := done + bytesToCopy;
        blockOffset := 0;
        blockAddress := blockAddress + bd.eraseSize;
        bufsize := bufsize - bytesToCopy;
        bufOut := bufOut + bytesToCopy;
      }
      if retval == 0 && size > 0 {
        WrittenAll(dst, buffer[..], 0, src, addr, size);
      }
    }

    /** One round of the read loop; `from` is the device address of the first byte copied. */
    method ReadBlock(bd: Device, blockAddress: nat, blockOffset: nat, buffer: array<byte>, at: nat, n: nat,
                     ghost from: nat)
      returns (err: int)
      requires bd.Valid() && blockAddress + U32 < U64 && Aligned(blockAddress, bd.eraseSize)
      requires msdBuffer != null && msdBuffer.Length == bd.eraseSize && buffer != msdBuffer
      requires blockOffset + n <= bd.eraseSize && 0 < n && at + n <= buffer.Length && from == blockAddress + blockOffset
      modifies msdBuffer, buffer
      ensures err == 0 ==>
                && blockAddress + bd.eraseSize <= |bd.contents|
                && buffer[..] == Blit(old(buffer[..]), at, bd.contents, from, n)
      ensures SameOutside(old(buffer[..]), buffer[..], at, at + n)
      ensures bd.reliable && from < |bd.contents| ==> err == 0
    {
      hide Blit, Aligned;
      WholeBlock(bd, blockAddress, from);
      err := bd.Read(msdBuffer, 0, blockAddress, bd.eraseSize);
      MemCpy(buffer, at, msdBuffer, blockOffset, n);
    }

    /**
     * A write that is done splices exactly the given bytes, although whole blocks are erased; any other leaves every
     * block outside the request's alone. The code of the device is returned as it is: a write that is not done is
     * reported as negative exactly if the unit was not opened, or the device's code is negative; else it looks like a
     * length. A write protected device thus reports its code as bytes written.
     */
    method Write(lun: nat, lba: nat, offset: nat, buffer: array<byte>, bufsize: nat)
      returns (r: int, ghost outcome: Outcome)
      requires Valid() && (lun < |bds| ==> bds[lun].Valid())
      requires lba < U32 && offset < U32 && bufsize < U32 && bufsize <= buffer.Length
      requires buffer != msdBuffer
      modifies this, msdBuffer, if lun < |bds| then {bds[lun]} else {}
      ensures Valid() && (msdBuffer == old(msdBuffer) || fresh(msdBuffer))
      ensures outcome.Done? ==> lun < |bds| && r == AsInt32(bufsize)
      ensures outcome.DeviceFailed? ==> lun < |bds| && r == bds[lun].failCode
      ensures !outcome.Done? ==> (r < 0 <==> outcome.NotOpened? || bds[lun].failCode < 0)
      ensures outcome.NotOpened? ==> r == MSD_ERROR && (lun < |bds| ==> bds[lun].contents == old(bds[lun].contents))
      ensures lun >= |bds| ==> outcome.NotOpened?
      ensures (lun < |bds| ==> bds[lun].failCode < 0) && bufsize < 0x8000_0000 ==> (outcome.Done? <==> r >= 0)
      ensures lun < |bds| && (bds[lun].reliable || bds[lun].writeProtected) ==> !outcome.NotOpened?
      ensures lun < |bds| ==> bds[lun].Valid() && |bds[lun].contents| == |old(bds[lun].contents)|
      ensures outcome.Done? && bufsize > 0 ==>
                var addr := lba * bds[lun].eraseSize + offset;
                && addr + bufsize <= |bds[lun].contents|
                && bds[lun].contents == Blit(old(bds[lun].contents), addr, buffer[..], 0, bufsize)
      ensures lun < |bds| && (!outcome.Done? || bufsize == 0) ==>
                var addr, m := lba * bds[lun].eraseSize + offset, bds[lun].eraseSize;
                SameOutside(old(bds[lun].contents), bds[lun].contents,
                            UnitOf(addr, m), if bufsize == 0 then 0 else UnitOf(addr + bufsize - 1, m) + m)
      ensures lun < |bds| && bds[lun].reliable && Inside(bds[lun], lba, offset, bufsize) ==> outcome.Done?
      ensures lun < |bds| && bds[lun].writeProtected && bufsize > 0 && Inside(bds[lun], lba, offset, bufsize) ==>
                outcome.DeviceFailed? && bds[lun].contents == old(bds[lun].contents)
    {
      hide Blit, Aligned, SameOutside, UnitOf;
      if lun >= |bds| {
        return MSD_ERROR, NotOpened;
      }
      ghost var m := bds[lun].eraseSize;
      ghost var addr := RequestAddress(lba, m, offset);
      SameItself(bds[lun].contents, UnitOf(addr, m), if bufsize == 0 then 0 else UnitOf(addr + bufsize - 1, m) + m);
      var ok := Begin(lun);
      if !ok {
        return MSD_ERROR, NotOpened;
      }
      var sizeToReturn := bufsize;
      AddressFits(lba, bds[lun].eraseSize, offset);
      var requestedAddress := RequestAddress(lba, bds[lun].eraseSize, offset);
      AllocateMsdBuffer(bds[lun].eraseSize);
      var err := 0;
      if bufsize > 0 {
        err := WriteBlocks(bds[lun], requestedAddress, buffer, bufsize);
      }
      if err == 0 {
        return AsInt32(sizeToReturn), Done;
      }
      return err, DeviceFailed;
    }

    /** The write loop, block by block through the shared buffer. */
    method WriteBlocks(bd: Device, addr: nat, buffer: array<byte>, size: nat) returns (err: int)
      requires bd.Valid() && addr + U32 < U64 && 0 < size < U32 && size <= buffer.Length
      requires msdBuffer != null && msdBuffer.Length == bd.eraseSize && buffer != msdBuffer
      modifies msdBuffer, bd
      ensures bd.Valid() && |bd.contents| == |old(bd.contents)|
      ensures err == 0 || err == bd.failCode
      ensures err == 0 ==>
                addr + size <= |bd.contents| && bd.contents == Blit(old(bd.contents), addr, buffer[..], 0, size)
      ensures SameOutside(old(bd.contents), bd.contents, UnitOf(addr, bd.eraseSize),
                          UnitOf(addr + size - 1, bd.eraseSize) + bd.eraseSize)
      ensures bd.reliable && addr + size <= |bd.contents| ==> err == 0
      ensures bd.writeProtected && addr + size <= |bd.contents| ==>
                err == bd.failCode && bd.contents == old(bd.contents)
    {
      hide Blit, Aligned, SameOutside, Written, UnitOf;
      ghost var image, src := bd.contents, buffer[..];
      ghost var inside := addr <= |image|;
      ghost var lo, hi := UnitOf(addr, bd.eraseSize), UnitOf(addr + size - 1, bd.eraseSize) + bd.eraseSize;
      BlockOf(addr, bd.eraseSize);
      var blockOffset: nat := addr % bd.eraseSize;
      var blockAddress: nat := addr - blockOffset;
      var bufOut: nat, bufsize: nat := 0, size;
      ghost var done: nat := 0;
      SameItself(image, lo, hi);
      if inside { WrittenNone(image, addr, src, 0); }
      err := 0;
      while bufsize > 0 && err == 0
        invariant bufOut == done <= size && (err == 0 ==> done + bufsize == size)
        invariant bd.Valid() && |bd.contents| == |image| && buffer[..] == src
        invariant blockOffset < bd.eraseSize && Aligned(blockAddress, bd.eraseSize)
        invariant err == 0 && bufsize > 0 ==>
                    blockAddress + blockOffset == addr + done && blockAddress + U32 < U64 && lo <= blockAddress
        invariant SameOutside(image, bd.contents, lo, hi)
        invariant err == 0 && inside ==> Written(image, bd.contents, addr, src, 0, done)
        invariant err == 0 && !inside ==> done == 0
        invariant bd.reliable && addr + size <= |image| ==> err == 0
        invariant bd.writeProtected && addr + size <= |image| ==>
                    bd.contents == image && (if done == 0 then err == 0 else err == bd.failCode)
        invariant err == 0 || err == bd.failCode
      {
        ghost var cur, here := bd.contents, addr + done;
        var bytesToCopy := if bufsize > bd.eraseSize - blockOffset then bd.eraseSize - blockOffset else bufsize;
        LastBlock(addr, size, bd.eraseSize, blockAddress, here);
        err := WriteBlock(bd, blockAddress, blockOffset, buffer, bufOut, bytesToCopy, here);
        ghost var next := blockAddress + bd.eraseSize;
        SameTrans(image, cur, bd.contents, lo, hi, blockAddress, next);
        if err == 0 {
          WrittenMore(image, cur, bd.contents, addr, src, 0, done, here, bufOut, bytesToCopy);
        }
        NextBlock(bd, blockAddress);
        done := done + bytesToCopy;
        blockOffset := 0;
        blockAddress := blockAddress + bd.eraseSize;
        bufsize := bufsize - bytesToCopy;
        bufOut := bufOut + bytesToCopy;
      }
      if err == 0 {
        WrittenAll(image, bd.contents, addr, src, 0, size);
      }
    }

    /** One round of the write loop: read the block, edit it in RAM, erase it, program it. The erase's result is
        ignored. */
    method WriteBlock(bd: Device, blockAddress: nat, blockOffset: nat, buffer: array<byte>, at: nat, n: nat,
                      ghost here: nat)
      returns (err: int)
      requires bd.Valid() && blockAddress + U32 < U64 && Aligned(blockAddress, bd.eraseSize)
      requires msdBuffer != null && msdBuffer.Length == bd.eraseSize && buffer != msdBuffer
      requires blockOffset + n <= bd.eraseSize && 0 < n && at + n <= buffer.Length && here == blockAddress + blockOffset
      modifies msdBuffer, bd
      ensures bd.Valid() && |bd.contents| == |old(bd.contents)|
      ensures err == 0 || err == bd.failCode
      ensures err == 0 ==>
                && blockAddress + bd.eraseSize <= |bd.contents|
                && bd.contents == Blit(old(bd.contents), here, buffer[..], at, n)
      ensures SameOutside(old(bd.contents), bd.contents, blockAddress, blockAddress + bd.eraseSize)
      ensures bd.reliable && here < |bd.contents| ==> err == 0
      ensures bd.writeProtected && here < |bd.contents| ==>
                err == bd.failCode && bd.contents == old(bd.contents)
    {
      hide Blit, Aligned;
      ghost var c, m := bd.contents, bd.eraseSize;
      WholeBlock(bd, blockAddress, here);
      err := bd.Read(msdBuffer, 0, blockAddress, bd.eraseSize);
      ghost var unit := msdBuffer[..];
      MemCpy(msdBuffer, blockOffset, buffer, at, n);
      if err == 0 {
        var ignored := bd.Erase(blockAddress, bd.eraseSize);
      }
      ghost var erased := bd.contents;
      if err == 0 {
        err := bd.Program(msdBuffer, 0, blockAddress, bd.eraseSize);
        if err == 0 {
          RewriteBlock(c, erased, blockAddress, m, unit, blockOffset, buffer[..], at, n, here);
        }
      }
    }
  }

  lemma StartOfDevice(blockSize: nat)
    ensures RequestAddress(0, blockSize, 0) == 0
  {
  }

  /** Witness: one byte written to a read-only device is answered with a length of 4002, and nothing is stored. */
  method ProtectedReportsLength() returns (r: int, before: seq<byte>, after: seq<byte>)
    ensures r == 4002 && before == after == [0, 0]
  {
    hide Blit, SameOutside, UnitOf, RequestAddress;
    var bd := new Device.ReadOnly(1, 1, 2, [0, 0]);
    var msd := new USBMSD([bd]);
    var data := new byte[][7];
    before := bd.contents;
    StartOfDevice(2);
    ghost var outcome;
    r, outcome := msd.Write(0, 0, 0, data, 1);
    after := bd.contents;
  }

  /** Reading a block, editing it, losing the block and writing the edited copy edits the array in place. */
  lemma RewriteBlock<T>(c: seq<T>, erased: seq<T>, at: nat, m: nat, unit: seq<T>, off: nat, src: seq<T>, from: nat,
                        n: nat, here: nat)
    requires at + m <= |c| && |unit| == m && off + n <= m && from + n <= |src| && here == at + off
    requires forall i :: 0 <= i < m ==> unit[i] == c[at + i]
    requires SameOutside(c, erased, at, at + m)
    ensures Blit(erased, at, Blit(unit, off, src, from, n), 0, m) == Blit(c, here, src, from, n)
  {
  }

  /** A round stays in the blocks of the request. */
  lemma LastBlock(addr: nat, size: nat, m: nat, blockAddress: nat, here: nat)
    requires m > 0 && Aligned(blockAddress, m) && blockAddress <= here < blockAddress + m && addr <= here < addr + size
    ensures blockAddress + m <= UnitOf(addr + size - 1, m) + m
  {
    UnitUnique(here, blockAddress, m);
    UnitMono(here, addr + size - 1, m);
  }

  /** The address of a request is far from the end of the 64-bit range. */
  lemma AddressFits(lba: nat, blockSize: nat, offset: nat)
    requires lba < U32 && blockSize <= 0x8000_0000 && offset < U32
    ensures RequestAddress(lba, blockSize, offset) + U32 < U64
  {
    ProductMono(lba, U32 - 1, blockSize, 0x8000_0000);
  }

  /** Splitting an address into the start of its block and the offset in it. */
  lemma BlockOf(a: nat, m: nat)
    requires m > 0
    ensures 0 <= a % m < m && a % m <= a && Aligned(a - a % m, m) && a - a % m == UnitOf(a, m)
  {
    UnitUnique(a, UnitOf(a, m), m);
  }

  lemma NextBlock(bd: Device, a: nat)
    requires bd.Valid() && Aligned(a, bd.eraseSize)
    ensures Aligned(a + bd.eraseSize, bd.eraseSize)
  {
    AddPeriod(a, bd.eraseSize);
  }

  /** Reading, erasing and programming a whole block are valid when the block holds a byte of the device. */
  lemma WholeBlock(bd: Device, blockAddress: nat, a: nat)
    requires bd.Valid() && Aligned(blockAddress, bd.eraseSize) && blockAddress + U32 < U64
    requires blockAddress <= a < blockAddress + bd.eraseSize
    ensures NoWrap(blockAddress, bd.eraseSize)
    ensures a < |bd.contents| ==>
              && blockAddress + bd.eraseSize <= |bd.contents|
              && bd.ReadOk(blockAddress, bd.eraseSize)
              && bd.ProgramOk(blockAddress, bd.eraseSize)
              && bd.EraseOk(blockAddress, bd.eraseSize)
  {
    if a < |bd.contents| {
      UnitUnique(a, blockAddress, bd.eraseSize);
      UnitInside(a, bd.eraseSize, |bd.contents|);
      DividesTrans(bd.programSize, bd.eraseSize, blockAddress);
      DividesTrans(bd.readSize, bd.programSize, blockAddress);
      DividesTrans(bd.readSize, bd.programSize, bd.eraseSize);
      AddPeriod(blockAddress, bd.eraseSize);
    }
  }
}
