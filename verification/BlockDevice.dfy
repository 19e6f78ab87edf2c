/**
 * The block-device interface: its validity checks, its size contract, and a leaf device that
 * every wrapper of the library is proved against.
 */
module BlockDevices {
  import opened Alignment
  import opened Bytes

  const BD_ERROR_OK: int := 0
  const BD_ERROR_DEVICE_ERROR: int := -4001
  const BD_ERROR_WRITE_PROTECTED: int := 4002

  /** A request whose end is representable in 64 bits. */
  predicate NoWrap(addr: nat, size: nat) { addr + size < U64 }

  /** 64-bit unsigned arithmetic. */
  function W64(x: int): (r: nat)
    ensures r < U64
    ensures 0 <= x < U64 ==> r == x
  {
    x % U64
  }

  lemma WrapOnce(x: nat)
    requires U64 <= x < 2 * U64
    ensures W64(x) == x - U64
  {
    DivUnique(x, U64, 1, x - U64);
  }

  predicate IsValidRead(readSize: nat, total: nat, addr: nat, size: nat)
    requires readSize > 0
  {
    Aligned(addr, readSize) && Aligned(size, readSize) && W64(addr + size) <= total
  }

  predicate IsValidProgram(programSize: nat, total: nat, addr: nat, size: nat)
    requires programSize > 0
  {
    Aligned(addr, programSize) && Aligned(size, programSize) && W64(addr + size) <= total
  }

  /** `eraseAt` and `eraseEnd` are the erase sizes at the first and at the last byte. */
  predicate IsValidErase(eraseAt: nat, eraseEnd: nat, total: nat, addr: nat, size: nat)
    requires eraseAt > 0 && eraseEnd > 0
  {
    Aligned(addr, eraseAt) && Aligned(W64(addr + size), eraseEnd) && W64(addr + size) <= total
  }

  /** The read check admits exactly the aligned requests inside the device and those whose 64-bit end wraps back
      into it. */
  lemma ValidReadExact(readSize: nat, total: nat, addr: nat, size: nat)
    requires 0 < readSize && total < U64 && addr < U64 && size < U64
    ensures IsValidRead(readSize, total, addr, size) <==>
            && addr % readSize == 0 && size % readSize == 0
            && (addr + size <= total || U64 <= addr + size <= total + U64)
    ensures IsValidRead(readSize, total, addr, size) && addr + size > total ==> !NoWrap(addr, size)
  {
    if U64 <= addr + size {
      DivUnique(addr + size, U64, 1, addr + size - U64);
    }
  }

  /** The guard is needed: a wrapping request passes the check although it lies outside the device. */
  lemma WrappedReadAdmitted()
    ensures IsValidRead(1, 16, U64 - 8, 16) && U64 - 8 + 16 > 16
  {
  }

  /** An admitted request lies inside the device exactly when its end is representable: the guard for all three
      checks. */
  lemma InsideExactly(total: nat, addr: nat, size: nat)
    requires total < U64 && addr < U64 && size < U64 && W64(addr + size) <= total
    ensures addr + size <= total <==> NoWrap(addr, size)
  {
  }

  /** The last byte of an admitted, non-empty request: in a table with one entry for each unit of the device exactly
      when the end of the request is representable. */
  lemma InTableExactly(total: nat, addr: nat, size: nat, m: nat)
    requires 0 < m && Aligned(total, m) && total < U64 && addr < U64 && 0 < size < U64 && W64(addr + size) <= total
    ensures UnitNo(addr + size - 1, m) < UnitNo(total, m) <==> NoWrap(addr, size)
    ensures NoWrap(addr, size) ==> UnitNo(addr, m) < UnitNo(total, m)
  {
    if NoWrap(addr, size) {
      UnitInRange(addr + size - 1, total, m);
      UnitInRange(addr, total, m);
    } else {
      UnitNoMono(total, addr + size - 1, m);
    }
  }

  /**
   * A leaf device. `contents` is what the storage holds. A reliable device succeeds on every valid request, a write
   * protected one refuses to write, and any other may fail any call; it fails with its own code, whatever that is, and
   * a failed write may have reached any of the bytes it was asked to write. What a device does with a request whose end
   * wraps is left open.
   */
  class Device {
    const readSize: nat
    const programSize: nat
    const eraseSize: nat
    const eraseValue: int
    const reliable: bool
    const writeProtected: bool
    const failCode: int
    var contents: seq<byte>

    /** The size contract of the interface, for a device of `n` bytes. */
    ghost predicate Shaped(n: nat) {
      && 0 < readSize < U32 && 0 < programSize < U32 && 0 < eraseSize <= 0x8000_0000
      && Aligned(programSize, readSize)
      && Aligned(eraseSize, programSize)
      && Aligned(n, eraseSize)
      && -1 <= eraseValue < 0x100
      && n < U64 - U32
      && !(reliable && writeProtected)
      && failCode != 0 && (writeProtected ==> failCode == BD_ERROR_WRITE_PROTECTED)
    }

    ghost predicate Valid()
      reads this
    {
      Shaped(|contents|)
    }

    constructor (readSize: nat, programSize: nat, eraseSize: nat, eraseValue: int, reliable: bool, image: seq<byte>,
                 failCode: int := BD_ERROR_DEVICE_ERROR)
      requires 0 < readSize < U32 && 0 < programSize < U32 && 0 < eraseSize <= 0x8000_0000
      requires programSize % readSize == 0 && eraseSize % programSize == 0 && |image| % eraseSize == 0
      requires -1 <= eraseValue < 0x100 && |image| < U64 - U32 && failCode != 0
      ensures Valid() && contents == image && !writeProtected && this.failCode == failCode
      ensures this.readSize == readSize && this.programSize == programSize && this.eraseSize == eraseSize
      ensures this.eraseValue == eraseValue && this.reliable == reliable
    {
      this.readSize := readSize;
      this.programSize := programSize;
      this.eraseSize := eraseSize;
      this.eraseValue := eraseValue;
      this.reliable, this.writeProtected, this.failCode := reliable, false, failCode;
      contents := image;
    }

    /** The read-only wrapper around a dependable device. */
    constructor ReadOnly(readSize: nat, programSize: nat, eraseSize: nat, image: seq<byte>)
      requires 0 < readSize < U32 && 0 < programSize < U32 && 0 < eraseSize <= 0x8000_0000
      requires programSize % readSize == 0 && eraseSize % programSize == 0 && |image| % eraseSize == 0
      requires |image| < U64 - U32
      ensures Valid() && contents == image && writeProtected
      ensures this.readSize == readSize && this.programSize == programSize && this.eraseSize == eraseSize
    {
      this.readSize, this.programSize, this.eraseSize := readSize, programSize, eraseSize;
      eraseValue, reliable, writeProtected, failCode := -1, false, true, BD_ERROR_WRITE_PROTECTED;
      contents := image;
    }

    predicate ReadOk(addr: nat, size: nat)
      reads this
      requires 0 < readSize
    {
      IsValidRead(readSize, |contents|, addr, size)
    }

    predicate ProgramOk(addr: nat, size: nat)
      reads this
      requires 0 < programSize
    {
      IsValidProgram(programSize, |contents|, addr, size)
    }

    predicate EraseOk(addr: nat, size: nat)
      reads this
      requires 0 < eraseSize
    {
      IsValidErase(eraseSize, eraseSize, |contents|, addr, size)
    }

    /** A call that touches no data. */
    method Poke() returns (err: int)
      ensures err == 0 || err == failCode
      ensures reliable || writeProtected ==> err == 0
    {
      var fails: bool := *;
      err := if fails && !reliable && !writeProtected then failCode else 0;
    }

    method Read(b: array<byte>, at: nat, addr: nat, size: nat) returns (err: int)
      requires Valid() && addr < U64 && size < U64 && at + size <= b.Length
      modifies b
      ensures err == 0 || err == failCode
      ensures err == 0 ==> ReadOk(addr, size)
      ensures err == 0 && NoWrap(addr, size) ==> addr + size <= |contents|
      ensures err == 0 && NoWrap(addr, size) ==> b[..] == Blit(old(b[..]), at, contents, addr, size)
      ensures err != 0 || !NoWrap(addr, size) ==> SameOutside(old(b[..]), b[..], at, at + size)
      ensures (reliable || writeProtected) && ReadOk(addr, size) && NoWrap(addr, size) ==> err == 0
    {
      if !ReadOk(addr, size) {
        return failCode;
      }
      err := Poke();
      if addr + size > |contents| {
        var unspecified := new byte[size];
        forall i | 0 <= i < size {
          b[at + i] := unspecified[i];
        }
      } else if err == 0 {
        forall i | 0 <= i < size {
          b[at + i] := contents[addr + i];
        }
      }
    }

    method Program(b: array<byte>, at: nat, addr: nat, size: nat) returns (err: int)
      requires Valid() && addr < U64 && size < U64 && at + size <= b.Length
      modifies this
      ensures Valid() && |contents| == |old(contents)| && (err == 0 || err == failCode)
      ensures err == 0 ==> ProgramOk(addr, size)
      ensures err == 0 && NoWrap(addr, size) ==> addr + size <= |contents|
      ensures err == 0 && NoWrap(addr, size) ==> contents == Blit(old(contents), addr, b[..], at, size)
      ensures err != 0 && addr + size <= |contents| ==> Torn(old(contents), contents, addr, b[..], at, size)
      ensures !ProgramOk(addr, size) ==> contents == old(contents)
      ensures reliable && ProgramOk(addr, size) && NoWrap(addr, size) ==> err == 0
      ensures writeProtected ==> contents == old(contents) && err == failCode
    {
      if writeProtected {
        return failCode;
      }
      if !ProgramOk(addr, size) {
        return failCode;
      }
      err := Poke();
      if addr + size > |contents| {
        Scramble();
        return;
      }
      var written := size;
      if err != 0 {
        var n: int := *;
        if 0 <= n < size { written := n; }
      }
      contents := Blit(contents, addr, b[..], at, written);
    }

    method Erase(addr: nat, size: nat) returns (err: int)
      requires Valid() && addr < U64 && size < U64
      modifies this
      ensures Valid() && |contents| == |old(contents)| && (err == 0 || err == failCode)
      ensures err == 0 ==> EraseOk(addr, size)
      ensures err == 0 && NoWrap(addr, size) ==> addr + size <= |contents|
      ensures err == 0 && NoWrap(addr, size) && eraseValue >= 0 ==> Filled(contents, addr, addr + size, eraseValue)
      ensures err != 0 && NoWrap(addr, size) && eraseValue >= 0 ==>
                forall i :: addr <= i < addr + size && i < |contents| ==>
                  contents[i] == old(contents)[i] || contents[i] == eraseValue
      ensures NoWrap(addr, size) ==> SameOutside(old(contents), contents, addr, addr + size)
      ensures !EraseOk(addr, size) ==> contents == old(contents)
      ensures reliable && EraseOk(addr, size) && NoWrap(addr, size) ==> err == 0
      ensures writeProtected ==> contents == old(contents) && err == failCode
    {
      if writeProtected {
        return failCode;
      }
      if !EraseOk(addr, size) {
        return failCode;
      }
      err := Poke();
      if addr + size > |contents| {
        Scramble();
        return;
      }
      var erased := size;
      if err != 0 {
        var n: int := *;
        if 0 <= n < size { erased := n; }
      }
      var blank: byte := *;
      if eraseValue >= 0 { blank := eraseValue; }
      contents := Blit(contents, addr, Repeat(blank, erased), 0, erased);
    }

    /** An effect that is left open. */
    method Scramble()
      requires Valid()
      modifies this
      ensures Valid() && |contents| == |old(contents)|
    {
      var unspecified := new byte[|contents|];
      contents := unspecified[..];
    }
  }

  /** The three checks of a device, each with its own unit: aligned at both ends, and ending in range modulo 2^64. */
  lemma AdmittedExactly(bd: Device, addr: nat, size: nat)
    requires bd.Valid() && addr < U64 && size < U64
    ensures var n, end := |bd.contents|, if addr + size < U64 then addr + size else addr + size - U64;
            && (bd.ReadOk(addr, size) <==> addr % bd.readSize == 0 && size % bd.readSize == 0 && end <= n)
            && (bd.ProgramOk(addr, size) <==> addr % bd.programSize == 0 && size % bd.programSize == 0 && end <= n)
            && (bd.EraseOk(addr, size) <==> addr % bd.eraseSize == 0 && end % bd.eraseSize == 0 && end <= n)
  {
    if U64 <= addr + size {
      WrapOnce(addr + size);
    }
  }
}
