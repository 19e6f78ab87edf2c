/** veeprom: byte-wise EEPROM over data flash, one block at a time through a page in RAM, and the EEPROM class on
    top of it. */
module VirtualEEPROM {
  import opened Alignment
  import opened Bytes

  const BLANK: byte := 0xFF

  /**
   * The data flash below: erasing makes a block blank, and programming a byte that is neither blank
   * nor already right gives an unspecified value; a request that leaves the flash is refused, and a refused read
   * leaves the buffer as it is. `erases` and `programs` count the calls issued.
   */
  class DataFlash {
    const blockSize: nat
    const reliable: bool
    var contents: seq<byte>
    ghost var erases: nat
    ghost var programs: nat

    ghost predicate Valid()
      reads this
    {
      0 < blockSize && Aligned(|contents|, blockSize) && |contents| < U32
    }

    constructor (blockSize: nat, reliable: bool, image: seq<byte>)
      requires 0 < blockSize && Aligned(|image|, blockSize) && |image| < U32
      ensures Valid() && contents == image && this.blockSize == blockSize && this.reliable == reliable
    {
      this.blockSize, this.reliable := blockSize, reliable;
      contents := image;
      erases, programs := 0, 0;
    }

    method Read(b: array<byte>, addr: nat, size: nat)
      requires size <= b.Length
      modifies b
      ensures addr + size <= |contents| ==> b[..] == Blit(old(b[..]), 0, contents, addr, size)
      ensures addr + size > |contents| ==> b[..] == old(b[..])
    {
      if addr + size > |contents| {
        return;
      }
      forall i | 0 <= i < size {
        b[i] := contents[addr + i];
      }
    }

    method Erase(addr: nat, size: nat) returns (err: int)
      modifies this
      ensures |contents| == |old(contents)| && erases == old(erases) + 1 && programs == old(programs)
      ensures addr + size > |contents| ==> err != 0 && contents == old(contents)
      ensures SameOutside(old(contents), contents, addr, addr + size)
      ensures err == 0 ==> Filled(contents, addr, addr + size, BLANK)
      ensures reliable && addr + size <= |contents| ==> err == 0
    {
      erases := erases + 1;
      if addr + size > |contents| {
        return -1;
      }
      err := 0;
      var erased := size;
      if !reliable {
        var n: int := *;
        if 0 <= n < size { erased := n; err := -1; }
      }
      contents := Blit(contents, addr, Repeat(BLANK, erased), 0, erased);
    }

    method Program(b: array<byte>, addr: nat, size: nat) returns (err: int)
      requires size <= b.Length
      modifies this
      ensures |contents| == |old(contents)| && erases == old(erases) && programs == old(programs) + 1
      ensures SameOutside(old(contents), contents, addr, addr + size)
      ensures forall i :: addr <= i < addr + size && i < |contents|
                          && (old(contents)[i] == BLANK || old(contents)[i] == b[i - addr]) ==>
                contents[i] == b[i - addr] || (err != 0 && contents[i] == old(contents)[i])
      ensures addr + size > |contents| ==> err != 0 && contents == old(contents)
      ensures reliable && addr + size <= |contents| ==> err == 0
    {
      programs := programs + 1;
      if addr + size > |contents| {
        return -1;
      }
      err := 0;
      var written := size;
      if !reliable {
        var n: int := *;
        if 0 <= n < size { written := n; err := -1; }
      }
      var c, unspecified := contents, new byte[size];
      contents := seq(|c|, i requires 0 <= i < |c| reads b, unspecified =>
        if !(addr <= i < addr + written) || i - addr >= b.Length then c[i]
        else if c[i] == BLANK || c[i] == b[i - addr] || i - addr >= unspecified.Length then b[i - addr]
        else unspecified[i - addr]);
    }
  }

  /** With page `p` for the block at `at`: without the write flag nothing differs, and without the erase flag only blank
      bytes do. */
  ghost predicate TrueTo(c: seq<byte>, at: nat, p: seq<byte>, write: bool, erase: bool) {
    && at + |p| <= |c|
    && (!write ==> forall i :: at <= i < at + |p| ==> c[i] == p[i - at])
    && (!erase ==> forall i :: at <= i < at + |p| ==> c[i] == p[i - at] || c[i] == BLANK)
  }

  datatype ReadStatus = UNABLE_TO_ALLOC | ALLOCATED | ALREADY_ALLOCATED

  class VEeprom {
    const flash: DataFlash
    var page: array?<byte>
    var writePage: bool
    var erasePage: bool
    var pageAddress: nat

    ghost predicate Valid()
      reads this, flash
    {
      && flash.Valid()
      && (page != null ==>
            page.Length == flash.blockSize && Aligned(pageAddress, flash.blockSize))
    }

    /** The page and its flags tell the truth about the block at `pageAddress`. */
    ghost predicate Synced()
      requires Valid()
      reads this, flash, page
    {
      page != null ==> TrueTo(flash.contents, pageAddress, page[..], writePage, erasePage)
    }

    constructor (flash: DataFlash)
      requires flash.Valid()
      ensures Valid() && this.flash == flash && page == null
    {
      this.flash := flash;
      page, writePage, erasePage, pageAddress := null, false, false, 0;
    }

    /** Outside the flash the result is whatever the variable held. */
    method ReadByte(index: nat) returns (v: byte)
      requires index < U32
      ensures index < |flash.contents| ==> v == flash.contents[index]
    {
      var rv := new byte[1];
      flash.Read(rv, index, 1);
      v := rv[0];
    }

    /**
     * Loads the block of `index` if no page is held. With a page held only the address moves: the
     * page stays true if that is the same block.
     */
    method ReadBlock(index: nat) returns (status: ReadStatus, bytesToEndOfBlock: nat)
      requires Valid() && index < U32
      modifies this
      ensures Valid() && status != UNABLE_TO_ALLOC
      ensures pageAddress == UnitOf(index, flash.blockSize)
      ensures bytesToEndOfBlock == pageAddress + flash.blockSize - index
      ensures old(page) == null ==>
                && status == ALLOCATED && fresh(page) && !writePage && !erasePage
                && (index < |flash.contents| ==>
                      && Synced() && pageAddress + flash.blockSize <= |flash.contents|
                      && page[..] == flash.contents[pageAddress..pageAddress + flash.blockSize])
      ensures old(page) != null ==>
                && status == ALREADY_ALLOCATED && page == old(page)
                && writePage == old(writePage) && erasePage == old(erasePage)
                && (old(pageAddress) == pageAddress && old(Synced()) ==> Synced())
    {
      hide UnitOf, OffsetIn, TrueTo;
      var blockSize := flash.blockSize;
      if index < |flash.contents| {
        UnitInside(index, blockSize, |flash.contents|);
      }
      pageAddress := UnitOf(index, blockSize);
      bytesToEndOfBlock := pageAddress + blockSize - index;
      if page == null {
        page := new byte[blockSize];
        writePage := false;
        erasePage := false;
        flash.Read(page, pageAddress, blockSize);
        if index < |flash.contents| {
          LoadedTrue(flash.contents, pageAddress, page[..]);
        }
        return ALLOCATED, bytesToEndOfBlock;
      } else {
        return ALREADY_ALLOCATED, bytesToEndOfBlock;
      }
    }

    /** Edits the page; the flags keep telling the truth. */
    method WriteByte(v: byte, index: nat)
      requires Valid()
      modifies this`writePage, this`erasePage, page
      ensures Valid()
      ensures old(Synced()) ==> Synced()
      ensures page != null ==>
                OffsetIn(index, flash.blockSize) < page.Length
                && page[..] == old(if page != null then page[..] else [])[OffsetIn(index, flash.blockSize) := v]
                && (writePage <==>
                    old(writePage) || old(if page != null then page[..] else [])[OffsetIn(index, flash.blockSize)] != v)
                && (erasePage <==>
                    || old(erasePage)
                    || old(if page != null then page[..] else [])[OffsetIn(index, flash.blockSize)] != 0xFF)
    {
      var k := OffsetIn(index, flash.blockSize);
      if page != null {
        if !erasePage {
          if page[k] != BLANK {
            erasePage := true;
          }
        }
        if !writePage {
          if page[k] != v {
            writePage := true;
          }
        }
        page[k] := v;
      }
    }

    /**
     * Brings the page to flash and gives it up. From a true page the block ends equal to the page
     * whether or not the erase was skipped; without an erase only blank bytes change, and without a
     * program nothing does.
     */
    method Write() returns (rv: bool)
      requires Valid()
      modifies this`page, flash
      ensures Valid() && page == null && |flash.contents| == |old(flash.contents)|
      ensures old(page) == null ==> rv && flash.contents == old(flash.contents)
      ensures old(page != null && Synced()) && rv ==>
                flash.contents == Blit(old(flash.contents), pageAddress,
                                       old(if page != null then page[..] else []), 0, flash.blockSize)
      ensures old(page) != null ==>
                SameOutside(old(flash.contents), flash.contents, pageAddress, pageAddress + flash.blockSize)
      ensures old(Synced()) && flash.erases == old(flash.erases) ==>
                forall i :: 0 <= i < |flash.contents| && flash.contents[i] != old(flash.contents)[i] ==>
                         old(flash.contents)[i] == 0xFF
      ensures flash.erases == old(flash.erases) && flash.programs == old(flash.programs) ==>
                flash.contents == old(flash.contents)
      ensures !writePage ==> flash.contents == old(flash.contents)
      ensures flash.erases == old(flash.erases) + (if old(page) != null && writePage && erasePage then 1 else 0)
      ensures old(page) != null && pageAddress + flash.blockSize > |flash.contents| ==>
                flash.contents == old(flash.contents) && (rv <==> !writePage)
      ensures flash.reliable && pageAddress + flash.blockSize <= |flash.contents| ==> rv
    {
      hide Aligned, Blit, SameOutside, Filled, TrueTo;
      rv := true;
      var actualWrite := true;
      if page != null {
        ghost var c0, p, lo, hi, synced := flash.contents, page[..], pageAddress, pageAddress + page.Length, Synced();
        SameItself(c0, lo, hi);
        if writePage {
          var blockSize := flash.blockSize;
          if erasePage {
            var err := flash.Erase(pageAddress, blockSize);
            if err != 0 {
              actualWrite := false;
              rv := false;
            }
          }
          if actualWrite {
            ghost var c1 := flash.contents;
            var err := flash.Program(page, pageAddress, blockSize);
            SameTrans(c0, c1, flash.contents, lo, hi, lo, hi);
            if synced {
              ProgramEffect(c0, c1, flash.contents, lo, p, writePage, erasePage, err);
            }
            if err != 0 {
              rv := false;
            }
          }
        } else if synced {
          SamePage(c0, lo, p, erasePage);
        }
        page := null;
      }
    }
  }

  /** Programming a block that was erased if the page says so: it becomes the page, or, when it was not erased,
      changes only in blank bytes. */
  lemma ProgramEffect(c0: seq<byte>, c1: seq<byte>, c2: seq<byte>, at: nat, p: seq<byte>, write: bool, erase: bool,
                      err: int)
    requires TrueTo(c0, at, p, write, erase)
    requires SameOutside(c0, c1, at, at + |p|) && SameOutside(c1, c2, at, at + |p|)
    requires if erase then Filled(c1, at, at + |p|, BLANK) else c1 == c0
    requires forall i :: at <= i < at + |p| && (c1[i] == BLANK || c1[i] == p[i - at]) ==>
               c2[i] == p[i - at] || (err != 0 && c2[i] == c1[i])
    ensures err == 0 ==> c2 == Blit(c0, at, p, 0, |p|)
    ensures !erase ==> forall i :: 0 <= i < |c0| && c2[i] != c0[i] ==> c0[i] == BLANK
  {
  }

  lemma LoadedTrue(c: seq<byte>, at: nat, p: seq<byte>)
    requires at + |p| <= |c| && p == c[at..at + |p|]
    ensures TrueTo(c, at, p, false, false)
  {
  }

  lemma SamePage(c: seq<byte>, at: nat, p: seq<byte>, erase: bool)
    requires TrueTo(c, at, p, false, erase)
    ensures c == Blit(c, at, p, 0, |p|)
  {
  }

  /** What assigning a byte does to a page being edited. */
  ghost predicate Edited(e: VEeprom, before: seq<byte>, v: byte, index: nat)
    requires e.Valid()
    reads e, e.flash, e.page
  {
    && e.page != null && OffsetIn(index, e.flash.blockSize) < |before|
    && e.page[..] == before[OffsetIn(index, e.flash.blockSize) := v]
  }

  /** EERef's assignment: one byte, written through unless a page is being edited, which is then edited further; it
      stays true to flash if it is the page of that byte. */
  method Assign(e: VEeprom, v: byte, index: nat)
    requires e.Valid() && index < U32
    modifies e, e.page, e.flash
    ensures e.Valid() && e.page == old(e.page) && e.pageAddress == UnitOf(index, e.flash.blockSize)
    ensures |e.flash.contents| == |old(e.flash.contents)|
    ensures e.page != null ==> e.flash.contents == old(e.flash.contents) && Edited(e, old(PageOf(e)), v, index)
    ensures old(e.Synced()) && (e.page != null ==> old(e.pageAddress) == e.pageAddress) ==> e.Synced()
    ensures e.page == null ==>
              SameOutside(old(e.flash.contents), e.flash.contents, e.pageAddress, e.pageAddress + e.flash.blockSize)
    ensures e.page == null && e.flash.reliable && index < |e.flash.contents| ==>
              e.flash.contents == old(e.flash.contents)[index := v]
    ensures index >= |e.flash.contents| ==> e.flash.contents == old(e.flash.contents)
  {
    hide Aligned, OffsetIn;
    var status, left := e.ReadBlock(index);
    UnitBytes(index, e.flash.blockSize);
    if status == ALLOCATED {
      e.WriteByte(v, index);
      var rv := e.Write();
    } else {
      e.WriteByte(v, index);
    }
  }

  ghost function PageOf(e: VEeprom): seq<byte>
    reads e, e.page
  {
    if e.page != null then e.page[..] else []
  }

  /** EERef's update: an assignment, unless flash, not the page, already holds the value; then nothing happens. */
  method Update(e: VEeprom, v: byte, index: nat)
    requires e.Valid() && index < U32
    modifies e, e.page, e.flash
    ensures e.Valid() && e.page == old(e.page) && |e.flash.contents| == |old(e.flash.contents)|
    ensures index < |e.flash.contents| && v == old(e.flash.contents)[index] ==>
              && e.flash.contents == old(e.flash.contents) && PageOf(e) == old(PageOf(e))
              && e.pageAddress == old(e.pageAddress)
              && (old(e.Synced()) ==> e.Synced())
    ensures index < |e.flash.contents| && v != old(e.flash.contents)[index] ==>
              && e.pageAddress == UnitOf(index, e.flash.blockSize)
              && (e.page != null ==> e.flash.contents == old(e.flash.contents) && Edited(e, old(PageOf(e)), v, index))
              && (old(e.Synced()) && (e.page != null ==> old(e.pageAddress) == e.pageAddress) ==> e.Synced())
    ensures e.page == null && e.flash.reliable && index < |e.flash.contents| ==>
              e.flash.contents == old(e.flash.contents)[index := v]
    ensures index >= |e.flash.contents| ==>
              && e.flash.contents == old(e.flash.contents)
              && (e.pageAddress == old(e.pageAddress) || e.pageAddress == UnitOf(index, e.flash.blockSize))
              && (e.page != null ==> PageOf(e) == old(PageOf(e)) || Edited(e, old(PageOf(e)), v, index))
  {
    hide Aligned, OffsetIn, UnitOf;
    var current := e.ReadByte(index);
    if v != current {
      Assign(e, v, index);
    }
  }

  /** EEPROM.put: any object, over any number of blocks. On a dependable flash exactly those of its bytes change that
      lie in the flash, unless a page was being edited: then nothing is stored. */
  method Put(e: VEeprom, idx: nat, data: seq<byte>)
    requires e.Valid() && idx + |data| < U32
    modifies e, e.flash
    ensures e.Valid() && e.page == old(e.page) && |e.flash.contents| == |old(e.flash.contents)|
    ensures e.page != null ==>
              e.flash.contents == old(e.flash.contents) && e.pageAddress == UnitOf(idx, e.flash.blockSize)
    ensures e.page == null && e.flash.reliable ==>
              forall i :: 0 <= i < |e.flash.contents| ==>
                e.flash.contents[i] == if idx <= i < idx + |data| then data[i - idx] else old(e.flash.contents)[i]
    ensures SameOutside(old(e.flash.contents), e.flash.contents,
                        UnitOf(idx, e.flash.blockSize), UnitOf(idx + |data|, e.flash.blockSize) + e.flash.blockSize)
  {
    hide Aligned, OffsetIn, UnitOf, Clipped, Blit, SameOutside;
    var finished := false;
    var i: nat, ptr: nat, total: nat := idx, 0, |data|;
    ghost var image, m := e.flash.contents, e.flash.blockSize;
    ghost var lo, hi := UnitOf(idx, m), UnitOf(idx + |data|, m) + m;
    SameItself(image, lo, hi);
    ClippedNone(image, idx, data);
    // Only the first round can find a page being edited, and ends the loop.
    if e.page != null {
      var status, left := e.ReadBlock(idx);
      return;
    }
    while !finished
      invariant e.Valid() && e.page == null && |e.flash.contents| == |image|
      invariant ptr + total == |data| && i == idx + ptr
      invariant e.flash.reliable ==> Clipped(image, e.flash.contents, idx, data, ptr)
      invariant finished ==> total == 0
      invariant SameOutside(image, e.flash.contents, lo, hi)
      decreases if finished then 0 else 1, total
    {
      ghost var cur, here := e.flash.contents, i;
      var n;
      n := PutBlock(e, i, data, ptr, total);
      UnitMono(idx, i, m);
      UnitMono(i, idx + |data|, m);
      SameOutsideBlock(image, cur, e.flash.contents, lo, hi, UnitOf(i, m), m);
      if e.flash.reliable {
        ClippedMore(image, cur, e.flash.contents, idx, data, ptr, here, n);
      }
      i := i + n;
      ptr := ptr + n;
      total := total - n;
      if total == 0 {
        finished := true;
      }
    }
    if e.flash.reliable {
      ClippedAll(image, e.flash.contents, idx, data);
    }
  }

  /** The first `n` bytes of the object are stored from `idx` on, as far as there is flash. */
  ghost predicate Clipped(image: seq<byte>, cur: seq<byte>, idx: nat, data: seq<byte>, n: nat) {
    && |cur| == |image| && n <= |data|
    && forall i :: 0 <= i < |image| ==> cur[i] == if idx <= i < idx + n then data[i - idx] else image[i]
  }

  lemma ClippedNone(image: seq<byte>, idx: nat, data: seq<byte>)
    ensures Clipped(image, image, idx, data, 0)
  {
  }

  lemma ClippedAll(image: seq<byte>, cur: seq<byte>, idx: nat, data: seq<byte>)
    requires Clipped(image, cur, idx, data, |data|)
    ensures forall i :: 0 <= i < |cur| ==> cur[i] == if idx <= i < idx + |data| then data[i - idx] else image[i]
  {
  }

  lemma ClippedMore(image: seq<byte>, cur: seq<byte>, next: seq<byte>, idx: nat, data: seq<byte>, ptr: nat, here: nat,
                    n: nat)
    requires Clipped(image, cur, idx, data, ptr) && here == idx + ptr && ptr + n <= |data|
    requires if here < |image| then here + n <= |image| && next == Blit(cur, here, data, ptr, n) else next == cur
    ensures Clipped(image, next, idx, data, ptr + n)
  {
  }

  lemma SameOutsideBlock<T>(r: seq<T>, s: seq<T>, t: seq<T>, lo: int, hi: int, at: int, m: int)
    requires SameOutside(r, s, lo, hi) && SameOutside(s, t, at, at + m) && lo <= at && at + m <= hi
    ensures SameOutside(r, t, lo, hi)
  {
  }

  /** One round of put: load a block, update its share of the object, write the block. */
  method PutBlock(e: VEeprom, idx: nat, data: seq<byte>, ptr: nat, total: nat) returns (n: nat)
    requires e.Valid() && e.page == null && ptr + total <= |data| && idx + total < U32
    modifies e, e.flash
    ensures e.Valid() && e.page == null && |e.flash.contents| == |old(e.flash.contents)|
    ensures n <= total && (total > 0 ==> n > 0)
    ensures idx < |e.flash.contents| ==>
              && idx + n <= |e.flash.contents|
              && (e.flash.reliable ==> e.flash.contents == Blit(old(e.flash.contents), idx, data, ptr, n))
    ensures idx >= |e.flash.contents| ==> e.flash.contents == old(e.flash.contents)
    ensures SameOutside(old(e.flash.contents), e.flash.contents, UnitOf(idx, e.flash.blockSize),
                        UnitOf(idx, e.flash.blockSize) + e.flash.blockSize)
  {
    hide Aligned, OffsetIn, UnitOf, Blit, SameOutside;
    ghost var image := e.flash.contents;
    var status, bytesToWrite := e.ReadBlock(idx);
    ghost var pa, unit := e.pageAddress, e.page[..];
    n := Min(bytesToWrite, total);
    EditPage(e, idx, data, ptr, n);
    var rv := e.Write();
    if e.flash.reliable && idx < |image| {
      EditedBlock(image, pa, unit, idx - pa, data, ptr, n, idx);
    }
  }

  /** The part of the object that falls into the loaded block. */
  method EditPage(e: VEeprom, idx: nat, data: seq<byte>, ptr: nat, n: nat)
    requires e.Valid() && e.page != null && ptr + n <= |data| && idx + n < U32
    requires e.pageAddress == UnitOf(idx, e.flash.blockSize) && idx + n <= e.pageAddress + e.flash.blockSize
    requires idx < |e.flash.contents| ==>
               && e.Synced() && e.pageAddress + e.flash.blockSize <= |e.flash.contents|
               && e.page[..] == e.flash.contents[e.pageAddress..e.pageAddress + e.flash.blockSize]
    modifies e, e.page, e.flash
    ensures e.Valid() && e.page == old(e.page)
    ensures e.pageAddress == old(e.pageAddress) <= idx && e.flash.contents == old(e.flash.contents)
    ensures idx < |e.flash.contents| ==>
              && e.Synced() && idx - e.pageAddress + n <= |old(e.page[..])|
              && e.page[..] == Blit(old(e.page[..]), idx - e.pageAddress, data, ptr, n)
  {
    hide Aligned, OffsetIn, UnitOf, Blit, SameOutside;
    ghost var pa, unit, m, image := e.pageAddress, e.page[..], e.flash.blockSize, e.flash.contents;
    UnitBytes(idx, m);
    ghost var off := idx - pa;
    var k: nat := 0;
    while k < n
      invariant k <= n
      invariant e.Valid() && e.page == old(e.page) && e.pageAddress == pa && e.flash.contents == image
      invariant idx < |image| ==> e.Synced() && e.page[..] == Blit(unit, off, data, ptr, k)
    {
      PartOfUnit(idx, k, pa, m);
      ghost var before := e.page[..];
      if idx < |image| {
        EditMore(unit, off, data, ptr, k);
        assert unit[off + k] == image[idx + k];
        assert before[off + k] == image[idx + k];
      }
      Update(e, data[ptr + k], idx + k);
      if idx < |image| {
        assert e.page[..] == before[off + k := data[ptr + k]];
      }
      k := k + 1;
    }
  }

  lemma PartOfUnit(a: nat, k: nat, u: nat, m: nat)
    requires m > 0 && u == UnitOf(a, m) && a + k < u + m
    ensures UnitOf(a + k, m) == u && OffsetIn(a + k, m) == a + k - u
  {
    UnitBytes(a, m);
    UnitUnique(a + k, u, m);
  }

  lemma EditMore<T>(unit: seq<T>, off: nat, src: seq<T>, from: nat, k: nat)
    requires off + k < |unit| && from + k < |src|
    ensures Blit(unit, off, src, from, k)[off + k] == unit[off + k]
    ensures Blit(unit, off, src, from, k)[off + k := src[from + k]] == Blit(unit, off, src, from, k + 1)
  {
  }

  /** Writing back a block that was loaded and edited edits the array. */
  lemma EditedBlock<T>(image: seq<T>, at: nat, unit: seq<T>, off: nat, src: seq<T>, from: nat, n: nat, here: nat)
    requires at + |unit| <= |image| && off + n <= |unit| && from + n <= |src| && here == at + off
    requires unit == image[at..at + |unit|]
    ensures Blit(image, at, Blit(unit, off, src, from, n), 0, |unit|) == Blit(image, here, src, from, n)
  {
  }

  /**
   * The protocol's condition is exact: if a byte is edited and a byte of another block is then asked for before the
   * page is written, the edit is lost, unless it changed nothing. If it changed a byte that was not blank, the edited
   * copy of the first block also takes the place of the other one.
   */
  method MisplacedPage(e: VEeprom, a: nat, v: byte, b: nat)
    requires e.Valid() && e.page == null && e.flash.reliable && a < |e.flash.contents| && b < |e.flash.contents|
    modifies e, e.flash
    ensures e.flash.contents == old(e.flash.contents)[a := v] <==>
              UnitOf(a, e.flash.blockSize) == UnitOf(b, e.flash.blockSize) || old(e.flash.contents)[a] == v
    ensures old(e.flash.contents)[a] != BLANK && old(e.flash.contents)[a] != v ==>
              var m := e.flash.blockSize;
              var edited := old(e.flash.contents)[a := v];
              && |edited| == |e.flash.contents| && UnitOf(a, m) + m <= |edited| && UnitOf(b, m) + m <= |edited|
              && e.flash.contents == Blit(old(e.flash.contents), UnitOf(b, m), edited, UnitOf(a, m), m)
  {
    hide Blit, Aligned, OffsetIn, UnitOf, SameOutside, TrueTo, VEeprom.Synced;
    ghost var m, image := e.flash.blockSize, e.flash.contents;
    EditByte(e, a, v);
    ghost var page, write, erase := e.page[..], e.writePage, e.erasePage;
    WriteElsewhere(e, b);
    Misplaced(image, e.flash.contents, page, a, v, b, m, write, erase);
  }

  /** What the two contracts amount to. */
  lemma Misplaced(c: seq<byte>, c': seq<byte>, page: seq<byte>, a: nat, v: byte, b: nat, m: nat, write: bool,
                  erase: bool)
    requires 0 < m == |page| && a < |c| && UnitOf(a, m) + m <= |c| && UnitOf(b, m) + m <= |c|
    requires forall k :: 0 <= k < m ==> page[k] == c[a := v][UnitOf(a, m) + k]
    requires (write <==> c[a] != v) && (erase <==> c[a] != BLANK) && (!write ==> c' == c)
    requires SameOutside(c, c', UnitOf(b, m), UnitOf(b, m) + m)
    requires (write && erase) || UnitOf(a, m) == UnitOf(b, m) ==> c' == Blit(c, UnitOf(b, m), page, 0, m)
    ensures c' == c[a := v] <==> UnitOf(a, m) == UnitOf(b, m) || c[a] == v
    ensures erase && write ==> c' == Blit(c, UnitOf(b, m), c[a := v], UnitOf(a, m), m)
  {
    hide Blit, UnitOf, SameOutside;
    if !write {
      assert c[a := v] == c;
    } else {
      if erase || UnitOf(a, m) == UnitOf(b, m) {
        MovedPage(c, page, UnitOf(a, m), UnitOf(b, m), m, c[a := v]);
      }
      if UnitOf(a, m) == UnitOf(b, m) {
        OwnPage(c, UnitOf(a, m), m, a, v);
      } else {
        EditLost(c, c', a, b, m);
      }
    }
  }

  /** A block of the edited image, put where it belongs. */
  lemma OwnPage(image: seq<byte>, lo: nat, m: nat, a: nat, v: byte)
    requires lo <= a < lo + m <= |image|
    ensures Blit(image, lo, image[a := v], lo, m) == image[a := v]
  {
  }

  /** A write confined to the block of `b` does not reach a byte of another block. */
  lemma EditLost(c: seq<byte>, c': seq<byte>, a: nat, b: nat, m: nat)
    requires 0 < m && a < |c| && UnitOf(a, m) != UnitOf(b, m)
    requires SameOutside(c, c', UnitOf(b, m), UnitOf(b, m) + m)
    ensures a < |c'| && c'[a] == c[a]
  {
    hide UnitOf;
    if UnitOf(b, m) <= a < UnitOf(b, m) + m {
      UnitUnique(a, UnitOf(b, m), m);
    }
  }

  method EditByte(e: VEeprom, a: nat, v: byte)
    requires e.Valid() && e.page == null && a < |e.flash.contents|
    modifies e
    ensures e.Valid() && e.page != null && fresh(e.page) && e.Synced()
    ensures (e.writePage <==> e.flash.contents[a] != v) && (e.erasePage <==> e.flash.contents[a] != BLANK)
    ensures e.pageAddress == UnitOf(a, e.flash.blockSize)
    ensures var s := UnitOf(a, e.flash.blockSize);
            && s <= a < s + e.flash.blockSize <= |e.flash.contents|
            && forall k :: 0 <= k < e.page.Length ==> e.page[k] == e.flash.contents[a := v][s + k]
  {
    hide Aligned, OffsetIn, UnitOf;
    UnitBytes(a, e.flash.blockSize);
    var status, left := e.ReadBlock(a);
    e.WriteByte(v, a);
  }

  method WriteElsewhere(e: VEeprom, b: nat)
    requires e.Valid() && e.page != null && e.flash.reliable && b < |e.flash.contents|
    modifies e, e.flash
    ensures var s := UnitOf(b, e.flash.blockSize);
            && s + e.flash.blockSize <= |old(e.flash.contents)| && e.flash.blockSize == |old(e.page[..])|
            && SameOutside(old(e.flash.contents), e.flash.contents, s, s + e.flash.blockSize)
            && (old((e.writePage && e.erasePage) || (e.Synced() && e.pageAddress == UnitOf(b, e.flash.blockSize))) ==>
                  e.flash.contents == Blit(old(e.flash.contents), s, old(e.page[..]), 0, e.flash.blockSize))
    ensures !old(e.writePage) ==> e.flash.contents == old(e.flash.contents)
  {
    UnitInside(b, e.flash.blockSize, |e.flash.contents|);
    hide Aligned, OffsetIn, UnitOf, Blit, SameOutside;
    var status, left := e.ReadBlock(b);
    var rv := e.Write();
  }

  lemma MovedPage<T>(image: seq<T>, page: seq<T>, from: nat, to: nat, m: nat, edited: seq<T>)
    requires |edited| == |image| && from + m <= |image| && to + m <= |image| && |page| == m
    requires forall k :: 0 <= k < m ==> page[k] == edited[from + k]
    ensures Blit(image, to, page, 0, m) == Blit(image, to, edited, from, m)
  {
  }
}
