/**
 * ChainingBlockDevice: several devices presented as one. A child is a window on a device; a plain
 * device is the window that covers all of it, and several windows may share a device.
 */
module ChainingBlockDevices {
  import opened Alignment
  import opened Bytes
  import opened BlockDevices
  import opened SlicingBlockDevices
  import opened Concatenation

  /** How init folds the block sizes of the children, which are positive, into one. */
  function FoldSize(sizes: seq<nat>): (r: nat)
    ensures |sizes| > 0 ==> r in sizes
  {
    if |sizes| == 0 then 0
    else if |sizes| == 1 then sizes[0]
    else
      var r := FoldSize(sizes[..|sizes| - 1]);
      var x := sizes[|sizes| - 1];
      if r == 0 || (x >= r && x % r == 0) then x else r
  }

  /** How init folds the erase values: -1 stands for "unknown". */
  function FoldValue(values: seq<int>): (r: int) {
    if |values| == 0 then -1
    else if |values| == 1 || values[|values| - 1] == FoldValue(values[..|values| - 1]) then values[|values| - 1]
    else -1
  }

  ghost predicate DividesAll(sizes: seq<nat>, m: nat)
    requires forall i :: 0 <= i < |sizes| ==> sizes[i] > 0
  {
    forall i :: 0 <= i < |sizes| ==> m % sizes[i] == 0
  }

  lemma DividesAllMeans(sizes: seq<nat>, m: nat)
    requires forall i :: 0 <= i < |sizes| ==> sizes[i] > 0
    ensures DividesAll(sizes, m) <==> forall k :: 0 <= k < |sizes| ==> m % sizes[k] == 0
  {
  }

  /** Once the fold has met a common multiple of all sizes it holds that size for good. */
  lemma {:induction false} FoldStays(sizes: seq<nat>, i: nat)
    requires forall k :: 0 <= k < |sizes| ==> sizes[k] > 0
    requires i < |sizes| && DividesAll(sizes, sizes[i])
    ensures FoldSize(sizes) == sizes[i]
  {
    var n := |sizes| - 1;
    if n > 0 {
      var front := sizes[..n];
      var r, x := FoldSize(front), sizes[n];
      if i < n {
        FoldStays(front, i);
        if x % r == 0 && x >= r {
          DivisorNotAbove(x, r);
        }
      } else {
        var k :| 0 <= k < |front| && front[k] == r;
        assert sizes[k] == r;
        DivisorNotAbove(r, x);
      }
    }
  }

  /** One more child replaces the folded size exactly if its own is a multiple of it. */
  lemma FoldedSizeGrows(sizes: seq<nat>, x: nat)
    requires |sizes| > 0 && x > 0 && forall k :: 0 <= k < |sizes| ==> sizes[k] > 0
    ensures FoldSize(sizes) > 0 && FoldSize([x]) == x
    ensures FoldSize(sizes + [x]) == if x % FoldSize(sizes) == 0 then x else FoldSize(sizes)
  {
    assert (sizes + [x])[..|sizes|] == sizes;
    var k :| 0 <= k < |sizes| && sizes[k] == FoldSize(sizes);
    if x % FoldSize(sizes) == 0 {
      DivisorNotAbove(FoldSize(sizes), x);
    }
  }

  lemma DivisorNotAbove(d: nat, m: nat)
    requires 0 < d && 0 < m && m % d == 0
    ensures d <= m
  {
    if m < d {
      DivUnique(m, d, 0, m);
    }
  }

  /** The asserts in init only log; the folded size is a multiple of every child's size exactly when some child's
      size is. */
  lemma FoldedSizeFits(sizes: seq<nat>)
    requires |sizes| > 0 && forall k :: 0 <= k < |sizes| ==> sizes[k] > 0
    ensures (forall k :: 0 <= k < |sizes| ==> FoldSize(sizes) % sizes[k] == 0) <==>
            (exists i :: 0 <= i < |sizes| && forall k :: 0 <= k < |sizes| ==> sizes[i] % sizes[k] == 0)
  {
    hide FoldSize, DividesAll;
    var r := FoldSize(sizes);
    DividesAllMeans(sizes, r);
    if DividesAll(sizes, r) {
      var i :| 0 <= i < |sizes| && sizes[i] == r;
      assert 0 <= i < |sizes| && forall k :: 0 <= k < |sizes| ==> sizes[i] % sizes[k] == 0;
    }
    if i :| 0 <= i < |sizes| && forall k :: 0 <= k < |sizes| ==> sizes[i] % sizes[k] == 0 {
      DividesAllMeans(sizes, sizes[i]);
      FoldStays(sizes, i);
    }
  }

  /** The condition is needed: read sizes 4 and 6 are folded into 4, which 6 does not divide. */
  lemma FoldedSizeMisfit()
    ensures FoldSize([4, 6]) == 4 && 4 % 6 != 0
  {
    assert [4, 6][..1] == [4];
  }

  /** The folded erase value is the children's common value, and -1 when they have none. */
  lemma {:induction false} FoldedValueShared(values: seq<int>)
    ensures (forall i :: 0 <= i < |values| ==> values[i] == values[0]) && |values| > 0 ==>
              FoldValue(values) == values[0]
    ensures FoldValue(values) != -1 ==> forall i :: 0 <= i < |values| ==> values[i] == FoldValue(values)
  {
    if |values| > 1 {
      var front := values[..|values| - 1];
      FoldedValueShared(front);
      assert forall i :: 0 <= i < |front| ==> front[i] == values[i];
    }
  }

  /** The window's length is a multiple of the chain's block sizes, and those are multiples of the child's. */
  ghost predicate Fits(c: SlicingBlockDevice, r: nat, p: nat, e: nat)
    requires 0 < r && 0 < p && 0 < e && 0 < c.bd.readSize && 0 < c.bd.programSize && 0 < c.bd.eraseSize
    reads c
  {
    && Aligned(r, c.bd.readSize) && Aligned(c.stop - c.start, r)
    && Aligned(p, c.bd.programSize) && Aligned(c.stop - c.start, p)
    && Aligned(e, c.bd.eraseSize) && Aligned(c.stop - c.start, e)
  }

  lemma FitsAligned(c: SlicingBlockDevice, r: nat, p: nat, e: nat, a: nat)
    requires 0 < r && 0 < p && 0 < e && c.Ready() && Fits(c, r, p, e)
    ensures Aligned(|c.View()|, r) && Aligned(|c.View()|, p) && Aligned(|c.View()|, e)
    ensures Aligned(a, r) ==> Aligned(a, c.bd.readSize)
    ensures Aligned(a, p) ==> Aligned(a, c.bd.programSize)
    ensures Aligned(a, e) ==> Aligned(a, c.bd.eraseSize)
  {
    if a % r == 0 {
      DividesTrans(c.bd.readSize, r, a);
    }
    if a % p == 0 {
      DividesTrans(c.bd.programSize, p, a);
    }
    if a % e == 0 {
      DividesTrans(c.bd.eraseSize, e, a);
    }
  }

  ghost predicate AllReady(cs: seq<SlicingBlockDevice>, devices: set<Device>)
    reads cs, devices
  {
    forall i :: 0 <= i < |cs| ==> cs[i].bd in devices && cs[i].Ready()
  }

  ghost function ViewsOf(cs: seq<SlicingBlockDevice>, devices: set<Device>): (vs: seq<seq<byte>>)
    requires AllReady(cs, devices)
    reads cs, devices
    ensures |vs| == |cs| && forall i :: 0 <= i < |cs| ==> vs[i] == cs[i].View()
  {
    if cs == [] then [] else [cs[0].View()] + ViewsOf(cs[1..], devices)
  }

  /** Two windows without a common byte. */
  ghost predicate Separate(c: SlicingBlockDevice, d: SlicingBlockDevice)
    reads c, d
  {
    c.bd != d.bd || c.stop <= d.start || d.stop <= c.start
  }

  /** The alignment test of init. */
  predicate IsAligned(x: nat, alignment: nat)
    requires alignment > 0
  {
    x / alignment * alignment == x
  }

  lemma IsAlignedExact(x: nat, alignment: nat)
    requires alignment > 0
    ensures IsAligned(x, alignment) <==> x % alignment == 0
  {
    MulMod(x / alignment, alignment);
  }

  function ReadSizes(cs: seq<SlicingBlockDevice>): (r: seq<nat>) {
    seq(|cs|, i requires 0 <= i < |cs| => cs[i].bd.readSize)
  }

  function ProgramSizes(cs: seq<SlicingBlockDevice>): (r: seq<nat>) {
    seq(|cs|, i requires 0 <= i < |cs| => cs[i].bd.programSize)
  }

  function EraseSizes(cs: seq<SlicingBlockDevice>): (r: seq<nat>) {
    seq(|cs|, i requires 0 <= i < |cs| => cs[i].bd.eraseSize)
  }

  function EraseValues(cs: seq<SlicingBlockDevice>): (r: seq<int>) {
    seq(|cs|, i requires 0 <= i < |cs| => cs[i].bd.eraseValue)
  }

  /** One round of the folding of block sizes. */
  function FoldNext(first: bool, r: nat, x: nat): (r': nat)
    requires first || r > 0
  {
    if first || (x >= r && IsAligned(x, r)) then x else r
  }

  lemma FoldSnoc(sizes: seq<nat>, i: nat)
    requires forall k :: 0 <= k < |sizes| ==> sizes[k] > 0
    requires i < |sizes|
    ensures FoldSize(sizes[..i + 1]) == FoldNext(i == 0, FoldSize(sizes[..i]), sizes[i]) > 0
  {
    var front := sizes[..i + 1];
    assert front[..i] == sizes[..i];
    if i > 0 {
      IsAlignedExact(sizes[i], FoldSize(sizes[..i]));
    }
  }

  lemma FoldValueSnoc(values: seq<int>, i: nat)
    requires i < |values|
    ensures FoldValue(values[..i + 1]) == if i == 0 || values[i] == FoldValue(values[..i]) then values[i] else -1
  {
    assert values[..i + 1][..i] == values[..i];
  }

  /** The four folded values of the first `i` children. */
  predicate Folded(cs: seq<SlicingBlockDevice>, i: nat, r: nat, p: nat, e: nat, v: int)
    requires i <= |cs|
  {
    && r == FoldSize(ReadSizes(cs)[..i])
    && p == FoldSize(ProgramSizes(cs)[..i])
    && e == FoldSize(EraseSizes(cs)[..i])
    && v == FoldValue(EraseValues(cs)[..i])
  }

  predicate Positive(bd: Device) { bd.readSize > 0 && bd.programSize > 0 && bd.eraseSize > 0 }

  lemma FoldedNext(cs: seq<SlicingBlockDevice>, i: nat, r: nat, p: nat, e: nat, v: int, r': nat, p': nat, e': nat,
                   v': int)
    requires i < |cs| && (forall k :: 0 <= k < |cs| ==> Positive(cs[k].bd)) && Folded(cs, i, r, p, e, v)
    ensures i > 0 ==> r > 0 && p > 0 && e > 0
    ensures var bd := cs[i].bd;
            && r' == FoldNext(i == 0, r, bd.readSize) && p' == FoldNext(i == 0, p, bd.programSize)
            && e' == FoldNext(i == 0, e, bd.eraseSize)
            && v' == (if i == 0 || bd.eraseValue == v then bd.eraseValue else -1)
            ==> Folded(cs, i + 1, r', p', e', v')
  {
    FoldSnoc(ReadSizes(cs), i);
    FoldSnoc(ProgramSizes(cs), i);
    FoldSnoc(EraseSizes(cs), i);
    FoldValueSnoc(EraseValues(cs), i);
  }

  lemma FoldedAll(cs: seq<SlicingBlockDevice>, r: nat, p: nat, e: nat, v: int)
    requires (forall k :: 0 <= k < |cs| ==> Positive(cs[k].bd)) && Folded(cs, |cs|, r, p, e, v)
    ensures r == FoldSize(ReadSizes(cs)) && p == FoldSize(ProgramSizes(cs)) && e == FoldSize(EraseSizes(cs))
    ensures v == FoldValue(EraseValues(cs))
  {
    assert ReadSizes(cs)[..|cs|] == ReadSizes(cs) && ProgramSizes(cs)[..|cs|] == ProgramSizes(cs);
    assert EraseSizes(cs)[..|cs|] == EraseSizes(cs) && EraseValues(cs)[..|cs|] == EraseValues(cs);
  }

  ghost predicate Holds(vs: seq<seq<byte>>, i: nat, addr: int)
    requires i < |vs|
  {
    Offset(vs, i) <= addr < Offset(vs, i + 1)
  }

  ghost predicate BordersOf(vs: seq<seq<byte>>, cs: seq<SlicingBlockDevice>, addr: nat, size: nat)
    requires |vs| == |cs|
  {
    forall i :: 0 <= i < |cs| && cs[i].bd.eraseSize > 0 ==>
      && (Holds(vs, i, addr) ==> Aligned(addr, cs[i].bd.eraseSize))
      && (Holds(vs, i, addr + size - 1) ==> Aligned(addr + size, cs[i].bd.eraseSize))
  }

  /** The borders depend on where the children lie, not on what they hold. */
  lemma BordersSame(vs: seq<seq<byte>>, us: seq<seq<byte>>, cs: seq<SlicingBlockDevice>, addr: nat, size: nat)
    requires |vs| == |us| == |cs| && forall k :: 0 <= k <= |vs| ==> Offset(us, k) == Offset(vs, k)
    requires BordersOf(vs, cs, addr, size)
    ensures BordersOf(us, cs, addr, size)
  {
    hide Aligned, Offset;
    forall i | 0 <= i < |cs| && cs[i].bd.eraseSize > 0
      ensures Holds(us, i, addr) ==> Aligned(addr, cs[i].bd.eraseSize)
      ensures Holds(us, i, addr + size - 1) ==> Aligned(addr + size, cs[i].bd.eraseSize)
    {
      assert Holds(us, i, addr) == Holds(vs, i, addr) && Holds(us, i, addr + size - 1) == Holds(vs, i, addr + size - 1);
    }
  }

  /** The borders no longer depend on the device's size, and pass the check of init. */
  ghost predicate Resolved(c: SlicingBlockDevice)
    reads c, c.bd
  {
    && !c.startFromEnd && !c.stopFromEnd && c.bd.Valid() && c.start < U64
    && Aligned(c.start, c.bd.eraseSize) && Aligned(c.stop, c.bd.eraseSize) && c.stop <= |c.bd.contents|
  }

  ghost predicate OpenAt(bd: Device, first: nat, last: nat)
    reads bd
  {
    bd.Valid() && Aligned(first, bd.eraseSize) && Aligned(last, bd.eraseSize) && last <= |bd.contents|
  }

  lemma {:induction false} SumIsLength(vs: seq<seq<byte>>, sizes: seq<nat>)
    requires |vs| == |sizes| && forall k :: 0 <= k < |vs| ==> sizes[k] == |vs[k]|
    ensures Sum(sizes) == |Flatten(vs)|
  {
    FlattenLength(vs);
    SumIsOffset(vs, sizes, |vs|);
  }

  lemma {:induction false} SumIsOffset(vs: seq<seq<byte>>, sizes: seq<nat>, n: nat)
    requires n <= |vs| == |sizes| && forall k :: 0 <= k < |vs| ==> sizes[k] == |vs[k]|
    ensures Sum(sizes[..n]) == Offset(vs, n)
    ensures Sum(sizes[..|sizes|]) == Sum(sizes)
  {
    assert sizes[..|sizes|] == sizes;
    if n > 0 {
      SumIsOffset(vs, sizes, n - 1);
      assert sizes[..n][..n - 1] == sizes[..n - 1];
    }
  }

  lemma SumStep(sizes: seq<nat>, x: nat, w: nat)
    ensures Sum([]) == 0 == W64(0)
    ensures w == W64(Sum(sizes)) ==> W64(w + x) == W64(Sum(sizes + [x]))
  {
    assert (sizes + [x])[..|sizes|] == sizes;
    AddMod(Sum(sizes), x);
  }

  lemma AddMod(a: nat, b: nat)
    ensures W64(W64(a) + b) == W64(a + b)
  {
    var q, r := (W64(a) + b) / U64, W64(W64(a) + b);
    DivUnique(a + b, U64, a / U64 + q, r);
  }

  function Sum(sizes: seq<nat>): (r: nat) {
    if sizes == [] then 0 else Sum(sizes[..|sizes| - 1]) + sizes[|sizes| - 1]
  }

  class ChainingBlockDevice {
    const bds: seq<SlicingBlockDevice>
    ghost const devices: set<Device>
    var readSize: nat
    var programSize: nat
    var eraseSize: nat
    var size: nat
    var eraseValue: int
    var initRefCount: nat
    var isInitialized: bool

    /** Children are usable and no byte belongs to two of them. */
    ghost predicate Children()
      reads bds, devices
    {
      && AllReady(bds, devices)
      && (forall i, j :: 0 <= i < j < |bds| ==> Separate(bds[i], bds[j]))
    }

    ghost function Views(): (vs: seq<seq<byte>>)
      requires Children()
      reads bds, devices
      ensures |vs| == |bds| && forall i :: 0 <= i < |bds| ==> vs[i] == bds[i].View()
    {
      ViewsOf(bds, devices)
    }

    /** The array presented to callers. */
    ghost function Image(): (v: seq<byte>)
      requires Children()
      reads bds, devices
    {
      Flatten(Views())
    }

    /** Starts inside the chain and ends past 2^64. */
    ghost predicate WrapsInside(addr: nat, size: nat)
      requires Children()
      reads bds, devices
    {
      addr < |Image()| && !NoWrap(addr, size)
    }

    /** After init: the folded sizes are multiples of the children's, and the children's lengths of the folded sizes. */
    ghost predicate Valid()
      reads this, bds, devices
    {
      && Children()
      && |Image()| < U64
      && (isInitialized ==>
            && 0 < readSize && 0 < programSize && 0 < eraseSize
            && size == |Image()|
            && (eraseValue >= 0 ==> forall i :: 0 <= i < |bds| ==> bds[i].bd.eraseValue == eraseValue)
            && (forall i :: 0 <= i < |bds| ==> Fits(bds[i], readSize, programSize, eraseSize)))
    }

    constructor (bds: seq<SlicingBlockDevice>)
      ensures this.bds == bds && !isInitialized && initRefCount == 0
      ensures devices == set c | c in bds :: c.bd
    {
      this.bds := bds;
      this.devices := set c | c in bds :: c.bd;
      readSize, programSize, eraseSize, size := 0, 0, 0, 0;
      eraseValue, initRefCount, isInitialized := -1, 0, false;
    }

    /** Children that init can be asked to open: their borders may still be counted from the end. */
    ghost predicate Prepared()
      reads bds, devices
    {
      forall i :: 0 <= i < |bds| ==>
        bds[i].bd in devices && bds[i].bd.Valid() && bds[i].start < U64 && bds[i].stop < U64
    }

    /**
     * Initializes every child and asks it for its sizes. A failure resets the reference count, so that a retry starts
     * afresh. After a success the borders are resolved, and the children are usable exactly if theirs are in order.
     */
    method Init() returns (err: int)
      requires Prepared() && initRefCount < U32 - 1
      modifies this, bds
      ensures Prepared()
      ensures old(initRefCount) != 0 ==>
                && err == 0 && initRefCount == old(initRefCount) + 1
                && unchanged(this`readSize, this`programSize, this`eraseSize, this`size, this`eraseValue)
                && unchanged(this`isInitialized, bds)
      ensures old(initRefCount) == 0 && err == 0 ==>
                && isInitialized && initRefCount == 1
                && readSize == FoldSize(ReadSizes(bds))
                && programSize == FoldSize(ProgramSizes(bds))
                && eraseSize == FoldSize(EraseSizes(bds))
                && eraseValue == FoldValue(EraseValues(bds))
                && (forall i :: 0 <= i < |bds| ==> Resolved(bds[i]))
                && (AllReady(bds, devices) <==> forall i :: 0 <= i < |bds| ==> bds[i].start <= bds[i].stop)
                && (Children() && |Image()| < U64 ==> size == |Image()|)
      ensures forall i :: 0 <= i < |bds| ==>
                bds[i].First() == old(bds[i].First()) && bds[i].Last() == old(bds[i].Last())
      ensures old(initRefCount) == 0 && err != 0 ==> !isInitialized && initRefCount == 0
      ensures Reliable() && old(initRefCount) == 0 ==> (err == 0 <==> old(AllOpen()))
    {
      hide Aligned, Flatten, ViewsOf, Separate, FoldSize, FoldValue, AllReady, Children, ReadSizes, ProgramSizes,
           EraseSizes, EraseValues, Prepared, AllOpen, Resolved, W64, Opening, OpenAt, Folded, Sum,
           SlicingBlockDevice.First, SlicingBlockDevice.Last;
      initRefCount := initRefCount + 1;
      if initRefCount != 1 {
        return BD_ERROR_OK;
      }
      ghost var firsts, lasts := TakeBorders();
      OpeningFacts(0, [], firsts, lasts);
      ghost var sizes;
      err, sizes := InitChildren(firsts, lasts);
      OpeningFacts(|sizes|, sizes, firsts, lasts);
      if err != 0 {
        isInitialized := false;
        initRefCount := 0;
        return err;
      }
      isInitialized := true;
      FoldedAll(bds, readSize, programSize, eraseSize, eraseValue);
      OpenedAll(sizes, firsts, lasts);
    }

    ghost predicate AllOpen()
      requires Prepared()
      reads bds, devices
    {
      forall i :: 0 <= i < |bds| ==> bds[i].Opens()
    }

    /** The loop of init: opens the children from the first to the first that fails, and folds their sizes. */
    method InitChildren(ghost firsts: seq<nat>, ghost lasts: seq<nat>) returns (err: int, ghost sizes: seq<nat>)
      requires Opening(0, [], firsts, lasts)
      modifies this`readSize, this`programSize, this`eraseSize, this`size, this`eraseValue, bds
      ensures Opening(|sizes|, sizes, firsts, lasts) && |firsts| == |lasts| == |bds| && |sizes| <= |bds|
      ensures err == 0 <==> |sizes| == |bds|
      ensures err == 0 ==> Folded(bds, |bds|, readSize, programSize, eraseSize, eraseValue) && size == W64(Sum(sizes))
      ensures Reliable() ==> forall k :: 0 <= k < |sizes| ==> OpenAt(bds[k].bd, firsts[k], lasts[k])
      ensures Reliable() && err != 0 ==> !OpenAt(bds[|sizes|].bd, firsts[|sizes|], lasts[|sizes|])
    {
      hide Aligned, FoldNext, IsAligned, Folded, W64, Opening, OpenAt, Resolved, Sum, Prepared, SlicingBlockDevice.Size;
      OpeningFacts(0, [], firsts, lasts);
      readSize, programSize, eraseSize, size, eraseValue := 0, 0, 0, 0, -1;
      sizes := [];
      SumStep([], 0, 0);
      var i: nat := 0;
      while i < |bds|
        invariant i == |sizes| <= |bds|
        invariant Opening(i, sizes, firsts, lasts)
        invariant Reliable() ==> forall k :: 0 <= k < i ==> OpenAt(bds[k].bd, firsts[k], lasts[k])
        invariant Folded(bds, i, readSize, programSize, eraseSize, eraseValue) && size == W64(Sum(sizes))
      {
        err := InitChild(i, sizes, firsts, lasts);
        if err != 0 {
          return;
        }
        FoldChild(i, sizes);
        sizes := sizes + [bds[i].Size()];
        i := i + 1;
      }
      return BD_ERROR_OK, sizes;
    }

    /** Takes child `i` into account: the middle of init's loop. */
    method FoldChild(i: nat, ghost sizes: seq<nat>)
      requires i < |bds| && (forall k :: 0 <= k < |bds| ==> Positive(bds[k].bd))
      requires Folded(bds, i, readSize, programSize, eraseSize, eraseValue) && size == W64(Sum(sizes))
      modifies this`readSize, this`programSize, this`eraseSize, this`eraseValue, this`size
      ensures Folded(bds, i + 1, readSize, programSize, eraseSize, eraseValue)
      ensures size == W64(Sum(sizes + [bds[i].Size()]))
    {
      hide IsAligned, Aligned, W64, Folded, Sum, FoldSize, FoldValue;
      ghost var r, p, e, v := readSize, programSize, eraseSize, eraseValue;
      FoldedNext(bds, i, r, p, e, v, r, p, e, v);
      var read := bds[i].bd.readSize;
      if i == 0 || (read >= readSize && IsAligned(read, readSize)) {
        readSize := read;
      }
      var program := bds[i].bd.programSize;
      if i == 0 || (program >= programSize && IsAligned(program, programSize)) {
        programSize := program;
      }
      var erase := bds[i].bd.eraseSize;
      if i == 0 || (erase >= eraseSize && IsAligned(erase, eraseSize)) {
        eraseSize := erase;
      }
      var value := bds[i].bd.eraseValue;
      if i == 0 || value == eraseValue {
        eraseValue := value;
      } else {
        eraseValue := -1;
      }
      SumStep(sizes, bds[i].Size(), size);
      size := W64(size + bds[i].Size());
      FoldedNext(bds, i, r, p, e, v, readSize, programSize, eraseSize, eraseValue);
    }

    lemma TakeBorders() returns (firsts: seq<nat>, lasts: seq<nat>)
      requires Prepared()
      ensures Opening(0, [], firsts, lasts)
      ensures AllOpen() <==> forall k :: 0 <= k < |bds| ==> OpenAt(bds[k].bd, firsts[k], lasts[k])
    {
      hide Aligned, W64, SlicingBlockDevice.First, SlicingBlockDevice.Last;
      firsts := seq(|bds|, k requires 0 <= k < |bds| && bds[k].bd in devices reads bds, devices => bds[k].First());
      lasts := seq(|bds|, k requires 0 <= k < |bds| && bds[k].bd in devices reads bds, devices => bds[k].Last());
      assert forall k :: 0 <= k < |bds| ==> (bds[k].Opens() <==> OpenAt(bds[k].bd, firsts[k], lasts[k]));
    }

    lemma OpeningFacts(i: nat, sizes: seq<nat>, firsts: seq<nat>, lasts: seq<nat>)
      requires Opening(i, sizes, firsts, lasts)
      ensures Prepared() && |firsts| == |lasts| == |bds|
      ensures forall k :: 0 <= k < |bds| ==> Positive(bds[k].bd)
      ensures i == 0 ==> Folded(bds, 0, 0, 0, 0, -1)
      ensures forall k :: 0 <= k < |bds| ==> bds[k].First() == firsts[k] && bds[k].Last() == lasts[k]
    {
    }

    lemma OpenedAll(sizes: seq<nat>, firsts: seq<nat>, lasts: seq<nat>)
      requires Opening(|bds|, sizes, firsts, lasts)
      ensures forall k :: 0 <= k < |bds| ==> Resolved(bds[k])
      ensures AllReady(bds, devices) <==> forall i :: 0 <= i < |bds| ==> bds[i].start <= bds[i].stop
      ensures Children() && |Image()| < U64 ==> W64(Sum(sizes)) == |Image()|
    {
      hide Aligned, Separate, Flatten, ViewsOf, W64;
      assert AllReady(bds, devices) <==> forall i :: 0 <= i < |bds| ==> bds[i].start <= bds[i].stop by {
        hide SlicingBlockDevice.First, SlicingBlockDevice.Last;
      }
      if Children() {
        SumIsLength(Views(), sizes);
      }
    }

    /** The first `i` children are open, with the sizes given, and all have the borders given. */
    ghost predicate Opening(i: nat, sizes: seq<nat>, firsts: seq<nat>, lasts: seq<nat>)
      reads bds, devices
    {
      && Prepared() && |firsts| == |lasts| == |bds| && i == |sizes| <= |bds|
      && (forall k :: 0 <= k < |bds| ==> bds[k].First() == firsts[k] && bds[k].Last() == lasts[k])
      && (forall k :: 0 <= k < i ==> Resolved(bds[k]) && sizes[k] == bds[k].Size())
    }

    /** The first step of a round. */
    method InitChild(i: nat, ghost sizes: seq<nat>, ghost firsts: seq<nat>, ghost lasts: seq<nat>) returns (err: int)
      requires i < |bds| && Opening(i, sizes, firsts, lasts)
      modifies bds
      ensures Opening(i, sizes, firsts, lasts)
      ensures err == 0 ==> Opening(i + 1, sizes + [bds[i].Size()], firsts, lasts)
      ensures bds[i].bd.reliable ==> (err == 0 <==> OpenAt(bds[i].bd, firsts[i], lasts[i]))
    {
      hide Aligned, W64, SlicingBlockDevice.First, SlicingBlockDevice.Last;
      err := bds[i].Init();
    }

    lemma ValidFacts()
      requires Valid()
      ensures Children() && |Image()| < U64
      ensures forall i :: 0 <= i < |bds| ==> bds[i].bd in devices
      ensures isInitialized ==> 0 < readSize && 0 < programSize && 0 < eraseSize && size == |Image()|
    {
    }

    lemma ChildFacts(i: nat)
      requires Valid() && isInitialized && i < |bds|
      ensures Children() && bds[i].bd in devices && bds[i].Ready()
      ensures bds[i].Size() == |bds[i].View()| && |Image()| < U64
      ensures Offset(Views(), i) + |bds[i].View()| == Offset(Views(), i + 1) <= |Image()|
    {
      hide Flatten, ViewsOf, Separate, Aligned, Fits;
      SizeIsLength(bds[i]);
      FlattenLength(Views());
      OffsetMono(Views(), i + 1, |bds|);
    }

    /** No device changes its size. */
    ghost predicate Lengths(lens: map<Device, nat>)
      reads devices
    {
      forall d :: d in devices ==> d in lens && |d.contents| == lens[d]
    }

    lemma TakeLengths() returns (lens: map<Device, nat>)
      ensures Lengths(lens) && forall d :: d in devices ==> d in lens && lens[d] == |d.contents|
    {
      lens := map d | d in devices :: |d.contents|;
    }

    ghost predicate Reliable() {
      forall i :: 0 <= i < |bds| ==> bds[i].bd.reliable
    }

    /**
     * A request that starts beyond the last child and whose end wraps back into the chain passes the check, and is
     * reported as done although nothing was read. One that starts inside and wraps may reach a child as a wrapping
     * request; of it only where the buffer stays is said.
     */
    method Read(b: array<byte>, at: nat, addr: nat, size: nat) returns (err: int)
      requires Valid() && addr < U64 && size < U64 && at + size <= b.Length
      modifies b
      ensures err == 0 ==> isInitialized && IsValidRead(readSize, |Image()|, addr, size)
      ensures err == 0 && NoWrap(addr, size) ==>
                addr + size <= |Image()| && b[..] == Blit(old(b[..]), at, Image(), addr, size)
      ensures err == 0 && !NoWrap(addr, size) && |Image()| <= addr ==> b[..] == old(b[..])
      ensures SameOutside(old(b[..]), b[..], at, at + size)
      ensures Reliable() && !WrapsInside(addr, size) ==>
                (err == 0 <==> isInitialized && IsValidRead(readSize, |Image()|, addr, size))
    {
      hide Blit, W64, Aligned, Separate, Flatten, ViewsOf, Valid, Children, AllReady, Offset;
      ValidFacts();
      OffsetNone(Views());
      if !isInitialized {
        return BD_ERROR_DEVICE_ERROR;
      }
      if !IsValidRead(readSize, this.size, addr, size) {
        return BD_ERROR_DEVICE_ERROR;
      }
      ghost var vs, image, traced := Views(), Image(), !WrapsInside(addr, size);
      var i: nat, p: nat, a: nat, s: nat := 0, at, addr, size;
      ghost var done: nat := 0;
      while i < |bds| && s > 0
        invariant i <= |bds| && done + s == size && p == at + done && a < U64
        invariant Valid() && Views() == vs && Image() == image && |b[..]| == |old(b[..])|
        invariant traced && s > 0 ==>
                    Offset(vs, i) + a == addr + done && Aligned(a, readSize) && Aligned(s, readSize)
        invariant traced ==>
                    if NoWrap(addr, size) then b[..] == Blit(old(b[..]), at, image, addr, done)
                    else done == 0 && b[..] == old(b[..])
        invariant SameOutside(old(b[..]), b[..], at, at + size)
      {
        var n, a';
        n, a', err := ReadRound(i, b, p, a, s, traced);
        if err != 0 {
          return err;
        }
        if traced && n > 0 {
          BlitAppend(old(b[..]), at, image, addr, done, n);
        }
        done := done + n;
        p := p + n;
        a := a';
        s := s - n;
        i := i + 1;
      }
      FlattenLength(vs);
      return 0;
    }

    /** One round of the read loop: the share that falls to child `i`, and the address passed on. */
    method ReadRound(i: nat, b: array<byte>, p: nat, a: nat, s: nat, ghost traced: bool)
      returns (n: nat, a': nat, err: int)
      requires Valid() && isInitialized && i < |bds| && p + s <= b.Length && 0 < s < U64 && a < U64
      requires traced ==>
                 && Aligned(a, readSize) && Aligned(s, readSize)
                 && (Offset(Views(), i) + a + s <= |Image()| || |Image()| <= Offset(Views(), i) + a)
      modifies b
      ensures Valid() && Views() == old(Views()) && Image() == old(Image()) && a' < U64
      ensures n <= s && (traced && |Image()| <= Offset(Views(), i) + a ==> n == 0)
      ensures traced && err == 0 ==>
                && (n > 0 ==> b[..] == Blit(old(b[..]), p, Image(), Offset(Views(), i) + a, n))
                && (n == 0 ==> b[..] == old(b[..]))
                && (s > n ==>
                      && Offset(Views(), i + 1) + a' == Offset(Views(), i) + a + n
                      && Aligned(a', readSize) && Aligned(s - n, readSize))
      ensures SameOutside(old(b[..]), b[..], p, p + s)
      ensures traced && Reliable() ==> err == 0
    {
      hide Blit, Aligned, W64, Flatten, ViewsOf;
      var bdsize := bds[i].Size();
      if traced {
        RoundFacts(this, i, a, s, readSize);
      }
      n, a', err := 0, a, 0;
      if a < bdsize {
        n := s;
        if W64(a + n) > bdsize {
          n := bdsize - a;
        }
        err := bds[i].Read(b, p, a, n);
        a' := W64(a + n);
      }
      a' := W64(a' - bdsize);
    }

    /** Like read: a request from beyond the last child whose end wraps back is reported as done, and stores nothing;
        of one that starts inside and wraps only the sizes are said to stay. */
    method Program(b: array<byte>, at: nat, addr: nat, size: nat) returns (err: int)
      requires Valid() && addr < U64 && size < U64 && at + size <= b.Length
      modifies devices
      ensures Valid() && |Image()| == |old(Image())|
      ensures forall d :: d in devices ==> |d.contents| == |old(d.contents)|
      ensures err == 0 ==> isInitialized && IsValidProgram(programSize, |Image()|, addr, size)
      ensures err == 0 && NoWrap(addr, size) ==>
                addr + size <= |Image()| && Image() == Blit(old(Image()), addr, b[..], at, size)
      ensures !NoWrap(addr, size) && |Image()| <= addr ==> Image() == old(Image())
      ensures NoWrap(addr, size) ==> SameOutside(old(Image()), Image(), addr, addr + size)
      ensures Reliable() && !WrapsInside(addr, size) ==>
                (err == 0 <==> isInitialized && IsValidProgram(programSize, |Image()|, addr, size))
    {
      hide Blit, W64, Aligned, Separate, Flatten, ViewsOf, SameOutside, Valid, Children, AllReady;
      ValidFacts();
      SameItself(Image(), addr, addr + size);
      if !isInitialized {
        return BD_ERROR_DEVICE_ERROR;
      }
      if !IsValidProgram(programSize, this.size, addr, size) {
        return BD_ERROR_DEVICE_ERROR;
      }
      ghost var lens := TakeLengths();
      err := ProgramLoop(b, at, addr, size, lens);
    }

    /** The program loop, once the request has passed the check. */
    method ProgramLoop(b: array<byte>, at: nat, addr: nat, size: nat, ghost lens: map<Device, nat>) returns (err: int)
      requires Valid() && isInitialized && at + size <= b.Length && addr < U64 && size < U64 && Lengths(lens)
      requires addr + size <= |Image()| || !NoWrap(addr, size)
      requires Aligned(addr, programSize) && Aligned(size, programSize)
      modifies devices
      ensures Valid() && |Image()| == |old(Image())|
      ensures Lengths(lens)
      ensures err == 0 && addr + size <= |Image()| ==> Image() == Blit(old(Image()), addr, b[..], at, size)
      ensures |Image()| <= addr && |Image()| < addr + size ==> Image() == old(Image())
      ensures addr + size <= |Image()| ==> SameOutside(old(Image()), Image(), addr, addr + size)
      ensures Reliable() && !old(WrapsInside(addr, size)) ==> err == 0
    {
      hide Blit, Written, W64, Aligned, Separate, Flatten, ViewsOf, SameOutside, Valid, Children, AllReady, Lengths,
           Offset;
      ValidFacts();
      OffsetNone(Views());
      ghost var image, src, end, traced := Image(), b[..], addr + size, !WrapsInside(addr, size);
      if end <= |image| {
        WrittenNone(image, addr, src, at);
      }
      var i: nat, p: nat, a: nat, s: nat := 0, at, addr, size;
      ghost var done: nat := 0;
      while i < |bds| && s > 0
        invariant i <= |bds| && done + s == size && p == at + done && a < U64
        invariant Valid() && Children() && |Image()| == |image| && b[..] == src
        invariant traced && s > 0 ==>
                    Offset(Views(), i) + a == addr + done && Aligned(a, programSize) && Aligned(s, programSize)
        invariant traced ==>
                    if end <= |image| then Written(image, Image(), addr, src, at, done)
                    else done == 0 && Image() == image
        invariant Lengths(lens)
      {
        ghost var cur, here := Image(), Offset(Views(), i) + a;
        var n, a';
        n, a', err := ProgramRound(i, b, p, a, s, traced, here, end, lens);
        if err != 0 {
          if end <= |image| {
            WrittenThenTorn(image, cur, Image(), addr, src, at, done, here, end);
          }
          return err;
        }
        if end <= |image| {
          WrittenMore(image, cur, Image(), addr, src, at, done, here, p, n);
        }
        done := done + n;
        p := p + n;
        a := a';
        s := s - n;
        i := i + 1;
      }
      FlattenLength(Views());
      if end <= |image| {
        WrittenAll(image, Image(), addr, src, at, done);
        BlitOutside(image, addr, src, at, done);
      }
      return 0;
    }

    /** One round of the program loop; `here` and `end` are the start and the end of the request's rest in the chain. */
    method ProgramRound(i: nat, b: array<byte>, p: nat, a: nat, s: nat, ghost traced: bool, ghost here: nat,
                        ghost end: nat, ghost lens: map<Device, nat>)
      returns (n: nat, a': nat, err: int)
      requires Valid() && isInitialized && i < |bds| && p + s <= b.Length && 0 < s < U64 && a < U64 && Lengths(lens)
      requires traced ==>
                 && Aligned(a, programSize) && Aligned(s, programSize)
                 && here == Offset(Views(), i) + a && here + s == end && (end <= |Image()| || |Image()| <= here)
      modifies bds[i].bd
      ensures Valid() && Children() && |Image()| == |old(Image())| && b[..] == old(b[..]) && Lengths(lens)
      ensures n <= s && a' < U64
      ensures traced && |Image()| < end ==> n == 0 && Image() == old(Image())
      ensures traced && err == 0 ==>
                && (end <= |Image()| ==> Image() == Blit(old(Image()), here, b[..], p, n))
                && (s > n ==>
                      && Offset(Views(), i + 1) + a' == here + n
                      && Aligned(a', programSize) && Aligned(s - n, programSize))
      ensures traced && err != 0 ==> SameOutside(old(Image()), Image(), here, end)
      ensures traced && Reliable() ==> err == 0
    {
      hide Blit, Aligned, W64, Flatten, ViewsOf, Separate, SameOutside, Valid, Children, AllReady, Lengths, Fits;
      ValidFacts();
      ChildFacts(i);
      if traced {
        RoundFacts(this, i, a, s, programSize);
      }
      var bdsize := bds[i].Size();
      n, a', err := 0, a, 0;
      BlitNone(Image(), here, b[..], p);
      if a < bdsize {
        n := s;
        if W64(a + n) > bdsize {
          n := bdsize - a;
        }
        err := ProgramChild(i, b, p, a, n, traced, here, lens);
        if traced && err != 0 {
          SameWider(old(Image()), Image(), here, here + n, end);
        }
        a' := W64(a + n);
      }
      a' := W64(a' - bdsize);
    }

    /** The share of one child. */
    method ProgramChild(i: nat, b: array<byte>, p: nat, a: nat, n: nat, ghost traced: bool, ghost here: nat,
                        ghost lens: map<Device, nat>) returns (err: int)
      requires Valid() && isInitialized && i < |bds| && p + n <= b.Length && a < U64 && n < U64 && Lengths(lens)
      requires traced ==>
                 && a + n <= |bds[i].View()| && here == Offset(Views(), i) + a
                 && Aligned(a, bds[i].bd.programSize) && Aligned(n, bds[i].bd.programSize)
      modifies bds[i].bd
      ensures Valid() && Children() && |Image()| == |old(Image())| && b[..] == old(b[..]) && Lengths(lens)
      ensures traced ==>
                && (forall k :: 0 <= k <= |bds| ==> Offset(Views(), k) == old(Offset(Views(), k)))
                && here + n <= |Image()|
                && (err == 0 ==> Image() == Blit(old(Image()), here, b[..], p, n))
                && (err != 0 ==> SameOutside(old(Image()), Image(), here, here + n))
                && (Reliable() ==> err == 0)
    {
      hide Blit, Aligned, W64, Flatten, ViewsOf, Separate, SameOutside, Fits;
      ghost var vs := Views();
      ghost var before := TakeSnapshot(this);
      FlattenAt(vs, i);
      err := bds[i].Program(b, p, a, n);
      if traced {
        OneViewChanged(this, i, before, vs);
        if err == 0 {
          FlattenBlit(vs, i, a, b[..], p, n);
        } else {
          FlattenSame(vs, i, bds[i].View(), a, a + n);
        }
      } else {
        SizesKept(this, before, vs);
      }
    }

    /** The erase size at an address; zero exactly for addresses past the end, where the source then divides by it. */
    method GetEraseSize(addr: nat) returns (r: nat)
      requires Valid() && isInitialized && addr < U64
      ensures r == 0 <==> addr >= |Image()|
      ensures r != 0 ==> exists i :: 0 <= i < |bds| && At(i, addr) && r == bds[i].bd.eraseSize
    {
      hide Blit, Aligned, Flatten, ViewsOf, Separate;
      var bdStartAddr: nat := 0;
      var i: nat := 0;
      while i < |bds|
        invariant 0 <= i <= |bds| && bdStartAddr == Offset(Views(), i) <= addr
      {
        SizeIsLength(bds[i]);
        var bdsize := bds[i].Size();
        if addr < bdStartAddr + bdsize {
          r := bds[i].bd.eraseSize;
          FlattenLength(Views());
          OffsetMono(Views(), i + 1, |bds|);
          assert At(i, addr);
          return r;
        }
        bdStartAddr := bdStartAddr + bdsize;
        i := i + 1;
      }
      FlattenLength(Views());
      return 0;
    }

    /** Chain address `addr` lies in child `i`. */
    ghost predicate At(i: nat, addr: nat)
      requires Children() && i < |bds|
      reads bds, devices
    {
      Holds(Views(), i, addr)
    }

    /** The request starts and ends on borders of the erase units it touches there. */
    ghost predicate EraseBorders(addr: nat, size: nat)
      requires Children()
      reads bds, devices
    {
      BordersOf(Views(), bds, addr, size)
    }

    ghost predicate StartsOnBorder(addr: nat)
      requires Children()
      reads bds, devices
    {
      forall i :: 0 <= i < |bds| && bds[i].bd.eraseSize > 0 && Holds(Views(), i, addr) ==>
        Aligned(addr, bds[i].bd.eraseSize)
    }

    /** The check looks up an erase size beyond the last child, and divides by the zero it gets. */
    ghost predicate DividesByZero(addr: nat, size: nat)
      requires Children()
      reads bds, devices
    {
      |Image()| <= addr || (StartsOnBorder(addr) && |Image()| <= W64(addr + size - 1))
    }

    /**
     * Erases across children, each with its own erase unit. An erase that starts beyond the last child, or starts well
     * but ends there or is empty at address 0, is undefined: nothing is said about it. One that starts inside and wraps
     * passes wrapping requests on to children; of those only the sizes are said to stay.
     */
    method Erase(addr: nat, size: nat) returns (err: int, ghost undefined: bool)
      requires Valid() && addr < U64 && size < U64
      modifies devices
      ensures undefined <==> isInitialized && old(DividesByZero(addr, size))
      ensures !undefined ==>
                && Valid() && |Image()| == |old(Image())|
                && (forall d :: d in devices ==> |d.contents| == |old(d.contents)|)
                && (err == 0 ==> isInitialized)
      ensures !undefined && NoWrap(addr, size) ==>
                && (err == 0 ==> addr + size <= |Image()| && old(EraseBorders(addr, size)))
                && (err == 0 && eraseValue >= 0 ==> Filled(Image(), addr, addr + size, eraseValue))
                && SameOutside(old(Image()), Image(), addr, addr + size)
                && (Reliable() && isInitialized && addr + size <= |Image()| && old(EraseBorders(addr, size)) ==>
                      err == 0)
    {
      hide Blit, W64, Aligned, Separate, Flatten, ViewsOf, SameOutside, Filled, Valid, Children, AllReady,
           EraseBorders, At, StartsOnBorder;
      ValidFacts();
      SameItself(Image(), addr, addr + size);
      undefined := false;
      if !isInitialized {
        return BD_ERROR_DEVICE_ERROR, false;
      }
      var first := GetEraseSize(addr);
      if first == 0 {
        return *, true;
      }
      BorderAt(this, addr, size, first);
      if addr % first != 0 {
        return BD_ERROR_DEVICE_ERROR, false;
      }
      var last := GetEraseSize(W64(addr + size - 1));
      if last == 0 {
        return *, true;
      }
      if NoWrap(addr, size) {
        LastByte(addr, size, |Image()|);
        EraseCheck(this, addr, size, first, last);
      }
      if !IsValidErase(first, last, this.size, addr, size) {
        return BD_ERROR_DEVICE_ERROR, false;
      }
      ghost var lens := TakeLengths();
      err := EraseLoop(addr, size, lens);
    }

    /** The erase loop, once the request has passed the check. */
    method EraseLoop(addr: nat, size: nat, ghost lens: map<Device, nat>) returns (err: int)
      requires Valid() && isInitialized && Lengths(lens) && addr < U64 && size < U64
      requires NoWrap(addr, size) ==> addr + size <= |Image()| && EraseBorders(addr, size)
      modifies devices
      ensures Valid() && |Image()| == |old(Image())|
      ensures Lengths(lens)
      ensures NoWrap(addr, size) ==>
                && (err == 0 && eraseValue >= 0 ==> Filled(Image(), addr, addr + size, eraseValue))
                && SameOutside(old(Image()), Image(), addr, addr + size)
                && (Reliable() ==> err == 0)
    {
      hide Blit, W64, Separate, Flatten, ViewsOf, SameOutside, Filled, Valid, Children, AllReady, EraseBorders, Lengths,
           Offset;
      ValidFacts();
      OffsetNone(Views());
      ghost var image, end, v := Image(), addr + size, eraseValue;
      SameItself(image, addr, end);
      if NoWrap(addr, size) {
        FilledNone(image, addr, v);
      }
      var i: nat, a: nat, s: nat := 0, addr, size;
      ghost var here: nat := addr;
      while i < |bds| && s > 0
        invariant i <= |bds| && here + s == end && addr <= here && a < U64
        invariant Valid() && Children() && |Image()| == |image|
        invariant NoWrap(addr, size) ==>
                    && EraseBorders(addr, size)
                    && (s > 0 ==> Offset(Views(), i) + a == here && (here == addr || a == 0))
                    && SameOutside(image, Image(), addr, end)
                    && (v >= 0 ==> Filled(Image(), addr, here, v))
        invariant Lengths(lens)
      {
        ghost var cur := Image();
        var n, a';
        n, a', err := EraseRound(i, a, s, addr, size, here, lens);
        ghost var next := here + n;
        if NoWrap(addr, size) {
          SameTrans(image, cur, Image(), addr, end, here, next);
        }
        if err != 0 {
          return err;
        }
        if NoWrap(addr, size) && v >= 0 {
          FilledMore(cur, Image(), addr, here, next, v);
        }
        here := next;
        a := a';
        s := s - n;
        i := i + 1;
      }
      FlattenLength(Views());
      return 0;
    }

    /** One round of the erase loop. */
    method EraseRound(i: nat, a: nat, s: nat, ghost addr: nat, ghost size: nat, ghost here: nat,
                      ghost lens: map<Device, nat>)
      returns (n: nat, a': nat, err: int)
      requires Valid() && isInitialized && i < |bds| && 0 < s <= size < U64 && a < U64 && Lengths(lens)
      requires NoWrap(addr, size) ==>
                 && here == Offset(Views(), i) + a && here + s == addr + size <= |Image()|
                 && EraseBorders(addr, size) && (here == addr || a == 0)
      modifies bds[i].bd
      ensures Valid() && Children() && |Image()| == |old(Image())| && Lengths(lens) && n <= s && a' < U64
      ensures NoWrap(addr, size) ==>
                && EraseBorders(addr, size) && SameOutside(old(Image()), Image(), here, here + n)
                && (err == 0 ==>
                      && (eraseValue >= 0 ==> Filled(Image(), here, here + n, eraseValue))
                      && (s > n ==> Offset(Views(), i + 1) + a' == here + n && (n > 0 || a == 0 ==> a' == 0)))
                && (Reliable() ==> err == 0)
    {
      hide Blit, Aligned, W64, Flatten, ViewsOf, Separate, SameOutside, Filled, Valid, Children, AllReady,
           EraseBorders, Lengths;
      ChildFacts(i);
      var bdsize := bds[i].Size();
      n, a', err := 0, a, 0;
      SameItself(Image(), here, here);
      if NoWrap(addr, size) {
        FilledNone(Image(), here, eraseValue);
      }
      if a < bdsize {
        n := s;
        if W64(a + n) > bdsize {
          n := bdsize - a;
        }
        if NoWrap(addr, size) {
          EraseShare(this, i, a, n, addr, size, here);
        }
        err := EraseChild(i, a, n, addr, size, here, lens);
        a' := W64(a + n);
      }
      a' := W64(a' - bdsize);
    }

    /** The share of one child. */
    method EraseChild(i: nat, a: nat, n: nat, ghost addr: nat, ghost size: nat, ghost here: nat,
                      ghost lens: map<Device, nat>) returns (err: int)
      requires Valid() && isInitialized && i < |bds| && a < U64 && n < U64 && Lengths(lens)
      requires NoWrap(addr, size) ==>
                 && EraseBorders(addr, size) && a + n <= |bds[i].View()| && here == Offset(Views(), i) + a
                 && Aligned(a, bds[i].bd.eraseSize) && Aligned(n, bds[i].bd.eraseSize)
      modifies bds[i].bd
      ensures Valid() && Children() && |Image()| == |old(Image())| && Lengths(lens)
      ensures NoWrap(addr, size) ==>
                && EraseBorders(addr, size)
                && (forall k :: 0 <= k <= |bds| ==> Offset(Views(), k) == old(Offset(Views(), k)))
                && SameOutside(old(Image()), Image(), here, here + n)
                && (err == 0 && eraseValue >= 0 ==> Filled(Image(), here, here + n, eraseValue))
                && (Reliable() ==> err == 0)
    {
      hide Blit, Aligned, W64, Flatten, ViewsOf, Separate, SameOutside, Filled, BordersOf, Fits;
      ghost var vs := Views();
      ghost var before := TakeSnapshot(this);
      FlattenAt(vs, i);
      err := bds[i].Erase(a, n);
      if NoWrap(addr, size) {
        OneViewChanged(this, i, before, vs);
        BordersSame(vs, Views(), bds, addr, size);
        FlattenSame(vs, i, bds[i].View(), a, a + n);
        FlattenAt(Views(), i);
        if err == 0 && eraseValue >= 0 {
          FilledPart(Image(), Offset(vs, i), bds[i].View(), a, a + n, here, eraseValue);
        }
      } else {
        SizesKept(this, before, vs);
      }
    }
  }

  lemma OffsetNone<T>(vs: seq<seq<T>>)
    ensures Offset(vs, 0) == 0
  {
  }

  lemma BlitNone<T>(c: seq<T>, at: nat, src: seq<T>, from: nat)
    requires from <= |src|
    ensures at <= |c| ==> Blit(c, at, src, from, 0) == c
  {
  }

  /** A stretch filled in one child is filled in the concatenation. */
  lemma FilledPart(image: seq<byte>, off: nat, view: seq<byte>, lo: nat, hi: nat, here: nat, v: int)
    requires here == off + lo && off + |view| <= |image| && Filled(view, lo, hi, v)
    requires forall k :: 0 <= k < |view| ==> image[off + k] == view[k]
    ensures Filled(image, here, here + (hi - lo), v)
  {
    forall j | here <= j < here + (hi - lo) ensures image[j] == v {
      assert image[off + (j - off)] == view[j - off];
    }
  }

  /** Offsets of children are multiples of the chain's erase size. */
  lemma {:induction false} OffsetAligned(c: ChainingBlockDevice, i: nat)
    requires c.Valid() && c.isInitialized && i <= |c.bds|
    ensures Aligned(Offset(c.Views(), i), c.eraseSize)
  {
    hide Aligned, Flatten, ViewsOf, Separate;
    ZeroAligned(c.eraseSize);
    if i > 0 {
      OffsetAligned(c, i - 1);
      var d := c.bds[i - 1];
      FitsAligned(d, c.readSize, c.programSize, c.eraseSize, 0);
      AlignedShift(Offset(c.Views(), i - 1), |d.View()|, c.eraseSize);
    }
  }

  /** Alignment relative to a child is alignment in the chain. */
  lemma AlignedInChild(c: ChainingBlockDevice, i: nat, x: nat)
    requires c.Valid() && c.isInitialized && i < |c.bds|
    ensures Aligned(Offset(c.Views(), i) + x, c.bds[i].bd.eraseSize) <==> Aligned(x, c.bds[i].bd.eraseSize)
  {
    hide Aligned, Flatten, ViewsOf;
    OffsetAligned(c, i);
    FitsAligned(c.bds[i], c.readSize, c.programSize, c.eraseSize, Offset(c.Views(), i));
    AlignedShift(Offset(c.Views(), i), x, c.bds[i].bd.eraseSize);
  }

  /** The share of an erase that falls to a child is a valid erase of that child. */
  lemma EraseShare(c: ChainingBlockDevice, i: nat, a: nat, n: nat, addr: nat, size: nat, here: nat)
    requires c.Valid() && c.isInitialized && i < |c.bds| && 0 < size && c.EraseBorders(addr, size)
    requires a < |c.bds[i].View()| && 0 < n && a + n <= |c.bds[i].View()|
    requires here == Offset(c.Views(), i) + a && (here == addr || a == 0)
    requires here + n == addr + size || a + n == |c.bds[i].View()|
    ensures Aligned(a, c.bds[i].bd.eraseSize) && Aligned(n, c.bds[i].bd.eraseSize)
  {
    hide Aligned, Flatten, ViewsOf, Separate;
    var e := c.bds[i].bd.eraseSize;
    ZeroAligned(e);
    if a != 0 {
      assert c.At(i, addr);
      AlignedInChild(c, i, a);
    }
    if a + n == |c.bds[i].View()| {
      FitsAligned(c.bds[i], c.readSize, c.programSize, c.eraseSize, |c.bds[i].View()|);
    } else {
      assert c.At(i, addr + size - 1);
      AlignedInChild(c, i, a + n);
    }
    AlignedShift(a, n, e);
  }

  /** No address lies in two children. */
  lemma HoldsOnce(vs: seq<seq<byte>>, i: nat, j: nat, addr: int)
    requires i < |vs| && j < |vs| && Holds(vs, i, addr) && Holds(vs, j, addr)
    ensures i == j
  {
    if i < j {
      OffsetMono(vs, i + 1, j);
    } else if j < i {
      OffsetMono(vs, j + 1, i);
    }
  }

  /** Only the children at the two ends matter. */
  lemma BordersExactly(vs: seq<seq<byte>>, cs: seq<SlicingBlockDevice>, i: nat, j: nat, addr: nat, size: nat)
    requires |vs| == |cs| && i < |cs| && j < |cs| && forall k :: 0 <= k < |cs| ==> cs[k].bd.eraseSize > 0
    requires Holds(vs, i, addr) && Holds(vs, j, addr + size - 1)
    ensures BordersOf(vs, cs, addr, size) <==>
            Aligned(addr, cs[i].bd.eraseSize) && Aligned(addr + size, cs[j].bd.eraseSize)
  {
    hide Aligned, Holds;
    if Aligned(addr, cs[i].bd.eraseSize) && Aligned(addr + size, cs[j].bd.eraseSize) {
      forall k | 0 <= k < |cs|
        ensures Holds(vs, k, addr) ==> Aligned(addr, cs[k].bd.eraseSize)
        ensures Holds(vs, k, addr + size - 1) ==> Aligned(addr + size, cs[k].bd.eraseSize)
      {
        if Holds(vs, k, addr) {
          HoldsOnce(vs, k, i, addr);
        }
        if Holds(vs, k, addr + size - 1) {
          HoldsOnce(vs, k, j, addr + size - 1);
        }
      }
    }
  }

  /** The first half of the check of erase. */
  lemma BorderAt(c: ChainingBlockDevice, addr: nat, size: nat, first: nat)
    requires c.Valid() && c.isInitialized
    requires exists i :: 0 <= i < |c.bds| && c.At(i, addr) && first == c.bds[i].bd.eraseSize
    ensures first > 0
    ensures c.StartsOnBorder(addr) <==> addr % first == 0
    ensures c.EraseBorders(addr, size) ==> c.StartsOnBorder(addr)
  {
    hide Flatten, ViewsOf, Separate, Holds, Fits;
    var i :| 0 <= i < |c.bds| && c.At(i, addr) && first == c.bds[i].bd.eraseSize;
    assert c.bds[i].Ready();
    forall k | 0 <= k < |c.bds| && Holds(c.Views(), k, addr) ensures k == i {
      HoldsOnce(c.Views(), k, i, addr);
    }
  }

  /** The last byte of the range, as the check computes it. */
  lemma LastByte(addr: nat, size: nat, total: nat)
    requires NoWrap(addr, size) && W64(addr + size - 1) < total < U64
    ensures 0 < addr + size <= total && W64(addr + size - 1) == addr + size - 1
  {
    if addr + size == 0 {
      DivUnique(-1, U64, -1, U64 - 1);
    }
  }

  /** The check of erase, which looks up two erase sizes, is the alignment at both ends. */
  lemma EraseCheck(c: ChainingBlockDevice, addr: nat, size: nat, first: nat, last: nat)
    requires c.Valid() && c.isInitialized && 0 < addr + size <= |c.Image()|
    requires exists i :: 0 <= i < |c.bds| && c.At(i, addr) && first == c.bds[i].bd.eraseSize
    requires exists i :: 0 <= i < |c.bds| && c.At(i, addr + size - 1) && last == c.bds[i].bd.eraseSize
    ensures first > 0 && last > 0
    ensures IsValidErase(first, last, c.size, addr, size) <==> c.EraseBorders(addr, size)
  {
    hide Aligned, Flatten, ViewsOf, Separate, W64, Holds, BordersOf, Fits;
    var i :| 0 <= i < |c.bds| && c.At(i, addr) && first == c.bds[i].bd.eraseSize;
    var j :| 0 <= j < |c.bds| && c.At(j, addr + size - 1) && last == c.bds[j].bd.eraseSize;
    assert forall k :: 0 <= k < |c.bds| ==> c.bds[k].Ready();
    BordersExactly(c.Views(), c.bds, i, j, addr, size);
  }

  /** The state of a valid chain whose devices hold the bytes recorded in `before`, and its children the views `vs`. */
  ghost predicate Snapshot(c: ChainingBlockDevice, before: map<Device, seq<byte>>, vs: seq<seq<byte>>)
    reads c, c.bds
  {
    && c.isInitialized && 0 < c.readSize && 0 < c.programSize && 0 < c.eraseSize
    && |vs| == |c.bds| && c.size == |Flatten(vs)| < U64
    && (c.eraseValue >= 0 ==> forall j :: 0 <= j < |c.bds| ==> c.bds[j].bd.eraseValue == c.eraseValue)
    && (forall j :: 0 <= j < |c.bds| ==> ChildSnapshot(c, c.bds[j], before, vs[j]))
    && (forall i, j :: 0 <= i < j < |c.bds| ==> Separate(c.bds[i], c.bds[j]))
  }

  ghost predicate ChildSnapshot(c: ChainingBlockDevice, d: SlicingBlockDevice, before: map<Device, seq<byte>>,
                                v: seq<byte>)
    requires 0 < c.readSize && 0 < c.programSize && 0 < c.eraseSize
    reads c, d
  {
    && d.bd in c.devices && d.bd in before && d.bd.Shaped(|before[d.bd]|)
    && !d.startFromEnd && !d.stopFromEnd && d.start <= d.stop <= |before[d.bd]|
    && Aligned(d.start, d.bd.eraseSize) && Aligned(d.stop, d.bd.eraseSize)
    && Fits(d, c.readSize, c.programSize, c.eraseSize)
    && v == before[d.bd][d.start..d.stop]
  }

  lemma TakeSnapshot(c: ChainingBlockDevice) returns (before: map<Device, seq<byte>>)
    requires c.Valid() && c.isInitialized
    ensures before.Keys == c.devices && forall d :: d in c.devices ==> before[d] == d.contents
    ensures Snapshot(c, before, c.Views())
  {
    hide Aligned, Flatten, ViewsOf, Separate, Fits;
    before := map d | d in c.devices :: d.contents;
  }

  /** After a call on child `i` that stays inside its window, only that child's view differs. */
  lemma OneViewChanged(c: ChainingBlockDevice, i: nat, before: map<Device, seq<byte>>, vs: seq<seq<byte>>)
    requires Snapshot(c, before, vs) && i < |c.bds| && c.devices <= before.Keys
    requires forall d :: d in c.devices && d != c.bds[i].bd ==> d.contents == before[d]
    requires SameOutside(before[c.bds[i].bd], c.bds[i].bd.contents, c.bds[i].start, c.bds[i].stop)
    ensures c.Valid() && c.Views() == vs[i := c.bds[i].View()]
    ensures |c.Image()| == |Flatten(vs)|
    ensures forall k :: 0 <= k <= |c.bds| ==> Offset(c.Views(), k) == Offset(vs, k)
  {
    hide Blit, Aligned, Flatten, ViewsOf, Offset, Fits;
    var d := c.bds[i];
    forall j | 0 <= j < |c.bds|
      ensures c.bds[j].bd in c.devices && c.bds[j].Ready() && (j != i ==> c.bds[j].View() == vs[j])
    {
      assert ChildSnapshot(c, c.bds[j], before, vs[j]);
      if j != i && c.bds[j].bd == d.bd {
        if i < j {
          assert Separate(c.bds[i], c.bds[j]);
        } else {
          assert Separate(c.bds[j], c.bds[i]);
        }
        DisjointWindows(before[d.bd], d.bd.contents, d.start, d.stop, c.bds[j].start, c.bds[j].stop);
      }
    }
    assert AllReady(c.bds, c.devices);
    var us := c.Views();
    assert us == vs[i := d.View()];
    FlattenUpdate(vs, i, d.View());
    forall k | 0 <= k <= |c.bds| ensures Offset(us, k) == Offset(vs, k) {
      OffsetSame(us, vs, k);
    }
  }

  /** Whatever a call did to the bytes: a chain whose devices keep their sizes stays valid, and as long. */
  lemma SizesKept(c: ChainingBlockDevice, before: map<Device, seq<byte>>, vs: seq<seq<byte>>)
    requires Snapshot(c, before, vs) && c.devices <= before.Keys
    requires forall d :: d in c.devices ==> |d.contents| == |before[d]|
    ensures c.Valid() && |c.Image()| == |Flatten(vs)|
  {
    hide Aligned, Flatten, ViewsOf, Offset, Fits;
    forall j | 0 <= j < |c.bds|
      ensures c.bds[j].bd in c.devices && c.bds[j].Ready() && |c.bds[j].View()| == |vs[j]|
    {
      assert ChildSnapshot(c, c.bds[j], before, vs[j]);
    }
    assert AllReady(c.bds, c.devices);
    FlattenLength(vs);
    FlattenLength(c.Views());
    OffsetSame(c.Views(), vs, |vs|);
  }

  /** One round in terms of the concatenation: the child is asked for an aligned part of itself, and left only at
      its end. */
  lemma RoundFacts(c: ChainingBlockDevice, i: nat, a: nat, s: nat, m: nat)
    requires c.Valid() && c.isInitialized && i < |c.bds| && 0 < s
    requires m == c.readSize || m == c.programSize || m == c.eraseSize
    requires Aligned(a, m) && Aligned(s, m)
    ensures var bdsize := c.bds[i].Size();
            && bdsize == |c.bds[i].View()|
            && Offset(c.Views(), i) + bdsize == Offset(c.Views(), i + 1) <= |c.Image()|
            && (forall k :: 0 <= k < bdsize ==> c.Image()[Offset(c.Views(), i) + k] == c.bds[i].View()[k])
            && (a >= bdsize ==> Aligned(a - bdsize, m))
            && (a < bdsize ==>
                  var n := if a + s > bdsize then bdsize - a else s;
                  && Aligned(s - n, m) && (s - n > 0 ==> a + n == bdsize)
                  && (m == c.readSize ==> Aligned(a, c.bds[i].bd.readSize) && Aligned(n, c.bds[i].bd.readSize))
                  && (m == c.programSize ==> Aligned(a, c.bds[i].bd.programSize) && Aligned(n, c.bds[i].bd.programSize))
                  && (m == c.eraseSize ==> Aligned(a, c.bds[i].bd.eraseSize) && Aligned(n, c.bds[i].bd.eraseSize)))
    ensures Aligned(0, m)
  {
    hide Aligned, Flatten, ViewsOf;
    var d := c.bds[i];
    SizeIsLength(d);
    FlattenAt(c.Views(), i);
    FitsAligned(d, c.readSize, c.programSize, c.eraseSize, a);
    RoundAligned(|d.View()|, a, s, m);
    if a < |d.View()| {
      var n := if a + s > |d.View()| then |d.View()| - a else s;
      FitsAligned(d, c.readSize, c.programSize, c.eraseSize, n);
    }
  }

  /** What one round of the chain's loop passes on keeps the alignment, and a child is left only at its end. */
  lemma RoundAligned(bdsize: nat, a: nat, s: nat, m: nat)
    requires 0 < m && Aligned(bdsize, m) && Aligned(a, m) && Aligned(s, m)
    ensures a < bdsize ==>
              var n := if a + s > bdsize then bdsize - a else s;
              && Aligned(n, m) && Aligned(s - n, m) && (s - n > 0 ==> a + n == bdsize)
    ensures a >= bdsize ==> Aligned(a - bdsize, m)
    ensures Aligned(0, m)
  {
    Multiples(bdsize, a, m);
    Multiples(a, bdsize, m);
    Multiples(s, bdsize - a, m);
  }

  lemma SizeIsLength(c: SlicingBlockDevice)
    requires c.Ready()
    ensures c.Size() == |c.View()|
  {
  }
}
