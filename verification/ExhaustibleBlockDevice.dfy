/** ExhaustibleBlockDevice: a device whose erase units wear out. */
module ExhaustibleBlockDevices {
  import opened Alignment
  import opened Bytes
  import opened BlockDevices

  /** One erase cycle used. */
  function Less(c: nat): (r: nat) { if c > 0 then c - 1 else 0 }

  /** The budgets after one erase of the units in [lo, hi). */
  function Worn(budget: seq<nat>, lo: nat, hi: nat): (r: seq<nat>)
    ensures |r| == |budget| && forall u :: 0 <= u < |budget| ==>
              r[u] == if lo <= u < hi then Less(budget[u]) else budget[u]
  {
    seq(|budget|, u requires 0 <= u < |budget| => if lo <= u < hi then Less(budget[u]) else budget[u])
  }

  /** How often each unit was erased on the device, after one more erase of the units in [lo, hi). */
  function Erased(physical: seq<nat>, budget: seq<nat>, lo: nat, hi: nat): (r: seq<nat>)
    requires |physical| == |budget|
    ensures |r| == |budget|
    ensures forall u :: 0 <= u < |r| ==> r[u] == if lo <= u < hi && budget[u] > 1 then physical[u] + 1 else physical[u]
  {
    seq(|physical|, u requires 0 <= u < |physical| =>
      if lo <= u < hi && budget[u] > 1 then physical[u] + 1 else physical[u])
  }

  /** In [lo, hi), units with more than one cycle left are blank; everything else is as before. */
  ghost predicate EraseEffect(c: seq<byte>, c': seq<byte>, budget: seq<nat>, lo: nat, hi: nat, m: nat, blank: int)
    requires m > 0
  {
    && |c| == |c'|
    && forall i :: 0 <= i < |c| && UnitNo(i, m) < |budget| ==>
         if lo <= i < hi && budget[UnitNo(i, m)] > 1 then (blank >= 0 ==> c'[i] == blank) else c'[i] == c[i]
  }

  lemma EffectMeans(c: seq<byte>, c': seq<byte>, budget: seq<nat>, lo: nat, hi: nat, m: nat, blank: int)
    requires m > 0 && EraseEffect(c, c', budget, lo, hi, m, blank)
    requires hi <= |c| && Aligned(|c|, m) && |budget| == UnitNo(|c|, m)
    ensures forall i :: lo <= i < hi ==>
              UnitNo(i, m) < |budget|
              && if budget[UnitNo(i, m)] > 1 then blank >= 0 ==> c'[i] == blank else c'[i] == c[i]
  {
    hide UnitNo, Aligned;
    forall i | lo <= i < hi ensures UnitNo(i, m) < |budget| {
      UnitInRange(i, |c|, m);
    }
  }

  /** A failed erase got to the unit before `k`: that one used up a cycle, but the device did not erase it. */
  ghost predicate WornTo(budget: seq<nat>, budget': seq<nat>, phys: seq<nat>, phys': seq<nat>, lo: nat, k: nat) {
    |budget| == |phys| && k > 0 && budget' == Worn(budget, lo, k) && phys' == Erased(phys, budget, lo, k - 1)
  }

  /** The bytes after a successful program: the unit of the first byte alone decides whether anything is stored. */
  function Stored(c: seq<byte>, budget: seq<nat>, addr: nat, src: seq<byte>, from: nat, n: nat, m: nat): (c': seq<byte>)
    requires m > 0 && addr + n <= |c| && from + n <= |src| && UnitNo(addr, m) < |budget|
  {
    if budget[UnitNo(addr, m)] == 0 then c else Blit(c, addr, src, from, n)
  }

  /** No byte of an exhausted unit has changed. */
  ghost predicate ExhaustedKept(c: seq<byte>, c': seq<byte>, budget: seq<nat>, m: nat)
    requires m > 0
  {
    |c'| == |c| && forall i :: 0 <= i < |c| && UnitNo(i, m) < |budget| && budget[UnitNo(i, m)] == 0 ==> c'[i] == c[i]
  }

  /** A successful program keeps the exhausted units exactly if the unit of the first byte is exhausted, or no exhausted
      unit gets a differing byte. */
  lemma ExhaustedKeptExactly(c: seq<byte>, budget: seq<nat>, addr: nat, src: seq<byte>, from: nat, n: nat, m: nat)
    requires m > 0 && addr + n <= |c| && from + n <= |src| && UnitNo(addr, m) < |budget|
    ensures ExhaustedKept(c, Stored(c, budget, addr, src, from, n, m), budget, m) <==>
            || budget[UnitNo(addr, m)] == 0
            || forall i :: addr <= i < addr + n && UnitNo(i, m) < |budget| && budget[UnitNo(i, m)] == 0 ==>
                 src[from + i - addr] == c[i]
  {
    hide UnitNo;
    var c' := Stored(c, budget, addr, src, from, n, m);
    if ExhaustedKept(c, c', budget, m) && budget[UnitNo(addr, m)] != 0 {
      forall i | addr <= i < addr + n && UnitNo(i, m) < |budget| && budget[UnitNo(i, m)] == 0
        ensures src[from + i - addr] == c[i]
      {
        assert c'[i] == src[from + i - addr];
      }
    }
  }

  /** Whatever the bytes: exactly if the counter of the first unit is zero, or no counter in the range is. */
  lemma AlwaysKeptExactly(c: seq<byte>, budget: seq<nat>, addr: nat, n: nat, m: nat)
    requires m > 0 && 0 < n && addr + n <= |c| && UnitNo(addr, m) < |budget|
    ensures (forall src :: |src| == n ==> ExhaustedKept(c, Stored(c, budget, addr, src, 0, n, m), budget, m)) <==>
            || budget[UnitNo(addr, m)] == 0
            || forall u :: UnitNo(addr, m) <= u <= UnitNo(addr + n - 1, m) && u < |budget| ==> budget[u] > 0
  {
    hide UnitNo, Stored, ExhaustedKept;
    var last := addr + n - 1;
    if budget[UnitNo(addr, m)] != 0 {
      if u :| UnitNo(addr, m) <= u <= UnitNo(last, m) && u < |budget| && budget[u] == 0 {
        var src := LosingBytes(c, budget, addr, n, m, u);
      }
    }
    if budget[UnitNo(addr, m)] == 0 || forall u :: UnitNo(addr, m) <= u <= UnitNo(last, m) && u < |budget| ==>
      budget[u] > 0 {
      forall src | |src| == n ensures ExhaustedKept(c, Stored(c, budget, addr, src, 0, n, m), budget, m) {
        KeptAnyway(c, budget, addr, src, n, m);
      }
    }
  }

  lemma LosingBytes(c: seq<byte>, budget: seq<nat>, addr: nat, n: nat, m: nat, u: nat) returns (src: seq<byte>)
    requires m > 0 && 0 < n && addr + n <= |c| && UnitNo(addr, m) < |budget| && budget[UnitNo(addr, m)] != 0
    requires UnitNo(addr, m) <= u <= UnitNo(addr + n - 1, m) && u < |budget| && budget[u] == 0
    ensures |src| == n && !ExhaustedKept(c, Stored(c, budget, addr, src, 0, n, m), budget, m)
  {
    hide UnitNo;
    var i := FirstOfUnit(addr, addr + n - 1, u, m);
    var x: byte := Another(c[i]);
    src := Repeat(x, n);
    assert Stored(c, budget, addr, src, 0, n, m)[i] == src[i - addr] != c[i];
  }

  function Another(x: byte): (y: byte)
    ensures y != x
  {
    if x == 0 then 1 else 0
  }

  lemma KeptAnyway(c: seq<byte>, budget: seq<nat>, addr: nat, src: seq<byte>, n: nat, m: nat)
    requires m > 0 && 0 < n == |src| && addr + n <= |c| && UnitNo(addr, m) < |budget|
    requires || budget[UnitNo(addr, m)] == 0
             || forall u :: UnitNo(addr, m) <= u <= UnitNo(addr + n - 1, m) && u < |budget| ==> budget[u] > 0
    ensures ExhaustedKept(c, Stored(c, budget, addr, src, 0, n, m), budget, m)
  {
    hide UnitNo, Stored, ExhaustedKept;
    ExhaustedKeptExactly(c, budget, addr, src, 0, n, m);
    forall i | addr <= i < addr + n && UnitNo(i, m) < |budget| && budget[UnitNo(i, m)] == 0
      ensures budget[UnitNo(addr, m)] == 0
    {
      UnitNoMono(addr, i, m);
      UnitNoMono(i, addr + n - 1, m);
    }
  }

  /** A byte of the range that lies in unit `u`. */
  lemma FirstOfUnit(addr: nat, last: nat, u: nat, m: nat) returns (i: nat)
    requires m > 0 && addr <= last && UnitNo(addr, m) <= u <= UnitNo(last, m)
    ensures addr <= i <= last && UnitNo(i, m) == u
  {
    if u == UnitNo(addr, m) {
      i := addr;
    } else {
      i := u * m;
      MulMod(u, m);
      UnitNoLess(addr, i, m);
      StartOfUnit(last, u, m);
    }
  }

  lemma StartOfUnit(a: nat, u: nat, m: nat)
    requires m > 0 && u <= UnitNo(a, m)
    ensures u * m <= a
  {
    MulMono(m, u, UnitNo(a, m));
    assert a == m * UnitNo(a, m) + a % m;
  }

  lemma WriteConfined(c: seq<byte>, c': seq<byte>, addr: nat, src: seq<byte>, from: nat, n: nat)
    requires addr + n <= |c| && from + n <= |src|
    requires c' == Blit(c, addr, src, from, n) || Torn(c, c', addr, src, from, n)
    ensures SameOutside(c, c', addr, addr + n)
  {
  }

  class ExhaustibleBlockDevice {
    const bd: Device
    const eraseCycles: nat
    var eraseArray: array?<nat>
    var initRefCount: nat
    var isInitialized: bool
    ghost var physical: seq<nat>

    ghost predicate Valid()
      reads this, bd, eraseArray
    {
      && bd.Valid()
      && (eraseArray != null ==> eraseArray.Length == UnitNo(|bd.contents|, bd.eraseSize) == |physical|)
      && (isInitialized ==> eraseArray != null)
      && (isInitialized <==> initRefCount > 0)
    }

    constructor (bd: Device, eraseCycles: nat)
      requires bd.Valid() && eraseCycles < U32
      ensures Valid() && this.bd == bd && this.eraseCycles == eraseCycles && eraseArray == null && !isInitialized
    {
      this.bd := bd;
      this.eraseCycles := eraseCycles;
      eraseArray, physical := null, [];
      initRefCount, isInitialized := 0, false;
    }

    /** The counters are allotted once and live on across deinit and init. */
    method Init() returns (err: int)
      requires Valid() && initRefCount < U32 - 1
      modifies this
      ensures Valid()
      ensures err == 0 ==> isInitialized && initRefCount == old(initRefCount) + 1
      ensures err != 0 ==> !isInitialized && initRefCount == 0
      ensures bd.reliable ==> err == 0
      ensures old(eraseArray) != null ==> eraseArray == old(eraseArray) && physical == old(physical)
      ensures old(eraseArray) == null && eraseArray != null ==>
                && fresh(eraseArray)
                && (forall u :: 0 <= u < eraseArray.Length ==> eraseArray[u] == eraseCycles && physical[u] == 0)
    {
      initRefCount := initRefCount + 1;
      if initRefCount != 1 {
        return BD_ERROR_OK;
      }
      err := bd.Poke();
      if err != 0 {
        isInitialized := false;
        initRefCount := 0;
        return err;
      }
      if eraseArray == null {
        var n := UnitNo(|bd.contents|, bd.eraseSize);
        var counters := new nat[n];
        var i: nat := 0;
        while i < n
          invariant i <= n
          modifies counters
          invariant forall u :: 0 <= u < i ==> counters[u] == eraseCycles
        {
          counters[i] := eraseCycles;
          i := i + 1;
        }
        eraseArray := counters;
        physical := seq(n, _ => 0);
      }
      isInitialized := true;
      return BD_ERROR_OK;
    }

    method Deinit() returns (err: int)
      requires Valid()
      modifies this`initRefCount, this`isInitialized
      ensures Valid()
      ensures initRefCount == if old(isInitialized) then old(initRefCount) - 1 else old(initRefCount)
    {
      if !isInitialized {
        return BD_ERROR_OK;
      }
      initRefCount := initRefCount - 1;
      if initRefCount != 0 {
        return BD_ERROR_OK;
      }
      isInitialized := false;
      err := bd.Poke();
    }

    /**
     * The unit of the first byte alone decides: exhausted, it makes the call a silent no-op. An admitted request that
     * does not start inside the device, because its end wraps or because it is empty, leaves the table of counters:
     * that is undefined, and nothing is said of it.
     */
    method Program(b: array<byte>, at: nat, addr: nat, size: nat) returns (err: int, ghost undefined: bool)
      requires Valid() && addr < U64 && size < U64
      requires at + size <= b.Length
      modifies bd
      ensures undefined <==> isInitialized && old(bd.ProgramOk(addr, size)) && |old(bd.contents)| <= addr
      ensures !undefined ==> Valid() && |bd.contents| == |old(bd.contents)|
      ensures !isInitialized || !old(bd.ProgramOk(addr, size)) ==>
                err == BD_ERROR_DEVICE_ERROR && bd.contents == old(bd.contents)
      ensures (!undefined && isInitialized && old(bd.ProgramOk(addr, size))
               && UnitNo(addr, bd.eraseSize) < eraseArray.Length && eraseArray[UnitNo(addr, bd.eraseSize)] == 0) ==>
                err == 0 && bd.contents == old(bd.contents)
      ensures !undefined && isInitialized && bd.ProgramOk(addr, size) && NoWrap(addr, size) ==>
                && addr + size <= |bd.contents| && UnitNo(addr, bd.eraseSize) < eraseArray.Length
                && (eraseArray[UnitNo(addr, bd.eraseSize)] == 0 ==> err == 0 && bd.contents == old(bd.contents))
                && (eraseArray[UnitNo(addr, bd.eraseSize)] > 0 && err == 0 ==>
                      bd.contents == Blit(old(bd.contents), addr, b[..], at, size))
                && (err == 0 ==>
                      bd.contents == Stored(old(bd.contents), eraseArray[..], addr, b[..], at, size, bd.eraseSize))
                && (bd.reliable ==> err == 0)
      ensures !undefined && NoWrap(addr, size) ==> SameOutside(old(bd.contents), bd.contents, addr, addr + size)
    {
      hide Blit, Aligned, W64, UnitNo, Torn, SameOutside;
      SameItself(bd.contents, addr, addr + size);
      undefined := false;
      if !isInitialized {
        return BD_ERROR_DEVICE_ERROR, false;
      }
      if !IsValidProgram(bd.programSize, |bd.contents|, addr, size) {
        return BD_ERROR_DEVICE_ERROR, false;
      }
      InTable(bd, addr);
      if UnitNo(addr, bd.eraseSize) >= eraseArray.Length {
        return *, true;
      }
      if eraseArray[UnitNo(addr, bd.eraseSize)] == 0 {
        return 0, false;
      }
      ghost var c := bd.contents;
      err := bd.Program(b, at, addr, size);
      if NoWrap(addr, size) {
        WriteConfined(c, bd.contents, addr, b[..], at, size);
      }
    }

    /** An admitted request whose end wraps leaves the table of counters, unless a unit before its end fails. */
    method Erase(addr: nat, size: nat) returns (err: int, ghost undefined: bool)
      requires Valid() && addr < U64 && size < U64
      modifies this`physical, eraseArray, bd
      ensures undefined ==> isInitialized && old(bd.EraseOk(addr, size)) && !NoWrap(addr, size)
      ensures isInitialized && bd.reliable && old(bd.EraseOk(addr, size)) && !NoWrap(addr, size) ==> undefined
      ensures !undefined ==> Valid() && |bd.contents| == |old(bd.contents)|
      ensures !isInitialized || !old(bd.EraseOk(addr, size)) ==>
                && err == BD_ERROR_DEVICE_ERROR && bd.contents == old(bd.contents) && physical == old(physical)
                && (eraseArray != null ==> eraseArray[..] == old(if eraseArray != null then eraseArray[..] else []))
      ensures !undefined && isInitialized && bd.EraseOk(addr, size) ==>
                var lo, hi := UnitNo(addr, bd.eraseSize), UnitNo(addr + size, bd.eraseSize);
                && (err == 0 ==>
                      && NoWrap(addr, size)
                      && eraseArray[..] == Worn(old(eraseArray[..]), lo, hi)
                      && physical == Erased(old(physical), old(eraseArray[..]), lo, hi)
                      && addr + size <= |bd.contents|
                      && (forall i :: addr <= i < addr + size ==>
                            UnitNo(i, bd.eraseSize) < eraseArray.Length
                            && if old(eraseArray[..])[UnitNo(i, bd.eraseSize)] > 1
                               then bd.eraseValue >= 0 ==> bd.contents[i] == bd.eraseValue
                               else bd.contents[i] == old(bd.contents)[i]))
                && (err != 0 ==> exists k ::
                      lo < k <= hi && WornTo(old(eraseArray[..]), eraseArray[..], old(physical), physical, lo, k))
                && (bd.reliable ==> err == 0)
      ensures !undefined ==> SameOutside(old(bd.contents), bd.contents, addr, addr + size)
    {
      hide Blit, Aligned, W64, UnitNo, EraseEffect, Worn, Erased, SameOutside, WornTo;
      SameItself(bd.contents, addr, addr + size);
      undefined := false;
      if !isInitialized {
        return BD_ERROR_DEVICE_ERROR, false;
      }
      if !IsValidErase(bd.eraseSize, bd.eraseSize, |bd.contents|, addr, size) {
        return BD_ERROR_DEVICE_ERROR, false;
      }
      ghost var c, budget := bd.contents, eraseArray[..];
      err, undefined := EraseLoop(addr, size);
      if err == 0 && !undefined {
        EffectMeans(c, bd.contents, budget, addr, addr + size, bd.eraseSize, bd.eraseValue);
      }
    }

    method EraseLoop(addr: nat, size: nat) returns (err: int, ghost undefined: bool)
      requires Valid() && isInitialized && bd.EraseOk(addr, size) && addr < U64 && size < U64
      modifies this`physical, eraseArray, bd
      ensures undefined ==> !NoWrap(addr, size)
      ensures bd.reliable && !NoWrap(addr, size) ==> undefined
      ensures !undefined ==>
                var lo, hi := UnitNo(addr, bd.eraseSize), UnitNo(addr + size, bd.eraseSize);
                && Valid() && |bd.contents| == |old(bd.contents)|
                && (err == 0 ==>
                      && NoWrap(addr, size)
                      && eraseArray[..] == Worn(old(eraseArray[..]), lo, hi)
                      && physical == Erased(old(physical), old(eraseArray[..]), lo, hi)
                      && EraseEffect(old(bd.contents), bd.contents, old(eraseArray[..]), addr, addr + size,
                                     bd.eraseSize, bd.eraseValue))
                && (err != 0 ==> exists k ::
                      lo < k <= hi && WornTo(old(eraseArray[..]), eraseArray[..], old(physical), physical, lo, k))
                && (bd.reliable ==> err == 0)
                && SameOutside(old(bd.contents), bd.contents, addr, addr + size)
    {
      hide Blit, Aligned, W64, UnitNo, EraseEffect, Worn, Erased, SameOutside;
      ghost var budget, phys, image, m := eraseArray[..], physical, bd.contents, bd.eraseSize;
      ghost var lo, end := UnitNo(addr, m), addr + size;
      var euSize := bd.eraseSize;
      var a: nat, s: nat := addr, size;
      StartErase(bd, addr, size, budget, phys);
      SameItself(image, addr, end);
      while s > 0
        invariant SameOutside(image, bd.contents, addr, end)
        invariant a + s == end && addr <= a && Aligned(a, m) && (a == addr || a <= |image|)
        invariant Valid() && isInitialized && |bd.contents| == |image|
        invariant lo <= UnitNo(a, m)
        invariant eraseArray[..] == Worn(budget, lo, UnitNo(a, m))
        invariant physical == Erased(phys, budget, lo, UnitNo(a, m))
        invariant EraseEffect(image, bd.contents, budget, addr, a, m, bd.eraseValue)
      {
        InTable(bd, a);
        if UnitNo(a, euSize) >= eraseArray.Length {
          return *, true;
        }
        ghost var u, cur, pre, preP := UnitNo(a, m), bd.contents, eraseArray[..], physical;
        UnitNoNext(a, m);
        UnitNoBound(a, |image|, m);
        NextUnit(bd, a, end);
        OneUnit(bd, a, |image|);
        if eraseArray[UnitNo(a, euSize)] > 0 {
          eraseArray[UnitNo(a, euSize)] := eraseArray[UnitNo(a, euSize)] - 1;
        }
        WornNext(budget, pre, eraseArray[..], lo, u);
        if eraseArray[UnitNo(a, euSize)] > 0 {
          err := bd.Erase(a, euSize);
          ghost var next := a + euSize;
          SameTrans(image, cur, bd.contents, addr, end, a, next);
          if err != 0 {
            assert WornTo(budget, eraseArray[..], phys, physical, lo, u + 1);
            return err, false;
          }
          physical := physical[u := physical[u] + 1];
        }
        ErasedNext(phys, preP, physical, budget, lo, u);
        EffectNext(image, cur, bd.contents, budget, addr, a, m, bd.eraseValue);
        a := a + euSize;
        s := s - euSize;
      }
      return 0, false;
    }
  }

  lemma InTable(bd: Device, addr: nat)
    requires bd.Valid()
    ensures UnitNo(addr, bd.eraseSize) < UnitNo(|bd.contents|, bd.eraseSize) <==> addr < |bd.contents|
  {
    if addr < |bd.contents| {
      UnitInRange(addr, |bd.contents|, bd.eraseSize);
    } else {
      UnitNoMono(|bd.contents|, addr, bd.eraseSize);
    }
  }

  lemma StartErase(bd: Device, addr: nat, size: nat, budget: seq<nat>, phys: seq<nat>)
    requires bd.Valid() && bd.EraseOk(addr, size) && |budget| == |phys| && addr < U64 && size < U64
    ensures Aligned(addr, bd.eraseSize) && Aligned(|bd.contents|, bd.eraseSize)
    ensures NoWrap(addr, size) ==> Aligned(addr + size, bd.eraseSize) && addr + size <= |bd.contents|
    ensures var u := UnitNo(addr, bd.eraseSize);
            && budget == Worn(budget, u, u) && phys == Erased(phys, budget, u, u)
            && EraseEffect(bd.contents, bd.contents, budget, addr, addr, bd.eraseSize, bd.eraseValue)
  {
  }

  /** The unit of a byte of the device before the end of a request is before that end as a whole. */
  lemma NextUnit(bd: Device, a: nat, end: nat)
    requires bd.Valid() && Aligned(a, bd.eraseSize) && a < |bd.contents| && a < end
    requires Aligned(end, bd.eraseSize) || U64 <= end
    ensures a + bd.eraseSize <= end && UnitNo(a, bd.eraseSize) < UnitNo(end, bd.eraseSize)
  {
    UnitsApart(a, |bd.contents|, bd.eraseSize);
    if end < U64 {
      UnitsApart(a, end, bd.eraseSize);
    }
    UnitNoNext(a, bd.eraseSize);
    UnitNoMono(a + bd.eraseSize, end, bd.eraseSize);
  }

  /** One erase unit is a valid erase of the device. */
  lemma OneUnit(bd: Device, a: nat, end: nat)
    requires bd.Valid() && Aligned(a, bd.eraseSize) && a + bd.eraseSize <= end <= |bd.contents|
    ensures NoWrap(a, bd.eraseSize) && bd.EraseOk(a, bd.eraseSize)
  {
    AddPeriod(a, bd.eraseSize);
  }

  lemma WornNext(budget: seq<nat>, pre: seq<nat>, now: seq<nat>, lo: nat, u: nat)
    requires pre == Worn(budget, lo, u) && lo <= u < |budget| && now == pre[u := Less(pre[u])]
    ensures now == Worn(budget, lo, u + 1) && now[u] == Less(budget[u])
  {
  }

  lemma ErasedNext(phys: seq<nat>, pre: seq<nat>, now: seq<nat>, budget: seq<nat>, lo: nat, u: nat)
    requires |phys| == |budget| && lo <= u < |budget| && pre == Erased(phys, budget, lo, u)
    requires now == if budget[u] > 1 then pre[u := pre[u] + 1] else pre
    ensures now == Erased(phys, budget, lo, u + 1)
  {
  }

  lemma EffectNext(image: seq<byte>, cur: seq<byte>, next: seq<byte>, budget: seq<nat>, addr: nat, a: nat, m: nat,
                   blank: int)
    requires m > 0 && addr <= a && a + m <= |cur| && Aligned(a, m) && UnitNo(a, m) < |budget|
    requires EraseEffect(image, cur, budget, addr, a, m, blank)
    requires if budget[UnitNo(a, m)] > 1
             then SameOutside(cur, next, a, a + m) && (blank >= 0 ==> Filled(next, a, a + m, blank))
             else next == cur
    ensures EraseEffect(image, next, budget, addr, a + m, m, blank)
  {
    hide UnitNo;
    forall i | a <= i < a + m ensures UnitNo(i, m) == UnitNo(a, m) {
      UnitNoAt(a, i, m);
    }
  }

  // Whole runs of successful erases.

  /** One erase request, as the range of units it covers. */
  datatype Request = Request(lo: nat, hi: nat)

  function Times(reqs: seq<Request>, u: nat): (n: nat) {
    if reqs == [] then 0
    else Times(reqs[..|reqs| - 1], u) + (if reqs[|reqs| - 1].lo <= u < reqs[|reqs| - 1].hi then 1 else 0)
  }

  /** Budgets and device erase counts after a run that starts with `n` fresh units of budget `cycles`. */
  function WearRun(n: nat, cycles: nat, reqs: seq<Request>): (r: (seq<nat>, seq<nat>))
    ensures |r.0| == |r.1| == n
  {
    if reqs == [] then (seq(n, _ => cycles), seq(n, _ => 0))
    else
      var (budget, phys) := WearRun(n, cycles, reqs[..|reqs| - 1]);
      var q := reqs[|reqs| - 1];
      (Worn(budget, q.lo, q.hi), Erased(phys, budget, q.lo, q.hi))
  }

  /**
   * The exact wear: after a run in which `k` requests covered a unit its budget is what `k` leaves of
   * the initial one, and the device erased it `k` times but never more than one less than the budget.
   */
  lemma {:induction false} ExactWear(n: nat, cycles: nat, reqs: seq<Request>, u: nat)
    requires u < n
    ensures var (budget, phys) := WearRun(n, cycles, reqs);
            var k := Times(reqs, u);
            && budget[u] == Max(cycles - k, 0)
            && phys[u] == Min(k, Max(cycles - 1, 0))
  {
    if reqs != [] {
      ExactWear(n, cycles, reqs[..|reqs| - 1], u);
    }
  }

  /** The request that uses up a unit's last cycle no longer reaches the device. */
  lemma LastEraseDoesNothing(n: nat, cycles: nat, reqs: seq<Request>, q: Request, u: nat)
    requires u < n && cycles > 0 && Times(reqs, u) == cycles - 1 && q.lo <= u < q.hi
    ensures WearRun(n, cycles, reqs + [q]).1[u] == WearRun(n, cycles, reqs).1[u] == cycles - 1
    ensures WearRun(n, cycles, reqs).0[u] == 1 && WearRun(n, cycles, reqs + [q]).0[u] == 0
  {
    assert (reqs + [q])[..|reqs + [q]| - 1] == reqs;
    ExactWear(n, cycles, reqs, u);
    ExactWear(n, cycles, reqs + [q], u);
  }

  // Runs of calls.

  datatype Call =
    | InitCall
    | DeinitCall
    | ProgramCall(addr: nat, data: seq<byte>)
    | EraseCall(addr: nat, size: nat)

  /** How often the wrapper is initialized, and the erases that have taken effect. */
  datatype Effect = Effect(refs: nat, reqs: seq<Request>)

  function AfterCall(e: Effect, call: Call, es: nat, total: nat): (r: Effect)
    requires es > 0
  {
    match call
    case InitCall => e.(refs := e.refs + 1)
    case DeinitCall => if e.refs > 0 then e.(refs := e.refs - 1) else e
    case ProgramCall(_, _) => e
    case EraseCall(addr, size) =>
      if e.refs > 0 && IsValidErase(es, es, total, addr, size) then
        e.(reqs := e.reqs + [Request(UnitNo(addr, es), UnitNo(addr + size, es))])
      else e
  }

  function AfterCalls(calls: seq<Call>, es: nat, total: nat): (r: Effect)
    requires es > 0
    ensures r.refs <= |calls|
  {
    if calls == [] then Effect(0, [])
    else AfterCall(AfterCalls(calls[..|calls| - 1], es, total), calls[|calls| - 1], es, total)
  }

  predicate Callable(call: Call, total: nat) {
    match call
    case ProgramCall(addr, data) => NoWrap(addr, |data|) && (data != [] || addr < total)
    case EraseCall(addr, size) => NoWrap(addr, size)
    case _ => true
  }

  /** The counters and the device's erases are those of the effect so far. */
  ghost predicate WornBy(c: ExhaustibleBlockDevice, e: Effect)
    reads c, c.bd, c.eraseArray
  {
    && c.Valid() && c.initRefCount == e.refs
    && (c.eraseArray == null ==> e.reqs == [])
    && (c.eraseArray != null ==>
          (c.eraseArray[..], c.physical) == WearRun(UnitNo(|c.bd.contents|, c.bd.eraseSize), c.eraseCycles, e.reqs))
  }

  /** One call on a dependable device. */
  method Perform(c: ExhaustibleBlockDevice, call: Call, ghost e: Effect)
    requires WornBy(c, e) && c.bd.reliable && e.refs < U32 - 1 && Callable(call, |c.bd.contents|)
    modifies c, c.bd, c.eraseArray
    ensures |c.bd.contents| == |old(c.bd.contents)|
    ensures WornBy(c, AfterCall(e, call, c.bd.eraseSize, |c.bd.contents|))
    ensures c.eraseArray == old(c.eraseArray) || fresh(c.eraseArray)
  {
    hide Worn, Erased, EraseEffect, UnitNo, Blit, Stored, SameOutside, Aligned, W64, WornTo;
    match call
    case InitCall =>
      PerformInit(c, e);
    case DeinitCall =>
      var err := c.Deinit();
    case ProgramCall(addr, data) =>
      var b := new byte[|data|](i requires 0 <= i < |data| => data[i]);
      var err, undefined := c.Program(b, 0, addr, |data|);
    case EraseCall(addr, size) =>
      PerformErase(c, addr, size, e);
  }

  method PerformInit(c: ExhaustibleBlockDevice, ghost e: Effect)
    requires WornBy(c, e) && c.bd.reliable && e.refs < U32 - 1
    modifies c
    ensures WornBy(c, e.(refs := e.refs + 1))
    ensures c.eraseArray == old(c.eraseArray) || fresh(c.eraseArray)
  {
    hide Worn, Erased, UnitNo, Aligned;
    var err := c.Init();
    if old(c.eraseArray) == null {
      ghost var unworn := WearRun(UnitNo(|c.bd.contents|, c.bd.eraseSize), c.eraseCycles, []);
      assert c.eraseArray[..] == unworn.0 && c.physical == unworn.1;
    }
  }

  method PerformErase(c: ExhaustibleBlockDevice, addr: nat, size: nat, ghost e: Effect)
    requires WornBy(c, e) && c.bd.reliable && NoWrap(addr, size)
    modifies c`physical, c.eraseArray, c.bd
    ensures |c.bd.contents| == |old(c.bd.contents)|
    ensures WornBy(c, AfterCall(e, EraseCall(addr, size), c.bd.eraseSize, |c.bd.contents|))
  {
    hide Worn, Erased, EraseEffect, UnitNo, SameOutside, Aligned, W64, WornTo, WearRun, IsValidErase;
    ghost var m, n := c.bd.eraseSize, UnitNo(|c.bd.contents|, c.bd.eraseSize);
    WearMore(n, c.eraseCycles, e.reqs, Request(UnitNo(addr, m), UnitNo(addr + size, m)));
    var err, undefined := c.Erase(addr, size);
  }

  lemma WearMore(n: nat, cycles: nat, reqs: seq<Request>, q: Request)
    ensures var (budget, phys) := WearRun(n, cycles, reqs);
            && |budget| == |phys|
            && WearRun(n, cycles, reqs + [q]) == (Worn(budget, q.lo, q.hi), Erased(phys, budget, q.lo, q.hi))
  {
    assert (reqs + [q])[..|reqs + [q]| - 1] == reqs;
  }

  /**
   * Over every run of calls, init and deinit included, on a dependable device: a unit that `k` effective erases covered
   * has what `k` leaves of its budget, and the device erased it `k` times but never more than one less than the budget.
   */
  method Replay(c: ExhaustibleBlockDevice, calls: seq<Call>)
    requires c.Valid() && c.bd.reliable && !c.isInitialized && c.eraseArray == null && |calls| < U32 - 1
    requires forall i :: 0 <= i < |calls| ==> Callable(calls[i], |c.bd.contents|)
    modifies c, c.bd
    ensures |c.bd.contents| == |old(c.bd.contents)| && WornBy(c, AfterCalls(calls, c.bd.eraseSize, |c.bd.contents|))
    ensures var e := AfterCalls(calls, c.bd.eraseSize, |c.bd.contents|);
            c.eraseArray != null ==>
              forall u :: 0 <= u < c.eraseArray.Length ==>
                && c.eraseArray[u] == Max(c.eraseCycles - Times(e.reqs, u), 0)
                && c.physical[u] == Min(Times(e.reqs, u), Max(c.eraseCycles - 1, 0))
  {
    hide UnitNo, WearRun, Callable, AfterCall;
    ghost var n, es := |c.bd.contents|, c.bd.eraseSize;
    var i := 0;
    while i < |calls|
      invariant 0 <= i <= |calls| && |c.bd.contents| == n
      invariant WornBy(c, AfterCalls(calls[..i], es, n))
      invariant c.eraseArray == null || fresh(c.eraseArray)
    {
      ghost var e := AfterCalls(calls[..i], es, n);
      assert calls[..i + 1][..i] == calls[..i];
      Perform(c, calls[i], e);
      i := i + 1;
    }
    assert calls[..i] == calls;
    ghost var e := AfterCalls(calls, es, n);
    if c.eraseArray != null {
      forall u | 0 <= u < c.eraseArray.Length
        ensures c.eraseArray[u] == Max(c.eraseCycles - Times(e.reqs, u), 0)
        ensures c.physical[u] == Min(Times(e.reqs, u), Max(c.eraseCycles - 1, 0))
      {
        ExactWear(c.eraseArray.Length, c.eraseCycles, e.reqs, u);
        assert c.eraseArray[..][u] == c.eraseArray[u];
      }
    }
  }

  /**
   * An exhausted unit can still be written, by a request that starts in the unit before it: only the
   * first unit's budget is looked at.
   */
  method ExhaustedUnitWritten() returns (budget: nat, before: byte, after: byte)
    ensures budget == 0 && before == 0 && after == 7
  {
    hide Blit, Erased;
    var bd := new Device(1, 4, 4, 0, true, Repeat(0, 8));
    var c := new ExhaustibleBlockDevice(bd, 1);
    var err := c.Init();
    var sevens := new byte[8](_ => 7);
    assert UnitNo(4, 4) == 1 && UnitNo(8, 4) == 2 && UnitNo(0, 4) == 0;
    ghost var undefined;
    err, undefined := c.Erase(4, 4);
    budget := c.eraseArray[1];
    before := bd.contents[5];
    err, undefined := c.Program(sevens, 0, 0, 8);
    after := bd.contents[5];
  }
}
