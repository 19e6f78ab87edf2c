/** Concatenations of several storage images. */
module Concatenation {
  import opened Bytes

  function Flatten<T>(vs: seq<seq<T>>): (r: seq<T>) {
    if vs == [] then [] else vs[0] + Flatten(vs[1..])
  }

  /** Where part `i` starts in the concatenation. */
  function Offset<T>(vs: seq<seq<T>>, i: nat): (r: nat)
    requires i <= |vs|
  {
    if i == 0 then 0 else Offset(vs, i - 1) + |vs[i - 1]|
  }

  lemma {:induction false} OffsetTail<T>(vs: seq<seq<T>>, i: nat)
    requires 0 < i <= |vs|
    ensures Offset(vs, i) == |vs[0]| + Offset(vs[1..], i - 1)
  {
    if i > 1 {
      OffsetTail(vs, i - 1);
    }
  }

  lemma {:induction false} FlattenLength<T>(vs: seq<seq<T>>)
    ensures |Flatten(vs)| == Offset(vs, |vs|)
  {
    if vs != [] {
      FlattenLength(vs[1..]);
      OffsetTail(vs, |vs|);
    }
  }

  lemma {:induction false} OffsetMono<T>(vs: seq<seq<T>>, i: nat, j: nat)
    requires i <= j <= |vs|
    ensures Offset(vs, i) <= Offset(vs, j)
  {
    if i < j {
      OffsetMono(vs, i, j - 1);
    }
  }

  lemma {:induction false} OffsetSame<T>(vs: seq<seq<T>>, us: seq<seq<T>>, k: nat)
    requires |vs| == |us| && k <= |vs|
    requires forall i :: 0 <= i < |vs| ==> |vs[i]| == |us[i]|
    ensures Offset(vs, k) == Offset(us, k)
  {
    if k > 0 {
      OffsetSame(vs, us, k - 1);
    }
  }

  /** Part `i` is found at its offset. */
  lemma {:induction false} FlattenAt<T>(vs: seq<seq<T>>, i: nat)
    requires i < |vs|
    ensures Offset(vs, i) + |vs[i]| <= |Flatten(vs)|
    ensures forall k :: 0 <= k < |vs[i]| ==> Flatten(vs)[Offset(vs, i) + k] == vs[i][k]
  {
    if i == 0 {
    } else {
      var rest := vs[1..];
      FlattenAt(rest, i - 1);
      OffsetTail(vs, i);
      forall k | 0 <= k < |vs[i]| ensures Flatten(vs)[Offset(vs, i) + k] == vs[i][k] {
        assert Flatten(vs)[Offset(vs, i) + k] == Flatten(rest)[Offset(rest, i - 1) + k];
      }
    }
  }

  /** Replacing part `i` replaces its stretch of the concatenation. */
  lemma {:induction false} FlattenUpdate<T>(vs: seq<seq<T>>, i: nat, v: seq<T>)
    requires i < |vs| && |v| == |vs[i]|
    ensures Offset(vs, i) + |v| <= |Flatten(vs)|
    ensures Flatten(vs[i := v]) == Blit(Flatten(vs), Offset(vs, i), v, 0, |v|)
  {
    var us := vs[i := v];
    FlattenAt(vs, i);
    if i == 0 {
      assert us[1..] == vs[1..];
    } else {
      var rest := vs[1..];
      assert us[1..] == rest[i - 1 := v];
      FlattenUpdate(rest, i - 1, v);
      OffsetTail(vs, i);
    }
  }

  /** A write into part `i` is a write into the concatenation. */
  lemma FlattenBlit<T>(vs: seq<seq<T>>, i: nat, a: nat, src: seq<T>, from: nat, n: nat)
    requires i < |vs| && a + n <= |vs[i]| && from + n <= |src|
    ensures Offset(vs, i) + a + n <= |Flatten(vs)|
    ensures Flatten(vs[i := Blit(vs[i], a, src, from, n)]) == Blit(Flatten(vs), Offset(vs, i) + a, src, from, n)
  {
    hide Blit, Flatten, Offset;
    var off := Offset(vs, i);
    FlattenAt(vs, i);
    FlattenUpdate(vs, i, Blit(vs[i], a, src, from, n));
    forall k | off <= k < off + |vs[i]| ensures Flatten(vs)[k] == vs[i][k - off] {
      assert Flatten(vs)[off + (k - off)] == vs[i][k - off];
    }
    BlitInside(Flatten(vs), off, vs[i], a, off + a, src, from, n);
  }

  lemma BlitInside<T>(f: seq<T>, off: nat, part: seq<T>, a: nat, here: nat, src: seq<T>, from: nat, n: nat)
    requires off + |part| <= |f| && forall k :: off <= k < off + |part| ==> f[k] == part[k - off]
    requires a + n <= |part| && from + n <= |src| && here == off + a
    ensures Blit(f, off, Blit(part, a, src, from, n), 0, |part|) == Blit(f, here, src, from, n)
  {
  }

  /** A change confined to a range of part `i` is confined to that range of the concatenation. */
  lemma FlattenSame<T>(vs: seq<seq<T>>, i: nat, v: seq<T>, lo: nat, hi: nat)
    requires i < |vs| && SameOutside(vs[i], v, lo, hi)
    ensures SameOutside(Flatten(vs), Flatten(vs[i := v]), Offset(vs, i) + lo, Offset(vs, i) + hi)
  {
    hide Blit;
    FlattenAt(vs, i);
    FlattenUpdate(vs, i, v);
    var f, g, o := Flatten(vs), Flatten(vs[i := v]), Offset(vs, i);
    forall k | 0 <= k < |f| && !(o + lo <= k < o + hi) ensures g[k] == f[k] {
      if o <= k < o + |v| {
        assert f[o + (k - o)] == vs[i][k - o];
      }
    }
  }

  /** Windows [starts[i], stops[i]) that follow one another without gap from `base` to `end`. */
  predicate Tiles(starts: seq<nat>, stops: seq<nat>, base: nat, end: nat)
    requires |starts| == |stops|
    decreases |starts|
  {
    if starts == [] then base == end
    else starts[0] == base && base <= stops[0] <= end && Tiles(starts[1..], stops[1..], stops[0], end)
  }

  /** Adjacent windows that tile an array concatenate to it. */
  lemma {:induction false} FlattenTiles<T>(s: seq<T>, starts: seq<nat>, stops: seq<nat>, vs: seq<seq<T>>, base: nat)
    requires |starts| == |stops| == |vs| && base <= |s| && Tiles(starts, stops, base, |s|)
    requires forall i :: 0 <= i < |vs| ==> starts[i] <= stops[i] <= |s| && vs[i] == s[starts[i]..stops[i]]
    ensures Flatten(vs) == s[base..]
    decreases |vs|
  {
    if vs == [] {
    } else {
      FlattenTiles(s, starts[1..], stops[1..], vs[1..], stops[0]);
      assert s[base..] == s[base..stops[0]] + s[stops[0]..];
    }
  }
}
