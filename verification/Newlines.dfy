/** The newline translation of `_write` and `_read`: the text, the wire, and what the two saved bytes must be. */
module Newlines {
  import opened Bytes

  const CR: byte := 13
  const LF: byte := 10

  /** The last byte that went by: that of `s`, or `p` when `s` is empty. */
  function Last(p: byte, s: seq<byte>): (r: byte) {
    if s == [] then p else s[|s| - 1]
  }

  /** A line feed at `k` that no carriage return precedes; `p` is what came before `s`. */
  ghost predicate Bare(p: byte, s: seq<byte>, k: int) {
    0 <= k < |s| && s[k] == LF && Last(p, s[..k]) != CR
  }

  /** The text `s` as it belongs on the wire after `p`: a carriage return before each bare line feed. */
  function Expand(p: byte, s: seq<byte>): (r: seq<byte>)
    decreases |s|
  {
    if s == [] then []
    else (if s[0] == LF && p != CR then [CR, LF] else [s[0]]) + Expand(s[0], s[1..])
  }

  /** The stream `s` as the reader sees it after `p`: each newline once, as a line feed. */
  function Collapse(p: byte, s: seq<byte>): (r: seq<byte>)
    decreases |s|
  {
    if s == [] then []
    else (if (s[0] == CR && p == LF) || (s[0] == LF && p == CR) then []
          else if s[0] == CR then [LF]
          else [s[0]]) + Collapse(s[0], s[1..])
  }

  /** `s` with every run of line feeds, counting one that `p` may have begun, shrunk to one. */
  function Squeeze(p: byte, s: seq<byte>): (r: seq<byte>)
    ensures |r| <= |s|
    decreases |s|
  {
    if s == [] then []
    else (if s[0] == LF && p == LF then [] else [s[0]]) + Squeeze(s[0], s[1..])
  }

  /** No carriage return, and no two adjacent line feeds. */
  ghost predicate Simple(p: byte, s: seq<byte>) {
    && (forall k :: 0 <= k < |s| ==> s[k] != CR)
    && (forall k :: 0 <= k < |s| && s[k] == LF ==> Last(p, s[..k]) != LF)
  }

  lemma LastAppend(p: byte, s: seq<byte>, t: seq<byte>)
    ensures Last(p, s + t) == Last(Last(p, s), t)
  {
  }

  /** A text may be expanded in pieces, when the byte before each piece is remembered. */
  lemma {:induction false} ExpandAppend(p: byte, s: seq<byte>, t: seq<byte>)
    ensures Expand(p, s + t) == Expand(p, s) + Expand(Last(p, s), t)
    decreases |s|
  {
    if s == [] {
      assert s + t == t;
    } else {
      assert (s + t)[1..] == s[1..] + t;
      ExpandAppend(s[0], s[1..], t);
      assert Last(s[0], s[1..]) == Last(p, s);
    }
  }

  lemma {:induction false} CollapseAppend(p: byte, s: seq<byte>, t: seq<byte>)
    ensures Collapse(p, s + t) == Collapse(p, s) + Collapse(Last(p, s), t)
    decreases |s|
  {
    if s == [] {
      assert s + t == t;
    } else {
      assert (s + t)[1..] == s[1..] + t;
      CollapseAppend(s[0], s[1..], t);
      assert Last(s[0], s[1..]) == Last(p, s);
    }
  }

  /** The wire ends with the byte the text ends with. */
  lemma {:induction false} ExpandLast(p: byte, s: seq<byte>)
    ensures Last(p, Expand(p, s)) == Last(p, s)
    decreases |s|
  {
    if s != [] {
      var first := if s[0] == LF && p != CR then [CR, LF] else [s[0]];
      ExpandLast(s[0], s[1..]);
      LastAppend(p, first, Expand(s[0], s[1..]));
      assert Last(s[0], s[1..]) == Last(p, s);
    }
  }

  /** One more byte of text: a line feed (10) that follows no carriage return (13) gets one. */
  lemma ExpandStep(p: byte, s: seq<byte>, k: nat)
    requires k < |s|
    ensures Expand(p, s[..k + 1]) == Expand(p, s[..k]) + if Bare(p, s, k) then [CR, LF] else [s[k]]
    ensures Bare(p, s, k) <==> s[k] == 10 && (if k == 0 then p else s[k - 1]) != 13
    ensures [CR, LF] == [13, 10]
  {
    assert s[..k + 1] == s[..k] + [s[k]];
    ExpandAppend(p, s[..k], [s[k]]);
    assert Expand(s[k], []) == [];
  }

  /** Text without a bare line feed goes out as it is. */
  lemma {:induction false} ExpandPlain(p: byte, s: seq<byte>, n: nat, m: nat)
    requires n <= m <= |s| && forall k :: n <= k < m ==> !Bare(p, s, k)
    ensures Expand(p, s[..m]) == Expand(p, s[..n]) + s[n..m]
  {
    if n < m {
      ExpandPlain(p, s, n, m - 1);
      ExpandStep(p, s, m - 1);
      assert s[n..m] == s[n..m - 1] + [s[m - 1]];
    }
  }

  /** The expansion of a part of the text starts the expansion of the text. */
  lemma ExpandPrefix(p: byte, s: seq<byte>, n: nat)
    requires n <= |s|
    ensures Expand(p, s) == Expand(p, s[..n]) + Expand(Last(p, s[..n]), s[n..])
    ensures |Expand(p, s)| >= |Expand(p, s[..n])| + |s| - n
    decreases |s| - n
  {
    assert s == s[..n] + s[n..];
    ExpandAppend(p, s[..n], s[n..]);
    if n < |s| {
      ExpandStep(p, s, n);
      ExpandPrefix(p, s, n + 1);
    } else {
      assert s[..n] == s;
    }
  }

  /** On the wire every line feed follows a carriage return, and dropping those the text did not have gives the text. */
  lemma {:induction false} ExpandHasNoBare(p: byte, s: seq<byte>, k: nat)
    requires k < |Expand(p, s)|
    ensures !Bare(p, Expand(p, s), k)
    ensures Expand(p, s)[k] == 10 ==> (if k == 0 then p else Expand(p, s)[k - 1]) == 13
    decreases |s|
  {
    var w, first, rest := Expand(p, s), if s[0] == LF && p != CR then [CR, LF] else [s[0]], Expand(s[0], s[1..]);
    if k >= |first| {
      ExpandHasNoBare(s[0], s[1..], k - |first|);
      assert w[..k] == first + rest[..k - |first|];
      LastAppend(p, first, rest[..k - |first|]);
    } else if k == 1 {
      assert w[..1] == [CR];
    } else {
      assert w[..0] == [];
    }
  }

  /** What is on the wire when `n` bytes of the text have been accepted; `pending`: the carriage return for the
      next one has gone ahead of it. */
  ghost function OnWire(p: byte, s: seq<byte>, n: nat, pending: bool): seq<byte>
    requires n <= |s|
  {
    Expand(p, s[..n]) + if pending then [CR] else []
  }

  ghost predicate StopsAt(p: byte, s: seq<byte>, n: nat, pending: bool) {
    n <= |s| && (pending ==> Bare(p, s, n))
  }

  /** A bare line feed still to be dealt with. */
  ghost predicate MoreBare(p: byte, s: seq<byte>, n: nat, pending: bool) {
    exists k :: n <= k < |s| && Bare(p, s, k) && !(pending && k == n)
  }

  /** The byte that `_write` leaves saved when it stops there. */
  ghost function Saved(p: byte, s: seq<byte>, n: nat, pending: bool): byte
    requires n <= |s|
  {
    if pending then
      (if MoreBare(p, s, n, pending) || n == 0 then CR else s[n - 1])
    else if n == 0 then p
    else if Bare(p, s, n) || !MoreBare(p, s, n, pending) then s[n - 1]
    else if exists k :: 0 <= k < n && Bare(p, s, k) then CR
    else p
  }

  /** Writing the rest of the text later completes the expansion. */
  ghost predicate Resumes(p: byte, s: seq<byte>, n: nat, pending: bool, saved: byte)
    requires n <= |s|
  {
    OnWire(p, s, n, pending) + Expand(saved, s[n..]) == Expand(p, s)
  }

  lemma BareExpands(p: byte, s: seq<byte>)
    requires s != [] && s[0] == LF && p != CR
    ensures Expand(p, s) == [CR] + Expand(CR, s)
  {
  }

  lemma OnWireLast(p: byte, s: seq<byte>, n: nat, pending: bool)
    requires StopsAt(p, s, n, pending)
    ensures Last(p, OnWire(p, s, n, pending)) == if pending then CR else Last(p, s[..n])
    ensures OnWire(p, s, n, pending) + Expand(Last(p, OnWire(p, s, n, pending)), s[n..]) == Expand(p, s)
  {
    hide Expand;
    ExpandLast(p, s[..n]);
    ExpandPrefix(p, s, n);
    if pending {
      BareExpands(Last(p, s[..n]), s[n..]);
      assert Expand(p, s[..n]) + ([CR] + Expand(CR, s[n..])) == (Expand(p, s[..n]) + [CR]) + Expand(CR, s[n..]);
    } else {
      assert OnWire(p, s, n, pending) == Expand(p, s[..n]);
    }
  }

  lemma OnWirePrefix(p: byte, s: seq<byte>, n: nat, pending: bool)
    requires StopsAt(p, s, n, pending)
    ensures OnWire(p, s, n, pending) <= Expand(p, s)
  {
    OnWireLast(p, s, n, pending);
  }

  /** Two saved bytes expand a text alike, exactly if it does not start with a line feed that only one of them bares. */
  lemma SameExpansion(p: byte, q: byte, s: seq<byte>)
    ensures Expand(p, s) == Expand(q, s) <==> s == [] || s[0] != LF || (p == CR <==> q == CR)
  {
    if s != [] && s[0] == LF && (p == CR) != (q == CR) {
      assert |Expand(p, s)| != |Expand(q, s)|;
    }
  }

  /** Resuming is right exactly if the next byte is no line feed, or the saved byte and the byte last sent agree on
      being a carriage return. */
  lemma ResumesExactly(p: byte, s: seq<byte>, n: nat, pending: bool, saved: byte)
    requires StopsAt(p, s, n, pending)
    ensures Resumes(p, s, n, pending, saved) <==>
            n == |s| || s[n] != LF || (saved == CR <==> Last(p, OnWire(p, s, n, pending)) == CR)
  {
    var w := OnWire(p, s, n, pending);
    var q := Last(p, w);
    OnWireLast(p, s, n, pending);
    SameExpansion(saved, q, s[n..]);
    assert n < |s| ==> s[n..][0] == s[n];
    if Expand(saved, s[n..]) != Expand(q, s[n..]) {
      assert (w + Expand(saved, s[n..]))[|w|..] == Expand(saved, s[n..]);
      assert (w + Expand(q, s[n..]))[|w|..] == Expand(q, s[n..]);
    }
  }

  /** With what `_write` leaves saved, resuming from one stop is right exactly if the next byte is no line feed; or its
      carriage return is out, and a later line feed is bare or it is the first byte; or it is still to be sent, and
      the byte before is no carriage return, or one that counts: no line feed from there on is bare, or an earlier one
      was, or the text continues a carriage return. */
  lemma ResumesAtExactly(p: byte, s: seq<byte>, n: nat, pending: bool)
    requires StopsAt(p, s, n, pending)
    ensures Resumes(p, s, n, pending, Saved(p, s, n, pending)) <==>
            || n == |s| || n == 0 || s[n] != 10
            || (if pending then exists k :: n < k < |s| && Bare(p, s, k)
                else || s[n - 1] != 13 || p == 13
                     || (exists k :: 0 <= k < n && Bare(p, s, k))
                     || (forall k :: n <= k < |s| ==> !Bare(p, s, k)))
  {
    hide Expand, OnWire;
    var saved := Saved(p, s, n, pending);
    OnWireLast(p, s, n, pending);
    ResumesExactly(p, s, n, pending, saved);
    if k :| n < k < |s| && Bare(p, s, k) {
      assert MoreBare(p, s, n, pending);
    }
  }

  /** With what `_write` leaves saved, a text can be resumed wherever it may stop, exactly if no line feed after its
      first byte is bare. */
  lemma AlwaysResumesExactly(p: byte, s: seq<byte>)
    ensures (forall n: nat, pending ::
               StopsAt(p, s, n, pending) ==> Resumes(p, s, n, pending, Saved(p, s, n, pending))) <==>
            (forall k :: 1 <= k < |s| ==> !Bare(p, s, k))
  {
    if k :| 1 <= k < |s| && Bare(p, s, k) {
      var l := LastBare(p, s, k);
      assert StopsAt(p, s, l, true) && !MoreBare(p, s, l, true);
      DuplicatesReturn(p, s, l);
    } else {
      forall n: nat, pending | StopsAt(p, s, n, pending)
        ensures Resumes(p, s, n, pending, Saved(p, s, n, pending))
      {
        ResumesWithoutBare(p, s, n, pending);
      }
    }
  }

  lemma {:induction false} LastBare(p: byte, s: seq<byte>, k: nat) returns (l: nat)
    requires Bare(p, s, k)
    ensures k <= l < |s| && Bare(p, s, l) && !MoreBare(p, s, l, true)
    decreases |s| - k
  {
    if j :| k < j < |s| && Bare(p, s, j) {
      l := LastBare(p, s, j);
    } else {
      l := k;
    }
  }

  /** The failing family: when the last bare line feed is held back after its carriage return went out, the byte
      saved is the one before both, and the carriage return is sent again. */
  lemma DuplicatesReturn(p: byte, s: seq<byte>, l: nat)
    requires 1 <= l < |s| && Bare(p, s, l) && !MoreBare(p, s, l, true)
    ensures Saved(p, s, l, true) == s[l - 1] != CR && !Resumes(p, s, l, true, Saved(p, s, l, true))
    ensures OnWire(p, s, l, true) + Expand(Saved(p, s, l, true), s[l..])
         == OnWire(p, s, l, true) + [CR] + Expand(CR, s[l..])
  {
    assert s[..l][l - 1] == s[l - 1];
    assert s[l..][0] == LF;
    OnWireLast(p, s, l, true);
    ResumesExactly(p, s, l, true, s[l - 1]);
    assert Expand(s[l - 1], s[l..]) == [CR] + Expand(CR, s[l..]);
  }

  lemma ResumesWithoutBare(p: byte, s: seq<byte>, n: nat, pending: bool)
    requires forall k :: 1 <= k < |s| ==> !Bare(p, s, k)
    requires StopsAt(p, s, n, pending)
    ensures Resumes(p, s, n, pending, Saved(p, s, n, pending))
  {
    OnWireLast(p, s, n, pending);
    ResumesExactly(p, s, n, pending, Saved(p, s, n, pending));
    if n > 0 {
      assert !MoreBare(p, s, n, pending);
      assert Last(p, s[..n]) == s[n - 1];
    } else {
      assert s[..0] == [];
    }
  }

  /** How much is on the wire tells where `_write` stopped. */
  lemma StopIsUnique(p: byte, s: seq<byte>, n: nat, pending: bool, n': nat, pending': bool)
    requires StopsAt(p, s, n, pending) && StopsAt(p, s, n', pending')
    requires |OnWire(p, s, n, pending)| == |OnWire(p, s, n', pending')|
    ensures n == n' && pending == pending'
  {
    if n < n' {
      StopsGrow(p, s, n, pending, n', pending');
    } else if n' < n {
      StopsGrow(p, s, n', pending', n, pending);
    }
  }

  lemma StopsGrow(p: byte, s: seq<byte>, n: nat, pending: bool, n': nat, pending': bool)
    requires StopsAt(p, s, n, pending) && StopsAt(p, s, n', pending') && n < n'
    ensures |OnWire(p, s, n, pending)| < |OnWire(p, s, n', pending')|
  {
    ExpandStep(p, s, n);
    var t := s[..n'];
    ExpandPrefix(p, t, n + 1);
    assert t[..n + 1] == s[..n + 1];
  }

  /** One text byte goes out and comes back; a line feed right after another one is lost. */
  lemma CollapseOne(p: byte, c: byte)
    requires p != CR && c != CR
    ensures Collapse(p, Expand(p, [c])) == if c == LF && p == LF then [] else [c]
  {
    var w := Expand(p, [c]);
    assert Expand(c, []) == [] && Collapse(c, []) == [];
    if c == LF {
      assert w == [CR, LF] && w[1..] == [LF] && [LF][1..] == [];
      assert Collapse(CR, [LF]) == [];
    } else {
      assert w == [c] && w[1..] == [];
    }
  }

  /** Read back, expanded text without a carriage return is the text with its runs of line feeds shrunk to one. */
  lemma {:induction false} CollapseExpand(p: byte, s: seq<byte>)
    requires p != CR && forall k :: 0 <= k < |s| ==> s[k] != CR
    ensures Collapse(p, Expand(p, s)) == Squeeze(p, s)
    decreases |s|
  {
    hide Collapse, Expand;
    if s == [] {
      assert Collapse(p, Expand(p, s)) == [] by {
        EmptyText(p);
      }
    } else {
      var c, t := s[0], s[1..];
      CollapseExpand(c, t);
      CollapseOne(p, c);
      assert s == [c] + t;
      ExpandAppend(p, [c], t);
      ExpandLast(p, [c]);
      CollapseAppend(p, Expand(p, [c]), Expand(c, t));
    }
  }

  lemma EmptyText(p: byte)
    ensures Collapse(p, []) == Expand(p, []) == []
  {
  }

  lemma {:induction false} SqueezeKeepsExactly(p: byte, s: seq<byte>)
    ensures Squeeze(p, s) == s <==> forall k :: 0 <= k < |s| && s[k] == LF ==> Last(p, s[..k]) != LF
    decreases |s|
  {
    hide Last;
    if s != [] {
      var t := s[1..];
      SqueezeKeepsExactly(s[0], t);
      SinglesTail(p, s);
      SqueezeStep(p, s);
    }
  }

  lemma LastNone(p: byte, s: seq<byte>)
    ensures Last(p, s[..0]) == p && (s != [] ==> Last(p, [s[0]]) == s[0])
  {
  }

  lemma SqueezeStep(p: byte, s: seq<byte>)
    requires s != []
    ensures Squeeze(p, s) == s <==> Squeeze(s[0], s[1..]) == s[1..] && !(s[0] == LF && p == LF)
  {
    var t, q := s[1..], Squeeze(s[0], s[1..]);
    assert s == [s[0]] + t;
    if s[0] == LF && p == LF {
      assert |Squeeze(p, s)| < |s|;
    } else {
      assert Squeeze(p, s)[1..] == q;
    }
  }

  /** No line feed from `from` on follows another. */
  ghost predicate Singles(p: byte, s: seq<byte>, from: nat) {
    forall k :: from <= k < |s| && s[k] == LF ==> Last(p, s[..k]) != LF
  }

  lemma SinglesTail(p: byte, s: seq<byte>)
    requires s != []
    ensures Singles(p, s, 1) <==> Singles(s[0], s[1..], 0)
    ensures Singles(p, s, 0) <==> Singles(p, s, 1) && !(s[0] == LF && p == LF)
  {
    hide Last;
    var t := s[1..];
    LastNone(p, s);
    forall k | 0 <= k < |t| ensures Last(p, s[..k + 1]) == Last(s[0], t[..k]) && t[k] == s[k + 1] {
      assert s[..k + 1] == [s[0]] + t[..k];
      LastAppend(p, [s[0]], t[..k]);
    }
  }

  lemma {:induction false} CollapseHasNoReturn(p: byte, s: seq<byte>, k: nat)
    requires k < |Collapse(p, s)|
    ensures Collapse(p, s)[k] != CR
    decreases |s|
  {
    var n := |Collapse(p, s)| - |Collapse(s[0], s[1..])|;
    if k >= n {
      CollapseHasNoReturn(s[0], s[1..], k - n);
    }
  }

  /** Text comes back as it was written exactly if it has no carriage return and no two adjacent line feeds. */
  lemma RoundTripExactly(p: byte, s: seq<byte>)
    requires p != CR
    ensures Collapse(p, Expand(p, s)) == s <==> Simple(p, s)
  {
    if k :| 0 <= k < |s| && s[k] == CR {
      if Collapse(p, Expand(p, s)) == s {
        CollapseHasNoReturn(p, Expand(p, s), k);
      }
    } else {
      CollapseExpand(p, s);
      SqueezeKeepsExactly(p, s);
    }
  }

  /** A newline character is dropped exactly if the opposite one precedes it, and the rest come out in order. */
  lemma CollapseStep(p: byte, s: seq<byte>, k: nat)
    requires k < |s|
    ensures Collapse(p, s[..k + 1]) == Collapse(p, s[..k])
              + (if {s[k], if k == 0 then p else s[k - 1]} == {13, 10} then [] else if s[k] == 13 then [10] else [s[k]])
  {
    assert s[..k + 1] == s[..k] + [s[k]];
    CollapseAppend(p, s[..k], [s[k]]);
    assert Collapse(s[k], []) == [];
    var q := Last(p, s[..k]);
    assert {s[k], q} == {CR, LF} <==> (s[k] == CR && q == LF) || (s[k] == LF && q == CR) by {
      if {s[k], q} == {CR, LF} {
        assert CR in {s[k], q} && LF in {s[k], q} && s[k] in {CR, LF} && q in {CR, LF};
      }
    }
  }
}
