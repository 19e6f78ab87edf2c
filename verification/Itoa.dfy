/** The number printers `ltoa` and `ultoa`, and the numerals they produce. */
module Itoa {
  import opened Alignment
  import opened Bytes

  type i32 = x: int | -0x8000_0000 <= x < 0x8000_0000

  predicate RadixOk(radix: int) { 2 <= radix <= 36 }

  function DigitChar(i: int): (c: char)
    requires 0 <= i < 36
  {
    if i < 10 then '0' + i as char else 'a' + (i - 10) as char
  }

  function DigitValue(c: char): (i: int)
    requires '0' <= c <= '9' || 'a' <= c <= 'z'
    ensures 0 <= i < 36
  {
    if c <= '9' then c as int - '0' as int else c as int - 'a' as int + 10
  }

  lemma DigitRoundTrip(i: int)
    requires 0 <= i < 36
    ensures var c := DigitChar(i); ('0' <= c <= '9' || 'a' <= c <= 'z') && DigitValue(c) == i && (c == '0' <==> i == 0)
  {
  }

  /** The digits are those from '0' to '9', and then those from 'a' to 'z', in this order. */
  lemma DigitsInOrder(i: int, j: int)
    requires 0 <= i < j < 36
    ensures '0' <= DigitChar(i) < DigitChar(j) <= 'z'
    ensures DigitChar(i) <= '9' <==> i < 10
    ensures DigitChar(j) >= 'a' <==> j >= 10
  {
  }

  /** A numeral in that radix. */
  predicate Numeral(s: string, radix: int) {
    forall k :: 0 <= k < |s| ==> ('0' <= s[k] <= '9' || 'a' <= s[k] <= 'z') && DigitValue(s[k]) < radix
  }

  /** What a numeral stands for. */
  function Value(s: string, radix: int): (v: nat)
    requires RadixOk(radix) && Numeral(s, radix)
  {
    if s == [] then 0 else Value(s[..|s| - 1], radix) * radix + DigitValue(s[|s| - 1])
  }

  /** At least one digit, and no leading zero unless it is the only one. */
  predicate Canonical(s: string, radix: int) {
    Numeral(s, radix) && |s| >= 1 && (|s| > 1 ==> s[0] != '0')
  }

  function Quotient(v: nat, radix: int): (q: nat)
    requires RadixOk(radix)
    ensures if v < radix then q == 0 else 0 < q < v
  {
    QuotientBounds(v, radix);
    v / radix
  }

  function Remainder(v: nat, radix: int): (d: nat)
    requires RadixOk(radix)
    ensures d < radix && (v < radix ==> d == v)
  {
    QuotientBounds(v, radix);
    v % radix
  }

  lemma QuotientBounds(v: nat, radix: int)
    requires RadixOk(radix)
    ensures if v < radix then v / radix == 0 && v % radix == v else 0 < v / radix < v
    ensures 2 * (v / radix) <= v
  {
    var q, d := v / radix, v % radix;
    assert v == radix * q + d;
    if v < radix {
      DivUnique(v, radix, 0, v);
    } else {
      if q <= 0 {
        MulMono(radix, q, 0);
      }
      MulMono(q, 2, radix);
    }
  }

  lemma QuotientAndRemainder(v: nat, radix: int, q: nat, d: nat)
    requires RadixOk(radix) && d < radix
    ensures v == q * radix + d <==> q == Quotient(v, radix) && d == Remainder(v, radix)
  {
    assert v == radix * (v / radix) + v % radix;
    if v == q * radix + d {
      DivUnique(v, radix, q, d);
    }
  }

  /** The digits of `v`, most significant first. */
  function Digits(v: nat, radix: int): (s: string)
    requires RadixOk(radix)
    decreases v
  {
    if v < radix then [DigitChar(v)] else Digits(Quotient(v, radix), radix) + [DigitChar(Remainder(v, radix))]
  }

  lemma {:induction false} DigitsEvaluate(v: nat, radix: int)
    requires RadixOk(radix)
    ensures Canonical(Digits(v, radix), radix) && Value(Digits(v, radix), radix) == v
    ensures v > 0 ==> Digits(v, radix)[0] != '0'
    decreases v
  {
    hide Quotient, Remainder, DigitChar, DigitValue;
    var s := Digits(v, radix);
    if v < radix {
      DigitRoundTrip(v);
      assert s[..0] == [] && Value(s[..0], radix) == 0;
    } else {
      var q, d := Quotient(v, radix), Remainder(v, radix);
      var t := Digits(q, radix);
      DigitsEvaluate(q, radix);
      DigitRoundTrip(d);
      ValueMore(t, DigitChar(d), radix);
      QuotientAndRemainder(v, radix, q, d);
    }
  }

  lemma ValueMore(t: string, c: char, radix: int)
    requires RadixOk(radix) && Numeral(t, radix)
    requires ('0' <= c <= '9' || 'a' <= c <= 'z') && DigitValue(c) < radix
    ensures Numeral(t + [c], radix) && Value(t + [c], radix) == Value(t, radix) * radix + DigitValue(c)
  {
    hide DigitValue;
    assert (t + [c])[..|t|] == t;
  }

  /** Every canonical numeral is the one printed for its value. */
  lemma {:induction false} ValuePrintsBack(s: string, radix: int)
    requires RadixOk(radix) && Canonical(s, radix)
    ensures Digits(Value(s, radix), radix) == s
    ensures |s| > 1 ==> Value(s, radix) >= radix
    decreases |s|
  {
    hide Quotient, Remainder;
    var t, c := s[..|s| - 1], s[|s| - 1];
    var d := DigitValue(c);
    CharRoundTrip(c);
    assert s == t + [c];
    ValueMore(t, c, radix);
    var w := Value(t, radix);
    if |s| == 1 {
      assert w == 0;
    } else {
      ValuePrintsBack(t, radix);
      ZeroPrints(t, radix);
      ProductAtLeast(w, radix);
      QuotientAndRemainder(w * radix + d, radix, w, d);
    }
  }

  lemma ZeroPrints(t: string, radix: int)
    requires RadixOk(radix) && Numeral(t, radix) && t != [] && Digits(Value(t, radix), radix) == t
    ensures Value(t, radix) == 0 ==> t[0] == '0'
  {
  }

  lemma ProductAtLeast(w: nat, radix: int)
    requires radix > 0
    ensures w > 0 ==> w * radix >= radix
  {
    if w > 0 {
      MulMono(radix, 1, w);
    }
  }

  lemma CharRoundTrip(c: char)
    requires '0' <= c <= '9' || 'a' <= c <= 'z'
    ensures DigitChar(DigitValue(c)) == c
  {
  }

  function Pow2(k: nat): (p: nat)
    ensures p > 0
  {
    if k == 0 then 1 else 2 * Pow2(k - 1)
  }

  lemma {:induction false} Pow2Sum(a: nat, b: nat)
    ensures Pow2(a + b) == Pow2(a) * Pow2(b)
  {
    if a > 0 {
      Pow2Sum(a - 1, b);
    }
  }

  /** A number below 2^k has at most k digits in any radix. */
  lemma {:induction false} DigitsFit(v: nat, radix: int, k: nat)
    requires RadixOk(radix) && k >= 1 && v < Pow2(k)
    ensures |Digits(v, radix)| <= k
    decreases k
  {
    hide Quotient, Remainder;
    if v >= radix {
      QuotientHalves(v, radix);
      assert k > 1 by {
        assert Pow2(1) == 2;
      }
      DigitsFit(Quotient(v, radix), radix, k - 1);
    }
  }

  lemma QuotientHalves(v: nat, radix: int)
    requires RadixOk(radix)
    ensures 2 * Quotient(v, radix) <= v
  {
    QuotientBounds(v, radix);
  }

  /** In radix 2 a number with bit k set has more than k digits. */
  lemma {:induction false} DigitsNeeded(v: nat, k: nat)
    requires v >= Pow2(k)
    ensures |Digits(v, 2)| > k
    decreases k
  {
    if k > 0 {
      DigitsNeeded(v / 2, k - 1);
    }
  }

  /** No numeral of a 32-bit number needs more than 32 of the 33 scratch cells, and in radix 2 some need all 32. */
  lemma ScratchSuffices(v: u32, radix: int)
    requires RadixOk(radix)
    ensures |Digits(v, radix)| <= 32
    ensures radix == 2 && v >= 0x8000_0000 ==> |Digits(v, radix)| == 32
  {
    Pow2Sum(1, 1);
    Pow2Sum(2, 2);
    Pow2Sum(4, 4);
    Pow2Sum(8, 8);
    Pow2Sum(16, 16);
    assert Pow2(1) == 2 && Pow2(32) == 0x1_0000_0000 == 2 * Pow2(31);
    DigitsFit(v, radix, 32);
    if radix == 2 && v >= 0x8000_0000 {
      DigitsNeeded(v, 31);
    }
  }

  /** Two's complement: the text in any radix but 10 stands for the value modulo 2^32. */
  function Unsigned(value: i32): (v: u32) { if value < 0 then value + U32 else value }

  /** The text that ltoa produces: signed in radix 10 only. */
  function Text(value: i32, radix: int): (s: string)
    requires RadixOk(radix)
  {
    if radix == 10 && value < 0 then "-" + Digits(0 - value, radix) else Digits(Unsigned(value), radix)
  }

  /** Reading a text back. */
  ghost predicate Denotes(s: string, radix: int, value: int)
    requires RadixOk(radix)
  {
    if s != [] && s[0] == '-' then Canonical(s[1..], radix) && value == 0 - Value(s[1..], radix) < 0
    else Canonical(s, radix) && value == Value(s, radix)
  }

  /** The text denotes the value in radix 10, and its two's complement in any other; it is at most 33 characters
      long. */
  lemma TextDenotes(value: i32, radix: int)
    requires RadixOk(radix)
    ensures Denotes(Text(value, radix), radix,
                    if radix == 10 || value >= 0 then value else value + 0x1_0000_0000)
    ensures |Text(value, radix)| <= if radix == 10 then 33 else 32
  {
    hide Digits, Value;
    var s := Text(value, radix);
    if radix == 10 && value < 0 {
      DigitsEvaluate(0 - value, radix);
      assert s[1..] == Digits(0 - value, radix);
      ScratchSuffices(0 - value, radix);
    } else {
      DigitsEvaluate(Unsigned(value), radix);
      ScratchSuffices(Unsigned(value), radix);
    }
  }

  /** In one radix, different values have different texts. */
  lemma TextIsInjective(a: i32, b: i32, radix: int)
    requires RadixOk(radix) && Text(a, radix) == Text(b, radix)
    ensures a == b
  {
    TextDenotes(a, radix);
    TextDenotes(b, radix);
  }

  /** The digit loop: the digits of `v` go to the scratch cells, least significant first. */
  method Spell(v: u32, radix: int) returns (tmp: array<char>, n: nat)
    requires RadixOk(radix)
    ensures fresh(tmp) && tmp.Length == 33 && n == |Digits(v, radix)| <= 32
    ensures forall k :: 0 <= k < n ==> tmp[k] == Digits(v, radix)[n - 1 - k]
  {
    tmp := new char[33](_ => 0 as char);
    ghost var all := Digits(v, radix);
    ScratchSuffices(v, radix);
    n := 0;
    var rest: nat := v;
    while rest != 0 || n == 0
      invariant n <= |all|
      invariant all[..|all| - n] == if rest == 0 && n > 0 then [] else Digits(rest, radix)
      invariant forall k :: 0 <= k < n ==> tmp[k] == all[|all| - 1 - k]
      decreases if n == 0 then 1 else 0, rest
    {
      ghost var now := all[..|all| - n];
      var i := rest % radix;
      DigitStep(rest, radix);
      assert now == Digits(rest, radix);
      assert all[|all| - 1 - n] == now[|now| - 1] && all[..|all| - n - 1] == now[..|now| - 1];
      rest := rest / radix;
      tmp[n] := if i < 10 then '0' + i as char else 'a' + (i - 10) as char;
      n := n + 1;
    }
  }

  /** The last digit is the remainder, and those before it are the digits of the quotient, if that is not zero. */
  lemma DigitStep(v: nat, radix: int)
    requires RadixOk(radix)
    ensures var s := Digits(v, radix);
            && |s| > 0 && s[|s| - 1] == DigitChar(v % radix)
            && s[..|s| - 1] == if v / radix == 0 then [] else Digits(v / radix, radix)
    ensures v > 0 ==> v / radix < v
  {
    hide DigitChar;
    QuotientBounds(v, radix);
  }

  /** The reversal loop. */
  method CopyBack(tmp: array<char>, n: nat, dst: array<char>, at: nat, ghost digits: string)
    requires tmp != dst && n == |digits| <= tmp.Length && at + n < dst.Length
    requires forall k :: 0 <= k < n ==> tmp[k] == digits[n - 1 - k]
    modifies dst
    ensures dst[..] == old(dst[..at]) + digits + [0 as char] + old(dst[at + n + 1..])
  {
    var tp, sp := n, at;
    while tp > 0
      invariant 0 <= tp <= n && sp == at + (n - tp)
      invariant dst[..] == old(dst[..at]) + digits[..n - tp] + old(dst[sp..])
    {
      tp := tp - 1;
      dst[sp] := tmp[tp];
      sp := sp + 1;
    }
    dst[sp] := 0 as char;
  }

  method Ultoa(value: u32, dst: array?<char>, radix: int) returns (r: array?<char>)
    requires dst != null && RadixOk(radix) ==> |Digits(value, radix)| < dst.Length
    modifies if dst == null then {} else {dst}
    ensures dst == null || !RadixOk(radix) ==> r == null && (dst != null ==> dst[..] == old(dst[..]))
    ensures dst != null && RadixOk(radix) ==> r == dst
    ensures dst != null && RadixOk(radix) ==>
              dst[..] == Digits(value, radix) + [0 as char] + old(dst[..])[|Digits(value, radix)| + 1..]
  {
    hide Digits;
    if dst == null {
      return null;
    }
    if radix > 36 || radix <= 1 {
      return null;
    }
    var tmp, n := Spell(value, radix);
    CopyBack(tmp, n, dst, 0, Digits(value, radix));
    r := dst;
  }

  method Ltoa(value: i32, dst: array?<char>, radix: int) returns (r: array?<char>)
    requires dst != null && RadixOk(radix) ==> |Text(value, radix)| < dst.Length
    modifies if dst == null then {} else {dst}
    ensures dst == null || !RadixOk(radix) ==> r == null && (dst != null ==> dst[..] == old(dst[..]))
    ensures dst != null && RadixOk(radix) ==> r == dst
    ensures dst != null && RadixOk(radix) ==>
              dst[..] == Text(value, radix) + [0 as char] + old(dst[..])[|Text(value, radix)| + 1..]
  {
    hide Digits;
    if dst == null {
      return null;
    }
    if radix > 36 || radix <= 1 {
      return null;
    }
    var sign := radix == 10 && value < 0;
    var v: u32 := if sign then 0 - value else Unsigned(value);
    var tmp, n := Spell(v, radix);
    var sp := 0;
    ghost var was, s := dst[..], Digits(v, radix);
    if sign {
      dst[sp] := '-';
      sp := sp + 1;
    }
    ghost var sent := dst[..sp];
    assert sent + s == Text(value, radix) && dst[sp + n + 1..] == was[sp + n + 1..];
    CopyBack(tmp, n, dst, sp, s);
    r := dst;
  }
}
