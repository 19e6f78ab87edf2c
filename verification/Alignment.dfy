/** Multiples, and the units of `m` bytes into which a device is divided. */
module Alignment {

  /** A multiple of `m`. */
  predicate Aligned(x: int, m: int)
    requires m > 0
  {
    x % m == 0
  }

  lemma MulAtLeast(m: int, x: int)
    requires m > 0 && x >= 1
    ensures m * x >= m
  {
  }

  lemma MulMono(m: int, x: int, y: int)
    requires m > 0 && x <= y
    ensures m * x <= m * y
  {
    if x < y {
      MulAtLeast(m, y - x);
      assert m * (y - x) == m * y - m * x;
    }
  }

  lemma ProductMono(a: nat, b: nat, c: nat, d: nat)
    requires a <= b && c <= d
    ensures a * c <= b * d
  {
    if a > 0 {
      MulMono(a, c, d);
    }
    if d > 0 {
      MulMono(d, a, b);
    }
  }

  /** Quotient and remainder are determined by their defining equation. */
  lemma DivUnique(a: int, m: int, q: int, r: int)
    requires m > 0 && a == m * q + r && 0 <= r < m
    ensures a / m == q && a % m == r
  {
    var q', r' := a / m, a % m;
    var x := q - q';
    assert m * x == r' - r by {
      assert a == m * q' + r';
      assert m * x == m * q - m * q';
    }
    if x > 0 {
      MulAtLeast(m, x);
    } else if x < 0 {
      MulAtLeast(m, -x);
    }
  }

  lemma MulMod(k: int, m: int)
    requires m > 0
    ensures (k * m) % m == 0 && k * m / m == k
  {
    DivUnique(k * m, m, k, 0);
  }

  /** Adding the modulus changes the quotient by one and keeps the remainder. */
  lemma AddPeriod(a: int, m: int)
    requires m > 0
    ensures (a + m) % m == a % m && (a + m) / m == a / m + 1
  {
    var q, r := a / m, a % m;
    assert a + m == m * (q + 1) + r;
    DivUnique(a + m, m, q + 1, r);
  }

  /** Sums and differences of multiples are multiples. */
  lemma Multiples(a: int, b: int, m: int)
    requires m > 0 && a % m == 0 && b % m == 0
    ensures (a + b) % m == 0 && (a - b) % m == 0
  {
    var p, q := a / m, b / m;
    assert a == m * p && b == m * q;
    assert a + b == m * (p + q) && a - b == m * (p - q);
    DivUnique(a + b, m, p + q, 0);
    DivUnique(a - b, m, p - q, 0);
  }

  /** Divisibility is transitive. */
  lemma DividesTrans(a: int, b: int, c: int)
    requires a > 0 && b > 0 && b % a == 0 && c % b == 0
    ensures c % a == 0
  {
    var p, q := b / a, c / b;
    assert b == a * p && c == b * q;
    assert c == a * (p * q);
    DivUnique(c, a, p * q, 0);
  }

  /** The start of the unit of `m` bytes that holds byte `a`. */
  function UnitOf(a: nat, m: nat): (r: nat)
    requires m > 0
    ensures r <= a < r + m && r % m == 0
  {
    MulMod(a / m, m);
    assert a - a % m == a / m * m;
    a - a % m
  }

  /** The whole unit around a byte of a device lies inside the device. */
  lemma UnitInside(a: nat, m: nat, total: nat)
    requires m > 0 && total % m == 0 && a < total
    ensures UnitOf(a, m) + m <= total
  {
    Multiples(total, UnitOf(a, m), m);
    if total - UnitOf(a, m) < m {
      DivUnique(total - UnitOf(a, m), m, 0, total - UnitOf(a, m));
    }
  }

  lemma UnitMono(a: nat, b: nat, m: nat)
    requires m > 0 && a <= b
    ensures UnitOf(a, m) <= UnitOf(b, m)
  {
    if UnitOf(b, m) < UnitOf(a, m) {
      UnitUnique(a, UnitOf(b, m), m);
    }
  }

  lemma UnitUnique(a: nat, u: nat, m: nat)
    requires m > 0 && u % m == 0 && u <= a < u + m
    ensures UnitOf(a, m) == u && a % m == a - u
  {
    DivUnique(a, m, u / m, a - u);
  }

  lemma UnitsApart(u: nat, v: nat, m: nat)
    requires m > 0 && u % m == 0 && v % m == 0 && u < v
    ensures u + m <= v
  {
    if v < u + m {
      DivUnique(v, m, u / m, v - u);
    }
  }

  lemma AlignedShift(s: nat, a: nat, m: nat)
    requires m > 0 && Aligned(s, m)
    ensures Aligned(s + a, m) <==> Aligned(a, m)
  {
    if a % m == 0 {
      Multiples(s, a, m);
    }
    if (s + a) % m == 0 {
      Multiples(s + a, s, m);
    }
  }

  lemma SelfAligned(m: nat)
    requires m > 0
    ensures Aligned(m, m)
  {
  }

  lemma ZeroAligned(m: nat)
    requires m > 0
    ensures Aligned(0, m)
  {
  }

  lemma OneAligned(x: int)
    ensures Aligned(x, 1)
  {
  }

  /** The erase unit that holds a byte. */
  function UnitNo(i: nat, m: nat): (u: nat)
    requires m > 0
  {
    i / m
  }

  lemma UnitNoAt(a: nat, i: nat, m: nat)
    requires m > 0 && Aligned(a, m) && a <= i < a + m
    ensures UnitNo(i, m) == UnitNo(a, m)
  {
    DivUnique(a, m, a / m, 0);
    DivUnique(i, m, a / m, i - a);
  }

  lemma UnitNoNext(a: nat, m: nat)
    requires m > 0 && Aligned(a, m)
    ensures UnitNo(a + m, m) == UnitNo(a, m) + 1 && Aligned(a + m, m)
  {
    AddPeriod(a, m);
  }

  lemma UnitNoBound(a: nat, n: nat, m: nat)
    requires m > 0 && Aligned(a, m) && Aligned(n, m) && a <= n
    ensures UnitNo(a, m) <= UnitNo(n, m) && (a < n ==> UnitNo(a, m) < UnitNo(n, m))
    ensures a < n ==> a + m <= n
  {
    var p, q := a / m, n / m;
    assert a == m * p && n == m * q;
    if a < n {
      UnitsApart(a, n, m);
      if q <= p {
        MulMono(m, q, p);
      }
    }
  }

  /** The position of a byte in its unit. */
  function OffsetIn(i: nat, m: nat): (k: nat)
    requires m > 0
    ensures k < m
  {
    i % m
  }

  lemma SameUnit(i: nat, a: nat, m: nat)
    requires m > 0 && UnitNo(i, m) == UnitNo(a, m)
    ensures UnitOf(a, m) <= i < UnitOf(a, m) + m
  {
    assert i == m * UnitNo(i, m) + i % m && a == m * UnitNo(a, m) + a % m;
  }

  /** The bytes of the unit of `a`, and their positions in it. */
  lemma UnitBytes(a: nat, m: nat)
    requires m > 0
    ensures UnitOf(a, m) + OffsetIn(a, m) == a
    ensures forall i :: 0 <= i ==> (UnitNo(i, m) == UnitNo(a, m) <==> UnitOf(a, m) <= i < UnitOf(a, m) + m)
    ensures forall i :: UnitOf(a, m) <= i < UnitOf(a, m) + m ==> OffsetIn(i, m) == i - UnitOf(a, m)
  {
    var s := UnitOf(a, m);
    UnitNoAt(s, a, m);
    forall i: nat ensures UnitNo(i, m) == UnitNo(a, m) <==> s <= i < s + m
                  ensures s <= i < s + m ==> OffsetIn(i, m) == i - s {
      if s <= i < s + m {
        UnitNoAt(s, i, m);
        UnitUnique(i, s, m);
      } else if UnitNo(i, m) == UnitNo(a, m) {
        SameUnit(i, a, m);
      }
    }
  }

  lemma UnitNoLess(a: nat, b: nat, m: nat)
    requires m > 0 && UnitNo(a, m) < UnitNo(b, m)
    ensures a < b
  {
    MulMono(m, UnitNo(a, m) + 1, UnitNo(b, m));
    assert m * (UnitNo(a, m) + 1) == m * UnitNo(a, m) + m;
    assert a == m * UnitNo(a, m) + a % m && b == m * UnitNo(b, m) + b % m;
  }

  lemma UnitNoMono(a: nat, b: nat, m: nat)
    requires m > 0 && a <= b
    ensures UnitNo(a, m) <= UnitNo(b, m)
  {
    if UnitNo(b, m) < UnitNo(a, m) {
      UnitNoLess(b, a, m);
    }
  }

  /** A part of `n` bytes on a border of parts, where parts divide units, lies in one unit. */
  lemma PartInUnit(a: nat, n: nat, m: nat)
    requires n > 0 && m > 0 && Aligned(m, n) && Aligned(a, n)
    ensures OffsetIn(a, m) + n <= m
    ensures UnitNo(a + n - 1, m) == UnitNo(a, m)
    ensures forall i :: a <= i < a + n ==> UnitNo(i, m) == UnitNo(a, m) && OffsetIn(i, m) == OffsetIn(a, m) + (i - a)
  {
    var s := UnitOf(a, m);
    UnitBytes(a, m);
    DividesTrans(n, m, s);
    Multiples(a, s, n);
    UnitsApart(a - s, m, n);
  }

  lemma UnitInRange(a: nat, n: nat, m: nat)
    requires m > 0 && Aligned(n, m) && a < n
    ensures UnitNo(a, m) < UnitNo(n, m)
  {
    var u := UnitOf(a, m);
    UnitNoAt(u, a, m);
    UnitNoBound(u, n, m);
  }

  /** The next byte is in the same unit or the next. */
  lemma UnitNoStep(a: nat, m: nat)
    requires m > 0
    ensures UnitNo(a + 1, m) <= UnitNo(a, m) + 1
  {
    UnitNoMono(a + 1, a + m, m);
    AddPeriod(a, m);
  }

  /** Dividing twice is dividing by the product. */
  lemma DivDiv(a: nat, m: nat, n: nat, p: nat)
    requires m > 0 && n > 0 && p == m * n
    ensures a / m / n == a / p
  {
    var q, r := a / m, a % m;
    var q', r' := q / n, q % n;
    assert a == m * (n * q' + r') + r;
    assert m * (n * q' + r') == p * q' + m * r';
    assert m * r' + r < p by {
      assert m * (n - r') == p - m * r';
      MulAtLeast(m, n - r');
    }
    assert 0 <= m * r';
    DivUnique(a, p, q', m * r' + r);
  }
}
