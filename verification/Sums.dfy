/** Finite sums of reals over an interval and over the n by n by n torus. */
module Sums {
  function Sum(n: nat, f: int -> real): real {
    if n == 0 then 0.0 else Sum(n - 1, f) + f(n - 1)
  }

  lemma {:induction false} SumSame(n: nat, f: int -> real, g: int -> real)
    requires forall i | 0 <= i < n :: f(i) == g(i)
    ensures Sum(n, f) == Sum(n, g)
  {
    if n > 0 {
      SumSame(n - 1, f, g);
    }
  }

  lemma {:induction false} SumPlus(n: nat, f: int -> real, g: int -> real, h: int -> real)
    requires forall i | 0 <= i < n :: h(i) == f(i) + g(i)
    ensures Sum(n, h) == Sum(n, f) + Sum(n, g)
  {
    if n > 0 {
      SumPlus(n - 1, f, g, h);
    }
  }

  lemma {:induction false} SumScaled(n: nat, c: real, f: int -> real, h: int -> real)
    requires forall i | 0 <= i < n :: h(i) == c * f(i)
    ensures Sum(n, h) == c * Sum(n, f)
  {
    if n > 0 {
      SumScaled(n - 1, c, f, h);
    }
  }

  lemma OneMore(n: int, c: real)
    ensures n as real * c == (n - 1) as real * c + c
  {
    var m := (n - 1) as real;
    assert n as real == m + 1.0;
    assert (m + 1.0) * c == m * c + c;
  }

  lemma {:induction false} SumConstant(n: nat, c: real, f: int -> real)
    requires forall i | 0 <= i < n :: f(i) == c
    ensures Sum(n, f) == n as real * c
  {
    if n > 0 {
      SumConstant(n - 1, c, f);
      OneMore(n, c);
    }
  }

  // The first term instead of the last.
  lemma {:induction false} SumFromFirst(n: nat, f: int -> real, g: int -> real)
    requires n > 0 && forall i | 0 <= i < n - 1 :: g(i) == f(i + 1)
    ensures Sum(n, f) == f(0) + Sum(n - 1, g)
  {
    if n > 1 {
      SumFromFirst(n - 1, f, g);
    }
  }

  // Where a coordinate lands on a ring of n places: wrapi(c, 0, n - 1).
  function Wrap(c: int, n: nat): (w: int)
    requires n > 0
    ensures 0 <= w < n
  {
    c % n
  }

  lemma {:induction false} MultiplesApart(k: int, n: int)
    requires n > 0
    ensures k > 0 ==> k * n >= n
    ensures k < 0 ==> k * n <= -n
    decreases if k < 0 then -k else k
  {
    if k > 1 {
      MultiplesApart(k - 1, n);
      assert k * n == (k - 1) * n + n;
    } else if k < -1 {
      MultiplesApart(k + 1, n);
      assert k * n == (k + 1) * n - n;
    }
  }

  lemma WrapUnique(c: int, n: nat, q: int, r: int)
    requires n > 0 && c == q * n + r && 0 <= r < n
    ensures Wrap(c, n) == r && c / n == q
  {
    var q', r' := c / n, c % n;
    assert c == q' * n + r';
    assert (q - q') * n == q * n - q' * n == r' - r;
    MultiplesApart(q - q', n);
  }

  // Wrapping twice is wrapping once.
  lemma WrapWrap(c: int, d: int, n: nat)
    requires n > 0
    ensures Wrap(Wrap(c, n) + d, n) == Wrap(c + d, n)
  {
    var q := c / n;
    var e := Wrap(c, n) + d;
    var p := e / n;
    assert c + d == q * n + e && e == p * n + Wrap(e, n);
    assert q * n + p * n == (q + p) * n;
    WrapUnique(c + d, n, q + p, Wrap(e, n));
  }

  lemma WrapInside(c: int, n: nat)
    requires 0 <= c <= n && n > 0
    ensures Wrap(c, n) == if c == n then 0 else c
  {
    WrapUnique(c, n, if c == n then 1 else 0, if c == n then 0 else c);
  }

  lemma SumTurnedOnce(n: nat, f: int -> real, h: int -> real)
    requires n > 0 && forall i | 0 <= i < n :: h(i) == f(Wrap(i + 1, n))
    ensures Sum(n, h) == Sum(n, f)
  {
    forall i | 0 <= i < n ensures h(i) == if i == n - 1 then f(0) else f(i + 1) {
      WrapInside(i + 1, n);
    }
    hide Wrap;
    SumFromFirst(n, f, h);
  }

  // Turning a ring by d places does not change the sum over it.
  lemma {:induction false} SumTurned(n: nat, d: nat, f: int -> real, h: int -> real)
    requires n > 0 && forall i | 0 <= i < n :: h(i) == f(Wrap(i + d, n))
    ensures Sum(n, h) == Sum(n, f)
    decreases d
  {
    hide Wrap, Sum;
    if d == 0 {
      forall i | 0 <= i < n ensures h(i) == f(i) {
        WrapInside(i, n);
      }
      SumSame(n, f, h);
    } else {
      var less := i => f(Wrap(i + (d - 1), n));
      SumTurned(n, d - 1, f, less);
      forall i | 0 <= i < n ensures h(i) == less(Wrap(i + 1, n)) {
        WrapWrap(i + 1, d - 1, n);
      }
      SumTurnedOnce(n, less, h);
    }
  }

  lemma SumShifted(n: nat, d: int, f: int -> real, h: int -> real)
    requires n > 0 && forall i | 0 <= i < n :: h(i) == f(Wrap(i + d, n))
    ensures Sum(n, h) == Sum(n, f)
  {
    hide Wrap, Sum;
    forall i | 0 <= i < n ensures h(i) == f(Wrap(i + Wrap(d, n), n)) {
      WrapWrap(d, i, n);
    }
    SumTurned(n, Wrap(d, n), f, h);
  }

  // ---- Three dimensions ----

  type Grid = (int, int, int) -> real

  function Row(f: Grid, x: int, y: int): int -> real {
    z => f(x, y, z)
  }

  function Plane(n: nat, f: Grid, x: int): int -> real {
    y => Sum(n, Row(f, x, y))
  }

  function Cube(n: nat, f: Grid): int -> real {
    x => Sum(n, Plane(n, f, x))
  }

  function Total(n: nat, f: Grid): real {
    Sum(n, Cube(n, f))
  }

  predicate Inside(n: nat, x: int, y: int, z: int) {
    0 <= x < n && 0 <= y < n && 0 <= z < n
  }

  lemma TotalSame(n: nat, f: Grid, g: Grid)
    requires forall x, y, z | Inside(n, x, y, z) :: f(x, y, z) == g(x, y, z)
    ensures Total(n, f) == Total(n, g)
  {
    forall x | 0 <= x < n ensures Cube(n, f)(x) == Cube(n, g)(x) {
      forall y | 0 <= y < n ensures Plane(n, f, x)(y) == Plane(n, g, x)(y) {
        assert forall z | 0 <= z < n :: Inside(n, x, y, z);
        SumSame(n, Row(f, x, y), Row(g, x, y));
      }
      SumSame(n, Plane(n, f, x), Plane(n, g, x));
    }
    SumSame(n, Cube(n, f), Cube(n, g));
  }

  lemma TotalPlus(n: nat, f: Grid, g: Grid, h: Grid)
    requires forall x, y, z | Inside(n, x, y, z) :: h(x, y, z) == f(x, y, z) + g(x, y, z)
    ensures Total(n, h) == Total(n, f) + Total(n, g)
  {
    forall x | 0 <= x < n ensures Cube(n, h)(x) == Cube(n, f)(x) + Cube(n, g)(x) {
      forall y | 0 <= y < n ensures Plane(n, h, x)(y) == Plane(n, f, x)(y) + Plane(n, g, x)(y) {
        assert forall z | 0 <= z < n :: Inside(n, x, y, z);
        SumPlus(n, Row(f, x, y), Row(g, x, y), Row(h, x, y));
      }
      SumPlus(n, Plane(n, f, x), Plane(n, g, x), Plane(n, h, x));
    }
    SumPlus(n, Cube(n, f), Cube(n, g), Cube(n, h));
  }

  lemma TotalScaled(n: nat, c: real, f: Grid, h: Grid)
    requires forall x, y, z | Inside(n, x, y, z) :: h(x, y, z) == c * f(x, y, z)
    ensures Total(n, h) == c * Total(n, f)
  {
    hide Sum;
    forall x | 0 <= x < n ensures Cube(n, h)(x) == c * Cube(n, f)(x) {
      forall y | 0 <= y < n ensures Plane(n, h, x)(y) == c * Plane(n, f, x)(y) {
        assert forall z | 0 <= z < n :: Inside(n, x, y, z);
        SumScaled(n, c, Row(f, x, y), Row(h, x, y));
      }
      SumScaled(n, c, Plane(n, f, x), Plane(n, h, x));
    }
    SumScaled(n, c, Cube(n, f), Cube(n, h));
  }

  lemma TotalConstant(n: nat, c: real, f: Grid)
    requires forall x, y, z | Inside(n, x, y, z) :: f(x, y, z) == c
    ensures Total(n, f) == n as real * (n as real * (n as real * c))
  {
    forall x | 0 <= x < n ensures Cube(n, f)(x) == n as real * (n as real * c) {
      forall y | 0 <= y < n ensures Plane(n, f, x)(y) == n as real * c {
        assert forall z | 0 <= z < n :: Inside(n, x, y, z);
        SumConstant(n, c, Row(f, x, y));
      }
      SumConstant(n, n as real * c, Plane(n, f, x));
    }
    SumConstant(n, n as real * (n as real * c), Cube(n, f));
  }

  /** The total over the torus does not change when every cell is replaced by its neighbour in one
      fixed direction. */
  lemma TotalShifted(n: nat, dx: int, dy: int, dz: int, f: Grid, h: Grid)
    requires n > 0
    requires forall x, y, z | Inside(n, x, y, z) :: h(x, y, z) == f(Wrap(x + dx, n), Wrap(y + dy, n), Wrap(z + dz, n))
    ensures Total(n, h) == Total(n, f)
  {
    forall x | 0 <= x < n ensures Cube(n, h)(x) == Cube(n, f)(Wrap(x + dx, n)) {
      var x' := Wrap(x + dx, n);
      forall y | 0 <= y < n ensures Plane(n, h, x)(y) == Plane(n, f, x')(Wrap(y + dy, n)) {
        assert forall z | 0 <= z < n :: Inside(n, x, y, z);
        SumShifted(n, dz, Row(f, x', Wrap(y + dy, n)), Row(h, x, y));
      }
      SumShifted(n, dy, Plane(n, f, x'), Plane(n, h, x));
    }
    SumShifted(n, dx, Cube(n, f), Cube(n, h));
  }
}
