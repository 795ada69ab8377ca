/** Remainders of runs of numbers: consecutive ones, and ones a fixed stride apart. */
module Residues {
  import opened Arithmetic

  // ---- Consecutive numbers -----------------------------------------------

  /** How many of the numbers below x leave remainder p. */
  function Below(x: nat, m: nat, p: nat): nat
    requires m > 0
  {
    x / m + if p < x % m then 1 else 0
  }

  lemma BelowStep(x: nat, m: nat, p: nat)
    requires p < m
    ensures Below(x + 1, m, p) == Below(x, m, p) + if x % m == p then 1 else 0
  {
    var q, r := x / m, x % m;
    if r + 1 == m {
      DivModUnique(x + 1, m, q + 1, 0);
    } else {
      DivModUnique(x + 1, m, q, r + 1);
    }
  }

  lemma RoundedUp(k: nat, m: nat)
    requires m > 0
    ensures (k + m - 1) / m == k / m + if k % m == 0 then 0 else 1
  {
    if k % m == 0 {
      DivModUnique(k + m - 1, m, k / m, m - 1);
    } else {
      Distribute(k / m, 1, m);
      DivModUnique(k + m - 1, m, k / m + 1, k % m - 1);
    }
  }

  /** Division of a number that is close to a multiple, rounded down and up. */
  lemma NearMultiple(k: nat, m: nat, q: int, d: int)
    requires k == m * q + d && 0 - m < d < m
    ensures k / m == if d >= 0 then q else q - 1
    ensures (k + m - 1) / m == if d > 0 then q + 1 else q
  {
    RoundedUp(k, m);
    if d >= 0 {
      DivModUnique(k, m, q, d);
    } else {
      Distribute(q - 1, 1, m);
      DivModUnique(k, m, q - 1, d + m);
    }
  }

  // ---- Numbers a stride apart --------------------------------------------

  /** How many of the k numbers c, c + s, c + 2s, ... leave remainder p. */
  function Hits(c: nat, s: nat, k: nat, m: nat, p: nat): nat
    requires m > 0
  {
    if k == 0 then 0 else Hits(c, s, k - 1, m, p) + if (c + s * (k - 1)) % m == p then 1 else 0
  }

  ghost predicate Coprime(x: nat, y: nat) {
    forall d :: 1 < d <= y ==> !(x % d == 0 && y % d == 0)
  }

  lemma MultipleOf(m: nat, t: int)
    requires m > 0
    ensures (m * t) % m == 0
  {
    assert m * t + 0 == m * t;
    DivModUnique(m * t, m, t, 0);
  }

  /** m divides s times e. */
  predicate Meets(s: nat, e: nat, m: nat)
    requires m > 0
  {
    (s * e) % m == 0
  }

  /** The first multiple of s that m divides. */
  lemma FirstMultiple(s: nat, m: nat) returns (d: nat)
    requires m > 0
    ensures 0 < d <= m && Meets(s, d, m)
    ensures forall e :: 0 < e < d ==> !Meets(s, e, m)
  {
    d := 1;
    assert Meets(s, m, m) by { MultipleOf(m, s); }
    hide Meets;
    while !Meets(s, d, m)
      invariant 0 < d <= m
      invariant forall e :: 0 < e < d ==> !Meets(s, e, m)
      decreases m - d
    {
      assert d < m;
      d := d + 1;
    }
  }

  lemma RestOfMultiple(s: nat, m: nat, d: nat, q: nat, r: nat, t: nat)
    requires m > 0 && m == d * q + r && s * d == m * t
    ensures Meets(s, r, m)
  {
    calc {
      s * r;
      s * m - s * (d * q);
      { MulAssoc(s, d, q); }
      s * m - s * d * q;
      { MulAssoc(m, t, q); }
      s * m - m * (t * q);
      m * (s - t * q);
    }
    MultipleOf(m, s - t * q);
  }

  lemma MulAssoc(x: int, y: int, z: int)
    ensures x * (y * z) == x * y * z
  {
  }

  lemma Cancel(d: nat, x: nat, y: nat)
    requires d > 0 && d * x == d * y
    ensures x == y
  {
    MulSign(d, x - y);
    assert d * (x - y) == d * x - d * y;
  }

  /** That first multiple is m itself when s and m have no common divisor. */
  lemma CoprimeFirst(s: nat, m: nat, d: nat)
    requires m > 0 && Coprime(s, m)
    requires 0 < d <= m && Meets(s, d, m)
    requires forall e :: 0 < e < d ==> !Meets(s, e, m)
    ensures d == m
  {
    var q, r, t := m / d, m % d, s * d / m;
    assert s * d == m * t;
    RestOfMultiple(s, m, d, q, r, t);
    hide Coprime, Meets;
    if q > 1 { CommonQuotient(s, m, d, q, t); }
  }

  lemma CommonQuotient(s: nat, m: nat, d: nat, q: nat, t: nat)
    requires d > 0 && q > 1 && m == d * q && s * d == m * t
    ensures !Coprime(s, m)
  {
    MulAssoc(d, q, t);
    Cancel(d, s, q * t);
    MultipleOf(q, t);
    MultipleOf(q, d);
    MulSign(q, d);
    assert s % q == 0 && m % q == 0 && q <= m;
  }

  lemma CoprimeMultiple(s: nat, m: nat, e: nat)
    requires Coprime(s, m) && 0 < e < m
    ensures (s * e) % m != 0
  {
    var d := FirstMultiple(s, m);
    CoprimeFirst(s, m, d);
    assert !Meets(s, e, m);
  }

  lemma Differ(x: nat, y: nat, z: nat, m: nat)
    requires m > 0 && z == x + y && y % m != 0
    ensures x % m != z % m
  {
    if x % m == z % m { Congruent(x, y, m, x / m, z / m, x % m); }
  }

  lemma Congruent(x: nat, y: nat, m: nat, q: nat, t: nat, r: nat)
    requires m > 0 && x == m * q + r && x + y == m * t + r
    ensures y % m == 0
  {
    assert m * (t - q) == m * t - m * q;
    MultipleOf(m, t - q);
  }

  /** Within m steps of a stride coprime to m, no remainder comes up twice. */
  lemma NoRepeat(c: nat, s: nat, m: nat, i: nat, j: nat)
    requires m > 0 && Coprime(s, m) && i < j < i + m
    ensures (c + s * i) % m != (c + s * j) % m
  {
    hide Coprime;
    CoprimeMultiple(s, m, j - i);
    Distribute(i, j - i, s);
    Differ(c + s * i, s * (j - i), c + s * j, m);
  }

  lemma {:induction false} HitsOnce(c: nat, s: nat, k: nat, m: nat, p: nat)
    requires m > 0 && Coprime(s, m) && k <= m
    ensures Hits(c, s, k, m, p) == if exists j :: 0 <= j < k && (c + s * j) % m == p then 1 else 0
  {
    if k > 0 {
      HitsOnce(c, s, k - 1, m, p);
      if (c + s * (k - 1)) % m == p {
        forall j | 0 <= j < k - 1 ensures (c + s * j) % m != p {
          NoRepeat(c, s, m, j, k - 1);
        }
      }
    }
  }

  /** m different remainders are all there are. */
  lemma {:induction false} AllRemainders(f: seq<nat>, m: nat, p: nat)
    requires |f| == m && p < m
    requires forall j :: 0 <= j < m ==> f[j] < m
    requires forall i, j :: 0 <= i < j < m ==> f[i] != f[j]
    ensures p in f
  {
    DistinctCount(f);
    if p !in Values(f) { SubsetSmaller(Values(f), UpTo(m) - {p}); }
  }

  function Values(f: seq<nat>): (r: set<nat>)
    ensures forall x :: x in r <==> x in f
  {
    if f == [] then {} else Values(f[..|f| - 1]) + {f[|f| - 1]}
  }

  lemma {:induction false} DistinctCount(f: seq<nat>)
    requires forall i, j :: 0 <= i < j < |f| ==> f[i] != f[j]
    ensures |Values(f)| == |f|
  {
    if f != [] { DistinctCount(f[..|f| - 1]); }
  }

  function UpTo(m: nat): (r: set<nat>)
    ensures |r| == m && forall x: nat :: x in r <==> x < m
  {
    if m == 0 then {} else UpTo(m - 1) + {m - 1}
  }

  lemma {:induction false} SubsetSmaller<T>(a: set<T>, b: set<T>)
    requires a <= b
    ensures |a| <= |b|
  {
    if a != {} {
      var x :| x in a;
      SubsetSmaller(a - {x}, b - {x});
    }
  }

  /** m steps of a coprime stride visit every remainder exactly once. */
  lemma OneRound(c: nat, s: nat, m: nat, p: nat)
    requires p < m && Coprime(s, m)
    ensures Hits(c, s, m, m, p) == 1
  {
    var f: seq<nat> := seq(m, j requires 0 <= j => (c + s * j) % m);
    forall i, j | 0 <= i < j < m ensures f[i] != f[j] {
      NoRepeat(c, s, m, i, j);
    }
    AllRemainders(f, m, p);
    var j :| 0 <= j < m && f[j] == p;
    assert (c + s * j) % m == p;
    HitsOnce(c, s, m, m, p);
  }

  lemma {:induction false} HitsSplit(c: nat, s: nat, a: nat, b: nat, m: nat, p: nat)
    requires m > 0
    ensures Hits(c, s, a + b, m, p) == Hits(c, s, a, m, p) + Hits(c + s * a, s, b, m, p)
  {
    if b > 0 {
      HitsSplit(c, s, a, b - 1, m, p);
      assert s * (a + b - 1) == s * a + s * (b - 1);
    }
  }

  /** A coprime stride visits all remainders evenly, however many steps are taken. */
  lemma {:induction false} EvenHits(c: nat, s: nat, k: nat, m: nat, p: nat)
    requires p < m && Coprime(s, m)
    ensures k / m <= Hits(c, s, k, m, p) <= (k + m - 1) / m
  {
    hide Coprime, Hits;
    if k < m {
      HitsOnce(c, s, k, m, p);
      NearMultiple(k, m, 0, k);
    } else {
      EvenHits(c, s, k - m, m, p);
      HitsSplit(c, s, k - m, m, m, p);
      OneRound(c + s * (k - m), s, m, p);
      OneRoundMore(k, m);
      OneRoundMore(k + m - 1, m);
    }
  }

  lemma OneRoundMore(k: nat, m: nat)
    requires 0 < m <= k
    ensures k / m == (k - m) / m + 1 && k % m == (k - m) % m
  {
    Distribute((k - m) / m, 1, m);
    DivModUnique(k, m, (k - m) / m + 1, (k - m) % m);
  }

  /** A remainder modulo n keeps the remainder modulo a divisor of n. */
  lemma RemainderOfRemainder(x: nat, n: nat, d: nat)
    requires n > 0 && d > 0 && n % d == 0
    ensures (x % n) % d == x % d
  {
    var e, q, y := n / d, x / n, x % n;
    MulAssoc(d, e, q);
    Distribute(e * q, y / d, d);
    DivModUnique(x, d, e * q + y / d, y % d);
  }

  /** Steps of a multiple of d keep the remainder modulo d. */
  lemma StrideKeepsRemainder(c: nat, s: nat, j: nat, d: nat)
    requires d > 0 && s % d == 0
    ensures (c + s * j) % d == c % d
  {
    var t := s / d;
    MulAssoc(d, t, j);
    Distribute(t * j, c / d, d);
    DivModUnique(c + s * j, d, t * j + c / d, c % d);
  }
}
