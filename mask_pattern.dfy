/**
 * URA and MURA coded-mask patterns: the prime sizes (a twin-prime pair for
 * the URA, a prime `4m + 1` for the MURA), the quadratic-residue root
 * sequences, the 0/1 basic pattern built from them, and the balanced decoder
 * `(2A - 1) / sum(A)`.
 */
module MaskPatterns {

  /** A value, or the `ValueError` the constructors raise. */
  datatype Result<T> = Ok(value: T) | ValueError

  /** `_check_rank`: a negative rank raises `ValueError`. */
  function CheckRank(rank: int): (r: Result<nat>)
    ensures r.Ok? <==> rank >= 0
    ensures r.Ok? ==> r.value == rank
  {
    if rank < 0 then ValueError else Ok(rank)
  }

  // ---- primes ----

  predicate Divides(d: int, n: int)
    requires d > 0
  {
    n % d == 0
  }

  /** `isprime(n)` */
  predicate IsPrime(n: int)
  {
    n >= 2 && forall d :: 2 <= d < n ==> !Divides(d, n)
  }

  /** An even number above 2 is not prime. */
  lemma EvenNotPrime(n: int)
    requires n > 2 && n % 2 == 0
    ensures !IsPrime(n)
  {
    assert Divides(2, n);
  }

  lemma SmallPrimes()
    ensures IsPrime(2) && IsPrime(3) && !IsPrime(4) && IsPrime(5)
  {
    assert Divides(2, 4);
  }

  /** Euclidean division by a positive `d`. */
  lemma DivMod(x: int, d: int)
    requires d > 0
    ensures x == d * (x / d) + x % d && 0 <= x % d < d
  {
  }

  /** A positive multiple of a positive `p` is at least `p`. */
  lemma {:induction false} MultipleAtLeast(p: int, e: int)
    requires p > 0 && e >= 1
    ensures p * e >= p
    decreases e
  {
    if e > 1 {
      MultipleAtLeast(p, e - 1);
      assert p * e == p * (e - 1) + p;
    }
  }

  /** `p * t` leaves no remainder modulo `p`. */
  lemma MultipleMod(p: int, t: int)
    requires p > 0
    ensures (p * t) % p == 0
  {
    DivMod(p * t, p);
    var e := t - (p * t) / p;
    assert p * e == (p * t) % p;
    if e >= 1 {
      MultipleAtLeast(p, e);
    }
  }

  /** With `p == a*q + rm` and `a*b == p*k`, `rm*b` is a multiple of `p` as well. */
  lemma MultipleOfRemainder(p: int, a: int, b: int, q: int, rm: int, k: int)
    requires p == a * q + rm && a * b == p * k
    ensures rm * b == p * (b - q * k)
  {
    calc {
      rm * b;
      (p - a * q) * b;
      p * b - q * (a * b);
      p * b - q * (p * k);
      p * (b - q * k);
    }
  }

  /**
   * Euclid's lemma for residues: a prime divides no product of two numbers
   * strictly between 0 and itself.
   */
  lemma {:induction false} EuclidLemma(p: int, a: int, b: int)
    requires IsPrime(p) && 0 < a < p && 0 < b < p
    ensures (a * b) % p != 0
    decreases a
  {
    if a > 1 {
      var q, rm := p / a, p % a;
      assert !Divides(a, p);
      DivMod(p, a);
      EuclidLemma(p, rm, b);
      if (a * b) % p == 0 {
        var k := (a * b) / p;
        DivMod(a * b, p);
        MultipleOfRemainder(p, a, b, q, rm, k);
        MultipleMod(p, b - q * k);
        assert false;
      }
    } else {
      assert a * b == b;
    }
  }

  // ---- the URA prime pair ----

  /** `int(1e4)`: the URA prime pair is searched among the primes below it. */
  const PrimeLimit: nat := 10000

  /** Twin primes `(r, s)`: both prime, `r - s == 2`. */
  predicate IsTwin(r: int, s: int)
  {
    IsPrime(r) && IsPrime(s) && r - s == 2
  }

  /** `r` is the larger of a twin-prime pair. */
  predicate IsTwinUpper(r: int)
  {
    r >= 4 && IsTwin(r, r - 2)
  }

  /** The twin-prime pairs `(r, s)` with `r < n`, by increasing `r`. */
  function TwinsBelow(n: nat): seq<(nat, nat)>
  {
    if n == 0 then []
    else TwinsBelow(n - 1) + (if IsTwinUpper(n - 1) then [(n - 1, n - 3)] else [])
  }

  /** Counting twin pairs below a larger bound only extends the list. */
  lemma {:induction false} TwinsPrefix(a: nat, b: nat)
    requires a <= b
    ensures TwinsBelow(a) <= TwinsBelow(b)
    decreases b - a
  {
    if a < b {
      TwinsPrefix(a, b - 1);
    }
  }

  /**
   * The list holds twin pairs below `n` only, and the pair at index `k` is the
   * `k`-th (from 0): exactly `k` pairs lie below it.
   */
  lemma {:induction false} TwinsBelowSound(n: nat)
    ensures forall k :: 0 <= k < |TwinsBelow(n)| ==>
              IsTwin(TwinsBelow(n)[k].0, TwinsBelow(n)[k].1) && TwinsBelow(n)[k].0 < n &&
              |TwinsBelow(TwinsBelow(n)[k].0)| == k
  {
    if n > 0 {
      TwinsBelowSound(n - 1);
      var t, t' := TwinsBelow(n - 1), TwinsBelow(n);
      forall k | 0 <= k < |t'|
        ensures IsTwin(t'[k].0, t'[k].1) && t'[k].0 < n && |TwinsBelow(t'[k].0)| == k
      {
        if k < |t| {
          assert t'[k] == t[k];
        } else {
          assert t'[k] == (n - 1, n - 3);
        }
      }
    }
  }

  /** Every twin pair below `n` is in the list. */
  lemma {:induction false} TwinsBelowComplete(n: nat)
    ensures forall r :: 0 <= r < n && IsTwinUpper(r) ==> (r, r - 2) in TwinsBelow(n)
  {
    if n > 0 {
      TwinsBelowComplete(n - 1);
      assert TwinsBelow(n - 1) <= TwinsBelow(n);
    }
  }

  /** The first twin pair is `(5, 3)`, so rank 0 selects it. */
  lemma FirstTwin()
    ensures |TwinsBelow(PrimeLimit)| > 0 && TwinsBelow(PrimeLimit)[0] == (5, 3)
  {
    SmallPrimes();
    assert TwinsBelow(5) == [] by {
      assert TwinsBelow(4) == [] by {
        assert TwinsBelow(3) == [] by {
          assert TwinsBelow(2) == [] by {
            assert TwinsBelow(1) == [];
          }
        }
      }
    }
    assert TwinsBelow(6) == [(5, 3)];
    TwinsPrefix(6, PrimeLimit);
  }

  /**
   * Between consecutive primes `p1 < p2` (none in between) the gap is 2
   * exactly when `(p2, p2 - 2)` is a twin pair.
   */
  lemma ConsecutiveGap(p1: nat, p2: nat)
    requires IsPrime(p1) && IsPrime(p2) && p1 < p2
    requires forall q :: p1 < q < p2 ==> !IsPrime(q)
    ensures p2 - p1 == 2 <==> IsTwinUpper(p2)
  {
    if IsTwinUpper(p2) {
      assert p1 >= p2 - 2;
      if p1 == p2 - 1 {
        if p2 % 2 == 0 { EvenNotPrime(p2); } else { EvenNotPrime(p1); }
      }
    }
    if p2 - p1 == 2 {
      assert p1 >= 2;
    }
  }

  /**
   * `_get_prime_pair`: walk the primes below 10^4 in order, count the twin
   * gaps, and return the `rank`-th pair `(p2, p1)`; `ValueError` when there
   * are not that many.
   */
  method GetPrimePair(rank: nat) returns (r: Result<(nat, nat)>)
    ensures r.Ok? <==> rank < |TwinsBelow(PrimeLimit)|
    ensures r.Ok? ==> r.value == TwinsBelow(PrimeLimit)[rank]
  {
    SmallPrimes();
    var p1: nat, thisRank: int := 2, -1;
    var p2: nat := 3;
    while p2 < PrimeLimit
      invariant 3 <= p2 <= PrimeLimit
      invariant IsPrime(p1) && p1 < p2 && forall q :: p1 < q < p2 ==> !IsPrime(q)
      invariant thisRank + 1 == |TwinsBelow(p2)| <= rank
    {
      if IsPrime(p2) {
        ConsecutiveGap(p1, p2);
        if p2 - p1 == 2 {
          thisRank := thisRank + 1;
          if thisRank == rank {
            TwinsPrefix(p2 + 1, PrimeLimit);
            return Ok((p2, p1));
          }
        }
        p1 := p2;
      }
      p2 := p2 + 1;
    }
    r := ValueError;
  }

  // ---- the MURA prime ----

  /** A prime `l = 4m + 1` with `m >= 1`. */
  predicate IsMuraPrime(l: int)
  {
    l >= 5 && l % 4 == 1 && IsPrime(l)
  }

  /** The primes `4m + 1` (`m >= 1`) below `n`, in increasing order. */
  function MuraPrimesBelow(n: nat): seq<nat>
  {
    if n == 0 then [] else MuraPrimesBelow(n - 1) + (if IsMuraPrime(n - 1) then [n - 1] else [])
  }

  lemma {:induction false} MuraPrefix(a: nat, b: nat)
    requires a <= b
    ensures MuraPrimesBelow(a) <= MuraPrimesBelow(b)
    decreases b - a
  {
    if a < b {
      MuraPrefix(a, b - 1);
    }
  }

  /**
   * The list holds every MURA prime below `n` and nothing else, and the one
   * at index `k` has exactly `k` MURA primes below it.
   */
  lemma {:induction false} MuraPrimesSpec(n: nat)
    ensures forall k :: 0 <= k < |MuraPrimesBelow(n)| ==>
              var l := MuraPrimesBelow(n)[k]; IsMuraPrime(l) && l < n && |MuraPrimesBelow(l)| == k
    ensures forall l: nat :: l < n && IsMuraPrime(l) ==> l in MuraPrimesBelow(n)
  {
    if n > 0 {
      MuraPrimesSpec(n - 1);
    }
  }

  /** From `4m + 1` to `4(m + 1) + 1` only `4m + 1` itself can be added. */
  lemma MuraStep(m: nat)
    requires m >= 1
    ensures MuraPrimesBelow(4 * m + 5) == MuraPrimesBelow(4 * m + 1) + (if IsPrime(4 * m + 1) then [4 * m + 1] else [])
  {
    assert MuraPrimesBelow(4 * m + 5) == MuraPrimesBelow(4 * m + 4);
    assert MuraPrimesBelow(4 * m + 4) == MuraPrimesBelow(4 * m + 3);
    assert MuraPrimesBelow(4 * m + 3) == MuraPrimesBelow(4 * m + 2);
  }

  /**
   * `_get_prime`: for `m = 1, 2, ...` count the primes `4m + 1` and return the
   * `rank`-th. The search has no bound of its own; `bound` is a number below
   * which more than `rank` such primes lie, and only serves to show that it ends.
   */
  method GetPrime(rank: nat, ghost bound: nat) returns (l: nat)
    requires rank < |MuraPrimesBelow(bound)|
    ensures IsMuraPrime(l) && |MuraPrimesBelow(l)| == rank
  {
    var m: nat, thisRank: int := 1, -1;
    assert MuraPrimesBelow(5) == [] by {
      assert MuraPrimesBelow(4) == [] by {
        assert MuraPrimesBelow(3) == [] by {
          assert MuraPrimesBelow(2) == [] by {
            assert MuraPrimesBelow(1) == [];
          }
        }
      }
    }
    while true
      invariant m >= 1 && thisRank + 1 == |MuraPrimesBelow(4 * m + 1)| <= rank
      decreases bound - (4 * m + 1)
    {
      if bound <= 4 * m + 1 {
        MuraPrefix(bound, 4 * m + 1);
        assert false;
      }
      l := 4 * m + 1;
      MuraStep(m);
      if IsPrime(l) {
        thisRank := thisRank + 1;
        if thisRank == rank {
          MuraPrimesSpec(l + 4);
          assert MuraPrimesBelow(l + 4)[rank] == l;
          return;
        }
      }
      m := m + 1;
    }
  }

  /** The first MURA prime is 5, so rank 0 selects it. */
  lemma FirstMuraPrime(l: nat)
    requires IsMuraPrime(l) && |MuraPrimesBelow(l)| == 0
    ensures l == 5
  {
    SmallPrimes();
    assert IsMuraPrime(5);
    if l > 5 {
      MuraPrimesSpec(l);
    }
  }

  /** The rank determines the MURA prime: different primes have different ranks. */
  lemma MuraPrimeUnique(a: nat, b: nat)
    requires IsMuraPrime(a) && IsMuraPrime(b) && |MuraPrimesBelow(a)| == |MuraPrimesBelow(b)|
    ensures a == b
  {
    if a < b {
      MuraPrimesSpec(b);
    } else if b < a {
      MuraPrimesSpec(a);
    }
  }

  // ---- the pattern root ----

  /** `x**2 % p` */
  function SquareMod(x: int, p: int): int
    requires p > 0
  {
    (x * x) % p
  }

  /** `k` is `x**2 % p` for some `x` in `1 .. n - 1`. */
  predicate ResidueBelow(k: int, p: int, n: int)
    requires p > 0
  {
    exists x :: 1 <= x < n && SquareMod(x, p) == k
  }

  /** `k` is a non-zero square modulo `p`: `x**2 % p` for some `x` in `1 .. p - 1`. */
  predicate IsResidue(k: int, p: int)
    requires p > 0
  {
    ResidueBelow(k, p, p)
  }

  lemma ResidueBelowStep(k: int, p: int, x: int)
    requires p > 0
    ensures ResidueBelow(k, p, x + 1) <==> ResidueBelow(k, p, x) || (1 <= x && SquareMod(x, p) == k)
  {
    if 1 <= x && SquareMod(x, p) == k {
      assert 1 <= x < x + 1 && SquareMod(x, p) == k;
    }
  }

  /** 0 is not a residue of a prime, so the root starts with -1. */
  lemma ZeroNotResidue(p: int)
    requires IsPrime(p)
    ensures !IsResidue(0, p)
  {
    forall x | 1 <= x < p ensures SquareMod(x, p) != 0 {
      EuclidLemma(p, x, x);
    }
  }

  /** The root sequence of a prime `p`: 1 at the non-zero squares modulo `p`, -1 elsewhere. */
  function Root(p: nat): (c: seq<int>)
    requires p > 0
    ensures |c| == p
    ensures forall k :: 0 <= k < p ==> (c[k] == 1 <==> IsResidue(k, p)) && (c[k] == 1 || c[k] == -1)
  {
    seq(p, k => if IsResidue(k, p) then 1 else -1)
  }

  /**
   * `_get_pattern_root` for one prime: `-1` everywhere, then `1` written at
   * `x**2 % p` for `x = 1 .. p - 1`.
   */
  method GetPatternRoot(p: nat) returns (c: array<int>)
    requires IsPrime(p)
    ensures c[..] == Root(p)
    ensures c[0] == -1
  {
    c := new int[p](k => -1);
    var x := 1;
    while x < p
      invariant 1 <= x <= p && c.Length == p
      invariant forall k :: 0 <= k < p ==> c[k] == (if ResidueBelow(k, p, x) then 1 else -1)
    {
      c[SquareMod(x, p)] := 1;
      forall k | 0 <= k < p ensures c[k] == (if ResidueBelow(k, p, x + 1) then 1 else -1) {
        ResidueBelowStep(k, p, x);
      }
      x := x + 1;
    }
    ZeroNotResidue(p);
  }

  // ---- the basic pattern ----

  /** Cell `(i, j)` of the construction: row 0 closed, column 0 open below it, else open where the roots agree. */
  function UraCell(cr: seq<int>, cs: seq<int>, i: nat, j: nat): int
    requires i < |cr| && j < |cs|
  {
    if i == 0 then 0
    else if j == 0 then 1
    else if cr[i] * cs[j] == 1 then 1
    else 0
  }

  /**
   * Away from row and column 0, a cell of the construction on two prime roots
   * is open exactly when `i` and `j` are both residues or both non-residues.
   */
  lemma UraCellResidues(r: nat, s: nat, i: nat, j: nat)
    requires r > 0 && s > 0 && 1 <= i < r && 1 <= j < s
    ensures UraCell(Root(r), Root(s), i, j) == 1 <==> (IsResidue(i, r) <==> IsResidue(j, s))
    ensures UraCell(Root(r), Root(s), i, j) == 0 || UraCell(Root(r), Root(s), i, j) == 1
  {
  }

  /** The cells of a 2-D array, row by row. */
  function Entries(a: array2<int>): (m: seq<seq<int>>)
    reads a
    ensures |m| == a.Length0 && forall i :: 0 <= i < |m| ==> |m[i]| == a.Length1
    ensures forall i, j :: 0 <= i < a.Length0 && 0 <= j < a.Length1 ==> m[i][j] == a[i, j]
  {
    seq(a.Length0, i requires 0 <= i < a.Length0 reads a => seq(a.Length1, j requires 0 <= j < a.Length1 reads a => a[i, j]))
  }

  /** URA `_get_basic_pattern`: the `len(cr) x len(cs)` array of the construction. */
  method UraBasicPattern(cr: array<int>, cs: array<int>) returns (a: array2<int>)
    ensures a.Length0 == cr.Length && a.Length1 == cs.Length
    ensures forall i, j :: 0 <= i < a.Length0 && 0 <= j < a.Length1 ==> a[i, j] == UraCell(cr[..], cs[..], i, j)
  {
    a := new int[cr.Length, cs.Length]((i, j) => 0);
    for i := 0 to cr.Length
      invariant forall i', j :: 0 <= i' < i && 0 <= j < cs.Length ==> a[i', j] == UraCell(cr[..], cs[..], i', j)
    {
      for j := 0 to cs.Length
        invariant forall i', j' :: 0 <= i' < i && 0 <= j' < cs.Length ==> a[i', j'] == UraCell(cr[..], cs[..], i', j')
        invariant forall j' :: 0 <= j' < j ==> a[i, j'] == UraCell(cr[..], cs[..], i, j')
      {
        if i == 0 {
          a[i, j] := 0;
        } else if j == 0 {
          a[i, j] := 1;
        } else if cr[i] * cs[j] == 1 {
          a[i, j] := 1;
        } else {
          a[i, j] := 0;
        }
      }
    }
  }

  /**
   * MURA `_get_basic_pattern`: the same construction on one root (cells left
   * 0 where nothing is written), returned transposed.
   */
  method MuraBasicPattern(c: array<int>) returns (t: array2<int>)
    ensures t.Length0 == c.Length && t.Length1 == c.Length
    ensures forall i, j :: 0 <= i < c.Length && 0 <= j < c.Length ==> t[i, j] == UraCell(c[..], c[..], j, i)
  {
    var a := new int[c.Length, c.Length]((i, j) => 0);
    for i := 0 to c.Length
      invariant forall i', j :: 0 <= i' < i && 0 <= j < c.Length ==> a[i', j] == UraCell(c[..], c[..], i', j)
      invariant forall i', j :: i <= i' < c.Length && 0 <= j < c.Length ==> a[i', j] == 0
    {
      for j := 0 to c.Length
        invariant forall i', j' :: 0 <= i' < i && 0 <= j' < c.Length ==> a[i', j'] == UraCell(c[..], c[..], i', j')
        invariant forall j' :: 0 <= j' < j ==> a[i, j'] == UraCell(c[..], c[..], i, j')
        invariant forall i', j' :: i < i' < c.Length && 0 <= j' < c.Length ==> a[i', j'] == 0
        invariant forall j' :: j <= j' < c.Length ==> a[i, j'] == 0
      {
        if i == 0 {
          a[i, j] := 0;
        } else if j == 0 {
          a[i, j] := 1;
        } else if c[i] * c[j] == 1 {
          a[i, j] := 1;
        }
      }
    }
    t := new int[c.Length, c.Length]((i, j) reads a requires 0 <= i < c.Length && 0 <= j < c.Length => a[j, i]);
  }

  // ---- sums and decoders ----

  function RowTotal(r: seq<int>): int
  {
    if |r| == 0 then 0 else RowTotal(r[..|r| - 1]) + r[|r| - 1]
  }

  /** `A.sum()`, row by row. */
  function Total(m: seq<seq<int>>): int
  {
    if |m| == 0 then 0 else Total(m[..|m| - 1]) + RowTotal(m[|m| - 1])
  }

  /** A row of non-negative cells sums to at least its first cell, and to at least its number of 1 cells after it. */
  lemma {:induction false} RowTotalBound(r: seq<int>)
    requires forall k :: 0 <= k < |r| ==> r[k] >= 0
    ensures RowTotal(r) >= 0
    ensures |r| >= 1 ==> RowTotal(r) >= r[0]
    ensures |r| >= 1 && (forall k :: 1 <= k < |r| ==> r[k] == 1) ==> RowTotal(r) >= |r| - 1
    decreases |r|
  {
    if |r| > 0 {
      RowTotalBound(r[..|r| - 1]);
    }
  }

  /** Non-negative cells with 1 in column 0 below row 0 sum to at least the number of rows less one. */
  lemma {:induction false} TotalColumnBound(m: seq<seq<int>>)
    requires forall i :: 0 <= i < |m| ==> |m[i]| >= 1 && forall j :: 0 <= j < |m[i]| ==> m[i][j] >= 0
    requires forall i :: 1 <= i < |m| ==> m[i][0] == 1
    ensures Total(m) >= |m| - 1 && Total(m) >= 0
    decreases |m|
  {
    if |m| > 0 {
      TotalColumnBound(m[..|m| - 1]);
      RowTotalBound(m[|m| - 1]);
    }
  }

  /** Non-negative cells with 1 in row 0 after column 0 sum to at least the number of columns less one. */
  lemma {:induction false} TotalRowBound(m: seq<seq<int>>)
    requires |m| >= 1 && |m[0]| >= 1
    requires forall i :: 0 <= i < |m| ==> forall j :: 0 <= j < |m[i]| ==> m[i][j] >= 0
    requires forall j :: 1 <= j < |m[0]| ==> m[0][j] == 1
    ensures Total(m) >= |m[0]| - 1
    decreases |m|
  {
    if |m| == 1 {
      RowTotalBound(m[0]);
      assert m[..0] == [];
    } else {
      TotalRowBound(m[..|m| - 1]);
      RowTotalBound(m[|m| - 1]);
    }
  }

  /** `G = 2*A - 1`: the decoder before its division. */
  method Signed(a: array2<int>) returns (g: array2<real>)
    ensures fresh(g) && g.Length0 == a.Length0 && g.Length1 == a.Length1
    ensures forall i, j :: 0 <= i < a.Length0 && 0 <= j < a.Length1 ==> g[i, j] == (2 * a[i, j] - 1) as real
  {
    g := new real[a.Length0, a.Length1]((i, j) reads a requires 0 <= i < a.Length0 && 0 <= j < a.Length1 =>
      (2 * a[i, j] - 1) as real);
  }

  /** `G /= d` in place. */
  method DivideInPlace(g: array2<real>, d: real)
    requires d != 0.0
    modifies g
    ensures forall i, j :: 0 <= i < g.Length0 && 0 <= j < g.Length1 ==> g[i, j] == old(g[i, j]) / d
  {
    for i := 0 to g.Length0
      invariant forall i', j :: 0 <= i' < i && 0 <= j < g.Length1 ==> g[i', j] == old(g[i', j]) / d
      invariant forall i', j :: i <= i' < g.Length0 && 0 <= j < g.Length1 ==> g[i', j] == old(g[i', j])
    {
      for j := 0 to g.Length1
        invariant forall i', j' :: 0 <= i' < i && 0 <= j' < g.Length1 ==> g[i', j'] == old(g[i', j']) / d
        invariant forall j' :: 0 <= j' < j ==> g[i, j'] == old(g[i, j']) / d
        invariant forall i', j' :: i < i' < g.Length0 && 0 <= j' < g.Length1 ==> g[i', j'] == old(g[i', j'])
        invariant forall j' :: j <= j' < g.Length1 ==> g[i, j'] == old(g[i, j'])
      {
        g[i, j] := g[i, j] / d;
      }
    }
  }

  /** URA `_get_decoder`: `(2A - 1) / A.sum()`, so `1/S` on open cells and `-1/S` on closed ones. */
  method UraDecoder(a: array2<int>) returns (g: array2<real>)
    requires Total(Entries(a)) > 0
    ensures g.Length0 == a.Length0 && g.Length1 == a.Length1
    ensures forall i, j :: 0 <= i < a.Length0 && 0 <= j < a.Length1 ==>
              g[i, j] == (2 * a[i, j] - 1) as real / Total(Entries(a)) as real
  {
    g := Signed(a);
    DivideInPlace(g, Total(Entries(a)) as real);
  }

  /** MURA `_get_decoder`: `(2A - 1) / A.sum()` with `G[0, 0]` set to 1 before the division. */
  method MuraDecoder(a: array2<int>) returns (g: array2<real>)
    requires a.Length0 >= 1 && a.Length1 >= 1 && Total(Entries(a)) > 0
    ensures g.Length0 == a.Length0 && g.Length1 == a.Length1
    ensures g[0, 0] == 1.0 / Total(Entries(a)) as real
    ensures forall i, j :: 0 <= i < a.Length0 && 0 <= j < a.Length1 && (i, j) != (0, 0) ==>
              g[i, j] == (2 * a[i, j] - 1) as real / Total(Entries(a)) as real
  {
    g := Signed(a);
    g[0, 0] := 1.0;
    DivideInPlace(g, Total(Entries(a)) as real);
  }

  // ---- the mask pattern classes ----

  /** A URA mask pattern: its rank, twin-prime pair, basic pattern and decoder. */
  class UraMaskPattern {
    const patternType: string
    const rank: nat
    const primePair: (nat, nat)
    const basicPattern: array2<int>
    const basicDecoder: array2<real>

    /** The pattern is the construction on the pair's roots, and the decoder its balanced sign pattern. */
    predicate Valid()
      reads basicPattern, basicDecoder
    {
      var (r, s) := primePair;
      IsTwin(r, s) &&
      basicPattern.Length0 == r && basicPattern.Length1 == s &&
      basicDecoder.Length0 == r && basicDecoder.Length1 == s &&
      (forall i, j :: 0 <= i < r && 0 <= j < s ==> basicPattern[i, j] == UraCell(Root(r), Root(s), i, j)) &&
      Total(Entries(basicPattern)) > 0 &&
      (forall i, j :: 0 <= i < r && 0 <= j < s ==>
         basicDecoder[i, j] == (2 * basicPattern[i, j] - 1) as real / Total(Entries(basicPattern)) as real)
    }

    /** `__init__` once the rank is checked and its prime pair found. */
    constructor (rank: nat, primePair: (nat, nat))
      requires IsTwin(primePair.0, primePair.1)
      ensures patternType == "URA" && this.rank == rank && this.primePair == primePair && Valid()
    {
      var (r, s) := primePair;
      var cr := GetPatternRoot(r);
      var cs := GetPatternRoot(s);
      var a := UraBasicPattern(cr, cs);
      UraPatternSum(a, r, s);
      var g := UraDecoder(a);
      patternType := "URA";
      this.rank, this.primePair, basicPattern, basicDecoder := rank, primePair, a, g;
    }

    /** `URAMaskPattern(rank)`: `ValueError` for a negative rank or when no such twin pair lies below 10^4. */
    static method Create(rank: int) returns (r: Result<UraMaskPattern>)
      ensures r.Ok? <==> 0 <= rank < |TwinsBelow(PrimeLimit)|
      ensures r.Ok? ==> r.value.Valid() && r.value.patternType == "URA" && r.value.rank == rank &&
                        r.value.primePair == TwinsBelow(PrimeLimit)[rank]
    {
      var checked := CheckRank(rank);
      if checked.ValueError? {
        return ValueError;
      }
      var pair := GetPrimePair(checked.value);
      if pair.ValueError? {
        return ValueError;
      }
      TwinsBelowSound(PrimeLimit);
      var u := new UraMaskPattern(checked.value, pair.value);
      r := Ok(u);
    }
  }

  /** The URA pattern sums to at least `r - 1` (its column 0), which is positive. */
  lemma UraPatternSum(a: array2<int>, r: nat, s: nat)
    requires IsTwin(r, s) && a.Length0 == r && a.Length1 == s
    requires forall i, j :: 0 <= i < r && 0 <= j < s ==> a[i, j] == UraCell(Root(r), Root(s), i, j)
    ensures Total(Entries(a)) >= r - 1 > 0
  {
    var m := Entries(a);
    TotalColumnBound(m);
  }

  /** The URA decoder is `+1/S` on open cells and `-1/S` on closed ones, with `S >= r - 1 > 0`. */
  lemma UraDecoderValues(u: UraMaskPattern, i: nat, j: nat)
    requires u.Valid() && i < u.primePair.0 && j < u.primePair.1
    ensures Total(Entries(u.basicPattern)) >= u.primePair.0 - 1 > 0
    ensures u.basicPattern[i, j] == 1 ==> u.basicDecoder[i, j] == 1.0 / Total(Entries(u.basicPattern)) as real
    ensures u.basicPattern[i, j] == 0 ==> u.basicDecoder[i, j] == -1.0 / Total(Entries(u.basicPattern)) as real
    ensures u.basicPattern[i, j] == 0 || u.basicPattern[i, j] == 1
  {
    UraPatternSum(u.basicPattern, u.primePair.0, u.primePair.1);
  }

  /** A MURA mask pattern: its rank, prime size `l`, basic pattern and decoder. */
  class MuraMaskPattern {
    const patternType: string
    const rank: nat
    const l: nat
    const basicPattern: array2<int>
    const basicDecoder: array2<real>

    /** The pattern is the transposed construction on the root of `l`, and the decoder its balanced sign pattern. */
    predicate Valid()
      reads basicPattern, basicDecoder
    {
      IsMuraPrime(l) &&
      basicPattern.Length0 == l && basicPattern.Length1 == l &&
      basicDecoder.Length0 == l && basicDecoder.Length1 == l &&
      (forall i, j :: 0 <= i < l && 0 <= j < l ==> basicPattern[i, j] == UraCell(Root(l), Root(l), j, i)) &&
      Total(Entries(basicPattern)) > 0 &&
      basicDecoder[0, 0] == 1.0 / Total(Entries(basicPattern)) as real &&
      (forall i, j :: 0 <= i < l && 0 <= j < l && (i, j) != (0, 0) ==>
         basicDecoder[i, j] == (2 * basicPattern[i, j] - 1) as real / Total(Entries(basicPattern)) as real)
    }

    /** `__init__` once the rank is checked and its prime found. */
    constructor (rank: nat, l: nat)
      requires IsMuraPrime(l)
      ensures patternType == "MURA" && this.rank == rank && this.l == l && Valid()
    {
      var c := GetPatternRoot(l);
      var a := MuraBasicPattern(c);
      MuraPatternSum(a, l);
      var g := MuraDecoder(a);
      patternType := "MURA";
      this.rank, this.l, basicPattern, basicDecoder := rank, l, a, g;
    }

    /**
     * `MURAMaskPattern(rank)`: `ValueError` for a negative rank. `bound` is a
     * number below which more than `rank` MURA primes lie.
     */
    static method Create(rank: int, ghost bound: nat) returns (r: Result<MuraMaskPattern>)
      requires rank >= 0 ==> rank < |MuraPrimesBelow(bound)|
      ensures r.Ok? <==> rank >= 0
      ensures r.Ok? ==> r.value.Valid() && r.value.patternType == "MURA" && r.value.rank == rank &&
                        |MuraPrimesBelow(r.value.l)| == rank
    {
      var checked := CheckRank(rank);
      if checked.ValueError? {
        return ValueError;
      }
      var l := GetPrime(checked.value, bound);
      var u := new MuraMaskPattern(checked.value, l);
      r := Ok(u);
    }
  }

  /** The MURA pattern sums to at least `l - 1` (its row 0), which is positive. */
  lemma MuraPatternSum(a: array2<int>, l: nat)
    requires IsMuraPrime(l) && a.Length0 == l && a.Length1 == l
    requires forall i, j :: 0 <= i < l && 0 <= j < l ==> a[i, j] == UraCell(Root(l), Root(l), j, i)
    ensures Total(Entries(a)) >= l - 1 > 0
  {
    var m := Entries(a);
    TotalRowBound(m);
  }

  /**
   * The MURA pattern has column 0 closed and row 0 open after its first cell,
   * and, away from them, is open where `i` and `j` are both residues or both
   * non-residues.
   */
  lemma MuraPatternValues(u: MuraMaskPattern, i: nat, j: nat)
    requires u.Valid() && i < u.l && j < u.l
    ensures u.basicPattern[i, 0] == 0
    ensures 1 <= j ==> u.basicPattern[0, j] == 1
    ensures 1 <= i && 1 <= j ==> (u.basicPattern[i, j] == 1 <==> (IsResidue(i, u.l) <==> IsResidue(j, u.l)))
  {
    if 1 <= i && 1 <= j {
      UraCellResidues(u.l, u.l, j, i);
    }
  }

  /** The MURA decoder is `+1/S` on open cells and `-1/S` on closed ones except `1/S` at `(0, 0)`, with `S >= l - 1 > 0`. */
  lemma MuraDecoderValues(u: MuraMaskPattern, i: nat, j: nat)
    requires u.Valid() && i < u.l && j < u.l
    ensures Total(Entries(u.basicPattern)) >= u.l - 1 > 0
    ensures u.basicPattern[i, j] == 0 || u.basicPattern[i, j] == 1
    ensures (i, j) != (0, 0) && u.basicPattern[i, j] == 1 ==> u.basicDecoder[i, j] == 1.0 / Total(Entries(u.basicPattern)) as real
    ensures (i, j) != (0, 0) && u.basicPattern[i, j] == 0 ==> u.basicDecoder[i, j] == -1.0 / Total(Entries(u.basicPattern)) as real
  {
    MuraPatternSum(u.basicPattern, u.l);
  }

  /**
   * The URA pattern has row 0 closed and column 0 open below it, and, away
   * from them, is open where `i` and `j` are both residues or both non-residues.
   */
  lemma UraPatternValues(u: UraMaskPattern, i: nat, j: nat)
    requires u.Valid() && i < u.primePair.0 && j < u.primePair.1
    ensures u.basicPattern[0, j] == 0
    ensures 1 <= i ==> u.basicPattern[i, 0] == 1
    ensures 1 <= i && 1 <= j ==>
              (u.basicPattern[i, j] == 1 <==> (IsResidue(i, u.primePair.0) <==> IsResidue(j, u.primePair.1)))
  {
    if 1 <= i && 1 <= j {
      UraCellResidues(u.primePair.0, u.primePair.1, i, j);
    }
  }
}
