/** Bytes, their bits, and the sequence operations shared by the other modules. */
module Bytes {
  type byte = x: nat | x < 256

  function Pow2(n: nat): (r: nat)
    ensures r > 0
  {
    if n == 0 then 1 else 2 * Pow2(n - 1)
  }

  /** Bit k of x is 1: (x >> k) & 1. */
  predicate BitAt(x: nat, k: nat)
    decreases k
  {
    if k == 0 then x % 2 == 1 else BitAt(x / 2, k - 1)
  }

  /** x | (1 << k) */
  function SetBit(x: nat, k: nat): nat
    decreases k
  {
    if k == 0 then x - x % 2 + 1 else x % 2 + 2 * SetBit(x / 2, k - 1)
  }

  lemma HalfOfProduct(x: nat, d: nat, f: nat, q: nat, r: nat)
    requires d == 2 * f && x == d * q + r && r < d
    ensures x / 2 == f * q + r / 2 && r / 2 < f
  {
    assert d * q == 2 * (f * q);
  }

  lemma {:induction false} BitOfQuotient(x: nat, k: nat, q: nat, r: nat)
    requires x == Pow2(k) * q + r && r < Pow2(k)
    ensures BitAt(x, k) <==> q % 2 == 1
    decreases k
  {
    if k > 0 {
      HalfOfProduct(x, Pow2(k), Pow2(k - 1), q, r);
      BitOfQuotient(x / 2, k - 1, q, r / 2);
    }
  }

  lemma DoubleProduct(x: nat, d: nat, f: nat, q: nat, r: nat)
    requires d == 2 * f && x / 2 == f * q + r && r < f
    ensures x == d * q + (2 * r + x % 2) && 2 * r + x % 2 < d
  {
    assert d * q == 2 * (f * q);
  }

  /** Quotient and remainder of a division by 2^k. */
  lemma {:induction false} SplitAt(x: nat, k: nat) returns (q: nat, r: nat)
    ensures x == Pow2(k) * q + r && r < Pow2(k)
    decreases k
  {
    if k == 0 {
      q, r := x, 0;
    } else {
      q, r := SplitAt(x / 2, k - 1);
      DoubleProduct(x, Pow2(k), Pow2(k - 1), q, r);
      r := 2 * r + x % 2;
    }
  }

  /** Divided by 2^k, x leaves the odd quotient 2h + 1 and the remainder r. */
  predicate LeavesOdd(x: nat, k: nat, h: nat, r: nat) {
    x == Pow2(k) * (2 * h + 1) + r && r < Pow2(k)
  }

  /** Bit k is counted from the least significant one: it is 1 if a division by 2^k leaves an odd quotient. */
  lemma BitAtIs(x: nat, k: nat)
    ensures BitAt(x, k) <==> exists h: nat, r: nat :: LeavesOdd(x, k, h, r)
  {
    if BitAt(x, k) {
      var q, r := SplitAt(x, k);
      BitOfQuotient(x, k, q, r);
      assert LeavesOdd(x, k, q / 2, r);
    }
    if h: nat, r: nat :| LeavesOdd(x, k, h, r) {
      BitOfQuotient(x, k, 2 * h + 1, r);
    }
  }

  lemma {:induction false} SetBitSets(x: nat, k: nat, j: nat)
    ensures BitAt(SetBit(x, k), j) <==> j == k || BitAt(x, j)
    decreases k + j
  {
    if k > 0 && j > 0 {
      SetBitSets(x / 2, k - 1, j - 1);
    } else if j > 0 {
      assert SetBit(x, 0) / 2 == x / 2;
    }
  }

  lemma {:induction false} SetBitBound(x: nat, k: nat, n: nat)
    requires x < Pow2(n) && k < n
    ensures SetBit(x, k) < Pow2(n)
    decreases k
  {
    if k > 0 {
      SetBitBound(x / 2, k - 1, n - 1);
    }
  }

  lemma {:induction false} SameBits(x: nat, y: nat, n: nat)
    requires x < Pow2(n) && y < Pow2(n)
    requires forall k :: 0 <= k < n ==> BitAt(x, k) == BitAt(y, k)
    ensures x == y
    decreases n
  {
    if n > 0 {
      assert BitAt(x, 0) == BitAt(y, 0);
      forall k | 0 <= k < n - 1 ensures BitAt(x / 2, k) == BitAt(y / 2, k) {
        assert BitAt(x, k + 1) == BitAt(y, k + 1);
      }
      SameBits(x / 2, y / 2, n - 1);
    }
  }

  lemma ByteWidth()
    ensures Pow2(8) == 256
  {
    assert Pow2(4) == 16;
  }

  lemma {:induction false} ZeroHasNoBits(k: nat)
    ensures !BitAt(0, k)
  {
    if k > 0 {
      ZeroHasNoBits(k - 1);
    }
  }

  /** The last `n` elements of `s`, or all of them when there are fewer. */
  function LastN<T>(s: seq<T>, n: nat): (r: seq<T>)
    ensures |r| == if |s| <= n then |s| else n
  {
    if |s| <= n then s else s[|s| - n..]
  }

  /** Keeping the last n elements after every append is keeping the last n of everything. */
  lemma LastNOfAppend<T>(a: seq<T>, b: seq<T>, n: nat)
    ensures LastN(LastN(a, n) + b, n) == LastN(a + b, n)
  {
  }

  lemma SubOfPrefix<T>(s: seq<T>, k: nat, a: nat, b: nat)
    requires a <= b <= k <= |s|
    ensures s[..k][a..b] == s[a..b]
  {
  }

  function Flatten<T>(xss: seq<seq<T>>): seq<T> {
    if xss == [] then [] else xss[0] + Flatten(xss[1..])
  }

  lemma {:induction false} FlattenAppend<T>(a: seq<seq<T>>, b: seq<seq<T>>)
    ensures Flatten(a + b) == Flatten(a) + Flatten(b)
  {
    if a == [] {
      assert a + b == b;
    } else {
      assert (a + b)[1..] == a[1..] + b;
      FlattenAppend(a[1..], b);
    }
  }

  // ----- Division with a remainder, where the divisor is a variable -----

  lemma MulAtLeast(u: nat, k: int)
    requires k >= 1
    ensures u * k >= u
  {
  }

  lemma UniqueRemainder(u: nat, a: int, b: int, r: int, s: int)
    requires u * a + r == u * b + s && 0 <= r < u && 0 <= s < u
    ensures a == b && r == s
  {
    if a < b {
      MulAtLeast(u, b - a);
      assert false;
    } else if b < a {
      MulAtLeast(u, a - b);
      assert false;
    }
  }

  lemma DivModLess(n: nat, u: nat)
    requires 0 < u <= n
    ensures (n - u) % u == n % u && (n - u) / u == n / u - 1
  {
    var a, b := n / u, (n - u) / u + 1;
    assert u * b == u * ((n - u) / u) + u;
    UniqueRemainder(u, a, b, n % u, (n - u) % u);
  }

  /** n is a multiple of u, by counting down. */
  predicate Whole(n: nat, u: nat)
    requires u > 0
  {
    n == 0 || (n >= u && Whole(n - u, u))
  }

  lemma {:induction false} WholeIffMod(n: nat, u: nat)
    requires u > 0
    ensures Whole(n, u) <==> n % u == 0
  {
    if n >= u {
      WholeIffMod(n - u, u);
      DivModLess(n, u);
    } else {
      UniqueRemainder(u, n / u, 0, n % u, n);
    }
  }

  /** The number of bytes in n samples of u bytes: n * u, by counting up. */
  function Offset(n: nat, u: nat): nat {
    if n == 0 then 0 else Offset(n - 1, u) + u
  }

  lemma MulStep(s: nat, u: nat)
    requires s > 0
    ensures s * u == (s - 1) * u + u
  {
  }

  lemma {:induction false} OffsetIsProduct(n: nat, u: nat)
    ensures Offset(n, u) == n * u
    ensures u > 0 ==> Whole(Offset(n, u), u) && Offset(n, u) / u == n
  {
    if n > 0 {
      OffsetIsProduct(n - 1, u);
      MulStep(n, u);
      if u > 0 { DivModLess(Offset(n, u), u); }
    } else if u > 0 {
      UniqueRemainder(u, 0 / u, 0, 0 % u, 0);
    }
  }

  lemma {:induction false} WholeSum(a: nat, b: nat, u: nat)
    requires u > 0 && Whole(a, u)
    ensures Whole(a + b, u) <==> Whole(b, u)
  {
    if a > 0 {
      WholeSum(a - u, b, u);
    }
  }

  lemma {:induction false} OffsetSum(a: nat, b: nat, u: nat)
    ensures Offset(a + b, u) == Offset(a, u) + Offset(b, u)
  {
    if b > 0 {
      OffsetSum(a, b - 1, u);
    }
  }

  lemma {:induction false} WholeIsOffset(n: nat, u: nat)
    requires u > 0 && Whole(n, u)
    ensures Offset(n / u, u) == n
  {
    if n > 0 {
      WholeIsOffset(n - u, u);
      DivModLess(n, u);
    } else {
      UniqueRemainder(u, 0 / u, 0, 0 % u, 0);
    }
  }
}
