/** Quotients and remainders, with the lemmas the other modules need. */
module Modular {

  function Mod(a: nat, n: nat): (r: nat)
    requires n > 0
    ensures r < n
  {
    a % n
  }

  lemma {:induction false} ModSmall(a: nat, n: nat)
    requires a < n
    ensures Mod(a, n) == a
  {
  }

  lemma {:induction false} MulAtLeast(k: int, n: nat)
    requires k >= 1
    ensures k * n >= n
  {
    assert k * n == n + (k - 1) * n;
    assert (k - 1) * n >= 0;
  }

  lemma {:induction false} MulNatural(k: nat, n: nat)
    ensures k * n >= 0
  {
  }

  lemma {:induction false} ModUnique(a: nat, n: nat, q: nat, r: nat)
    requires r < n && a == q * n + r
    ensures Mod(a, n) == r
  {
    var q', r' := a / n, a % n;
    assert (q' - q) * n == r - r';
    assert (q - q') * n == r' - r;
    if q' < q {
      MulAtLeast(q - q', n);
    } else if q' > q {
      MulAtLeast(q' - q, n);
    }
  }

  lemma {:induction false} ModSplit(a: nat, n: nat) returns (q: nat)
    requires n > 0
    ensures a == q * n + Mod(a, n)
  {
    q := a / n;
  }

  /** A multiple of the modulus can be dropped. */
  lemma {:induction false} ModAdd(a: nat, k: nat, n: nat)
    requires n > 0
    ensures Mod(a + k * n, n) == Mod(a, n)
  {
    var q := ModSplit(a, n);
    assert (q + k) * n == q * n + k * n;
    ModUnique(a + k * n, n, q + k, Mod(a, n));
  }

  /** Reducing first by a multiple of the modulus changes nothing. */
  lemma {:induction false} ModOfMod(a: nat, m: nat, n: nat)
    requires n > 0 && m > 0 && Mod(m, n) == 0
    ensures Mod(Mod(a, m), n) == Mod(a, n)
  {
    var k := ModSplit(m, n);
    var q := ModSplit(a, m);
    assert q * m == (q * k) * n by { assert q * (k * n) == (q * k) * n; }
    ModAdd(Mod(a, m), q * k, n);
  }

  lemma {:induction false} ModSum(a: nat, b: nat, n: nat)
    requires n > 0
    ensures Mod(Mod(a, n) + b, n) == Mod(a + b, n)
  {
    var q := ModSplit(a, n);
    ModAdd(Mod(a, n) + b, q, n);
    assert Mod(a, n) + b + q * n == a + b;
  }

  /** The page of an address below the size ends below the size. */
  lemma {:induction false} PageBelow(a: nat, page: nat, size: nat)
    requires page > 0 && a < size && Mod(size, page) == 0
    ensures a - Mod(a, page) + page <= size
  {
    var n := ModSplit(size, page);
    var q := ModSplit(a, page);
    assert (n - q) * page == n * page - q * page;
    assert n > q by {
      assert (q - n) * page == q * page - n * page;
      if q >= n {
        MulNatural(q - n, page);
      }
    }
    MulAtLeast(n - q, page);
  }

  lemma {:induction false} ModBelow(a: nat, n: nat)
    requires n > 0
    ensures Mod(a, n) <= a
  {
    var q := ModSplit(a, n);
    assert q * n >= 0;
  }

  lemma {:induction false} ModDigit(a: nat, p: nat)
    requires p > 0
    ensures Mod(a, 256 * p) == 256 * Mod(a / 256, p) + a % 256
  {
    var b, d := a / 256, a % 256;
    var q := ModSplit(b, p);
    var r := Mod(b, p);
    assert a == 256 * b + d;
    hide Mod;
    assert q * (256 * p) == 256 * (q * p);
    ModUnique(a, 256 * p, q, 256 * r + d);
  }

  lemma {:induction false} MultipleVanishes(q: nat, a: nat, n: nat)
    requires n > 0 && Mod(a, n) == 0
    ensures Mod(q * a, n) == 0
  {
    var k := ModSplit(a, n);
    assert q * a == (q * k) * n by { assert q * (k * n) == (q * k) * n; }
    ModUnique(q * a, n, q * k, 0);
  }

  lemma {:induction false} ModCancel(base: nat, s: nat, t: nat, n: nat)
    requires s < t < n
    ensures Mod(base + s, n) != Mod(base + t, n)
  {
    var p := ModSplit(base + s, n);
    var q := ModSplit(base + t, n);
    assert (q - p) * n == q * n - p * n;
    if Mod(base + s, n) == Mod(base + t, n) {
      assert (q - p) * n == t - s;
      if q <= p {
        assert (p - q) * n == s - t;
        MulNatural(p - q, n);
      } else {
        MulAtLeast(q - p, n);
      }
    }
  }

  /** Within a page, reducing to a multiple of the page size commutes with advancing. */
  lemma {:induction false} ModAdvance(a: nat, i: nat, page: nat, n: nat)
    requires page > 0 && n > 0 && Mod(n, page) == 0 && Mod(a, page) + i < page
    ensures Mod(Mod(a, n), page) == Mod(a, page)
    ensures Mod(a + i, n) == Mod(a, n) + i
  {
    hide Mod;
    ModOfMod(a, n, page);
    PageBelow(Mod(a, n), page, n);
    ModSum(a, i, n);
    ModSmall(Mod(a, n) + i, n);
  }

  function Div(a: nat, n: nat): (q: nat)
    requires n > 0
  {
    a / n
  }

  lemma {:induction false} DivMod(a: nat, n: nat)
    requires n > 0
    ensures a == Div(a, n) * n + Mod(a, n)
  {
  }

  lemma {:induction false} DivUnique(a: nat, n: nat, q: nat, r: nat)
    requires r < n && a == q * n + r
    ensures Div(a, n) == q
  {
    ModUnique(a, n, q, r);
    assert (Div(a, n) - q) * n == 0 by { assert (Div(a, n) - q) * n == Div(a, n) * n - q * n; }
  }

  lemma {:induction false} DivBelow(a: nat, n: nat, k: nat)
    requires n > 0 && a < n * k
    ensures Div(a, n) < k
  {
    DivMod(a, n);
    assert (Div(a, n) - k) * n == Div(a, n) * n - n * k;
    if Div(a, n) >= k {
      MulNatural(Div(a, n) - k, n);
    }
  }

  function Pow256(n: nat): (p: nat)
    ensures p > 0
  {
    if n == 0 then 1 else 256 * Pow256(n - 1)
  }
}
