/** Bytes, options and little-endian numbers shared by the other modules. */
module Bytes {
  type byte = x: int | 0 <= x < 256

  datatype Option<+T> = None | Some(value: T)

  // Upper bound of a Go int, and hence of every slice length.
  const INT_LIMIT: nat := 0x8000_0000_0000_0000

  function Min(a: nat, b: nat): nat { if a < b then a else b }

  lemma Assoc<T>(a: seq<T>, b: seq<T>, c: seq<T>)
    ensures a + (b + c) == a + b + c
  {
  }

  function Pow256(k: nat): (r: nat)
    ensures r >= 1
  {
    if k == 0 then 1 else 256 * Pow256(k - 1)
  }

  lemma {:induction false} Pow256Table()
    ensures Pow256(1) == 0x100 && Pow256(2) == 0x1_0000 && Pow256(3) == 0x100_0000
    ensures Pow256(4) == 0x1_0000_0000 && Pow256(5) == 0x100_0000_0000
    ensures Pow256(6) == 0x1_0000_0000_0000 && Pow256(7) == 0x100_0000_0000_0000
    ensures Pow256(8) == 0x1_0000_0000_0000_0000
  {
    assert Pow256(2) == 256 * Pow256(1);
    assert Pow256(4) == 256 * (256 * Pow256(2));
    assert Pow256(6) == 256 * (256 * Pow256(4));
    assert Pow256(8) == 256 * (256 * Pow256(6));
  }

  // The number written by little-endian bytes.
  function Value(bs: seq<byte>): nat {
    if bs == [] then 0 else bs[0] + 256 * Value(bs[1..])
  }

  // The w lowest bytes of n, lowest first.
  function LowBytes(n: nat, w: nat): (bs: seq<byte>)
    ensures |bs| == w
  {
    if w == 0 then [] else [n % 256] + LowBytes(n / 256, w - 1)
  }

  lemma {:induction false} ValueSnoc(bs: seq<byte>, b: byte)
    ensures Value(bs + [b]) == Value(bs) + b * Pow256(|bs|)
  {
    if bs == [] {
      assert bs + [b] == [b];
    } else {
      ValueSnoc(bs[1..], b);
      assert (bs + [b])[1..] == bs[1..] + [b];
      assert b * Pow256(|bs|) == 256 * (b * Pow256(|bs| - 1));
    }
  }

  lemma ModByProduct(n: nat, p: nat)
    requires p >= 1
    ensures n % (256 * p) == n % 256 + 256 * ((n / 256) % p)
  {
    var q, r := n / 256, n % 256;
    var a, b := q / p, q % p;
    assert q == p * a + b;
    assert n == (256 * p) * a + (256 * b + r) by {
      assert n == 256 * q + r;
      assert 256 * (p * a) == (256 * p) * a;
    }
    ModUnique(n, 256 * p, a, 256 * b + r);
  }

  lemma {:induction false} MulGap(m: nat, a: nat, d: nat)
    requires a < d
    ensures m * d >= m * a + m
  {
    assert m * d == m * (d - 1) + m;
    if a < d - 1 { MulGap(m, a, d - 1); }
  }

  lemma QuotientUnique(m: nat, a: nat, c: nat, d: nat, e: nat)
    requires m * a + c == m * d + e && c < m && e < m
    ensures a == d && c == e
  {
    if a < d { MulGap(m, a, d); } else if d < a { MulGap(m, d, a); }
  }

  lemma ModUnique(n: nat, m: nat, a: nat, c: nat)
    requires m >= 1 && n == m * a + c && c < m
    ensures n % m == c
  {
    QuotientUnique(m, a, c, n / m, n % m);
  }

  // Writing w bytes of n and reading back j of them gives n modulo 256^j.
  lemma {:induction false} ValueOfLowBytes(n: nat, w: nat, j: nat)
    requires j <= w
    ensures Value(LowBytes(n, w)[..j]) == n % Pow256(j)
  {
    if j == 0 {
      assert LowBytes(n, w)[..0] == [];
    } else {
      ValueOfLowBytes(n / 256, w - 1, j - 1);
      var bs := LowBytes(n, w);
      assert bs[..j][1..] == LowBytes(n / 256, w - 1)[..j - 1];
      ModByProduct(n, Pow256(j - 1));
    }
  }
}
