/** Big- and little-endian byte strings of natural numbers (utils/src/convert.rs). */
module Bytes {
  import opened Wrappers

  const U32_LIMIT: nat := 0x1_0000_0000

  type byte = b: nat | b < 256 witness 0

  function Pow256(n: nat): (r: nat)
    ensures r > 0
  {
    if n == 0 then 1 else 256 * Pow256(n - 1)
  }

  /** The last `n` base-256 digits of `v`, most significant first. */
  function ToBE(v: nat, n: nat): (s: seq<byte>)
    ensures |s| == n
  {
    if n == 0 then [] else ToBE(v / 256, n - 1) + [v % 256]
  }

  function FromBE(s: seq<byte>): nat {
    if s == [] then 0 else 256 * FromBE(s[..|s| - 1]) + s[|s| - 1]
  }

  function ToLE(v: nat, n: nat): (s: seq<byte>)
    ensures |s| == n
  {
    Reversed(ToBE(v, n))
  }

  lemma {:induction false} DecodeEncode(v: nat, n: nat)
    requires v < Pow256(n)
    ensures FromBE(ToBE(v, n)) == v
  {
    if n > 0 {
      DecodeEncode(v / 256, n - 1);
    }
  }

  lemma {:induction false} EncodeDecode(s: seq<byte>)
    ensures FromBE(s) < Pow256(|s|)
    ensures ToBE(FromBE(s), |s|) == s
  {
    if s != [] {
      EncodeDecode(s[..|s| - 1]);
      assert s == s[..|s| - 1] + [s[|s| - 1]];
    }
  }

  lemma {:induction false} EncodeInjective(v: nat, w: nat, n: nat)
    requires v < Pow256(n) && w < Pow256(n)
    requires ToBE(v, n) == ToBE(w, n) || ToLE(v, n) == ToLE(w, n)
    ensures v == w
  {
    var x, y := ToBE(v, n), ToBE(w, n);
    if ToLE(v, n) == ToLE(w, n) {
      forall i | 0 <= i < n ensures x[i] == y[i] {
        assert x[i] == Reversed(x)[n - 1 - i] && y[i] == Reversed(y)[n - 1 - i];
      }
      assert x == y;
    }
    DecodeEncode(v, n);
    DecodeEncode(w, n);
  }

  lemma Pow256Values()
    ensures Pow256(4) == U32_LIMIT
    ensures Pow256(8) == 0x1_0000_0000_0000_0000
  {
  }

  lemma {:induction false} FromBEConcat(a: seq<byte>, b: seq<byte>)
    ensures FromBE(a + b) == FromBE(a) * Pow256(|b|) + FromBE(b)
  {
    if b == [] {
      assert a + b == a;
    } else {
      var n := |b| - 1;
      FromBEConcat(a, b[..n]);
      FromBELast(a + b);
      FromBELast(b);
      assert (a + b)[..|a + b| - 1] == a + b[..n] && Pow256(|b|) == 256 * Pow256(n);
      hide FromBE, Pow256;
      TimesLater(FromBE(a), Pow256(n));
    }
  }

  lemma TimesLater(a: nat, p: nat)
    ensures 256 * (a * p) == a * (256 * p)
  {
  }

  lemma FromBELast(s: seq<byte>)
    requires s != []
    ensures FromBE(s) == 256 * FromBE(s[..|s| - 1]) + s[|s| - 1]
  {
  }

  /** Where each base-256 digit of a number stands. */
  lemma {:induction false} BytePlaces(v: nat, n: nat, i: nat)
    requires i < n
    ensures ToBE(v, n)[n - 1 - i] == v / Pow256(i) % 256
    ensures ToLE(v, n)[i] == v / Pow256(i) % 256
  {
    if i > 0 {
      BytePlaces(v / 256, n - 1, i - 1);
      DivideTwice(v, 256, Pow256(i - 1));
    }
  }

  /** One number in both byte orders. */
  lemma BothOrders()
    ensures FromBE([1, 2, 3, 4]) == 0x01020304
    ensures ToBE(0x01020304, 4) == [1, 2, 3, 4] && ToLE(0x01020304, 4) == [4, 3, 2, 1]
  {
    assert [1, 2, 3, 4][..3] == [1, 2, 3] && [1, 2, 3][..2] == [1, 2] && [1, 2][..1] == [1] && [1][..0] == [];
    Pow256Values();
    EncodeDecode([1, 2, 3, 4]);
  }

  // ---------------------------------------------------------------- Division

  lemma {:induction false} MultipleGrows(d: nat, m: nat)
    requires d > 0
    ensures d * m >= m
  {
    if d > 1 {
      MultipleGrows(d - 1, m);
      assert d * m == (d - 1) * m + m;
    }
  }

  lemma Remainder(x: nat, q: nat, rest: nat, m: nat)
    requires m > 0 && x == q * m + rest && rest < m
    ensures x % m == rest
  {
    var q', rest' := x / m, x % m;
    assert x == q' * m + rest';
    if q > q' {
      assert (q - q') * m == q * m - q' * m;
      MultipleGrows(q - q', m);
    } else if q < q' {
      assert (q' - q) * m == q' * m - q * m;
      MultipleGrows(q' - q, m);
    }
  }

  lemma SmallerProduct(a: nat, b: nat, size: nat)
    requires size > 0 && a < b
    ensures a * size < b * size
  {
    assert b * size == a * size + (b - a) * size;
  }

  lemma SameProduct(a: nat, b: nat, size: nat)
    requires size > 0 && a * size == b * size
    ensures a == b
  {
    if a < b {
      SmallerProduct(a, b, size);
    } else if b < a {
      SmallerProduct(b, a, size);
    }
  }

  lemma Quotient(x: nat, q: nat, rest: nat, m: nat)
    requires m > 0 && x == q * m + rest && rest < m
    ensures x / m == q
  {
    Remainder(x, q, rest, m);
    SameProduct(x / m, q, m);
  }

  lemma BelowProduct(y: nat, a: nat, b: nat, rest: nat)
    requires y < b && rest < a
    ensures y * a + rest < a * b
  {
    assert a * b == y * a + (b - y) * a;
    MultipleGrows(b - y, a);
  }

  lemma Regroup(q: nat, b: nat, r: nat, a: nat, rest: nat)
    ensures (q * b + r) * a + rest == q * (a * b) + (r * a + rest)
  {
  }

  lemma Divided(x: nat, m: nat)
    requires m > 0
    ensures x == x / m * m + x % m
  {
  }

  lemma DivideTwice(x: nat, a: nat, b: nat)
    requires a > 0 && b > 0
    ensures a * b > 0 && x / a / b == x / (a * b)
  {
    var y := x / a;
    var q, r, rest, p := y / b, y % b, x % a, a * b;
    Divided(x, a);
    Divided(y, b);
    MultipleGrows(a, b);
    Regroup(q, b, r, a, rest);
    BelowProduct(r, a, b, rest);
    Quotient(x, q, r * a + rest, p);
  }
}
