/** Bytes, powers of 256 and the big-endian integer layout shared by the metrics stream and the
    arbitrary-precision integer codec. */
module Bytes {

  type byte = x: int | 0 <= x < 256

  datatype Option<+T> = None | Some(value: T) {
    predicate IsFailure() { None? }
    function PropagateFailure<U>(): Option<U>
      requires None?
    { None }
    function Extract(): T
      requires Some?
    { value }
  }

  lemma Assoc<T>(a: seq<T>, b: seq<T>, c: seq<T>)
    ensures (a + b) + c == a + (b + c)
  {}

  lemma Assoc4<T>(a: seq<T>, b: seq<T>, c: seq<T>, d: seq<T>)
    ensures (a + (b + c)) + d == a + (b + (c + d))
  {}

  lemma Assoc5<T>(a: seq<T>, b: seq<T>, c: seq<T>, d: seq<T>, e: seq<T>)
    ensures a + b + c + d + e == a + (b + (c + (d + e)))
  {
    Assoc(a + b + c, d, e);
    Assoc(a + b, c, d + e);
    Assoc(a, b, c + (d + e));
  }

  lemma DropPrefix<T>(a: seq<T>, b: seq<T>)
    ensures (a + b)[..|a|] == a && (a + b)[|a|..] == b
  {}

  lemma SliceJoin<T>(x: seq<T>, i: nat, j: nat)
    requires i <= j <= |x|
    ensures x[i..j] + x[j..] == x[i..] && x[i..|x|] == x[i..]
  {}

  /** 256 to the power n. */
  function Pow256(n: nat): (p: int)
    ensures p >= 1
  {
    if n == 0 then 1 else 256 * Pow256(n - 1)
  }

  /** The unsigned value of a big-endian byte string. */
  function Unsigned(s: seq<byte>): (u: int)
    ensures 0 <= u < Pow256(|s|)
  {
    if s == [] then 0 else 256 * Unsigned(s[..|s| - 1]) + s[|s| - 1]
  }

  /** The two's-complement value of a big-endian byte string. */
  function Signed(s: seq<byte>): int {
    var u := Unsigned(s);
    if 2 * u < Pow256(|s|) then u else u - Pow256(|s|)
  }

  /** The n low-order bytes of v, most significant first: `boost::endian::endian_store` with order big. */
  function StoreBig(n: nat, v: int): (s: seq<byte>)
    ensures |s| == n
  {
    if n == 0 then [] else StoreBig(n - 1, v / 256) + [v % 256]
  }

  lemma {:induction false} StoreBigUnsigned(n: nat, v: int)
    ensures Unsigned(StoreBig(n, v)) == v % Pow256(n)
  {
    if n > 0 {
      StoreBigUnsigned(n - 1, v / 256);
      var s := StoreBig(n, v);
      assert s[..n - 1] == StoreBig(n - 1, v / 256);
      ModSplit(v, Pow256(n - 1));
    }
  }

  lemma ModSplit(v: int, p: int)
    requires p >= 1
    ensures v % (256 * p) == 256 * ((v / 256) % p) + v % 256
  {
    var q := v / 256;
    var k, r := q / p, q % p;
    assert q == k * p + r;
    assert v == 256 * q + v % 256;
    assert v == k * (256 * p) + (256 * r + v % 256) by {
      assert 256 * (k * p) == k * (256 * p);
    }
    DivModUnique(v, 256 * p, k, 256 * r + v % 256);
  }

  lemma DivModUnique(v: int, d: int, q: int, r: int)
    requires d >= 1 && 0 <= r < d && v == q * d + r
    ensures v / d == q && v % d == r
  {
    SameRemainder(d, q, r, v / d, v % d);
  }

  lemma SameRemainder(d: int, q: int, r: int, q': int, r': int)
    requires d >= 1 && 0 <= r < d && 0 <= r' < d && q * d + r == q' * d + r'
    ensures q == q' && r == r'
  {
    var m := q - q';
    assert m * d == r' - r;
    MulMagnitude(m, d);
  }

  lemma MulMagnitude(m: int, d: int)
    requires d >= 1
    ensures m >= 1 ==> m * d >= d
    ensures m <= -1 ==> m * d <= -d
  {
    if m >= 1 {
      assert (m - 1) * d >= 0;
    } else if m <= -1 {
      assert (-m - 1) * d >= 0;
    }
  }

  /** Reading back what was stored: any value of an n-byte signed integer survives. */
  lemma StoreBigSigned(n: nat, v: int)
    requires -Pow256(n) <= 2 * v < Pow256(n)
    ensures Signed(StoreBig(n, v)) == v
  {
    StoreBigUnsigned(n, v);
    var p := Pow256(n);
    if v >= 0 {
      DivModUnique(v, p, 0, v);
    } else {
      DivModUnique(v, p, -1, v + p);
    }
  }

  lemma UnsignedFour(s: seq<byte>)
    requires |s| == 4
    ensures Unsigned(s) == ((s[0] as int * 256 + s[1]) * 256 + s[2]) * 256 + s[3]
  {
    var t, u, v := s[..3], s[..2], s[..1];
    assert v[..0] == [] && Unsigned(v) == s[0];
    assert u[..1] == v && Unsigned(u) == 256 * Unsigned(v) + s[1];
    assert t[..2] == u && Unsigned(t) == 256 * Unsigned(u) + s[2];
  }

  lemma PowerValues()
    ensures Pow256(4) == 0x1_0000_0000 && Pow256(8) == 0x1_0000_0000_0000_0000
  {
    assert Pow256(2) == 0x1_0000;
    assert Pow256(4) == 256 * (256 * Pow256(2));
    assert Pow256(6) == 256 * (256 * Pow256(4));
    assert Pow256(8) == 256 * (256 * Pow256(6));
  }

  const INT32_MAX: int := 0x7FFF_FFFF

  predicate IsInt32(v: int) { -0x8000_0000 <= v <= 0x7FFF_FFFF }

  predicate IsInt64(v: int) { -0x8000_0000_0000_0000 <= v <= 0x7FFF_FFFF_FFFF_FFFF }

  function ReadInt32(s: seq<byte>): Option<(int, seq<byte>)> {
    if |s| < 4 then None else Some((Signed(s[..4]), s[4..]))
  }

  function ReadInt64(s: seq<byte>): Option<(int, seq<byte>)> {
    if |s| < 8 then None else Some((Signed(s[..8]), s[8..]))
  }

  lemma ReadStoredInt32(v: int, tail: seq<byte>)
    requires IsInt32(v)
    ensures ReadInt32(StoreBig(4, v) + tail) == Some((v, tail))
  {
    PowerValues();
    StoreBigSigned(4, v);
    DropPrefix(StoreBig(4, v), tail);
  }

  lemma ReadStoredInt64(v: int, tail: seq<byte>)
    requires IsInt64(v)
    ensures ReadInt64(StoreBig(8, v) + tail) == Some((v, tail))
  {
    PowerValues();
    StoreBigSigned(8, v);
    DropPrefix(StoreBig(8, v), tail);
  }
}
