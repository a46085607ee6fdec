/** The codec between arbitrary-precision integers and big-endian two's-complement byte vectors.
    `export_bits` and `import_bits` are the big-endian unsigned magnitude, with zero as one zero byte. */
module TwosComplement {
  import opened Bytes

  type int8 = x: int | -128 <= x <= 127

  /** The int8_t conversion of an out-of-range value. */
  function Wrap8(x: int): int8 {
    var u := x % 256;
    if u < 128 then u else u - 256
  }

  function ToByte(x: int8): (b: byte)
    ensures b == x % 256
  {
    if x < 0 then x + 256 else x
  }

  /** The same vector as unsigned bytes. */
  function AsBytes(v: seq<int8>): (s: seq<byte>)
    ensures |s| == |v| && forall i :: 0 <= i < |v| ==> s[i] == ToByte(v[i])
  {
    seq(|v|, i requires 0 <= i < |v| => ToByte(v[i]))
  }

  function U(v: seq<int8>): int { Unsigned(AsBytes(v)) }

  /** The integer a non-empty vector stands for. */
  ghost function Value(v: seq<int8>): int {
    if 2 * U(v) < Pow256(|v|) then U(v) else U(v) - Pow256(|v|)
  }

  // ----- Facts about positional values -----

  lemma Horner(a: int, p: int, b: int, c: int)
    ensures 256 * (a * p + b) + c == a * (256 * p) + (256 * b + c)
  {
    assert 256 * (a * p) == a * (256 * p);
  }

  lemma {:induction false} UnsignedSplit(s: seq<byte>, k: nat)
    requires k <= |s|
    ensures Unsigned(s) == Unsigned(s[..k]) * Pow256(|s| - k) + Unsigned(s[k..])
    decreases |s| - k
  {
    if k == |s| {
      assert s[..k] == s;
    } else {
      var n := |s| - 1;
      var t, u := s[..n], s[k..];
      UnsignedSplit(t, k);
      assert t[..k] == s[..k] && u[..|u| - 1] == t[k..] && u[|u| - 1] == s[n];
      Horner(Unsigned(s[..k]), Pow256(n - k), Unsigned(t[k..]), s[n]);
    }
  }

  lemma UnsignedHead(s: seq<byte>)
    requires |s| > 0
    ensures Unsigned(s) == s[0] * Pow256(|s| - 1) + Unsigned(s[1..])
  {
    UnsignedSplit(s, 1);
    assert s[..1][..0] == [];
    assert Unsigned(s[..1]) == s[0];
  }

  lemma {:induction false} UnsignedInjective(s: seq<byte>, t: seq<byte>)
    requires |s| == |t| && Unsigned(s) == Unsigned(t)
    ensures s == t
  {
    if |s| > 0 {
      var n := |s| - 1;
      UnsignedInjective(s[..n], t[..n]);
      assert s == s[..n] + [s[n]] && t == t[..n] + [t[n]];
    }
  }

  lemma {:induction false} PowAdd(m: nat, n: nat)
    ensures Pow256(m + n) == Pow256(m) * Pow256(n)
  {
    if m > 0 {
      PowAdd(m - 1, n);
      assert Pow256(m + n) == 256 * (Pow256(m - 1) * Pow256(n));
    }
  }

  lemma PowMonotone(m: nat, n: nat)
    requires m <= n
    ensures Pow256(m) <= Pow256(n)
  {
    PowAdd(m, n - m);
    var p, q := Pow256(m), Pow256(n - m);
    assert p * q >= p by { MulMagnitude(q, p); }
  }

  // ----- twos_complement -----

  /** t is the two's complement of s: the value negated modulo 256^n. */
  ghost predicate Negates(s: seq<int8>, t: seq<int8>) {
    |s| == |t| && U(t) == (Pow256(|s|) - U(s)) % Pow256(|s|)
  }

  function Flip(x: int8): int8 { -1 - x }

  lemma {:induction false} FlippedValue(s: seq<int8>, t: seq<int8>)
    requires |s| == |t| && forall i :: 0 <= i < |s| ==> t[i] == Flip(s[i])
    ensures U(t) == Pow256(|s|) - 1 - U(s)
  {
    if |s| > 0 {
      var n := |s| - 1;
      FlippedValue(s[..n], t[..n]);
      ULast(s);
      ULast(t);
      assert t[n] == Flip(s[n]) && ToByte(t[n]) == 255 - ToByte(s[n]);
      hide U, ToByte;
    }
  }

  lemma ULast(v: seq<int8>)
    requires |v| > 0
    ensures U(v) == 256 * U(v[..|v| - 1]) + ToByte(v[|v| - 1])
  {
    hide Pow256;
    assert AsBytes(v)[..|v| - 1] == AsBytes(v[..|v| - 1]);
  }

  lemma {:induction false} AllOnes(z: seq<int8>)
    requires forall i :: 0 <= i < |z| ==> z[i] == -1
    ensures U(z) == Pow256(|z|) - 1
  {
    if |z| > 0 {
      AllOnes(z[..|z| - 1]);
      assert AsBytes(z)[..|z| - 1] == AsBytes(z[..|z| - 1]);
    }
  }

  lemma {:induction false} AllZeros(z: seq<int8>)
    requires forall i :: 0 <= i < |z| ==> z[i] == 0
    ensures U(z) == 0
  {
    if |z| > 0 {
      AllZeros(z[..|z| - 1]);
      assert AsBytes(z)[..|z| - 1] == AsBytes(z[..|z| - 1]);
    }
  }

  lemma USplit(v: seq<int8>, k: nat)
    requires k <= |v|
    ensures U(v) == U(v[..k]) * Pow256(|v| - k) + U(v[k..])
  {
    hide Pow256, Unsigned;
    UnsignedSplit(AsBytes(v), k);
    assert AsBytes(v)[..k] == AsBytes(v[..k]) && AsBytes(v)[k..] == AsBytes(v[k..]);
  }

  lemma UBounds(v: seq<int8>)
    ensures 0 <= U(v) < Pow256(|v|)
  {}

  /** The early exit: the carry stopped at k, where the byte did not become zero. */
  lemma CarryStopped(f: seq<int8>, g: seq<int8>, k: nat)
    requires |f| == |g| && k < |f| && f[..k] == g[..k]
    requires g[k] == Wrap8(f[k] as int + 1) && g[k] != 0
    requires forall i :: k < i < |f| ==> f[i] == -1 && g[i] == 0
    ensures U(g) == U(f) + 1 < Pow256(|f|)
  {
    hide U;
    var p, q := f[..k + 1], g[..k + 1];
    assert p[..k] == f[..k] && q[..k] == g[..k];
    LastByteUp(p, q);
    USplit(f, k + 1);
    USplit(g, k + 1);
    AllOnes(f[k + 1..]);
    AllZeros(g[k + 1..]);
    CarryArithmetic(U(p), Pow256(|f| - (k + 1)));
    UBounds(g);
  }

  lemma CarryArithmetic(u: int, w: int)
    ensures (u + 1) * w + 0 == u * w + (w - 1) + 1
  {}

  lemma LastByteUp(p: seq<int8>, q: seq<int8>)
    requires |p| == |q| > 0 && p[..|p| - 1] == q[..|p| - 1]
    requires var x, y := p[|p| - 1], q[|p| - 1]; y == Wrap8(x as int + 1) && y != 0
    ensures U(q) == U(p) + 1
  {
    var n := |p| - 1;
    assert AsBytes(p)[..n] == AsBytes(q)[..n];
  }

  method FlipAll(a: array<int8>)
    modifies a
    ensures forall i :: 0 <= i < a.Length ==> a[i] == Flip(old(a[i]))
  {
    var j := 0;
    while j < a.Length
      invariant 0 <= j <= a.Length
      invariant forall i :: 0 <= i < j ==> a[i] == Flip(old(a[i]))
      invariant forall i :: j <= i < a.Length ==> a[i] == old(a[i])
    {
      a[j] := Flip(a[j]);
      j := j + 1;
    }
  }

  /** Adds one, stopping where the carry stops; if it never does, all bytes were ones and are zero now. */
  method AddOne(a: array<int8>)
    modifies a
    ensures U(a[..]) == if U(old(a[..])) == Pow256(a.Length) - 1 then 0 else U(old(a[..])) + 1
  {
    hide U;
    ghost var f := a[..];
    var carry := 1;
    var i := a.Length - 1;
    while i >= 0
      invariant -1 <= i < a.Length
      invariant forall l :: 0 <= l <= i ==> a[l] == f[l]
      invariant forall l :: i < l < a.Length ==> f[l] == -1 && a[l] == 0
    {
      a[i] := Wrap8(a[i] as int + carry);
      if a[i] == 0 {
        carry := 1;
      } else {
        CarryStopped(f, a[..], i);
        return;
      }
      i := i - 1;
    }
    AllOnes(f);
    AllZeros(a[..]);
  }

  /** Flips every byte and adds one. */
  method TwosComplementInPlace(a: array<int8>)
    modifies a
    ensures Negates(old(a[..]), a[..])
  {
    hide U;
    ghost var s := a[..];
    FlipAll(a);
    FlippedValue(s, a[..]);
    UBounds(s);
    AddOne(a);
    NegatedModulo(Pow256(a.Length), U(s));
  }

  lemma NegatedModulo(p: int, u: int)
    requires p >= 1 && 0 <= u < p
    ensures (p - u) % p == if u == 0 then 0 else p - u
  {
    if u == 0 {
      DivModUnique(p, p, 1, 0);
    } else {
      DivModUnique(p - u, p, 0, p - u);
    }
  }

  /** Taking the two's complement twice gives the vector back. */
  lemma NegateTwice(s: seq<int8>, t: seq<int8>, u: seq<int8>)
    ensures Negates(s, t) && Negates(t, u) ==> u == s
  {
    if !Negates(s, t) || !Negates(t, u) {
      return;
    }
    var p := Pow256(|s|);
    NegatedModulo(p, U(s));
    NegatedModulo(p, U(t));
    UnsignedInjective(AsBytes(s), AsBytes(u));
    assert forall i :: 0 <= i < |s| ==> ToByte(s[i]) == AsBytes(s)[i] == AsBytes(u)[i] == ToByte(u[i]);
  }

  // ----- Signed value -----

  /** The sign of a vector is the sign of its first byte. */
  lemma SignByte(v: seq<int8>)
    requires |v| > 0
    ensures v[0] < 0 <==> 2 * U(v) >= Pow256(|v|)
    ensures v[0] == 0 <==> U(v) < Pow256(|v| - 1)
  {
    var s, p := AsBytes(v), Pow256(|v| - 1);
    UnsignedHead(s);
    var b, rest := s[0], Unsigned(s[1..]);
    assert 0 <= rest < p && U(v) == b * p + rest;
    ByteTimes(b, p);
  }

  lemma ByteTimes(b: int, p: int)
    requires p >= 1
    ensures b >= 128 ==> b * p >= 128 * p
    ensures b <= 127 ==> b * p <= 127 * p
    ensures b >= 1 ==> b * p >= p
    ensures b == 0 ==> b * p == 0
  {
    MulMagnitude(b, p);
    MulMagnitude(b - 127, p);
    MulMagnitude(b - 128, p);
    assert (b - 127) * p == b * p - 127 * p && (b - 128) * p == b * p - 128 * p;
  }

  /** The value of every non-empty vector. */
  method FromBytes(v: seq<int8>) returns (i: int)
    requires |v| > 0
    ensures i == Value(v)
  {
    SignByte(v);
    var isNegative := v[0] < 0;
    if isNegative {
      var a := new int8[|v|](k requires 0 <= k < |v| => v[k]);
      assert a[..] == v;
      TwosComplementInPlace(a);
      NegatedModulo(Pow256(|v|), U(v));
      return -U(a[..]);
    }
    return U(v);
  }

  // ----- Magnitude -----

  /** The minimal big-endian bytes of m. */
  function ExportBytes(m: nat): (s: seq<byte>)
    ensures |s| >= 1 && Unsigned(s) == m
    ensures m > 0 ==> Pow256(|s| - 1) <= m
  {
    if m < 256 then
      var s: seq<byte> := [m];
      assert s[..0] == [] && Unsigned(s) == m;
      s
    else
      var t := ExportBytes(m / 256);
      var s := t + [m % 256];
      assert s[..|s| - 1] == t;
      s
  }

  function AsInt8s(s: seq<byte>): (v: seq<int8>)
    ensures |v| == |s| && AsBytes(v) == s
  {
    var v := seq(|s|, i requires 0 <= i < |s| => Wrap8(s[i]));
    assert AsBytes(v) == s;
    v
  }

  function ByteLength(m: nat): nat { |ExportBytes(m)| }

  /** The negative integers that get no sign byte although they need one: those whose magnitude lies strictly
      above 255 * 256^(k-1), where k is its length in bytes. */
  predicate LosesSign(i: int) {
    i < 0 && -i > 255 * Pow256(ByteLength(-i) - 1)
  }

  /** v is the only vector of at most its length that stands for i. */
  ghost predicate IsShortest(v: seq<int8>, i: int) {
    Value(v) == i && forall w :: 0 < |w| <= |v| && Value(w) == i ==> w == v
  }

  lemma ShortestIf(v: seq<int8>, i: int)
    requires |v| > 0 && Value(v) == i
    requires |v| == 1 || 2 * i >= Pow256(|v| - 1) || 2 * i < -Pow256(|v| - 1)
    ensures IsShortest(v, i)
  {
    hide Value;
    forall w | 0 < |w| <= |v| && Value(w) == i
      ensures w == v
    {
      if |w| < |v| {
        ValueRange(w, |v| - 1);
        assert false;
      }
      SameValue(v, w);
    }
  }

  lemma ValueRange(w: seq<int8>, n: nat)
    requires |w| <= n
    ensures -Pow256(n) <= 2 * Value(w) < Pow256(n)
  {
    PowMonotone(|w|, n);
  }

  lemma SameValue(v: seq<int8>, w: seq<int8>)
    requires |v| == |w| && Value(v) == Value(w)
    ensures v == w
  {
    UnsignedInjective(AsBytes(v), AsBytes(w));
    SameBytes(v, w);
  }

  lemma SameBytes(v: seq<int8>, w: seq<int8>)
    requires AsBytes(v) == AsBytes(w)
    ensures v == w
  {
    assert forall i :: 0 <= i < |v| ==> ToByte(v[i]) == AsBytes(v)[i] == AsBytes(w)[i] == ToByte(w[i]);
  }

  lemma WithSignByte(v: seq<int8>, sign: int8)
    requires sign == 0 || sign == -1
    ensures Value([sign] + v) == if sign == 0 then U(v) else U(v) - Pow256(|v|)
  {
    hide Unsigned;
    SignByteValue(v, sign);
    var p := Pow256(|v|);
    assert Pow256(|[sign] + v|) == 256 * p;
  }

  lemma SignByteValue(v: seq<int8>, sign: int8)
    requires sign == 0 || sign == -1
    ensures 0 <= U(v) < Pow256(|v|)
    ensures U([sign] + v) == if sign == 0 then U(v) else 255 * Pow256(|v|) + U(v)
  {
    hide Unsigned;
    var s := AsBytes([sign] + v);
    UnsignedHead(s);
    assert s[1..] == AsBytes(v);
    ZeroOrAllOnes(s[0], Pow256(|v|));
  }

  lemma ZeroOrAllOnes(b: byte, p: int)
    ensures b == 0 ==> b * p == 0
    ensures b == 255 ==> b * p == 255 * p
  {}

  /** The encoding stands for i, and is the unique shortest one, exactly when i does not lose its sign;
      otherwise it stands for i + 256^k. */
  method ToBytes(i: int) returns (v: seq<int8>)
    ensures |v| > 0
    ensures Value(v) == if LosesSign(i) then i + Pow256(ByteLength(-i)) else i
    ensures !LosesSign(i) ==> IsShortest(v, i)
  {
    hide Value, Unsigned;
    var m := if i < 0 then -i else i;
    v := AsInt8s(ExportBytes(m));
    var k := |v|;
    if i < 0 {
      var a := new int8[|v|](j requires 0 <= j < |v| => v[j]);
      assert a[..] == v;
      TwosComplementInPlace(a);
      NegatedModulo(Pow256(k), m);
      v := a[..];
      NegativeCases(v, m);
      if v[0] > 0 {
        // add -1 in front to have a negative sign bit
        v := [-1] + v;
      }
    } else {
      NonNegativeCases(v, m);
      if v[0] < 0 {
        // add 0 in front to have a positive sign bit
        v := [0] + v;
      }
    }
  }

  lemma NonNegativeCases(v: seq<int8>, m: int)
    requires m >= 0 && |v| > 0 && U(v) == m && (m > 0 ==> Pow256(|v| - 1) <= m) && (m == 0 ==> |v| == 1)
    ensures IsShortest(if v[0] < 0 then [0] + v else v, m)
  {
    hide IsShortest, U;
    SignByte(v);
    if v[0] < 0 {
      WithSignByte(v, 0);
      ShortestIf([0] + v, m);
    } else {
      assert Value(v) == U(v);
      ShortestIf(v, m);
    }
  }

  /** v holds 256^k - m on k bytes, where k is the length of m. */
  lemma NegativeCases(v: seq<int8>, m: int)
    requires m > 0 && |v| == ByteLength(m) && U(v) == Pow256(|v|) - m
    ensures v[0] == 0 <==> LosesSign(-m)
    ensures v[0] == 0 ==> Value(v) == -m + Pow256(|v|)
    ensures v[0] > 0 ==> IsShortest([-1] + v, -m)
    ensures v[0] < 0 ==> IsShortest(v, -m)
  {
    hide IsShortest, U, ExportBytes, Pow256, Value;
    SignByte(v);
    ValueBySign(v);
    PowStep(|v| - 1);
    LowBytes(U(v), m, Pow256(|v| - 1));
    if v[0] > 0 {
      WithSignByte(v, -1);
      ShortestIf([-1] + v, -m);
    } else if v[0] < 0 {
      ShortestIf(v, -m);
    }
  }

  lemma PowStep(n: nat)
    ensures Pow256(n + 1) == 256 * Pow256(n) && Pow256(n) >= 1
  {}

  lemma LowBytes(u: int, m: int, p: int)
    requires u == 256 * p - m
    ensures u < p <==> m > 255 * p
  {}

  lemma ValueBySign(v: seq<int8>)
    requires |v| > 0
    ensures Value(v) == if v[0] < 0 then U(v) - Pow256(|v|) else U(v)
  {
    hide U, Pow256;
    SignByte(v);
  }

  /** Decoding an encoding gives i + 256^k for the integers that lose their sign, and i for all others. */
  method RoundTrip(i: int) returns (r: int)
    ensures r == i <==> !LosesSign(i)
    ensures LosesSign(i) ==> r == i + Pow256(ByteLength(-i))
  {
    var v := ToBytes(i);
    r := FromBytes(v);
  }

  /** In terms of the magnitude's bytes: the first is 0xFF and a later one is not zero. */
  lemma LosesSignBytes(i: int)
    requires i < 0
    ensures var s := ExportBytes(-i);
            LosesSign(i) <==> s[0] == 255 && exists j :: 0 < j < |s| && s[j] != 0
  {
    var s := ExportBytes(-i);
    var p, rest := Pow256(|s| - 1), Unsigned(s[1..]);
    UnsignedHead(s);
    LeadingByte(s[0], p, rest);
    ZeroBytes(s[1..]);
    assert forall j :: 0 < j < |s| ==> s[j] == s[1..][j - 1];
    assert forall j :: 0 <= j < |s[1..]| ==> s[1..][j] == s[j + 1];
  }

  lemma LeadingByte(b: byte, p: int, rest: int)
    requires p >= 1 && 0 <= rest < p
    ensures b * p + rest > 255 * p <==> b == 255 && rest != 0
  {
    MulMagnitude(255 - b, p);
    assert (255 - b) * p == 255 * p - b * p;
  }

  lemma {:induction false} ZeroBytes(s: seq<byte>)
    ensures Unsigned(s) == 0 <==> forall j :: 0 <= j < |s| ==> s[j] == 0
  {
    if |s| > 0 {
      ZeroBytes(s[..|s| - 1]);
    }
  }

  /** The loser closest to zero: -65281 becomes the two bytes 0x00 0xFF, which read as 255. */
  lemma SmallestLoser()
    ensures LosesSign(-65281) && Value([0, -1]) == -65281 + Pow256(ByteLength(65281))
    ensures forall i :: -65281 < i ==> !LosesSign(i)
  {
    assert ExportBytes(255) == [255];
    assert ExportBytes(65281) == [255] + [1];
    assert Pow256(1) == 256 && Pow256(2) == 65536;
    var s := AsBytes([0, -1]);
    assert s[..1][..0] == [] && Unsigned(s[..1]) == 0;
    assert Unsigned(s) == 255;
    forall i | -65281 < i
      ensures !LosesSign(i)
    {
      CloserKeeps(i);
    }
  }

  lemma CloserKeeps(i: int)
    requires -65281 < i
    ensures !LosesSign(i)
  {
    if i < 0 {
      var m := -i;
      assert Pow256(0) == 1 && Pow256(1) == 256;
      if m < 256 {
        assert ByteLength(m) == 1;
      } else {
        assert m / 256 < 256 && ByteLength(m / 256) == 1 && ByteLength(m) == 2;
      }
    }
  }
}
