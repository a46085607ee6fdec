/** The level-0 zlib container that wraps both metrics streams: stored blocks inside a zlib stream
    (RFC 1950 section 2.2, RFC 1951 section 3.2.4), closed by an Adler-32 checksum
    (RFC 1950 section 8.2). `Inflate` is the reader the RFCs describe, restricted to stored blocks. */
module Zlib {
  import opened Bytes

  const MAX_BLOCK: nat := 65535
  const ADLER_MOD: nat := 65521
  const ZLIB_HEADER: seq<byte> := [120, 1]

  // ----- Adler-32, as the RFC defines it: unreduced running sums, reduced at the end -----

  /** One plus the sum of the bytes. */
  ghost function S1(x: seq<byte>): nat {
    if x == [] then 1 else S1(x[..|x| - 1]) + x[|x| - 1]
  }

  /** The sum of all values S1 takes along x. */
  ghost function S2(x: seq<byte>): nat {
    if x == [] then 0 else S2(x[..|x| - 1]) + S1(x)
  }

  ghost function AdlerA(x: seq<byte>): nat { S1(x) % ADLER_MOD }

  ghost function AdlerB(x: seq<byte>): nat { S2(x) % ADLER_MOD }

  ghost function Adler32(x: seq<byte>): nat { AdlerB(x) * 65536 + AdlerA(x) }

  /** The sum of weight * x[0] + (weight - 1) * x[1] + ... */
  ghost function WeightedSum(x: seq<byte>, weight: nat): int {
    if x == [] then 0 else WeightedSum(x[..|x| - 1], weight) + (weight - |x| + 1) * x[|x| - 1]
  }

  /** The second sum in closed form: n plus the sum of (n - i) * x[i]. */
  lemma {:induction false} SecondSumClosedForm(x: seq<byte>)
    ensures S2(x) == |x| + WeightedSum(x, |x|)
  {
    if x != [] {
      var init := x[..|x| - 1];
      SecondSumClosedForm(init);
      WeightShift(init, |init|);
    }
  }

  /** The plain sum of the bytes. */
  ghost function ByteSum(x: seq<byte>): int {
    if x == [] then 0 else ByteSum(x[..|x| - 1]) + x[|x| - 1]
  }

  lemma {:induction false} FirstSum(x: seq<byte>)
    ensures S1(x) == 1 + ByteSum(x)
  {
    if x != [] {
      FirstSum(x[..|x| - 1]);
    }
  }

  /** Known answers: three small bytes, and a run on which the second sum has to be reduced. */
  lemma KnownChecksums()
    ensures Adler32([1, 2, 3]) == 0x000D_0007
    ensures Adler32(seq(23, _ => 255)) == 0x1312_16EA
  {
    assert [1, 2, 3][..2] == [1, 2] && [1, 2][..1] == [1] && [1][..0] == [];
    assert S1([1]) == 2 && S1([1, 2]) == 4 && S1([1, 2, 3]) == 7;
    assert S2([1]) == 2 && S2([1, 2]) == 6 && S2([1, 2, 3]) == 13;
    var ff: seq<byte> := seq(23, _ => 255);
    SumsOfRepeated(ff);
  }

  lemma {:induction false} SumsOfRepeated(x: seq<byte>)
    requires forall i :: 0 <= i < |x| ==> x[i] == 255
    ensures S1(x) == 1 + 255 * |x| && 2 * S2(x) == 2 * |x| + 255 * (|x| * |x| + |x|)
  {
    if x != [] {
      var n := |x| - 1;
      SumsOfRepeated(x[..n]);
      assert |x| * |x| == n * n + 2 * n + 1;
    }
  }

  lemma {:induction false} WeightShift(x: seq<byte>, weight: nat)
    ensures WeightedSum(x, weight + 1) == WeightedSum(x, weight) + S1(x) - 1
  {
    if x != [] {
      WeightShift(x[..|x| - 1], weight);
      var b := x[|x| - 1];
      assert (weight + 1 - |x| + 1) * b == (weight - |x| + 1) * b + b;
    }
  }

  lemma ReduceOnce(total: nat, add: nat)
    requires add < ADLER_MOD
    ensures var r := total % ADLER_MOD + add;
            (total + add) % ADLER_MOD == if r >= ADLER_MOD then r - ADLER_MOD else r
  {}

  lemma ReduceInner(total: nat, inc: nat)
    ensures (total + inc % ADLER_MOD) % ADLER_MOD == (total + inc) % ADLER_MOD
  {
    var t, i := total % ADLER_MOD, inc % ADLER_MOD;
    ReduceOnce(total, i);
    var q := total / ADLER_MOD + inc / ADLER_MOD;
    assert total + inc == q * ADLER_MOD + (t + i);
    if t + i >= ADLER_MOD {
      DivModUnique(total + inc, ADLER_MOD, q + 1, t + i - ADLER_MOD);
    } else {
      DivModUnique(total + inc, ADLER_MOD, q, t + i);
    }
  }

  /** One turn of the checksum loop: two additions, each followed by at most one subtraction. */
  lemma AdlerStep(x: seq<byte>, b: byte, a1: nat, a2: nat)
    requires a1 == AdlerA(x) + b && a2 == AdlerB(x) + AdlerA(x + [b])
    ensures AdlerA(x + [b]) == if a1 >= ADLER_MOD then a1 - ADLER_MOD else a1
    ensures AdlerB(x + [b]) == if a2 >= ADLER_MOD then a2 - ADLER_MOD else a2
  {
    var y := x + [b];
    assert y[..|y| - 1] == x;
    ReduceOnce(S1(x), b);
    ReduceOnce(S2(x), AdlerA(y));
    ReduceInner(S2(x), S1(y));
  }

  // ----- The reader -----

  function Little16(lo: byte, hi: byte): nat { lo + 256 * (hi as int) }

  predicate ValidHeader(cmf: byte, flg: byte) {
    && cmf % 16 == 8 && cmf / 16 <= 7                // deflate, window of at most 32K
    && (256 * (cmf as int) + flg) % 31 == 0          // FCHECK
    && (flg / 32) % 2 == 0                           // no preset dictionary
  }

  /** Concatenated payload of the stored blocks at the front of s, and what follows the final one. */
  function ParseBlocks(s: seq<byte>): Option<(seq<byte>, seq<byte>)>
    decreases |s|
  {
    if |s| < 5 || (s[0] / 2) % 4 != 0 then None
    else
      var len := Little16(s[1], s[2]);
      if Little16(s[3], s[4]) != 65535 - len || |s| < 5 + len then None
      else if s[0] % 2 == 1 then Some((s[5..5 + len], s[5 + len..]))
      else
        var (more, rest) :- ParseBlocks(s[5 + len..]);
        Some((s[5..5 + len] + more, rest))
  }

  ghost function Inflate(s: seq<byte>): Option<seq<byte>> {
    if |s| < 2 || !ValidHeader(s[0], s[1]) then None
    else
      var (payload, rest) :- ParseBlocks(s[2..]);
      if |rest| == 4 && Unsigned(rest) == Adler32(payload) then Some(payload) else None
  }

  lemma {:induction false} RestIsSuffix(s: seq<byte>)
    ensures ParseBlocks(s).Some? ==> var rest := ParseBlocks(s).value.1; |rest| + 5 <= |s| && rest == s[|s| - |rest|..]
    decreases |s|
  {
    if ParseBlocks(s).Some? && s[0] % 2 != 1 {
      RestIsSuffix(s[5 + Little16(s[1], s[2])..]);
    }
  }

  /** The reader is strict: whatever it accepts ends with the checksum of what it returns. */
  lemma InflateChecks(s: seq<byte>)
    ensures Inflate(s).Some? ==>
              |s| >= 11 && ValidHeader(s[0], s[1]) && Unsigned(s[|s| - 4..]) == Adler32(Inflate(s).value)
  {
    hide Adler32, Unsigned;
    if Inflate(s).Some? {
      RestIsSuffix(s[2..]);
      assert s[2..][|s| - 6..] == s[|s| - 4..];
    }
  }

  // ----- The layout the writer produces -----

  function BlockEnd(x: seq<byte>, start: nat): (e: nat)
    requires start <= |x|
    ensures start <= e <= |x|
  {
    if start + MAX_BLOCK <= |x| then start + MAX_BLOCK else |x|
  }

  function BlockHeader(len: nat, final: bool): seq<byte>
    requires len <= MAX_BLOCK
  {
    [if final then 1 else 0, len % 256, len / 256, 255 - len % 256, 255 - len / 256]
  }

  /** The stored blocks that carry x[start..]. */
  function StoredFrom(x: seq<byte>, start: nat): seq<byte>
    requires start <= |x|
    decreases |x| - start
  {
    var end := BlockEnd(x, start);
    BlockHeader(end - start, end == |x|) + (x[start..end] + if end == |x| then [] else StoredFrom(x, end))
  }

  function NumBlocks(n: nat): nat {
    var q := (n + MAX_BLOCK - 1) / MAX_BLOCK;
    if q >= 1 then q else 1
  }

  /** Parsing the blocks gives the payload back and stops exactly after the final block. */
  lemma {:induction false} ParseStored(x: seq<byte>, start: nat, tail: seq<byte>)
    requires start <= |x|
    ensures ParseBlocks(StoredFrom(x, start) + tail) == Some((x[start..], tail))
    decreases |x| - start
  {
    var end := BlockEnd(x, start);
    var more := if end == |x| then [] else StoredFrom(x, end);
    var h, data := BlockHeader(end - start, end == |x|), x[start..end];
    Assoc4(h, data, more, tail);
    ParseOneBlock(h, data, more + tail, end == |x|);
    SliceJoin(x, start, end);
    if end == |x| {
      assert [] + tail == tail;
    } else {
      ParseStored(x, end, tail);
    }
  }

  lemma HeaderFields(len: nat, final: bool)
    requires len <= MAX_BLOCK
    ensures var h := BlockHeader(len, final);
            && h[0] % 2 == (if final then 1 else 0) && (h[0] / 2) % 4 == 0
            && Little16(h[1], h[2]) == len && Little16(h[3], h[4]) == 65535 - len
  {}

  lemma ParseOneBlock(h: seq<byte>, data: seq<byte>, rest: seq<byte>, final: bool)
    requires |data| <= MAX_BLOCK && h == BlockHeader(|data|, final)
    ensures var r := ParseBlocks(h + (data + rest));
            if final then r == Some((data, rest))
            else ParseBlocks(rest).Some? ==>
                   r == Some((data + ParseBlocks(rest).value.0, ParseBlocks(rest).value.1))
  {
    HeaderFields(|data|, final);
    var s := h + (data + rest);
    assert s[0] == h[0] && s[1] == h[1] && s[2] == h[2] && s[3] == h[3] && s[4] == h[4];
    DropPrefix(h + data, rest);
    Assoc(h, data, rest);
    DropPrefix(h, data);
    assert s[5..5 + |data|] == (h + data)[5..];
  }

  lemma {:induction false} StoredLength(x: seq<byte>, start: nat)
    requires start <= |x|
    ensures |StoredFrom(x, start)| == |x| - start + 5 * NumBlocks(|x| - start)
    decreases |x| - start
  {
    var end := BlockEnd(x, start);
    if end < |x| {
      StoredLength(x, end);
    }
  }

  // ----- The writer -----

  /** `~v` on the 64-bit unsigned `std::size_t`. */
  function Not64(v: nat): nat
    requires v <= 0xFFFF_FFFF_FFFF_FFFF
  {
    0xFFFF_FFFF_FFFF_FFFF - v
  }

  /** The five header bytes as the writer computes them; NLEN comes from the 64-bit complement. */
  function WrittenHeader(blockSize: nat, isFinal: bool): (h: seq<byte>)
    requires blockSize <= MAX_BLOCK
    ensures h == BlockHeader(blockSize, isFinal)
  {
    NotBytes(blockSize);
    [if isFinal then 1 else 0, blockSize % 256, (blockSize / 256) % 256,
     Not64(blockSize) % 256, (Not64(blockSize) / 256) % 256]
  }

  lemma NotBytes(len: nat)
    requires len <= MAX_BLOCK
    ensures Not64(len) % 256 == 255 - len % 256
    ensures (Not64(len) / 256) % 256 == 255 - len / 256
    ensures (len / 256) % 256 == len / 256
  {
    var hi, lo := len / 256, len % 256;
    DivModUnique(Not64(len), 256, 0xFF_FFFF_FFFF_FFFF - hi, 255 - lo);
    DivModUnique(0xFF_FFFF_FFFF_FFFF - hi, 256, 0xFFFF_FFFF_FFFF, 255 - hi);
    DivModUnique(hi, 256, 0, hi);
  }

  /** The checksum bytes: second sum first, each most significant byte first. */
  function Trailer(a1: nat, a2: nat): (t: seq<byte>)
    requires a1 < ADLER_MOD && a2 < ADLER_MOD
    ensures |t| == 4 && Unsigned(t) == a2 * 65536 + a1
  {
    var t := [(a2 / 256) % 256, a2 % 256, (a1 / 256) % 256, a1 % 256];
    UnsignedFour(t);
    t
  }

  /** The loop over one block: copy the bytes and accumulate the checksum. */
  method CopyBlock(input: seq<byte>, blockStart: nat, blockEnd: nat, output0: seq<byte>, b1: nat, b2: nat)
    returns (output: seq<byte>, a1: nat, a2: nat)
    requires blockStart <= blockEnd <= |input|
    requires b1 == AdlerA(input[..blockStart]) && b2 == AdlerB(input[..blockStart])
    ensures output == output0 + input[blockStart..blockEnd]
    ensures a1 == AdlerA(input[..blockEnd]) && a2 == AdlerB(input[..blockEnd])
  {
    output, a1, a2 := output0, b1, b2;
    var i := blockStart;
    while i < blockEnd
      invariant blockStart <= i <= blockEnd
      invariant output == output0 + input[blockStart..i]
      invariant a1 == AdlerA(input[..i]) && a2 == AdlerB(input[..i])
    {
      var x := input[i];
      output := output + [x];
      ghost var done := input[..i];
      assert done + [x] == input[..i + 1];
      assert input[blockStart..i] + [x] == input[blockStart..i + 1];
      AdlerStep(done, x, a1 + x, a2 + AdlerA(done + [x]));
      a1 := a1 + x;
      if a1 >= ADLER_MOD {
        a1 := a1 - ADLER_MOD;
      }
      a2 := a2 + a1;
      if a2 >= ADLER_MOD {
        a2 := a2 - ADLER_MOD;
      }
      i := i + 1;
    }
  }

  /** What has been written when the next block starts at blockStart. */
  ghost predicate Written(input: seq<byte>, blockStart: nat, output: seq<byte>) {
    if blockStart == 0 || blockStart < |input|
    then output + StoredFrom(input, blockStart) == ZLIB_HEADER + StoredFrom(input, 0)
    else output == ZLIB_HEADER + StoredFrom(input, 0)
  }

  ghost function Consumed(input: seq<byte>, blockStart: nat): seq<byte> {
    if blockStart < |input| then input[..blockStart] else input
  }

  /** One turn of the block loop. */
  method WriteBlock(input: seq<byte>, blockStart: nat, output0: seq<byte>, b1: nat, b2: nat)
    returns (output: seq<byte>, a1: nat, a2: nat)
    requires blockStart == 0 || blockStart < |input|
    requires Written(input, blockStart, output0)
    requires b1 == AdlerA(Consumed(input, blockStart)) && b2 == AdlerB(Consumed(input, blockStart))
    ensures Written(input, blockStart + MAX_BLOCK, output)
    ensures var done := Consumed(input, blockStart + MAX_BLOCK); a1 == AdlerA(done) && a2 == AdlerB(done)
  {
    hide StoredFrom, BlockHeader, AdlerA, AdlerB;
    var blockEnd := if blockStart + MAX_BLOCK < |input| then blockStart + MAX_BLOCK else |input|;
    var blockSize := blockEnd - blockStart;
    var isFinal := blockEnd == |input|;
    var header := WrittenHeader(blockSize, isFinal);
    assert Consumed(input, blockStart) == input[..blockStart];
    output, a1, a2 := CopyBlock(input, blockStart, blockEnd, output0 + header, b1, b2);
    assert Consumed(input, blockStart + MAX_BLOCK) == input[..blockEnd];
    Assoc(output0, header, input[blockStart..blockEnd]);
    BlockAppended(input, blockStart, output0, output, ZLIB_HEADER + StoredFrom(input, 0));
  }

  lemma AdlerOfNothing(x: seq<byte>)
    ensures x == [] ==> AdlerA(x) == 1 && AdlerB(x) == 0
  {}

  /** Whatever the input, the output is a well-formed zlib stream whose inflated content is the input,
      and its length is the amount reserved up front. */
  method Compress(input: seq<byte>) returns (output: seq<byte>)
    ensures Inflate(output) == Some(input)
    ensures |output| == |input| + 6 + 5 * if input == [] then 1 else (|input| + 65534) / 65535
    ensures output[..2] == [0x78, 0x01]
    ensures Unsigned(output[|output| - 4..]) ==
              ((|input| + WeightedSum(input, |input|)) % 65521) * 65536 + (1 + ByteSum(input)) % 65521
  {
    hide StoredFrom, S1, S2, Inflate, NumBlocks;
    output := ZLIB_HEADER;
    var a1, a2: nat := 1, 0;
    var blockStart: nat := 0;
    AdlerOfNothing(Consumed(input, 0));
    while blockStart == 0 || blockStart < |input|
      invariant Written(input, blockStart, output)
      invariant a1 == AdlerA(Consumed(input, blockStart)) && a2 == AdlerB(Consumed(input, blockStart))
      decreases if blockStart == 0 then 1 else 0, |input| - blockStart
    {
      output, a1, a2 := WriteBlock(input, blockStart, output, a1, a2);
      blockStart := blockStart + MAX_BLOCK;
    }
    var trailer := Trailer(a1, a2);
    output := output + trailer;
    StreamInflates(input, output, trailer);
    BlockCount(|input|);
    assert output[|output| - 4..] == trailer;
    FirstSum(input);
    SecondSumClosedForm(input);
  }

  lemma BlockCount(n: nat)
    ensures NumBlocks(n) == if n == 0 then 1 else (n + 65534) / 65535
  {}

  lemma BlockAppended(x: seq<byte>, start: nat, before: seq<byte>, after: seq<byte>, total: seq<byte>)
    requires start <= |x|
    requires before + StoredFrom(x, start) == total
    requires var end := BlockEnd(x, start);
             after == before + (BlockHeader(end - start, end == |x|) + x[start..end])
    ensures var end := BlockEnd(x, start);
            if end == |x| then after == total else after + StoredFrom(x, end) == total
  {
    var end := BlockEnd(x, start);
    var h, data := BlockHeader(end - start, end == |x|), x[start..end];
    if end == |x| {
      assert data + [] == data;
    } else {
      Assoc(h, data, StoredFrom(x, end));
      Assoc(before, h + data, StoredFrom(x, end));
    }
  }

  lemma StreamInflates(x: seq<byte>, output: seq<byte>, trailer: seq<byte>)
    requires output == ZLIB_HEADER + StoredFrom(x, 0) + trailer
    requires |trailer| == 4 && Unsigned(trailer) == Adler32(x)
    ensures Inflate(output) == Some(x)
    ensures |output| == |x| + 2 + 4 + 5 * NumBlocks(|x|)
  {
    ParseStored(x, 0, trailer);
    StoredLength(x, 0);
    assert x[0..] == x;
    Assoc(ZLIB_HEADER, StoredFrom(x, 0), trailer);
    InflateFrame(output, StoredFrom(x, 0) + trailer, x, trailer);
  }

  lemma HeaderIsValid()
    ensures ValidHeader(120, 1)
  {
    assert 256 * 120 + 1 == 31 * 991;
  }

  lemma InflateFrame(s: seq<byte>, body: seq<byte>, x: seq<byte>, trailer: seq<byte>)
    requires s == ZLIB_HEADER + body
    requires ParseBlocks(body) == Some((x, trailer))
    requires |trailer| == 4 && Unsigned(trailer) == Adler32(x)
    ensures Inflate(s) == Some(x)
  {
    HeaderIsValid();
    DropPrefix(ZLIB_HEADER, body);
  }
}
