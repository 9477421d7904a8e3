/** Byte strings as the editor handles them: Python `bytes` values read as
    little-endian integers by the bit packer, and the signed 32-bit
    big-endian key of an item header (`struct` format `>i`). */
module ByteStrings {
  import opened PyInt
  import opened Results

  type Byte = b: int | 0 <= b < 256

  /** `a | b` on two bytes, which is again a byte. */
  function OrByte(a: Byte, b: Byte): (r: Byte)
    ensures r == Or(a, b)
  {
    Pow2Byte();
    OrBound(a, b, 8);
    Or(a, b)
  }

  /** `x & 0xFF`, the low byte of x. */
  function LowByte(x: nat): (r: Byte)
    ensures r == Low(x, 8)
  {
    Pow2Byte();
    Low(x, 8)
  }

  /** The unsigned integer a byte string holds, least significant byte first. */
  function LeValue(s: seq<Byte>): (r: nat)
    ensures r < Pow2(8 * |s|)
  {
    if |s| == 0 then 0
    else
      Pow2Byte();
      Pow2Add(8, 8 * (|s| - 1));
      s[0] + 256 * LeValue(s[1..])
  }

  /** The n low-order bytes of x, least significant first. */
  function LeBytes(x: nat, n: nat): (r: seq<Byte>)
    ensures |r| == n
  {
    if n == 0 then [] else [x % 256] + LeBytes(x / 256, n - 1)
  }

  /** The value of a non-empty string is its first byte plus 256 times the value of the rest. */
  lemma LeValueSplitsAtHead(s: seq<Byte>)
    requires |s| > 0
    ensures LeValue(s) % 256 == s[0] && LeValue(s) / 256 == LeValue(s[1..])
  {
    DivModUnique(LeValue(s), 256, LeValue(s[1..]), s[0]);
  }

  /** Reading back n bytes of x gives x modulo 2^(8n). */
  lemma {:induction false} LeValueOfLeBytes(x: nat, n: nat)
    ensures LeValue(LeBytes(x, n)) == Low(x, 8 * n)
    decreases n
  {
    if n > 0 {
      LeValueOfLeBytes(x / 256, n - 1);
      var r := LeBytes(x, n);
      assert r[1..] == LeBytes(x / 256, n - 1);
      Pow2Byte();
      Pow2Add(8, 8 * (n - 1));
      ModProduct(x, 256, Pow2(8 * (n - 1)));
    }
  }

  /** Taking the first n bytes of the value of s gives back the first n bytes of s. */
  lemma {:induction false} LeBytesOfLeValue(s: seq<Byte>, n: nat)
    requires n <= |s|
    ensures LeBytes(LeValue(s), n) == s[..n]
    decreases n
  {
    if n > 0 {
      LeValueSplitsAtHead(s);
      LeBytesOfLeValue(s[1..], n - 1);
      assert s[..n] == [s[0]] + s[1..][..n - 1];
    }
  }

  /** The value of a concatenation: the second part sits 8 * |a| bits above the first. */
  lemma {:induction false} LeValueAppend(a: seq<Byte>, b: seq<Byte>)
    ensures LeValue(a + b) == LeValue(a) + Pow2(8 * |a|) * LeValue(b)
    decreases |a|
  {
    if |a| == 0 {
      assert a + b == b;
    } else {
      assert (a + b)[1..] == a[1..] + b;
      var p := Pow2(8 * (|a| - 1));
      LeValueAppend(a[1..], b);
      assert LeValue(a + b) == a[0] + 256 * (LeValue(a[1..]) + p * LeValue(b));
      Pow2Byte();
      Pow2Add(8, 8 * (|a| - 1));
      assert 8 + 8 * (|a| - 1) == 8 * |a|;
      ShiftByteUp(a[0], LeValue(a[1..]), LeValue(b), p, Pow2(8 * |a|), LeValue(a), LeValue(a + b));
    }
  }

  /** The arithmetic of one step of LeValueAppend: a first byte c below the value
      lr of the rest of a and the value lb of b, which starts p bytes' worth above. */
  lemma ShiftByteUp(c: int, lr: int, lb: int, p: int, q: int, la: int, lab: int)
    requires q == 256 * p && la == c + 256 * lr && lab == c + 256 * (lr + p * lb)
    ensures lab == la + q * lb
  {
  }

  /** A string of zero bytes has value 0. */
  lemma {:induction false} LeValueZero(s: seq<Byte>)
    requires forall k :: 0 <= k < |s| ==> s[k] == 0
    ensures LeValue(s) == 0
    decreases |s|
  {
    if |s| > 0 {
      LeValueZero(s[1..]);
    }
  }

  /** ORing a byte c into the lowest byte of x = b + 256 * rest. */
  lemma OrLowByte(x: nat, b: nat, c: nat, rest: nat)
    requires b < 256 && c < 256 && x == b + 256 * rest
    ensures Or(x, c) == Or(b, c) + 256 * rest
  {
    Pow2Byte();
    OrSplit(x, c, b, c, rest, 0, 8);
    OrZero(rest);
  }

  /** ORing y = 256 * hi into x = b + 256 * rest, with b a byte, leaves b alone. */
  lemma OrHighBytes(x: nat, y: nat, b: nat, rest: nat, hi: nat)
    requires b < 256 && x == b + 256 * rest && y == 256 * hi
    ensures Or(x, y) == b + 256 * Or(rest, hi)
  {
    Pow2Byte();
    OrSplit(x, y, b, 0, rest, hi, 8);
    OrZero(b);
  }

  /** Shifting by one byte multiplies by 256. */
  lemma ShlByte(x: nat, n: nat)
    ensures Shl(x, n + 8) == 256 * Shl(x, n)
  {
    ShlShl(x, n, 8);
    Pow2Byte();
    MulDistributes(x * Pow2(n), 256, 0);
  }

  /** ORing c into the first byte ORs c into the value. */
  lemma LeValueOrFirstByte(s: seq<Byte>, c: Byte)
    requires 0 < |s|
    ensures LeValue(s[0 := OrByte(s[0], c)]) == Or(LeValue(s), c)
  {
    var t := s[0 := OrByte(s[0], c)];
    assert t[1..] == s[1..];
    assert LeValue(t) == Or(s[0], c) + 256 * LeValue(s[1..]);
    OrLowByte(LeValue(s), s[0], c, LeValue(s[1..]));
  }

  /** ORing c into byte j > 0 is ORing it into byte j - 1 of the tail. */
  lemma LeValueOrLaterByte(s: seq<Byte>, j: nat, c: Byte)
    requires 0 < j < |s|
    requires LeValue(s[1..][j - 1 := OrByte(s[j], c)]) == Or(LeValue(s[1..]), Shl(c, 8 * (j - 1)))
    ensures LeValue(s[j := OrByte(s[j], c)]) == Or(LeValue(s), Shl(c, 8 * j))
  {
    var t := s[j := OrByte(s[j], c)];
    var rest, hi := LeValue(s[1..]), Shl(c, 8 * (j - 1));
    assert t[1..] == s[1..][j - 1 := OrByte(s[j], c)];
    assert LeValue(t) == s[0] + 256 * Or(rest, hi);
    assert LeValue(s) == s[0] + 256 * rest;
    ShlByte(c, 8 * (j - 1));
    assert Shl(c, 8 * j) == 256 * hi;
    OrHighBytes(LeValue(s), Shl(c, 8 * j), s[0], rest, hi);
  }

  /** ORing c into byte j ORs c << 8j into the value of the whole string. */
  lemma {:induction false} LeValueOrByte(s: seq<Byte>, j: nat, c: Byte)
    requires j < |s|
    ensures LeValue(s[j := OrByte(s[j], c)]) == Or(LeValue(s), Shl(c, 8 * j))
    decreases j
  {
    if j == 0 {
      LeValueOrFirstByte(s, c);
    } else {
      LeValueOrByte(s[1..], j - 1, c);
      assert s[1..][j - 1] == s[j];
      LeValueOrLaterByte(s, j, c);
    }
  }

  // ---------------------------------------------------------------------
  // Signed 32-bit big-endian integers, `struct` format `>i`

  const I32Min: int := -0x8000_0000
  const I32Max: int := 0x7FFF_FFFF

  /** 2^32, the modulus of the signed 32-bit encoding. */
  lemma Pow2ThirtyTwo()
    ensures Pow2(32) == 0x1_0000_0000
  {
    Pow2Byte();
    Pow2Add(8, 8);
    Pow2Add(16, 16);
  }

  /** `struct.unpack(">i", b)`: the unsigned big-endian value, read as two's complement. */
  function DecodeI32BE(b: seq<Byte>): (k: int)
    requires |b| == 4
    ensures I32Min <= k <= I32Max
  {
    Pow2ThirtyTwo();
    var u := LeValue([b[3], b[2], b[1], b[0]]);
    if u > I32Max then u - 0x1_0000_0000 else u
  }

  /** `struct.pack(">i", k)`, which raises `struct.error` outside the signed 32-bit range. */
  function EncodeI32BE(k: int): (r: Result<seq<Byte>>)
    ensures r.Success? <==> I32Min <= k <= I32Max
    ensures r.Success? ==> |r.value| == 4 && DecodeI32BE(r.value) == k
  {
    if k < I32Min || k > I32Max then Failure(StructRange)
    else
      var le := LeBytes(if k < 0 then k + 0x1_0000_0000 else k, 4);
      EncodedDecodes(k, le);
      Success([le[3], le[2], le[1], le[0]])
  }

  /** The four bytes of k's two's complement, most significant first, decode
      to k. */
  lemma EncodedDecodes(k: int, le: seq<Byte>)
    requires I32Min <= k <= I32Max
    requires le == LeBytes(if k < 0 then k + 0x1_0000_0000 else k, 4)
    ensures DecodeI32BE([le[3], le[2], le[1], le[0]]) == k
  {
    var u: nat := if k < 0 then k + 0x1_0000_0000 else k;
    Pow2ThirtyTwo();
    LeValueOfLeBytes(u, 4);
    assert u < Pow2(32);
    assert Low(u, 32) == u by { DivModUnique(u, Pow2(32), 0, u); }
    assert [le[3], le[2], le[1], le[0]][3] == le[0] && [le[0], le[1], le[2], le[3]] == le;
  }

  /** Every four bytes are the encoding of the integer they decode to. */
  lemma EncodeDecodeI32BE(b: seq<Byte>)
    requires |b| == 4
    ensures EncodeI32BE(DecodeI32BE(b)) == Success(b)
  {
    var le := [b[3], b[2], b[1], b[0]];
    var u := LeValue(le);
    Pow2ThirtyTwo();
    var k := DecodeI32BE(b);
    assert (if k < 0 then k + 0x1_0000_0000 else k) == u;
    LeBytesOfLeValue(le, 4);
    assert le[..4] == le;
    var out := LeBytes(u, 4);
    assert [out[3], out[2], out[1], out[0]] == b;
  }
}
