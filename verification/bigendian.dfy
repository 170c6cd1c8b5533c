/** Bytes, powers of two, big-endian packing (Python's `struct.pack(">L")`
    and `struct.pack(">Q")`) and Python's `^` on non-negative integers. */
module BigEndian {

  type byte = x: int | 0 <= x < 256

  function Pow2(n: nat): (r: nat)
    ensures r >= 1
  {
    if n == 0 then 1 else 2 * Pow2(n - 1)
  }

  /** The `n` least significant bytes of `v`, most significant first. */
  function PackN(v: nat, n: nat): (r: seq<byte>)
    requires v < Pow2(8 * n)
    ensures |r| == n
    decreases n
  {
    if n == 0 then []
    else
      Pow8Step(n);
      PackN(v / 256, n - 1) + [v % 256]
  }

  /** Reads a big-endian unsigned integer. */
  function Unpack(s: seq<byte>): (v: nat)
    ensures v < Pow2(8 * |s|)
  {
    if |s| == 0 then 0
    else
      Pow8Step(|s|);
      Unpack(s[..|s| - 1]) * 256 + s[|s| - 1]
  }

  lemma Pow8Step(n: nat)
    requires n >= 1
    ensures Pow2(8 * n) == 256 * Pow2(8 * (n - 1))
  {
    var m := 8 * (n - 1);
    assert 8 * n == m + 8;
    PowAdd(m, 8);
    assert Pow2(8) == 256;
  }

  lemma {:induction false} PowAdd(a: nat, b: nat)
    ensures Pow2(a + b) == Pow2(a) * Pow2(b)
    decreases b
  {
    if b == 0 {
    } else {
      PowAdd(a, b - 1);
      assert Pow2(a + b) == 2 * Pow2(a + b - 1);
      assert Pow2(b) == 2 * Pow2(b - 1);
    }
  }

  /** Unpacking what was packed gives the value back. */
  lemma {:induction false} UnpackPack(v: nat, n: nat)
    requires v < Pow2(8 * n)
    ensures Unpack(PackN(v, n)) == v
    decreases n
  {
    if n > 0 {
      Pow8Step(n);
      var p := PackN(v, n);
      assert p[..n - 1] == PackN(v / 256, n - 1);
      UnpackPack(v / 256, n - 1);
    }
  }

  /** Packing what was unpacked gives the bytes back. */
  lemma {:induction false} PackUnpack(s: seq<byte>)
    ensures PackN(Unpack(s), |s|) == s
  {
    if |s| > 0 {
      var n := |s|;
      Pow8Step(n);
      PackUnpack(s[..n - 1]);
      var v := Unpack(s);
      assert v / 256 == Unpack(s[..n - 1]);
      assert v % 256 == s[n - 1];
      assert s == s[..n - 1] + [s[n - 1]];
    }
  }

  /** The powers of two the packers need, each from the previous one. */
  lemma Pow2Of16()
    ensures Pow2(16) == 0x1_0000
  {
    assert Pow2(8) == 256;
    PowAdd(8, 8);
  }

  lemma Pow2Of32()
    ensures Pow2(32) == 0x1_0000_0000
  {
    Pow2Of16();
    PowAdd(16, 16);
  }

  lemma Pow2Of64()
    ensures Pow2(64) == 0x1_0000_0000_0000_0000
  {
    Pow2Of32();
    PowAdd(32, 32);
  }

  /** `pack_4`: `struct.pack(">L", v)` as a list of four byte values; the
      struct module refuses values outside 0 .. 2^32 - 1. */
  function Pack4(v: nat): (r: seq<byte>)
    requires v < 0x1_0000_0000
    ensures |r| == 4 && Unpack(r) == v
  {
    Pow2Of32();
    UnpackPack(v, 4);
    PackN(v, 4)
  }

  /** `pack_8`: `struct.pack(">Q", v)`, eight bytes big-endian. */
  function Pack8(v: nat): (r: seq<byte>)
    requires v < 0x1_0000_0000_0000_0000
    ensures |r| == 8 && Unpack(r) == v
  {
    Pow2Of64();
    UnpackPack(v, 8);
    PackN(v, 8)
  }

  /** Python's `a ^ b` for non-negative integers, bit by bit. */
  function BitXor(a: nat, b: nat): nat
    decreases a + b
  {
    if a == 0 && b == 0 then 0
    else (a % 2 + b % 2) % 2 + 2 * BitXor(a / 2, b / 2)
  }

  /** One step of `BitXor` against an odd mask `2m + 1`. */
  lemma XorOddStep(c: nat, m: nat)
    ensures BitXor(c, 2 * m + 1) == (1 - c % 2) + 2 * BitXor(c / 2, m)
  {
    assert (2 * m + 1) / 2 == m && (2 * m + 1) % 2 == 1;
    assert (c % 2 + 1) % 2 == 1 - c % 2;
  }

  /** XOR with an all-ones mask of `n` bits is the ones' complement within
      those bits. */
  lemma {:induction false} XorAllOnes(c: nat, n: nat)
    requires c < Pow2(n)
    ensures BitXor(c, Pow2(n) - 1) == Pow2(n) - 1 - c
    decreases n
  {
    if n > 0 {
      var m := Pow2(n - 1) - 1;
      assert Pow2(n) - 1 == 2 * m + 1;
      assert c / 2 < Pow2(n - 1);
      XorAllOnes(c / 2, n - 1);
      XorOddStep(c, m);
      assert c == 2 * (c / 2) + c % 2;
    }
  }

}
