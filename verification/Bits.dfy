/** Bits, bytes and the 64-bit register arithmetic the deflate scanner is written in.

    A compressed byte string is seen as one sequence of bits, least significant bit of each byte
    first.  The register of the scanner is an unsigned 64-bit number, so its shifts and ors are
    written out on natural numbers below 2^64. */
module Bits {
  type byte = x: int | 0 <= x < 256

  datatype Option<+T> = None | Some(value: T)

  // ---- powers of two ----

  /** x * 2^n. */
  function Scale(x: nat, n: nat): nat {
    if n == 0 then x else 2 * Scale(x, n - 1)
  }

  function Pow2(n: nat): (r: nat)
    ensures r >= 1
  {
    if n == 0 then 1 else 2 * Pow2(n - 1)
  }

  lemma {:induction false} ScaleAdd(x: nat, y: nat, n: nat)
    ensures Scale(x + y, n) == Scale(x, n) + Scale(y, n)
  {
    if n > 0 {
      ScaleAdd(x, y, n - 1);
    }
  }

  lemma {:induction false} ScaleTwice(x: nat, m: nat, n: nat)
    ensures Scale(Scale(x, m), n) == Scale(x, m + n)
  {
    if n > 0 {
      ScaleTwice(x, m, n - 1);
    }
  }

  lemma {:induction false} ScalePow2(m: nat, n: nat)
    ensures Scale(Pow2(m), n) == Pow2(m + n)
  {
    if n > 0 {
      ScalePow2(m, n - 1);
    }
  }

  lemma {:induction false} ScaleMonotone(x: nat, y: nat, n: nat)
    ensures x <= y ==> Scale(x, n) <= Scale(y, n)
    ensures x < y ==> Scale(x, n) + Pow2(n) <= Scale(y, n)
  {
    if n > 0 {
      ScaleMonotone(x, y, n - 1);
    }
  }

  lemma {:induction false} Pow2Monotone(a: nat, b: nat)
    requires a <= b
    ensures Pow2(a) <= Pow2(b)
  {
    if a < b {
      Pow2Monotone(a, b - 1);
    }
  }

  // ---- low and high bits ----

  /** x & (1 << n - 1): the n low bits. */
  function Low(x: nat, n: nat): (r: nat)
    ensures r < Pow2(n)
  {
    if n == 0 then 0 else x % 2 + 2 * Low(x / 2, n - 1)
  }

  /** x >> n. */
  function Shr(x: nat, n: nat): nat {
    if n == 0 then x else Shr(x / 2, n - 1)
  }

  lemma {:induction false} LowShr(x: nat, n: nat)
    ensures x == Low(x, n) + Scale(Shr(x, n), n)
  {
    if n > 0 {
      LowShr(x / 2, n - 1);
    }
  }

  /** A number put together from n low bits and a high part comes apart the same way. */
  lemma {:induction false} LowShrUnique(low: nat, high: nat, n: nat)
    requires low < Pow2(n)
    ensures Low(low + Scale(high, n), n) == low
    ensures Shr(low + Scale(high, n), n) == high
  {
    if n > 0 {
      LowShrUnique(low / 2, high, n - 1);
      var h := Scale(high, n - 1);
      assert (low + 2 * h) / 2 == low / 2 + h && (low + 2 * h) % 2 == low % 2;
    }
  }

  lemma LowSmall(x: nat, n: nat)
    requires x < Pow2(n)
    ensures Low(x, n) == x && Shr(x, n) == 0
  {
    ScaleZero(n);
    LowShrUnique(x, 0, n);
  }

  lemma {:induction false} ScaleZero(n: nat)
    ensures Scale(0, n) == 0
  {
    if n > 0 {
      ScaleZero(n - 1);
    }
  }

  // ---- fields of a bit stream ----

  /** The number in bits p to p + n of B, least significant bit first. */
  function Field(B: seq<bool>, p: nat, n: nat): (r: nat)
    requires p + n <= |B|
    ensures r < Pow2(n)
    decreases |B| - p
  {
    if n == 0 then 0 else (if B[p] then 1 else 0) + 2 * Field(B, p + 1, n - 1)
  }

  /** A field of m + n bits is a field of m bits with a field of n bits above it. */
  lemma {:induction false} FieldConcat(B: seq<bool>, p: nat, m: nat, n: nat)
    requires p + m + n <= |B|
    ensures Field(B, p, m + n) == Field(B, p, m) + Scale(Field(B, p + m, n), m)
    decreases m
  {
    if m > 0 {
      FieldConcat(B, p + 1, m - 1, n);
    }
  }

  /** The low m bits of a field are the field of those bits, the high bits the field after it. */
  lemma FieldSplit(B: seq<bool>, p: nat, m: nat, n: nat)
    requires m <= n && p + n <= |B|
    ensures Low(Field(B, p, n), m) == Field(B, p, m)
    ensures Shr(Field(B, p, n), m) == Field(B, p + m, n - m)
  {
    FieldConcat(B, p, m, n - m);
    LowShrUnique(Field(B, p, m), Field(B, p + m, n - m), m);
  }

  /** The bits of B from p on are the bits of C from q on. */
  ghost predicate SameBits(B: seq<bool>, p: nat, C: seq<bool>, q: nat) {
    && p <= |B| && q <= |C| && |B| - p == |C| - q
    && forall i :: p <= i < |B| ==> B[i] == C[i - p + q]
  }

  lemma {:induction false} FieldSame(B: seq<bool>, p: nat, C: seq<bool>, q: nat, i: nat, n: nat)
    requires SameBits(B, p, C, q) && p + i + n <= |B|
    ensures Field(B, p + i, n) == Field(C, q + i, n)
    decreases n
  {
    if n > 0 {
      FieldSame(B, p, C, q, i + 1, n - 1);
    }
  }

  // ---- numbers and byte strings as bits ----

  /** The n low bits of v, least significant first. */
  function NatBits(v: nat, n: nat): (s: seq<bool>)
    ensures |s| == n
  {
    if n == 0 then [] else [v % 2 == 1] + NatBits(v / 2, n - 1)
  }

  lemma {:induction false} FieldOfNatBits(v: nat, n: nat, B: seq<bool>, p: nat)
    requires p + n <= |B| && forall i :: 0 <= i < n ==> B[p + i] == NatBits(v, n)[i]
    ensures Field(B, p, n) == Low(v, n)
    decreases n
  {
    if n > 0 {
      assert B[p] == NatBits(v, n)[0];
      var rest := NatBits(v / 2, n - 1);
      forall i | 0 <= i < n - 1
        ensures B[p + 1 + i] == rest[i]
      {
        assert B[p + (i + 1)] == NatBits(v, n)[i + 1];
      }
      FieldOfNatBits(v / 2, n - 1, B, p + 1);
    }
  }

  /** The bits of a byte string, in the order a deflate decoder consumes them. */
  function StreamBits(data: seq<byte>): (s: seq<bool>)
    ensures |s| == 8 * |data|
  {
    if data == [] then [] else NatBits(data[0], 8) + StreamBits(data[1..])
  }

  lemma {:induction false} StreamBit(data: seq<byte>, i: nat, j: nat)
    requires i < |data| && j < 8
    ensures StreamBits(data)[8 * i + j] == NatBits(data[i], 8)[j]
  {
    if i > 0 {
      StreamBit(data[1..], i - 1, j);
    }
  }

  /** Eight aligned bits of the stream are one byte of the data. */
  lemma StreamByte(data: seq<byte>, i: nat)
    requires i < |data|
    ensures Field(StreamBits(data), 8 * i, 8) == data[i]
  {
    forall j | 0 <= j < 8
      ensures StreamBits(data)[8 * i + j] == NatBits(data[i], 8)[j]
    {
      StreamBit(data, i, j);
    }
    FieldOfNatBits(data[i], 8, StreamBits(data), 8 * i);
    Pow2Of8();
    LowSmall(data[i], 8);
  }

  lemma Pow2Of8()
    ensures Pow2(8) == 256
  {}

  lemma Pow2Of16()
    ensures Pow2(16) == 65536
  {
    Pow2Of8();
    ScalePow2(8, 8);
    Scale8(256);
  }

  /** Cutting whole bytes off the front of the data cuts their bits off the stream. */
  lemma StreamBitsDrop(data: seq<byte>, k: nat)
    requires k <= |data|
    ensures SameBits(StreamBits(data), 8 * k, StreamBits(data[k..]), 0)
  {
    hide StreamBits;
    var all, cut := StreamBits(data), StreamBits(data[k..]);
    forall t | 8 * k <= t < |all|
      ensures all[t] == cut[t - 8 * k + 0]
    {
      StreamBitAfter(data, k, t);
    }
  }

  lemma StreamBitAfter(data: seq<byte>, k: nat, t: nat)
    requires k <= |data| && 8 * k <= t < 8 * |data|
    ensures StreamBits(data)[t] == StreamBits(data[k..])[t - 8 * k]
  {
    hide StreamBits;
    var i, j := ByteAndBit(t);
    StreamBitDrop(data, k, i, j);
    assert 8 * (i - k) + j == t - 8 * k;
  }

  lemma ByteAndBit(t: nat) returns (i: nat, j: nat)
    ensures t == 8 * i + j && j < 8
  {
    i, j := t / 8, t % 8;
  }

  lemma StreamBitDrop(data: seq<byte>, k: nat, i: nat, j: nat)
    requires k <= i < |data| && j < 8
    ensures StreamBits(data)[8 * i + j] == StreamBits(data[k..])[8 * (i - k) + j]
  {
    hide StreamBits, NatBits;
    var cut, m := data[k..], i - k;
    assert m < |cut| && cut[m] == data[i];
    StreamBit(data, i, j);
    StreamBit(cut, m, j);
  }

  /** The little-endian number in a byte string. */
  function LittleEndian(bs: seq<byte>): nat {
    if bs == [] then 0 else bs[0] + 256 * LittleEndian(bs[1..])
  }

  lemma Scale8(x: nat)
    ensures Scale(x, 8) == 256 * x
  {
    assert Scale(x, 1) == 2 * x;
    assert Scale(x, 3) == 8 * x;
    assert Scale(x, 5) == 32 * x;
    assert Scale(x, 7) == 128 * x;
  }

  lemma Scale32(x: nat)
    ensures Scale(x, 32) == 0x1_0000_0000 * x
  {
    Scale8(x);
    ScaleTwice(x, 8, 8);
    Scale8(Scale(x, 8));
    ScaleTwice(x, 16, 8);
    Scale8(Scale(x, 16));
    ScaleTwice(x, 24, 8);
    Scale8(Scale(x, 24));
  }

  /** A word loaded from bytes i to i + n of the data is the field of their bits. */
  lemma {:induction false} LittleEndianField(data: seq<byte>, i: nat, n: nat)
    requires i + n <= |data|
    ensures Field(StreamBits(data), 8 * i, 8 * n) == LittleEndian(data[i..i + n])
    decreases n
  {
    if n > 0 {
      LittleEndianField(data, i + 1, n - 1);
      FieldConcat(StreamBits(data), 8 * i, 8, 8 * (n - 1));
      StreamByte(data, i);
      Scale8(LittleEndian(data[i + 1..i + n]));
      assert data[i..i + n][1..] == data[i + 1..i + n];
    }
  }

  /** A slice of a slice is a slice. */
  lemma SliceOfSlice(s: seq<byte>, a: nat, b: nat, at: nat, k: nat)
    requires a <= b <= |s| && at + k <= b - a
    ensures s[a..b][at..at + k] == s[a + at..a + at + k]
  {
    var t := s[a..b];
    var left, right := t[at..at + k], s[a + at..a + at + k];
    forall j | 0 <= j < k
      ensures left[j] == right[j]
    {
      assert t[at + j] == s[a + (at + j)];
    }
  }

  lemma Regroup(a: seq<byte>, b: seq<byte>, c: seq<byte>)
    ensures (a + b) + c == a + (b + c)
  {}

  function Zeros(n: nat): (z: seq<byte>)
    ensures |z| == n
  {
    seq(n, i => 0)
  }

  /** Little-endian fields of a buffer. */
  function U16(b: seq<byte>, i: nat): nat
    requires i + 2 <= |b|
  {
    b[i] as nat + 256 * (b[i + 1] as nat)
  }

  function U32(b: seq<byte>, i: nat): nat
    requires i + 4 <= |b|
  {
    b[i] as nat + 256 * (b[i + 1] as nat) + 0x1_0000 * (b[i + 2] as nat) + 0x100_0000 * (b[i + 3] as nat)
  }

  // ---- unsigned 64-bit operations ----

  const TWO_TO_64 := 0x1_0000_0000_0000_0000

  const TWO_TO_63 := 0x8000_0000_0000_0000

  /** The signed number with these 64 bits. */
  function AsInt64(u: nat): int {
    if u < TWO_TO_63 then u else u - TWO_TO_64
  }

  lemma Scale64(x: nat)
    ensures Scale(x, 64) == TWO_TO_64 * x
  {
    Scale32(x);
    ScaleTwice(x, 32, 32);
    Scale32(Scale(x, 32));
  }

  lemma Pow2Of64()
    ensures Pow2(64) == TWO_TO_64
  {
    ScalePow2(0, 64);
    Scale64(1);
  }

  /** x << n on 64 bits: what leaves the top is lost. */
  function Shl64(x: nat, n: nat): (r: nat)
    ensures r < TWO_TO_64
  {
    Scale(x, n) % TWO_TO_64
  }

  /** x | y, bit by bit. */
  function Or(x: nat, y: nat): nat
    decreases x + y
  {
    if x == 0 && y == 0 then 0
    else (if x % 2 == 1 || y % 2 == 1 then 1 else 0) + 2 * Or(x / 2, y / 2)
  }

  lemma {:induction false} OrZero(x: nat)
    ensures Or(x, 0) == x && Or(0, x) == x
  {
    if x > 0 {
      OrZero(x / 2);
    }
  }

  /** Where no bit is set on both sides, or is addition. */
  lemma {:induction false} OrDisjoint(x: nat, y: nat, c: nat)
    requires x < Pow2(c)
    ensures Or(x, Scale(y, c)) == x + Scale(y, c)
    ensures Or(Scale(y, c), x) == x + Scale(y, c)
  {
    if c == 0 {
      OrZero(y);
    } else {
      OrDisjoint(x / 2, y, c - 1);
      var h := Scale(y, c - 1);
      assert (2 * h) / 2 == h && (2 * h) % 2 == 0;
    }
  }

  /** Where nothing leaves the top, a shift is a multiplication. */
  lemma ShlFits(x: nat, n: nat, w: nat)
    requires x < Pow2(w) && w + n <= 64
    ensures Shl64(x, n) == Scale(x, n) < Pow2(w + n)
  {
    ScaleMonotone(x, Pow2(w), n);
    ScalePow2(w, n);
    Pow2Monotone(w + n, 64);
    Pow2Of64();
  }
}
