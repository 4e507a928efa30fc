/** Inflate, after RFC 1951 sections 3.2.3 to 3.2.7: what a sequence of bits decompresses to.

    `p` is always a bit position of the stream B and `out` the bytes decompressed so far, starting
    with the dictionary if there is one.  `look` is how many bits a decoder insists on having before
    it decodes a code-length symbol of a dynamic block header; the RFC asks for none. */
module Inflate {
  import opened Bits
  import opened Huffman

  /** How far back a match can reach. */
  const MAX_WINDOW := 32768

  datatype Outcome = Fail | Done(pos: nat, out: seq<byte>)

  // ---- length and distance codes (section 3.2.5) ----

  const LENGTH_CODES := 29
  const DISTANCE_CODES := 30

  function LengthExtra(i: nat): (e: nat)
    requires i < LENGTH_CODES
    ensures e <= 5
  {
    if i < 8 || i == 28 then 0 else (i - 4) / 4
  }

  /** The lengths tile 3 to 257 in order; the last code is 258 alone. */
  function LengthBase(i: nat): nat
    requires i < LENGTH_CODES
  {
    if i == 28 then 258 else if i == 0 then 3 else LengthBase(i - 1) + Pow2(LengthExtra(i - 1))
  }

  function DistanceExtra(d: nat): (e: nat)
    requires d < DISTANCE_CODES
    ensures e <= 13
  {
    if d < 4 then 0 else (d - 2) / 2
  }

  /** The distances tile 1 to 32768 in order. */
  function DistanceBase(d: nat): nat
    requires d <= DISTANCE_CODES
  {
    if d == 0 then 1 else DistanceBase(d - 1) + Pow2(DistanceExtra(d - 1))
  }

  lemma {:induction false} LengthBaseGrows(i: nat, j: nat)
    requires i <= j < LENGTH_CODES - 1
    ensures 3 <= LengthBase(i) <= LengthBase(j)
  {
    if i < j {
      LengthBaseGrows(i, j - 1);
    } else if i > 0 {
      LengthBaseGrows(i - 1, i - 1);
    }
  }

  lemma {:induction false} DistanceBaseGrows(d: nat, k: nat)
    requires d <= k <= DISTANCE_CODES
    ensures 1 <= DistanceBase(d) <= DistanceBase(k)
  {
    if d < k {
      DistanceBaseGrows(d, k - 1);
    } else if d > 0 {
      DistanceBaseGrows(d - 1, d - 1);
    }
  }

  lemma SmallPowers()
    ensures Pow2(0) == 1 && Pow2(1) == 2 && Pow2(2) == 4 && Pow2(3) == 8 && Pow2(4) == 16 && Pow2(5) == 32
    ensures Pow2(6) == 64 && Pow2(7) == 128 && Pow2(8) == 256 && Pow2(9) == 512 && Pow2(10) == 1024
    ensures Pow2(11) == 2048 && Pow2(12) == 4096 && Pow2(13) == 8192
  {
    assert Pow2(4) == 16;
    assert Pow2(8) == 256;
    assert Pow2(12) == 4096;
  }

  lemma {:induction false} DistanceSteps(d: nat)
    requires 4 <= d <= 28 && d % 2 == 0
    ensures DistanceBase(d) == 2 * Pow2(DistanceExtra(d)) + 1
  {
    if d > 4 {
      DistanceSteps(d - 2);
      var e := DistanceExtra(d - 2);
      assert DistanceExtra(d - 1) == e && DistanceExtra(d) == e + 1;
      assert DistanceBase(d - 1) == DistanceBase(d - 2) + Pow2(e);
      assert DistanceBase(d) == DistanceBase(d - 1) + Pow2(e);
    } else {
      assert DistanceBase(3) == 4;
      assert DistanceBase(4) == 5;
      assert Pow2(1) == 2;
    }
  }

  /** The distance codes cover exactly the window. */
  lemma DistancesEndAtWindow()
    ensures DistanceBase(DISTANCE_CODES) == MAX_WINDOW + 1
  {
    SmallPowers();
    DistanceSteps(28);
    var e, f := DistanceExtra(28), DistanceExtra(29);
    assert DistanceBase(29) == DistanceBase(28) + Pow2(e);
    assert DistanceBase(30) == DistanceBase(29) + Pow2(f);
  }

  /** No match reaches further back than the window. */
  lemma DistanceInWindow(d: nat, extra: nat)
    requires d < DISTANCE_CODES && extra < Pow2(DistanceExtra(d))
    ensures 1 <= DistanceBase(d) + extra <= MAX_WINDOW
  {
    DistanceBaseGrows(0, d);
    DistanceBaseGrows(d + 1, DISTANCE_CODES);
    DistancesEndAtWindow();
  }

  lemma {:induction false} LengthSteps(i: nat)
    requires 8 <= i <= 24 && i % 4 == 0
    ensures LengthBase(i) == 4 * Pow2(LengthExtra(i)) + 3
  {
    SmallPowers();
    if i > 8 {
      LengthSteps(i - 4);
      assert LengthExtra(i - 1) == LengthExtra(i - 2) == LengthExtra(i - 3) == LengthExtra(i - 4);
      assert LengthBase(i - 2) == LengthBase(i - 3) + Pow2(LengthExtra(i - 3));
      assert LengthBase(i) == LengthBase(i - 1) + Pow2(LengthExtra(i - 1));
      assert LengthExtra(i) == LengthExtra(i - 4) + 1;
    } else {
      assert LengthBase(4) == 7;
      assert LengthBase(8) == 11;
    }
  }

  lemma LengthInRange(i: nat, extra: nat)
    requires i < LENGTH_CODES && extra < Pow2(LengthExtra(i))
    ensures 3 <= LengthBase(i) + extra <= 258
  {
    if i < 28 {
      LengthBaseGrows(0, i);
      LengthSteps(24);
      SmallPowers();
      assert LengthBase(25) == 163 && LengthBase(27) == 227;
      if i < 27 {
        LengthBaseGrows(i + 1, 27);
      }
    }
  }

  // ---- the symbols of a compressed block (section 3.2.3) ----

  datatype Step =
    | Bad
    | Literal(next: nat, b: byte)
    | EndOfBlock(next: nat)
    | Match(next: nat, distance: nat, length: nat)

  ghost function NextStep(lit: Lengths, dist: Lengths, B: seq<bool>, p: nat): (r: Step)
    ensures !r.Bad? ==> p < r.next <= |B|
    ensures r.Match? ==> 1 <= r.distance <= MAX_WINDOW && 3 <= r.length <= 258
  {
    match Decode(lit, B, p)
    case None => Bad
    case Some(s) =>
      if s < 256 then Literal(p + lit[s], s)
      else if s == 256 then EndOfBlock(p + lit[s])
      else MatchStep(dist, B, p + lit[s], s - 257)
  }

  /** The rest of a match whose length code has index i. */
  ghost function MatchStep(dist: Lengths, B: seq<bool>, p: nat, i: nat): (r: Step)
    ensures r.Bad? || r.Match?
    ensures r.Match? ==> p <= r.next <= |B| && 1 <= r.distance <= MAX_WINDOW && 3 <= r.length <= 258
  {
    if i >= LENGTH_CODES || p + LengthExtra(i) > |B| then Bad
    else
      var extra := Field(B, p, LengthExtra(i));
      LengthInRange(i, extra);
      DistanceStep(dist, B, p + LengthExtra(i), LengthBase(i) + extra)
  }

  /** The rest of a match of the given length: its distance. */
  ghost function DistanceStep(dist: Lengths, B: seq<bool>, p: nat, length: nat): (r: Step)
    ensures r.Bad? || r.Match?
    ensures r.Match? ==> p <= r.next <= |B| && 1 <= r.distance <= MAX_WINDOW && r.length == length
  {
    match Decode(dist, B, p)
    case None => Bad
    case Some(d) =>
      var q := p + dist[d];
      if d >= DISTANCE_CODES || q + DistanceExtra(d) > |B| then Bad
      else
        var extra := Field(B, q, DistanceExtra(d));
        DistanceInWindow(d, extra);
        Match(q + DistanceExtra(d), DistanceBase(d) + extra, length)
  }

  /** Appends a match of n bytes at distance d, one byte at a time: a match may overlap itself. */
  function CopyBytes(out: seq<byte>, d: nat, n: nat): (r: seq<byte>)
    requires 1 <= d <= |out|
    ensures |r| == |out| + n && r[..|out|] == out
    decreases n
  {
    if n == 0 then out else CopyBytes(out + [out[|out| - d]], d, n - 1)
  }

  ghost function Symbols(lit: Lengths, dist: Lengths, B: seq<bool>, p: nat, out: seq<byte>): (r: Outcome)
    ensures r.Done? ==> p < r.pos <= |B| && out <= r.out
    decreases |B| - p
  {
    match NextStep(lit, dist, B, p)
    case Bad => Fail
    case EndOfBlock(q) => Done(q, out)
    case Literal(q, b) => Symbols(lit, dist, B, q, out + [b])
    case Match(q, d, n) =>
      if d > |out| then Fail else Symbols(lit, dist, B, q, CopyBytes(out, d, n))
  }

  // ---- stored blocks (section 3.2.4) ----

  function AlignUp(p: nat): (q: nat)
    ensures p <= q < p + 8 && q % 8 == 0
  {
    (p + 7) / 8 * 8
  }

  function ByteAt(B: seq<bool>, p: nat): byte
    requires p + 8 <= |B|
  {
    assert Pow2(8) == 256;
    Field(B, p, 8)
  }

  function Bytes(B: seq<bool>, p: nat, n: nat): (r: seq<byte>)
    requires p + 8 * n <= |B|
    ensures |r| == n
  {
    if n == 0 then [] else Bytes(B, p, n - 1) + [ByteAt(B, p + 8 * (n - 1))]
  }

  function Stored(B: seq<bool>, p: nat, out: seq<byte>): (r: Outcome)
    ensures r.Done? ==> p < r.pos <= |B| && out <= r.out
  {
    var q := AlignUp(p);
    if q + 32 > |B| then Fail
    else
      var len, nlen := Field(B, q, 16), Field(B, q + 16, 16);
      if len + nlen != 65535 || q + 32 + 8 * len > |B| then Fail
      else Done(q + 32 + 8 * len, out + Bytes(B, q + 32, len))
  }

  // ---- fixed and dynamic codes (sections 3.2.6 and 3.2.7) ----

  const FIXED_LITERALS := 288
  const FIXED_DISTANCES := 30

  function FixedLiteralLengths(): (r: Lengths)
    ensures |r| == FIXED_LITERALS
  {
    seq(FIXED_LITERALS, i => if i < 144 then 8 else if i < 256 then 9 else if i < 280 then 7 else 8)
  }

  function FixedDistanceLengths(): (r: Lengths)
    ensures |r| == FIXED_DISTANCES
  {
    seq(FIXED_DISTANCES, i => 5)
  }

  const CODE_LENGTH_CODES := 19

  /** The order in which a header lists the lengths of the code length code: 16, 17, 18, 0, 8, 7, 9,
      6, 10, 5, ... , 1, 15. */
  function CodeLengthOrder(i: nat): (r: nat)
    requires i < CODE_LENGTH_CODES
    ensures r < CODE_LENGTH_CODES
  {
    if i < 3 then 16 + i else if i == 3 then 0 else if i % 2 == 0 then 6 + i / 2 else 9 - i / 2
  }

  /** The first n lengths of the code length code, three bits each. */
  function CodeLengthLengths(B: seq<bool>, p: nat, n: nat): (r: Lengths)
    requires n <= CODE_LENGTH_CODES && p + 3 * n <= |B|
    ensures |r| == CODE_LENGTH_CODES
  {
    if n == 0 then seq(CODE_LENGTH_CODES, i => 0)
    else CodeLengthLengths(B, p, n - 1)[CodeLengthOrder(n - 1) := Field(B, p + 3 * (n - 1), 3)]
  }

  function RepeatExtra(s: nat): nat {
    if s == 16 then 2 else if s == 17 then 3 else 7
  }

  function RepeatBase(s: nat): nat {
    if s == 18 then 11 else 3
  }

  function Repeated(v: nat, n: nat): (r: Lengths)
    ensures |r| == n
  {
    if n == 0 then [] else Repeated(v, n - 1) + [v]
  }

  datatype LengthList = NoLengths | LengthList(lens: Lengths, next: nat)

  /** The code lengths of a dynamic block, run-length coded with the code cl. */
  ghost function CodeLengths(cl: Lengths, total: nat, B: seq<bool>, p: nat, acc: Lengths, look: nat): (r: LengthList)
    ensures r.LengthList? ==> p <= r.next && |r.lens| == total
    ensures r.LengthList? && p <= |B| ==> r.next <= |B|
    decreases |B| - p
  {
    if |acc| == total then LengthList(acc, p)
    else if |acc| > total || p + look > |B| then NoLengths
    else
      match Decode(cl, B, p)
      case None => NoLengths
      case Some(s) =>
        var q := p + cl[s];
        if s < 16 then CodeLengths(cl, total, B, q, acc + [s], look)
        else if (s == 16 && acc == []) || q + RepeatExtra(s) > |B| then NoLengths
        else
          var n := RepeatBase(s) + Field(B, q, RepeatExtra(s));
          var v := if s == 16 then acc[|acc| - 1] else 0;
          CodeLengths(cl, total, B, q + RepeatExtra(s), acc + Repeated(v, n), look)
  }

  datatype Header = BadHeader | Header(lit: Lengths, dist: Lengths, next: nat)

  ghost function DynamicHeader(B: seq<bool>, p: nat, look: nat): (r: Header)
    ensures r.Header? ==> p <= r.next <= |B| && ValidLengths(r.lit) && ValidLengths(r.dist)
  {
    if p + 14 > |B| then BadHeader
    else
      var nlit := 257 + Field(B, p, 5);
      var ndist := 1 + Field(B, p + 5, 5);
      var ncode := 4 + Field(B, p + 10, 4);
      DynamicLengths(B, p + 14, nlit, ndist, ncode, look)
  }

  ghost function DynamicLengths(B: seq<bool>, p: nat, nlit: nat, ndist: nat, ncode: nat, look: nat): (r: Header)
    ensures r.Header? ==> p <= r.next <= |B| && ValidLengths(r.lit) && ValidLengths(r.dist)
    ensures r.Header? ==> |r.lit| == nlit && |r.dist| == ndist
  {
    if ncode > CODE_LENGTH_CODES || p + 3 * ncode > |B| then BadHeader
    else
      var cl := CodeLengthLengths(B, p, ncode);
      if !ValidLengths(cl) then BadHeader
      else
        match CodeLengths(cl, nlit + ndist, B, p + 3 * ncode, [], look)
        case NoLengths => BadHeader
        case LengthList(lens, q) =>
          if ValidLengths(lens[..nlit]) && ValidLengths(lens[nlit..]) then Header(lens[..nlit], lens[nlit..], q)
          else BadHeader
  }

  // ---- blocks (section 3.2.3) ----

  /** One block, from its type onwards. */
  ghost function BlockBody(kind: nat, B: seq<bool>, p: nat, out: seq<byte>, look: nat): (r: Outcome)
    ensures r.Done? ==> p < r.pos <= |B| && out <= r.out
  {
    if kind == 0 then Stored(B, p, out)
    else if kind == 1 then Symbols(FixedLiteralLengths(), FixedDistanceLengths(), B, p, out)
    else if kind == 2 then
      match DynamicHeader(B, p, look)
      case BadHeader => Fail
      case Header(lit, dist, q) => Symbols(lit, dist, B, q, out)
    else Fail
  }

  /** All blocks from p to the final one. */
  ghost function Blocks(B: seq<bool>, p: nat, out: seq<byte>, look: nat): (r: Outcome)
    ensures r.Done? ==> p < r.pos <= |B| && out <= r.out
    decreases |B| - p
  {
    if p + 3 > |B| then Fail
    else
      match BlockBody(Field(B, p + 1, 2), B, p + 3, out, look)
      case Fail => Fail
      case Done(q, more) => if B[p] then Done(q, more) else Blocks(B, q, more, look)
  }

  /** RFC 1951: what a byte string inflates to. */
  ghost function Rfc1951(data: seq<byte>): Outcome {
    Blocks(StreamBits(data), 0, [], 0)
  }
}
