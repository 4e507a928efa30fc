/** A stream of twelve bytes that RFC 1951 decodes, to nothing, and the scanner refuses: its code lengths end
    too close to the end of the input. */
module ShortStream {
  import opened Bits
  import opened Huffman
  import opened Inflate
  import opened Lookahead

  const STREAM: seq<byte> := [5, 192, 129, 0, 0, 0, 0, 0, 144, 255, 107, 0]

  /** The bits of the stream that are set. */
  predicate IsSet(t: nat) {
    t == 0 || t == 2 || 14 <= t <= 16 || t == 23 || t == 68 || 71 <= t <= 79
    || t == 80 || t == 81 || t == 83 || t == 85 || t == 86
  }

  ghost predicate IsStream(B: seq<bool>) {
    |B| == 96 && forall t :: 0 <= t < 96 ==> B[t] == IsSet(t)
  }

  /** Bit j of v. */
  function BitOf(v: nat, j: nat): bool
    decreases j
  {
    if j == 0 then v % 2 == 1 else BitOf(v / 2, j - 1)
  }

  lemma {:induction false} NatBitIs(v: nat, n: nat, j: nat)
    requires j < n
    ensures NatBits(v, n)[j] == BitOf(v, j)
    decreases n
  {
    if j > 0 {
      NatBitIs(v / 2, n - 1, j - 1);
    }
  }

  lemma ByteSet(i: nat, j: nat)
    requires i < 12 && j < 8
    ensures BitOf(STREAM[i], j) == IsSet(8 * i + j)
  {
    if j == 0 {} else if j == 1 {} else if j == 2 {} else if j == 3 {}
    else if j == 4 {} else if j == 5 {} else if j == 6 {} else { assert j == 7; }
  }

  lemma StreamByteBits(i: nat, j: nat)
    requires i < 12 && j < 8
    ensures StreamBits(STREAM)[8 * i + j] == IsSet(8 * i + j)
  {
    hide StreamBits, NatBits, IsSet, BitOf;
    StreamBit(STREAM, i, j);
    NatBitIs(STREAM[i], 8, j);
    ByteSet(i, j);
  }

  lemma StreamIs()
    ensures IsStream(StreamBits(STREAM))
  {
    hide StreamBits, IsSet;
    forall t: nat | t < 96
      ensures StreamBits(STREAM)[t] == IsSet(t)
    {
      var i, j := ByteAndBit(t);
      StreamByteBits(i, j);
    }
  }

  // ---- fields of the stream ----

  lemma {:induction false} NoBits(B: seq<bool>, p: nat, n: nat)
    requires IsStream(B) && p + n <= 96 && forall t :: p <= t < p + n ==> !IsSet(t)
    ensures Field(B, p, n) == 0
    decreases n
  {
    if n > 0 {
      assert B[p] == IsSet(p);
      NoBits(B, p + 1, n - 1);
    }
  }

  lemma FieldStep(B: seq<bool>, p: nat, n: nat)
    requires IsStream(B) && 0 < n && p + n <= 96
    ensures Field(B, p, n) == (if IsSet(p) then 1 else 0) + 2 * Field(B, p + 1, n - 1)
  {}

  /** The header: last block, dynamic, 257 and 1 lengths, 18 lengths of the code length code. */
  lemma Fields(B: seq<bool>)
    requires IsStream(B)
    ensures Field(B, 1, 2) == 2 && Field(B, 3, 5) == 0 && Field(B, 8, 5) == 0 && Field(B, 13, 4) == 14
    ensures Field(B, 72, 7) == 127 && Field(B, 80, 7) == 107
  {
    NoBits(B, 3, 5);
    NoBits(B, 8, 5);
    hide Field;
    NoBits(B, 3, 0);
    NoBits(B, 17, 0);
    NoBits(B, 79, 0);
    NoBits(B, 87, 0);
    FieldStep(B, 1, 2);
    FieldStep(B, 2, 1);
    FieldStep(B, 13, 4);
    FieldStep(B, 14, 3);
    FieldStep(B, 15, 2);
    FieldStep(B, 16, 1);
    FieldStep(B, 72, 7);
    FieldStep(B, 73, 6);
    FieldStep(B, 74, 5);
    FieldStep(B, 75, 4);
    FieldStep(B, 76, 3);
    FieldStep(B, 77, 2);
    FieldStep(B, 78, 1);
    FieldStep(B, 80, 7);
    FieldStep(B, 81, 6);
    FieldStep(B, 82, 5);
    FieldStep(B, 83, 4);
    FieldStep(B, 84, 3);
    FieldStep(B, 85, 2);
    FieldStep(B, 86, 1);
  }

  // ---- the code length code: symbols 1 and 18, one bit each ----

  function Listed(n: nat): (r: Lengths)
    ensures |r| == CODE_LENGTH_CODES
  {
    seq(CODE_LENGTH_CODES, s => if (s == 18 && n > 2) || (s == 1 && n > 17) then 1 else 0)
  }

  lemma LengthField(B: seq<bool>, i: nat)
    requires IsStream(B) && i < 18
    ensures Field(B, 17 + 3 * i, 3) == if i == 2 || i == 17 then 1 else 0
  {
    var p := 17 + 3 * i;
    hide Field;
    NoBits(B, p + 3, 0);
    FieldStep(B, p, 3);
    FieldStep(B, p + 1, 2);
    FieldStep(B, p + 2, 1);
  }

  lemma {:induction false} CodeLengthCode(B: seq<bool>, n: nat)
    requires IsStream(B) && n <= 18
    ensures CodeLengthLengths(B, 17, n) == Listed(n)
  {
    if n > 0 {
      CodeLengthCode(B, n - 1);
      LengthField(B, n - 1);
    }
  }

  // ---- codes of few symbols ----

  ghost predicate ZeroFrom(lens: Lengths, k: nat) {
    forall s :: k <= s < |lens| ==> lens[s] == 0
  }

  lemma {:induction false} ZeroTail(lens: Lengths, k: nat)
    requires k <= |lens| && ZeroFrom(lens, k)
    ensures Kraft(lens) == Kraft(lens[..k]) && Count(lens, 1) == Count(lens[..k], 1)
    decreases |lens|
  {
    if |lens| > k {
      var front := lens[..|lens| - 1];
      ZeroTail(front, k);
      assert front[..k] == lens[..k];
    } else {
      assert lens[..k] == lens;
    }
  }

  lemma NoSymbols()
    ensures Kraft([]) == 0 && Count([], 1) == 0
  {}

  /** Zeros and then one symbol of one bit: its codeword is 0. */
  lemma OneSymbol(lens: Lengths)
    requires lens != [] && lens[|lens| - 1] == 1 && ZeroFrom(lens[..|lens| - 1], 0)
    ensures ValidLengths(lens) && Kraft(lens) == Pow2(14) && Count(lens, 1) == 1
    ensures Code(lens, |lens| - 1) == 0
  {
    var front := lens[..|lens| - 1];
    ZeroTail(front, 0);
    NoSymbols();
    assert front[..0] == [];
    assert Pow2(15) == 2 * Pow2(14);
    forall s | 0 <= s < |lens|
      ensures lens[s] <= 1
    {
      if s < |lens| - 1 {
        assert lens[s] == front[s];
      }
    }
  }

  lemma CodeLengthCodewords(cl: Lengths)
    requires cl == Listed(18)
    ensures ValidLengths(cl) && cl[1] == cl[18] == 1 && Code(cl, 1) == 0 && Code(cl, 18) == 1
  {
    var front := cl[..18];
    assert cl[..2] == [0, 1] == front[..2] && cl[..1] == [0] == [0, 1][..1];
    ZeroTail(front, 2);
    OneSymbol([0, 1]);
    ZeroTail([0], 0);
    NoSymbols();
    assert [0][..0] == [];
    assert Pow2(15) == 2 * Pow2(14);
  }

  // ---- the header ----

  lemma {:induction false} RepeatedIs(v: nat, n: nat)
    ensures forall i :: 0 <= i < n ==> Repeated(v, n)[i] == v
  {
    if n > 0 {
      RepeatedIs(v, n - 1);
    }
  }

  lemma Symbol(lens: Lengths, B: seq<bool>, p: nat, s: nat)
    requires s < |lens| && lens[s] == 1 && p < |B| && Code(lens, s) == (if B[p] then 1 else 0)
    ensures Decode(lens, B, p) == Some(s)
  {
    assert Msb(B, p, 1) == if B[p] then 1 else 0;
    DecodeIs(lens, B, p, s);
  }

  /** 256 zeros in two runs, then two ones. */
  function Runs(k: nat): Lengths {
    if k == 0 then [] else if k == 1 then Repeated(0, 138)
    else if k == 2 then Repeated(0, 138) + Repeated(0, 118)
    else if k == 3 then Repeated(0, 138) + Repeated(0, 118) + [1]
    else Repeated(0, 138) + Repeated(0, 118) + [1] + [1]
  }

  lemma RunLengths()
    ensures |Runs(0)| == 0 && |Runs(1)| == 138 && |Runs(2)| == 256 && |Runs(3)| == 257 && |Runs(4)| == 258
    ensures [] + Repeated(0, 138) == Runs(1) && Runs(1) + Repeated(0, 118) == Runs(2)
    ensures Runs(2) + [1] == Runs(3) && Runs(3) + [1] == Runs(4)
  {
    hide Repeated;
  }

  /** Where a code length symbol stands in the stream. */
  lemma LengthSymbols(B: seq<bool>, cl: Lengths)
    requires IsStream(B) && cl == Listed(18)
    ensures Decode(cl, B, 71) == Some(18) && Decode(cl, B, 79) == Some(18)
    ensures Decode(cl, B, 87) == Some(1) && Decode(cl, B, 88) == Some(1)
  {
    CodeLengthCodewords(cl);
    hide Code;
    Symbol(cl, B, 71, 18);
    Symbol(cl, B, 79, 18);
    Symbol(cl, B, 87, 1);
    Symbol(cl, B, 88, 1);
  }

  lemma ZeroRun(cl: Lengths, B: seq<bool>, p: nat, acc: Lengths, look: nat)
    requires |acc| < 258 && p + 8 <= |B| && Decode(cl, B, p) == Some(18) && cl[18] == 1
    ensures CodeLengths(cl, 258, B, p, acc, look)
            == if p + look > |B| then NoLengths
               else CodeLengths(cl, 258, B, p + 8, acc + Repeated(0, 11 + Field(B, p + 1, 7)), look)
  {
    hide Field, Repeated;
  }

  lemma OneLength(cl: Lengths, B: seq<bool>, p: nat, acc: Lengths, look: nat)
    requires |acc| < 258 && Decode(cl, B, p) == Some(1) && cl[1] == 1
    ensures CodeLengths(cl, 258, B, p, acc, look)
            == if p + look > |B| then NoLengths else CodeLengths(cl, 258, B, p + 1, acc + [1], look)
  {}

  /** Without a demand the code lengths are read; with it, the third symbol is too near the end. */
  lemma LengthsRead(B: seq<bool>, cl: Lengths)
    requires IsStream(B) && cl == Listed(18)
    ensures CodeLengths(cl, 258, B, 71, [], 0) == LengthList(Runs(4), 89)
    ensures CodeLengths(cl, 258, B, 71, [], LOOKAHEAD) == NoLengths
  {
    assert |B| == 96;
    hide Decode, Field, Repeated, Listed, CodeLengths, IsStream, Runs, ValidLengths, Code;
    LengthSymbols(B, cl);
    CodeLengthCodewords(cl);
    Fields(B);
    RunLengths();
    ZeroRun(cl, B, 71, [], LOOKAHEAD);
    ZeroRun(cl, B, 79, Runs(1), LOOKAHEAD);
    OneLength(cl, B, 87, Runs(2), LOOKAHEAD);
    ZeroRun(cl, B, 71, [], 0);
    ZeroRun(cl, B, 79, Runs(1), 0);
    OneLength(cl, B, 87, Runs(2), 0);
    OneLength(cl, B, 88, Runs(3), 0);
    LengthsEnd(cl, B, Runs(4));
  }

  lemma LengthsEnd(cl: Lengths, B: seq<bool>, acc: Lengths)
    requires |acc| == 258
    ensures CodeLengths(cl, 258, B, 89, acc, 0) == LengthList(acc, 89)
  {}

  /** Both codes of the block have one symbol of one bit. */
  lemma Codes()
    ensures |Runs(4)| == 258
    ensures var lit, dist := Runs(4)[..257], Runs(4)[257..];
            && ValidLengths(lit) && ValidLengths(dist) && lit[256] == 1 && Code(lit, 256) == 0
  {
    RunLengths();
    RepeatedIs(0, 138);
    RepeatedIs(0, 118);
    var lit, dist := Runs(4)[..257], Runs(4)[257..];
    assert lit == Runs(3) && dist == [1];
    hide ValidLengths, Code, Kraft, Count;
    assert lit[..256] == Runs(2);
    OneSymbol(lit);
    OneSymbol(dist);
  }

  lemma HeaderRead(B: seq<bool>)
    requires IsStream(B)
    ensures DynamicHeader(B, 3, 0) == Header(Runs(4)[..257], Runs(4)[257..], 89)
    ensures DynamicHeader(B, 3, LOOKAHEAD) == BadHeader
  {
    assert |B| == 96;
    hide ValidLengths, CodeLengths, CodeLengthLengths, Field, Runs, Listed, IsStream, Code, DynamicLengths;
    Fields(B);
    HeaderParts(B, 0);
    HeaderParts(B, LOOKAHEAD);
    CodeLengthCode(B, 18);
    CodeLengthCodewords(Listed(18));
    LengthsRead(B, Listed(18));
    Codes();
  }

  lemma HeaderParts(B: seq<bool>, look: nat)
    requires |B| == 96 && Field(B, 3, 5) == 0 && Field(B, 8, 5) == 0 && Field(B, 13, 4) == 14
    ensures var cl := CodeLengthLengths(B, 17, 18);
            var r := CodeLengths(cl, 258, B, 71, [], look);
            DynamicHeader(B, 3, look)
            == if !ValidLengths(cl) || r.NoLengths? || !ValidLengths(r.lens[..257]) || !ValidLengths(r.lens[257..])
               then BadHeader
               else Header(r.lens[..257], r.lens[257..], r.next)
  {
    hide ValidLengths, CodeLengths, CodeLengthLengths, Field;
  }

  /** The stream is twelve bytes that RFC 1951 decodes and the scanner refuses. */
  lemma Refused()
    ensures Rfc1951(STREAM) == Done(90, []) && Scanned(STREAM) == Fail
  {
    var B := StreamBits(STREAM);
    StreamIs();
    hide StreamBits;
    HeaderRead(B);
    Fields(B);
    Codes();
    hide DynamicHeader, Field, Runs, ValidLengths, Code;
    assert B[0] && !B[89];
    BlockEnds(Runs(4)[..257], Runs(4)[257..], B);
    hide Symbols;
  }

  lemma BlockEnds(lit: Lengths, dist: Lengths, B: seq<bool>)
    requires |B| == 96 && !B[89] && |lit| == 257 && lit[256] == 1 && Code(lit, 256) == 0
    ensures Symbols(lit, dist, B, 89, []) == Done(90, [])
  {
    Symbol(lit, B, 89, 256);
    hide Decode, Code;
  }

  /** So RFC 1951 streams are all accepted, with their own result, exactly where a byte follows them. */
  lemma FollowedBy(trailer: seq<byte>)
    ensures (forall s: seq<byte> :: Rfc1951(s).Done? ==> Scanned(s + trailer) == Rfc1951(s)) <==> |trailer| >= 1
  {
    hide Rfc1951, Scanned;
    if |trailer| >= 1 {
      forall s: seq<byte> | Rfc1951(s).Done?
        ensures Scanned(s + trailer) == Rfc1951(s)
      {
        MemberIsScanned(s, trailer);
      }
    } else {
      Refused();
      assert STREAM + trailer == STREAM;
    }
  }
}
