/** Canonical Huffman codes as RFC 1951, section 3.2.2, assigns them to code lengths.

    A code is given by its vector of lengths, one per symbol, zero for an unused symbol.  A codeword
    is read most significant bit first.  `Decode` is the reference decoder: the symbol whose codeword
    comes next, if there is one. */
module Huffman {
  import opened Bits

  const MAX_LENGTH := 15

  type Lengths = seq<nat>

  /** How many symbols have codewords of l bits. */
  function Count(lens: Lengths, l: nat): (n: nat)
    ensures n <= |lens|
  {
    if lens == [] then 0
    else Count(lens[..|lens| - 1], l) + (if lens[|lens| - 1] == l then 1 else 0)
  }

  /** The position of symbol s among the symbols of its length. */
  function Rank(lens: Lengths, s: nat): nat
    requires s < |lens|
  {
    Count(lens[..s], lens[s])
  }

  /** The first codeword of l bits. */
  function NextCode(lens: Lengths, l: nat): nat {
    if l <= 1 then 0 else 2 * (NextCode(lens, l - 1) + Count(lens, l - 1))
  }

  /** The codeword of symbol s, as a number of lens[s] bits. */
  function Code(lens: Lengths, s: nat): nat
    requires s < |lens|
  {
    NextCode(lens, lens[s]) + Rank(lens, s)
  }

  /** Codeword space taken by the symbols, in units of 2^-15: the sum of Kraft's inequality. */
  function Kraft(lens: Lengths): nat {
    if lens == [] then 0
    else
      var l := lens[|lens| - 1];
      Kraft(lens[..|lens| - 1]) + (if 1 <= l <= MAX_LENGTH then Pow2(MAX_LENGTH - l) else 0)
  }

  /** The lengths a decoder can work with: none above 15 and not oversubscribed.  Incomplete codes
      are allowed, as RFC 1951 section 3.2.7 has one-codeword distance codes. */
  ghost predicate ValidLengths(lens: Lengths) {
    && (forall s :: 0 <= s < |lens| ==> lens[s] <= MAX_LENGTH)
    && Kraft(lens) <= Pow2(MAX_LENGTH)
  }

  /** The number in bits p to p + l of B, most significant bit first. */
  function Msb(B: seq<bool>, p: nat, l: nat): (v: nat)
    requires p + l <= |B|
    ensures v < Pow2(l)
  {
    if l == 0 then 0 else 2 * Msb(B, p, l - 1) + (if B[p + l - 1] then 1 else 0)
  }

  /** The codeword of s comes at position p of B. */
  ghost predicate Spells(lens: Lengths, B: seq<bool>, p: nat, s: nat) {
    && s < |lens|
    && 0 < lens[s]
    && p + lens[s] <= |B|
    && Msb(B, p, lens[s]) == Code(lens, s)
  }

  /** The reference decoder. */
  ghost function Decode(lens: Lengths, B: seq<bool>, p: nat): (r: Option<nat>)
    ensures r.Some? ==> Spells(lens, B, p, r.value)
  {
    if s: nat :| Spells(lens, B, p, s) then Some(s) else None
  }

  // ---- counting ----

  lemma {:induction false} CountPrefix(lens: Lengths, l: nat, a: nat, b: nat)
    requires a <= b <= |lens|
    ensures Count(lens[..a], l) <= Count(lens[..b], l)
  {
    if a < b {
      CountPrefix(lens, l, a, b - 1);
      assert lens[..b][..b - 1] == lens[..b - 1];
    }
  }

  lemma CountStep(lens: Lengths, l: nat, k: nat)
    requires k < |lens|
    ensures Count(lens[..k + 1], l) == Count(lens[..k], l) + (if lens[k] == l then 1 else 0)
  {
    assert lens[..k + 1][..k] == lens[..k];
  }

  lemma RankBound(lens: Lengths, s: nat)
    requires s < |lens|
    ensures Rank(lens, s) < Count(lens, lens[s])
  {
    CountStep(lens, lens[s], s);
    CountPrefix(lens, lens[s], s + 1, |lens|);
    assert lens[..|lens|] == lens;
  }

  lemma RankInjective(lens: Lengths, s: nat, t: nat)
    requires s < |lens| && t < |lens| && lens[s] == lens[t]
    requires Rank(lens, s) == Rank(lens, t)
    ensures s == t
  {
    if s < t {
      CountStep(lens, lens[s], s);
      CountPrefix(lens, lens[s], s + 1, t);
    } else if t < s {
      CountStep(lens, lens[s], t);
      CountPrefix(lens, lens[s], t + 1, s);
    }
  }

  /** The i-th symbol with codewords of l bits. */
  function SymbolAt(lens: Lengths, l: nat, i: nat): (s: nat)
    requires i < Count(lens, l)
    ensures s < |lens| && lens[s] == l && Rank(lens, s) == i
  {
    var n := |lens| - 1;
    if lens[n] == l && Count(lens[..n], l) == i then n
    else
      var s := SymbolAt(lens[..n], l, i);
      assert lens[..n][..s] == lens[..s];
      s
  }

  // ---- prefix freedom ----

  /** Codewords of length k > l all lie above the last codeword of length l, padded to k bits. */
  lemma {:induction false} NextCodeGrows(lens: Lengths, l: nat, k: nat)
    requires 1 <= l < k
    ensures NextCode(lens, k) >= Scale(NextCode(lens, l) + Count(lens, l), k - l)
  {
    var c := NextCode(lens, l) + Count(lens, l);
    if k == l + 1 {
      assert Scale(c, 1) == 2 * Scale(c, 0);
    } else {
      NextCodeGrows(lens, l, k - 1);
    }
  }

  lemma {:induction false} MsbBelow(B: seq<bool>, p: nat, l: nat, k: nat, c: nat)
    requires l <= k && p + k <= |B| && Msb(B, p, l) < c
    ensures Msb(B, p, k) < Scale(c, k - l)
  {
    if l < k {
      MsbBelow(B, p, l, k - 1, c);
    }
  }

  /** At most one symbol can come next: no codeword is a prefix of another one. */
  lemma SpellsUnique(lens: Lengths, B: seq<bool>, p: nat, s: nat, t: nat)
    requires Spells(lens, B, p, s) && Spells(lens, B, p, t)
    ensures s == t
  {
    if lens[s] == lens[t] {
      RankInjective(lens, s, t);
    } else if lens[s] < lens[t] {
      SpellsNotLonger(lens, B, p, s, t);
    } else {
      SpellsNotLonger(lens, B, p, t, s);
    }
  }

  lemma SpellsNotLonger(lens: Lengths, B: seq<bool>, p: nat, s: nat, t: nat)
    requires Spells(lens, B, p, s) && t < |lens| && 0 < lens[s] < lens[t]
    ensures !Spells(lens, B, p, t)
  {
    if Spells(lens, B, p, t) {
      RankBound(lens, s);
      AboveNotLonger(lens, B, p, lens[s], t);
      assert false;
    }
  }

  lemma MsbBelowNextCode(lens: Lengths, B: seq<bool>, p: nat, l: nat, k: nat)
    requires 1 <= l < k && p + k <= |B|
    requires Msb(B, p, l) < NextCode(lens, l) + Count(lens, l)
    ensures Msb(B, p, k) < NextCode(lens, k)
  {
    NextCodeGrows(lens, l, k);
    MsbBelow(B, p, l, k, NextCode(lens, l) + Count(lens, l));
  }

  /** If the next l bits read below the end of the codewords of length l, nothing longer comes next. */
  lemma AboveNotLonger(lens: Lengths, B: seq<bool>, p: nat, l: nat, t: nat)
    requires 1 <= l && p + l <= |B| && t < |lens| && l < lens[t]
    requires Msb(B, p, l) < NextCode(lens, l) + Count(lens, l)
    ensures !Spells(lens, B, p, t)
  {
    if p + lens[t] <= |B| {
      MsbBelowNextCode(lens, B, p, l, lens[t]);
    }
  }

  lemma DecodeIs(lens: Lengths, B: seq<bool>, p: nat, s: nat)
    requires Spells(lens, B, p, s)
    ensures Decode(lens, B, p) == Some(s)
  {
    SpellsUnique(lens, B, p, s, Decode(lens, B, p).value);
  }

  /** The decoder looks only at the bits of the codeword it finds. */
  lemma DecodeSame(lens: Lengths, B: seq<bool>, p: nat, C: seq<bool>, q: nat, i: nat)
    requires SameBits(B, p, C, q) && p + i <= |B|
    ensures Decode(lens, B, p + i) == Decode(lens, C, q + i)
  {
    var b, c := Decode(lens, B, p + i), Decode(lens, C, q + i);
    if b.Some? {
      MsbSame(B, p, C, q, i, lens[b.value]);
      DecodeIs(lens, C, q + i, b.value);
    } else if c.Some? {
      MsbSame(B, p, C, q, i, lens[c.value]);
      DecodeIs(lens, B, p + i, c.value);
    }
  }

  lemma {:induction false} MsbSame(B: seq<bool>, p: nat, C: seq<bool>, q: nat, i: nat, l: nat)
    requires SameBits(B, p, C, q) && p + i + l <= |B|
    ensures Msb(B, p + i, l) == Msb(C, q + i, l)
  {
    if l > 0 {
      MsbSame(B, p, C, q, i, l - 1);
    }
  }

  // ---- Kraft's inequality and the counter the table builder keeps ----

  /** Codeword space left at length l: what the builder's counter holds after length l. */
  function Left(lens: Lengths, l: nat): int {
    if l == 0 then 1 else 2 * Left(lens, l - 1) - Count(lens, l)
  }

  lemma {:induction false} LeftIsRoom(lens: Lengths, l: nat)
    requires l >= 1
    ensures Left(lens, l) == Pow2(l) - NextCode(lens, l) - Count(lens, l)
  {
    if l == 1 {
      assert Left(lens, 0) == 1;
    } else {
      LeftIsRoom(lens, l - 1);
    }
  }

  lemma {:induction false} LeftStaysNegative(lens: Lengths, l: nat, k: nat)
    requires l <= k && Left(lens, l) < 0
    ensures Left(lens, k) < 0
  {
    if l < k {
      LeftStaysNegative(lens, l, k - 1);
    }
  }

  lemma {:induction false} LeftAppend(lens: Lengths, x: nat, l: nat)
    ensures Left(lens + [x], l) == Left(lens, l) - (if 1 <= x <= l then Pow2(l - x) else 0)
  {
    if l > 0 {
      LeftAppend(lens, x, l - 1);
      assert (lens + [x])[..|lens|] == lens;
    }
  }

  lemma {:induction false} LeftEmpty(l: nat)
    ensures Left([], l) == Pow2(l)
  {
    if l > 0 {
      LeftEmpty(l - 1);
    }
  }

  /** The builder's counter ends at what Kraft's sum leaves. */
  lemma {:induction false} LeftIsKraft(lens: Lengths)
    ensures Left(lens, MAX_LENGTH) == Pow2(MAX_LENGTH) - Kraft(lens)
  {
    if lens == [] {
      LeftEmpty(MAX_LENGTH);
    } else {
      var n := |lens| - 1;
      LeftIsKraft(lens[..n]);
      LeftAppend(lens[..n], lens[n], MAX_LENGTH);
      assert lens[..n] + [lens[n]] == lens;
    }
  }

  /** Kraft's inequality holds exactly when the codewords of every length fit in that many bits. */
  lemma KraftMeansFits(lens: Lengths)
    ensures Kraft(lens) <= Pow2(MAX_LENGTH)
       <==> forall l :: 1 <= l <= MAX_LENGTH ==> NextCode(lens, l) + Count(lens, l) <= Pow2(l)
  {
    LeftIsKraft(lens);
    LeftIsRoom(lens, MAX_LENGTH);
    forall l | 1 <= l <= MAX_LENGTH && Left(lens, MAX_LENGTH) >= 0
      ensures NextCode(lens, l) + Count(lens, l) <= Pow2(l)
    {
      LeftIsRoom(lens, l);
      if Left(lens, l) < 0 {
        LeftStaysNegative(lens, l, MAX_LENGTH);
      }
    }
  }

  lemma CodeFits(lens: Lengths, s: nat)
    requires ValidLengths(lens) && s < |lens| && lens[s] > 0
    ensures Code(lens, s) < Pow2(lens[s])
  {
    KraftMeansFits(lens);
    RankBound(lens, s);
  }

  // ---- codewords as bit strings ----

  /** The n low bits of v in the opposite order. */
  function Rev(v: nat, n: nat): (r: nat)
    ensures r < Pow2(n)
  {
    if n == 0 then 0 else (if v % 2 == 1 then Pow2(n - 1) else 0) + Rev(v / 2, n - 1)
  }

  lemma {:induction false} RevInjective(v: nat, w: nat, n: nat)
    requires v < Pow2(n) && w < Pow2(n) && Rev(v, n) == Rev(w, n)
    ensures v == w
  {
    if n > 0 {
      RevInjective(v / 2, w / 2, n - 1);
    }
  }

  /** Read least significant bit first, the bits of a codeword are the reversed codeword. */
  lemma {:induction false} RevOfMsb(B: seq<bool>, p: nat, l: nat)
    requires p + l <= |B|
    ensures Field(B, p, l) == Rev(Msb(B, p, l), l)
  {
    if l > 0 {
      RevOfMsb(B, p, l - 1);
      FieldConcat(B, p, l - 1, 1);
      var b := if B[p + l - 1] then 1 else 0;
      assert Field(B, p + l - 1, 1) == b;
      var v := Msb(B, p, l - 1);
      assert (2 * v + b) % 2 == b && (2 * v + b) / 2 == v;
      ScalePow2(0, l - 1);
      ScaleZero(l - 1);
    }
  }

  /** The bits of a codeword in the order a decoder meets them. */
  function CodewordBits(lens: Lengths, s: nat): seq<bool>
    requires s < |lens|
  {
    NatBits(Rev(Code(lens, s), lens[s]), lens[s])
  }

  /** Every symbol of a valid code is decoded from its codeword, whatever bits follow it. */
  lemma CodewordDecodes(lens: Lengths, s: nat, tail: seq<bool>)
    requires ValidLengths(lens) && s < |lens| && lens[s] > 0
    ensures Decode(lens, CodewordBits(lens, s) + tail, 0) == Some(s)
  {
    var l, c := lens[s], Code(lens, s);
    var B := CodewordBits(lens, s) + tail;
    CodeFits(lens, s);
    RevOfMsb(B, 0, l);
    FieldOfNatBits(Rev(c, l), l, B, 0);
    LowSmall(Rev(c, l), l);
    RevInjective(Msb(B, 0, l), c, l);
    DecodeIs(lens, B, 0, s);
  }

  // ---- the canonical walk ----

  /** Nothing of at most l bits comes next at p, because each prefix lies past its length's codewords. */
  ghost predicate PassedBy(lens: Lengths, B: seq<bool>, p: nat, l: nat)
    requires p + l <= |B|
  {
    l > 0 ==> PassedBy(lens, B, p, l - 1) && Msb(B, p, l) >= NextCode(lens, l) + Count(lens, l)
  }

  lemma {:induction false} PassedByNone(lens: Lengths, B: seq<bool>, p: nat, l: nat, s: nat)
    requires p + l <= |B| && PassedBy(lens, B, p, l) && s < |lens| && lens[s] <= l
    ensures !Spells(lens, B, p, s)
  {
    RankBound(lens, s);
    if lens[s] < l {
      PassedByNone(lens, B, p, l - 1, s);
    }
  }

  /** Where the walk stops at length l, it names the symbol that comes next. */
  lemma WalkFinds(lens: Lengths, B: seq<bool>, p: nat, l: nat, i: nat)
    requires 1 <= l && p + l <= |B| && i < Count(lens, l) && Msb(B, p, l) == NextCode(lens, l) + i
    ensures Decode(lens, B, p) == Some(SymbolAt(lens, l, i))
  {
    DecodeIs(lens, B, p, SymbolAt(lens, l, i));
  }

  /** Where the walk has passed all lengths, or the bits have run out, nothing comes next. */
  lemma WalkFails(lens: Lengths, B: seq<bool>, p: nat, l: nat)
    requires p + l <= |B| && PassedBy(lens, B, p, l)
    requires p + l == |B| || forall s :: 0 <= s < |lens| ==> lens[s] <= l
    ensures Decode(lens, B, p) == None
  {
    var r := Decode(lens, B, p);
    if r.Some? {
      PassedByNone(lens, B, p, l, r.value);
    }
  }

  // ---- the direct-lookup table ----

  const FAST_BITS := 10

  /** Table slot x belongs to the short codeword of s: its low bits are the reversed codeword. */
  ghost predicate Slot(lens: Lengths, x: nat, s: nat) {
    && s < |lens|
    && 1 <= lens[s] <= FAST_BITS
    && Low(x, lens[s]) == Rev(Code(lens, s), lens[s])
  }

  /** A slot belongs to s exactly when s comes next wherever the next ten bits read x. */
  lemma SlotMeansSpells(lens: Lengths, B: seq<bool>, p: nat, s: nat)
    requires ValidLengths(lens) && p + FAST_BITS <= |B|
    ensures Slot(lens, Field(B, p, FAST_BITS), s)
       <==> Spells(lens, B, p, s) && lens[s] <= FAST_BITS
  {
    if s < |lens| && 1 <= lens[s] <= FAST_BITS {
      var l := lens[s];
      FieldSplit(B, p, l, FAST_BITS);
      RevOfMsb(B, p, l);
      CodeFits(lens, s);
      if Msb(B, p, l) != Code(lens, s) && Rev(Msb(B, p, l), l) == Rev(Code(lens, s), l) {
        RevInjective(Msb(B, p, l), Code(lens, s), l);
      }
    }
  }

  lemma SlotUnique(lens: Lengths, x: nat, s: nat, t: nat)
    requires ValidLengths(lens) && x < Pow2(FAST_BITS) && Slot(lens, x, s) && Slot(lens, x, t)
    ensures s == t
  {
    var B := NatBits(x, FAST_BITS);
    FieldOfNatBits(x, FAST_BITS, B, 0);
    LowSmall(x, FAST_BITS);
    SlotMeansSpells(lens, B, 0, s);
    SlotMeansSpells(lens, B, 0, t);
    SpellsUnique(lens, B, 0, s, t);
  }
}
