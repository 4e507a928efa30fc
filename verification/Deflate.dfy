/** The other direction: deflate streams put together bit by bit, after RFC 1951 section 3.2, from blocks, symbols and
    run lengths, with the numbers of the RFC written out. Inflating is its inverse: a stream inflates to some bytes
    exactly if it is such a stream that stands for them. */
module Deflate {
  import opened Bits
  import opened Huffman
  import opened Inflate
  import opened CodeTables
  import opened Restart
  import Scanners

  /** The bits w come at p. */
  predicate Reads(B: seq<bool>, p: nat, w: seq<bool>) {
    p + |w| <= |B| && B[p..p + |w|] == w
  }

  lemma ReadsBoth(B: seq<bool>, p: nat, u: seq<bool>, v: seq<bool>)
    ensures Reads(B, p, u + v) <==> Reads(B, p, u) && Reads(B, p + |u|, v)
  {
    if p + |u + v| <= |B| {
      var w := B[p..p + |u + v|];
      assert w[..|u|] == B[p..p + |u|] && w[|u|..] == B[p + |u|..p + |u| + |v|] && w == w[..|u|] + w[|u|..];
      assert (u + v)[..|u|] == u && (u + v)[|u|..] == v;
    }
  }

  lemma {:induction false} ReadsNumber(B: seq<bool>, p: nat, v: nat, n: nat)
    requires v < Pow2(n) && p + n <= |B|
    ensures Reads(B, p, NatBits(v, n)) <==> Field(B, p, n) == v
    decreases n
  {
    if n > 0 {
      ReadsNumber(B, p + 1, v / 2, n - 1);
      ReadsBoth(B, p, [v % 2 == 1], NatBits(v / 2, n - 1));
    }
  }

  // ---- codewords ----

  /** Symbol t has a codeword that comes before that of s: a shorter one, or one as long and t is the earlier. */
  predicate Precedes(lens: Lengths, t: nat, s: nat)
    requires t < |lens| && s < |lens|
  {
    0 < lens[t] && (lens[t] < lens[s] || (lens[t] == lens[s] && t < s))
  }

  /** What the codewords before that of s take of the code space, of those of the first n symbols, in units
      of 2^-15. */
  function Before(lens: Lengths, s: nat, n: nat): nat
    requires s < |lens| && n <= |lens|
  {
    if n == 0 then 0
    else Before(lens, s, n - 1) + if Precedes(lens, n - 1, s) && lens[n - 1] <= 15 then Pow2(15 - lens[n - 1]) else 0
  }

  /** The first l of fifteen binary digits. */
  function Leading(v: nat, l: nat): (w: seq<bool>)
    requires l <= 15
    ensures |w| == l
  {
    if l == 0 then [] else Leading(v, l - 1) + [Shr(v, 15 - l) % 2 == 1]
  }

  /** The codeword of s is where in the code space it comes. */
  function Codeword(lens: Lengths, s: nat): (w: seq<bool>)
    requires s < |lens| && lens[s] <= 15
    ensures |w| == lens[s]
  {
    Leading(Before(lens, s, |lens|), lens[s])
  }

  /** Code space of the first n symbols' codewords that are shorter than l. */
  function Shorter(lens: Lengths, l: nat, n: nat): nat
    requires n <= |lens|
  {
    if n == 0 then 0
    else Shorter(lens, l, n - 1) + if 0 < lens[n - 1] < l && lens[n - 1] <= 15 then Pow2(15 - lens[n - 1]) else 0
  }

  lemma {:induction false} ShorterMore(lens: Lengths, l: nat, n: nat)
    requires n <= |lens| && 1 <= l <= 15
    ensures Shorter(lens, l + 1, n) == Shorter(lens, l, n) + Scale(Count(lens[..n], l), 15 - l)
  {
    if n > 0 {
      ShorterMore(lens, l, n - 1);
      CountStep(lens, l, n - 1);
      ScaleAdd(Count(lens[..n - 1], l), 1, 15 - l);
      ScalePow2(0, 15 - l);
      ScaleZero(15 - l);
    } else {
      ScaleZero(15 - l);
    }
  }

  lemma {:induction false} NoneShorter(lens: Lengths, n: nat)
    requires n <= |lens|
    ensures Shorter(lens, 1, n) == 0
  {
    if n > 0 {
      NoneShorter(lens, n - 1);
    }
  }

  lemma {:induction false} NextCodeIsSpace(lens: Lengths, l: nat)
    requires 1 <= l <= 15
    ensures Scale(NextCode(lens, l), 15 - l) == Shorter(lens, l, |lens|)
  {
    if l == 1 {
      NoneShorter(lens, |lens|);
      ScaleZero(14);
    } else {
      NextCodeIsSpace(lens, l - 1);
      ShorterMore(lens, l - 1, |lens|);
      assert lens[..|lens|] == lens;
      var a, b := NextCode(lens, l - 1), Count(lens, l - 1);
      ScaleAdd(a, b, 16 - l);
      ScaleTwice(a + b, 1, 15 - l);
      assert Scale(a + b, 1) == 2 * (a + b);
    }
  }

  lemma NoneCounted(lens: Lengths, l: nat)
    ensures Count(lens[..0], l) == 0
  {}

  lemma {:induction false} BeforeParts(lens: Lengths, s: nat, n: nat)
    requires s < |lens| && n <= |lens| && 1 <= lens[s] <= 15
    ensures Before(lens, s, n)
            == Shorter(lens, lens[s], n) + Scale(Count(lens[..if n < s then n else s], lens[s]), 15 - lens[s])
  {
    hide Scale, Count, Pow2;
    var l := lens[s];
    if n == 0 {
      NoneCounted(lens, l);
      ScaleZero(15 - l);
    } else {
      BeforeParts(lens, s, n - 1);
      if n <= s {
        CountStep(lens, l, n - 1);
        ScaleAdd(Count(lens[..n - 1], l), 1, 15 - l);
        OneScaled(15 - l);
      }
    }
  }

  lemma OneScaled(n: nat)
    ensures Scale(1, n) == Pow2(n)
  {
    ScalePow2(0, n);
  }

  /** Symbols in order of length, and within a length in their own order, take code space one after the other; the
      codeword assigned to a symbol is the start of its own. */
  lemma CodeIsSpace(lens: Lengths, s: nat)
    requires s < |lens| && 1 <= lens[s] <= 15
    ensures Scale(Code(lens, s), 15 - lens[s]) == Before(lens, s, |lens|)
  {
    hide Scale, NextCode, Shorter, Before, Count;
    BeforeParts(lens, s, |lens|);
    NextCodeIsSpace(lens, lens[s]);
    ScaleAdd(NextCode(lens, lens[s]), Rank(lens, s), 15 - lens[s]);
  }

  lemma {:induction false} ShrMore(v: nat, n: nat)
    ensures Shr(v, n + 1) == Shr(v, n) / 2
  {
    if n > 0 {
      ShrMore(v / 2, n - 1);
    }
  }

  lemma {:induction false} ReadsLeading(B: seq<bool>, p: nat, v: nat, l: nat)
    requires Shr(v, 15) == 0 && l <= 15 && p + l <= |B|
    ensures Reads(B, p, Leading(v, l)) <==> Msb(B, p, l) == Shr(v, 15 - l)
    decreases l
  {
    if l > 0 {
      ReadsLeading(B, p, v, l - 1);
      ReadsBoth(B, p, Leading(v, l - 1), [Shr(v, 15 - l) % 2 == 1]);
      ShrMore(v, 15 - l);
    }
  }

  /** A symbol is decoded exactly where its codeword comes next. */
  lemma ReadsCodeword(lens: Lengths, B: seq<bool>, p: nat, s: nat)
    requires ValidLengths(lens) && s < |lens| && lens[s] > 0
    ensures Decode(lens, B, p) == Some(s) <==> Reads(B, p, Codeword(lens, s))
  {
    hide Before, Shr, Scale, Pow2, Leading, Code, Msb, Reads;
    CodeOfSpace(lens, s);
    var l := lens[s];
    if p + l <= |B| {
      ReadsLeading(B, p, Before(lens, s, |lens|), l);
      if Msb(B, p, l) == Code(lens, s) {
        DecodeIs(lens, B, p, s);
      }
    } else {
      EndsInside(B, p, Codeword(lens, s));
    }
  }

  lemma CodeOfSpace(lens: Lengths, s: nat)
    requires ValidLengths(lens) && s < |lens| && lens[s] > 0
    ensures lens[s] <= 15
    ensures var v := Before(lens, s, |lens|); Shr(v, 15) == 0 && Shr(v, 15 - lens[s]) == Code(lens, s)
  {
    hide Before, Shr, Scale, Pow2, Code, Low, Kraft;
    var l, c := lens[s], Code(lens, s);
    CodeIsSpace(lens, s);
    CodeFits(lens, s);
    ScalePow2(l, 15 - l);
    ScaleMonotone(c, Pow2(l), 15 - l);
    SomePower(15 - l);
    LowSmall(Scale(c, 15 - l), 15);
    LowShrUnique(0, c, 15 - l);
  }

  lemma SomePower(n: nat)
    ensures Pow2(n) >= 1
  {}

  // ---- symbols of a block ----

  type LengthIndex = i: nat | i < 29
  type DistanceIndex = d: nat | d < 30

  /** A byte, or a match: indices of a length and a distance code, with the numbers in their extra bits. */
  datatype Token = Lit(b: byte) | Copy(i: LengthIndex, more: nat, d: DistanceIndex, further: nat)

  predicate Used(lens: Lengths, s: nat) {
    s < |lens| && 0 < lens[s] <= 15
  }

  /** A token that the codes have codewords for. */
  predicate Spellable(lit: Lengths, dist: Lengths, t: Token) {
    match t
    case Lit(b) => Used(lit, b)
    case Copy(i, more, d, further) =>
      && Used(lit, 257 + i) && more < Pow2(LENGTH_EXTRA[i])
      && Used(dist, d) && further < Pow2(DISTANCE_EXTRA[d])
  }

  function TokenBits(lit: Lengths, dist: Lengths, t: Token): seq<bool>
    requires Spellable(lit, dist, t)
  {
    match t
    case Lit(b) => Codeword(lit, b)
    case Copy(i, more, d, further) =>
      (Codeword(lit, 257 + i) + NatBits(more, LENGTH_EXTRA[i]))
      + (Codeword(dist, d) + NatBits(further, DISTANCE_EXTRA[d]))
  }

  /** The last d bytes over and over, n bytes of them. */
  function Again(out: seq<byte>, d: nat, n: nat): seq<byte>
    requires 1 <= d <= |out|
  {
    out + seq(n, k requires k >= 0 => out[|out| - d + k % d])
  }

  /** What a token stands for; nothing if it reaches back too far. */
  function Said(t: Token, out: seq<byte>): Option<seq<byte>>
  {
    match t
    case Lit(b) => Some(out + [b])
    case Copy(i, more, d, further) =>
      var distance := DISTANCE_BASE[d] + further;
      if 1 <= distance <= |out| then Some(Again(out, distance, LENGTH_BASE[i] + more)) else None
  }

  lemma MultipleApart(x: int, d: int)
    requires d >= 1
    ensures (x >= 1 ==> x * d >= d) && (x <= -1 ==> x * d <= -d)
  {}

  lemma ModBack(j: nat, d: nat)
    requires 1 <= d <= j
    ensures (j - d) % d == j % d
  {
    var a, b := (j - d) / d, j / d;
    var x, y := (j - d) % d, j % d;
    assert j - d == a * d + x && j == b * d + y;
    assert (b - a - 1) * d == x - y;
    MultipleApart(b - a - 1, d);
  }

  lemma AgainRepeats(out: seq<byte>, d: nat, n: nat, k: nat)
    requires 1 <= d <= |out| <= k < |out| + n
    ensures Again(out, d, n)[k] == Again(out, d, n)[k - d]
  {
    var j := k - |out|;
    AgainAt(out, d, n, k);
    AgainAt(out, d, n, k - d);
    if j >= d {
      ModBack(j, d);
    } else {
      SmallMod(j, d);
    }
    hide Again;
  }

  lemma SmallMod(j: nat, d: nat)
    requires j < d
    ensures j % d == j
  {}

  lemma AgainAt(out: seq<byte>, d: nat, n: nat, k: nat)
    requires 1 <= d <= |out| && k < |out| + n
    ensures |Again(out, d, n)| == |out| + n && 0 <= (k - |out|) % d < d
    ensures Again(out, d, n)[k] == if k < |out| then out[k] else out[|out| - d + (k - |out|) % d]
  {}

  lemma AgainIsCopy(out: seq<byte>, d: nat, n: nat)
    requires 1 <= d <= |out|
    ensures Again(out, d, n) == CopyBytes(out, d, n)
  {
    var r := Again(out, d, n);
    assert out <= r && |r| == |out| + n;
    hide Again, CopyBytes;
    forall k | |out| <= k < |r|
      ensures r[k] == r[k - d]
    {
      AgainRepeats(out, d, n, k);
    }
    CopyUnique(r, out, d);
  }

  lemma DecodedIsUsed(lens: Lengths, B: seq<bool>, p: nat)
    requires ValidLengths(lens) && Decode(lens, B, p).Some?
    ensures Used(lens, Decode(lens, B, p).value)
  {}

  lemma DistanceRead(dist: Lengths, B: seq<bool>, p: nat, length: nat, d: DistanceIndex, further: nat)
    requires ValidLengths(dist) && Used(dist, d) && further < Pow2(DISTANCE_EXTRA[d])
    requires Reads(B, p, Codeword(dist, d) + NatBits(further, DISTANCE_EXTRA[d]))
    ensures DistanceStep(dist, B, p, length)
            == Match(p + dist[d] + DISTANCE_EXTRA[d], DISTANCE_BASE[d] + further, length)
  {
    hide Codeword, Decode, Pow2, Field, NatBits;
    ReadsBoth(B, p, Codeword(dist, d), NatBits(further, DISTANCE_EXTRA[d]));
    ReadsCodeword(dist, B, p, d);
    DistanceTable(d);
    ReadsNumber(B, p + dist[d], further, DISTANCE_EXTRA[d]);
  }

  lemma DistanceFound(dist: Lengths, B: seq<bool>, p: nat, length: nat) returns (d: DistanceIndex, further: nat)
    requires ValidLengths(dist) && DistanceStep(dist, B, p, length).Match?
    ensures Used(dist, d) && further < Pow2(DISTANCE_EXTRA[d])
    ensures Reads(B, p, Codeword(dist, d) + NatBits(further, DISTANCE_EXTRA[d]))
  {
    hide Codeword, Decode, Pow2, Field, NatBits;
    DecodedIsUsed(dist, B, p);
    d := Decode(dist, B, p).value;
    DistanceTable(d);
    further := Field(B, p + dist[d], DISTANCE_EXTRA[d]);
    ReadsCodeword(dist, B, p, d);
    ReadsNumber(B, p + dist[d], further, DISTANCE_EXTRA[d]);
    ReadsBoth(B, p, Codeword(dist, d), NatBits(further, DISTANCE_EXTRA[d]));
  }

  /** What the decoder takes a token for. */
  function StepOf(t: Token, next: nat): Step
  {
    match t
    case Lit(b) => Literal(next, b)
    case Copy(i, more, d, further) => Match(next, DISTANCE_BASE[d] + further, LENGTH_BASE[i] + more)
  }

  lemma TokenRead(lit: Lengths, dist: Lengths, B: seq<bool>, p: nat, t: Token)
    requires ValidLengths(lit) && ValidLengths(dist) && Spellable(lit, dist, t)
    requires Reads(B, p, TokenBits(lit, dist, t))
    ensures NextStep(lit, dist, B, p) == StepOf(t, p + |TokenBits(lit, dist, t)|)
  {
    hide Codeword, Decode, Pow2, Field, NatBits, DistanceStep, LENGTH_BASE, LENGTH_EXTRA, LengthBase, LengthExtra,
      DISTANCE_BASE, DISTANCE_EXTRA;
    match t
    case Lit(b) =>
      ReadsCodeword(lit, B, p, b);
    case Copy(i, more, d, further) =>
      LengthTable(i);
      DistanceTable(d);
      var u, v := Codeword(lit, 257 + i), NatBits(more, LENGTH_EXTRA[i]);
      var w := Codeword(dist, d) + NatBits(further, DISTANCE_EXTRA[d]);
      ReadsBoth(B, p, u + v, w);
      ReadsBoth(B, p, u, v);
      ReadsCodeword(lit, B, p, 257 + i);
      ReadsNumber(B, p + |u|, more, LENGTH_EXTRA[i]);
      DistanceRead(dist, B, p + |u| + |v|, LENGTH_BASE[i] + more, d, further);
  }

  lemma TokenFound(lit: Lengths, dist: Lengths, B: seq<bool>, p: nat) returns (t: Token)
    requires ValidLengths(lit) && ValidLengths(dist)
    requires NextStep(lit, dist, B, p).Literal? || NextStep(lit, dist, B, p).Match?
    ensures Spellable(lit, dist, t) && Reads(B, p, TokenBits(lit, dist, t))
  {
    hide Codeword, Decode, Pow2, Field, NatBits, DistanceStep, LENGTH_BASE, LENGTH_EXTRA, LengthBase, LengthExtra,
      DISTANCE_BASE, DISTANCE_EXTRA;
    DecodedIsUsed(lit, B, p);
    var s := Decode(lit, B, p).value;
    ReadsCodeword(lit, B, p, s);
    if s < 256 {
      t := Lit(s);
    } else {
      var i := s - 257;
      LengthTable(i);
      var more := Field(B, p + lit[s], LENGTH_EXTRA[i]);
      var q := p + lit[s] + LENGTH_EXTRA[i];
      var d, further := DistanceFound(dist, B, q, LENGTH_BASE[i] + more);
      t := Copy(i, more, d, further);
      var u, v := Codeword(lit, 257 + i), NatBits(more, LENGTH_EXTRA[i]);
      DistanceTable(d);
      ReadsNumber(B, p + |u|, more, LENGTH_EXTRA[i]);
      ReadsBoth(B, p, u, v);
      ReadsBoth(B, p, u + v, Codeword(dist, d) + NatBits(further, DISTANCE_EXTRA[d]));
    }
  }

  predicate AllSpellable(lit: Lengths, dist: Lengths, ts: seq<Token>) {
    forall t :: t in ts ==> Spellable(lit, dist, t)
  }

  /** Tokens, and the end of the block. */
  function SymbolBits(lit: Lengths, dist: Lengths, ts: seq<Token>): seq<bool>
    requires AllSpellable(lit, dist, ts) && Used(lit, 256)
  {
    if ts == [] then Codeword(lit, 256) else TokenBits(lit, dist, ts[0]) + SymbolBits(lit, dist, ts[1..])
  }

  function AllSaid(ts: seq<Token>, out: seq<byte>): Option<seq<byte>>
    decreases |ts|
  {
    if ts == [] then Some(out)
    else
      match Said(ts[0], out)
      case None => None
      case Some(more) => AllSaid(ts[1..], more)
  }

  lemma EndRead(lit: Lengths, dist: Lengths, B: seq<bool>, p: nat)
    requires ValidLengths(lit) && Used(lit, 256)
    ensures Reads(B, p, Codeword(lit, 256)) <==> NextStep(lit, dist, B, p).EndOfBlock?
    ensures Reads(B, p, Codeword(lit, 256)) ==> NextStep(lit, dist, B, p).next == p + lit[256]
  {
    ReadsCodeword(lit, B, p, 256);
    hide Codeword, MatchStep;
  }

  /** Tokens written with two codes are read back with them. */
  lemma {:induction false} SymbolsRead(
    lit: Lengths, dist: Lengths, B: seq<bool>, p: nat, ts: seq<Token>, out: seq<byte>)
    requires ValidLengths(lit) && ValidLengths(dist) && AllSpellable(lit, dist, ts) && Used(lit, 256)
    requires Reads(B, p, SymbolBits(lit, dist, ts)) && AllSaid(ts, out).Some?
    ensures Symbols(lit, dist, B, p, out) == Done(p + |SymbolBits(lit, dist, ts)|, AllSaid(ts, out).value)
    decreases |ts|
  {
    hide Codeword, NextStep, TokenBits, Said, CopyBytes, Reads, Spellable, DISTANCE_BASE, LENGTH_BASE, ValidLengths;
    if ts == [] {
      EndRead(lit, dist, B, p);
    } else {
      var t, u := ts[0], TokenBits(lit, dist, ts[0]);
      assert t in ts;
      ReadsBoth(B, p, u, SymbolBits(lit, dist, ts[1..]));
      TokenRead(lit, dist, B, p, t);
      TokenSaid(t, p + |u|, out);
      SymbolsRead(lit, dist, B, p + |u|, ts[1..], Said(t, out).value);
    }
  }

  /** What is read with two codes is tokens written with them. */
  lemma {:induction false} SymbolsFound(lit: Lengths, dist: Lengths, B: seq<bool>, p: nat, out: seq<byte>)
    returns (ts: seq<Token>)
    requires ValidLengths(lit) && ValidLengths(dist) && Symbols(lit, dist, B, p, out).Done?
    ensures AllSpellable(lit, dist, ts) && Used(lit, 256) && Reads(B, p, SymbolBits(lit, dist, ts))
    ensures AllSaid(ts, out).Some?
    decreases |B| - p
  {
    hide Codeword, NextStep, TokenBits, Said, CopyBytes, Reads, Spellable, DISTANCE_BASE, LENGTH_BASE;
    var step := NextStep(lit, dist, B, p);
    if step.EndOfBlock? {
      ts := [];
      EndIsUsed(lit, dist, B, p);
      EndRead(lit, dist, B, p);
    } else {
      var t := TokenFound(lit, dist, B, p);
      TokenRead(lit, dist, B, p, t);
      TokenSaid(t, step.next, out);
      var rest := SymbolsFound(lit, dist, B, step.next, Said(t, out).value);
      ts := [t] + rest;
      TokenThenRest(lit, dist, B, p, t, rest);
      SaidThenRest(t, rest, out);
    }
  }

  /** A token and what the decoder does for it. */
  lemma TokenSaid(t: Token, next: nat, out: seq<byte>)
    ensures var step := StepOf(t, next);
            Said(t, out) == if t.Lit? then Some(out + [t.b])
                            else if 1 <= step.distance <= |out| then Some(CopyBytes(out, step.distance, step.length))
                            else None
  {
    TableSizes();
    hide CopyBytes, Again, DISTANCE_BASE, LENGTH_BASE;
    if t.Copy? && 1 <= DISTANCE_BASE[t.d] + t.further <= |out| {
      AgainIsCopy(out, DISTANCE_BASE[t.d] + t.further, LENGTH_BASE[t.i] + t.more);
    }
  }

  lemma TableSizes()
    ensures |DISTANCE_BASE| == 30 && |LENGTH_BASE| == 29
  {}

  lemma TokenThenRest(lit: Lengths, dist: Lengths, B: seq<bool>, p: nat, t: Token, rest: seq<Token>)
    requires Spellable(lit, dist, t) && AllSpellable(lit, dist, rest) && Used(lit, 256)
    requires Reads(B, p, TokenBits(lit, dist, t))
    requires Reads(B, p + |TokenBits(lit, dist, t)|, SymbolBits(lit, dist, rest))
    ensures AllSpellable(lit, dist, [t] + rest) && Reads(B, p, SymbolBits(lit, dist, [t] + rest))
  {
    hide Spellable, TokenBits, Codeword, Reads;
    ReadsBoth(B, p, TokenBits(lit, dist, t), SymbolBits(lit, dist, rest));
    assert ([t] + rest)[1..] == rest;
  }

  lemma SaidThenRest(t: Token, rest: seq<Token>, out: seq<byte>)
    requires Said(t, out).Some?
    ensures AllSaid([t] + rest, out) == AllSaid(rest, Said(t, out).value)
  {
    hide Said;
    assert ([t] + rest)[1..] == rest;
  }

  lemma EndIsUsed(lit: Lengths, dist: Lengths, B: seq<bool>, p: nat)
    requires ValidLengths(lit) && NextStep(lit, dist, B, p).EndOfBlock?
    ensures Used(lit, 256)
  {
    DecodedIsUsed(lit, B, p);
  }

  // ---- the code lengths of a dynamic block ----

  /** One length, or a run: of 3 to 6 more of the last, of 3 to 10 zeros, or of 11 to 138. */
  datatype RunOf = One(l: nat) | SameAgain(n: nat) | Zeros(n: nat) | ManyZeros(n: nat)

  /** The symbol of the code length code, and a number in so many extra bits. */
  function SymbolOf(r: RunOf): nat {
    match r
    case One(l) => l
    case SameAgain(_) => 16
    case Zeros(_) => 17
    case ManyZeros(_) => 18
  }

  function WidthOf(r: RunOf): nat {
    match r
    case One(_) => 0
    case SameAgain(_) => 2
    case Zeros(_) => 3
    case ManyZeros(_) => 7
  }

  function NumberOf(r: RunOf): int {
    match r
    case One(_) => 0
    case SameAgain(n) => n - 3
    case Zeros(n) => n - 3
    case ManyZeros(n) => n - 11
  }

  predicate Writable(cl: Lengths, r: RunOf) {
    && Used(cl, SymbolOf(r)) && (r.One? ==> r.l < 16) && (r.SameAgain? ==> 3 <= r.n <= 6)
    && (r.Zeros? ==> 3 <= r.n <= 10) && (r.ManyZeros? ==> 11 <= r.n <= 138)
  }

  function RunBits(cl: Lengths, r: RunOf): (w: seq<bool>)
    requires Writable(cl, r)
    ensures |w| == cl[SymbolOf(r)] + WidthOf(r)
  {
    Codeword(cl, SymbolOf(r)) + NatBits(NumberOf(r), WidthOf(r))
  }

  function Times(n: nat, l: nat): Lengths {
    seq(n, _ => l)
  }

  /** The lengths so far with those a run stands for; there is nothing to repeat at the start. */
  function Listed(r: RunOf, acc: Lengths): Option<Lengths> {
    match r
    case One(l) => Some(acc + [l])
    case SameAgain(n) => if acc == [] then None else Some(acc + Times(n, acc[|acc| - 1]))
    case Zeros(n) => Some(acc + Times(n, 0))
    case ManyZeros(n) => Some(acc + Times(n, 0))
  }

  predicate AllWritable(cl: Lengths, rs: seq<RunOf>) {
    forall r :: r in rs ==> Writable(cl, r)
  }

  function RunsBits(cl: Lengths, rs: seq<RunOf>): seq<bool>
    requires AllWritable(cl, rs)
  {
    if rs == [] then [] else RunBits(cl, rs[0]) + RunsBits(cl, rs[1..])
  }

  function AllListed(rs: seq<RunOf>, acc: Lengths): Option<Lengths>
    decreases |rs|
  {
    if rs == [] then Some(acc)
    else
      match Listed(rs[0], acc)
      case None => None
      case Some(more) => AllListed(rs[1..], more)
  }

  lemma {:induction false} RepeatedIs(v: nat, n: nat)
    ensures Repeated(v, n) == Times(n, v)
  {
    if n > 0 {
      RepeatedIs(v, n - 1);
    }
  }

  ghost predicate Extra(cl: Lengths, B: seq<bool>, p: nat, s: nat, n: nat, v: int) {
    Decode(cl, B, p) == Some(s) && p + cl[s] + n <= |B| && Field(B, p + cl[s], n) == v
  }

  lemma ReadsExtra(cl: Lengths, B: seq<bool>, p: nat, s: nat, n: nat, v: nat)
    requires ValidLengths(cl) && Used(cl, s) && v < Pow2(n)
    ensures Reads(B, p, Codeword(cl, s) + NatBits(v, n)) <==> Extra(cl, B, p, s, n, v)
  {
    hide Codeword, Decode, Pow2, Field, NatBits;
    ReadsBoth(B, p, Codeword(cl, s), NatBits(v, n));
    ReadsCodeword(cl, B, p, s);
    if p + cl[s] + n <= |B| {
      ReadsNumber(B, p + cl[s], v, n);
    }
  }

  lemma NumberFits(cl: Lengths, r: RunOf)
    requires Writable(cl, r)
    ensures 0 <= NumberOf(r) < Pow2(WidthOf(r))
  {
    SmallPowers();
  }

  /** Reading on from the lengths so far, if there are any. */
  ghost function Goes(cl: Lengths, total: nat, B: seq<bool>, p: nat, acc: Option<Lengths>, look: nat): LengthList {
    if acc.None? then NoLengths else CodeLengths(cl, total, B, p, acc.value, look)
  }

  /** Where a run is read, the decoder goes on behind it with the lengths it stands for. */
  lemma RunTaken(cl: Lengths, total: nat, B: seq<bool>, p: nat, acc: Lengths, look: nat, r: RunOf)
    requires ValidLengths(cl) && Writable(cl, r) && |acc| < total && p + look <= |B|
    requires Extra(cl, B, p, SymbolOf(r), WidthOf(r), NumberOf(r))
    ensures CodeLengths(cl, total, B, p, acc, look) == Goes(cl, total, B, p + |RunBits(cl, r)|, Listed(r, acc), look)
  {
    hide Decode, Field, RunBits, Repeated, ValidLengths, Times;
    if !r.One? {
      RepeatedIs(if r.SameAgain? && acc != [] then acc[|acc| - 1] else 0, r.n);
    }
  }

  lemma ListedGrows(cl: Lengths, r: RunOf, acc: Lengths)
    requires Writable(cl, r) && Listed(r, acc).Some?
    ensures |Listed(r, acc).value| > |acc|
  {}

  lemma {:induction false} AllListedGrows(cl: Lengths, rs: seq<RunOf>, acc: Lengths)
    requires AllWritable(cl, rs) && AllListed(rs, acc).Some?
    ensures |AllListed(rs, acc).value| >= |acc| && (rs != [] ==> |AllListed(rs, acc).value| > |acc|)
    decreases |rs|
  {
    hide Listed, Writable;
    if rs != [] {
      ListedGrows(cl, rs[0], acc);
      AllListedGrows(cl, rs[1..], Listed(rs[0], acc).value);
    }
  }

  lemma LengthsDone(cl: Lengths, total: nat, B: seq<bool>, p: nat, acc: Lengths, look: nat)
    ensures |acc| == total ==> CodeLengths(cl, total, B, p, acc, look) == LengthList(acc, p)
  {}

  /** Code lengths written as runs, in whatever way, are read back. */
  lemma {:induction false} RunsRead(
    cl: Lengths, total: nat, B: seq<bool>, p: nat, acc: Lengths, look: nat, rs: seq<RunOf>)
    requires ValidLengths(cl) && AllWritable(cl, rs) && Reads(B, p, RunsBits(cl, rs))
    requires p + |RunsBits(cl, rs)| + look <= |B|
    requires AllListed(rs, acc).Some? && |AllListed(rs, acc).value| == total
    ensures CodeLengths(cl, total, B, p, acc, look)
            == LengthList(AllListed(rs, acc).value, p + |RunsBits(cl, rs)|)
    decreases |rs|
  {
    hide CodeLengths, Decode, ValidLengths, RunBits, Listed, Writable, Reads, SymbolOf, WidthOf, NumberOf, Extra;
    if rs == [] {
      LengthsDone(cl, total, B, p, acc, look);
    } else {
      var r, rest := rs[0], rs[1..];
      AllListedGrows(cl, rs, acc);
      RunSeen(cl, B, p, r, RunsBits(cl, rest));
      RunTaken(cl, total, B, p, acc, look, r);
      RunsRead(cl, total, B, p + |RunBits(cl, r)|, Listed(r, acc).value, look, rest);
    }
  }

  lemma RunSeen(cl: Lengths, B: seq<bool>, p: nat, r: RunOf, more: seq<bool>)
    requires ValidLengths(cl) && Writable(cl, r)
    ensures Reads(B, p, RunBits(cl, r) + more)
            <==> Extra(cl, B, p, SymbolOf(r), WidthOf(r), NumberOf(r)) && Reads(B, p + |RunBits(cl, r)|, more)
  {
    ReadsBoth(B, p, RunBits(cl, r), more);
    NumberFits(cl, r);
    ReadsExtra(cl, B, p, SymbolOf(r), WidthOf(r), NumberOf(r));
    hide Extra, Reads, Codeword;
  }

  /** The run that the decoder reads at p. */
  lemma RunFound(cl: Lengths, B: seq<bool>, p: nat) returns (r: RunOf)
    requires ValidLengths(cl) && |cl| == 19 && Decode(cl, B, p).Some?
    requires var s := Decode(cl, B, p).value;
             p + cl[s] + (if s < 16 then 0 else if s == 16 then 2 else if s == 17 then 3 else 7) <= |B|
    ensures Writable(cl, r) && Extra(cl, B, p, SymbolOf(r), WidthOf(r), NumberOf(r))
  {
    SmallPowers();
    DecodedIsUsed(cl, B, p);
    var s := Decode(cl, B, p).value;
    var q := p + cl[s];
    r := if s < 16 then One(s) else if s == 16 then SameAgain(3 + Field(B, q, 2))
         else if s == 17 then Zeros(3 + Field(B, q, 3)) else ManyZeros(11 + Field(B, q, 7));
  }

  lemma {:induction false} RunsFound(cl: Lengths, total: nat, B: seq<bool>, p: nat, acc: Lengths, look: nat)
    returns (rs: seq<RunOf>)
    requires ValidLengths(cl) && |cl| == 19 && p <= |B| && CodeLengths(cl, total, B, p, acc, look).LengthList?
    ensures AllWritable(cl, rs) && Reads(B, p, RunsBits(cl, rs))
    ensures AllListed(rs, acc) == Some(CodeLengths(cl, total, B, p, acc, look).lens)
    ensures CodeLengths(cl, total, B, p, acc, look).next == p + |RunsBits(cl, rs)|
    decreases |B| - p
  {
    hide Decode, ValidLengths, RunBits, Listed, Writable, Reads, SymbolOf, WidthOf, NumberOf, Extra;
    if |acc| == total {
      rs := [];
      NothingReads(B, p);
    } else {
      StepThere(cl, total, B, p, acc, look);
      var r := RunFound(cl, B, p);
      hide CodeLengths;
      RunTaken(cl, total, B, p, acc, look, r);
      RunMoves(cl, B, p, r);
      var rest := RunsFound(cl, total, B, p + |RunBits(cl, r)|, Listed(r, acc).value, look);
      rs := [r] + rest;
      RunSeen(cl, B, p, r, RunsBits(cl, rest));
      assert rs[1..] == rest;
    }
  }

  lemma NothingReads(B: seq<bool>, p: nat)
    requires p <= |B|
    ensures Reads(B, p, [])
  {}

  lemma RunMoves(cl: Lengths, B: seq<bool>, p: nat, r: RunOf)
    requires Writable(cl, r) && Extra(cl, B, p, SymbolOf(r), WidthOf(r), NumberOf(r))
    ensures p < p + |RunBits(cl, r)| <= |B|
  {}

  lemma StepThere(cl: Lengths, total: nat, B: seq<bool>, p: nat, acc: Lengths, look: nat)
    requires CodeLengths(cl, total, B, p, acc, look).LengthList? && |acc| != total
    ensures |acc| < total && p + look <= |B| && Decode(cl, B, p).Some?
    ensures var s := Decode(cl, B, p).value;
            p + cl[s] + (if s < 16 then 0 else if s == 16 then 2 else if s == 17 then 3 else 7) <= |B|
  {
    hide Decode, Field;
  }

  // ---- the header of a dynamic block ----

  /** Two codes, and how they are written: the code for their lengths, how many of its own lengths are listed, and
      the runs. */
  datatype Codes = Codes(lit: Lengths, dist: Lengths, cl: Lengths, listed: nat, runs: seq<RunOf>)

  ghost predicate WellMade(c: Codes) {
    && ValidLengths(c.lit) && 257 <= |c.lit| <= 288 && ValidLengths(c.dist) && 1 <= |c.dist| <= 32
    && ListsOwn(c.cl, c.listed) && ValidLengths(c.cl)
    && AllWritable(c.cl, c.runs) && AllListed(c.runs, []) == Some(c.lit + c.dist)
  }

  /** The lengths of the code for lengths fit three bits each, and none but the first so many are used, in the
      order of the RFC. */
  predicate ListsOwn(cl: Lengths, listed: nat) {
    && |cl| == 19 && 4 <= listed <= 19 && (forall s :: 0 <= s < 19 ==> cl[s] < 8)
    && forall k :: listed <= k < 19 ==> OwnOf(cl, k) == 0
  }

  /** The k-th length in the order of the RFC. */
  function OwnOf(cl: Lengths, k: nat): nat
    requires |cl| == 19 && k < 19
  {
    cl[CODE_LENGTH_ORDER[k]]
  }

  function OwnBits(cl: Lengths, n: nat): (w: seq<bool>)
    requires |cl| == 19 && n <= 19
    ensures |w| == 3 * n
  {
    if n == 0 then [] else OwnBits(cl, n - 1) + NatBits(OwnOf(cl, n - 1), 3)
  }

  ghost function CodesBits(c: Codes): seq<bool>
    requires WellMade(c)
  {
    CountBits(|c.lit|, |c.dist|, c.listed) + (OwnBits(c.cl, c.listed) + RunsBits(c.cl, c.runs))
  }

  function CountBits(nlit: nat, ndist: nat, listed: nat): (w: seq<bool>)
    requires 257 <= nlit && 1 <= ndist && 4 <= listed
    ensures |w| == 14
  {
    NatBits(nlit - 257, 5) + (NatBits(ndist - 1, 5) + NatBits(listed - 4, 4))
  }

  lemma ReadsCounts(B: seq<bool>, p: nat, nlit: nat, ndist: nat, listed: nat)
    requires 257 <= nlit <= 288 && 1 <= ndist <= 32 && 4 <= listed <= 19 && p + 14 <= |B|
    ensures Reads(B, p, CountBits(nlit, ndist, listed))
            <==> 257 + Field(B, p, 5) == nlit && 1 + Field(B, p + 5, 5) == ndist && 4 + Field(B, p + 10, 4) == listed
  {
    SmallPowers();
    hide Pow2, Field, NatBits, Reads;
    var u, v, w := NatBits(nlit - 257, 5), NatBits(ndist - 1, 5), NatBits(listed - 4, 4);
    ReadsBoth(B, p, u, v + w);
    ReadsBoth(B, p + 5, v, w);
    ReadsNumber(B, p, nlit - 257, 5);
    ReadsNumber(B, p + 5, ndist - 1, 5);
    ReadsNumber(B, p + 10, listed - 4, 4);
  }

  /** Where each symbol is in the order. */
  const PLACES: seq<nat> := [3, 17, 15, 13, 11, 9, 7, 5, 4, 6, 8, 10, 12, 14, 16, 18, 0, 1, 2]

  lemma Place(k: nat)
    requires k < 19
    ensures |CODE_LENGTH_ORDER| == |PLACES| == 19
    ensures CODE_LENGTH_ORDER[k] < 19 && PLACES[CODE_LENGTH_ORDER[k]] == k
    ensures PLACES[k] < 19 && CODE_LENGTH_ORDER[PLACES[k]] == k
    ensures CodeLengthOrder(k) == CODE_LENGTH_ORDER[k]
  {
    OrderTable(k);
  }

  lemma {:induction false} OwnAt(B: seq<bool>, p: nat, n: nat, k: nat)
    requires n <= 19 && k < 19 && p + 3 * n <= |B|
    ensures OwnOf(CodeLengthLengths(B, p, n), k) == if k < n then Field(B, p + 3 * k, 3) else 0
    decreases n
  {
    hide CODE_LENGTH_ORDER, PLACES, CodeLengthOrder, Field;
    Place(k);
    if n > 0 {
      Place(n - 1);
      OwnAt(B, p, n - 1, k);
    }
  }

  /** The first n lengths listed at p are these. */
  predicate OwnThere(B: seq<bool>, p: nat, cl: Lengths, n: nat)
    requires |cl| == 19 && n <= 19 && p + 3 * n <= |B|
  {
    forall k :: 0 <= k < n ==> Field(B, p + 3 * k, 3) == OwnOf(cl, k)
  }

  lemma OwnThereMore(B: seq<bool>, p: nat, cl: Lengths, n: nat)
    requires |cl| == 19 && 0 < n <= 19 && p + 3 * n <= |B|
    ensures OwnThere(B, p, cl, n) <==> OwnThere(B, p, cl, n - 1) && Field(B, p + 3 * (n - 1), 3) == OwnOf(cl, n - 1)
  {
    hide OwnOf, Field;
  }

  lemma {:induction false} ReadsOwn(B: seq<bool>, p: nat, cl: Lengths, n: nat)
    requires |cl| == 19 && n <= 19 && p + 3 * n <= |B| && forall s :: 0 <= s < 19 ==> cl[s] < 8
    ensures Reads(B, p, OwnBits(cl, n)) <==> OwnThere(B, p, cl, n)
    decreases n
  {
    if n > 0 {
      OwnFits3(cl, n - 1);
      hide OwnOf, Field, Reads, NatBits, Pow2, OwnThere;
      var v := OwnOf(cl, n - 1);
      OwnThereMore(B, p, cl, n);
      ReadsOwn(B, p, cl, n - 1);
      ReadsBoth(B, p, OwnBits(cl, n - 1), NatBits(v, 3));
      ReadsNumber(B, p + 3 * (n - 1), v, 3);
    }
  }

  lemma OwnFits3(cl: Lengths, k: nat)
    requires |cl| == 19 && k < 19 && forall s :: 0 <= s < 19 ==> cl[s] < 8
    ensures OwnOf(cl, k) < Pow2(3)
  {
    SmallPowers();
    Place(k);
  }

  lemma SameOwn(a: Lengths, b: Lengths)
    requires |a| == |b| == 19 && forall k :: 0 <= k < 19 ==> OwnOf(a, k) == OwnOf(b, k)
    ensures a == b
  {
    forall s | 0 <= s < 19
      ensures a[s] == b[s]
    {
      Place(s);
      assert OwnOf(a, PLACES[s]) == OwnOf(b, PLACES[s]);
    }
  }

  /** The lengths read are those written. */
  lemma OwnRead(B: seq<bool>, p: nat, cl: Lengths, n: nat)
    requires ListsOwn(cl, n) && Reads(B, p, OwnBits(cl, n))
    ensures p + 3 * n <= |B| && CodeLengthLengths(B, p, n) == cl
  {
    hide CodeLengthLengths, OwnOf, Field, Reads, OwnBits;
    EndsInside(B, p, OwnBits(cl, n));
    ReadsOwn(B, p, cl, n);
    forall k | 0 <= k < 19
      ensures OwnOf(CodeLengthLengths(B, p, n), k) == OwnOf(cl, k)
    {
      OwnAt(B, p, n, k);
    }
    SameOwn(CodeLengthLengths(B, p, n), cl);
  }

  lemma OwnFits(B: seq<bool>, p: nat, n: nat, s: nat)
    requires n <= 19 && p + 3 * n <= |B| && s < 19
    ensures CodeLengthLengths(B, p, n)[s] < 8
  {
    SmallPowers();
    Place(s);
    OwnAt(B, p, n, PLACES[s]);
  }

  lemma OwnFound(B: seq<bool>, p: nat, n: nat)
    requires 4 <= n <= 19 && p + 3 * n <= |B|
    ensures ListsOwn(CodeLengthLengths(B, p, n), n) && Reads(B, p, OwnBits(CodeLengthLengths(B, p, n), n))
  {
    hide CodeLengthLengths, Field, Reads, OwnBits, OwnOf;
    var cl := CodeLengthLengths(B, p, n);
    forall s | 0 <= s < 19
      ensures cl[s] < 8
    {
      OwnFits(B, p, n, s);
    }
    forall k | 0 <= k < 19
      ensures OwnOf(cl, k) == if k < n then Field(B, p + 3 * k, 3) else 0
    {
      OwnAt(B, p, n, k);
    }
    ReadsOwn(B, p, cl, n);
  }

  /** A dynamic header written from two codes is read as them. */
  lemma HeaderRead(B: seq<bool>, p: nat, look: nat, c: Codes)
    requires WellMade(c) && Reads(B, p, CodesBits(c)) && p + |CodesBits(c)| + look <= |B|
    ensures DynamicHeader(B, p, look) == Header(c.lit, c.dist, p + |CodesBits(c)|)
  {
    hide Field, Reads, OwnBits, RunsBits, CountBits, CodeLengthLengths, CodeLengths, ListsOwn, Kraft, AllWritable,
      AllListed;
    ListedRange(c.cl, c.listed);
    ReadsBoth(B, p, CountBits(|c.lit|, |c.dist|, c.listed), OwnBits(c.cl, c.listed) + RunsBits(c.cl, c.runs));
    ReadsBoth(B, p + 14, OwnBits(c.cl, c.listed), RunsBits(c.cl, c.runs));
    ReadsCounts(B, p, |c.lit|, |c.dist|, c.listed);
    OwnRead(B, p + 14, c.cl, c.listed);
    RunsRead(c.cl, |c.lit| + |c.dist|, B, p + 14 + 3 * c.listed, [], look, c.runs);
    assert (c.lit + c.dist)[..|c.lit|] == c.lit && (c.lit + c.dist)[|c.lit|..] == c.dist;
  }

  lemma ListedRange(cl: Lengths, listed: nat)
    requires ListsOwn(cl, listed)
    ensures 4 <= listed <= 19 && |cl| == 19
  {}

  /** A dynamic header that is read was written from the codes it is read as. */
  lemma HeaderFound(B: seq<bool>, p: nat, look: nat) returns (c: Codes)
    requires DynamicHeader(B, p, look).Header?
    ensures WellMade(c) && Reads(B, p, CodesBits(c))
    ensures c.lit == DynamicHeader(B, p, look).lit && c.dist == DynamicHeader(B, p, look).dist
    ensures p + |CodesBits(c)| == DynamicHeader(B, p, look).next
  {
    hide Reads, OwnBits, RunsBits, CountBits, CodeLengthLengths, CodeLengths, ListsOwn, Kraft, AllWritable, AllListed,
      Field;
    CountsInRange(B, p);
    var nlit, ndist, n := 257 + Field(B, p, 5), 1 + Field(B, p + 5, 5), 4 + Field(B, p + 10, 4);
    var cl := CodeLengthLengths(B, p + 14, n);
    OwnFound(B, p + 14, n);
    var rs := RunsFound(cl, nlit + ndist, B, p + 14 + 3 * n, [], look);
    var lens := CodeLengths(cl, nlit + ndist, B, p + 14 + 3 * n, [], look).lens;
    c := Codes(lens[..nlit], lens[nlit..], cl, n, rs);
    assert lens[..nlit] + lens[nlit..] == lens;
    ReadsCounts(B, p, nlit, ndist, n);
    ReadsBoth(B, p + 14, OwnBits(cl, n), RunsBits(cl, rs));
    ReadsBoth(B, p, CountBits(nlit, ndist, n), OwnBits(cl, n) + RunsBits(cl, rs));
  }

  lemma CountsInRange(B: seq<bool>, p: nat)
    requires p + 14 <= |B|
    ensures Field(B, p, 5) < 32 && Field(B, p + 5, 5) < 32 && Field(B, p + 10, 4) < 16
  {
    SmallPowers();
  }

  // ---- stored blocks ----

  /** Bytes, least significant bit first. */
  function DataBits(data: seq<byte>): (w: seq<bool>)
    ensures |w| == 8 * |data|
  {
    if data == [] then [] else DataBits(data[..|data| - 1]) + NatBits(data[|data| - 1], 8)
  }

  /** Bits up to the next byte. */
  function ToByte(p: nat): nat {
    (8 - p % 8) % 8
  }

  predicate IsRaw(pad: seq<bool>, data: seq<byte>, p: nat) {
    |pad| == ToByte(p) && |data| <= 65535
  }

  /** Any bits up to the next byte, the length, its complement, the bytes. */
  function RawBits(pad: seq<bool>, data: seq<byte>): (w: seq<bool>)
    requires |data| <= 65535
    ensures |w| == |pad| + 32 + 8 * |data|
  {
    pad + (NatBits(|data|, 16) + (NatBits(65535 - |data|, 16) + DataBits(data)))
  }

  lemma {:induction false} ReadsData(B: seq<bool>, p: nat, data: seq<byte>)
    requires p + 8 * |data| <= |B|
    ensures Reads(B, p, DataBits(data)) <==> Bytes(B, p, |data|) == data
    decreases |data|
  {
    var n := |data|;
    if n > 0 {
      Pow2Of8();
      var front, b := data[..n - 1], data[n - 1];
      assert DataBits(data) == DataBits(front) + NatBits(b, 8);
      hide Reads, Field, NatBits, Pow2, ByteAt, Bytes, DataBits;
      ReadsData(B, p, front);
      ReadsBoth(B, p, DataBits(front), NatBits(b, 8));
      ReadsNumber(B, p + 8 * (n - 1), b, 8);
      LastByte(B, p, n, front, b);
      assert data == front + [b];
    }
  }

  lemma LastByte(B: seq<bool>, p: nat, n: nat, front: seq<byte>, b: byte)
    requires 0 < n == |front| + 1 && p + 8 * n <= |B|
    ensures Bytes(B, p, n) == front + [b]
            <==> Bytes(B, p, n - 1) == front && Field(B, p + 8 * (n - 1), 8) == b
  {
    var s, c := Bytes(B, p, n - 1), ByteAt(B, p + 8 * (n - 1));
    hide Field;
    assert (s + [c])[..n - 1] == s && (front + [b])[..n - 1] == front && (s + [c])[n - 1] == c;
    assert (front + [b])[n - 1] == b;
  }

  /** A stored block is read exactly if it was written so. */
  lemma ReadsRaw(B: seq<bool>, p: nat, out: seq<byte>, pad: seq<bool>, data: seq<byte>)
    requires IsRaw(pad, data, p) && p + |pad| <= |B| && B[p..p + |pad|] == pad
    ensures Reads(B, p, RawBits(pad, data))
            <==> Stored(B, p, out) == Done(p + |RawBits(pad, data)|, out + data)
  {
    var n, q := |data|, p + |pad|;
    PadEnds(p);
    Pow2Of16();
    hide Field, Reads, NatBits, Pow2, DataBits, Bytes;
    var u, v, w := NatBits(n, 16), NatBits(65535 - n, 16), DataBits(data);
    PadReads(B, p, pad);
    ReadsBoth(B, p, pad, u + (v + w));
    ReadsBoth(B, q, u, v + w);
    ReadsBoth(B, q + 16, v, w);
    EndsInside(B, q, u);
    EndsInside(B, q + 16, v);
    EndsInside(B, q + 32, w);
    if q + 32 + 8 * n <= |B| {
      ReadsNumber(B, q, n, 16);
      ReadsNumber(B, q + 16, 65535 - n, 16);
      ReadsData(B, q + 32, data);
      assert out + Bytes(B, q + 32, n) == out + data ==> Bytes(B, q + 32, n) == data by {
        SameTail(out, Bytes(B, q + 32, n), data);
      }
    }
  }

  lemma SameTail(out: seq<byte>, s: seq<byte>, t: seq<byte>)
    ensures out + s == out + t ==> s == t
  {
    assert (out + s)[|out|..] == s && (out + t)[|out|..] == t;
  }

  lemma PadEnds(p: nat)
    ensures p + ToByte(p) == AlignUp(p)
  {}

  lemma PadReads(B: seq<bool>, p: nat, pad: seq<bool>)
    requires p + |pad| <= |B| && B[p..p + |pad|] == pad
    ensures Reads(B, p, pad)
  {}

  lemma EndsInside(B: seq<bool>, p: nat, w: seq<bool>)
    ensures Reads(B, p, w) ==> p + |w| <= |B|
  {}

  // ---- blocks ----

  datatype Block =
    | Raw(pad: seq<bool>, data: seq<byte>)
    | WithFixed(ts: seq<Token>)
    | WithCodes(c: Codes, ts: seq<Token>)

  /** The fixed code for literals and lengths: 8 bits up to 143, 9 up to 255, 7 up to 279, 8 for the rest. */
  function FixedLit(): Lengths {
    seq(288, s => if s <= 143 then 8 else if s <= 255 then 9 else if s <= 279 then 7 else 8)
  }

  /** The fixed code for distances: five bits each. */
  function FixedDist(): Lengths {
    seq(30, _ => 5)
  }

  lemma FixedAre()
    ensures FixedLit() == FixedLiteralLengths() && FixedDist() == FixedDistanceLengths()
    ensures ValidLengths(FixedLit()) && ValidLengths(FixedDist()) && Used(FixedLit(), 256)
  {
    Scanners.FixedCodesAreValid();
  }

  /** A block that can be written with its type at p. */
  ghost predicate Spelled(b: Block, p: nat) {
    match b
    case Raw(pad, data) => IsRaw(pad, data, p + 2)
    case WithFixed(ts) => AllSpellable(FixedLit(), FixedDist(), ts) && Used(FixedLit(), 256)
    case WithCodes(c, ts) => WellMade(c) && AllSpellable(c.lit, c.dist, ts) && Used(c.lit, 256)
  }

  /** Its type in two bits, and what it holds. */
  ghost function BlockBits(b: Block, p: nat): seq<bool>
    requires Spelled(b, p)
  {
    match b
    case Raw(pad, data) => [false, false] + RawBits(pad, data)
    case WithFixed(ts) => [true, false] + SymbolBits(FixedLit(), FixedDist(), ts)
    case WithCodes(c, ts) => [false, true] + (CodesBits(c) + SymbolBits(c.lit, c.dist, ts))
  }

  /** The output so far with what a block stands for. */
  function Meant(b: Block, out: seq<byte>): Option<seq<byte>> {
    if b.Raw? then Some(out + b.data) else AllSaid(b.ts, out)
  }

  /** What is read of a block of a type, with no demand for bits ahead. */
  ghost function TypedBody(B: seq<bool>, p: nat, out: seq<byte>): Outcome {
    if p + 2 > |B| then Fail else BlockBody(Field(B, p, 2), B, p + 2, out, 0)
  }

  lemma ReadsType(B: seq<bool>, p: nat, a: bool, b: bool)
    requires p + 2 <= |B|
    ensures Reads(B, p, [a, b]) <==> Field(B, p, 2) == (if a then 1 else 0) + (if b then 2 else 0)
  {
    var w := B[p..p + 2];
    assert w[0] == B[p] && w[1] == B[p + 1];
    assert Field(B, p, 2) == (if B[p] then 1 else 0) + 2 * Field(B, p + 1, 1);
    assert Field(B, p + 1, 1) == if B[p + 1] then 1 else 0;
    hide Field;
    assert w == [B[p], B[p + 1]];
  }

  /** A block is read back as what it stands for. */
  lemma BlockRead(B: seq<bool>, p: nat, b: Block, out: seq<byte>)
    requires Spelled(b, p) && Reads(B, p, BlockBits(b, p)) && Meant(b, out).Some?
    ensures TypedBody(B, p, out) == Done(p + |BlockBits(b, p)|, Meant(b, out).value)
  {
    FixedAre();
    hide Reads, Field, Stored, Symbols, DynamicHeader, RawBits, SymbolBits, CodesBits, AllSaid, AllSpellable,
      FixedLit, FixedDist, FixedLiteralLengths, FixedDistanceLengths, ValidLengths;
    match b
    case Raw(pad, data) =>
      ReadsBoth(B, p, [false, false], RawBits(pad, data));
      EndsInside(B, p, [false, false]);
      ReadsType(B, p, false, false);
      PadComes(B, p + 2, pad, data);
      ReadsRaw(B, p + 2, out, pad, data);
    case WithFixed(ts) =>
      var w := SymbolBits(FixedLit(), FixedDist(), ts);
      ReadsBoth(B, p, [true, false], w);
      EndsInside(B, p, [true, false]);
      ReadsType(B, p, true, false);
      SymbolsRead(FixedLit(), FixedDist(), B, p + 2, ts, out);
    case WithCodes(c, ts) =>
      var w := SymbolBits(c.lit, c.dist, ts);
      ReadsBoth(B, p, [false, true], CodesBits(c) + w);
      EndsInside(B, p, [false, true]);
      ReadsType(B, p, false, true);
      ReadsBoth(B, p + 2, CodesBits(c), w);
      EndsInside(B, p + 2, CodesBits(c));
      HeaderRead(B, p + 2, 0, c);
      SymbolsRead(c.lit, c.dist, B, p + 2 + |CodesBits(c)|, ts, out);
  }

  lemma PadComes(B: seq<bool>, p: nat, pad: seq<bool>, data: seq<byte>)
    requires |data| <= 65535 && Reads(B, p, RawBits(pad, data))
    ensures p + |pad| <= |B| && B[p..p + |pad|] == pad
  {
    ReadsBoth(B, p, pad, NatBits(|data|, 16) + (NatBits(65535 - |data|, 16) + DataBits(data)));
  }

  /** What is read as a block was written as one. */
  lemma BlockFound(B: seq<bool>, p: nat, out: seq<byte>) returns (b: Block)
    requires TypedBody(B, p, out).Done?
    ensures Spelled(b, p) && Reads(B, p, BlockBits(b, p)) && Meant(b, out).Some?
  {
    FixedAre();
    hide Reads, Stored, Symbols, DynamicHeader, RawBits, SymbolBits, CodesBits, AllSaid, AllSpellable,
      FixedLit, FixedDist, FixedLiteralLengths, FixedDistanceLengths, ValidLengths;
    var kind := Field(B, p, 2);
    if kind == 0 {
      var pad, data := RawFound(B, p + 2, out);
      b := Raw(pad, data);
      ReadsType(B, p, false, false);
      ReadsBoth(B, p, [false, false], RawBits(pad, data));
    } else if kind == 1 {
      var ts := SymbolsFound(FixedLit(), FixedDist(), B, p + 2, out);
      b := WithFixed(ts);
      ReadsType(B, p, true, false);
      ReadsBoth(B, p, [true, false], SymbolBits(FixedLit(), FixedDist(), ts));
    } else {
      var c := HeaderFound(B, p + 2, 0);
      var ts := SymbolsFound(c.lit, c.dist, B, p + 2 + |CodesBits(c)|, out);
      b := WithCodes(c, ts);
      var w := SymbolBits(c.lit, c.dist, ts);
      ReadsType(B, p, false, true);
      ReadsBoth(B, p + 2, CodesBits(c), w);
      ReadsBoth(B, p, [false, true], CodesBits(c) + w);
    }
  }

  lemma RawFound(B: seq<bool>, p: nat, out: seq<byte>) returns (pad: seq<bool>, data: seq<byte>)
    requires Stored(B, p, out).Done?
    ensures IsRaw(pad, data, p) && Reads(B, p, RawBits(pad, data))
  {
    Pow2Of16();
    PadEnds(p);
    hide Field, Bytes, Pow2, RawBits, ToByte, Reads;
    var q := AlignUp(p);
    pad, data := B[p..q], Bytes(B, q + 32, Field(B, q, 16));
    ReadsRaw(B, p, out, pad, data);
  }

  // ---- streams ----

  /** Blocks that can be written from p on, one at least. */
  ghost predicate AllSpelled(bs: seq<Block>, p: nat)
    decreases |bs|
  {
    bs != [] && Spelled(bs[0], p + 1)
    && (|bs| > 1 ==> AllSpelled(bs[1..], p + 1 + |BlockBits(bs[0], p + 1)|))
  }

  /** Each behind a bit that is set for the last. */
  ghost function StreamOf(bs: seq<Block>, p: nat): (w: seq<bool>)
    requires AllSpelled(bs, p)
    decreases |bs|
  {
    hide Spelled, BlockBits;
    var block := BlockBits(bs[0], p + 1);
    if |bs| == 1 then [true] + block else [false] + (block + StreamOf(bs[1..], p + 1 + |block|))
  }

  function AllMeant(bs: seq<Block>, out: seq<byte>): Option<seq<byte>>
    decreases |bs|
  {
    if bs == [] then Some(out)
    else
      match Meant(bs[0], out)
      case None => None
      case Some(more) => AllMeant(bs[1..], more)
  }

  lemma BlocksStep(B: seq<bool>, p: nat, out: seq<byte>)
    requires p < |B|
    ensures var r := TypedBody(B, p + 1, out);
            Blocks(B, p, out, 0)
            == if r.Fail? then Fail else if B[p] then r else Blocks(B, r.pos, r.out, 0)
  {
    hide BlockBody, Field;
  }

  lemma ReadsBit(B: seq<bool>, p: nat, b: bool)
    ensures Reads(B, p, [b]) <==> p < |B| && B[p] == b
  {
    if p < |B| {
      assert B[p..p + 1] == [B[p]];
    }
  }

  /** Blocks put together are read back as what they stand for. */
  lemma {:induction false} BlocksRead(B: seq<bool>, p: nat, bs: seq<Block>, out: seq<byte>)
    requires AllSpelled(bs, p) && Reads(B, p, StreamOf(bs, p)) && AllMeant(bs, out).Some?
    ensures Blocks(B, p, out, 0) == Done(p + |StreamOf(bs, p)|, AllMeant(bs, out).value)
    decreases |bs|
  {
    hide Reads, TypedBody, Spelled, BlockBits, Meant, Blocks;
    var b, w, rest := bs[0], BlockBits(bs[0], p + 1), bs[1..];
    if |bs| == 1 {
      ReadsBoth(B, p, [true], w);
      ReadsBit(B, p, true);
    } else {
      ReadsBoth(B, p, [false], w + StreamOf(rest, p + 1 + |w|));
      ReadsBoth(B, p + 1, w, StreamOf(rest, p + 1 + |w|));
      ReadsBit(B, p, false);
    }
    BlocksStep(B, p, out);
    BlockRead(B, p + 1, b, out);
    if |bs| > 1 {
      BlocksRead(B, p + 1 + |w|, rest, Meant(b, out).value);
    }
  }

  /** What is read as blocks was put together from blocks. */
  lemma {:induction false} BlocksFound(B: seq<bool>, p: nat, out: seq<byte>) returns (bs: seq<Block>)
    requires Blocks(B, p, out, 0).Done?
    ensures AllSpelled(bs, p) && Reads(B, p, StreamOf(bs, p)) && AllMeant(bs, out).Some?
    decreases |B| - p
  {
    hide Reads, TypedBody, Spelled, BlockBits, Meant, Blocks, StreamOf, AllSpelled, AllMeant;
    BlockThere(B, p, out);
    BlocksStep(B, p, out);
    var b := BlockFound(B, p + 1, out);
    BlockRead(B, p + 1, b, out);
    ReadsBit(B, p, B[p]);
    if B[p] {
      bs := [b];
      OnlyBlock(B, p, b, out);
    } else {
      BlockEnds(B, p + 1, out);
      var rest := BlocksFound(B, p + 1 + |BlockBits(b, p + 1)|, Meant(b, out).value);
      bs := [b] + rest;
      FirstBlock(B, p, b, rest, out);
    }
  }

  lemma OnlyBlock(B: seq<bool>, p: nat, b: Block, out: seq<byte>)
    requires Spelled(b, p + 1) && Meant(b, out).Some? && Reads(B, p, [true]) && Reads(B, p + 1, BlockBits(b, p + 1))
    ensures AllSpelled([b], p) && Reads(B, p, StreamOf([b], p)) && AllMeant([b], out).Some?
  {
    hide Reads, Spelled, BlockBits, Meant;
    ReadsBoth(B, p, [true], BlockBits(b, p + 1));
  }

  lemma FirstBlock(B: seq<bool>, p: nat, b: Block, rest: seq<Block>, out: seq<byte>)
    requires Spelled(b, p + 1) && Meant(b, out).Some? && Reads(B, p, [false]) && Reads(B, p + 1, BlockBits(b, p + 1))
    requires var q := p + 1 + |BlockBits(b, p + 1)|; AllSpelled(rest, q) && Reads(B, q, StreamOf(rest, q))
    ensures AllSpelled([b] + rest, p) && Reads(B, p, StreamOf([b] + rest, p))
    ensures AllMeant([b] + rest, out) == AllMeant(rest, Meant(b, out).value)
  {
    hide Reads, Spelled, BlockBits, Meant;
    var w, bs := BlockBits(b, p + 1), [b] + rest;
    assert bs[1..] == rest && bs[0] == b;
    ReadsBoth(B, p + 1, w, StreamOf(rest, p + 1 + |w|));
    ReadsBoth(B, p, [false], w + StreamOf(rest, p + 1 + |w|));
  }

  lemma BlockThere(B: seq<bool>, p: nat, out: seq<byte>)
    requires Blocks(B, p, out, 0).Done?
    ensures p < |B|
  {}

  lemma BlockEnds(B: seq<bool>, p: nat, out: seq<byte>)
    requires TypedBody(B, p, out).Done?
    ensures p < TypedBody(B, p, out).pos <= |B|
  {}

  /** The byte string begins with such a stream that stands for these bytes and ends at that bit. */
  ghost predicate Deflates(data: seq<byte>, bs: seq<Block>, end: nat, bytes: seq<byte>) {
    && AllSpelled(bs, 0) && Reads(StreamBits(data), 0, StreamOf(bs, 0)) && |StreamOf(bs, 0)| == end
    && AllMeant(bs, []) == Some(bytes)
  }

  /** Inflating undoes deflating, however it was done: a byte string inflates to some bytes, up to some bit, exactly
      if it begins with blocks that stand for them and end there. */
  lemma InflateUndoesDeflate(data: seq<byte>, end: nat, bytes: seq<byte>)
    ensures Rfc1951(data) == Done(end, bytes) <==> exists bs :: Deflates(data, bs, end, bytes)
  {
    var B := StreamBits(data);
    hide Blocks, Reads, StreamOf, AllSpelled, AllMeant;
    if Rfc1951(data).Done? {
      var bs := BlocksFound(B, 0, []);
      BlocksRead(B, 0, bs, []);
      assert Deflates(data, bs, Rfc1951(data).pos, Rfc1951(data).out);
    }
    forall bs | Deflates(data, bs, end, bytes)
      ensures Rfc1951(data) == Done(end, bytes)
    {
      BlocksRead(B, 0, bs, []);
    }
  }
}
