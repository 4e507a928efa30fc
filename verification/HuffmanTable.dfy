/** The scanner's Huffman tables: a canonical table of counts and sorted symbols, with a direct-lookup
    table for codewords of at most ten bits in front of it. */
module HuffmanTables {
  import opened Bits
  import opened Huffman

  const FAST_SIZE := 1024
  const MAX_SYMBOLS := 65536

  lemma CountSteps(lens: Lengths, k: nat)
    requires k < |lens|
    ensures forall l: nat ::
              Count(lens[..k + 1], l) == Count(lens[..k], l) + (if lens[k] == l then 1 else 0)
  {
    forall l: nat {
      CountStep(lens, l, k);
    }
  }

  /** Where the symbols with codewords of l bits start in the sorted symbol list. */
  function Offset(lens: Lengths, l: nat): nat {
    if l <= 1 then 0 else Offset(lens, l - 1) + Count(lens, l - 1)
  }

  /** Where symbol s stands in the sorted symbol list. */
  function SymbolIndex(lens: Lengths, s: nat): nat
    requires s < |lens|
  {
    Offset(lens, lens[s]) + Rank(lens, s)
  }

  lemma {:induction false} OffsetMonotone(lens: Lengths, l: nat, k: nat)
    requires 1 <= l < k
    ensures Offset(lens, l) + Count(lens, l) <= Offset(lens, k)
  {
    if l + 1 < k {
      OffsetMonotone(lens, l, k - 1);
    }
  }

  lemma SymbolIndexBound(lens: Lengths, s: nat)
    requires s < |lens| && 1 <= lens[s] <= MAX_LENGTH
    ensures SymbolIndex(lens, s) < Offset(lens, MAX_LENGTH + 1)
  {
    RankBound(lens, s);
    OffsetMonotone(lens, lens[s], MAX_LENGTH + 1);
  }

  lemma SymbolIndexInjective(lens: Lengths, s: nat, t: nat)
    requires s < |lens| && t < |lens| && s != t && lens[s] >= 1 && lens[t] >= 1
    ensures SymbolIndex(lens, s) != SymbolIndex(lens, t)
  {
    RankBound(lens, s);
    RankBound(lens, t);
    if lens[s] < lens[t] {
      OffsetMonotone(lens, lens[s], lens[t]);
    } else if lens[t] < lens[s] {
      OffsetMonotone(lens, lens[t], lens[s]);
    } else if Rank(lens, s) == Rank(lens, t) {
      RankInjective(lens, s, t);
    }
  }

  /** A direct-lookup entry: the symbol in the low half, the codeword length above it. */
  function Entry(sym: nat, bits: nat): nat {
    sym + 65536 * bits
  }

  /** How the builder packs an entry and the decoder takes it apart. */
  lemma PackEntry(sym: nat, bits: nat)
    requires sym < MAX_SYMBOLS && bits <= MAX_LENGTH
    ensures Or(sym, Shl64(bits, 16)) == Entry(sym, bits)
    ensures Low(Entry(sym, bits), 16) == sym && Shr(Entry(sym, bits), 16) == bits
  {
    Pow2Of8();
    ScalePow2(8, 8);
    Scale8(256);
    ScaleTwice(bits, 8, 8);
    Scale8(bits);
    Scale8(256 * bits);
    assert Pow2(4) == 16;
    ShlFits(bits, 16, 4);
    OrDisjoint(sym, bits, 16);
    LowShrUnique(sym, bits, 16);
  }

  // ---- what the direct-lookup table holds ----

  /** Symbol s is shorter than l bits, or among the first i symbols of l bits. */
  ghost predicate Before(lens: Lengths, s: nat, l: nat, i: nat) {
    s < |lens| && 1 <= lens[s] && (lens[s] < l || (lens[s] == l && Rank(lens, s) < i))
  }

  /** Slot x holding v is right once all symbols before (l, i) have been entered. */
  ghost predicate SlotHolds(v: nat, lens: Lengths, x: nat, l: nat, i: nat) {
    && (forall s: nat :: Before(lens, s, l, i) && Slot(lens, x, s) ==> v == Entry(s, lens[s]))
    && (v != 0 ==> exists s: nat :: Before(lens, s, l, i) && Slot(lens, x, s))
  }

  ghost predicate FastHolds(t: seq<nat>, lens: Lengths, l: nat, i: nat) {
    && |t| == FAST_SIZE
    && forall x: nat :: x < FAST_SIZE ==> SlotHolds(t[x], lens, x, l, i)
  }

  /** t is b with e in each slot whose low l bits are rev. */
  ghost predicate Filled(t: seq<nat>, b: seq<nat>, l: nat, rev: nat, e: nat) {
    && |t| == |b| == FAST_SIZE
    && forall x: nat :: x < FAST_SIZE ==> t[x] == if Low(x, l) == rev then e else b[x]
  }

  lemma SlotOfSymbol(lens: Lengths, x: nat, l: nat, i: nat)
    requires 1 <= l <= FAST_BITS && i < Count(lens, l)
    ensures Slot(lens, x, SymbolAt(lens, l, i)) <==> Low(x, l) == Rev(NextCode(lens, l) + i, l)
  {}

  lemma BeforeStep(lens: Lengths, s: nat, l: nat, i: nat)
    requires 1 <= l && i < Count(lens, l)
    ensures Before(lens, s, l, i + 1) <==> Before(lens, s, l, i) || s == SymbolAt(lens, l, i)
  {
    var c := SymbolAt(lens, l, i);
    if Before(lens, s, l, i + 1) && !Before(lens, s, l, i) {
      RankInjective(lens, s, c);
    }
  }

  lemma SlotStep(v: nat, b: nat, lens: Lengths, x: nat, l: nat, i: nat)
    requires ValidLengths(lens) && x < FAST_SIZE && 1 <= l <= FAST_BITS && i < Count(lens, l)
    requires SlotHolds(b, lens, x, l, i)
    requires v == if Low(x, l) == Rev(NextCode(lens, l) + i, l) then Entry(SymbolAt(lens, l, i), l) else b
    ensures SlotHolds(v, lens, x, l, i + 1)
  {
    hide Slot, Before, ValidLengths, SymbolAt, Count, NextCode;
    var c := SymbolAt(lens, l, i);
    SlotOfSymbol(lens, x, l, i);
    Pow2Ten();
    forall s: nat
      ensures Before(lens, s, l, i + 1) <==> Before(lens, s, l, i) || s == c
    {
      BeforeStep(lens, s, l, i);
    }
    if Slot(lens, x, c) {
      forall s: nat | Slot(lens, x, s)
        ensures s == c
      {
        SlotUnique(lens, x, s, c);
      }
    }
  }

  lemma FastEmpty(t: seq<nat>, lens: Lengths)
    requires |t| == FAST_SIZE && forall x :: 0 <= x < FAST_SIZE ==> t[x] == 0
    ensures FastHolds(t, lens, 1, 0)
  {}

  lemma FastStep(t: seq<nat>, b: seq<nat>, lens: Lengths, l: nat, i: nat)
    requires ValidLengths(lens) && 1 <= l <= FAST_BITS && i < Count(lens, l)
    requires FastHolds(b, lens, l, i)
    requires Filled(t, b, l, Rev(NextCode(lens, l) + i, l), Entry(SymbolAt(lens, l, i), l))
    ensures FastHolds(t, lens, l, i + 1)
  {
    forall x: nat | x < FAST_SIZE
      ensures SlotHolds(t[x], lens, x, l, i + 1)
    {
      SlotStep(t[x], b[x], lens, x, l, i);
    }
  }

  lemma BeforeNextLength(lens: Lengths, s: nat, l: nat)
    requires l >= 1
    ensures Before(lens, s, l + 1, 0) <==> Before(lens, s, l, Count(lens, l))
  {
    if s < |lens| {
      RankBound(lens, s);
    }
  }

  lemma FastNextLength(t: seq<nat>, lens: Lengths, l: nat)
    requires l >= 1 && FastHolds(t, lens, l, Count(lens, l))
    ensures FastHolds(t, lens, l + 1, 0)
  {
    forall x: nat | x < FAST_SIZE
      ensures SlotHolds(t[x], lens, x, l + 1, 0)
    {
      assert SlotHolds(t[x], lens, x, l, Count(lens, l));
      forall s: nat {
        BeforeNextLength(lens, s, l);
      }
    }
  }

  lemma FastLong(t: seq<nat>, lens: Lengths, l: nat)
    requires l > FAST_BITS && FastHolds(t, lens, l, 0)
    ensures FastHolds(t, lens, l + 1, 0)
  {
    forall x: nat | x < FAST_SIZE
      ensures SlotHolds(t[x], lens, x, l + 1, 0)
    {
      assert SlotHolds(t[x], lens, x, l, 0);
      assert forall s: nat :: Slot(lens, x, s) ==> (Before(lens, s, l + 1, 0) <==> Before(lens, s, l, 0));
    }
  }

  lemma Pow2Ten()
    ensures Pow2(FAST_BITS) == FAST_SIZE
  {}

  /** The finished table: slot x is non-zero exactly when a symbol of at most ten bits comes next
      wherever the next ten bits read x, and then it names that symbol and its length. */
  lemma FastDecodes(t: seq<nat>, lens: Lengths, B: seq<bool>, p: nat)
    requires ValidLengths(lens) && |lens| <= MAX_SYMBOLS && FastHolds(t, lens, MAX_LENGTH + 1, 0)
    requires p + FAST_BITS <= |B|
    ensures Field(B, p, FAST_BITS) < FAST_SIZE
    ensures var e := t[Field(B, p, FAST_BITS)];
            var d := Decode(lens, B, p);
            && (e != 0 <==> d.Some? && lens[d.value] <= FAST_BITS)
            && (e != 0 ==> Low(e, 16) == d.value && Shr(e, 16) == lens[d.value])
  {
    Pow2Ten();
    var x := Field(B, p, FAST_BITS);
    var d := Decode(lens, B, p);
    assert SlotHolds(t[x], lens, x, MAX_LENGTH + 1, 0);
    if t[x] != 0 {
      var s: nat :| Before(lens, s, MAX_LENGTH + 1, 0) && Slot(lens, x, s);
      SlotMeansSpells(lens, B, p, s);
      DecodeIs(lens, B, p, s);
      PackEntry(s, lens[s]);
    } else if d.Some? && lens[d.value] <= FAST_BITS {
      SlotMeansSpells(lens, B, p, d.value);
      assert Before(lens, d.value, MAX_LENGTH + 1, 0);
      assert false;
    }
  }

  /** Reverses the n low bits of v. */
  method ReverseBits(v: nat, n: nat) returns (r: nat)
    requires n <= 32
    ensures r == Rev(v, n)
  {
    r := 0;
    ghost var high := 0;  // r with its n - i low bits, all zero, cut off
    ScaleZero(n);
    for i := 0 to n
      invariant r == Scale(high, n - i)
      invariant r + Rev(Shr(v, i), n - i) == Rev(v, n)
    {
      var bit := Low(Shr(v, i), 1);
      ReverseStep(v, i, n, high);
      r := Or(r, Shl64(bit, n - 1 - i));
      high := 2 * high + bit;
    }
  }

  lemma {:induction false} ShrStep(v: nat, i: nat)
    ensures Shr(v, i + 1) == Shr(v, i) / 2
  {
    if i > 0 {
      ShrStep(v / 2, i - 1);
    }
  }

  lemma ReverseStep(v: nat, i: nat, n: nat, high: nat)
    requires i < n <= 32
    ensures var r, bit := Scale(high, n - i), Low(Shr(v, i), 1);
            var next := Or(r, Shl64(bit, n - 1 - i));
            && next == Scale(2 * high + bit, n - 1 - i)
            && next + Rev(Shr(v, i + 1), n - 1 - i) == r + Rev(Shr(v, i), n - i)
  {
    var m, w := n - 1 - i, Shr(v, i);
    var bit := Low(w, 1);
    assert Low(w / 2, 0) == 0 && bit == w % 2;
    ShrStep(v, i);
    assert Pow2(1) == 2;
    ShlFits(bit, m, 1);
    OrDisjoint(Scale(bit, m), high, m + 1);
    ScaleTwice(high, 1, m);
    assert Scale(high, 1) == 2 * Scale(high, 0);
    ScaleAdd(2 * high, bit, m);
    ScalePow2(0, m);
    ScaleZero(m);
  }

  class HuffmanTable {
    /** Direct-lookup entries indexed by the next ten bits, zero where no short codeword matches. */
    const fast: array<nat>
    /** counts[l] is the number of codewords of l bits. */
    const counts: array<nat>
    /** The used symbols ordered by codeword length, then by number; a prefix of the array. */
    var symbols: array<nat>
    /** The lengths the table was built from. */
    ghost var lens: Lengths

    constructor ()
      ensures fresh(fast) && fresh(counts) && fresh(symbols)
      ensures Shaped()
    {
      fast := new nat[FAST_SIZE](_ => 0);
      counts := new nat[16](_ => 0);
      symbols := new nat[0];
      lens := [];
    }

    ghost predicate Shaped()
      reads this
    {
      && fast.Length == FAST_SIZE && counts.Length == 16
      && fast != counts && symbols != fast && symbols != counts
    }

    ghost predicate CountsMatch(ls: Lengths)
      reads this, counts
    {
      counts.Length == 16 && forall l :: 1 <= l <= MAX_LENGTH ==> counts[l] == Count(ls, l)
    }

    /** The first k symbols of ls are in their places in the sorted list. */
    ghost predicate Sorted(ls: Lengths, k: nat)
      reads this, symbols
    {
      && k <= |ls|
      && Offset(ls, MAX_LENGTH + 1) <= symbols.Length
      && forall s :: 0 <= s < k && 1 <= ls[s] <= MAX_LENGTH ==>
           SymbolIndex(ls, s) < symbols.Length && symbols[SymbolIndex(ls, s)] == s
    }

    /** The table decodes the code with lengths `lens`. */
    ghost predicate Valid()
      reads this, fast, counts, symbols
    {
      && Shaped()
      && ValidLengths(lens)
      && |lens| <= MAX_SYMBOLS
      && CountsMatch(lens)
      && Sorted(lens, |lens|)
      && FastHolds(fast[..], lens, MAX_LENGTH + 1, 0)
    }

    /** Builds the tables for the given lengths; refuses exactly the vectors with a length above 15
        or with more codewords than fit. */
    method Build(lengths: Lengths) returns (ok: bool)
      requires Shaped() && |lengths| <= MAX_SYMBOLS
      modifies this, fast, counts, symbols
      ensures Shaped() && (symbols == old(symbols) || fresh(symbols))
      ensures ok <==> ValidLengths(lengths)
      ensures ok ==> Valid() && lens == lengths
    {
      lens := lengths;
      ok := CountLengths(lengths);
      if !ok { return; }
      ok := CheckRoom(lengths);
      if !ok { return; }
      SortSymbols(lengths);
      FillFast(lengths);
    }

    method CountLengths(lengths: Lengths) returns (ok: bool)
      requires Shaped()
      modifies counts
      ensures ok <==> forall s :: 0 <= s < |lengths| ==> lengths[s] <= MAX_LENGTH
      ensures ok ==> CountsMatch(lengths)
    {
      for i := 0 to counts.Length
        invariant forall l :: 0 <= l < i ==> counts[l] == 0
      {
        counts[i] := 0;
      }
      for k := 0 to |lengths|
        invariant forall s :: 0 <= s < k ==> lengths[s] <= MAX_LENGTH
        invariant forall l :: 0 <= l <= MAX_LENGTH ==> counts[l] == Count(lengths[..k], l)
      {
        var l := lengths[k];
        if l > MAX_LENGTH { return false; }
        CountSteps(lengths, k);
        counts[l] := counts[l] + 1;
      }
      counts[0] := 0;
      assert lengths[..|lengths|] == lengths;
      return true;
    }

    method CheckRoom(lengths: Lengths) returns (ok: bool)
      requires CountsMatch(lengths)
      ensures ok <==> Kraft(lengths) <= Pow2(MAX_LENGTH)
    {
      var left: int := 1;
      for l := 1 to MAX_LENGTH + 1
        invariant left == Left(lengths, l - 1)
        invariant left >= 0
      {
        left := 2 * left;
        left := left - counts[l];
        if left < 0 {
          LeftStaysNegative(lengths, l, MAX_LENGTH);
          LeftIsKraft(lengths);
          return false;
        }
      }
      LeftIsKraft(lengths);
      return true;
    }

    /** Lists the used symbols by counting sort. */
    method SortSymbols(lengths: Lengths)
      requires Shaped() && CountsMatch(lengths) && forall s :: 0 <= s < |lengths| ==> lengths[s] <= MAX_LENGTH
      modifies this`symbols, symbols
      ensures Shaped() && (symbols == old(symbols) || fresh(symbols))
      ensures Sorted(lengths, |lengths|)
    {
      var next, sum := StartOffsets(lengths);
      assert next != symbols;
      if symbols.Length < sum {
        symbols := new nat[sum];
      }
      PlaceSymbols(lengths, next);
    }

    method PlaceSymbols(lengths: Lengths, next: array<nat>)
      requires forall s :: 0 <= s < |lengths| ==> lengths[s] <= MAX_LENGTH
      requires Sorted(lengths, 0) && next.Length == 16 && next != symbols
      requires forall l :: 1 <= l <= MAX_LENGTH ==> next[l] == Offset(lengths, l)
      modifies symbols, next
      ensures Sorted(lengths, |lengths|)
    {
      for sym := 0 to |lengths|
        invariant Sorted(lengths, sym)
        invariant forall l :: 1 <= l <= MAX_LENGTH ==> next[l] == Offset(lengths, l) + Count(lengths[..sym], l)
      {
        var l := lengths[sym];
        if l != 0 {
          PlaceSymbol(lengths, sym, next[l]);
          next[l] := next[l] + 1;
        }
        assert Sorted(lengths, sym + 1);
        CountSteps(lengths, sym);
      }
    }

    /** The start of each length's symbols in the sorted list, and the length of the list. */
    method StartOffsets(ghost lengths: Lengths) returns (offs: array<nat>, sum: nat)
      requires CountsMatch(lengths)
      ensures fresh(offs) && offs.Length == 16 && sum == Offset(lengths, MAX_LENGTH + 1)
      ensures forall l :: 1 <= l <= MAX_LENGTH ==> offs[l] == Offset(lengths, l)
    {
      offs := new nat[16](_ => 0);
      sum := 0;
      for l := 1 to MAX_LENGTH + 1
        invariant sum == Offset(lengths, l)
        invariant forall j :: 1 <= j < l ==> offs[j] == Offset(lengths, j)
      {
        offs[l] := sum;
        sum := sum + counts[l];
      }
    }

    method PlaceSymbol(ghost lengths: Lengths, sym: nat, i: nat)
      requires sym < |lengths| && Sorted(lengths, sym) && 1 <= lengths[sym] <= MAX_LENGTH
      requires i == SymbolIndex(lengths, sym)
      modifies symbols
      ensures Sorted(lengths, sym + 1)
    {
      SymbolIndexBound(lengths, sym);
      forall s | 0 <= s < sym && 1 <= lengths[s] <= MAX_LENGTH
        ensures SymbolIndex(lengths, s) != i
      {
        SymbolIndexInjective(lengths, s, sym);
      }
      symbols[i] := sym;
    }

    method FillFast(lengths: Lengths)
      requires Shaped() && CountsMatch(lengths) && Sorted(lengths, |lengths|)
      requires ValidLengths(lengths) && |lengths| <= MAX_SYMBOLS
      modifies fast
      ensures FastHolds(fast[..], lengths, MAX_LENGTH + 1, 0)
    {
      for i := 0 to fast.Length
        invariant forall x :: 0 <= x < i ==> fast[x] == 0
      {
        fast[i] := 0;
      }
      FastEmpty(fast[..], lengths);
      hide FastHolds, ValidLengths;
      var code, offs := 0, 0;
      for l := 1 to MAX_LENGTH + 1
        invariant code == NextCode(lengths, l) && offs == Offset(lengths, l)
        invariant FastHolds(fast[..], lengths, l, 0)
      {
        var n := counts[l];
        if l <= FAST_BITS {
          FillLength(lengths, l, n, code, offs);
        } else {
          FastLong(fast[..], lengths, l);
        }
        code := code + n;
        code := 2 * code;
        offs := offs + n;
      }
    }

    /** Enters the n codewords of l bits, starting with `code`. */
    method FillLength(ghost lengths: Lengths, l: nat, n: nat, code: nat, offs: nat)
      requires Shaped() && Sorted(lengths, |lengths|) && ValidLengths(lengths) && |lengths| <= MAX_SYMBOLS
      requires 1 <= l <= FAST_BITS && n == Count(lengths, l)
      requires code == NextCode(lengths, l) && offs == Offset(lengths, l)
      requires FastHolds(fast[..], lengths, l, 0)
      modifies fast
      ensures FastHolds(fast[..], lengths, l + 1, 0)
    {
      hide FastHolds, ValidLengths, NextCode, Offset, Count;
      for i := 0 to n
        invariant FastHolds(fast[..], lengths, l, i)
      {
        ghost var before := fast[..];
        var sym := SortedSymbol(lengths, l, i, offs);
        EnterCodeword(sym, code + i, l);
        FastStep(fast[..], before, lengths, l, i);
      }
      FastNextLength(fast[..], lengths, l);
    }

    /** The i-th symbol of l bits, from the sorted list. */
    method SortedSymbol(ghost lengths: Lengths, ghost l: nat, i: nat, start: nat) returns (sym: nat)
      requires Sorted(lengths, |lengths|) && 1 <= l <= MAX_LENGTH && i < Count(lengths, l)
      requires start == Offset(lengths, l)
      ensures sym == SymbolAt(lengths, l, i)
    {
      SymbolIndexBound(lengths, SymbolAt(lengths, l, i));
      assert SymbolIndex(lengths, SymbolAt(lengths, l, i)) == start + i;
      sym := symbols[start + i];
    }

    /** Writes the entry of a short codeword to every slot it is a prefix of. */
    method EnterCodeword(sym: nat, code: nat, l: nat)
      requires Shaped() && 1 <= l <= FAST_BITS && sym < MAX_SYMBOLS
      modifies fast
      ensures Filled(fast[..], old(fast[..]), l, Rev(code, l), Entry(sym, l))
    {
      var rev := ReverseBits(code, l);
      PackEntry(sym, l);
      var e := Or(sym, Shl64(l, 16));
      var fill := Shl64(1, FAST_BITS - l);
      assert Pow2(1) == 2;
      ShlFits(1, FAST_BITS - l, 1);
      ScalePow2(0, FAST_BITS - l);
      for j := 0 to fill
        invariant forall x: nat :: x < FAST_SIZE ==>
          fast[x] == if Low(x, l) == rev && Shr(x, l) < j then e else old(fast[x])
      {
        SlotNumber(l, rev, j);
        fast[Or(Shl64(j, l), rev)] := e;
      }
      forall x: nat | x < FAST_SIZE
        ensures Shr(x, l) < fill
      {
        SlotBound(l, x);
      }
    }

    /** Decodes one symbol from the register by walking the canonical tables, one bit at a time.  The
        register holds the c >= 15 bits of B at p. */
    method DecodeCanonical(bits: nat, ghost B: seq<bool>, ghost p: nat, ghost c: nat)
      returns (ok: bool, sym: nat, nbits: nat)
      requires CountsMatch(lens) && Sorted(lens, |lens|) && ValidLengths(lens)
      requires p + c <= |B| && c >= MAX_LENGTH && bits == Field(B, p, c)
      ensures ok <==> Decode(lens, B, p).Some?
      ensures ok ==> sym == Decode(lens, B, p).value && nbits == lens[sym] <= MAX_LENGTH
    {
      hide Walking, Msb, NextCode, Offset, Count, PassedBy, Decode, ValidLengths;
      var reg := bits;
      var code, first, index := 0, 0, 0;
      WalkStart(lens, B, p);
      for l := 1 to MAX_LENGTH + 1
        invariant reg == Field(B, p + l - 1, c - l + 1)
        invariant Walking(lens, B, p, l, code, first, index)
      {
        WalkStep(lens, B, p, l, code, first, index);
        var bit;
        bit, reg := TakeBit(reg, B, p + l - 1, c - l + 1);
        code := AppendBit(code, bit);
        var count := counts[l];
        var i := code - first;
        if i < count {
          WalkFinds(lens, B, p, l, i);
          sym := SortedSymbol(lens, l, i, index);
          return true, sym, l;
        }
        index := index + count;
        first := first + count;
        first := 2 * first;
        code := 2 * code;
      }
      WalkEnd(lens, B, p, MAX_LENGTH + 1, code, first, index);
      return false, 0, 0;
    }

    /** Decodes one symbol from the register: the direct-lookup table first, the canonical walk where
        it has no entry. */
    method DecodeRegister(bits: nat, ghost B: seq<bool>, ghost p: nat, ghost c: nat)
      returns (ok: bool, sym: nat, nbits: nat)
      requires Valid() && p + c <= |B| && c >= MAX_LENGTH && bits == Field(B, p, c)
      ensures ok <==> Decode(lens, B, p).Some?
      ensures ok ==> sym == Decode(lens, B, p).value && nbits == lens[sym] <= MAX_LENGTH
    {
      FieldSplit(B, p, FAST_BITS, c);
      FastDecodes(fast[..], lens, B, p);
      var e := fast[Low(bits, FAST_BITS)];
      if e != 0 {
        return true, Low(e, 16), Shr(e, 16);
      }
      ok, sym, nbits := DecodeCanonical(bits, B, p, c);
    }
  }

  // ---- the register against the stream ----

  /** Takes the lowest bit out of a register that holds the n bits of B at p. */
  method TakeBit(reg: nat, ghost B: seq<bool>, ghost p: nat, ghost n: nat) returns (bit: nat, rest: nat)
    requires n > 0 && p + n <= |B| && reg == Field(B, p, n)
    ensures bit == if B[p] then 1 else 0
    ensures rest == Field(B, p + 1, n - 1)
  {
    FieldSplit(B, p, 1, n);
    assert Field(B, p, 1) == if B[p] then 1 else 0;
    bit, rest := Low(reg, 1), Shr(reg, 1);
  }

  /** Sets the free lowest bit of a codeword prefix. */
  method AppendBit(code: nat, bit: nat) returns (r: nat)
    requires code % 2 == 0 && bit < 2
    ensures r == code + bit
  {
    assert Pow2(1) == 2;
    assert Scale(code / 2, 1) == 2 * Scale(code / 2, 0);
    OrDisjoint(bit, code / 2, 1);
    r := Or(code, bit);
  }

  /** The state of the canonical walk before it takes the bit that completes prefixes of length l. */
  ghost predicate Walking(lens: Lengths, B: seq<bool>, p: nat, l: nat, code: nat, first: nat, index: nat) {
    && 1 <= l && p + l - 1 <= |B| && PassedBy(lens, B, p, l - 1)
    && code == 2 * Msb(B, p, l - 1) && first == NextCode(lens, l) && index == Offset(lens, l)
  }

  lemma WalkStart(lens: Lengths, B: seq<bool>, p: nat)
    requires p <= |B|
    ensures Walking(lens, B, p, 1, 0, 0, 0)
  {}

  /** Where the walk has been through all lengths, or the bits have run out, nothing comes next. */
  lemma WalkEnd(lens: Lengths, B: seq<bool>, p: nat, l: nat, code: nat, first: nat, index: nat)
    requires ValidLengths(lens) && Walking(lens, B, p, l, code, first, index)
    requires p + l - 1 == |B| || l == MAX_LENGTH + 1
    ensures Decode(lens, B, p) == None
  {
    WalkFails(lens, B, p, l - 1);
  }

  /** One step of the walk: the prefix of length l is not below the first codeword of that length, and
      unless it is one of those codewords the walk goes on. */
  lemma WalkStep(lens: Lengths, B: seq<bool>, p: nat, l: nat, code: nat, first: nat, index: nat)
    requires Walking(lens, B, p, l, code, first, index) && p + l <= |B|
    ensures code % 2 == 0 && code + (if B[p + l - 1] then 1 else 0) == Msb(B, p, l) >= first == NextCode(lens, l)
    ensures index == Offset(lens, l)
    ensures Msb(B, p, l) - first >= Count(lens, l) ==>
              Walking(lens, B, p, l + 1, 2 * Msb(B, p, l), 2 * (first + Count(lens, l)), index + Count(lens, l))
  {
  }

  // ---- table slots ----

  /** The slots whose low l bits are rev are j << l | rev for j below 2^(10-l). */
  lemma SlotNumber(l: nat, rev: nat, j: nat)
    requires 1 <= l <= FAST_BITS && rev < Pow2(l) && j < Pow2(FAST_BITS - l)
    ensures var x := Or(Shl64(j, l), rev);
            x < FAST_SIZE && Low(x, l) == rev && Shr(x, l) == j
            && forall y: nat :: Low(y, l) == rev && Shr(y, l) == j ==> y == x
  {
    Pow2Ten();
    ShlFits(j, l, FAST_BITS - l);
    OrDisjoint(rev, j, l);
    LowShrUnique(rev, j, l);
    ScaleMonotone(j, Pow2(FAST_BITS - l), l);
    ScalePow2(FAST_BITS - l, l);
    forall y: nat | Low(y, l) == rev && Shr(y, l) == j
      ensures y == rev + Scale(j, l)
    {
      LowShr(y, l);
    }
  }

  lemma SlotBound(l: nat, x: nat)
    requires 1 <= l <= FAST_BITS && x < FAST_SIZE
    ensures Shr(x, l) < Pow2(FAST_BITS - l)
  {
    Pow2Ten();
    LowShr(x, l);
    ScaleMonotone(Pow2(FAST_BITS - l), Shr(x, l), l);
    ScalePow2(FAST_BITS - l, l);
  }
}
