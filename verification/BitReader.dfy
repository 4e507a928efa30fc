/** The bit input of the scanner: a 64-bit register filled from a byte buffer, which is filled from a
    reader that delivers the compressed stream in pieces of any size. */
module BitInput {
  import opened Bits
  import opened Huffman
  import opened HuffmanTables

  /** The register bb holds the bc bits of B at p, and nothing above them. */
  ghost predicate Register(B: seq<bool>, p: nat, bb: nat, bc: nat) {
    bc <= 64 && p + bc <= |B| && bb == Field(B, p, bc)
  }

  // ---- what the register operations do to it ----

  /** Dropping the n lowest bits. */
  lemma RegisterDrop(B: seq<bool>, p: nat, bb: nat, bc: nat, n: nat)
    requires Register(B, p, bb, bc) && n <= bc
    ensures Register(B, p + n, Shr(bb, n), bc - n) && Low(bb, n) == Field(B, p, n)
  {
    FieldSplit(B, p, n, bc);
  }

  /** Or-ing in a word of n bytes above the bits held, where there is room for all of it. */
  lemma RegisterLoad(data: seq<byte>, p: nat, bb: nat, bc: nat, i: nat, n: nat)
    requires Register(StreamBits(data), p, bb, bc) && p + bc == 8 * i && i + n <= |data| && bc + 8 * n <= 64
    ensures Register(StreamBits(data), p, Or(bb, Shl64(LittleEndian(data[i..i + n]), bc)), bc + 8 * n)
  {
    hide Scale, Pow2, Field, Shl64, Or, LittleEndian;
    var B, w := StreamBits(data), LittleEndian(data[i..i + n]);
    LittleEndianField(data, i, n);
    ShlFits(w, bc, 8 * n);
    OrDisjoint(bb, w, bc);
    FieldConcat(B, p, bc, 8 * n);
  }

  /** Or-ing in a word of 8 bytes that does not fit, then masking off what was not taken. */
  lemma RegisterLoadPart(data: seq<byte>, p: nat, bb: nat, bc: nat, i: nat, k: nat)
    requires Register(StreamBits(data), p, bb, bc) && p + bc == 8 * i && i + 8 <= |data| && bc + 8 * k <= 64
    ensures var word := Or(bb, Shl64(LittleEndian(data[i..i + 8]), bc));
            Register(StreamBits(data), p, Low(word, bc + 8 * k), bc + 8 * k)
  {
    hide Low, Shr, Scale, Pow2, Field, Shl64, Or, LittleEndian;
    var B, w := StreamBits(data), LittleEndian(data[i..i + 8]);
    LittleEndianField(data, i, 8);
    ShlLoses(w, bc);
    FieldSplit(B, p + bc, 64 - bc, 64);
    OrDisjoint(bb, Low(w, 64 - bc), bc);
    FieldConcat(B, p, bc, 64 - bc);
    FieldSplit(B, p, bc + 8 * k, 64);
  }

  /** A shift keeps the bits that stay below the top. */
  lemma ShlLoses(x: nat, n: nat)
    requires n <= 64
    ensures Shl64(x, n) == Scale(Low(x, 64 - n), n)
  {
    hide Low, Shr, Scale, Pow2;
    var low, high := Low(x, 64 - n), Shr(x, 64 - n);
    LowShr(x, 64 - n);
    ScaleAdd(low, Scale(high, 64 - n), n);
    ScaleTwice(high, 64 - n, n);
    Scale64(high);
    ScaleMonotone(low, Pow2(64 - n), n);
    ScalePow2(64 - n, n);
    Pow2Of64();
  }

  lemma FieldOfOne(B: seq<bool>, p: nat)
    requires p < |B|
    ensures Field(B, p, 1) == if B[p] then 1 else 0
  {}

  lemma OneByteWord(data: seq<byte>, i: nat)
    requires i < |data|
    ensures LittleEndian(data[i..i + 1]) == data[i]
  {
    assert data[i..i + 1][1..] == [];
  }

  /** The share of the register the symbol loop keeps filled: enough for a length code, its extra bits,
      a distance code and its extra bits. */
  const GROUP_BITS := 48

  /** Local copies of the register, the buffer position and the bits consumed meanwhile. */
  datatype Local = Local(bb: nat, bc: nat, at: nat, tb: nat)

  class BitReader {
    /** The whole compressed stream, and its bits. */
    ghost const data: seq<byte>
    ghost const B: seq<bool>

    /** What the reader has not delivered yet; empty from the start for a stream in memory. */
    var rest: seq<byte>
    /** The bytes in the input buffer, and how many of them have been taken. */
    var input: seq<byte>
    var inPos: nat
    /** The bit register and how many bits it holds. */
    var bitBuf: nat
    var bitCnt: nat
    /** Bits consumed from the stream. */
    var totalBits: nat

    /** A stream that a reader delivers. */
    constructor FromReader(stream: seq<byte>)
      ensures Valid() && totalBits == 0 && data == stream
    {
      data, B := stream, StreamBits(stream);
      rest, input, inPos := stream, [], 0;
      bitBuf, bitCnt, totalBits := 0, 0, 0;
    }

    /** A stream that is in memory already. */
    constructor FromMemory(stream: seq<byte>)
      ensures Valid() && totalBits == 0 && data == stream
    {
      data, B := stream, StreamBits(stream);
      rest, input, inPos := [], stream, 0;
      bitBuf, bitCnt, totalBits := 0, 0, 0;
    }

    /** The buffer from `at` on and what the reader still has are the stream from byte i on. */
    ghost predicate Feeds(at: nat, i: nat)
      reads this`rest, this`input
    {
      at <= |input| && i <= |data| && input[at..] + rest == data[i..]
    }

    /** At bit p of the stream, with bb, bc and `at` in the roles of the three fields: the register
        holds the next bits, whole bytes have been pulled, and the next byte to pull comes next. */
    ghost predicate At(p: nat, bb: nat, bc: nat, at: nat)
      reads this`rest, this`input
    {
      && B == StreamBits(data)
      && Register(B, p, bb, bc)
      && (p + bc) % 8 == 0
      && Feeds(at, (p + bc) / 8)
    }

    ghost predicate Valid()
      reads this
    {
      At(totalBits, bitBuf, bitCnt, inPos)
    }

    /** The bit accounting: consumed bits and bits held are the whole bytes pulled from the stream. */
    lemma Accounted()
      requires Valid()
      ensures (totalBits + bitCnt) % 8 == 0 && totalBits + bitCnt <= |B| == 8 * |data| && B == StreamBits(data)
      ensures bitBuf == Field(B, totalBits, bitCnt)
    {}

    /** Makes sure the input buffer is not drained; fails at the end of the stream. */
    method Refill(ghost i: nat) returns (ok: bool)
      requires Feeds(inPos, i)
      modifies this`rest, this`input, this`inPos
      ensures Feeds(inPos, i)
      ensures ok <==> i < |data|
      ensures ok ==> inPos < |input| && input[inPos] == data[i]
    {
      if inPos < |input| {
        assert data[i..][0] == input[inPos];
        return true;
      }
      inPos, input := 0, [];
      if rest == [] {
        return false;
      }
      var n: nat :| 0 < n <= |rest|;
      assert data[i..][0] == rest[0];
      input, rest := rest[..n], rest[n..];
      return true;
    }

    lemma FeedsStep(at: nat, i: nat, n: nat)
      requires Feeds(at, i) && at + n <= |input|
      ensures Feeds(at + n, i + n) && data[i..i + n] == input[at..at + n]
    {
      var all := input[at..] + rest;
      assert all[n..] == input[at + n..] + rest && data[i..][n..] == data[i + n..];
      assert all[..n] == input[at..at + n] && data[i..][..n] == data[i..i + n];
    }

    // ---- loads into the register ----

    method LoadByte(bb: nat, bc: nat, at: nat, ghost p: nat) returns (bb': nat, bc': nat, at': nat)
      requires At(p, bb, bc, at) && bc <= 56 && at < |input|
      ensures At(p, bb', bc', at') && bc' == bc + 8 && at' == at + 1
    {
      hide Register, LittleEndian, Shl64, Or, StreamBits;
      ghost var i := (p + bc) / 8;
      FeedsStep(at, i, 1);
      OneByteWord(data, i);
      RegisterLoad(data, p, bb, bc, i, 1);
      bb', bc', at' := Or(bb, Shl64(input[at], bc)), bc + 8, at + 1;
    }

    method LoadWord32(bb: nat, bc: nat, at: nat, ghost p: nat) returns (bb': nat, bc': nat, at': nat)
      requires At(p, bb, bc, at) && bc <= 32 && at + 4 <= |input|
      ensures At(p, bb', bc', at') && bc' == bc + 32 && at' == at + 4
    {
      hide Register, LittleEndian, Shl64, Or, StreamBits;
      ghost var i := (p + bc) / 8;
      FeedsStep(at, i, 4);
      RegisterLoad(data, p, bb, bc, i, 4);
      bb', bc', at' := Or(bb, Shl64(LittleEndian(input[at..at + 4]), bc)), bc + 32, at + 4;
    }

    /** Takes as many whole bytes of an 8-byte word as the register has room for. */
    method LoadWord64(bb: nat, bc: nat, at: nat, ghost p: nat) returns (bb': nat, bc': nat, at': nat, k: nat)
      requires At(p, bb, bc, at) && bc <= 63 && at + 8 <= |input|
      ensures k == (63 - bc) / 8 && At(p, bb', bc', at') && bc' == bc + 8 * k && at' == at + k
    {
      hide Register, LittleEndian, Shl64, Or, Low, StreamBits, Feeds;
      k := (63 - bc) / 8;
      ghost var i := (p + bc) / 8;
      FeedsStep(at, i, 8);
      FeedsStep(at, i, k);
      RegisterLoadPart(data, p, bb, bc, i, k);
      bb' := Or(bb, Shl64(LittleEndian(input[at..at + 8]), bc));
      bc', at' := bc + 8 * k, at + k;
      bb' := Low(bb', bc');
    }

    // ---- reading ----

    /** Fills the register with at least n bits, if the stream has them. */
    method FillBits(n: nat) returns (ok: bool)
      requires Valid() && n <= 57
      modifies this`rest, this`input, this`inPos, this`bitBuf, this`bitCnt
      ensures Valid()
      ensures ok <==> totalBits + n <= |B|
      ensures ok ==> bitCnt >= n
    {
      hide Field, StreamBits, Feeds;
      while bitCnt < n
        invariant Valid()
        decreases 64 - bitCnt
      {
        if bitCnt <= 32 && inPos + 4 <= |input| {
          bitBuf, bitCnt, inPos := LoadWord32(bitBuf, bitCnt, inPos, totalBits);
        } else {
          ok := Refill((totalBits + bitCnt) / 8);
          if !ok {
            return;
          }
          bitBuf, bitCnt, inPos := LoadByte(bitBuf, bitCnt, inPos, totalBits);
        }
      }
      return true;
    }

    method DropBits(n: nat)
      requires Valid() && n <= bitCnt
      modifies this`bitBuf, this`bitCnt, this`totalBits
      ensures Valid() && totalBits == old(totalBits) + n && bitCnt == old(bitCnt) - n
    {
      RegisterDrop(B, totalBits, bitBuf, bitCnt, n);
      bitBuf := Shr(bitBuf, n);
      bitCnt := bitCnt - n;
      totalBits := totalBits + n;
    }

    method ReadBits(n: nat) returns (ok: bool, v: nat)
      requires Valid() && n <= 57
      modifies this`rest, this`input, this`inPos, this`bitBuf, this`bitCnt, this`totalBits
      ensures Valid()
      ensures ok <==> old(totalBits) + n <= |B|
      ensures if ok then totalBits == old(totalBits) + n && v == Field(B, old(totalBits), n)
              else totalBits == old(totalBits)
    {
      ok := FillBits(n);
      if !ok {
        return false, 0;
      }
      RegisterDrop(B, totalBits, bitBuf, bitCnt, n);
      v := Low(bitBuf, n);
      DropBits(n);
    }

    /** Drops bits up to the next byte boundary; then the register holds whole bytes. */
    method AlignToByte()
      requires Valid()
      modifies this`bitBuf, this`bitCnt, this`totalBits
      ensures Valid() && old(totalBits) <= totalBits < old(totalBits) + 8 && totalBits % 8 == 0
      ensures bitCnt % 8 == 0
    {
      hide Field, StreamBits, Feeds;
      var rem := totalBits % 8;
      if rem != 0 {
        DropBits(8 - rem);
      }
    }

    /** Decodes one symbol where the stream may end within the lookahead: by the direct-lookup table
        if ten bits are there, bit by bit otherwise and for longer codewords. */
    method DecodeSymbol(h: HuffmanTable) returns (ok: bool, sym: nat)
      requires Valid() && h.Valid()
      modifies this`rest, this`input, this`inPos, this`bitBuf, this`bitCnt, this`totalBits
      ensures Valid()
      ensures ok <==> Decode(h.lens, B, old(totalBits)).Some?
      ensures ok ==> sym == Decode(h.lens, B, old(totalBits)).value && totalBits == old(totalBits) + h.lens[sym]
    {
      hide Decode, Register, FastHolds, ValidLengths;
      ok := FillBits(FAST_BITS);
      if ok {
        RegisterDrop(B, totalBits, bitBuf, bitCnt, FAST_BITS);
        FastDecodes(h.fast[..], h.lens, B, totalBits);
        var e := h.fast[Low(bitBuf, FAST_BITS)];
        if e != 0 {
          DropBits(Shr(e, 16));
          return true, Low(e, 16);
        }
      }
      ok, sym := DecodeSlowly(h);
    }

    /** The canonical walk, reading one bit at a time. */
    method DecodeSlowly(h: HuffmanTable) returns (ok: bool, sym: nat)
      requires Valid() && h.CountsMatch(h.lens) && h.Sorted(h.lens, |h.lens|) && ValidLengths(h.lens)
      modifies this`rest, this`input, this`inPos, this`bitBuf, this`bitCnt, this`totalBits
      ensures Valid()
      ensures ok <==> Decode(h.lens, B, old(totalBits)).Some?
      ensures ok ==> sym == Decode(h.lens, B, old(totalBits)).value && totalBits == old(totalBits) + h.lens[sym]
    {
      hide Walking, Msb, NextCode, Offset, Count, PassedBy, Decode, ValidLengths, StreamBits, Feeds;
      ghost var p := totalBits;
      var code, first, index := 0, 0, 0;
      WalkStart(h.lens, B, p);
      for l := 1 to MAX_LENGTH + 1
        invariant Valid() && totalBits == p + l - 1
        invariant Walking(h.lens, B, p, l, code, first, index)
      {
        var b;
        ok, b := ReadBits(1);
        if !ok {
          WalkEnd(h.lens, B, p, l, code, first, index);
          return false, 0;
        }
        WalkStep(h.lens, B, p, l, code, first, index);
        FieldOfOne(B, p + l - 1);
        code := AppendBit(code, b);
        var count := h.counts[l];
        var i := code - first;
        if i < count {
          WalkFinds(h.lens, B, p, l, i);
          sym := h.SortedSymbol(h.lens, l, i, index);
          return true, sym;
        }
        index := index + count;
        first := first + count;
        first := 2 * first;
        code := 2 * code;
      }
      WalkEnd(h.lens, B, p, MAX_LENGTH + 1, code, first, index);
      return false, 0;
    }

    /** At a byte boundary the register holds whole bytes. */
    lemma WholeBytes(i: nat) returns (m: nat)
      requires Valid() && totalBits == 8 * i
      ensures bitCnt == 8 * m && i + m <= |data|
    {
      m := bitCnt / 8;
    }

    /** Takes byte i of the stream out of the register. */
    method TakeByte(ghost i: nat) returns (b: byte)
      requires Valid() && bitCnt >= 8 && totalBits == 8 * i && i < |data|
      modifies this`bitBuf, this`bitCnt, this`totalBits
      ensures Valid() && totalBits == 8 * (i + 1) && b == data[i]
      ensures bitCnt == old(bitCnt) - 8
    {
      RegisterDrop(B, totalBits, bitBuf, bitCnt, 8);
      StreamByte(data, i);
      Pow2Of8();
      b := Low(bitBuf, 8);
      DropBits(8);
    }

    /** With the register empty, takes up to max bytes straight out of the input buffer. */
    method TakeChunk(max: nat, ghost i: nat) returns (ok: bool, chunk: seq<byte>)
      requires Valid() && bitCnt == 0 && totalBits == 8 * i && max > 0
      modifies this`rest, this`input, this`inPos, this`totalBits
      ensures Valid()
      ensures ok <==> i < |data|
      ensures ok ==> 0 < |chunk| <= max && totalBits == 8 * (i + |chunk|) && i + |chunk| <= |data|
      ensures ok ==> chunk == data[i..i + |chunk|]
      ensures !ok ==> totalBits == old(totalBits)
    {
      hide StreamBits;
      chunk := [];
      ok := Refill(i);
      if !ok {
        return;
      }
      var n := |input| - inPos;
      if n > max {
        n := max;
      }
      FeedsStep(inPos, i, n);
      chunk := input[inPos..inPos + n];
      inPos := inPos + n;
      totalBits := totalBits + 8 * n;
    }

    // ---- sections that keep the register in local variables ----

    /** Writes the locals of the symbol loop back: the bits consumed are those pulled into the register
        since the block started, less those still in it. */
    method Sync(bb: nat, bc: nat, at: nat, bias: nat, loaded: nat, ghost p: nat)
      requires At(p, bb, bc, at) && bias + 8 * loaded - bc == p
      modifies this`inPos, this`bitBuf, this`bitCnt, this`totalBits
      ensures Valid() && totalBits == p && bitBuf == bb && bitCnt == bc && inPos == at
    {
      totalBits := bias + 8 * loaded - bc;
      bitBuf, bitCnt, inPos := bb, bc, at;
    }

    /** The symbol loop's refill: fills the register to at least GROUP_BITS bits, in word-sized loads
        while the buffer has a word.  At the end of the stream it writes the locals back and gives up. */
    method RefillGroup(bb0: nat, bc0: nat, at0: nat, bias: nat, loaded0: nat, ghost p: nat)
      returns (ok: bool, bb: nat, bc: nat, at: nat, loaded: nat)
      requires At(p, bb0, bc0, at0) && bias + 8 * loaded0 - bc0 == p
      modifies this
      ensures At(p, bb, bc, at) && bias + 8 * loaded - bc == p
      ensures ok ==> bc >= GROUP_BITS
      ensures !ok ==> Valid() && totalBits == p
    {
      hide Field, StreamBits, Feeds;
      bb, bc, at, loaded := bb0, bc0, at0, loaded0;
      while bc < GROUP_BITS
        invariant At(p, bb, bc, at) && bias + 8 * loaded - bc == p
        decreases 64 - bc, |input| - at
      {
        if at + 8 <= |input| {
          var k;
          bb, bc, at, k := LoadWord64(bb, bc, at, p);
          loaded := loaded + k;
        } else if at < |input| {
          bb, bc, at := LoadByte(bb, bc, at, p);
          loaded := loaded + 1;
        } else {
          Sync(bb, bc, at, bias, loaded, p);
          ok := Refill((p + bc) / 8);
          if !ok {
            return false, bb, bc, inPos, loaded;
          }
          at := inPos;
          bb, bc, at := LoadByte(bb, bc, at, p);
          loaded := loaded + 1;
        }
      }
      ok := true;
    }

    /** l stands for the fields in a block header: tb bits have been consumed since they were written. */
    ghost predicate Holds(l: Local, p: nat)
      reads this
    {
      At(p, l.bb, l.bc, l.at) && totalBits + l.tb == p
    }

    method SyncLocal(l: Local, ghost p: nat)
      requires Holds(l, p)
      modifies this`inPos, this`bitBuf, this`bitCnt, this`totalBits
      ensures Valid() && totalBits == p && bitBuf == l.bb && bitCnt == l.bc && inPos == l.at
    {
      totalBits := totalBits + l.tb;
      bitBuf, bitCnt, inPos := l.bb, l.bc, l.at;
    }

    /** The header's refill, a byte at a time. */
    method FillLocal(need: nat, l0: Local, ghost p: nat) returns (ok: bool, l: Local)
      requires Holds(l0, p) && need <= 32
      modifies this
      ensures Holds(l, p)
      ensures ok <==> p + need <= |B|
      ensures ok ==> l.bc >= need
    {
      hide Field, StreamBits, Feeds;
      l := l0;
      while l.bc < need
        invariant Holds(l, p)
        decreases 64 - l.bc
      {
        if l.at >= |input| {
          SyncLocal(l, p);
          ok := Refill((p + l.bc) / 8);
          l := Local(bitBuf, bitCnt, inPos, 0);
          if !ok {
            return;
          }
        }
        var bb, bc, at := LoadByte(l.bb, l.bc, l.at, p);
        l := Local(bb, bc, at, l.tb);
      }
      return true, l;
    }

    method DropLocal(n: nat, l: Local, ghost p: nat) returns (next: Local)
      requires Holds(l, p) && n <= l.bc
      ensures Holds(next, p + n)
    {
      RegisterDrop(B, p, l.bb, l.bc, n);
      next := Local(Shr(l.bb, n), l.bc - n, l.at, l.tb + n);
    }

    method ReadLocal(n: nat, l0: Local, ghost p: nat) returns (ok: bool, v: nat, l: Local)
      requires Holds(l0, p) && n <= 32
      modifies this
      ensures ok <==> p + n <= |B|
      ensures if ok then Holds(l, p + n) && v == Field(B, p, n) else Holds(l, p)
    {
      hide Field, StreamBits, Feeds;
      ok, l := FillLocal(n, l0, p);
      if !ok {
        return false, 0, l;
      }
      RegisterDrop(B, p, l.bb, l.bc, n);
      v := Low(l.bb, n);
      l := DropLocal(n, l, p);
    }

    /** Decodes a code-length symbol; it insists on ten bits of the stream being left. */
    method DecodeLocal(h: HuffmanTable, l0: Local, ghost p: nat) returns (ok: bool, sym: nat, l: Local, ghost q: nat)
      requires Holds(l0, p) && h.Valid()
      modifies this
      ensures Holds(l, q)
      ensures ok <==> p + FAST_BITS <= |B| && Decode(h.lens, B, p).Some?
      ensures ok ==> sym == Decode(h.lens, B, p).value && q == p + h.lens[sym]
    {
      hide Decode, Field, StreamBits, Feeds, FastHolds, ValidLengths;
      ok, l := FillLocal(FAST_BITS, l0, p);
      if !ok {
        return false, 0, l, p;
      }
      RegisterDrop(B, p, l.bb, l.bc, FAST_BITS);
      FastDecodes(h.fast[..], h.lens, B, p);
      var e := h.fast[Low(l.bb, FAST_BITS)];
      if e != 0 {
        l := DropLocal(Shr(e, 16), l, p);
        return true, Low(e, 16), l, p + Shr(e, 16);
      }
      SyncLocal(l, p);
      ok, sym := DecodeSymbol(h);
      l, q := Local(bitBuf, bitCnt, inPos, 0), totalBits;
    }
  }
}
