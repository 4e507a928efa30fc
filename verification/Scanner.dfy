/** The deflate scanner: decodes a raw deflate stream block by block, reporting block boundaries and
    handing the output to a sink.  Each of its decoders is proved to do what `Inflate` says. */
module Scanners {
  import opened Bits
  import opened Huffman
  import opened HuffmanTables
  import opened Inflate
  import opened CodeTables
  import opened BitInput
  import opened Output
  import opened Checkpoints
  import opened Restart
  import opened Lookahead

  /** Which codes the literal and distance tables hold. */
  datatype TableKind = NoTables | FixedTables | DynamicTables

  /** What one decoded group of a compressed block asks for. */
  datatype Action = Refuse | Put(b: byte) | Stop | Copy(distance: nat, length: nat)

  function ActionOf(s: Step): Action {
    match s
    case Bad => Refuse
    case Literal(_, b) => Put(b)
    case EndOfBlock(_) => Stop
    case Match(_, d, n) => Copy(d, n)
  }

  // ---- what a step of the reference decoder is, case by case ----

  lemma StepOfSymbol(lit: Lengths, dist: Lengths, B: seq<bool>, p: nat, s: nat)
    requires Decode(lit, B, p) == Some(s)
    ensures s < 256 ==> NextStep(lit, dist, B, p) == Literal(p + lit[s], s)
    ensures s == 256 ==> NextStep(lit, dist, B, p) == EndOfBlock(p + lit[s])
    ensures s > 256 ==> NextStep(lit, dist, B, p) == MatchStep(dist, B, p + lit[s], s - 257)
  {}

  lemma StepOfNoSymbol(lit: Lengths, dist: Lengths, B: seq<bool>, p: nat)
    requires Decode(lit, B, p) == None
    ensures NextStep(lit, dist, B, p) == Bad
  {}

  lemma MatchOfLength(dist: Lengths, B: seq<bool>, p: nat, i: nat)
    requires i < LENGTH_CODES
    ensures var e := LengthExtra(i);
            && (p + e > |B| ==> MatchStep(dist, B, p, i) == Bad)
            && (p + e <= |B| ==>
                  && MatchStep(dist, B, p, i) == DistanceStep(dist, B, p + e, LengthBase(i) + Field(B, p, e))
                  && 3 <= LengthBase(i) + Field(B, p, e) <= MATCH_MAX)
  {
    hide DistanceStep;
    if p + LengthExtra(i) <= |B| {
      LengthInRange(i, Field(B, p, LengthExtra(i)));
    }
  }

  lemma DistanceOfSymbol(dist: Lengths, B: seq<bool>, p: nat, length: nat, d: nat)
    requires Decode(dist, B, p) == Some(d) && d < DISTANCE_CODES
    ensures var q, e := p + dist[d], DistanceExtra(d);
            && (q + e > |B| ==> DistanceStep(dist, B, p, length) == Bad)
            && (q + e <= |B| ==>
                  DistanceStep(dist, B, p, length) == Match(q + e, DistanceBase(d) + Field(B, q, e), length))
  {
    hide Field, Decode, DistanceBase, DistanceExtra;
  }

  class Scanner {
    const bits: BitReader
    const out: OutBuffer
    const lit: HuffmanTable
    const dist: HuffmanTable
    const clTable: HuffmanTable
    var tableKind: TableKind

    constructor (bits: BitReader, sink: Recorder)
      requires bits.Valid() && sink.Valid() && sink.got == []
      ensures Valid() && out.Out() == [] && this.bits == bits && out.sink == sink
      ensures fresh(out) && fresh(out.buf) && fresh(Footprint(lit) + Footprint(dist) + Footprint(clTable))
    {
      hide HuffmanTable.Valid, BitReader.At, OutBuffer.Out, Recorder.Valid;
      this.bits := bits;
      out := new OutBuffer(sink);
      lit := new HuffmanTable();
      dist := new HuffmanTable();
      clTable := new HuffmanTable();
      tableKind := NoTables;
    }

    /** The symbol loop's decoding of one group from the register: a literal, the end of the block, or
        a whole match.  No refill is needed inside the group. */
    method DecodeGroup(bb0: nat, bc0: nat, ghost B: seq<bool>, ghost p: nat)
      returns (a: Action, bb: nat, bc: nat, ghost q: nat)
      requires Ready() && Register(B, p, bb0, bc0) && bc0 >= GROUP_BITS
      ensures a == ActionOf(NextStep(lit.lens, dist.lens, B, p))
      ensures p <= q && q + bc == p + bc0 && Register(B, q, bb, bc)
      ensures a != Refuse ==> q == NextStep(lit.lens, dist.lens, B, p).next
    {
      hide Decode, NextStep, MatchStep, Field, HuffmanTable.Valid;
      bb, bc, q := bb0, bc0, p;
      var ok, sym, nb := lit.DecodeRegister(bb, B, q, bc);
      if !ok {
        StepOfNoSymbol(lit.lens, dist.lens, B, p);
        return Refuse, bb, bc, q;
      }
      StepOfSymbol(lit.lens, dist.lens, B, p, sym);
      bb, bc, q := DropRegister(bb, bc, nb, B, q);
      if sym < 256 {
        return Put(sym), bb, bc, q;
      }
      if sym == 256 {
        return Stop, bb, bc, q;
      }
      a, bb, bc, q := DecodeMatch(sym - 257, bb, bc, B, q);
    }

    /** The part of the group after the length symbol. */
    method DecodeMatch(idx: nat, bb0: nat, bc0: nat, ghost B: seq<bool>, ghost p: nat)
      returns (a: Action, bb: nat, bc: nat, ghost q: nat)
      requires dist.Valid() && Register(B, p, bb0, bc0) && bc0 >= 33
      ensures a == ActionOf(MatchStep(dist.lens, B, p, idx))
      ensures p <= q && q + bc == p + bc0 && Register(B, q, bb, bc)
      ensures a != Refuse ==> q == MatchStep(dist.lens, B, p, idx).next
    {
      hide Decode, MatchStep, DistanceStep, Field, HuffmanTable.Valid, LengthBase, DistanceBase;
      bb, bc, q := bb0, bc0, p;
      if idx >= LENGTH_CODES {
        NoSuchLength(dist.lens, B, p, idx);
        return Refuse, bb, bc, q;
      }
      var length, ne := LengthCode(idx);
      MatchOfLength(dist.lens, B, p, idx);
      RegisterDrop(B, q, bb, bc, ne);
      length := length + Low(bb, ne);
      bb, bc, q := DropRegister(bb, bc, ne, B, q);
      ghost var r := q;

      var ok, dsym, nb := dist.DecodeRegister(bb, B, q, bc);
      if !ok {
        NoSuchDistance(dist.lens, B, r, length);
        return Refuse, bb, bc, q;
      }
      if dsym >= DISTANCE_CODES {
        NoSuchDistance(dist.lens, B, r, length);
        return Refuse, bb, bc, q;
      }
      DistanceOfSymbol(dist.lens, B, r, length, dsym);
      bb, bc, q := DropRegister(bb, bc, nb, B, q);
      var distance, de := DistanceCode(dsym);
      RegisterDrop(B, q, bb, bc, de);
      distance := distance + Low(bb, de);
      bb, bc, q := DropRegister(bb, bc, de, B, q);
      a := Copy(distance, length);
    }

    /** The tail's decoding of one group, with helpers that read on as needed. */
    method TailGroup() returns (a: Action)
      requires bits.Valid() && Ready()
      modifies bits
      ensures bits.Valid()
      ensures a == ActionOf(NextStep(lit.lens, dist.lens, bits.B, old(bits.totalBits)))
      ensures a != Refuse ==> bits.totalBits == NextStep(lit.lens, dist.lens, bits.B, old(bits.totalBits)).next
    {
      hide Decode, NextStep, MatchStep, BitReader.Valid, HuffmanTable.Valid;
      ghost var p := bits.totalBits;
      var ok, sym := bits.DecodeSymbol(lit);
      if !ok {
        StepOfNoSymbol(lit.lens, dist.lens, bits.B, p);
        return Refuse;
      }
      StepOfSymbol(lit.lens, dist.lens, bits.B, p, sym);
      if sym < 256 {
        return Put(sym);
      }
      if sym == 256 {
        return Stop;
      }
      a := TailMatch(sym - 257);
    }

    method TailMatch(idx: nat) returns (a: Action)
      requires bits.Valid() && dist.Valid()
      modifies bits
      ensures bits.Valid()
      ensures a == ActionOf(MatchStep(dist.lens, bits.B, old(bits.totalBits), idx))
      ensures a != Refuse ==> bits.totalBits == MatchStep(dist.lens, bits.B, old(bits.totalBits), idx).next
    {
      hide Decode, MatchStep, DistanceStep, BitReader.Valid, HuffmanTable.Valid, LengthBase, DistanceBase;
      ghost var p := bits.totalBits;
      if idx >= LENGTH_CODES {
        NoSuchLength(dist.lens, bits.B, p, idx);
        return Refuse;
      }
      var length, ne := LengthCode(idx);
      MatchOfLength(dist.lens, bits.B, p, idx);
      var ok, v := bits.ReadBits(ne);
      if !ok {
        return Refuse;
      }
      length := length + v;
      ghost var r := bits.totalBits;
      var dsym;
      ok, dsym := bits.DecodeSymbol(dist);
      if !ok {
        NoSuchDistance(dist.lens, bits.B, r, length);
        return Refuse;
      }
      if dsym >= DISTANCE_CODES {
        NoSuchDistance(dist.lens, bits.B, r, length);
        return Refuse;
      }
      DistanceOfSymbol(dist.lens, bits.B, r, length, dsym);
      var distance, de := DistanceCode(dsym);
      ok, v := bits.ReadBits(de);
      if !ok {
        return Refuse;
      }
      a := Copy(distance + v, length);
    }

    // ---- the symbols of a block ----

    /** The buffer and the tables are different objects. */
    ghost predicate Apart()
      reads this, out, lit, dist, clTable
    {
      && lit.Shaped() && dist.Shaped() && clTable.Shaped()
      && Footprint(lit) !! Footprint(dist) !! Footprint(clTable)
      && out.buf !in Footprint(lit) && out.buf !in Footprint(dist) && out.buf !in Footprint(clTable)
    }

    /** The scanner can decode symbols: both tables are built and the output is in order. */
    ghost predicate Ready()
      reads this, out, out.sink, lit, dist, clTable
      reads lit.fast, lit.counts, lit.symbols, dist.fast, dist.counts, dist.symbols
    {
      out.Valid() && Apart() && lit.Valid() && dist.Valid()
    }

    /** What the symbol loop does with a literal or a match: one capacity check, then straight into the
        buffer. */
    method EmitHot(a: Action) returns (ok: bool)
      requires Ready() && (a.Put? || (a.Copy? && 1 <= a.distance <= MAX_WINDOW && a.length <= MATCH_MAX))
      modifies out, out.buf, out.sink
      ensures Ready()
      ensures out.buf == old(out.buf) || fresh(out.buf)
      ensures Points(out.sink.cands) == old(Points(out.sink.cands))
      ensures ok <==> Emits(a, old(OutSoFar()))
      ensures ok ==> OutSoFar() == Emitted(a, old(OutSoFar()))
    {
      hide HuffmanTable.Valid, OutBuffer.Out, OutBuffer.Valid, Points, CopyBytes;
      if a.Put? {
        out.HotLiteral(a.b);
        ok := true;
      } else {
        ok := out.HotMatch(a.distance, a.length);
      }
    }

    /** What the tail does with it: flush afterwards, grow the buffer if need be. */
    method EmitTail(a: Action) returns (ok: bool)
      requires Ready() && (a.Put? || (a.Copy? && 1 <= a.distance <= MAX_WINDOW && a.length <= MATCH_MAX))
      modifies out, out.buf, out.sink
      ensures Ready()
      ensures out.buf == old(out.buf) || fresh(out.buf)
      ensures Points(out.sink.cands) == old(Points(out.sink.cands))
      ensures ok <==> Emits(a, old(OutSoFar()))
      ensures ok ==> OutSoFar() == Emitted(a, old(OutSoFar()))
    {
      hide HuffmanTable.Valid, OutBuffer.Out, OutBuffer.Valid, Points, CopyBytes;
      if a.Put? {
        out.AppendOut([a.b]);
        ok := true;
      } else {
        ok := out.CopyMatch(a.distance, a.length);
      }
    }

    /** One group of the hot loop: taking it from the register leaves the buffer where it is. */
    method NextGroup(bb0: nat, bc0: nat, ghost at: nat, ghost p: nat)
      returns (a: Action, bb: nat, bc: nat, ghost q: nat)
      requires bits.At(p, bb0, bc0, at) && Ready() && bc0 >= GROUP_BITS
      ensures bits.At(q, bb, bc, at) && q + bc == p + bc0
      ensures a == ActionOf(NextStep(lit.lens, dist.lens, bits.B, p))
      ensures a != Refuse ==> q == NextStep(lit.lens, dist.lens, bits.B, p).next
    {
      hide NextStep, Ready, Register, BitReader.Feeds;
      a, bb, bc, q := DecodeGroup(bb0, bc0, bits.B, p);
    }

    /** Decodes the symbols of one compressed block: the hot loop, which keeps the register in locals
        and hands over to the tail, in the middle of the block, when the stream runs short. */
    method HuffmanBlock() returns (ok: bool)
      requires bits.Valid() && Ready()
      modifies bits, out, out.buf, out.sink
      ensures bits.Valid() && Ready()
      ensures out.buf == old(out.buf) || fresh(out.buf)
      ensures Points(out.sink.cands) == old(Points(out.sink.cands))
      ensures var r := Symbols(lit.lens, dist.lens, bits.B, old(bits.totalBits), old(OutSoFar()));
              && (ok <==> r.Done?)
              && (ok ==> bits.totalBits == r.pos && OutSoFar() == r.out)
    {
      hide NextStep, ActionOf, Ready, BitReader.At, OutBuffer.Out, Points, Emits, Emitted;
      var bb, bc, at := bits.bitBuf, bits.bitCnt, bits.inPos;
      var bias, loaded: nat := bits.totalBits + bits.bitCnt, 0;
      ghost var p := bits.totalBits;
      ghost var r := Symbols(lit.lens, dist.lens, bits.B, p, OutSoFar());
      while true
        invariant bits.At(p, bb, bc, at) && bias + 8 * loaded - bc == p
        invariant Ready()
        invariant out.buf == old(out.buf) || fresh(out.buf)
        invariant Points(out.sink.cands) == old(Points(out.sink.cands))
        invariant r == Symbols(lit.lens, dist.lens, bits.B, p, OutSoFar())
        decreases |bits.B| - p
      {
        ok, bb, bc, at, loaded := bits.RefillGroup(bb, bc, at, bias, loaded, p);
        if !ok {
          ok := HuffmanBlockTail();
          return;
        }
        var a;
        SymbolsStep(lit.lens, dist.lens, bits.B, p, OutSoFar());
        a, bb, bc, p := NextGroup(bb, bc, at, p);
        if a.Refuse? {
          bits.Sync(bb, bc, at, bias, loaded, p);
          return false;
        }
        if a.Stop? {
          bits.Sync(bb, bc, at, bias, loaded, p);
          return true;
        }
        ok := EmitHot(a);
        if !ok {
          bits.Sync(bb, bc, at, bias, loaded, p);
          return false;
        }
      }
    }

    ghost function OutSoFar(): seq<byte>
      requires Ready()
      reads this, out, out.sink, lit, dist, clTable, out.buf
      reads lit.fast, lit.counts, lit.symbols, dist.fast, dist.counts, dist.symbols
    {
      out.Out()
    }

    /** Finishes a compressed block whose input ran short. */
    method HuffmanBlockTail() returns (ok: bool)
      requires bits.Valid() && Ready()
      modifies bits, out, out.buf, out.sink
      ensures bits.Valid() && Ready()
      ensures out.buf == old(out.buf) || fresh(out.buf)
      ensures Points(out.sink.cands) == old(Points(out.sink.cands))
      ensures var r := Symbols(lit.lens, dist.lens, bits.B, old(bits.totalBits), old(OutSoFar()));
              && (ok <==> r.Done?)
              && (ok ==> bits.totalBits == r.pos && OutSoFar() == r.out)
    {
      hide NextStep, ActionOf, Ready, BitReader.At, OutBuffer.Out, Points, Emits, Emitted;
      ghost var r := Symbols(lit.lens, dist.lens, bits.B, bits.totalBits, OutSoFar());
      while true
        invariant bits.Valid()
        invariant Ready()
        invariant out.buf == old(out.buf) || fresh(out.buf)
        invariant Points(out.sink.cands) == old(Points(out.sink.cands))
        invariant r == Symbols(lit.lens, dist.lens, bits.B, bits.totalBits, OutSoFar())
        decreases |bits.B| - bits.totalBits
      {
        SymbolsStep(lit.lens, dist.lens, bits.B, bits.totalBits, OutSoFar());
        var a := TailGroup();
        if a.Refuse? {
          return false;
        }
        if a.Stop? {
          return true;
        }
        ok := EmitTail(a);
        if !ok {
          return false;
        }
      }
    }

    // ---- stored blocks ----

    method StoredBlock() returns (ok: bool)
      requires bits.Valid() && out.Valid()
      modifies bits, out, out.buf, out.sink
      ensures bits.Valid() && out.Valid()
      ensures out.buf == old(out.buf) || fresh(out.buf)
      ensures Points(out.sink.cands) == old(Points(out.sink.cands))
      ensures var r := Stored(bits.B, old(bits.totalBits), old(out.Out()));
              && (ok <==> r.Done?)
              && (ok ==> bits.totalBits == r.pos && out.Out() == r.out)
    {
      hide OutBuffer.Out, OutBuffer.Valid, BitReader.At, Points, StreamBits, Field, Stored, BytesAt;
      ghost var p, before := bits.totalBits, out.Out();
      StoredParts(bits.B, p, before);
      bits.AlignToByte();
      AlignUpUnique(p, bits.totalBits);
      var length, nlength;
      ok, length := bits.ReadBits(16);
      if !ok {
        return;
      }
      ok, nlength := bits.ReadBits(16);
      if !ok {
        return;
      }
      if length != 65535 - nlength {
        return false;
      }
      ghost var i := bits.totalBits / 8;
      bits.Accounted();
      ok := CopyStored(length, i);
      if ok {
        BytesOfData(bits.data, i, length);
        SomeBytesAt(i, bits.data[i..i + length]);
      }
    }

    /** Copies the bytes of a stored block: what the register holds first, then in bulk. */
    method CopyStored(length: nat, ghost i: nat) returns (ok: bool)
      requires bits.Valid() && out.Valid() && bits.totalBits == 8 * i
      modifies bits, out, out.buf, out.sink
      ensures bits.Valid() && out.Valid()
      ensures out.buf == old(out.buf) || fresh(out.buf)
      ensures Points(out.sink.cands) == old(Points(out.sink.cands))
      ensures ok <==> i + length <= |bits.data|
      ensures ok ==> bits.totalBits == 8 * (i + length)
      ensures ok ==> out.Out() == old(out.Out()) + BytesAt(i, length)
    {
      hide OutBuffer.Out, OutBuffer.Valid, Points, BitReader.At, BytesAt;
      ghost var before := out.Out();
      var remaining;
      ghost var n;
      remaining, n := DrainRegister(length, i);
      ok := CopyBulk(remaining, i + n);
      if ok {
        BytesAtSplit(before, i, n, remaining);
      }
    }

    /** The n bytes of the compressed stream from byte i. */
    ghost function BytesAt(i: nat, n: nat): seq<byte> {
      if i + n <= |bits.data| then bits.data[i..i + n] else []
    }

    lemma BytesAtSplit(before: seq<byte>, i: nat, m: nat, n: nat)
      requires i + m + n <= |bits.data|
      ensures before + BytesAt(i, m) + BytesAt(i + m, n) == before + BytesAt(i, m + n)
    {
      SlicesJoin(bits.data, i, i + m, i + m + n);
    }

    lemma NoBytes(before: seq<byte>, i: nat)
      ensures before == before + BytesAt(i, 0)
    {}

    lemma SomeBytesAt(i: nat, chunk: seq<byte>)
      requires i + |chunk| <= |bits.data| && chunk == bits.data[i..i + |chunk|]
      ensures BytesAt(i, |chunk|) == chunk
    {}

    lemma OneByteAt(i: nat, b: byte)
      requires i < |bits.data| && b == bits.data[i]
      ensures BytesAt(i, 1) == [b]
    {}

    /** Puts out the whole bytes the register holds, n of them. */
    method DrainRegister(max: nat, ghost i: nat) returns (left: nat, ghost n: nat)
      requires bits.Valid() && out.Valid() && bits.totalBits == 8 * i
      modifies bits, out, out.buf, out.sink
      ensures bits.Valid() && out.Valid()
      ensures out.buf == old(out.buf) || fresh(out.buf)
      ensures Points(out.sink.cands) == old(Points(out.sink.cands))
      ensures n + left == max && (left > 0 ==> bits.bitCnt == 0)
      ensures bits.totalBits == 8 * (i + n) && i + n <= |bits.data|
      ensures out.Out() == old(out.Out()) + BytesAt(i, n)
    {
      hide OutBuffer.Out, OutBuffer.Valid, Points, BitReader.At, BytesAt;
      left, n := max, 0;
      ghost var before := out.Out();
      NoBytes(before, i);
      ghost var m := bits.WholeBytes(i);
      while left > 0 && bits.bitCnt >= 8
        invariant n + left == max && bits.Valid() && out.Valid()
        invariant bits.bitCnt == 8 * m && i + n + m <= |bits.data|
        invariant out.buf == old(out.buf) || fresh(out.buf)
        invariant Points(out.sink.cands) == old(Points(out.sink.cands))
        invariant bits.totalBits == 8 * (i + n) && i + n <= |bits.data|
        invariant out.Out() == before + BytesAt(i, n)
      {
        var b := bits.TakeByte(i + n);
        out.AppendOut([b]);
        OneByteAt(i + n, b);
        BytesAtSplit(before, i, n, 1);
        left, n, m := left - 1, n + 1, m - 1;
      }
    }

    /** Puts out bytes straight from the input buffer. */
    method CopyBulk(max: nat, ghost i: nat) returns (ok: bool)
      requires bits.Valid() && out.Valid() && bits.totalBits == 8 * i && (max > 0 ==> bits.bitCnt == 0)
      modifies bits, out, out.buf, out.sink
      ensures bits.Valid() && out.Valid()
      ensures out.buf == old(out.buf) || fresh(out.buf)
      ensures Points(out.sink.cands) == old(Points(out.sink.cands))
      ensures ok <==> i + max <= |bits.data|
      ensures ok ==> bits.totalBits == 8 * (i + max)
      ensures ok ==> out.Out() == old(out.Out()) + BytesAt(i, max)
    {
      hide OutBuffer.Out, OutBuffer.Valid, Points, BitReader.At, BytesAt;
      var left: nat := max;
      ghost var before, n: nat := out.Out(), 0;
      NoBytes(before, i);
      ghost var m := bits.WholeBytes(i);
      while left > 0
        invariant n + left == max && bits.Valid() && out.Valid()
        invariant left > 0 ==> bits.bitCnt == 0
        invariant out.buf == old(out.buf) || fresh(out.buf)
        invariant Points(out.sink.cands) == old(Points(out.sink.cands))
        invariant bits.totalBits == 8 * (i + n) && i + n <= |bits.data|
        invariant out.Out() == before + BytesAt(i, n)
      {
        var chunk;
        ok, chunk := bits.TakeChunk(left, i + n);
        if !ok {
          return;
        }
        out.AppendOut(chunk);
        SomeBytesAt(i + n, chunk);
        BytesAtSplit(before, i, n, |chunk|);
        left, n := left - |chunk|, n + |chunk|;
      }
      ok := true;
    }

    // ---- the codes of a block ----

    /** The tables' symbol lists are those of an earlier state or new ones. */
    twostate predicate TablesKept()
      reads this, lit, dist, clTable
    {
      && (lit.symbols == old(lit.symbols) || fresh(lit.symbols))
      && (dist.symbols == old(dist.symbols) || fresh(dist.symbols))
      && (clTable.symbols == old(clTable.symbols) || fresh(clTable.symbols))
    }

    /** Builds the tables of the fixed codes. */
    method BuildFixed() returns (ok: bool)
      requires Apart()
      modifies Footprint(lit), Footprint(dist)
      ensures TablesKept()
      ensures ok && Apart() && lit.Valid() && dist.Valid()
      ensures lit.lens == FixedLiteralLengths() && dist.lens == FixedDistanceLengths()
    {
      hide HuffmanTable.Valid, ValidLengths, FixedLiteralLengths, FixedDistanceLengths;
      FixedCodesAreValid();
      var l := FixedLiterals();
      var d := FixedDistances();
      ok := BuildTables(l, d);
    }

    /** The lengths of the code length code, listed in the order of the header. */
    method ReadCodeLengthCode(ncode: nat, l0: Local, ghost p: nat)
      returns (ok: bool, lens: Lengths, l: Local, ghost q: nat)
      requires bits.Holds(l0, p) && p <= |bits.B| && ncode <= CODE_LENGTH_CODES
      modifies bits
      ensures bits.Holds(l, q)
      ensures ok <==> p + 3 * ncode <= |bits.B|
      ensures ok ==> q == p + 3 * ncode && lens == CodeLengthLengths(bits.B, p, ncode)
    {
      hide BitReader.At, Field, CodeLengthOrder;
      lens, l, q := seq(CODE_LENGTH_CODES, _ => 0), l0, p;
      for i := 0 to ncode
        invariant bits.Holds(l, q) && q == p + 3 * i <= |bits.B|
        invariant lens == CodeLengthLengths(bits.B, p, i)
      {
        var v;
        ok, v, l := bits.ReadLocal(3, l, q);
        if !ok {
          return;
        }
        q := q + 3;
        OrderTable(i);
        lens := lens[CODE_LENGTH_ORDER[i] := v];
      }
      ok := true;
    }

    method AppendRun(acc0: Lengths, v: nat, n: nat) returns (acc: Lengths)
      ensures acc == acc0 + Repeated(v, n)
    {
      acc := acc0;
      for i := 0 to n
        invariant acc == acc0 + Repeated(v, i)
      {
        acc := acc + [v];
      }
    }

    /** The run-length coded lengths of both codes. */
    method ReadCodeLengths(total: nat, l0: Local, ghost p: nat)
      returns (ok: bool, lengths: Lengths, l: Local, ghost q: nat)
      requires bits.Holds(l0, p) && clTable.Valid()
      modifies bits
      ensures bits.Holds(l, q)
      ensures var r := CodeLengths(clTable.lens, total, bits.B, p, [], LOOKAHEAD);
              && (ok <==> r.LengthList?)
              && (ok ==> lengths == r.lens && q == r.next)
    {
      hide BitReader.At, Field, Decode, HuffmanTable.Valid, Repeated;
      lengths, l, q := [], l0, p;
      ghost var cl := clTable.lens;
      ghost var r := CodeLengths(cl, total, bits.B, p, [], LOOKAHEAD);
      while |lengths| < total
        invariant bits.Holds(l, q) && clTable.Valid() && clTable.lens == cl
        invariant |lengths| <= total
        invariant r == CodeLengths(cl, total, bits.B, q, lengths, LOOKAHEAD)
        decreases |bits.B| - q
      {
        ghost var at := q;
        var sym;
        ok, sym, l, q := bits.DecodeLocal(clTable, l, q);
        if !ok {
          return;
        }
        if sym < 16 {
          lengths := lengths + [sym];
        } else {
          if sym == 16 && |lengths| == 0 {
            return false, lengths, l, q;
          }
          var rep;
          ok, rep, l := bits.ReadLocal(RepeatExtra(sym), l, q);
          if !ok {
            return;
          }
          q := q + RepeatExtra(sym);
          var last := if sym == 16 then lengths[|lengths| - 1] else 0;
          lengths := AppendRun(lengths, last, rep + RepeatBase(sym));
        }
        if |lengths| > total {
          return false, lengths, l, q;
        }
      }
      ok := true;
    }

    /** Parses the header of a dynamic block and builds its tables. */
    method DynamicBlock() returns (ok: bool)
      requires bits.Valid() && Apart()
      modifies bits, Footprint(lit), Footprint(dist), Footprint(clTable)
      ensures TablesKept()
      ensures bits.Valid() && Apart()
      ensures var h := DynamicHeader(bits.B, old(bits.totalBits), LOOKAHEAD);
              && (ok <==> h.Header?)
              && (ok ==> bits.totalBits == h.next && lit.Valid() && dist.Valid())
              && (ok ==> lit.lens == h.lit && dist.lens == h.dist)
    {
      hide BitReader.At, Field, DynamicLengths, HuffmanTable.Valid;
      ghost var p := bits.totalBits;
      var l := Local(bits.bitBuf, bits.bitCnt, bits.inPos, 0);
      var hlit, hdist, hclen;
      ok, hlit, l := bits.ReadLocal(5, l, p);
      if !ok {
        bits.SyncLocal(l, p);
        return;
      }
      ok, hdist, l := bits.ReadLocal(5, l, p + 5);
      if !ok {
        bits.SyncLocal(l, p + 5);
        return;
      }
      ok, hclen, l := bits.ReadLocal(4, l, p + 10);
      if !ok {
        bits.SyncLocal(l, p + 10);
        return;
      }
      SmallPowers();
      ok := ReadTables(257 + hlit, 1 + hdist, 4 + hclen, l, p + 14);
    }

    method ReadTables(nlit: nat, ndist: nat, ncode: nat, l0: Local, ghost p: nat) returns (ok: bool)
      requires bits.Holds(l0, p) && p <= |bits.B| && Apart()
      requires nlit + ndist <= MAX_SYMBOLS && ncode <= CODE_LENGTH_CODES
      modifies bits, Footprint(lit), Footprint(dist), Footprint(clTable)
      ensures TablesKept()
      ensures bits.Valid() && Apart()
      ensures var h := DynamicLengths(bits.B, p, nlit, ndist, ncode, LOOKAHEAD);
              && (ok <==> h.Header?)
              && (ok ==> bits.totalBits == h.next && lit.Valid() && dist.Valid())
              && (ok ==> lit.lens == h.lit && dist.lens == h.dist)
    {
      hide BitReader.At, HuffmanTable.Valid, ValidLengths, CodeLengthLengths, CodeLengths, Apart;
      var cl, l;
      ghost var q;
      ok, cl, l, q := ReadCodeLengthCode(ncode, l0, p);
      if !ok {
        bits.SyncLocal(l, q);
        return;
      }
      ok := BuildClTable(cl);
      if !ok {
        bits.SyncLocal(l, q);
        return;
      }
      var lengths;
      ok, lengths, l, q := ReadCodeLengths(nlit + ndist, l, q);
      bits.SyncLocal(l, q);
      if !ok {
        return;
      }
      ok := BuildTables(lengths[..nlit], lengths[nlit..]);
    }

    method BuildTables(l: Lengths, d: Lengths) returns (ok: bool)
      requires Apart() && |l| <= MAX_SYMBOLS && |d| <= MAX_SYMBOLS
      modifies Footprint(lit), Footprint(dist)
      ensures TablesKept()
      ensures Apart()
      ensures ok <==> ValidLengths(l) && ValidLengths(d)
      ensures ok ==> lit.Valid() && dist.Valid() && lit.lens == l && dist.lens == d
    {
      hide HuffmanTable.Valid, ValidLengths;
      ok := lit.Build(l);
      if !ok {
        return;
      }
      ok := dist.Build(d);
    }

    method BuildClTable(cl: Lengths) returns (ok: bool)
      requires Apart() && |cl| <= MAX_SYMBOLS
      modifies Footprint(clTable)
      ensures TablesKept()
      ensures Apart() && Footprint(lit) == old(Footprint(lit)) && Footprint(dist) == old(Footprint(dist))
      ensures ok <==> ValidLengths(cl)
      ensures ok ==> clTable.Valid() && clTable.lens == cl
    {
      hide HuffmanTable.Valid, ValidLengths;
      ok := clTable.Build(cl);
    }

    // ---- blocks ----

    ghost predicate Valid()
      reads this, bits, out, out.sink, lit, dist, clTable
      reads lit.fast, lit.counts, lit.symbols, dist.fast, dist.counts, dist.symbols
    {
      bits.Valid() && out.Valid() && Apart() && FixedInPlace()
    }

    /** The tables hold the fixed codes whenever the scanner believes so. */
    ghost predicate FixedInPlace()
      reads this, lit, dist
      reads lit.fast, lit.counts, lit.symbols, dist.fast, dist.counts, dist.symbols
    {
      tableKind == FixedTables ==>
        && lit.Valid() && dist.Valid()
        && lit.lens == FixedLiteralLengths() && dist.lens == FixedDistanceLengths()
    }

    /** One block, whatever its type, with the tables that belong to it. */
    method Block(kind: nat) returns (ok: bool)
      requires Valid()
      modifies this`tableKind, bits, out, out.buf, out.sink, Footprint(lit), Footprint(dist), Footprint(clTable)
      ensures TablesKept()
      ensures out.Valid() && Points(out.sink.cands) == old(Points(out.sink.cands))
      ensures out.buf == old(out.buf) || fresh(out.buf)
      ensures var r := BlockBody(kind, bits.B, old(bits.totalBits), old(out.Out()), LOOKAHEAD);
              && (ok <==> r.Done?)
              && (ok ==> Valid() && bits.totalBits == r.pos && out.Out() == r.out)
    {
      hide BitReader.At, OutBuffer.Out, OutBuffer.Valid, HuffmanTable.Valid, Points, Stored, DynamicHeader, NextStep;
      hide FixedLiteralLengths, FixedDistanceLengths;
      if kind == 0 {
        ok := StoredBlock();
      } else if kind == 1 {
        ok := FixedBlock();
      } else if kind == 2 {
        ok := DynamicThenSymbols();
      } else {
        ok := false;
      }
    }

    method DynamicThenSymbols() returns (ok: bool)
      requires Valid()
      modifies this`tableKind, bits, out, out.buf, out.sink, Footprint(lit), Footprint(dist), Footprint(clTable)
      ensures TablesKept()
      ensures out.Valid() && Points(out.sink.cands) == old(Points(out.sink.cands))
      ensures out.buf == old(out.buf) || fresh(out.buf)
      ensures var h := DynamicHeader(bits.B, old(bits.totalBits), LOOKAHEAD);
              && (ok ==> Valid() && h.Header?)
              && (h.Header? ==>
                    var r := Symbols(h.lit, h.dist, bits.B, h.next, old(out.Out()));
                    (ok <==> r.Done?) && (ok ==> bits.totalBits == r.pos && out.Out() == r.out))
    {
      hide BitReader.At, OutBuffer.Out, OutBuffer.Valid, HuffmanTable.Valid, Points, DynamicHeader, Symbols;
      hide FixedLiteralLengths, FixedDistanceLengths;
      ok := DynamicBlock();
      if !ok {
        return;
      }
      tableKind := DynamicTables;
      ok := HuffmanBlock();
    }

    method FixedBlock() returns (ok: bool)
      requires Valid()
      modifies this`tableKind, bits, out, out.buf, out.sink, Footprint(lit), Footprint(dist)
      ensures TablesKept()
      ensures Valid() && Points(out.sink.cands) == old(Points(out.sink.cands))
      ensures out.buf == old(out.buf) || fresh(out.buf)
      ensures var l, d := FixedLiteralLengths(), FixedDistanceLengths();
              var r := Symbols(l, d, bits.B, old(bits.totalBits), old(out.Out()));
              && (ok <==> r.Done?)
              && (ok ==> bits.totalBits == r.pos && out.Out() == r.out)
    {
      hide BitReader.At, OutBuffer.Out, OutBuffer.Valid, HuffmanTable.Valid, Points, Symbols;
      hide FixedLiteralLengths, FixedDistanceLengths;
      if tableKind != FixedTables {
        ok := BuildFixed();
        tableKind := FixedTables;
      }
      ok := HuffmanBlock();
    }

    // ---- the whole stream ----

    /** Where the scan stands and what it has put out decode on to the same result as the start. */
    ghost predicate OnCourse()
      requires out.Valid()
      reads this, bits, out, out.sink, out.buf
    {
      Blocks(bits.B, bits.totalBits, out.Out(), LOOKAHEAD) == Blocks(bits.B, 0, [], LOOKAHEAD)
    }

    /** What has been recorded so far, and what is still to come, is what the whole stream has recorded. */
    ghost predicate Charted()
      requires out.Valid()
      reads this, bits, out, out.sink, out.buf
    {
      Marks(bits.B, bits.totalBits, out.Out(), Points(out.sink.cands), out.sink.spacing)
      == Marks(bits.B, 0, [], [], out.sink.spacing)
    }

    /** Reports the block boundary the scan stands at. */
    method ReportBlock()
      requires Valid() && OnCourse() && MarksHold(bits.B, Points(out.sink.cands), out.Out())
      modifies out.sink
      ensures Valid() && OnCourse() && MarksHold(bits.B, Points(out.sink.cands), out.Out())
      ensures out.Out() == old(out.Out())
      ensures Points(out.sink.cands)
              == Marked(old(Points(out.sink.cands)), bits.totalBits, |out.Out()|, Window(out.Out()), out.sink.spacing)
    {
      hide Blocks, BitReader.At, HuffmanTable.Valid, Apart, FixedInPlace, MarksHold, Points, Window, Marked;
      hide OutBuffer.Valid, OutBuffer.Out;
      ghost var before := Points(out.sink.cands);
      bits.Accounted();
      RecordPoint();
      MarkedOrNot(before, bits.totalBits, out.Out(), out.sink.spacing);
      NewMark(bits.B, before, Points(out.sink.cands), bits.totalBits, out.Out());
    }

    method RecordPoint()
      requires bits.Valid() && out.Valid()
      modifies out.sink
      ensures out.Valid() && out.Out() == old(out.Out())
      ensures Points(out.sink.cands)
              == Marked(old(Points(out.sink.cands)), bits.totalBits, |out.Out()|, Window(out.Out()), out.sink.spacing)
    {
      hide BitReader.At, Points, Window, Marked, Recorder.Valid;
      var w := out.WindowBefore(out.OutOff());
      out.sink.OnBlock(bits.totalBits, out.OutOff(), w);
    }

    /** Reports and decodes one block; `final` tells whether it was marked as the last. */
    method NextBlock() returns (ok: bool, final: bool)
      requires Valid() && OnCourse() && MarksHold(bits.B, Points(out.sink.cands), out.Out()) && Charted()
      modifies this`tableKind, bits, out, out.buf, out.sink, Footprint(lit), Footprint(dist), Footprint(clTable)
      ensures TablesKept()
      ensures out.Valid()
      ensures out.buf == old(out.buf) || fresh(out.buf)
      ensures ok && !final ==> Charted()
      ensures ok && final ==> Points(out.sink.cands) == Marks(bits.B, 0, [], [], out.sink.spacing)
      ensures var r := Blocks(bits.B, 0, [], LOOKAHEAD);
              && (!ok ==> r.Fail?)
              && (ok && final ==> r == Done(bits.totalBits, out.Out()))
      ensures ok ==> Valid() && MarksHold(bits.B, Points(out.sink.cands), out.Out())
      ensures ok ==> old(bits.totalBits) < bits.totalBits <= |bits.B|
      ensures ok && !final ==> OnCourse()
    {
      hide Blocks, BlockBody, BitReader.At, OutBuffer.Out, OutBuffer.Valid, HuffmanTable.Valid;
      hide Apart, Points, MarksHold;
      hide FixedInPlace, Marks, Marked;
      ghost var points := Points(out.sink.cands);
      ReportBlock();
      ghost var p, o := bits.totalBits, out.Out();
      final := false;
      StreamTooShort(bits.B, p, o);
      var bit, btype;
      ok, bit := bits.ReadBits(1);
      if !ok {
        return;
      }
      ok, btype := bits.ReadBits(2);
      if !ok {
        return;
      }
      final := bit == 1;
      BlocksStep(bits.B, p, o);
      MarksStep(bits.B, p, o, points, out.sink.spacing);
      ok := Block(btype);
      if ok {
        MarksGrow(bits.B, Points(out.sink.cands), o, out.Out());
      }
    }

    /** Decodes the whole stream, block by block. */
    method Scan() returns (ok: bool)
      requires Valid() && bits.totalBits == 0 && out.Out() == [] && out.sink.cands == []
      modifies this`tableKind, bits, out, out.buf, out.sink, Footprint(lit), Footprint(dist), Footprint(clTable)
      ensures out.Valid()
      ensures var r := Blocks(bits.B, 0, [], LOOKAHEAD);
              && (ok <==> r.Done?)
              && (ok ==> bits.totalBits == r.pos && out.Out() == r.out)
              && (ok ==> MarksHold(bits.B, Points(out.sink.cands), r.out))
      ensures ok ==> Points(out.sink.cands) == Marks(bits.B, 0, [], [], out.sink.spacing)
    {
      NoMarks(bits.B, out.sink.cands);
      hide Blocks, BitReader.At, OutBuffer.Out, OutBuffer.Valid, Apart, FixedInPlace, Points, MarksHold, Marks;
      while true
        invariant Valid() && OnCourse()
        invariant out.buf == old(out.buf) || fresh(out.buf)
        invariant TablesKept()
        invariant MarksHold(bits.B, Points(out.sink.cands), out.Out()) && Charted()
        decreases |bits.B| - bits.totalBits
      {
        var final;
        ok, final := NextBlock();
        if !ok || final {
          return;
        }
      }
    }

    /** Decodes the whole stream and hands all output to the sink; total is its length. */
    method Finish() returns (ok: bool, total: nat)
      requires Valid() && bits.totalBits == 0 && out.Out() == [] && out.sink.cands == []
      modifies this`tableKind, bits, out, out.buf, out.sink, Footprint(lit), Footprint(dist), Footprint(clTable)
      ensures var r := Blocks(bits.B, 0, [], LOOKAHEAD);
              && (ok <==> r.Done?)
              && (ok ==> out.sink.Valid() && out.sink.got == r.out && total == |r.out|)
              && (ok ==> MarksHold(bits.B, Points(out.sink.cands), r.out))
      ensures ok ==> Points(out.sink.cands) == Marks(bits.B, 0, [], [], out.sink.spacing)
    {
      hide Blocks, BitReader.At, MarksHold, Points, Marks;
      total := 0;
      ok := Scan();
      if ok {
        total := out.OutOff();
        out.Drain();
      }
    }
  }

  /** A recorded restart point is a byte-aligned block boundary from which decoding gives the rest of the
      stream, recorded with the last 32 KiB before it. */
  ghost predicate MarkHolds(B: seq<bool>, m: Point, out: seq<byte>) {
    && m.outPos <= |out| && m.bitPos % 8 == 0 && m.bitPos <= |B|
    && m.window == Window(out[..m.outPos])
    && Blocks(B, m.bitPos, out[..m.outPos], LOOKAHEAD) == Blocks(B, 0, [], LOOKAHEAD)
  }

  ghost predicate MarksHold(B: seq<bool>, marks: seq<Point>, out: seq<byte>) {
    forall i :: 0 <= i < |marks| ==> MarkHolds(B, marks[i], out)
  }

  lemma NoMarks(B: seq<bool>, cands: seq<Candidate>)
    requires cands == []
    ensures MarksHold(B, Points(cands), []) && Points(cands) == []
  {}

  lemma MarkedOrNot(points: seq<Point>, p: nat, out: seq<byte>, spacing: nat)
    ensures var now := Marked(points, p, |out|, Window(out), spacing);
            now == points || (p % 8 == 0 && now == points + [Point(p, |out|, Window(out))])
  {}

  /** The restart points of a stream from a block boundary on, after the ones there are. */
  ghost function Marks(B: seq<bool>, p: nat, out: seq<byte>, points: seq<Point>, spacing: nat): seq<Point>
    decreases |B| - p
  {
    var now := Marked(points, p, |out|, Window(out), spacing);
    if p + 3 > |B| then now
    else
      var r := BlockBody(Field(B, p + 1, 2), B, p + 3, out, LOOKAHEAD);
      if r.Fail? || B[p] || r.pos <= p then now else Marks(B, r.pos, r.out, now, spacing)
  }

  lemma MarksStep(B: seq<bool>, p: nat, out: seq<byte>, points: seq<Point>, spacing: nat)
    requires p + 3 <= |B|
    ensures var r := BlockBody(Field(B, p + 1, 2), B, p + 3, out, LOOKAHEAD);
            var now := Marked(points, p, |out|, Window(out), spacing);
            Marks(B, p, out, points, spacing)
            == if r.Fail? || B[p] then now else Marks(B, r.pos, r.out, now, spacing)
  {
    hide BlockBody, Marked;
  }

  /** The block boundaries of a stream from one on: the bit, and how much output comes before it. */
  ghost function Boundaries(B: seq<bool>, p: nat, out: seq<byte>): seq<(nat, nat)>
    decreases |B| - p
  {
    if p + 3 > |B| then [(p, |out|)]
    else
      var r := BlockBody(Field(B, p + 1, 2), B, p + 3, out, LOOKAHEAD);
      if r.Fail? || B[p] || r.pos <= p then [(p, |out|)] else [(p, |out|)] + Boundaries(B, r.pos, r.out)
  }

  /** Byte-aligned boundaries, the first no earlier than one spacing in, each no less than one after the last. */
  ghost predicate Aligned(points: seq<Point>, spacing: nat) {
    && (forall k :: 0 <= k < |points| ==> points[k].bitPos % 8 == 0 && points[k].outPos >= spacing)
    && forall j, k :: 0 <= j < k < |points| ==> points[k].outPos >= points[j].outPos + spacing
  }

  /** No restart point is missing near there: one lies before it by less than the spacing, or it is near the start. */
  ghost predicate Covered(points: seq<Point>, outPos: nat, spacing: nat) {
    outPos < spacing || exists k :: 0 <= k < |points| && points[k].outPos <= outPos < points[k].outPos + spacing
  }

  lemma MarkedOnce(points: seq<Point>, bitPos: nat, outPos: nat, window: seq<byte>, spacing: nat)
    requires Aligned(points, spacing) && spacing > 0 && forall k :: 0 <= k < |points| ==> points[k].outPos <= outPos
    ensures var now := Marked(points, bitPos, outPos, window, spacing);
            && Aligned(now, spacing) && points <= now && (bitPos % 8 == 0 ==> Covered(now, outPos, spacing))
            && forall k :: 0 <= k < |now| ==> now[k].outPos <= outPos
  {
    var now := Marked(points, bitPos, outPos, window, spacing);
    if bitPos % 8 == 0 && outPos >= spacing {
      var k := |now| - 1;
      assert now[k].outPos <= outPos < now[k].outPos + spacing;
    }
  }

  /** The restart points recorded are byte-aligned and spaced, and no byte-aligned boundary is passed over that is
      far enough from the last one. */
  lemma {:induction false} MarksSpaced(
    B: seq<bool>, p: nat, out: seq<byte>, points: seq<Point>, spacing: nat, i: nat)
    requires Aligned(points, spacing) && spacing > 0 && forall k :: 0 <= k < |points| ==> points[k].outPos <= |out|
    requires i < |Boundaries(B, p, out)|
    ensures var all, b := Marks(B, p, out, points, spacing), Boundaries(B, p, out)[i];
            Aligned(all, spacing) && points <= all && (b.0 % 8 == 0 ==> Covered(all, b.1, spacing))
    decreases |B| - p
  {
    hide BlockBody, Marked, Aligned, Covered;
    MarkedOnce(points, p, |out|, Window(out), spacing);
    var now := Marked(points, p, |out|, Window(out), spacing);
    if p + 3 <= |B| {
      var r := BlockBody(Field(B, p + 1, 2), B, p + 3, out, LOOKAHEAD);
      if !r.Fail? && !B[p] && r.pos > p {
        OutputGrows(out, r.out, now);
        MarksSpaced(B, r.pos, r.out, now, spacing, if i == 0 then 0 else i - 1);
        if p % 8 == 0 {
          CoveredMore(now, Marks(B, r.pos, r.out, now, spacing), |out|, spacing);
        }
      }
    }
  }

  lemma OutputGrows(out: seq<byte>, more: seq<byte>, points: seq<Point>)
    requires out <= more && forall k :: 0 <= k < |points| ==> points[k].outPos <= |out|
    ensures forall k :: 0 <= k < |points| ==> points[k].outPos <= |more|
  {}

  lemma CoveredMore(points: seq<Point>, more: seq<Point>, outPos: nat, spacing: nat)
    requires points <= more && Covered(points, outPos, spacing)
    ensures Covered(more, outPos, spacing)
  {
    if outPos >= spacing {
      var k :| 0 <= k < |points| && points[k].outPos <= outPos < points[k].outPos + spacing;
      assert more[k] == points[k];
    }
  }

  lemma MarksGrow(B: seq<bool>, marks: seq<Point>, out: seq<byte>, more: seq<byte>)
    requires MarksHold(B, marks, out) && out <= more
    ensures MarksHold(B, marks, more)
  {
    hide Blocks;
    forall i | 0 <= i < |marks|
      ensures MarkHolds(B, marks[i], more)
    {
      assert MarkHolds(B, marks[i], out);
      assert more[..marks[i].outPos] == out[..marks[i].outPos];
    }
  }

  lemma NewMark(B: seq<bool>, before: seq<Point>, after: seq<Point>, p: nat, out: seq<byte>)
    requires MarksHold(B, before, out)
    requires Blocks(B, p, out, LOOKAHEAD) == Blocks(B, 0, [], LOOKAHEAD) && p <= |B|
    requires after == before || (p % 8 == 0 && after == before + [Point(p, |out|, Window(out))])
    ensures MarksHold(B, after, out)
  {
    hide Blocks;
    assert out[..|out|] == out;
    forall i | 0 <= i < |after|
      ensures MarkHolds(B, after[i], out)
    {
      if i < |before| {
        assert MarkHolds(B, before[i], out);
      }
    }
  }

  lemma StreamTooShort(B: seq<bool>, p: nat, out: seq<byte>)
    ensures p + 3 > |B| ==> Blocks(B, p, out, LOOKAHEAD) == Fail
  {}

  lemma BlocksStep(B: seq<bool>, p: nat, out: seq<byte>)
    requires p + 3 <= |B|
    ensures Field(B, p, 1) == if B[p] then 1 else 0
    ensures var r := BlockBody(Field(B, p + 1, 2), B, p + 3, out, LOOKAHEAD);
            && Blocks(B, p, out, LOOKAHEAD) ==
                 (if r.Fail? then Fail else if B[p] then r else Blocks(B, r.pos, r.out, LOOKAHEAD))
            && (r.Done? ==> p + 3 < r.pos <= |B| && out <= r.out)
  {
    hide BlockBody;
  }

  /** The lengths of the fixed literal code, as the scanner lists them. */
  method FixedLiterals() returns (lens: Lengths)
    ensures lens == FixedLiteralLengths()
  {
    var a := new nat[FIXED_LITERALS](_ => 0);
    for i := 0 to 144
      invariant forall k :: 0 <= k < i ==> a[k] == 8
    {
      a[i] := 8;
    }
    for i := 144 to 256
      invariant forall k :: 0 <= k < i ==> a[k] == if k < 144 then 8 else 9
    {
      a[i] := 9;
    }
    for i := 256 to 280
      invariant forall k :: 0 <= k < i ==> a[k] == if k < 144 then 8 else if k < 256 then 9 else 7
    {
      a[i] := 7;
    }
    for i := 280 to 288
      invariant forall k :: 0 <= k < i ==> a[k] == FixedLiteralLengths()[k]
    {
      a[i] := 8;
    }
    lens := a[..];
  }

  method FixedDistances() returns (lens: Lengths)
    ensures lens == FixedDistanceLengths()
  {
    var a := new nat[FIXED_DISTANCES](_ => 0);
    for i := 0 to a.Length
      invariant forall k :: 0 <= k < i ==> a[k] == 5
    {
      a[i] := 5;
    }
    lens := a[..];
  }

  /** Codeword space taken by the first k fixed literal lengths. */
  function FixedKraft(k: nat): nat {
    if k <= 144 then 128 * k
    else if k <= 256 then 128 * 144 + 64 * (k - 144)
    else if k <= 280 then 128 * 144 + 64 * 112 + 256 * (k - 256)
    else 128 * 144 + 64 * 112 + 256 * 24 + 128 * (k - 280)
  }

  lemma {:induction false} FixedLiteralsKraft(k: nat)
    requires k <= FIXED_LITERALS
    ensures Kraft(FixedLiteralLengths()[..k]) == FixedKraft(k)
  {
    var lens := FixedLiteralLengths();
    if k > 0 {
      FixedLiteralsKraft(k - 1);
      assert lens[..k][..k - 1] == lens[..k - 1];
      SmallPowers();
    }
  }

  lemma {:induction false} FixedDistancesKraft(k: nat)
    requires k <= FIXED_DISTANCES
    ensures Kraft(FixedDistanceLengths()[..k]) == 1024 * k
  {
    var lens := FixedDistanceLengths();
    if k > 0 {
      FixedDistancesKraft(k - 1);
      assert lens[..k][..k - 1] == lens[..k - 1];
      SmallPowers();
    }
  }

  /** The fixed literal code takes the whole codeword space, the fixed distance code nearly all. */
  lemma FixedCodesAreValid()
    ensures ValidLengths(FixedLiteralLengths()) && ValidLengths(FixedDistanceLengths())
    ensures Kraft(FixedLiteralLengths()) == Pow2(MAX_LENGTH)
  {
    FixedLiteralsKraft(FIXED_LITERALS);
    FixedDistancesKraft(FIXED_DISTANCES);
    assert FixedLiteralLengths()[..FIXED_LITERALS] == FixedLiteralLengths();
    assert FixedDistanceLengths()[..FIXED_DISTANCES] == FixedDistanceLengths();
    SmallPowers();
    assert Pow2(15) == 4 * Pow2(13);
  }

  ghost function Footprint(h: HuffmanTable): set<object>
    reads h
  {
    {h, h.fast, h.counts, h.symbols}
  }

  /** A literal can always be put out, a match when it reaches back no further than the output. */
  predicate Emits(a: Action, out: seq<byte>) {
    a.Put? || (a.Copy? && 1 <= a.distance <= |out|)
  }

  function Emitted(a: Action, out: seq<byte>): seq<byte>
    requires Emits(a, out)
  {
    if a.Put? then out + [a.b] else CopyBytes(out, a.distance, a.length)
  }

  /** One step of the reference decoder in terms of the action it takes. */
  lemma SymbolsStep(lit: Lengths, dist: Lengths, B: seq<bool>, p: nat, out: seq<byte>)
    ensures var r, step := Symbols(lit, dist, B, p, out), NextStep(lit, dist, B, p);
            var a := ActionOf(step);
            && (a.Refuse? ==> r == Fail)
            && (a.Stop? ==> r == Done(step.next, out))
            && (a.Copy? ==> 1 <= a.distance <= MAX_WINDOW && a.length <= MATCH_MAX)
            && (a.Put? || a.Copy? ==>
                  r == if Emits(a, out) then Symbols(lit, dist, B, step.next, Emitted(a, out)) else Fail)
            && (!a.Refuse? ==> p < step.next <= |B|)
  {
    hide NextStep;
  }

  lemma SlicesJoin(data: seq<byte>, i: nat, j: nat, k: nat)
    requires i <= j <= k <= |data|
    ensures data[i..j] + data[j..k] == data[i..k]
  {}

  lemma StoredParts(B: seq<bool>, p: nat, out: seq<byte>)
    ensures var r, q := Stored(B, p, out), AlignUp(p);
            && (q + 32 > |B| ==> r == Fail)
            && (q + 32 <= |B| ==>
                  var len, nlen := Field(B, q, 16), Field(B, q + 16, 16);
                  && len < 65536 && nlen < 65536
                  && (len != 65535 - nlen || q + 32 + 8 * len > |B| ==> r == Fail)
                  && (len == 65535 - nlen && q + 32 + 8 * len <= |B| ==>
                        r == Done(q + 32 + 8 * len, out + Bytes(B, q + 32, len))))
  {
    hide AlignUp, Field, Bytes;
    Pow2Of16();
  }

  lemma AlignUpUnique(p: nat, q: nat)
    requires p <= q < p + 8 && q % 8 == 0
    ensures AlignUp(p) == q
  {}

  lemma {:induction false} BytesOfData(data: seq<byte>, i: nat, n: nat)
    requires i + n <= |data|
    ensures Bytes(StreamBits(data), 8 * i, n) == data[i..i + n]
  {
    if n > 0 {
      BytesOfData(data, i, n - 1);
      StreamByte(data, i + n - 1);
      SlicesJoin(data, i, i + n - 1, i + n);
      assert 8 * i + 8 * (n - 1) == 8 * (i + n - 1);
    }
  }

  lemma NoSuchLength(dist: Lengths, B: seq<bool>, p: nat, i: nat)
    requires i >= LENGTH_CODES
    ensures MatchStep(dist, B, p, i) == Bad
  {}

  lemma NoSuchDistance(dist: Lengths, B: seq<bool>, p: nat, length: nat)
    requires Decode(dist, B, p).Some? ==> Decode(dist, B, p).value >= DISTANCE_CODES
    ensures DistanceStep(dist, B, p, length) == Bad
  {}

  /** Drops n bits from a register held in locals. */
  method DropRegister(bb0: nat, bc0: nat, n: nat, ghost B: seq<bool>, ghost p: nat)
    returns (bb: nat, bc: nat, ghost q: nat)
    requires Register(B, p, bb0, bc0) && n <= bc0
    ensures q == p + n && bc == bc0 - n && Register(B, q, bb, bc)
  {
    RegisterDrop(B, p, bb0, bc0, n);
    bb, bc, q := Shr(bb0, n), bc0 - n, p + n;
  }
}
