/** Android sparse images: chunks that are stored, repeat a word or are not there, expanded to one disk. */
module SparseImages {
  import opened Bits
  import opened Gather

  const RAW := 0xCAC1
  const FILL := 0xCAC2
  const DONT_CARE := 0xCAC3
  const CRC32 := 0xCAC4

  /** A chunk header of the file, the fill word read for it, and where the file has the chunk. */
  datatype ChunkHeader = ChunkHeader(kind: nat, blocks: nat, total: nat, off: nat, word: Option<nat>)

  /** A chunk of the table, in expanded terms. */
  datatype Chunk = Chunk(out: nat, n: nat, off: nat, fill: nat, kind: nat)

  /** What a chunk reads as. */
  function SourceOf(c: Chunk): Source {
    if c.kind == RAW then File(c.off) else if c.kind == FILL then Gather.Fill(c.fill) else Nothing
  }

  function Pieces(chunks: seq<Chunk>): (r: seq<Piece>)
    ensures |r| == |chunks|
  {
    seq(|chunks|, i requires 0 <= i < |chunks| => Piece(chunks[i].n, SourceOf(chunks[i])))
  }

  /** The table tiles the disk: each chunk starts where those before it end. */
  ghost predicate Tiles(chunks: seq<Chunk>) {
    forall i :: 0 <= i < |chunks| ==> chunks[i].out == StartOf(Pieces(chunks), i)
  }

  // ---- opening ----

  predicate KnownKind(kind: nat) {
    kind == RAW || kind == FILL || kind == DONT_CARE || kind == CRC32
  }

  /** A chunk header that opening takes. */
  predicate Taken(h: ChunkHeader, header: nat) {
    KnownKind(h.kind) && h.total >= header && (h.kind == FILL ==> h.word.Some?)
  }

  /** Blocks that chunks expand to; a checksum adds nothing. */
  function Expanded(hs: seq<ChunkHeader>, block: nat): nat {
    if hs == [] then 0
    else
      var h := hs[|hs| - 1];
      Expanded(hs[..|hs| - 1], block) + if h.kind == CRC32 then 0 else h.blocks * block
  }

  lemma ExpandedNext(hs: seq<ChunkHeader>, block: nat, i: nat)
    requires i < |hs|
    ensures Expanded(hs[..0], block) == 0
    ensures Expanded(hs[..i + 1], block)
            == Expanded(hs[..i], block) + if hs[i].kind == 0xCAC4 then 0 else hs[i].blocks * block
  {
    assert hs[..i + 1][..i] == hs[..i];
  }

  /** The disk has a chunk at a place: the bytes of the file from the chunk's on, its word over and over, or zeros. */
  ghost predicate Holds(chunks: seq<Chunk>, h: ChunkHeader, at: nat, block: nat) {
    h.kind != 0xCAC4 ==>
      && at + h.blocks * block <= Total(Pieces(chunks))
      && forall file: seq<byte>, k: nat :: k < h.blocks * block ==>
           Flat(file, Pieces(chunks), at + k) == HeldByte(file, h, k)
  }

  function HeldByte(file: seq<byte>, h: ChunkHeader, k: nat): Option<byte> {
    if h.kind == 0xCAC1 then if h.off + k < |file| then Some(file[h.off + k]) else None
    else if h.kind == 0xCAC2 then
      if h.word.None? then None
      else
        var w := h.word.value;
        Some((if k % 4 == 0 then w else if k % 4 == 1 then w / 0x100 else if k % 4 == 2 then w / 0x1_0000
              else w / 0x100_0000) % 256)
    else Some(0)
  }

  lemma HoldsMore(chunks: seq<Chunk>, c: Chunk, h: ChunkHeader, at: nat, block: nat)
    requires Holds(chunks, h, at, block)
    ensures Holds(chunks + [c], h, at, block)
  {
    hide HeldByte, Flat, Total;
    assert Pieces(chunks + [c]) == Pieces(chunks) + [Piece(c.n, SourceOf(c))];
    hide Pieces, SourceOf;
    var q := Piece(c.n, SourceOf(c));
    FlatMore([], Pieces(chunks), q, 0);
    if h.kind != 0xCAC4 {
      forall file: seq<byte>, k: nat | k < h.blocks * block
        ensures Flat(file, Pieces(chunks + [c]), at + k) == HeldByte(file, h, k)
      {
        InChunk(at, k, h.blocks * block, Total(Pieces(chunks)));
        FlatMore(file, Pieces(chunks), q, at + k);
      }
    }
  }

  lemma InChunk(at: nat, k: nat, n: nat, total: nat)
    requires k < n && at + n <= total
    ensures at + k < total
  {}

  lemma HoldsLast(chunks: seq<Chunk>, c: Chunk, h: ChunkHeader, block: nat)
    requires c.n == h.blocks * block && c.kind == h.kind && (h.kind == 0xCAC1 ==> c.off == h.off)
    requires h.kind == 0xCAC2 ==> h.word == Some(c.fill)
    ensures Holds(chunks + [c], h, Total(Pieces(chunks)), block)
  {
    hide Flat, Total, ByteOf;
    var q := Piece(c.n, SourceOf(c));
    assert Pieces(chunks + [c]) == Pieces(chunks) + [q];
    hide Pieces;
    FlatMore([], Pieces(chunks), q, 0);
    forall file: seq<byte>, k: nat | k < c.n
      ensures Flat(file, Pieces(chunks + [c]), Total(Pieces(chunks)) + k) == HeldByte(file, h, k)
    {
      FlatMore(file, Pieces(chunks), q, Total(Pieces(chunks)) + k);
      HeldIs(file, c, h, k);
    }
  }

  lemma HeldIs(file: seq<byte>, c: Chunk, h: ChunkHeader, k: nat)
    requires c.kind == h.kind && (h.kind == 0xCAC1 ==> c.off == h.off) && (h.kind == 0xCAC2 ==> h.word == Some(c.fill))
    ensures ByteOf(file, SourceOf(c), k) == HeldByte(file, h, k)
  {
    FillByte(file, c.fill, k);
    hide Shr;
  }

  /** The first n headers' chunks are all held. */
  ghost predicate AllHeld(chunks: seq<Chunk>, hs: seq<ChunkHeader>, n: nat, block: nat)
    requires n <= |hs|
  {
    forall i :: 0 <= i < n ==> Holds(chunks, hs[i], Expanded(hs[..i], block), block)
  }

  lemma AllHeldMore(chunks: seq<Chunk>, c: Chunk, hs: seq<ChunkHeader>, n: nat, block: nat)
    requires n <= |hs| && AllHeld(chunks, hs, n, block)
    ensures AllHeld(chunks + [c], hs, n, block)
  {
    hide Holds, Expanded;
    forall i | 0 <= i < n
      ensures Holds(chunks + [c], hs[i], Expanded(hs[..i], block), block)
    {
      HoldsMore(chunks, c, hs[i], Expanded(hs[..i], block), block);
    }
  }

  lemma NextHeld(chunks: seq<Chunk>, hs: seq<ChunkHeader>, n: nat, block: nat)
    requires n < |hs| && AllHeld(chunks, hs, n, block)
    requires hs[n].kind != 0xCAC4 ==> Holds(chunks, hs[n], Expanded(hs[..n], block), block)
    ensures AllHeld(chunks, hs, n + 1, block)
  {
    hide Expanded;
  }

  lemma PiecesMore(chunks: seq<Chunk>, c: Chunk)
    requires Tiles(chunks) && c.out == Total(Pieces(chunks))
    ensures Tiles(chunks + [c]) && Total(Pieces(chunks + [c])) == Total(Pieces(chunks)) + c.n
  {
    var before, after := Pieces(chunks), Pieces(chunks + [c]);
    assert after == before + [Piece(c.n, SourceOf(c))];
    assert after[..|chunks|] == before;
    assert forall i :: 0 <= i <= |chunks| ==> after[..i] == before[..i];
    assert before[..|chunks|] == before;
  }

  /** Builds the chunk table; refused exactly where a chunk is not taken or the chunks do not expand to the
      size the file header says. */
  method Open(hs: seq<ChunkHeader>, header: nat, block: nat, size: nat) returns (chunks: Option<seq<Chunk>>)
    ensures chunks.Some?
            <==> && (forall h :: h in hs ==>
                       && 0xCAC1 <= h.kind <= 0xCAC4 && h.total >= header && (h.kind == 0xCAC2 ==> h.word.Some?))
                 && Expanded(hs, block) == size
    ensures chunks.Some? ==> Tiles(chunks.value) && Total(Pieces(chunks.value)) == size
    ensures chunks.Some? ==> AllHeld(chunks.value, hs, |hs|, block)
  {
    hide Pieces, Tiles, Total, Expanded, Holds, AllHeld, AllTaken, Taken;
    var table: seq<Chunk>, out := [], 0;
    NothingYet(hs, header, block);
    for i := 0 to |hs|
      invariant Tiles(table) && out == Total(Pieces(table)) == Expanded(hs[..i], block)
      invariant AllTaken(hs, i, header) && AllHeld(table, hs, i, block)
    {
      var h := hs[i];
      TakenNext(hs, i, header);
      ExpandedNext(hs, block, i);
      if !KnownKind(h.kind) || (h.kind == FILL && h.word.None?) {
        return None;
      }
      if h.kind != CRC32 {
        var n := h.blocks * block;
        var fill := if h.kind == FILL then h.word.value else 0;
        var c := Chunk(out, n, if h.kind == RAW then h.off else 0, fill, h.kind);
        Grown(table, c, hs, i, block);
        table := table + [c];
        out := out + n;
      } else {
        NextHeld(table, hs, i, block);
      }
      if h.total < header {
        return None;
      }
    }
    assert hs[..|hs|] == hs;
    TakenAll(hs, header);
    chunks := if out == size then Some(table) else None;
  }

  predicate AllTaken(hs: seq<ChunkHeader>, n: nat, header: nat)
    requires n <= |hs|
  {
    forall i :: 0 <= i < n ==> Taken(hs[i], header)
  }

  lemma NothingYet(hs: seq<ChunkHeader>, header: nat, block: nat)
    ensures Tiles([]) && Total(Pieces([])) == 0 == Expanded(hs[..0], block)
    ensures AllTaken(hs, 0, header) && AllHeld([], hs, 0, block)
  {}

  lemma TakenNext(hs: seq<ChunkHeader>, i: nat, header: nat)
    requires i < |hs|
    ensures AllTaken(hs, i + 1, header) <==> AllTaken(hs, i, header) && Taken(hs[i], header)
    ensures Taken(hs[i], header)
            <==> KnownKind(hs[i].kind) && hs[i].total >= header && (hs[i].kind == FILL ==> hs[i].word.Some?)
    ensures Taken(hs[i], header)
            <==> && 0xCAC1 <= hs[i].kind <= 0xCAC4 && hs[i].total >= header
                 && (hs[i].kind == 0xCAC2 ==> hs[i].word.Some?)
    ensures hs[i] in hs
  {}

  lemma TakenAll(hs: seq<ChunkHeader>, header: nat)
    ensures AllTaken(hs, |hs|, header) ==>
      forall h :: h in hs ==>
        && 0xCAC1 <= h.kind <= 0xCAC4 && h.total >= header && (h.kind == 0xCAC2 ==> h.word.Some?)
  {}

  /** One more chunk in the table. */
  lemma Grown(chunks: seq<Chunk>, c: Chunk, hs: seq<ChunkHeader>, i: nat, block: nat)
    requires i < |hs| && Tiles(chunks) && AllHeld(chunks, hs, i, block)
    requires c.out == Total(Pieces(chunks)) == Expanded(hs[..i], block)
    requires c.n == hs[i].blocks * block && c.kind == hs[i].kind && (c.kind == RAW ==> c.off == hs[i].off)
    requires c.kind == FILL ==> hs[i].word == Some(c.fill)
    ensures Tiles(chunks + [c]) && Total(Pieces(chunks + [c])) == Total(Pieces(chunks)) + c.n
    ensures AllHeld(chunks + [c], hs, i + 1, block)
  {
    hide Pieces, Tiles, Total, Expanded, Holds, AllHeld;
    PiecesMore(chunks, c);
    AllHeldMore(chunks, c, hs, i, block);
    HoldsLast(chunks, c, hs[i], block);
    NextHeld(chunks + [c], hs, i, block);
  }

  // ---- reading ----

  datatype Ending = Fine | Eof | Error

  class SparseReader {
    const file: seq<byte>
    const size: nat
    const chunks: seq<Chunk>

    constructor (file: seq<byte>, size: nat, chunks: seq<Chunk>)
      requires Tiles(chunks) && Total(Pieces(chunks)) == size
      ensures Valid() && this.file == file && this.size == size && this.chunks == chunks
    {
      this.file, this.size, this.chunks := file, size, chunks;
    }

    ghost predicate Valid() {
      Tiles(chunks) && Total(Pieces(chunks)) == size
    }

    /** The chunk that holds an offset, by halving; one is found exactly for the offsets of the disk. */
    method ChunkAt(off: nat) returns (i: Option<nat>)
      requires Valid()
      ensures i.Some? <==> off < size
      ensures i.Some? ==> i.value < |chunks| && chunks[i.value].out <= off < chunks[i.value].out + chunks[i.value].n
    {
      var lo, hi := 0, |chunks|;
      hide Pieces, Total, StartOf;
      Bounds(off);
      while lo < hi
        invariant 0 <= lo <= hi <= |chunks|
        invariant StartOf(Pieces(chunks), lo) <= off
        invariant hi < |chunks| ==> off < StartOf(Pieces(chunks), hi)
        decreases hi - lo
      {
        var mid := (lo + hi) / 2;
        var c := chunks[mid];
        StartNext(Pieces(chunks), mid);
        PieceIs(mid);
        if off < c.out {
          hi := mid;
        } else if off >= c.out + c.n {
          lo := mid + 1;
        } else {
          StartsGrow(Pieces(chunks), mid + 1, |chunks|);
          return Some(mid);
        }
      }
      i := None;
    }

    lemma Bounds(off: nat)
      requires Valid()
      ensures StartOf(Pieces(chunks), 0) == 0 && StartOf(Pieces(chunks), |chunks|) == size
    {
      StartsEnd(Pieces(chunks));
    }

    lemma PieceIs(i: nat)
      requires Valid() && i < |chunks|
      ensures Pieces(chunks)[i] == Piece(chunks[i].n, SourceOf(chunks[i]))
      ensures chunks[i].out == StartOf(Pieces(chunks), i)
    {}

    /** How many bytes a read asks for: all, or up to the end. */
    function Asked(length: nat, off: int): (n: nat)
      ensures if 0 <= off < size then n <= length && off + n <= size && (n == length || off + n == size) else n == 0
    {
      if off < 0 || off >= size then 0 else if length <= size - off then length else size - off
    }

    /** Serves a range of the expanded disk. */
    method ReadAt(p: array<byte>, off: int) returns (n: nat, ending: Ending)
      requires Valid()
      modifies p
      ensures n <= Asked(p.Length, off)
      ensures off < 0 ==> ending == Error
      ensures 0 <= off && ending.Error? ==> n < Asked(p.Length, off) && Flat(file, Pieces(chunks), off + n) == None
      ensures !ending.Error? ==> n == Asked(p.Length, off) && (ending.Eof? <==> off >= size || n < p.Length)
      ensures off >= 0 ==> forall j :: 0 <= j < n ==> Flat(file, Pieces(chunks), off + j) == Some(p[j])
      ensures forall j :: n <= j < p.Length ==> p[j] == old(p[j])
    {
      n := 0;
      if off < 0 {
        return 0, Error;
      }
      if off >= size {
        return 0, Eof;
      }
      ghost var was := p[..];
      hide Flat, StartOf, Pieces, ByteOf, Total;
      while n < p.Length && off + n < size
        invariant n <= Asked(p.Length, off) && Filled(file, Pieces(chunks), off, p[..], was, n)
        decreases Asked(p.Length, off) - n
      {
        var at: nat := off + n;
        var found := ChunkAt(at);
        var c := chunks[found.value];
        PieceIs(found.value);
        var into := at - c.out;
        var want: nat := c.n - into;
        if want > p.Length - n {
          want := p.Length - n;
        }
        if want > size - at {
          want := size - at;
        }
        var got := FillFrom(p, was, n, want, file, Pieces(chunks), off, SourceOf(c), found.value, into);
        n := n + got;
        if got < want {
          return n, Error;
        }
      }
      ending := if off + n >= size && n < p.Length then Eof else Fine;
    }
  }
}
