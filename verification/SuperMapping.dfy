/** One logical partition of a super partition: extents that read as zeros or from the image, as one range. */
module SuperMappings {
  import opened Bits
  import opened Gather

  const LINEAR := 0
  const ZERO := 1
  const SECTOR := 512

  datatype Extent = Extent(sectors: nat, kind: nat, data: nat, device: nat)

  function PieceOf(origin: int, e: Extent): Piece {
    Piece(SECTOR * e.sectors, if e.kind == ZERO then Nothing else File(origin + SECTOR * e.data))
  }

  function Pieces(origin: int, extents: seq<Extent>): (r: seq<Piece>)
    ensures |r| == |extents|
  {
    seq(|extents|, i requires 0 <= i < |extents| => PieceOf(origin, extents[i]))
  }

  /** Byte k of extent i lies so many sectors of 512 bytes into the partition as the extents before it have; it is in
      the image so many sectors behind the origin as the extent says, or zero if the extent is of kind 1. */
  lemma ExtentByte(file: seq<byte>, origin: int, extents: seq<Extent>, i: nat, k: nat)
    requires i < |extents| && k < 512 * extents[i].sectors
    ensures var x := 512 * Sectors(extents[..i]) + k;
            var at := origin + 512 * extents[i].data + k;
            && x < Total(Pieces(origin, extents))
            && Flat(file, Pieces(origin, extents), x)
               == if extents[i].kind == 1 then Some(0)
                  else if 0 <= at < |file| then Some(file[at])
                  else None
  {
    StartIsSectors(origin, extents, i);
    hide Flat, Total, StartOf, Pieces;
    PieceIs(origin, extents, i);
    FlatAt(file, Pieces(origin, extents), i, k);
  }

  function Sectors(extents: seq<Extent>): nat {
    if extents == [] then 0 else extents[0].sectors + Sectors(extents[1..])
  }

  lemma PieceIs(origin: int, extents: seq<Extent>, i: nat)
    requires i < |extents|
    ensures Pieces(origin, extents)[i] == PieceOf(origin, extents[i])
  {}

  lemma {:induction false} SectorsMore(extents: seq<Extent>, e: Extent)
    ensures Sectors(extents + [e]) == Sectors(extents) + e.sectors
  {
    if extents != [] {
      SectorsMore(extents[1..], e);
      assert (extents + [e])[1..] == extents[1..] + [e];
    }
  }

  lemma {:induction false} StartIsSectors(origin: int, extents: seq<Extent>, i: nat)
    requires i <= |extents|
    ensures StartOf(Pieces(origin, extents), i) == 512 * Sectors(extents[..i])
  {
    StartsEnd(Pieces(origin, extents));
    if i > 0 {
      StartIsSectors(origin, extents, i - 1);
      hide StartOf, Pieces, Sectors;
      StartNext(Pieces(origin, extents), i - 1);
      PieceIs(origin, extents, i - 1);
      SectorsMore(extents[..i - 1], extents[i - 1]);
      assert extents[..i] == extents[..i - 1] + [extents[i - 1]];
    }
  }

  /** An extent on this image, of a kind that is known. */
  predicate Known(e: Extent) {
    e.device == 0 && (e.kind == LINEAR || e.kind == ZERO)
  }

  datatype Ending = Fine | Eof | Error

  class Mapping {
    const file: seq<byte>
    const origin: int
    const extents: seq<Extent>
    const starts: seq<nat>
    const size: nat

    constructor (file: seq<byte>, origin: int, extents: seq<Extent>, starts: seq<nat>, size: nat)
      ensures this.file == file && this.origin == origin && this.extents == extents
      ensures this.starts == starts && this.size == size
    {
      this.file, this.origin, this.extents, this.starts, this.size := file, origin, extents, starts, size;
    }

    ghost function Parts(): seq<Piece> {
      Pieces(origin, extents)
    }

    ghost predicate Valid() {
      && |starts| == |extents| && size == Total(Parts())
      && forall i :: 0 <= i < |starts| ==> starts[i] == StartOf(Parts(), i)
    }

    /** The last extent that starts at or before pos, by binary search; -1 if none does. */
    method Holder(pos: nat) returns (i: int)
      requires Valid()
      ensures -1 <= i < |starts|
      ensures i >= 0 ==> starts[i] <= pos
      ensures i + 1 < |starts| ==> starts[i + 1] > pos
    {
      var lo, hi := 0, |starts|;
      while lo < hi
        invariant 0 <= lo <= hi <= |starts|
        invariant lo > 0 ==> starts[lo - 1] <= pos
        invariant hi < |starts| ==> starts[hi] > pos
      {
        var mid := (lo + hi) / 2;
        if starts[mid] > pos {
          hi := mid;
        } else {
          lo := mid + 1;
        }
      }
      i := lo - 1;
    }

    /** How many bytes a read asks for: all, or up to the end. */
    function Asked(length: nat, off: int): (n: nat)
      ensures if 0 <= off < size then n <= length && off + n <= size && (n == length || off + n == size) else n == 0
    {
      if off < 0 || off >= size then 0 else if length <= size - off then length else size - off
    }

    /** Some byte asked for is not in the image. */
    ghost predicate Missing(off: nat, n: nat) {
      exists x :: off <= x < off + n && Flat(file, Parts(), x) == None
    }

    /** Reads from the partition, gathering the extents that cover the range. */
    method ReadAt(p: array<byte>, off: int) returns (done: nat, ending: Ending)
      requires Valid()
      modifies p
      ensures done <= Asked(p.Length, off)
      ensures ending.Eof? <==> off >= 0 && Asked(p.Length, off) == 0
      ensures ending.Fine? ==> done == Asked(p.Length, off) > 0
      ensures ending.Error? <==> off < 0 || Missing(off, Asked(p.Length, off))
      ensures off >= 0 ==> forall j :: 0 <= j < done ==> Flat(file, Parts(), off + j) == Some(p[j])
      ensures forall j :: Asked(p.Length, off) <= j < p.Length ==> p[j] == old(p[j])
    {
      if off < 0 {
        return 0, Error;
      }
      if off >= size {
        return 0, Eof;
      }
      ghost var was := p[..];
      var n := Asked(p.Length, off);
      done := 0;
      hide Flat, StartOf, Pieces, ByteOf;
      while done < p.Length && off + done < size
        invariant done <= n && Filled(file, Parts(), off, p[..], was, done)
        decreases n - done
      {
        var pos: nat := off + done;
        var i := Holder(pos);
        HolderHolds(i, pos);
        var e := extents[i];
        var room := starts[i] + SECTOR * e.sectors - pos;
        var k: nat := if p.Length - done > room then room else p.Length - done;
        var got := FillFrom(p, was, done, k, file, Parts(), off, PieceOf(origin, e).source, i, pos - starts[i]);
        if got < k {
          assert Flat(file, Parts(), off + (done + got)) == None;
          return done, Error;
        }
        done := done + k;
      }
      assert done == n;
      FilledAll(file, Parts(), off, p[..], was, n);
      ending := if done == 0 then Eof else Fine;
    }

    /** The extent found holds the position, empty extents around it or not. */
    lemma HolderHolds(i: int, pos: nat)
      requires Valid() && pos < size && -1 <= i < |starts|
      requires (i >= 0 ==> starts[i] <= pos) && (i + 1 < |starts| ==> starts[i + 1] > pos)
      ensures i >= 0 && starts[i] <= pos < starts[i] + SECTOR * extents[i].sectors <= size
      ensures Parts()[i] == PieceOf(origin, extents[i]) && starts[i] == StartOf(Parts(), i)
    {
      StartsEnd(Parts());
      if i >= 0 {
        TileOf(Parts(), pos, i);
        StartNext(Parts(), i);
        StartsGrow(Parts(), i + 1, |Parts()|);
      }
    }
  }

  lemma PiecesMore(origin: int, extents: seq<Extent>, e: Extent)
    ensures Pieces(origin, extents + [e]) == Pieces(origin, extents) + [PieceOf(origin, e)]
    ensures Total(Pieces(origin, extents) + [PieceOf(origin, e)]) == Total(Pieces(origin, extents)) + SECTOR * e.sectors
  {
    var ps := Pieces(origin, extents);
    assert (ps + [PieceOf(origin, e)])[..|ps|] == ps;
  }

  /** Maps a partition; refused exactly where it has an extent on another device or of an unknown kind. */
  method MapPartition(file: seq<byte>, origin: int, list: seq<Extent>) returns (ok: bool, m: Mapping)
    ensures ok <==> forall e :: e in list ==> e.device == 0 && (e.kind == 0 || e.kind == 1)
    ensures ok ==> m.Valid() && m.file == file && m.Parts() == Pieces(origin, list)
  {
    var extents: seq<Extent>, starts: seq<nat>, size := [], [], 0;
    ok := true;
    for k := 0 to |list|
      invariant extents == list[..k] && |starts| == k && size == Total(Pieces(origin, extents))
      invariant forall e :: e in extents ==> Known(e)
      invariant forall i :: 0 <= i < k ==> starts[i] == StartOf(Pieces(origin, extents), i)
    {
      var e := list[k];
      if e.device != 0 || (e.kind != LINEAR && e.kind != ZERO) {
        assert e in list && !Known(e);
        ok := false;
        m := new Mapping(file, origin, [], [], 0);
        return;
      }
      PiecesMore(origin, extents, e);
      ghost var before, after := Pieces(origin, extents), Pieces(origin, extents + [e]);
      assert forall i :: 0 <= i <= k ==> after[..i] == before[..i];
      assert before[..k] == before;
      assert list[..k + 1] == list[..k] + [e];
      starts := starts + [size];
      extents := extents + [e];
      size := size + SECTOR * e.sectors;
    }
    assert list[..|list|] == list;
    m := new Mapping(file, origin, extents, starts, size);
  }
}
