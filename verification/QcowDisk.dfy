/** Reading a QCOW image: as a QED image, but with big-endian tables, and with clusters that are kept compressed. */
module QcowDisks {
  import opened Bits
  import opened L2Cache
  import QedDisks

  type Image = QedDisks.Image

  /** What comes out of a compressed stream before it ends or goes wrong. */
  type Unzip = seq<byte> -> seq<byte>

  /** Where a byte of the disk is: nowhere, so that it reads as zero, at an offset of the file, in a cluster compressed
      to so many bytes at an offset of the file, or behind a page table that cannot be read. */
  datatype Place = Zeros | InFile(pos: int) | Packed(offset: nat, size: nat, at: nat) | NoTable

  /** What opening an image checks, where its numbers are such that its clusters and tables have sizes in int64. */
  ghost predicate Openable(im: Image) {
    && |im.file| <= TWO_TO_63 && 9 <= im.clusterBits && im.clusterBits + im.tableBits <= 62
    && forall e :: e in im.l1 ==> e < TWO_TO_64
  }

  // ---- the disk as one flat image ----

  function BigEndian(bs: seq<byte>): nat {
    if bs == [] then 0 else 256 * BigEndian(bs[..|bs| - 1]) + bs[|bs| - 1]
  }

  function Entries(file: seq<byte>, pos: nat, n: nat): (t: Table)
    requires pos + 8 * n <= |file|
    ensures |t| == n
    decreases n
  {
    if n == 0 then [] else [BigEndian(file[pos..pos + 8])] + Entries(file, pos + 8, n - 1)
  }

  /** The second-level table at an offset of the file, if all of it is there. */
  function TableAt(im: Image, offset: nat): (t: Option<Table>)
    ensures t.Some? ==> |t.value| == Pow2(im.tableBits)
  {
    if offset >= TWO_TO_63 || offset + 8 * Pow2(im.tableBits) > |im.file| then None
    else Some(Entries(im.file, offset, Pow2(im.tableBits)))
  }

  /** A compressed cluster's entry has a flag, a size in as many bits as a cluster's offsets have, and an offset in
      the rest. */
  function OffsetBits(im: Image): nat {
    if im.clusterBits < 63 then 63 - im.clusterBits else 0
  }

  function PackedOffset(im: Image, e: nat): nat {
    Low(e, OffsetBits(im))
  }

  function PackedSize(im: Image, e: nat): nat {
    Low(Shr(e, OffsetBits(im)), im.clusterBits)
  }

  /** A byte of the cluster whose table entry is e; offsets are int64s. */
  function EntryPlace(im: Image, e: nat, inCluster: nat): Place {
    if e == 0 then Zeros
    else if e >= TWO_TO_63 then Packed(PackedOffset(im, e), PackedSize(im, e), inCluster)
    else InFile(AsInt64((e + inCluster) % TWO_TO_64))
  }

  /** Where byte x of the disk is. */
  function Locate(im: Image, x: nat): Place {
    var l1Index := Shr(x, im.clusterBits + im.tableBits);
    if l1Index >= |im.l1| || im.l1[l1Index] == 0 then Zeros
    else
      var table := TableAt(im, im.l1[l1Index]);
      if table.None? then NoTable
      else EntryPlace(im, table.value[Low(Shr(x, im.clusterBits), im.tableBits)], Low(x, im.clusterBits))
  }

  /** Some bytes of the file, with zeros for those it does not have. */
  function Stored(file: seq<byte>, offset: nat, size: nat): seq<byte> {
    seq(size, i => if 0 <= offset + i < |file| then file[offset + i] else 0)
  }

  /** A compressed cluster, if a whole one comes out. */
  function Unpacked(im: Image, unzip: Unzip, offset: nat, size: nat): (c: Option<seq<byte>>)
    ensures c.Some? ==> |c.value| == Pow2(im.clusterBits)
  {
    var out := unzip(Stored(im.file, offset, size));
    if |out| < Pow2(im.clusterBits) then None else Some(out[..Pow2(im.clusterBits)])
  }

  /** What a byte at a place reads as, over a buffer byte that was there before: a cluster that the file ends before
      leaves it. */
  function PlaceByte(im: Image, unzip: Unzip, place: Place, was: byte): byte {
    match place
    case Zeros => 0
    case InFile(pos) => if 0 <= pos < |im.file| then im.file[pos] else was
    case Packed(offset, size, at) =>
      var c := Unpacked(im, unzip, offset, size);
      if c.Some? && at < |c.value| then c.value[at] else was
    case NoTable => was
  }

  function ByteOf(im: Image, unzip: Unzip, x: nat, was: byte): byte {
    PlaceByte(im, unzip, Locate(im, x), was)
  }

  /** A read that starts at such a place fails. */
  predicate Lost(im: Image, unzip: Unzip, place: Place) {
    match place
    case Zeros => false
    case InFile(pos) => pos < 0
    case Packed(offset, size, _) => Unpacked(im, unzip, offset, size).None?
    case NoTable => true
  }

  predicate Fails(im: Image, unzip: Unzip, x: nat) {
    Lost(im, unzip, Locate(im, x))
  }

  // ---- the entry of a compressed cluster ----

  /** Flag, size and offset tile an entry's 64 bits: an entry with the flag is made of exactly one size and one offset
      within bounds, and those are the ones read from it. */
  lemma SplitEntry(im: Image, e: nat, offset: nat, size: nat)
    requires im.clusterBits < 63 && offset < Pow2(OffsetBits(im)) && size < Pow2(im.clusterBits) && e < TWO_TO_64
    ensures e == offset + Scale(size + Pow2(im.clusterBits), OffsetBits(im))
            <==> e >= TWO_TO_63 && offset == PackedOffset(im, e) && size == PackedSize(im, e)
  {
    var m, n := OffsetBits(im), im.clusterBits;
    ScaleOne(n);
    hide Low, Shr, Scale, Pow2;
    if e == offset + Scale(size + Pow2(n), m) {
      LowShrUnique(offset, size + Pow2(n), m);
      LowShrUnique(size, 1, n);
      ScaleAdd(size, Pow2(n), m);
      ScalePow2(n, m);
      Pow2Of63();
    } else if e >= TWO_TO_63 {
      LowShr(e, m);
      LowShr(Shr(e, m), n);
      QedDisks.ShrTwice(e, m, n);
      TopBit(e);
    }
  }

  lemma Pow2Of63()
    ensures 2 * Pow2(63) == Pow2(64) == TWO_TO_64
  {
    Pow2Of64();
  }

  lemma ScaleOne(n: nat)
    ensures Scale(1, n) == Pow2(n)
  {
    ScalePow2(0, n);
    hide Scale;
  }

  lemma TopBit(e: nat)
    requires TWO_TO_63 <= e < TWO_TO_64
    ensures Shr(e, 63) == 1
  {
    Pow2Of63();
    ScaleOne(63);
    hide Shr, Scale, Pow2, Low;
    assert e == e - TWO_TO_63 + Scale(1, 63);
    LowShrUnique(e - TWO_TO_63, 1, 63);
  }

  // ---- tables ----

  /** Eight bytes, the highest first, as a number. */
  function Word64(file: seq<byte>, q: nat): nat
    requires q + 8 <= |file|
  {
    0x100_0000_0000_0000 * (file[q] as nat) + 0x1_0000_0000_0000 * (file[q + 1] as nat)
    + 0x100_0000_0000 * (file[q + 2] as nat) + 0x1_0000_0000 * (file[q + 3] as nat)
    + 0x100_0000 * (file[q + 4] as nat) + 0x1_0000 * (file[q + 5] as nat) + 0x100 * (file[q + 6] as nat)
    + file[q + 7] as nat
  }

  lemma WordFits(file: seq<byte>, q: nat)
    requires q + 8 <= |file|
    ensures Word64(file, q) < TWO_TO_64
  {}

  lemma Peel(w: seq<byte>)
    requires w != []
    ensures BigEndian(w) == 256 * BigEndian(w[..|w| - 1]) + w[|w| - 1]
  {}

  lemma WordIs(file: seq<byte>, q: nat)
    requires q + 8 <= |file|
    ensures BigEndian(file[q..q + 8]) == Word64(file, q)
  {
    var w := file[q..q + 8];
    Peel(w);
    assert w[..7][..6] == w[..6] && w[..6][..5] == w[..5] && w[..5][..4] == w[..4] && w[..4][..3] == w[..3];
    assert w[..3][..2] == w[..2] && w[..2][..1] == w[..1] && w[..1][..0] == [];
    Peel(w[..7]);
    Peel(w[..6]);
    Peel(w[..5]);
    Peel(w[..4]);
    Peel(w[..3]);
    Peel(w[..2]);
    Peel(w[..1]);
    assert BigEndian([]) == 0;
    hide BigEndian;
  }

  /** Entry i of a page table is the word 8 * i bytes into it. */
  lemma {:induction false} EntryIs(file: seq<byte>, pos: nat, n: nat, i: nat)
    requires pos + 8 * n <= |file| && i < n
    ensures Entries(file, pos, n)[i] == Word64(file, pos + 8 * i)
    decreases n
  {
    if i == 0 {
      WordIs(file, pos);
    } else {
      EntryIs(file, pos + 8, n - 1, i - 1);
    }
    hide BigEndian, Word64;
  }

  /** What is at byte c of the cluster with indices i and j: zero where there is no table or no cluster; otherwise, by
      the table's entry j, the byte of the file that is c behind where it points or, of an entry put together from
      the flag, a size and an offset, byte c of what comes out of so many bytes of the file. */
  lemma ByteOfCluster(im: Image, unzip: Unzip, i: nat, j: nat, c: nat, was: byte, offset: nat, size: nat)
    requires Openable(im) && j < Pow2(im.tableBits) && c < Pow2(im.clusterBits)
    requires offset < Pow2(63 - im.clusterBits) && size < Pow2(im.clusterBits)
    ensures var x := QedDisks.OffsetOf(im, i, j, c);
            && (i >= |im.l1| || im.l1[i] == 0 ==> ByteOf(im, unzip, x, was) == 0)
            && (i < |im.l1| && im.l1[i] >= TWO_TO_63 ==> Fails(im, unzip, x))
            && (i < |im.l1| && im.l1[i] > 0 && |im.file| < im.l1[i] + 8 * Pow2(im.tableBits) ==> Fails(im, unzip, x))
            && (i < |im.l1| && 0 < im.l1[i] < TWO_TO_63 && im.l1[i] + 8 * Pow2(im.tableBits) <= |im.file| ==>
                  EntrySays(im, unzip, Word64(im.file, im.l1[i] + 8 * j), x, c, was, offset, size))
  {
    hide Entries, Word64, QedDisks.OffsetOf, Shr, Low, Pow2, EntrySays;
    QedDisks.SplitOffset(im, QedDisks.OffsetOf(im, i, j, c), i, j, c);
    if i < |im.l1| && 0 < im.l1[i] < TWO_TO_63 && im.l1[i] + 8 * Pow2(im.tableBits) <= |im.file| {
      EntryIs(im.file, im.l1[i], Pow2(im.tableBits), j);
      WordFits(im.file, im.l1[i] + 8 * j);
      EntryMeans(im, unzip, Word64(im.file, im.l1[i] + 8 * j), QedDisks.OffsetOf(im, i, j, c), c, was, offset, size);
    }
  }

  /** What an entry makes of byte x of the disk, which is byte c of its cluster. */
  predicate EntrySays(im: Image, unzip: Unzip, e: nat, x: nat, c: nat, was: byte, offset: nat, size: nat)
    requires im.clusterBits <= 63
  {
    var out := unzip(seq(size, k => if 0 <= offset + k < |im.file| then im.file[offset + k] else 0));
    && (e == 0 ==> ByteOf(im, unzip, x, was) == 0)
    && (0 < e < TWO_TO_63 && e + c < TWO_TO_63 ==>
          ByteOf(im, unzip, x, was) == if e + c < |im.file| then im.file[e + c] else was)
    && (0 < e < TWO_TO_63 && TWO_TO_63 <= e + c < TWO_TO_64 ==> Fails(im, unzip, x))
    && (e == offset + Scale(size + Pow2(im.clusterBits), 63 - im.clusterBits) ==>
          if |out| < Pow2(im.clusterBits) then Fails(im, unzip, x)
          else c < |out| ==> ByteOf(im, unzip, x, was) == out[c])
  }

  lemma EntryMeans(im: Image, unzip: Unzip, e: nat, x: nat, c: nat, was: byte, offset: nat, size: nat)
    requires Openable(im) && Locate(im, x) == EntryPlace(im, e, c) && c < Pow2(im.clusterBits) && e < TWO_TO_64
    requires offset < Pow2(63 - im.clusterBits) && size < Pow2(im.clusterBits)
    ensures EntrySays(im, unzip, e, x, c, was, offset, size)
  {
    hide Locate, Pow2, Scale;
    SplitEntry(im, e, offset, size);
    hide PackedOffset, PackedSize;
  }

  // ---- within a cluster ----

  /** A read of part of a cluster, from a place that does not fail, is a read of each of its bytes. */
  lemma ByteWithin(im: Image, unzip: Unzip, x: nat, i: nat, was: byte)
    requires Openable(im) && Low(x, im.clusterBits) + i < Pow2(im.clusterBits) && !Fails(im, unzip, x)
    ensures ByteOf(im, unzip, x + i, was) == PlaceByte(im, unzip, Along(Locate(im, x), i), was)
  {
    hide TableAt, Low, Shr, Pow2, PlaceByte, EntryPlace, Unpacked;
    QedDisks.LocateWithin(im, x, i);
    if Shr(x, im.clusterBits + im.tableBits) < |im.l1| && im.l1[Shr(x, im.clusterBits + im.tableBits)] != 0 {
      var table := TableAt(im, im.l1[Shr(x, im.clusterBits + im.tableBits)]).value;
      var e := table[Low(Shr(x, im.clusterBits), im.tableBits)];
      SmallCluster(im);
      EntryWithin(im, unzip, e, Low(x, im.clusterBits), i, was);
    }
  }

  /** The place so many bytes on in a cluster. */
  function Along(place: Place, i: nat): Place {
    match place
    case InFile(pos) => InFile(pos + i)
    case Packed(offset, size, at) => Packed(offset, size, at + i)
    case _ => place
  }

  lemma SmallCluster(im: Image)
    requires Openable(im)
    ensures 2 * Pow2(im.clusterBits) <= TWO_TO_63
  {
    Pow2Monotone(im.clusterBits, 62);
    Pow2Of63();
  }

  lemma EntryWithin(im: Image, unzip: Unzip, e: nat, inCluster: nat, i: nat, was: byte)
    requires |im.file| <= TWO_TO_63 && inCluster + i < TWO_TO_63
    requires EntryPlace(im, e, inCluster).InFile? ==> EntryPlace(im, e, inCluster).pos >= 0
    ensures PlaceByte(im, unzip, EntryPlace(im, e, inCluster + i), was)
            == PlaceByte(im, unzip, Along(EntryPlace(im, e, inCluster), i), was)
  {
    hide Unpacked, PackedOffset, PackedSize, AsInt64;
    if 0 < e < TWO_TO_63 {
      OffsetAlong(e, inCluster, i);
    }
  }

  lemma OffsetAlong(e: nat, inCluster: nat, i: nat)
    requires e < TWO_TO_63 && inCluster + i < TWO_TO_63
    ensures var a, b := AsInt64((e + inCluster) % TWO_TO_64), AsInt64((e + (inCluster + i)) % TWO_TO_64);
            a >= 0 ==> a == e + inCluster && b == if a + i < TWO_TO_63 then a + i else a + i - TWO_TO_64
  {
    assert (e + inCluster) % TWO_TO_64 == e + inCluster;
    assert (e + (inCluster + i)) % TWO_TO_64 == e + (inCluster + i);
  }

  // ---- reading ----

  lemma AlongByte(im: Image, unzip: Unzip, place: Place, i: nat, was: byte)
    requires place.Packed? ==>
      Unpacked(im, unzip, place.offset, place.size).Some? && place.at + i < Pow2(im.clusterBits)
    ensures PlaceByte(im, unzip, Along(place, i), was)
            == if place.Zeros? then 0
               else if place.InFile? then QedDisks.FileByte(im, QedDisks.InFile(place.pos + i), was)
               else if place.NoTable? then was
               else Unpacked(im, unzip, place.offset, place.size).value[place.at + i]
  {
    hide Unpacked, Pow2;
  }

  lemma PackedAt(im: Image, x: nat)
    ensures Locate(im, x).Packed? ==> Locate(im, x).at == Low(x, im.clusterBits)
  {
    hide TableAt, Low, Shr;
  }

  class Disk {
    const im: Image
    const unzip: Unzip
    const cache: TableCache

    constructor (im: Image, unzip: Unzip, cache: TableCache)
      ensures this.im == im && this.unzip == unzip && this.cache == cache
    {
      this.im, this.unzip, this.cache := im, unzip, cache;
    }

    ghost predicate Valid()
      reads cache
    {
      Openable(im) && Sound(cache.State(), (offset: nat) => TableAt(im, offset))
    }

    /** Where byte x is, by way of the table cache. */
    method Translate(x: nat) returns (place: Place)
      requires Valid()
      modifies cache
      ensures Valid() && place == Locate(im, x)
    {
      hide EntryPlace;
      var cluster, inCluster := Shr(x, im.clusterBits), Low(x, im.clusterBits);
      place := Zeros;
      var l1Index := Shr(x, im.clusterBits + im.tableBits);
      if l1Index < |im.l1| {
        var l2Offset := im.l1[l1Index];
        if l2Offset != 0 {
          var l2 := cache.Lookup(l2Offset, (offset: nat) => TableAt(im, offset));
          if l2.None? {
            return NoTable;
          }
          var e := l2.value[Low(cluster, im.tableBits)];
          place := EntryPlace(im, e, inCluster);
        }
      }
    }

    /** Reads a compressed cluster, with zeros for what the file does not have of it, and inflates it. */
    method DecompressCluster(offset: nat, size: nat) returns (full: Option<seq<byte>>)
      ensures full == Unpacked(im, unzip, offset, size)
    {
      var comp := new byte[size](_ => 0);
      var outcome := QedDisks.ReadFile(im, comp, 0, size, offset);
      assert comp[..] == Stored(im.file, offset, size);
      var out := unzip(comp[..]);
      full := if |out| < Pow2(im.clusterBits) then None else Some(out[..Pow2(im.clusterBits)]);
    }

    /** Fills p[start..start + n] with one part of a cluster, from a place in it on. */
    method FillPart(p: array<byte>, start: nat, n: nat, place: Place) returns (ok: bool)
      requires start + n <= p.Length && (place.Packed? ==> place.at + n <= Pow2(im.clusterBits))
      modifies p
      ensures ok == !Lost(im, unzip, place)
      ensures forall i :: 0 <= i < p.Length && !(ok && start <= i < start + n) ==> p[i] == old(p[i])
      ensures ok ==> forall i :: start <= i < start + n ==>
        p[i] == PlaceByte(im, unzip, Along(place, i - start), old(p[i]))
    {
      ghost var before := p[..];
      hide PlaceByte, Unpacked, Pow2;
      ok := true;
      match place {
        case NoTable =>
          return false;
        case Packed(offset, size, at) =>
          var full := DecompressCluster(offset, size);
          if full.None? {
            return false;
          }
          CopyFrom(p, start, full.value[at..at + n]);
        case InFile(pos) =>
          var outcome := QedDisks.ReadFile(im, p, start, n, pos);
          ok := outcome != QedDisks.Error;
        case Zeros =>
          CopyFrom(p, start, seq(n, _ => 0));
      }
      if ok {
        forall i | start <= i < start + n
          ensures p[i] == PlaceByte(im, unzip, Along(place, i - start), before[i])
        {
          AlongByte(im, unzip, place, i - start, before[i]);
        }
      }
    }

    /** Fills p with one part of a cluster, p[start..start + n] from byte x of the disk on. */
    method ReadPart(p: array<byte>, start: nat, n: nat, x: nat) returns (ok: bool)
      requires Valid() && start + n <= p.Length && n > 0 && Low(x, im.clusterBits) + n <= Pow2(im.clusterBits)
      modifies p, cache
      ensures Valid()
      ensures ok == !Fails(im, unzip, x)
      ensures if ok then IsPart(im, unzip, old(p[..]), p[..], start, n, x) else p[..] == old(p[..])
    {
      hide Locate, PlaceByte, Lost, Low, Pow2, IsPart, Along, Sound;
      ghost var before := p[..];
      var place := Translate(x);
      PackedAt(im, x);
      ok := FillPart(p, start, n, place);
      if ok {
        PartIsRead(im, unzip, before, p[..], start, n, x);
      }
    }

    /** How many bytes a read asks for: all, or up to the end of the disk. */
    function Asked(length: nat, off: int): (n: nat)
      ensures if 0 <= off < im.size then n <= length && off + n <= im.size && (n == length || off + n == im.size)
              else n == 0
    {
      if off < 0 || off >= im.size then 0 else if length <= im.size - off then length else im.size - off
    }

    /** Gathers n bytes of the disk from off on, cluster by cluster. */
    method ReadClusters(p: array<byte>, off: nat, n: nat) returns (total: nat, ok: bool)
      requires Valid() && n <= p.Length
      modifies p, cache
      ensures Valid() && IsPart(im, unzip, old(p[..]), p[..], 0, total, off)
      ensures if ok then total == n && Starts(im, unzip, off, n)
              else total < n && FailsIn(im, unzip, off, n, off + total)
    {
      ghost var was := p[..];
      total := 0;
      hide Valid, Fails, FailsIn, ByteOf, IsPart, Starts, Low, Pow2, QedDisks.StartsRead;
      NothingRead(im, unzip, off, was);
      while total < n
        invariant Valid() && total <= n && (total < n ==> QedDisks.StartsRead(im, off, off + total))
        invariant Starts(im, unzip, off, total) && IsPart(im, unzip, was, p[..], 0, total, off)
      {
        var x := off + total;
        var inCluster := Low(x, im.clusterBits);
        var k: nat := n - total;
        if Pow2(im.clusterBits) - inCluster < k {
          k := Pow2(im.clusterBits) - inCluster;
        }
        ghost var before := p[..];
        ok := ReadPart(p, total, k, x);
        if !ok {
          FirstFails(im, unzip, off, n, x);
          return;
        }
        MoreStarts(im, unzip, off, total, k);
        MoreRead(im, unzip, was, before, p[..], total, k, off);
        total := total + k;
      }
      ok := true;
    }

    method ReadAt(p: array<byte>, off: int) returns (total: nat, outcome: QedDisks.Outcome)
      requires Valid()
      modifies p, cache
      ensures Valid() && total <= Asked(p.Length, off)
      ensures outcome.Eof? <==> off >= 0 && Asked(p.Length, off) == 0
      ensures outcome.Fine? ==> total == Asked(p.Length, off) > 0
      ensures outcome.Error? <==> off < 0 || exists x: nat :: FailsIn(im, unzip, off, Asked(p.Length, off), x)
      ensures outcome.Error? && off >= 0 ==> FailsIn(im, unzip, off, Asked(p.Length, off), off + total)
      ensures forall i :: 0 <= i < total ==> off >= 0 && p[i] == ByteOf(im, unzip, off + i, old(p[i]))
      ensures forall i :: total <= i < p.Length ==> p[i] == old(p[i])
    {
      if off < 0 {
        return 0, QedDisks.Error;
      }
      if off >= im.size {
        return 0, QedDisks.Eof;
      }
      var n: nat := if p.Length > im.size - off then im.size - off else p.Length;
      ghost var was := p[..];
      hide Valid, FailsIn, ByteOf, IsPart, Starts;
      var ok;
      total, ok := ReadClusters(p, off, n);
      PartRead(im, unzip, was, p[..], total, off);
      if !ok {
        return total, QedDisks.Error;
      }
      NoneFails(im, unzip, off, n);
      outcome := if total == 0 then QedDisks.Eof else QedDisks.Fine;
    }
  }

  /** now is was with n bytes of the disk, from byte x on, from start on. */
  ghost predicate IsPart(im: Image, unzip: Unzip, was: seq<byte>, now: seq<byte>, start: nat, n: nat, x: nat) {
    && |was| == |now| && start + n <= |was|
    && (forall i :: 0 <= i < |was| && !(start <= i < start + n) ==> now[i] == was[i])
    && forall i :: start <= i < start + n ==> now[i] == ByteOf(im, unzip, x + (i - start), was[i])
  }

  lemma PartIsRead(im: Image, unzip: Unzip, was: seq<byte>, now: seq<byte>, start: nat, n: nat, x: nat)
    requires Openable(im) && |was| == |now| && start + n <= |was| && !Fails(im, unzip, x)
    requires Low(x, im.clusterBits) + n <= Pow2(im.clusterBits)
    requires forall i :: 0 <= i < |was| && !(start <= i < start + n) ==> now[i] == was[i]
    requires forall i :: start <= i < start + n ==>
      now[i] == PlaceByte(im, unzip, Along(Locate(im, x), i - start), was[i])
    ensures IsPart(im, unzip, was, now, start, n, x)
  {
    hide Locate, PlaceByte, ByteOf, Fails, Low, Pow2, Along, Openable;
    forall i | start <= i < start + n
      ensures now[i] == ByteOf(im, unzip, x + (i - start), was[i])
    {
      ByteWithin(im, unzip, x, i - start, was[i]);
    }
  }

  lemma NothingRead(im: Image, unzip: Unzip, off: nat, was: seq<byte>)
    ensures Starts(im, unzip, off, 0) && IsPart(im, unzip, was, was, 0, 0, off)
    ensures QedDisks.StartsRead(im, off, off)
  {}

  lemma PartRead(im: Image, unzip: Unzip, was: seq<byte>, now: seq<byte>, n: nat, x: nat)
    requires IsPart(im, unzip, was, now, 0, n, x)
    ensures |was| == |now| && forall i :: n <= i < |was| ==> now[i] == was[i]
    ensures forall i :: 0 <= i < n ==> now[i] == ByteOf(im, unzip, x + i, was[i])
  {
    hide ByteOf;
    forall i | 0 <= i < n
      ensures now[i] == ByteOf(im, unzip, x + i, was[i])
    {
      assert now[i] == ByteOf(im, unzip, x + (i - 0), was[i]);
    }
  }

  lemma MoreRead(im: Image, unzip: Unzip, was: seq<byte>, before: seq<byte>, now: seq<byte>, n: nat, k: nat, x: nat)
    requires IsPart(im, unzip, was, before, 0, n, x) && IsPart(im, unzip, before, now, n, k, x + n)
    ensures IsPart(im, unzip, was, now, 0, n + k, x)
  {
    PartRead(im, unzip, was, before, n, x);
    hide ByteOf;
    forall i | 0 <= i < n + k
      ensures now[i] == ByteOf(im, unzip, x + (i - 0), was[i])
    {
      if i >= n {
        assert now[i] == ByteOf(im, unzip, x + n + (i - n), before[i]);
      }
    }
  }

  /** No read of a cluster fails among those of the first n bytes from off on. */
  ghost predicate Starts(im: Image, unzip: Unzip, off: nat, n: nat) {
    forall x: nat :: off <= x < off + n && QedDisks.StartsRead(im, off, x) ==> !Fails(im, unzip, x)
  }

  lemma MoreStarts(im: Image, unzip: Unzip, off: nat, n: nat, k: nat)
    requires Starts(im, unzip, off, n) && !Fails(im, unzip, off + n)
    requires 0 < k && Low(off + n, im.clusterBits) + k <= Pow2(im.clusterBits)
    ensures Starts(im, unzip, off, n + k)
    ensures Low(off + n, im.clusterBits) + k == Pow2(im.clusterBits) ==> QedDisks.StartsRead(im, off, off + n + k)
  {
    QedDisks.NoOtherStart(im, off, off + n, k);
    hide QedDisks.StartsRead, Fails, Low, Pow2;
  }

  lemma FirstFails(im: Image, unzip: Unzip, off: nat, n: nat, x: nat)
    requires off <= x < off + n && QedDisks.StartsRead(im, off, x) && Fails(im, unzip, x)
    ensures FailsIn(im, unzip, off, n, x)
  {}

  lemma NoneFails(im: Image, unzip: Unzip, off: nat, n: nat)
    requires Starts(im, unzip, off, n)
    ensures forall x: nat :: !FailsIn(im, unzip, off, n, x)
  {
    hide QedDisks.StartsRead, Fails;
  }

  predicate FailsIn(im: Image, unzip: Unzip, off: int, n: int, x: nat) {
    0 <= off <= x < off + n && QedDisks.StartsRead(im, off, x) && Fails(im, unzip, x)
  }

  method CopyFrom(p: array<byte>, start: nat, s: seq<byte>)
    requires start + |s| <= p.Length
    modifies p
    ensures forall i :: 0 <= i < p.Length ==>
      p[i] == if start <= i < start + |s| then s[i - start] else old(p[i])
  {
    for k := 0 to |s|
      invariant forall i :: 0 <= i < p.Length ==>
        p[i] == if start <= i < start + k then s[i - start] else old(p[i])
    {
      p[start + k] := s[k];
    }
  }
}
