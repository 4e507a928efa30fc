/** Reading a QED image: two levels of page tables turn an offset of the disk into one of the file, and a
    read is gathered cluster by cluster. */
module QedDisks {
  import opened Bits
  import opened L2Cache

  /** The file under the image, and what its header and first-level table say. */
  datatype Image = Image(file: seq<byte>, clusterBits: nat, tableBits: nat, l1: seq<nat>, size: int)

  /** Where a byte of the disk is: nowhere, so that it reads as zero, at an offset of the file, or behind a
      page table that cannot be read. */
  datatype Place = Zeros | InFile(pos: int) | NoTable

  /** What opening an image checks, and what the file's length can be. */
  ghost predicate Openable(im: Image) {
    && |im.file| <= TWO_TO_63 && im.clusterBits <= 26
    && forall e :: e in im.l1 ==> e < TWO_TO_64
  }

  // ---- the disk as one flat image ----

  function Entries(file: seq<byte>, pos: nat, n: nat): (t: Table)
    requires pos + 8 * n <= |file|
    ensures |t| == n
    decreases n
  {
    if n == 0 then [] else [LittleEndian(file[pos..pos + 8])] + Entries(file, pos + 8, n - 1)
  }

  /** The second-level table at an offset of the file, if all of it is there. */
  function TableAt(im: Image, offset: nat): (t: Option<Table>)
    ensures t.Some? ==> |t.value| == Pow2(im.tableBits)
  {
    if offset >= TWO_TO_63 || offset + 8 * Pow2(im.tableBits) > |im.file| then None
    else Some(Entries(im.file, offset, Pow2(im.tableBits)))
  }

  /** A byte of the cluster whose table entry is e; offsets are int64s. */
  function EntryPlace(e: nat, inCluster: nat): Place {
    if e <= 1 then Zeros else InFile(AsInt64((e + inCluster) % TWO_TO_64))
  }

  /** Where byte x of the disk is. */
  function Locate(im: Image, x: nat): Place {
    var cluster := Shr(x, im.clusterBits);
    var l1Index := Shr(x, im.clusterBits + im.tableBits);
    if l1Index >= |im.l1| || im.l1[l1Index] == 0 then Zeros
    else
      var table := TableAt(im, im.l1[l1Index]);
      if table.None? then NoTable else EntryPlace(table.value[Low(cluster, im.tableBits)], Low(x, im.clusterBits))
  }

  /** What byte x of the disk reads as, over a buffer byte that was there before: a cluster that the file
      ends before leaves it. */
  function ByteOf(im: Image, x: nat, was: byte): byte {
    FileByte(im, Locate(im, x), was)
  }

  function FileByte(im: Image, place: Place, was: byte): byte {
    if place.Zeros? then 0 else if place.InFile? && 0 <= place.pos < |im.file| then im.file[place.pos] else was
  }

  /** A read that starts at x fails. */
  predicate Fails(im: Image, x: nat) {
    Locate(im, x).NoTable? || (Locate(im, x).InFile? && Locate(im, x).pos < 0)
  }

  // ---- an offset is a first-level index, a second-level index and an offset in a cluster ----

  lemma {:induction false} ShrTwice(x: nat, m: nat, n: nat)
    ensures Shr(x, m + n) == Shr(Shr(x, m), n)
    decreases m
  {
    if m > 0 {
      ShrTwice(x / 2, m - 1, n);
    }
  }

  function OffsetOf(im: Image, l1Index: nat, l2Index: nat, inCluster: nat): nat {
    inCluster + Scale(l2Index + Scale(l1Index, im.tableBits), im.clusterBits)
  }

  /** Every offset is made of exactly one triple of indices within bounds. */
  lemma SplitOffset(im: Image, x: nat, l1Index: nat, l2Index: nat, inCluster: nat)
    requires l2Index < Pow2(im.tableBits) && inCluster < Pow2(im.clusterBits)
    ensures x == OffsetOf(im, l1Index, l2Index, inCluster)
            <==> && l1Index == Shr(x, im.clusterBits + im.tableBits)
                 && l2Index == Low(Shr(x, im.clusterBits), im.tableBits)
                 && inCluster == Low(x, im.clusterBits)
  {
    var cluster := Shr(x, im.clusterBits);
    ShrTwice(x, im.clusterBits, im.tableBits);
    LowShr(x, im.clusterBits);
    LowShr(cluster, im.tableBits);
    LowShrUnique(inCluster, l2Index + Scale(l1Index, im.tableBits), im.clusterBits);
    LowShrUnique(l2Index, l1Index, im.tableBits);
  }

  /** Within a cluster, two bytes are the same distance from each other on the disk and in the file. */
  lemma LocateWithin(im: Image, x: nat, i: nat)
    requires Low(x, im.clusterBits) + i < Pow2(im.clusterBits)
    ensures Shr(x + i, im.clusterBits) == Shr(x, im.clusterBits)
    ensures Low(x + i, im.clusterBits) == Low(x, im.clusterBits) + i
    ensures Shr(x + i, im.clusterBits + im.tableBits) == Shr(x, im.clusterBits + im.tableBits)
  {
    LowShr(x, im.clusterBits);
    LowShrUnique(Low(x, im.clusterBits) + i, Shr(x, im.clusterBits), im.clusterBits);
    ShrTwice(x, im.clusterBits, im.tableBits);
    ShrTwice(x + i, im.clusterBits, im.tableBits);
  }

  /** So a read of part of a cluster, from a place that does not fail, is a read of each of its bytes. */
  lemma ByteWithin(im: Image, x: nat, i: nat, was: byte)
    requires Openable(im) && Low(x, im.clusterBits) + i < Pow2(im.clusterBits) && !Fails(im, x)
    ensures var here := Locate(im, x);
            ByteOf(im, x + i, was) == FileByte(im, if here.InFile? then InFile(here.pos + i) else here, was)
  {
    hide TableAt, Low, Shr, Pow2, FileByte;
    LocateWithin(im, x, i);
    Pow2Monotone(im.clusterBits, 26);
    Pow2Of26();
    ZeroByte(im, was);
    if Locate(im, x).InFile? {
      var table := TableAt(im, im.l1[Shr(x, im.clusterBits + im.tableBits)]).value;
      var e := table[Low(Shr(x, im.clusterBits), im.tableBits)];
      PlaceWithin(im, e, Low(x, im.clusterBits), i, was);
    }
  }

  lemma Pow2Of26()
    ensures Pow2(26) == 0x400_0000
  {
    Pow2Of8();
    Pow2Of16();
    ScalePow2(16, 8);
    Scale8(Pow2(16));
    assert Pow2(26) == 2 * Pow2(25) == 4 * Pow2(24);
  }

  lemma PlaceWithin(im: Image, e: nat, inCluster: nat, i: nat, was: byte)
    requires |im.file| <= TWO_TO_63 && i < 0x400_0000 && e > 1
    requires EntryPlace(e, inCluster).pos >= 0
    ensures FileByte(im, EntryPlace(e, inCluster + i), was)
            == FileByte(im, InFile(EntryPlace(e, inCluster).pos + i), was)
  {}

  /** What the caller's buffer held shows through exactly where a data cluster lies beyond the end of the
      file, or behind a table that is not there. */
  lemma BufferShows(im: Image, x: nat)
    ensures (forall a: byte, b: byte :: ByteOf(im, x, a) == ByteOf(im, x, b))
            <==> Locate(im, x).Zeros? || (Locate(im, x).InFile? && 0 <= Locate(im, x).pos < |im.file|)
  {
    assert ByteOf(im, x, 0) == ByteOf(im, x, 1)
           <==> Locate(im, x).Zeros? || (Locate(im, x).InFile? && 0 <= Locate(im, x).pos < |im.file|);
  }

  /** Eight bytes, the lowest first, as a number. */
  function Word64(file: seq<byte>, q: nat): nat
    requires q + 8 <= |file|
  {
    file[q] as nat + 0x100 * (file[q + 1] as nat) + 0x1_0000 * (file[q + 2] as nat)
    + 0x100_0000 * (file[q + 3] as nat) + 0x1_0000_0000 * (file[q + 4] as nat)
    + 0x100_0000_0000 * (file[q + 5] as nat) + 0x1_0000_0000_0000 * (file[q + 6] as nat)
    + 0x100_0000_0000_0000 * (file[q + 7] as nat)
  }

  lemma WordIs(file: seq<byte>, q: nat)
    requires q + 8 <= |file|
    ensures LittleEndian(file[q..q + 8]) == Word64(file, q)
  {
    var w := file[q..q + 8];
    Peel(w);
    Peel(w[1..]);
    Peel(w[2..]);
    Peel(w[3..]);
    Peel(w[4..]);
    Peel(w[5..]);
    Peel(w[6..]);
    Peel(w[7..]);
    assert w[8..] == [] && LittleEndian([]) == 0;
    hide LittleEndian;
  }

  lemma Peel(w: seq<byte>)
    requires w != []
    ensures LittleEndian(w) == w[0] + 256 * LittleEndian(w[1..])
    ensures forall k :: 1 <= k < |w| ==> w[1..][k - 1] == w[k]
  {}

  /** Entry i of a page table is the word 8 * i bytes into it. */
  lemma {:induction false} EntryIs(file: seq<byte>, pos: nat, n: nat, i: nat)
    requires pos + 8 * n <= |file| && i < n
    ensures Entries(file, pos, n)[i] == Word64(file, pos + 8 * i)
    decreases n
  {
    if i == 0 {
      WordIs(file, pos);
    } else {
      EntryIs(file, pos + 8, n - 1, i - 1);
    }
    hide LittleEndian, Word64;
  }

  /** What is at byte c of the cluster with indices i and j: zero where there is no table or no cluster, otherwise the
      byte of the file that is c behind where the table's entry j points. */
  lemma ByteOfCluster(im: Image, i: nat, j: nat, c: nat, was: byte)
    requires j < Pow2(im.tableBits) && c < Pow2(im.clusterBits)
    ensures i >= |im.l1| || im.l1[i] == 0 ==> ByteOf(im, OffsetOf(im, i, j, c), was) == 0
    ensures i < |im.l1| && im.l1[i] > 0 && TWO_TO_63 <= im.l1[i] ==> Fails(im, OffsetOf(im, i, j, c))
    ensures i < |im.l1| && im.l1[i] > 0 && |im.file| < im.l1[i] + 8 * Pow2(im.tableBits) ==>
      Fails(im, OffsetOf(im, i, j, c))
    ensures i < |im.l1| && 0 < im.l1[i] < TWO_TO_63 && im.l1[i] + 8 * Pow2(im.tableBits) <= |im.file| ==>
      var e := Word64(im.file, im.l1[i] + 8 * j);
      && (e <= 1 ==> ByteOf(im, OffsetOf(im, i, j, c), was) == 0)
      && (e > 1 && e + c < TWO_TO_63 ==>
            ByteOf(im, OffsetOf(im, i, j, c), was) == if e + c < |im.file| then im.file[e + c] else was)
      && (e > 1 && TWO_TO_63 <= e + c < TWO_TO_64 ==> Fails(im, OffsetOf(im, i, j, c)))
  {
    hide Entries, Word64, OffsetOf, Shr, Low, Pow2;
    SplitOffset(im, OffsetOf(im, i, j, c), i, j, c);
    if i < |im.l1| && 0 < im.l1[i] < TWO_TO_63 && im.l1[i] + 8 * Pow2(im.tableBits) <= |im.file| {
      EntryIs(im.file, im.l1[i], Pow2(im.tableBits), j);
    }
  }

  /** An image whose only data cluster, at 12288, would begin where the file ends: a cluster with the header, one
      with the first-level table at 4096, and one with the second-level table at 8192. */
  function CutShort(): Image {
    Image(seq(12288, i => if i == 4097 then 32 else if i == 8193 then 48 else 0), 12, 9, [8192], 4096)
  }

  /** None of its bytes is read, whatever the buffer held. */
  lemma CutShortShows(x: nat, was: byte)
    requires x < CutShort().size
    ensures Openable(CutShort()) && Locate(CutShort(), x) == InFile(12288 + x) && ByteOf(CutShort(), x, was) == was
  {
    hide CutShort, Openable, Locate, Low, Shr, TableAt, Pow2, FileByte;
    CutShortIs();
    var im := CutShort();
    InFirstCluster(im, x);
    FirstEntry(im);
    LocateFirst(im, x);
    PastEnd(im, 12288 + x, was);
  }

  lemma PastEnd(im: Image, pos: nat, was: byte)
    requires pos >= |im.file|
    ensures FileByte(im, InFile(pos), was) == was
  {}

  lemma LocateFirst(im: Image, x: nat)
    requires Shr(x, im.clusterBits + im.tableBits) == 0 && im.l1 == [8192] && TableAt(im, 8192).Some? && x < 4096
    requires Low(Shr(x, im.clusterBits), im.tableBits) == 0 && TableAt(im, 8192).value[0] == 12288
    requires Low(x, im.clusterBits) == x
    ensures Locate(im, x) == InFile(12288 + x)
  {
    hide Shr, Low, TableAt;
  }

  lemma CutShortIs()
    ensures var im := CutShort();
            && Openable(im) && im.clusterBits == 12 && im.tableBits == 9 && im.l1 == [8192] && |im.file| == 12288
            && im.size == 4096 && forall i :: 8192 <= i < 8200 ==> im.file[i] == (if i == 8193 then 48 else 0)
  {}

  lemma InFirstCluster(im: Image, x: nat)
    requires im.clusterBits == 12 && x < 4096
    ensures Shr(x, im.clusterBits) == 0 && Low(x, im.clusterBits) == x
    ensures Shr(x, im.clusterBits + im.tableBits) == 0 && Low(0, im.tableBits) == 0
  {
    Pow2Of8();
    ScalePow2(8, 4);
    assert Pow2(12) == 4096;
    LowSmall(x, im.clusterBits);
    ShrTwice(x, im.clusterBits, im.tableBits);
    LowSmall(0, im.tableBits);
  }

  lemma FirstEntry(im: Image)
    requires im.tableBits == 9 && |im.file| == 12288 && im.l1 == [8192]
    requires forall i :: 8192 <= i < 8200 ==> im.file[i] == (if i == 8193 then 48 else 0)
    ensures TableAt(im, 8192).Some? && TableAt(im, 8192).value[0] == 12288
  {
    Pow2Of8();
    assert Pow2(9) == 2 * Pow2(8);
    var word := im.file[8192..8200];
    assert word == [0, 48, 0, 0, 0, 0, 0, 0];
    LittleEndianOf(word);
    EntriesFirst(im.file, 8192, Pow2(9));
  }

  lemma LittleEndianOf(word: seq<byte>)
    requires word == [0, 48, 0, 0, 0, 0, 0, 0]
    ensures LittleEndian(word) == 12288
  {
    assert word[1..] == [48, 0, 0, 0, 0, 0, 0];
    assert word[2..] == [0, 0, 0, 0, 0, 0] && word[1..][1..] == word[2..];
    ZerosLittleEndian(word[2..]);
  }

  lemma {:induction false} ZerosLittleEndian(s: seq<byte>)
    requires forall i :: 0 <= i < |s| ==> s[i] == 0
    ensures LittleEndian(s) == 0
  {
    if s != [] {
      ZerosLittleEndian(s[1..]);
    }
  }

  lemma EntriesFirst(file: seq<byte>, pos: nat, n: nat)
    requires 0 < n && pos + 8 * n <= |file|
    ensures Entries(file, pos, n)[0] == LittleEndian(file[pos..pos + 8])
  {}

  // ---- reading ----

  datatype Outcome = Fine | Eof | Error

  /** Reads from the file as far as it goes: less than asked for is an end of file. */
  method ReadFile(im: Image, p: array<byte>, start: nat, n: nat, pos: int) returns (outcome: Outcome)
    requires start + n <= p.Length
    modifies p
    ensures outcome == if pos < 0 then Error else if pos + n > |im.file| then Eof else Fine
    ensures forall i :: 0 <= i < p.Length && !(start <= i < start + n) ==> p[i] == old(p[i])
    ensures forall i :: start <= i < start + n ==>
      p[i] == if pos < 0 then old(p[i]) else FileByte(im, InFile(pos + (i - start)), old(p[i]))
  {
    if pos < 0 {
      return Error;
    }
    for k := 0 to n
      invariant forall i :: 0 <= i < p.Length && !(start <= i < start + k) ==> p[i] == old(p[i])
      invariant forall i :: start <= i < start + k ==> p[i] == FileByte(im, InFile(pos + (i - start)), old(p[i]))
    {
      if pos + k < |im.file| {
        p[start + k] := im.file[pos + k];
      }
    }
    outcome := if pos + n > |im.file| then Eof else Fine;
  }

  class Disk {
    const im: Image
    const cache: TableCache

    constructor (im: Image, cache: TableCache)
      ensures this.im == im && this.cache == cache
    {
      this.im, this.cache := im, cache;
    }

    ghost predicate Valid()
      reads cache
    {
      Openable(im) && Sound(cache.State(), (offset: nat) => TableAt(im, offset))
    }

    /** Where byte x is, by way of the table cache. */
    method Translate(x: nat) returns (place: Place)
      requires Valid()
      modifies cache
      ensures Valid() && place == Locate(im, x)
    {
      var cluster, inCluster := Shr(x, im.clusterBits), Low(x, im.clusterBits);
      place := Zeros;
      var l1Index := Shr(x, im.clusterBits + im.tableBits);
      if l1Index < |im.l1| {
        var l2Offset := im.l1[l1Index];
        if l2Offset != 0 {
          var l2 := cache.Lookup(l2Offset, (offset: nat) => TableAt(im, offset));
          if l2.None? {
            return NoTable;
          }
          var e := l2.value[Low(cluster, im.tableBits)];
          place := EntryPlace(e, inCluster);
        }
      }
    }

    /** Fills p with one part of a cluster, p[start..start + n] from byte x of the disk on. */
    method ReadPart(p: array<byte>, start: nat, n: nat, x: nat) returns (ok: bool)
      requires Valid() && start + n <= p.Length && n > 0 && Low(x, im.clusterBits) + n <= Pow2(im.clusterBits)
      modifies p, cache
      ensures Valid()
      ensures ok == !Fails(im, x)
      ensures forall i :: 0 <= i < p.Length && !(ok && start <= i < start + n) ==> p[i] == old(p[i])
      ensures ok ==> forall i :: start <= i < start + n ==> p[i] == ByteOf(im, x + (i - start), old(p[i]))
    {
      var place := Translate(x);
      if place.NoTable? {
        return false;
      }
      hide Locate, FileByte, ByteOf;
      if place.InFile? {
        var outcome := ReadFile(im, p, start, n, place.pos);
        ok := outcome != Error;
      } else {
        for k := 0 to n
          invariant forall i :: 0 <= i < p.Length && !(start <= i < start + k) ==> p[i] == old(p[i])
          invariant forall i :: start <= i < start + k ==> p[i] == 0
          modifies p
        {
          p[start + k] := 0;
        }
        ok := true;
      }
      if ok {
        forall i | start <= i < start + n
          ensures p[i] == ByteOf(im, x + (i - start), old(p[i]))
        {
          ByteWithin(im, x, i - start, old(p[i]));
          ZeroByte(im, old(p[i]));
        }
      }
    }

    /** How many bytes a read asks for: all, or up to the end of the disk. */
    function Asked(length: nat, off: int): (n: nat)
      ensures if 0 <= off < im.size then n <= length && off + n <= im.size && (n == length || off + n == im.size)
              else n == 0
    {
      if off < 0 || off >= im.size then 0 else if length <= im.size - off then length else im.size - off
    }

    /** Gathers the bytes of the disk from off on, cluster by cluster. */
    method ReadAt(p: array<byte>, off: int) returns (total: nat, outcome: Outcome)
      requires Valid()
      modifies p, cache
      ensures Valid() && total <= Asked(p.Length, off)
      ensures outcome.Eof? <==> off >= 0 && Asked(p.Length, off) == 0
      ensures outcome.Fine? ==> total == Asked(p.Length, off) > 0
      ensures outcome.Error? <==> off < 0 || exists x: nat :: FailsIn(im, off, Asked(p.Length, off), x)
      ensures outcome.Error? && off >= 0 ==> FailsIn(im, off, Asked(p.Length, off), off + total)
      ensures forall i :: 0 <= i < total ==> off >= 0 && p[i] == ByteOf(im, off + i, old(p[i]))
      ensures forall i :: total <= i < p.Length ==> p[i] == old(p[i])
    {
      if off < 0 {
        return 0, Error;
      }
      if off >= im.size {
        return 0, Eof;
      }
      var n: nat := if p.Length > im.size - off then im.size - off else p.Length;
      total := 0;
      hide Valid, Fails, ByteOf;
      while total < n
        invariant Valid() && total <= n
        invariant total < n ==> StartsRead(im, off, off + total)
        invariant forall x: nat :: off <= x < off + total && StartsRead(im, off, x) ==> !Fails(im, x)
        invariant forall i :: 0 <= i < total ==> p[i] == ByteOf(im, off + i, old(p[i]))
        invariant forall i :: total <= i < p.Length ==> p[i] == old(p[i])
      {
        var x := off + total;
        var inCluster := Low(x, im.clusterBits);
        var k: nat := n - total;
        if Pow2(im.clusterBits) - inCluster < k {
          k := Pow2(im.clusterBits) - inCluster;
        }
        ghost var before := p[..];
        var ok := ReadPart(p, total, k, x);
        if !ok {
          assert FailsIn(im, off, n, x);
          return total, Error;
        }
        NoOtherStart(im, off, x, k);
        total := total + k;
      }
      outcome := if total == 0 then Eof else Fine;
    }
  }

  lemma ZeroByte(im: Image, was: byte)
    ensures FileByte(im, Zeros, was) == 0
  {}

  /** A read of a range is one read of the file for each cluster it meets. */
  predicate StartsRead(im: Image, off: nat, x: nat) {
    x == off || Low(x, im.clusterBits) == 0
  }

  predicate FailsIn(im: Image, off: int, n: int, x: nat) {
    0 <= off <= x < off + n && StartsRead(im, off, x) && Fails(im, x)
  }

  lemma NoOtherStart(im: Image, off: nat, x: nat, k: nat)
    requires off <= x && 0 < k && Low(x, im.clusterBits) + k <= Pow2(im.clusterBits)
    ensures forall y: nat :: x < y < x + k ==> !StartsRead(im, off, y)
    ensures Low(x, im.clusterBits) + k == Pow2(im.clusterBits) ==> StartsRead(im, off, x + k)
  {
    var n := im.clusterBits;
    forall y: nat | x < y < x + k
      ensures !StartsRead(im, off, y)
    {
      LocateWithin(im, x, y - x);
    }
    if Low(x, n) + k == Pow2(n) {
      LowShr(x, n);
      ScaleAdd(Shr(x, n), 1, n);
      ScalePow2(0, n);
      LowShrUnique(0, Shr(x, n) + 1, n);
    }
  }
}
