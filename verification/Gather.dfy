/** Disks put together from pieces: what each byte of the whole is, and copying part of a piece into a
    buffer. */
module Gather {
  import opened Bits

  /** Where the bytes of a piece come from: nowhere, so that they are zero, an offset of the file, or a word
      that is repeated. */
  datatype Source = Nothing | File(pos: int) | Fill(word: nat)

  datatype Piece = Piece(n: nat, source: Source)

  // ---- the whole as one flat image ----

  function Total(pieces: seq<Piece>): nat {
    if pieces == [] then 0 else Total(pieces[..|pieces| - 1]) + pieces[|pieces| - 1].n
  }

  /** Byte k of a piece; None where the file has no such byte. */
  function ByteOf(file: seq<byte>, source: Source, k: nat): Option<byte> {
    match source
    case Nothing => Some(0)
    case File(pos) => if 0 <= pos + k < |file| then Some(file[pos + k]) else None
    case Fill(word) => Some(Shr(word, 8 * (k % 4)) % 256)
  }

  /** Byte x of the whole. */
  function Flat(file: seq<byte>, pieces: seq<Piece>, x: nat): Option<byte> {
    if pieces == [] then None
    else
      var front, last := pieces[..|pieces| - 1], pieces[|pieces| - 1];
      if x < Total(front) then Flat(file, front, x)
      else if x - Total(front) < last.n then ByteOf(file, last.source, x - Total(front))
      else None
  }

  function StartOf(pieces: seq<Piece>, i: nat): nat
    requires i <= |pieces|
  {
    Total(pieces[..i])
  }

  lemma StartNext(pieces: seq<Piece>, i: nat)
    requires i < |pieces|
    ensures StartOf(pieces, i + 1) == StartOf(pieces, i) + pieces[i].n
  {
    assert pieces[..i + 1][..i] == pieces[..i];
  }

  lemma {:induction false} StartsGrow(pieces: seq<Piece>, i: nat, j: nat)
    requires i <= j <= |pieces|
    ensures StartOf(pieces, i) <= StartOf(pieces, j)
    decreases j - i
  {
    if i < j {
      StartNext(pieces, i);
      StartsGrow(pieces, i + 1, j);
    }
  }

  lemma StartsEnd(pieces: seq<Piece>)
    ensures StartOf(pieces, 0) == 0 && StartOf(pieces, |pieces|) == Total(pieces)
  {
    assert pieces[..|pieces|] == pieces;
  }

  /** Byte k of piece i lies k bytes after the pieces before it. */
  lemma {:induction false} FlatAt(file: seq<byte>, pieces: seq<Piece>, i: nat, k: nat)
    requires i < |pieces| && k < pieces[i].n
    ensures Flat(file, pieces, StartOf(pieces, i) + k) == ByteOf(file, pieces[i].source, k)
    ensures StartOf(pieces, i) + k < Total(pieces)
    decreases |pieces|
  {
    var n := |pieces| - 1;
    var front := pieces[..n];
    if i < n {
      FlatAt(file, front, i, k);
      assert front[..i] == pieces[..i];
    }
  }

  /** The pieces tile the whole: every byte is in exactly one of them, which is the last that starts no later. */
  lemma TileOf(pieces: seq<Piece>, x: nat, i: nat)
    requires i < |pieces| && StartOf(pieces, i) <= x
    requires i + 1 == |pieces| || StartOf(pieces, i + 1) > x
    ensures x < Total(pieces) ==> x < StartOf(pieces, i) + pieces[i].n
  {
    StartNext(pieces, i);
    StartsEnd(pieces);
  }

  /** One more piece changes nothing before it, and lies at the end. */
  lemma FlatMore(file: seq<byte>, pieces: seq<Piece>, q: Piece, x: nat)
    ensures Total(pieces + [q]) == Total(pieces) + q.n
    ensures Flat(file, pieces + [q], x)
            == if x < Total(pieces) then Flat(file, pieces, x)
               else if x < Total(pieces) + q.n then ByteOf(file, q.source, x - Total(pieces))
               else None
  {
    assert (pieces + [q])[..|pieces|] == pieces;
  }

  /** The bytes of a repeated word, the lowest first. */
  lemma FillByte(file: seq<byte>, word: nat, k: nat)
    ensures ByteOf(file, Fill(word), k)
            == Some((if k % 4 == 0 then word else if k % 4 == 1 then word / 0x100
                     else if k % 4 == 2 then word / 0x1_0000 else word / 0x100_0000) % 256)
  {
    ShrBytes(word);
    hide Shr;
    var j := k % 4;
    assert j == 0 || j == 1 || j == 2 || j == 3;
  }

  lemma ShrBytes(word: nat)
    ensures Shr(word, 0) == word && Shr(word, 8) == word / 0x100
    ensures Shr(word, 16) == word / 0x1_0000 && Shr(word, 24) == word / 0x100_0000
  {
    ShrByte(word);
    ShrByte(word / 0x100);
    ShrByte(word / 0x1_0000);
    ShrMoreBytes(word, 8, 8);
    ShrMoreBytes(word, 16, 8);
    assert Shr(word, 0) == word;
    hide Shr;
    assert word / 0x100 / 0x100 == word / 0x1_0000 && word / 0x1_0000 / 0x100 == word / 0x100_0000;
  }

  lemma ShrByte(word: nat)
    ensures Shr(word, 8) == word / 0x100
  {
    Pow2Of8();
    Scale8(word / 0x100);
    LowShrUnique(word % 0x100, word / 0x100, 8);
    hide Shr, Scale, Pow2;
    assert word == word % 0x100 + 0x100 * (word / 0x100);
  }

  lemma {:induction false} ShrMoreBytes(word: nat, m: nat, n: nat)
    ensures Shr(word, m + n) == Shr(Shr(word, m), n)
    decreases m
  {
    if m > 0 {
      ShrMoreBytes(word / 2, m - 1, n);
    }
  }

  // ---- copying ----

  /** Up to n bytes of a source from its byte k on, into the buffer from at on; fewer if the file ends. */
  method CopyPart(p: array<byte>, at: nat, n: nat, file: seq<byte>, source: Source, k: nat) returns (got: nat)
    requires at + n <= p.Length
    modifies p
    ensures got <= n && (got < n ==> ByteOf(file, source, k + got).None?)
    ensures forall j :: at <= j < at + got ==> Some(p[j]) == ByteOf(file, source, k + (j - at))
    ensures forall j :: 0 <= j < p.Length && !(at <= j < at + got) ==> p[j] == old(p[j])
  {
    got := 0;
    while got < n
      invariant got <= n
      invariant forall j :: at <= j < at + got ==> Some(p[j]) == ByteOf(file, source, k + (j - at))
      invariant forall j :: 0 <= j < p.Length && !(at <= j < at + got) ==> p[j] == old(p[j])
    {
      var b := ByteOf(file, source, k + got);
      if b.None? {
        return;
      }
      p[at + got] := b.value;
      got := got + 1;
    }
  }

  /** Filling p from byte off of the whole on has come to done. */
  ghost predicate Filled(file: seq<byte>, pieces: seq<Piece>, off: nat, now: seq<byte>, was: seq<byte>, done: nat) {
    && done <= |now| == |was|
    && (forall j :: 0 <= j < done ==> Flat(file, pieces, off + j) == Some(now[j]))
    && forall j :: done <= j < |now| ==> now[j] == was[j]
  }

  lemma FilledAll(file: seq<byte>, pieces: seq<Piece>, off: nat, now: seq<byte>, was: seq<byte>, done: nat)
    requires Filled(file, pieces, off, now, was, done)
    ensures forall x: nat :: off <= x < off + done ==> Flat(file, pieces, x) != None
  {
    hide Flat;
    forall x: nat | off <= x < off + done
      ensures Flat(file, pieces, x) != None
    {
      assert Flat(file, pieces, off + (x - off)) == Some(now[x - off]);
    }
  }

  /** One more part, all of it in piece i, where the filling has come to byte k of it. */
  method FillFrom(p: array<byte>, ghost was: seq<byte>, done: nat, n: nat, file: seq<byte>,
                  ghost pieces: seq<Piece>, ghost off: nat, source: Source, ghost i: nat, k: nat)
    returns (got: nat)
    requires done + n <= p.Length && Filled(file, pieces, off, p[..], was, done)
    requires i < |pieces| && pieces[i].source == source && k + n <= pieces[i].n
    requires off + done == StartOf(pieces, i) + k
    modifies p
    ensures got <= n && Filled(file, pieces, off, p[..], was, done + got)
    ensures got < n ==> Flat(file, pieces, off + done + got) == None
  {
    hide Flat, ByteOf, StartOf;
    ghost var before := p[..];
    got := CopyPart(p, done, n, file, source, k);
    forall j | done <= j < done + got
      ensures Flat(file, pieces, off + j) == Some(p[j])
    {
      FlatAt(file, pieces, i, k + (j - done));
    }
    if got < n {
      FlatAt(file, pieces, i, k + got);
    }
  }
}
