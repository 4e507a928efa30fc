/** Replaying a captured tar stream: pieces of captured bytes, each followed by a hole that reads as zeros. */
module Replays {
  import opened Bits

  /** n bytes of the capture from off on, then a hole. */
  datatype Piece = Piece(off: nat, n: nat, hole: nat)

  predicate InBounds(data: seq<byte>, runs: seq<Piece>) {
    forall r :: r in runs ==> r.off + r.n <= |data|
  }

  function PieceBytes(data: seq<byte>, r: Piece): (s: seq<byte>)
    requires r.off + r.n <= |data|
    ensures |s| == r.n + r.hole
  {
    data[r.off..r.off + r.n] + Zeros(r.hole)
  }

  /** The stream that is replayed. */
  function Content(data: seq<byte>, runs: seq<Piece>): seq<byte>
    requires InBounds(data, runs)
  {
    if runs == [] then []
    else Content(data, runs[..|runs| - 1]) + PieceBytes(data, runs[|runs| - 1])
  }

  function Length(runs: seq<Piece>): nat {
    if runs == [] then 0 else Length(runs[..|runs| - 1]) + runs[|runs| - 1].n + runs[|runs| - 1].hole
  }

  lemma {:induction false} ContentLength(data: seq<byte>, runs: seq<Piece>)
    requires InBounds(data, runs)
    ensures |Content(data, runs)| == Length(runs)
  {
    if runs != [] {
      ContentLength(data, runs[..|runs| - 1]);
    }
  }

  /** Piece i of the stream lies after the ones before it. */
  lemma {:induction false} PieceAt(data: seq<byte>, runs: seq<Piece>, i: nat)
    requires InBounds(data, runs) && i < |runs|
    ensures Length(runs[..i + 1]) == Length(runs[..i]) + runs[i].n + runs[i].hole <= Length(runs)
    ensures |Content(data, runs)| == Length(runs)
    ensures Content(data, runs)[Length(runs[..i])..Length(runs[..i + 1])] == PieceBytes(data, runs[i])
    decreases |runs|
  {
    var front, last := runs[..|runs| - 1], runs[|runs| - 1];
    ContentLength(data, runs);
    ContentLength(data, front);
    if i == |runs| - 1 {
      assert runs[..i + 1] == runs;
    } else {
      PieceAt(data, front, i);
      assert front[..i + 1] == runs[..i + 1] && front[..i] == runs[..i];
    }
  }

  class ReplayReader {
    const data: seq<byte>
    const runs: seq<Piece>
    var i: nat
    var off: nat
    var hole: nat
    var pos: nat

    constructor (data: seq<byte>, runs: seq<Piece>)
      requires InBounds(data, runs)
      ensures Valid() && this.data == data && this.runs == runs && pos == 0
    {
      this.data, this.runs := data, runs;
      i, off, hole, pos := 0, 0, 0, 0;
    }

    ghost predicate Valid()
      reads this
    {
      && InBounds(data, runs) && i <= |runs|
      && pos == Length(runs[..i]) + off + hole
      && (i < |runs| ==> off <= runs[i].n && hole <= runs[i].hole && (hole > 0 ==> off == runs[i].n))
      && (i == |runs| ==> off == hole == 0)
    }

    ghost function Stream(): seq<byte>
      reads this
      requires Valid()
    {
      Content(data, runs)
    }

    /** Past the end of a piece: on to the next. */
    method NextPiece()
      requires Valid() && i < |runs| && off == runs[i].n && hole == runs[i].hole
      modifies this`i, this`off, this`hole
      ensures Valid() && i == old(i) + 1 && off == hole == 0
    {
      PieceAt(data, runs, i);
      i, off, hole := i + 1, 0, 0;
    }

    /** The next k bytes of the piece the reader is in, all captured or all in the hole. */
    lemma InPiece(k: nat)
      requires Valid() && i < |runs|
      requires (off + k <= runs[i].n && hole == 0) || (off == runs[i].n && hole + k <= runs[i].hole)
      ensures pos + k <= |Stream()|
      ensures off + k <= runs[i].n && hole == 0 ==>
        Stream()[pos..pos + k] == data[runs[i].off + off..runs[i].off + off + k]
      ensures off == runs[i].n ==> Stream()[pos..pos + k] == Zeros(k)
    {
      SliceOfPiece(data, runs, i, off + hole, k);
      PieceSlice(data, runs[i], off + hole, k);
      hide Content, Length, PieceBytes, Zeros;
    }

    /** Part of what is left of the piece the reader is in, if anything is, into p from n on. */
    method ReadStep(p: array<byte>, n: nat) returns (k: nat)
      requires Valid() && n < p.Length && i < |runs|
      modifies this`i, this`off, this`hole, this`pos, p
      ensures Valid() && n + k <= p.Length && pos == old(pos) + k <= |Stream()|
      ensures p[..n + k] == old(p[..n]) + Stream()[old(pos)..pos]
      ensures forall j :: n + k <= j < p.Length ==> p[j] == old(p[j])
      ensures k > 0 || i == old(i) + 1
      ensures i == old(i) || i == old(i) + 1
    {
      var run := runs[i];
      Bounded();
      if off < run.n {
        k := if p.Length - n < run.n - off then p.Length - n else run.n - off;
        InPiece(k);
        CopyInto(p, n, data[run.off + off..run.off + off + k]);
        off, pos := off + k, pos + k;
      } else if hole < run.hole {
        k := if p.Length - n > run.hole - hole then run.hole - hole else p.Length - n;
        InPiece(k);
        CopyInto(p, n, Zeros(k));
        hole, pos := hole + k, pos + k;
      } else {
        k := 0;
        NextPiece();
      }
      hide Content, Length, PieceBytes, Zeros;
    }

    /** Fills p from the stream, as far as it goes. */
    method Read(p: array<byte>) returns (n: nat, eof: bool)
      requires Valid()
      modifies this`i, this`off, this`hole, this`pos, p
      ensures Valid() && Stream() == old(Stream())
      ensures n == (if p.Length <= |Stream()| - old(pos) then p.Length else |Stream()| - old(pos))
      ensures pos == old(pos) + n && (eof <==> n == 0)
      ensures p[..n] == Stream()[old(pos)..pos] && p[n..] == old(p[n..])
    {
      n := 0;
      hide Content, Length, PieceBytes;
      Bounded();
      while n < p.Length && i < |runs|
        invariant Valid() && n <= p.Length && pos == old(pos) + n <= |Stream()|
        invariant p[..n] == Stream()[old(pos)..pos]
        invariant forall j :: n <= j < p.Length ==> p[j] == old(p[j])
        decreases |runs| - i, |Stream()| - pos
      {
        ghost var from := pos;
        var k := ReadStep(p, n);
        Joined(Stream(), old(pos), from, pos);
        n := n + k;
      }
      if i == |runs| {
        AtEnd();
      }
      eof := n == 0;
    }

    lemma Bounded()
      requires Valid()
      ensures pos <= |Stream()|
    {
      ContentLength(data, runs);
      if i < |runs| {
        PieceAt(data, runs, i);
      } else {
        assert runs[..i] == runs;
      }
    }

    lemma AtEnd()
      requires Valid() && i == |runs|
      ensures pos == |Stream()|
    {
      ContentLength(data, runs);
      assert runs[..i] == runs;
    }

    /** Moves to a position of the stream, or to its end if that is nearer. */
    method Seek(offset: int, whence: Whence) returns (newPos: nat, ok: bool)
      requires Valid()
      modifies this`i, this`off, this`hole, this`pos
      ensures Valid() && Stream() == old(Stream())
      ensures var target := Target(whence, old(pos), |Stream()|, offset);
              && ok == (whence != Other && target >= 0)
              && newPos == pos
              && pos == (if !ok then old(pos) else if target < |Stream()| then target else |Stream()|)
    {
      ContentLength(data, runs);
      hide Content, Length, PieceBytes;
      Bounded();
      if whence == Other {
        return pos, false;
      }
      var length := StreamLength();
      var target := Target(whence, pos, length, offset);
      if target < 0 {
        return pos, false;
      }
      if target < pos {
        Rewind();
      }
      while pos < target && i < |runs|
        invariant Valid() && pos <= target
        decreases |runs| - i, target - pos
      {
        hide Valid;
        Step(target);
      }
      Bounded();
      if i == |runs| {
        AtEnd();
      }
      newPos, ok := pos, true;
    }

    /** Forward through the captured bytes of a piece, or else through its hole and on to the next piece. */
    method Step(target: nat)
      requires Valid() && pos < target && i < |runs|
      modifies this`i, this`off, this`hole, this`pos
      ensures Valid() && old(pos) <= pos <= target
      ensures i > old(i) || (i == old(i) && pos > old(pos))
    {
      var run := runs[i];
      var step: nat := run.n - off;
      if target - pos < step {
        step := target - pos;
      }
      if step > 0 {
        off, pos := off + step, pos + step;
        return;
      }
      step := run.hole - hole;
      if target - pos < step {
        step := target - pos;
      }
      hole, pos := hole + step, pos + step;
      if hole >= run.hole && off >= run.n {
        NextPiece();
      }
    }

    method Rewind()
      requires Valid()
      modifies this`i, this`off, this`hole, this`pos
      ensures Valid() && pos == 0
    {
      i, off, hole, pos := 0, 0, 0, 0;
    }

    method StreamLength() returns (n: nat)
      ensures n == Length(runs)
    {
      n := 0;
      for k := 0 to |runs|
        invariant n == Length(runs[..k])
      {
        assert runs[..k + 1][..k] == runs[..k];
        n := n + runs[k].n + runs[k].hole;
      }
      assert runs[..|runs|] == runs;
    }
  }

  lemma SliceOfPiece(data: seq<byte>, runs: seq<Piece>, i: nat, at: nat, k: nat)
    requires InBounds(data, runs) && i < |runs| && at + k <= runs[i].n + runs[i].hole
    ensures var pos := Length(runs[..i]) + at;
            pos + k <= |Content(data, runs)|
            && Content(data, runs)[pos..pos + k] == PieceBytes(data, runs[i])[at..at + k]
  {
    PieceAt(data, runs, i);
    hide Content, Length, PieceBytes, InBounds;
    SliceOfSlice(Content(data, runs), Length(runs[..i]), Length(runs[..i + 1]), at, k);
  }

  lemma PieceSlice(data: seq<byte>, r: Piece, at: nat, k: nat)
    requires r.off + r.n <= |data| && at + k <= r.n + r.hole
    ensures at + k <= r.n ==> PieceBytes(data, r)[at..at + k] == data[r.off + at..r.off + at + k]
    ensures at >= r.n ==> PieceBytes(data, r)[at..at + k] == Zeros(k)
  {
    var s := data[r.off..r.off + r.n];
    if at + k <= r.n {
      assert PieceBytes(data, r)[at..at + k] == s[at..at + k];
      SliceOfSlice(data, r.off, r.off + r.n, at, k);
    }
    if at >= r.n {
      assert PieceBytes(data, r)[at..at + k] == Zeros(r.hole)[at - r.n..at - r.n + k];
    }
  }

  lemma Joined(s: seq<byte>, a: nat, b: nat, c: nat)
    requires a <= b <= c <= |s|
    ensures s[a..c] == s[a..b] + s[b..c]
  {}

  datatype Whence = Start | Current | End | Other

  function Target(whence: Whence, pos: int, length: int, offset: int): int {
    match whence
    case Start => offset
    case Current => pos + offset
    case End => length + offset
    case Other => 0
  }

  method CopyInto(p: array<byte>, start: nat, s: seq<byte>)
    requires start + |s| <= p.Length
    modifies p
    ensures p[..start + |s|] == old(p[..start]) + s
    ensures forall j :: start + |s| <= j < p.Length ==> p[j] == old(p[j])
  {
    for k := 0 to |s|
      invariant p[..start] == old(p[..start]) && p[start..start + k] == s[..k]
      invariant forall j :: start + k <= j < p.Length ==> p[j] == old(p[j])
    {
      p[start + k] := s[k];
    }
  }
}
