/** Reading an NTFS attribute through its runlist: all of it at once, or a range of it. */
module RunReads {
  import opened Bits
  import opened Outcomes
  import opened Gather
  import opened Runlists

  /** A volume in an image file, and how many bytes a cluster has. */
  datatype Volume = Volume(file: seq<byte>, base: int, cluster: nat)

  function Bytes(v: Volume, r: Run): int {
    r.length * v.cluster
  }

  function SourceOf(v: Volume, r: Run, skip: int): Source {
    if r.lcn < 0 then Nothing else File(v.base + r.lcn * v.cluster + skip)
  }

  /** Where run i begins; a negative length before it brings it back. */
  function Pos(v: Volume, runs: seq<Run>, i: nat): int
    requires i <= |runs|
  {
    if i == 0 then 0 else Pos(v, runs, i - 1) + Bytes(v, runs[i - 1])
  }

  // ---- all at once: later runs over earlier ones ----

  /** So many bytes are not yet reached at run i, nor were they before. */
  predicate Under(v: Volume, runs: seq<Run>, size: int, i: nat)
    requires i <= |runs|
  {
    forall j :: 0 <= j <= i ==> Pos(v, runs, j) < size
  }

  /** Run i is to be read from the file, and byte x of the attribute is in it. */
  predicate Holds(v: Volume, runs: seq<Run>, size: int, i: nat, x: nat)
    requires i < |runs|
  {
    Under(v, runs, size, i) && runs[i].lcn >= 0 && Pos(v, runs, i) <= x < Pos(v, runs, i + 1)
  }

  /** Byte x of the file's part under run i, where it is in it. */
  function RunByte(v: Volume, runs: seq<Run>, i: nat, x: nat): Option<byte>
    requires i < |runs|
  {
    if x < Pos(v, runs, i) then None else ByteOf(v.file, SourceOf(v, runs[i], 0), x - Pos(v, runs, i))
  }

  /** What byte x reads as after i runs: as the last run says that holds it, or zero. */
  function Shown(v: Volume, runs: seq<Run>, size: int, i: nat, x: nat): Option<byte>
    requires i <= |runs|
  {
    if i == 0 then Some(0)
    else if Holds(v, runs, size, i - 1, x) then RunByte(v, runs, i - 1, x)
    else Shown(v, runs, size, i - 1, x)
  }

  /** There is no such slice of the buffer as run i is to be read to. */
  predicate Crashes(v: Volume, runs: seq<Run>, size: int, i: nat)
    requires i < |runs|
  {
    Under(v, runs, size, i) && runs[i].lcn >= 0 && (Pos(v, runs, i) < 0 || Bytes(v, runs[i]) < 0)
  }

  /** The file ends in what is read of run i. */
  predicate Lacks(v: Volume, runs: seq<Run>, size: int, i: nat)
    requires i < |runs|
  {
    exists x: nat :: x < size && Holds(v, runs, size, i, x) && RunByte(v, runs, i, x) == None
  }

  predicate Fine(v: Volume, runs: seq<Run>, size: int, i: nat)
    requires i < |runs|
  {
    !Crashes(v, runs, size, i) && !Lacks(v, runs, size, i)
  }

  predicate AllFine(v: Volume, runs: seq<Run>, size: int, n: nat)
    requires n <= |runs|
  {
    forall i :: 0 <= i < n ==> Fine(v, runs, size, i)
  }

  predicate CrashesFirst(v: Volume, runs: seq<Run>, size: int, i: nat) {
    i < |runs| && Crashes(v, runs, size, i) && AllFine(v, runs, size, i)
  }

  /** The buffer after n runs. */
  predicate Shows(v: Volume, runs: seq<Run>, n: nat, buf: seq<byte>)
    requires n <= |runs|
  {
    forall x: nat :: x < |buf| ==> Shown(v, runs, |buf|, n, x) == Some(buf[x])
  }

  /** The first `size` bytes of the attribute, in memory. A run may come back over what is there already. */
  method ReadRuns(v: Volume, runs: seq<Run>, size: int) returns (r: Outcome<seq<byte>>)
    ensures r.Returned? <==> size >= 0 && AllFine(v, runs, size, |runs|)
    ensures r.Panics? <==> size < 0 || exists i :: CrashesFirst(v, runs, size, i)
    ensures r.Returned? ==> |r.value| == size && Shows(v, runs, |runs|, r.value)
  {
    if size < 0 {
      return Panics;
    }
    hide Shown, Pos, Under, AllFine, CrashesFirst, Shows, Bytes, Fine;
    var buf := new byte[size](_ => 0);
    var written := 0;
    NoneDone(v, runs, buf[..]);
    for i := 0 to |runs|
      invariant written == if Under(v, runs, size, i) then Pos(v, runs, i) else size
      invariant AllFine(v, runs, size, i) && Shows(v, runs, i, buf[..])
    {
      if written >= size {
        NoMore(v, runs, i, |runs|, buf[..]);
        break;
      }
      var run := runs[i];
      var toRead := Bytes(v, run);
      NextPos(v, runs, size, i);
      if written + toRead > size {
        toRead := size - written;
      }
      if run.lcn < 0 {
        HoleLeaves(v, runs, i, buf[..]);
        written := written + toRead;
        continue;
      }
      if written < 0 || toRead < 0 {
        Crash(v, runs, size, i);
        return Panics;
      }
      ghost var was := buf[..];
      var got := CopyPart(buf, written, toRead, v.file, SourceOf(v, run, 0), 0);
      if got < toRead {
        Lack(v, runs, size, i, written + got);
        return Refused;
      }
      RunOver(v, runs, i, was, buf[..], toRead);
      written := written + toRead;
    }
    NoCrash(v, runs, size);
    r := Returned(buf[..]);
  }

  lemma NoneDone(v: Volume, runs: seq<Run>, buf: seq<byte>)
    requires forall x :: 0 <= x < |buf| ==> buf[x] == 0
    ensures AllFine(v, runs, |buf|, 0) && Shows(v, runs, 0, buf)
    ensures Pos(v, runs, 0) == 0 && (Under(v, runs, |buf|, 0) <==> |buf| > 0)
  {}

  lemma NextPos(v: Volume, runs: seq<Run>, size: int, i: nat)
    requires i < |runs|
    ensures Pos(v, runs, i + 1) == Pos(v, runs, i) + Bytes(v, runs[i])
    ensures Under(v, runs, size, i + 1) <==> Under(v, runs, size, i) && Pos(v, runs, i + 1) < size
  {
    hide Bytes;
  }

  /** Behind a run at which all bytes are reached nothing is read. */
  lemma {:induction false} NoMore(v: Volume, runs: seq<Run>, i: nat, n: nat, buf: seq<byte>)
    requires i <= n <= |runs| && (i < n ==> !Under(v, runs, |buf|, i))
    requires AllFine(v, runs, |buf|, i) && Shows(v, runs, i, buf)
    ensures AllFine(v, runs, |buf|, n) && Shows(v, runs, n, buf)
    decreases n
  {
    if i < n {
      NoMore(v, runs, i, n - 1, buf);
    }
  }

  lemma HoleLeaves(v: Volume, runs: seq<Run>, i: nat, buf: seq<byte>)
    requires i < |runs| && runs[i].lcn < 0 && AllFine(v, runs, |buf|, i) && Shows(v, runs, i, buf)
    ensures AllFine(v, runs, |buf|, i + 1) && Shows(v, runs, i + 1, buf)
  {
    hide Pos, Under;
  }

  lemma Crash(v: Volume, runs: seq<Run>, size: int, i: nat)
    requires i < |runs| && AllFine(v, runs, size, i) && Under(v, runs, size, i) && runs[i].lcn >= 0
    requires Pos(v, runs, i) < 0 || Bytes(v, runs[i]) < 0
    ensures CrashesFirst(v, runs, size, i) && !AllFine(v, runs, size, |runs|)
  {
    hide Pos, Under, Bytes, Lacks;
    assert !Fine(v, runs, size, i);
  }

  /** A run that ends a read with an error, all before it being fine. */
  lemma Lack(v: Volume, runs: seq<Run>, size: int, i: nat, x: nat)
    requires i < |runs| && Under(v, runs, size, i) && runs[i].lcn >= 0 && 0 <= Pos(v, runs, i) <= x < size
    requires AllFine(v, runs, size, i)
    requires Bytes(v, runs[i]) >= 0 && x < Pos(v, runs, i) + Bytes(v, runs[i])
    requires ByteOf(v.file, SourceOf(v, runs[i], 0), x - Pos(v, runs, i)) == None
    ensures !AllFine(v, runs, size, |runs|) && forall j :: !CrashesFirst(v, runs, size, j)
  {
    NextPos(v, runs, size, i);
    hide Pos, Under, Bytes, AllFine, CrashesFirst, SourceOf, ByteOf;
    assert Holds(v, runs, size, i, x) && RunByte(v, runs, i, x) == None;
    assert !Crashes(v, runs, size, i) && Lacks(v, runs, size, i);
    ErrorFirst(v, runs, size, i);
  }

  lemma ErrorFirst(v: Volume, runs: seq<Run>, size: int, i: nat)
    requires i < |runs| && AllFine(v, runs, size, i) && Lacks(v, runs, size, i) && !Crashes(v, runs, size, i)
    ensures !AllFine(v, runs, size, |runs|) && forall j :: !CrashesFirst(v, runs, size, j)
  {
    hide Crashes, Lacks;
    assert !Fine(v, runs, size, i);
    forall j: nat | j < |runs| && Crashes(v, runs, size, j)
      ensures !Fine(v, runs, size, j)
    {}
  }

  lemma NoCrash(v: Volume, runs: seq<Run>, size: int)
    requires AllFine(v, runs, size, |runs|)
    ensures forall j :: !CrashesFirst(v, runs, size, j)
  {
    hide Crashes, Lacks;
    forall j: nat | j < |runs| && Crashes(v, runs, size, j)
      ensures !Fine(v, runs, size, j)
    {}
  }

  lemma RunOver(v: Volume, runs: seq<Run>, i: nat, was: seq<byte>, now: seq<byte>, n: nat)
    requires i < |runs| && Under(v, runs, |was|, i) && runs[i].lcn >= 0 && 0 <= Pos(v, runs, i)
    requires Bytes(v, runs[i]) >= 0 && Pos(v, runs, i) + n <= |was| == |now|
    requires n == Bytes(v, runs[i]) || (n < Bytes(v, runs[i]) && Pos(v, runs, i) + n == |was|)
    requires AllFine(v, runs, |was|, i) && Shows(v, runs, i, was)
    requires forall j :: Pos(v, runs, i) <= j < Pos(v, runs, i) + n ==>
               Some(now[j]) == ByteOf(v.file, SourceOf(v, runs[i], 0), j - Pos(v, runs, i))
    requires forall j :: 0 <= j < |was| && !(Pos(v, runs, i) <= j < Pos(v, runs, i) + n) ==> now[j] == was[j]
    ensures AllFine(v, runs, |now|, i + 1) && Shows(v, runs, i + 1, now)
  {
    NextPos(v, runs, |was|, i);
    hide Pos, Under, Bytes, SourceOf, ByteOf, AllFine, Shows, Shown, Fine, Crashes, Lacks;
    forall x: nat | x < |now|
      ensures Holds(v, runs, |was|, i, x) ==> RunByte(v, runs, i, x) == Some(now[x])
      ensures !Holds(v, runs, |was|, i, x) ==> now[x] == was[x]
    {}
    FineThen(v, runs, i, now);
    ShowsThen(v, runs, i, was, now);
  }

  lemma FineThen(v: Volume, runs: seq<Run>, i: nat, now: seq<byte>)
    requires i < |runs| && AllFine(v, runs, |now|, i) && 0 <= Pos(v, runs, i) && Bytes(v, runs[i]) >= 0
    requires forall x: nat :: x < |now| && Holds(v, runs, |now|, i, x) ==> RunByte(v, runs, i, x) == Some(now[x])
    ensures AllFine(v, runs, |now|, i + 1)
  {
    hide Pos, Under, Bytes, Holds, RunByte;
  }

  lemma ShowsThen(v: Volume, runs: seq<Run>, i: nat, was: seq<byte>, now: seq<byte>)
    requires i < |runs| && |was| == |now| && Shows(v, runs, i, was)
    requires forall x: nat :: x < |now| && Holds(v, runs, |now|, i, x) ==> RunByte(v, runs, i, x) == Some(now[x])
    requires forall x: nat :: x < |now| && !Holds(v, runs, |now|, i, x) ==> now[x] == was[x]
    ensures Shows(v, runs, i + 1, now)
  {
    hide Pos, Holds, RunByte;
  }

  // ---- a range: earlier runs before later ones ----

  /** How far the first i runs have come at most. */
  function High(v: Volume, runs: seq<Run>, i: nat): nat
    requires i <= |runs|
  {
    if i == 0 then 0
    else if High(v, runs, i - 1) < Pos(v, runs, i) then Pos(v, runs, i) else High(v, runs, i - 1)
  }

  lemma {:induction false} HighIsMost(v: Volume, runs: seq<Run>, i: nat)
    requires i <= |runs|
    ensures Pos(v, runs, i) <= High(v, runs, i)
  {}

  /** What run i adds: what of it lies beyond the runs before it. */
  function PieceOf(v: Volume, runs: seq<Run>, i: nat): Piece
    requires i < |runs|
  {
    Piece(High(v, runs, i + 1) - High(v, runs, i), SourceOf(v, runs[i], High(v, runs, i) - Pos(v, runs, i)))
  }

  function Pieces(v: Volume, runs: seq<Run>): (r: seq<Piece>)
    ensures |r| == |runs|
  {
    seq(|runs|, i requires 0 <= i < |runs| => PieceOf(v, runs, i))
  }

  lemma {:induction false} StartIsHigh(v: Volume, runs: seq<Run>, i: nat)
    requires i <= |runs|
    ensures StartOf(Pieces(v, runs), i) == High(v, runs, i)
  {
    StartsEnd(Pieces(v, runs));
    if i > 0 {
      hide StartOf;
      StartIsHigh(v, runs, i - 1);
      StartNext(Pieces(v, runs), i - 1);
    }
  }

  /** How many bytes of a range the runs have: all, or up to their end. */
  function Available(pieces: seq<Piece>, off: nat, want: nat): (n: nat)
    ensures if off < Total(pieces) then n <= want && off + n <= Total(pieces) && (n == want || off + n == Total(pieces))
            else n == 0
  {
    if off >= Total(pieces) then 0 else if want <= Total(pieces) - off then want else Total(pieces) - off
  }

  lemma ByteMoved(v: Volume, r: Run, skip: int, d: nat)
    requires skip + d >= 0
    ensures ByteOf(v.file, SourceOf(v, r, skip), d) == ByteOf(v.file, SourceOf(v, r, 0), skip + d)
  {}

  lemma HighNext(v: Volume, runs: seq<Run>, i: nat)
    requires i < |runs|
    ensures Pos(v, runs, i + 1) == Pos(v, runs, i) + Bytes(v, runs[i])
    ensures High(v, runs, i) >= Pos(v, runs, i)
    ensures High(v, runs, i + 1)
            == if High(v, runs, i) < Pos(v, runs, i + 1) then Pos(v, runs, i + 1) else High(v, runs, i)
    ensures StartOf(Pieces(v, runs), i) == High(v, runs, i)
    ensures StartOf(Pieces(v, runs), i + 1) == High(v, runs, i + 1)
  {
    HighIsMost(v, runs, i);
    StartIsHigh(v, runs, i);
    StartIsHigh(v, runs, i + 1);
    hide Bytes, StartOf, Pieces;
  }

  /** A byte that no run before run i reaches is the one run i has there. */
  lemma PieceByte(v: Volume, runs: seq<Run>, i: nat, y: nat)
    requires i < |runs| && High(v, runs, i) <= y < Pos(v, runs, i + 1)
    ensures Pos(v, runs, i) <= y < Total(Pieces(v, runs))
    ensures Flat(v.file, Pieces(v, runs), y) == ByteOf(v.file, SourceOf(v, runs[i], 0), y - Pos(v, runs, i))
  {
    hide Flat, ByteOf, Total, StartOf, Bytes, Pos, High, SourceOf;
    HighNext(v, runs, i);
    var k := y - High(v, runs, i);
    FlatAt(v.file, Pieces(v, runs), i, k);
    ByteMoved(v, runs[i], High(v, runs, i) - Pos(v, runs, i), k);
  }

  /** One more part of a range, all of it in run i. */
  method FillRun(p: array<byte>, ghost was: seq<byte>, done: nat, n: nat, v: Volume, runs: seq<Run>,
                 ghost off: nat, i: nat, intraOff: int)
    returns (got: nat)
    requires done + n <= p.Length && i < |runs| && Filled(v.file, Pieces(v, runs), off, p[..], was, done)
    requires off + done >= High(v, runs, i) && intraOff == off + done - Pos(v, runs, i)
    requires off + done + n <= Pos(v, runs, i + 1)
    modifies p
    ensures got <= n && Filled(v.file, Pieces(v, runs), off, p[..], was, done + got)
    ensures got < n ==> Flat(v.file, Pieces(v, runs), off + done + got) == None
  {
    hide Flat, ByteOf, Total, StartOf, Pos, High, SourceOf, Pieces;
    got := CopyPart(p, done, n, v.file, SourceOf(v, runs[i], intraOff), 0);
    HighNext(v, runs, i);
    forall j | done <= j < done + got
      ensures Flat(v.file, Pieces(v, runs), off + j) == Some(p[j])
    {
      PieceByte(v, runs, i, off + j);
      ByteMoved(v, runs[i], intraOff, j - done);
    }
    if got < n {
      PieceByte(v, runs, i, off + done + got);
      ByteMoved(v, runs[i], intraOff, got);
    }
  }

  lemma FilledNone(v: Volume, runs: seq<Run>, off: nat, was: seq<byte>)
    ensures Filled(v.file, Pieces(v, runs), off, was, was, 0)
  {}

  lemma MoreAvailable(v: Volume, runs: seq<Run>, i: nat, off: nat, n: nat, want: nat)
    requires i < |runs| && off + n <= Pos(v, runs, i + 1) && n <= want
    ensures n <= Available(Pieces(v, runs), off, want)
  {
    hide Pos, Total, StartOf, Pieces;
    HighIsMost(v, runs, i + 1);
    StartIsHigh(v, runs, i + 1);
    StartsGrow(Pieces(v, runs), i + 1, |runs|);
    StartsEnd(Pieces(v, runs));
  }

  lemma AllAvailable(v: Volume, runs: seq<Run>, off: nat, n: nat, want: nat)
    requires n <= Available(Pieces(v, runs), off, want) && (n >= want || off + n >= High(v, runs, |runs|))
    ensures n == Available(Pieces(v, runs), off, want)
  {
    hide High, Total, StartOf, Pieces;
    StartIsHigh(v, runs, |runs|);
    StartsEnd(Pieces(v, runs));
  }

  /** A range of which `done` bytes are in the buffer. */
  lemma RangeEnds(v: Volume, runs: seq<Run>, off: nat, now: seq<byte>, was: seq<byte>, done: nat, asked: nat)
    requires Filled(v.file, Pieces(v, runs), off, now, was, done) && done <= asked
    ensures forall j :: 0 <= j < done ==> Flat(v.file, Pieces(v, runs), off + j) == Some(now[j])
    ensures forall j :: asked <= j < |now| ==> now[j] == was[j]
    ensures done == asked ==> forall x: nat :: off <= x < off + asked ==> Flat(v.file, Pieces(v, runs), x) != None
    ensures |now| == |was|
  {
    hide Flat, Pieces;
    FilledAll(v.file, Pieces(v, runs), off, now, was, done);
  }

  /** As much of p as the runs have from a byte offset on. */
  method ReadRunsAt(v: Volume, runs: seq<Run>, off: nat, p: array<byte>) returns (n: nat, ok: bool)
    modifies p
    ensures var pieces := Pieces(v, runs);
            var asked := Available(pieces, off, p.Length);
            && n <= asked && (ok ==> n == asked)
            && (ok <==> forall x: nat :: off <= x < off + asked ==> Flat(v.file, pieces, x) != None)
            && (forall j :: 0 <= j < n ==> Flat(v.file, pieces, off + j) == Some(p[j]))
            && forall j :: asked <= j < p.Length ==> p[j] == old(p[j])
  {
    ghost var pieces := Pieces(v, runs);
    ghost var was := p[..];
    ghost var asked := Available(pieces, off, p.Length);
    var clusterOff, byteOffset, want := 0, off, p.Length;
    n := 0;
    StartsEnd(pieces);
    hide Flat, StartOf, ByteOf, Pieces, Bytes, Total, Pos, High, Filled, Available;
    FilledNone(v, runs, off, was);
    for i := 0 to |runs|
      invariant clusterOff == Pos(v, runs, i) && byteOffset == off + n
      invariant n <= asked && Filled(v.file, pieces, off, p[..], was, n)
      invariant byteOffset >= High(v, runs, i)
    {
      HighNext(v, runs, i);
      var run := runs[i];
      var runBytes := Bytes(v, run);
      if clusterOff + runBytes <= byteOffset {
        clusterOff := clusterOff + runBytes;
        continue;
      }
      var intraOff := byteOffset - clusterOff;
      if intraOff < 0 {
        intraOff := 0;
      }
      var canRead := runBytes - intraOff;
      if canRead > want - n {
        canRead := want - n;
      }
      MoreAvailable(v, runs, i, off, n + canRead, want);
      var got := FillRun(p, was, n, canRead, v, runs, off, i, intraOff);
      if got < canRead {
        RangeEnds(v, runs, off, p[..], was, n + got, asked);
        return n, false;
      }
      n := n + canRead;
      byteOffset := byteOffset + canRead;
      clusterOff := clusterOff + runBytes;
      if n >= want {
        break;
      }
    }
    AllAvailable(v, runs, off, n, want);
    RangeEnds(v, runs, off, p[..], was, n, asked);
    ok := true;
  }

  // ---- what the bytes are ----

  /** Byte k of a run is in the file where the run's clusters are in the volume, or is zero in a hole. */
  lemma RunBytes(v: Volume, runs: seq<Run>, i: nat, x: nat)
    requires i < |runs|
    ensures runs[i].lcn >= 0 && x >= Pos(v, runs, i) ==>
      var at := v.base + runs[i].lcn * v.cluster + (x - Pos(v, runs, i));
      RunByte(v, runs, i, x) == if 0 <= at < |v.file| then Some(v.file[at]) else None
    ensures High(v, runs, i) <= x < Pos(v, runs, i + 1) ==>
      && Pos(v, runs, i) <= x < Total(Pieces(v, runs))
      && Flat(v.file, Pieces(v, runs), x) == if runs[i].lcn < 0 then Some(0) else RunByte(v, runs, i, x)
  {
    hide Flat, Pos, High, Pieces, Total;
    if High(v, runs, i) <= x < Pos(v, runs, i + 1) {
      PieceByte(v, runs, i, x);
    }
  }

  lemma PosNext(v: Volume, runs: seq<Run>, i: nat)
    requires i < |runs|
    ensures Pos(v, runs, 0) == 0 && Pos(v, runs, i + 1) == Pos(v, runs, i) + runs[i].length * v.cluster
  {}

  // ---- runs one after the other ----

  predicate Forward(runs: seq<Run>) {
    forall r :: r in runs ==> r.length >= 0
  }

  /** Byte x of the attribute, which reads as zeros where its runs end early. */
  function ByteAt(v: Volume, runs: seq<Run>, x: nat): Option<byte> {
    if x < Total(Pieces(v, runs)) then Flat(v.file, Pieces(v, runs), x) else Some(0)
  }

  lemma {:induction false} ForwardHigh(v: Volume, runs: seq<Run>, i: nat)
    requires Forward(runs) && i <= |runs|
    ensures High(v, runs, i) == Pos(v, runs, i) && (i > 0 ==> Pos(v, runs, i - 1) <= Pos(v, runs, i))
  {
    if i > 0 {
      ForwardHigh(v, runs, i - 1);
      assert runs[i - 1] in runs;
      ScaledUp(runs[i - 1].length, v.cluster);
    }
  }

  lemma ScaledUp(n: nat, cluster: nat)
    ensures n * cluster >= 0
  {}

  lemma {:induction false} ForwardUnder(v: Volume, runs: seq<Run>, size: int, i: nat)
    requires Forward(runs) && i <= |runs|
    ensures Under(v, runs, size, i) <==> Pos(v, runs, i) < size
  {
    if i > 0 {
      hide Pos;
      ForwardUnder(v, runs, size, i - 1);
      ForwardHigh(v, runs, i);
    }
  }

  /** What a run from the front shows of byte x is what it has at that place of the flat attribute. */
  lemma HoldsFlat(v: Volume, runs: seq<Run>, size: int, i: nat, x: nat)
    requires Forward(runs) && i < |runs| && Pos(v, runs, i) <= x < Pos(v, runs, i + 1) && x < size
    ensures x < Total(Pieces(v, runs))
    ensures if runs[i].lcn < 0 then !Holds(v, runs, size, i, x) && ByteAt(v, runs, x) == Some(0)
            else Holds(v, runs, size, i, x) && ByteAt(v, runs, x) == RunByte(v, runs, i, x)
  {
    hide Pos, High, Under, Flat, Pieces, Total;
    ForwardHigh(v, runs, i);
    ForwardUnder(v, runs, size, i);
    PieceByte(v, runs, i, x);
  }

  lemma {:induction false} ShownFlat(v: Volume, runs: seq<Run>, size: int, i: nat, x: nat)
    requires Forward(runs) && i <= |runs| && x < size
    ensures Shown(v, runs, size, i, x) == if x < Pos(v, runs, i) then ByteAt(v, runs, x) else Some(0)
  {
    hide Pos, ByteAt, RunByte, Under;
    if i > 0 {
      ShownFlat(v, runs, size, i - 1, x);
      ForwardHigh(v, runs, i);
      if Pos(v, runs, i - 1) <= x < Pos(v, runs, i) {
        HoldsFlat(v, runs, size, i - 1, x);
      }
    } else {
      PosStarts(v, runs);
    }
  }

  lemma PosStarts(v: Volume, runs: seq<Run>)
    ensures Pos(v, runs, 0) == 0
  {}

  lemma {:induction false} ShownNone(v: Volume, runs: seq<Run>, size: int, i: nat, x: nat)
    requires i <= |runs| && x < size && AllFine(v, runs, size, i)
    ensures Shown(v, runs, size, i, x) != None
  {
    if i > 0 {
      hide RunByte, Holds;
      ShownNone(v, runs, size, i - 1, x);
      assert Fine(v, runs, size, i - 1);
    }
  }

  /** Runs of no negative lengths lie one after the other: then all of an attribute reads as the flat one, it is read
      exactly if the file has every byte of it, and there is never a panic. */
  lemma WholeIsFlat(v: Volume, runs: seq<Run>, size: nat)
    requires Forward(runs)
    ensures AllFine(v, runs, size, |runs|) <==> forall x: nat :: x < size ==> ByteAt(v, runs, x) != None
    ensures forall i :: !CrashesFirst(v, runs, size, i)
    ensures forall x: nat :: x < size ==> Shown(v, runs, size, |runs|, x) == ByteAt(v, runs, x)
  {
    hide AllFine, CrashesFirst, Shown, ByteAt, Crashes;
    forall x: nat | x < size
      ensures Shown(v, runs, size, |runs|, x) == ByteAt(v, runs, x)
    {
      ShownFlat(v, runs, size, |runs|, x);
      BehindAll(v, runs, x);
    }
    forall i: nat | i < |runs|
      ensures !Crashes(v, runs, size, i)
    {
      ForwardGoes(v, runs, size, i);
    }
    NoneCrashes(v, runs, size);
    if forall x: nat :: x < size ==> ByteAt(v, runs, x) != None {
      AllThere(v, runs, size);
    }
    if AllFine(v, runs, size, |runs|) {
      forall x: nat | x < size
        ensures ByteAt(v, runs, x) != None
      {
        ShownNone(v, runs, size, |runs|, x);
      }
    }
  }

  lemma NoneCrashes(v: Volume, runs: seq<Run>, size: nat)
    requires forall i: nat :: i < |runs| ==> !Crashes(v, runs, size, i)
    ensures forall i :: !CrashesFirst(v, runs, size, i)
  {
    hide Crashes, AllFine;
  }

  lemma BehindAll(v: Volume, runs: seq<Run>, x: nat)
    requires Forward(runs)
    ensures x >= Pos(v, runs, |runs|) ==> ByteAt(v, runs, x) == Some(0)
  {
    hide Pos, High, Flat, Pieces, Total, StartOf;
    ForwardHigh(v, runs, |runs|);
    StartIsHigh(v, runs, |runs|);
    StartsEnd(Pieces(v, runs));
  }

  lemma ForwardGoes(v: Volume, runs: seq<Run>, size: int, i: nat)
    requires Forward(runs) && i < |runs|
    ensures !Crashes(v, runs, size, i)
  {
    hide Pos, High, Under;
    ForwardHigh(v, runs, i);
    assert runs[i] in runs;
    ScaledUp(runs[i].length, v.cluster);
  }

  lemma AllThere(v: Volume, runs: seq<Run>, size: nat)
    requires Forward(runs) && forall x: nat :: x < size ==> ByteAt(v, runs, x) != None
    ensures AllFine(v, runs, size, |runs|)
  {
    hide ByteAt, RunByte, Pos, Under, Crashes;
    forall i: nat | i < |runs|
      ensures Fine(v, runs, size, i)
    {
      ForwardGoes(v, runs, size, i);
      forall x: nat | x < size && Holds(v, runs, size, i, x)
        ensures RunByte(v, runs, i, x) != None
      {
        HoldsFlat(v, runs, size, i, x);
      }
    }
  }

  /** Both ways read the same, where no length is negative: a range of what was read at once is what is read of the
      range. */
  lemma RangeOfWhole(v: Volume, runs: seq<Run>, whole: seq<byte>, off: nat, part: seq<byte>)
    requires Forward(runs) && Shows(v, runs, |runs|, whole)
    requires |part| <= Available(Pieces(v, runs), off, |part|) && off + |part| <= |whole|
    requires forall j: nat :: j < |part| ==> Flat(v.file, Pieces(v, runs), off + j) == Some(part[j])
    ensures part == whole[off..off + |part|]
  {
    WholeIsFlat(v, runs, |whole|);
    hide Flat, Total, Shown, Pieces;
    forall j: nat | j < |part|
      ensures part[j] == whole[off..off + |part|][j]
    {
      assert Shown(v, runs, |whole|, |runs|, off + j) == Some(whole[off + j]);
    }
  }

  const BACK := [Run(0, 1), Run(-1, -1), Run(1, 1)]

  /** A hole of length -1 between two runs: read at once, the second run is over the first; in a range, the first
      hides the second. */
  lemma BackOver(v: Volume, size: nat, x: nat)
    requires v.base == 0 && x < v.cluster < size && 2 * v.cluster <= |v.file|
    ensures Shown(v, BACK, size, 3, x) == Some(v.file[v.cluster + x])
    ensures ByteAt(v, BACK, x) == Some(v.file[x])
  {
    hide Pos, Flat, High, Pieces, Total;
    BackPos(v);
    PieceByte(v, BACK, 0, x);
  }

  lemma BackPos(v: Volume)
    ensures Pos(v, BACK, 0) == 0 && Pos(v, BACK, 1) == v.cluster
    ensures Pos(v, BACK, 2) == 0 && Pos(v, BACK, 3) == v.cluster
    ensures High(v, BACK, 0) == 0
  {
    assert Bytes(v, BACK[0]) == v.cluster && Bytes(v, BACK[1]) == 0 - v.cluster && Bytes(v, BACK[2]) == v.cluster;
    hide Bytes;
  }
}
