/** Restart points: what an index build records while the stream is scanned. */
module Checkpoints {
  import opened Bits

  /** A restart point at a block boundary, with the history before it and some of the output after it. */
  datatype Checkpoint = Checkpoint(bitPos: nat, outPos: nat, window: seq<byte>, ctx: seq<byte>)

  /** A restart point whose context is still being collected. */
  datatype Candidate = Candidate(cp: Checkpoint, need: nat)

  /** What identifies a restart point, without its context. */
  datatype Point = Point(bitPos: nat, outPos: nat, window: seq<byte>)

  /** How many output bytes a restart point keeps for verification. */
  const CTX_LENGTH := 65536

  /** How much output is buffered before it is flushed, and the longest match. */
  const FLUSH_THRESHOLD := 1048576
  const MATCH_MAX := 258

  /** The sink is behind the output by less than this. */
  const LAG: nat := FLUSH_THRESHOLD + MATCH_MAX

  /** The bytes of a stream from pos on, as far as they are known. */
  function Since(got: seq<byte>, pos: nat): seq<byte> {
    if pos <= |got| then got[pos..] else []
  }

  function Points(cands: seq<Candidate>): (r: seq<Point>)
    ensures |r| == |cands|
  {
    seq(|cands|, i requires 0 <= i < |cands| =>
      Point(cands[i].cp.bitPos, cands[i].cp.outPos, cands[i].cp.window))
  }

  /** How far the output has to be for the next restart point. */
  function NextMark(points: seq<Point>, spacing: nat): nat {
    (if points == [] then 0 else points[|points| - 1].outPos) + spacing
  }

  /** The restart points after a block boundary: it is one if it is byte-aligned and far enough from the
      one before. */
  function Marked(points: seq<Point>, bitPos: nat, outPos: nat, window: seq<byte>, spacing: nat): seq<Point> {
    if outPos >= NextMark(points, spacing) && bitPos % 8 == 0 then points + [Point(bitPos, outPos, window)] else points
  }

  ghost predicate Increasing(cands: seq<Candidate>) {
    forall i, j :: 0 <= i < j < |cands| ==> cands[i].cp.outPos < cands[j].cp.outPos
  }

  /** c collected nothing but what the stream holds at its place, and is not missing anything yet while
      it needs more. */
  ghost predicate Collected(c: Candidate, got: seq<byte>) {
    && c.cp.ctx <= Since(got, c.cp.outPos)
    && c.need + |c.cp.ctx| == CTX_LENGTH
  }

  ghost predicate Collecting(c: Candidate, got: seq<byte>) {
    c.need > 0 ==> c.cp.ctx == Since(got, c.cp.outPos)
  }

  lemma CollectedGrows(c: Candidate, got: seq<byte>, p: seq<byte>)
    requires Collected(c, got)
    ensures Collected(c, got + p)
  {
    if c.cp.outPos <= |got| {
      assert (got + p)[c.cp.outPos..] == got[c.cp.outPos..] + p;
    }
  }

  class Recorder {
    /** Everything the sink has been given. */
    ghost var got: seq<byte>
    var cands: seq<Candidate>
    var nextCP: nat
    const spacing: nat

    constructor (spacing: nat)
      requires spacing > 0
      ensures Valid() && got == [] && cands == [] && this.spacing == spacing
    {
      this.spacing := spacing;
      got, cands, nextCP := [], [], spacing;
    }

    ghost predicate Valid()
      reads this
    {
      && spacing > 0
      && nextCP == (if cands == [] then 0 else cands[|cands| - 1].cp.outPos) + spacing
      && Increasing(cands)
      && (forall i :: 0 <= i < |cands| ==> Collected(cands[i], got) && cands[i].cp.bitPos % 8 == 0)
      && (cands != [] ==> Collecting(cands[|cands| - 1], got))
      && (spacing >= LAG ==> forall i :: 0 <= i < |cands| - 1 ==> cands[i].cp.ctx != [])
    }

    /** The sink: takes the next piece of output, tagged with its offset, into the context of the last
        restart point. */
    method ToSink(outPos: nat, p: seq<byte>)
      requires Valid() && outPos == |got|
      modifies this`got, this`cands
      ensures Valid() && got == old(got) + p
      ensures Points(cands) == old(Points(cands))
    {
      hide Since, Collected, Points;
      var n := |cands|;
      if n > 0 {
        var c := cands[n - 1];
        if c.need > 0 {
          var from: int := c.cp.outPos + |c.cp.ctx| - outPos;
          if from < 0 {
            from := 0;
          }
          if from < |p| {
            var take := |p| - from;
            if take > c.need {
              take := c.need;
            }
            NextByte(c, got);
            CollectStep(c, got, p, from, take);
            c := Candidate(c.cp.(ctx := c.cp.ctx + p[from..from + take]), c.need - take);
          } else {
            NextByte(c, got);
            CollectNothing(c, got, p);
          }
        } else {
          CollectedGrows(c, got, p);
        }
        forall i | 0 <= i < n - 1
          ensures Collected(cands[i], got + p)
        {
          CollectedGrows(cands[i], got, p);
        }
        SamePoint(cands, c);
        cands := cands[n - 1 := c];
      }
      got := got + p;
    }

    /** Where the next byte c collects lies: never before what the sink is given next. */
    lemma NextByte(c: Candidate, got: seq<byte>)
      requires Collecting(c, got) && c.need > 0
      ensures c.cp.outPos + |c.cp.ctx| - |got| == if c.cp.outPos <= |got| then 0 else c.cp.outPos - |got|
    {}

    lemma SamePoint(cands: seq<Candidate>, c: Candidate)
      requires cands != [] && c.cp.(ctx := []) == cands[|cands| - 1].cp.(ctx := [])
      ensures Points(cands[|cands| - 1 := c]) == Points(cands)
    {}

    lemma CollectStep(c: Candidate, got: seq<byte>, p: seq<byte>, from: int, take: int)
      requires Collected(c, got) && Collecting(c, got) && c.need > 0
      requires from == (if c.cp.outPos <= |got| then 0 else c.cp.outPos - |got|) < |p|
      requires take == if |p| - from > c.need then c.need else |p| - from
      ensures var next := Candidate(c.cp.(ctx := c.cp.ctx + p[from..from + take]), c.need - take);
              Collected(next, got + p) && Collecting(next, got + p)
    {
      var at := c.cp.outPos;
      if at <= |got| {
        assert (got + p)[at..] == got[at..] + p;
        assert p[0..take] == p[..take];
      } else {
        assert (got + p)[at..] == p[from..];
        assert p[from..from + take] == p[from..][..take];
      }
    }

    lemma CollectNothing(c: Candidate, got: seq<byte>, p: seq<byte>)
      requires Collected(c, got) && Collecting(c, got) && c.need > 0
      requires c.cp.outPos + |c.cp.ctx| - |got| >= |p|
      ensures Collected(c, got + p) && Collecting(c, got + p)
    {
      CollectedGrows(c, got, p);
    }

    /** Called at the start of every block: keeps byte-aligned boundaries at least `spacing` apart. */
    method OnBlock(bitPos: nat, outPos: nat, window: seq<byte>)
      requires Valid() && |got| <= outPos < |got| + LAG
      modifies this`cands, this`nextCP
      ensures Valid()
      ensures Points(cands) == Marked(old(Points(cands)), bitPos, outPos, window, spacing)
    {
      LastPoint(cands);
      if outPos >= nextCP && bitPos % 8 == 0 {
        var c := Candidate(Checkpoint(bitPos, outPos, window, []), CTX_LENGTH);
        PointsSnoc(cands, c);
        Recording(c);
        hide Points, Since, Collected, Collecting;
        nextCP := outPos + spacing;
        cands := cands + [c];
      }
    }

    /** A new candidate far enough after the last: what is recorded stays in order and, where candidates are
        farther apart than the sink is behind, the last has been given some context by now. */
    lemma Recording(c: Candidate)
      requires Valid() && c.cp.ctx == [] && c.need == CTX_LENGTH && c.cp.bitPos % 8 == 0
      requires nextCP <= c.cp.outPos && |got| <= c.cp.outPos < |got| + LAG
      ensures Increasing(cands + [c]) && Collected(c, got) && Collecting(c, got)
      ensures forall i :: 0 <= i < |cands + [c]| ==>
                Collected((cands + [c])[i], got) && (cands + [c])[i].cp.bitPos % 8 == 0
      ensures spacing >= LAG ==> forall i :: 0 <= i < |cands| ==> cands[i].cp.ctx != []
    {
      if spacing >= LAG && cands != [] {
        HasContext(cands[|cands| - 1], got);
      }
      hide Collected;
    }
  }

  /** A restart point that the sink has passed has some context. */
  lemma HasContext(c: Candidate, got: seq<byte>)
    requires Collected(c, got) && Collecting(c, got) && c.cp.outPos < |got|
    ensures c.cp.ctx != []
  {}

  lemma LastPoint(cands: seq<Candidate>)
    ensures cands != [] ==> Points(cands)[|cands| - 1].outPos == cands[|cands| - 1].cp.outPos
  {}

  lemma PointsSnoc(cands: seq<Candidate>, c: Candidate)
    ensures Points(cands + [c]) == Points(cands) + [Point(c.cp.bitPos, c.cp.outPos, c.cp.window)]
  {}
}
