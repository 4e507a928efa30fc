/** The random-access index over a deflate stream: built from one scan, read by restarting a stock
    decoder at the restart point before the offset asked for. */
module Index {
  import opened Bits
  import opened Inflate
  import opened Restart
  import opened Lookahead
  import opened Checkpoints
  import opened BitInput
  import opened Output
  import opened Scanners

  datatype Index = Index(totalOut: nat, checks: seq<Checkpoint>)

  // ---- the stock decoder ----

  /** What an RFC 1951 decoder delivers that is started at a bit of the stream with a dictionary; None
      where it would start past the end or meet an error. */
  ghost function Restarted(data: seq<byte>, bitPos: nat, dict: seq<byte>): Option<seq<byte>> {
    if bitPos / 8 >= |data| then None
    else
      match Blocks(StreamBits(data[bitPos / 8..])[bitPos % 8..], 0, dict, 0)
      case Fail => None
      case Done(_, out) => Some(out[|dict|..])
  }

  type Decoder = (nat, seq<byte>) -> Option<seq<byte>>

  /** A decoder, given as the bytes it delivers, that follows RFC 1951 on this stream. */
  ghost predicate Conforms(stock: Decoder, data: seq<byte>) {
    forall p, w :: stock(p, w) == Restarted(data, p, w)
  }

  // ---- what an index promises ----

  /** A restart point from which the rest of the stream is decoded, with its context. */
  ghost predicate CheckHolds(data: seq<byte>, cp: Checkpoint) {
    var whole := Rfc1951(data);
    && whole.Done?
    && cp.outPos <= |whole.out| && cp.bitPos % 8 == 0 && cp.bitPos < 8 * |data|
    && cp.window == Window(whole.out[..cp.outPos])
    && Blocks(StreamBits(data), cp.bitPos, whole.out[..cp.outPos], 0) == whole
    && cp.ctx <= whole.out[cp.outPos..]
  }

  ghost predicate Ordered(checks: seq<Checkpoint>) {
    forall i, j :: 0 <= i < j < |checks| ==> checks[i].outPos < checks[j].outPos
  }

  /** The index of a stream. */
  ghost predicate Indexes(ix: Index, data: seq<byte>) {
    && Rfc1951(data).Done?
    && ix.totalOut == |Rfc1951(data).out|
    && Ordered(ix.checks)
    && forall i :: 0 <= i < |ix.checks| ==> CheckHolds(data, ix.checks[i]) && ix.checks[i].ctx != []
  }

  /** Started at such a restart point, the decoder delivers exactly the rest of the output. */
  lemma CheckRestarts(data: seq<byte>, cp: Checkpoint)
    requires CheckHolds(data, cp)
    ensures Restarted(data, cp.bitPos, cp.window) == Some(Rfc1951(data).out[cp.outPos..])
  {
    hide Blocks, Window;
    var k, out := cp.bitPos / 8, Rfc1951(data).out[..cp.outPos];
    RestartAtBoundary(data, k, out, 0);
    assert 8 * k == cp.bitPos;
    var B := StreamBits(data[k..]);
    assert B[0..] == B;
  }

  /** Started at the beginning without a dictionary, it delivers all of it. */
  lemma StartDelivers(data: seq<byte>)
    requires Rfc1951(data).Done?
    ensures Restarted(data, 0, []) == Some(Rfc1951(data).out)
  {
    assert data[0..] == data && StreamBits(data)[0..] == StreamBits(data);
  }

  // ---- building ----

  /** A candidate recorded by a successful scan is a restart point of the stream. */
  lemma CandidateHolds(data: seq<byte>, cands: seq<Candidate>, i: nat)
    requires Scanned(data).Done? && i < |cands|
    requires MarksHold(StreamBits(data), Points(cands), Scanned(data).out)
    requires Collected(cands[i], Scanned(data).out)
    ensures CheckHolds(data, cands[i].cp)
  {
    hide Blocks, Window;
    var B, out, cp := StreamBits(data), Scanned(data).out, cands[i].cp;
    ScannedIsRfc1951(data);
    assert MarkHolds(B, Points(cands)[i], out);
    BlocksLook(B, cp.bitPos, out[..cp.outPos], LOOKAHEAD);
    StartsInside(B, cp.bitPos, out[..cp.outPos]);
  }

  lemma StartsInside(B: seq<bool>, p: nat, out: seq<byte>)
    requires Blocks(B, p, out, 0).Done?
    ensures p < |B|
  {}

  /** The last candidate at or before t, or the first one. */
  function Nearest(cands: seq<Candidate>, t: nat): Checkpoint
    requires cands != []
  {
    var last := cands[|cands| - 1].cp;
    if |cands| == 1 || last.outPos <= t then last else Nearest(cands[..|cands| - 1], t)
  }

  /** The nearest candidates at each step from t on. */
  function Spaced(cands: seq<Candidate>, t: nat, step: nat, totalOut: nat): seq<Checkpoint>
    requires cands != [] && step > 0
    decreases totalOut - t
  {
    if t >= totalOut then [] else [Nearest(cands, t)] + Spaced(cands, t + step, step, totalOut)
  }

  /** They are the ones nearest to t, a step further, two steps further and so on, up to the end. */
  lemma {:induction false} SpacedIs(cands: seq<Candidate>, t: nat, step: nat, totalOut: nat, j: nat)
    requires cands != [] && step > 0
    ensures var all := Spaced(cands, t, step, totalOut);
            && (j < |all| <==> t + j * step < totalOut) && (j < |all| ==> all[j] == Nearest(cands, t + j * step))
    decreases j
  {
    hide Nearest;
    if j > 0 {
      OneStepLess(step, j);
      if t < totalOut {
        SpacedIs(cands, t + step, step, totalOut, j - 1);
      }
    }
  }

  lemma OneStepLess(step: nat, j: nat)
    requires j > 0
    ensures j * step == step + (j - 1) * step && (j - 1) * step >= 0
  {}

  lemma {:induction false} NearestIs(cands: seq<Candidate>, t: nat, idx: nat)
    requires Increasing(cands) && idx < |cands|
    requires idx == 0 || cands[idx].cp.outPos <= t
    requires idx + 1 == |cands| || cands[idx + 1].cp.outPos > t
    ensures Nearest(cands, t) == cands[idx].cp
  {
    if idx + 1 < |cands| {
      assert cands[|cands| - 1].cp.outPos > t;
      NearestIs(cands[..|cands| - 1], t, idx);
    }
  }

  /** How far apart the restart points kept should be. */
  function Spacing(totalOut: nat, want: nat): (step: nat)
    requires want > 0
    ensures step >= 1048576
  {
    if totalOut / want < 1048576 then 1048576 else totalOut / want
  }

  /** Spaces the candidates evenly over the stream: keeps, in order and each once, the candidates nearest
      to the multiples of the step. */
  method ResampleCandidates(cands: seq<Candidate>, totalOut: nat, want: nat) returns (checks: seq<Checkpoint>)
    requires Increasing(cands)
    ensures Ordered(checks)
    ensures forall c :: c in checks ==> exists i :: 0 <= i < |cands| && cands[i].cp == c
    ensures forall c :: c in checks <==>
              cands != [] && want > 0 && c in Spaced(cands, Spacing(totalOut, want), Spacing(totalOut, want), totalOut)
  {
    checks := [];
    if |cands| == 0 || totalOut <= 0 || want <= 0 {
      return;
    }
    var step := totalOut / want;
    if step < 1048576 {
      step := 1048576;
    }
    ghost var all := Spaced(cands, step, step, totalOut);
    var idx := 0;
    var target: nat := step;
    while target < totalOut
      invariant idx < |cands| && (idx == 0 || cands[idx].cp.outPos <= target)
      invariant Ordered(checks)
      invariant forall c :: c in checks ==> exists i :: 0 <= i <= idx && cands[i].cp == c
      invariant forall c :: c in all <==> c in checks || c in Spaced(cands, target, step, totalOut)
      decreases totalOut - target
    {
      while idx + 1 < |cands| && cands[idx + 1].cp.outPos <= target
        invariant idx < |cands| && (idx == 0 || cands[idx].cp.outPos <= target)
        invariant forall c :: c in checks ==> exists i :: 0 <= i <= idx && cands[i].cp == c
      {
        idx := idx + 1;
      }
      NearestIs(cands, target, idx);
      var cp := cands[idx].cp;
      if |checks| > 0 && checks[|checks| - 1].outPos == cp.outPos {
        SameCandidate(cands, checks, idx);
      } else {
        LastIsBefore(cands, checks, idx);
        checks := checks + [cp];
      }
      target := target + step;
    }
    // The source sorts the result by offset here; it is in that order already.
  }

  lemma SameCandidate(cands: seq<Candidate>, checks: seq<Checkpoint>, idx: nat)
    requires Increasing(cands) && idx < |cands| && checks != []
    requires forall c :: c in checks ==> exists i :: 0 <= i <= idx && cands[i].cp == c
    requires checks[|checks| - 1].outPos == cands[idx].cp.outPos
    ensures cands[idx].cp in checks
  {
    var last := checks[|checks| - 1];
    assert last in checks;
    var i :| 0 <= i <= idx && cands[i].cp == last;
  }

  lemma LastIsBefore(cands: seq<Candidate>, checks: seq<Checkpoint>, idx: nat)
    requires Increasing(cands) && idx < |cands| && Ordered(checks)
    requires forall c :: c in checks ==> exists i :: 0 <= i <= idx && cands[i].cp == c
    requires checks == [] || checks[|checks| - 1].outPos != cands[idx].cp.outPos
    ensures Ordered(checks + [cands[idx].cp])
  {
    forall k | 0 <= k < |checks|
      ensures checks[k].outPos < cands[idx].cp.outPos
    {
      var last := checks[|checks| - 1];
      assert last in checks;
      var i :| 0 <= i <= idx && cands[i].cp == last;
    }
  }

  /** Restarts the decoder at a restart point and compares what it delivers with the context. */
  method VerifyCheckpoint(stock: Decoder, cp: Checkpoint) returns (ok: bool)
    ensures ok <==> var r := stock(cp.bitPos, cp.window); r.Some? && cp.ctx <= r.value
  {
    var r := stock(cp.bitPos, cp.window);
    if r.None? || |r.value| < |cp.ctx| {
      return false;
    }
    ok := r.value[..|cp.ctx|] == cp.ctx;
  }

  /** The restart points with a context, in order. */
  function WithContext(checks: seq<Checkpoint>): seq<Checkpoint> {
    if checks == [] then []
    else
      var c := checks[|checks| - 1];
      WithContext(checks[..|checks| - 1]) + (if c.ctx == [] then [] else [c])
  }

  lemma {:induction false} WithContextKeeps(checks: seq<Checkpoint>)
    ensures forall c :: c in WithContext(checks) <==> c in checks && c.ctx != []
    ensures Ordered(checks) ==> Ordered(WithContext(checks))
  {
    if checks != [] {
      var n := |checks| - 1;
      WithContextKeeps(checks[..n]);
      assert checks == checks[..n] + [checks[n]];
      if Ordered(checks) {
        forall i | 0 <= i < |WithContext(checks[..n])|
          ensures WithContext(checks[..n])[i].outPos < checks[n].outPos
        {
          assert WithContext(checks[..n])[i] in checks[..n];
        }
      }
    }
  }

  /** Keeps the restart points that verify. */
  method KeepVerified(stock: Decoder, ghost data: seq<byte>, checks: seq<Checkpoint>) returns (keep: seq<Checkpoint>)
    requires Conforms(stock, data) && forall i :: 0 <= i < |checks| ==> CheckHolds(data, checks[i])
    ensures keep == WithContext(checks)
  {
    hide CheckHolds, Rfc1951, Restarted;
    keep := [];
    for i := 0 to |checks|
      invariant keep == WithContext(checks[..i])
    {
      assert checks[..i + 1][..i] == checks[..i];
      CheckRestarts(data, checks[i]);
      ContextAhead(data, checks[i]);
      if |checks[i].ctx| != 0 {
        var verified := VerifyCheckpoint(stock, checks[i]);
        if verified {
          keep := keep + [checks[i]];
        }
      }
    }
    assert checks[..|checks|] == checks;
  }

  lemma ContextAhead(data: seq<byte>, cp: Checkpoint)
    requires CheckHolds(data, cp)
    ensures Rfc1951(data).Done? && cp.outPos <= |Rfc1951(data).out| && cp.ctx <= Rfc1951(data).out[cp.outPos..]
  {}

  /** The options of a build, or what stands for them when they are not set. */
  function Wanted(checkpoints: int): nat {
    if checkpoints <= 0 then 48 else checkpoints
  }

  function SpacingAsked(candidateSpacing: int): nat {
    if candidateSpacing <= 0 then 67108864 else candidateSpacing
  }

  /** The restart points a scan of the stream records. */
  ghost function Recorded(stream: seq<byte>, spacing: nat): seq<Point> {
    Marks(StreamBits(stream), 0, [], [], spacing)
  }

  /** No index can do without a stream longer than a step, with a restart point before its end. */
  ghost predicate EnoughFor(stream: seq<byte>, spacing: nat, want: nat)
    requires want > 0 && Scanned(stream).Done?
  {
    var total := |Scanned(stream).out|;
    FirstIsInside(Recorded(stream, spacing), Spacing(total, want), total)
  }

  /** That is enough where restart points are farther apart than the sink can be behind, and where the last of
      them is a whole step before the end or the only one. */
  ghost predicate PlentyFor(stream: seq<byte>, spacing: nat, want: nat)
    requires want > 0 && Scanned(stream).Done?
  {
    var total := |Scanned(stream).out|;
    && EnoughFor(stream, spacing, want)
    && (spacing >= LAG || LastIsChosen(Recorded(stream, spacing), Spacing(total, want), total))
  }

  predicate FirstIsInside(points: seq<Point>, step: nat, totalOut: nat) {
    points != [] && step < totalOut && points[0].outPos < totalOut
  }

  predicate LastIsChosen(points: seq<Point>, step: nat, totalOut: nat)
    requires points != []
  {
    |points| == 1 || points[|points| - 1].outPos + step <= totalOut
  }

  lemma {:induction false} LastChosen(cands: seq<Candidate>, t: nat, step: nat, totalOut: nat)
    requires cands != [] && 0 < step && t < totalOut
    requires |cands| == 1 || cands[|cands| - 1].cp.outPos + step <= totalOut
    ensures cands[|cands| - 1].cp in Spaced(cands, t, step, totalOut)
    decreases totalOut - t
  {
    var last := cands[|cands| - 1].cp;
    if |cands| > 1 && last.outPos > t {
      LastChosen(cands, t + step, step, totalOut);
    } else {
      assert Nearest(cands, t) == last;
    }
  }

  lemma LastHasContext(rec: Recorder)
    requires rec.Valid() && rec.cands != [] && rec.cands[|rec.cands| - 1].cp.outPos < |rec.got|
    ensures rec.cands[|rec.cands| - 1].cp.ctx != []
  {}

  /** Scans a stream once, from memory or through a reader, and indexes it. */
  method Build(stream: seq<byte>, mapped: bool, stock: Decoder, checkpoints: int, candidateSpacing: int)
    returns (r: Option<Index>)
    requires Conforms(stock, stream)
    ensures r.Some? ==> Indexes(r.value, stream) && r.value.checks != []
    ensures r.Some? ==> Scanned(stream).Done? && EnoughFor(stream, SpacingAsked(candidateSpacing), Wanted(checkpoints))
    ensures Scanned(stream).Done? && PlentyFor(stream, SpacingAsked(candidateSpacing), Wanted(checkpoints)) ==> r.Some?
  {
    hide Conforms, Scanner.Valid, BitReader.Valid, Blocks, MarksHold, Points, CheckHolds, Recorder.Valid;
    var want, spacing := Wanted(checkpoints), SpacingAsked(candidateSpacing);
    var rec := new Recorder(spacing);
    var bits;
    if mapped {
      bits := new BitReader.FromMemory(stream);
    } else {
      bits := new BitReader.FromReader(stream);
    }
    bits.Accounted();
    var scanner := new Scanner(bits, rec);
    var ok, total := scanner.Finish();
    if !ok {
      return None;
    }
    var checks := ChooseChecks(rec, stream, stock, total, want);
    if |checks| == 0 {
      return None;
    }
    ScannedIsRfc1951(stream);
    return Some(Index(total, checks));
  }

  /** The restart points an index keeps of those recorded by a successful scan. */
  method ChooseChecks(rec: Recorder, ghost stream: seq<byte>, stock: Decoder, total: nat, want: nat)
    returns (checks: seq<Checkpoint>)
    requires Conforms(stock, stream) && rec.Valid() && Scanned(stream).Done? && rec.got == Scanned(stream).out
    requires MarksHold(StreamBits(stream), Points(rec.cands), Scanned(stream).out)
    requires want > 0 && total == |rec.got|
    ensures Ordered(checks)
    ensures forall i :: 0 <= i < |checks| ==> CheckHolds(stream, checks[i]) && checks[i].ctx != []
    ensures checks != [] ==> FirstIsInside(Points(rec.cands), Spacing(total, want), total)
    ensures FirstIsInside(Points(rec.cands), Spacing(total, want), total) ==>
      (rec.spacing >= LAG || LastIsChosen(Points(rec.cands), Spacing(total, want), total)) ==> checks != []
  {
    hide Scanned, MarksHold, Points, CheckHolds, Collected, Recorder.Valid, Spaced, Spacing;
    hide LastIsChosen, FirstIsInside, WithContext;
    RecordedHold(rec, stream);
    var spaced := ResampleCandidates(rec.cands, total, want);
    forall i | 0 <= i < |spaced|
      ensures CheckHolds(stream, spaced[i])
    {
      assert spaced[i] in spaced;
    }
    checks := KeepVerified(stock, stream, spaced);
    WithContextKeeps(spaced);
    ChosenAreKept(rec, spaced, Spacing(total, want), total);
    forall i | 0 <= i < |checks|
      ensures CheckHolds(stream, checks[i]) && checks[i].ctx != []
    {
      assert checks[i] in checks;
    }
  }

  lemma RecordedHold(rec: Recorder, stream: seq<byte>)
    requires rec.Valid() && Scanned(stream).Done? && rec.got == Scanned(stream).out
    requires MarksHold(StreamBits(stream), Points(rec.cands), Scanned(stream).out)
    ensures Increasing(rec.cands) && forall i :: 0 <= i < |rec.cands| ==> CheckHolds(stream, rec.cands[i].cp)
  {
    hide Scanned, MarksHold, Points, CheckHolds, Collected;
    forall i | 0 <= i < |rec.cands|
      ensures CheckHolds(stream, rec.cands[i].cp)
    {
      CandidateHolds(stream, rec.cands, i);
    }
  }

  lemma ChosenAreKept(rec: Recorder, spaced: seq<Checkpoint>, step: nat, total: nat)
    requires rec.Valid() && total == |rec.got| && step > 0
    requires forall c :: c in spaced <==> rec.cands != [] && c in Spaced(rec.cands, step, step, total)
    ensures WithContext(spaced) != [] ==> FirstIsInside(Points(rec.cands), step, total)
    ensures FirstIsInside(Points(rec.cands), step, total) ==>
      (rec.spacing >= LAG || LastIsChosen(Points(rec.cands), step, total)) ==> WithContext(spaced) != []
  {
    hide Points, WithContext, Recorder.Valid, Spaced, LastIsChosen;
    WithContextKeeps(spaced);
    if WithContext(spaced) != [] {
      var c := WithContext(spaced)[0];
      assert c in WithContext(spaced) && c in spaced;
      ChosenInside(rec, step, total, c);
    }
    if FirstIsInside(Points(rec.cands), step, total) {
      if LastIsChosen(Points(rec.cands), step, total) {
        LastKept(rec, step, total);
        assert rec.cands[|rec.cands| - 1].cp in WithContext(spaced);
      }
      if rec.spacing >= LAG {
        FirstKept(rec, step, total);
        assert Nearest(rec.cands, step) in WithContext(spaced);
      }
    }
  }

  lemma FirstPoint(cands: seq<Candidate>)
    ensures cands != [] ==> Points(cands) != [] && Points(cands)[0].outPos == cands[0].cp.outPos
  {}

  lemma {:induction false} NearestIn(cands: seq<Candidate>, t: nat)
    requires cands != []
    ensures exists i :: 0 <= i < |cands| && cands[i].cp == Nearest(cands, t)
    ensures Nearest(cands, t).outPos <= t || Nearest(cands, t) == cands[0].cp
  {
    var n := |cands| - 1;
    if n > 0 && cands[n].cp.outPos > t {
      NearestIn(cands[..n], t);
    } else {
      assert cands[n].cp == Nearest(cands, t);
    }
  }

  lemma {:induction false} SpacedIn(cands: seq<Candidate>, t: nat, step: nat, total: nat, c: Checkpoint)
    requires cands != [] && step > 0 && c in Spaced(cands, t, step, total)
    ensures t < total && exists i :: 0 <= i < |cands| && cands[i].cp == c
    decreases total - t
  {
    NearestIn(cands, t);
    if c != Nearest(cands, t) {
      SpacedIn(cands, t + step, step, total, c);
    }
  }

  /** A chosen restart point with context lies inside the stream, and so does the first. */
  lemma ChosenInside(rec: Recorder, step: nat, total: nat, c: Checkpoint)
    requires rec.Valid() && total == |rec.got| && step > 0 && rec.cands != []
    requires c in Spaced(rec.cands, step, step, total) && c.ctx != []
    ensures FirstIsInside(Points(rec.cands), step, total)
  {
    FirstPoint(rec.cands);
    SpacedIn(rec.cands, step, step, total, c);
    hide Spaced, Points;
    var i :| 0 <= i < |rec.cands| && rec.cands[i].cp == c;
    assert Collected(rec.cands[i], rec.got);
    hide Collecting;
  }

  lemma LastKept(rec: Recorder, step: nat, total: nat)
    requires rec.Valid() && total == |rec.got| && step > 0 && FirstIsInside(Points(rec.cands), step, total)
    requires LastIsChosen(Points(rec.cands), step, total)
    ensures rec.cands != []
    ensures var last := rec.cands[|rec.cands| - 1].cp;
            last in Spaced(rec.cands, step, step, total) && last.ctx != []
  {
    LastPoint(rec.cands);
    FirstPoint(rec.cands);
    hide Recorder.Valid, Spaced;
    LastChosen(rec.cands, step, step, total);
    LastHasContext(rec);
  }

  lemma FirstKept(rec: Recorder, step: nat, total: nat)
    requires rec.Valid() && total == |rec.got| && step > 0 && FirstIsInside(Points(rec.cands), step, total)
    requires rec.spacing >= LAG
    ensures rec.cands != []
    ensures var c := Nearest(rec.cands, step); c in Spaced(rec.cands, step, step, total) && c.ctx != []
  {
    FirstPoint(rec.cands);
    assert rec.cands != [];
    NearestIn(rec.cands, step);
    var c := Nearest(rec.cands, step);
    var i :| 0 <= i < |rec.cands| && rec.cands[i].cp == c;
    if i == |rec.cands| - 1 {
      LastHasContext(rec);
    }
    hide Collected, Collecting, Points, Nearest;
  }

  // ---- reading ----

  /** The last restart point at or before an offset, found by binary search. */
  method CheckpointFor(ix: Index, outPos: nat) returns (r: Option<Checkpoint>)
    requires Ordered(ix.checks)
    ensures r.None? <==> forall i :: 0 <= i < |ix.checks| ==> ix.checks[i].outPos > outPos
    ensures r.Some? ==> r.value in ix.checks && r.value.outPos <= outPos
    ensures r.Some? ==> forall c :: c in ix.checks && c.outPos <= outPos ==> c.outPos <= r.value.outPos
  {
    var i, j := 0, |ix.checks|;
    while i < j
      invariant 0 <= i <= j <= |ix.checks|
      invariant forall k :: 0 <= k < i ==> ix.checks[k].outPos <= outPos
      invariant forall k :: j <= k < |ix.checks| ==> ix.checks[k].outPos > outPos
    {
      var h := (i + j) / 2;
      if ix.checks[h].outPos > outPos {
        j := h;
      } else {
        i := h + 1;
      }
    }
    if i == 0 {
      return None;
    }
    return Some(ix.checks[i - 1]);
  }

  /** The bytes the reader returned for an offset delivers; None where it is refused.  For the index of
      a stream that is exactly the rest of the decompressed stream. */
  method ReadAt(ix: Index, ghost data: seq<byte>, stock: Decoder, outPos: int) returns (r: Option<seq<byte>>)
    requires Indexes(ix, data) && Conforms(stock, data)
    ensures r.None? <==> outPos < 0 || outPos > |Rfc1951(data).out|
    ensures r.Some? ==> r.value == Rfc1951(data).out[outPos..]
  {
    hide Rfc1951, Restarted, CheckHolds;
    if outPos < 0 || outPos > ix.totalOut {
      return None;
    }
    var cp := CheckpointFor(ix, outPos);
    if cp.None? {
      StartDelivers(data);
      var gz := stock(0, []);
      if gz.None? || |gz.value| < outPos {
        return None;
      }
      return Some(gz.value[outPos..]);
    }
    ghost var out := Rfc1951(data).out;
    CheckRestarts(data, cp.value);
    ContextAhead(data, cp.value);
    var src := stock(cp.value.bitPos, cp.value.window);
    if src.None? {
      return None;
    }
    var lead := outPos - cp.value.outPos;
    assert out[cp.value.outPos..][lead..] == out[outPos..];
    if lead < |cp.value.ctx| {
      var n := |cp.value.ctx|;
      if |src.value| < n || src.value[..n] != cp.value.ctx {
        return None;
      }
      var got := src.value[..n];
      assert got[lead..] + src.value[n..] == src.value[lead..];
      return Some(got[lead..] + src.value[n..]);
    }
    if |src.value| < lead {
      return None;
    }
    return Some(src.value[lead..]);
  }

  /** Exactly n bytes at an offset, when the stream has them. */
  method ReadRange(ix: Index, ghost data: seq<byte>, stock: Decoder, outPos: int, n: nat) returns (r: Option<seq<byte>>)
    requires Indexes(ix, data) && Conforms(stock, data)
    ensures r.Some? <==> outPos >= 0 && outPos + n <= |Rfc1951(data).out|
    ensures r.Some? ==> r.value == Rfc1951(data).out[outPos..outPos + n]
  {
    hide Rfc1951, Restarted, CheckHolds, Conforms;
    var rest := ReadAt(ix, data, stock, outPos);
    if rest.None? || |rest.value| < n {
      return None;
    }
    return Some(rest.value[..n]);
  }
}
