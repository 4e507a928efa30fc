/** What runlists say of an attribute's clusters: looking one up, and joining two lists. */
module RunMaps {
  import opened Bits
  import opened Runlists
  import Allocator

  // ---- the clusters of an attribute, one by one ----

  /** The clusters of a run in order, None for each of a hole's; a length that is not positive has none. */
  function CellsOf(r: Run): (s: seq<Option<int>>)
    ensures |s| == if r.length > 0 then r.length else 0
  {
    seq(if r.length > 0 then r.length else 0, k => if r.lcn < 0 then None else Some(r.lcn + k))
  }

  function Cells(runs: seq<Run>): seq<Option<int>> {
    if runs == [] then [] else CellsOf(runs[0]) + Cells(runs[1..])
  }

  // ---- looking a cluster up ----

  /** What a walk over the runs from cluster off on says of cluster vcn; all its sums wrap round. */
  function LcnFrom(runs: seq<Run>, off: int, vcn: int): int {
    if runs == [] then -1
    else if off <= vcn < Wrapped(off + runs[0].length) then Wrapped(runs[0].lcn + (vcn - off))
    else LcnFrom(runs[1..], Wrapped(off + runs[0].length), vcn)
  }

  method LcnOfVCN(runs: seq<Run>, vcn: int) returns (lcn: int)
    ensures lcn == LcnFrom(runs, 0, vcn)
  {
    var off := 0;
    for i := 0 to |runs|
      invariant LcnFrom(runs, 0, vcn) == LcnFrom(runs[i..], off, vcn)
    {
      var r := runs[i];
      assert runs[i..][1..] == runs[i + 1..];
      if off <= vcn < Wrapped(off + r.length) {
        return Wrapped(r.lcn + (vcn - off));
      }
      off := Wrapped(off + r.length);
    }
    lcn := -1;
  }

  /** The cluster where there is one, and a negative number where there is none. */
  predicate Tells(lcn: int, cells: seq<Option<int>>, vcn: int) {
    if 0 <= vcn < |cells| && cells[vcn].Some? then lcn == cells[vcn].value else lcn < 0
  }

  /** No cluster of the run has a number past int64, and none of a hole's has one that is not negative. */
  predicate Plain(r: Run) {
    r.length > 0 ==> if r.lcn < 0 then r.lcn + r.length <= 0 else r.lcn + r.length <= TWO_TO_63
  }

  function Sum(runs: seq<Run>): int {
    if runs == [] then 0 else runs[0].length + Sum(runs[1..])
  }

  /** A lookup tells clusters and holes apart everywhere exactly if no hole is longer than the number it is marked
      with, and no run goes past int64. */
  lemma LookupTells(runs: seq<Run>)
    requires forall r :: r in runs ==> Int64(r.lcn) && r.length >= 0
    requires Sum(runs) < TWO_TO_63
    ensures (forall vcn: int :: Tells(LcnFrom(runs, 0, vcn), Cells(runs), vcn)) <==> forall r :: r in runs ==> Plain(r)
  {
    hide LcnFrom, Cells, Tells, Plain;
    if forall r :: r in runs ==> Plain(r) {
      forall vcn: int
        ensures Tells(LcnFrom(runs, 0, vcn), Cells(runs), vcn)
      {
        Told(runs, 0, vcn);
      }
    } else {
      var vcn := Mistold(runs, 0);
    }
  }

  lemma {:induction false} Told(runs: seq<Run>, off: nat, vcn: int)
    requires forall r :: r in runs ==> Int64(r.lcn) && r.length >= 0 && Plain(r)
    requires off + Sum(runs) < TWO_TO_63
    ensures |Cells(runs)| == Sum(runs) && Tells(LcnFrom(runs, off, vcn), Cells(runs), vcn - off)
  {
    if runs != [] {
      hide LcnFrom, Cells, Tells, Plain;
      var r, rest := runs[0], runs[1..];
      Told(rest, off + r.length, vcn);
      SumHolds(rest);
      FromFirst(runs, off, vcn);
      CellsFirst(runs);
      ToldFirst(r, Cells(rest), off, vcn, LcnFrom(rest, off + r.length, vcn));
    } else {
      NothingTold(off, vcn);
    }
  }

  lemma NothingTold(off: nat, vcn: int)
    ensures Cells([]) == [] && Tells(LcnFrom([], off, vcn), [], vcn - off)
  {}

  lemma FromFirst(runs: seq<Run>, off: nat, vcn: int)
    requires runs != [] && runs[0].length >= 0 && off + runs[0].length < TWO_TO_63
    ensures var r := runs[0];
            LcnFrom(runs, off, vcn) == if off <= vcn < off + r.length then Wrapped(r.lcn + (vcn - off))
                                       else LcnFrom(runs[1..], off + r.length, vcn)
  {}

  lemma CellsFirst(runs: seq<Run>)
    requires runs != []
    ensures Cells(runs) == CellsOf(runs[0]) + Cells(runs[1..])
  {}

  lemma ToldFirst(r: Run, cells: seq<Option<int>>, off: nat, vcn: int, later: int)
    requires Int64(r.lcn) && r.length >= 0 && Plain(r) && off + r.length < TWO_TO_63
    requires Tells(later, cells, vcn - off - r.length)
    requires vcn < off + r.length ==> later < 0
    ensures Tells(if off <= vcn < off + r.length then Wrapped(r.lcn + (vcn - off)) else later,
                  CellsOf(r) + cells, vcn - off)
  {
    var both := CellsOf(r) + cells;
    if vcn >= off + r.length && vcn - off < |both| {
      assert both[vcn - off] == cells[vcn - off - r.length];
    }
  }

  /** Where the first run that is not plain reads wrong. */
  lemma {:induction false} Mistold(runs: seq<Run>, off: nat) returns (vcn: int)
    requires forall r :: r in runs ==> Int64(r.lcn) && r.length >= 0
    requires off + Sum(runs) < TWO_TO_63 && exists r :: r in runs && !Plain(r)
    ensures off <= vcn && !Tells(LcnFrom(runs, off, vcn), Cells(runs), vcn - off)
  {
    var r := runs[0];
    SumHolds(runs[1..]);
    if Plain(r) {
      vcn := Mistold(runs[1..], off + r.length);
    } else {
      vcn := off + (if r.lcn < 0 then -r.lcn else TWO_TO_63 - r.lcn);
    }
  }

  lemma {:induction false} SumHolds(runs: seq<Run>)
    requires forall r :: r in runs ==> r.length >= 0
    ensures Sum(runs) >= 0
  {
    if runs != [] {
      SumHolds(runs[1..]);
    }
  }

  // ---- joining two lists ----

  /** A run goes into the last one if it begins where that ends, by a sum that wraps round. */
  predicate Touches(p: Run, q: Run) {
    Wrapped(p.lcn + p.length) == q.lcn
  }

  function Joined(runs: seq<Run>, r: Run): seq<Run> {
    var n := |runs| - 1;
    if n >= 0 && Touches(runs[n], r) then runs[..n] + [Run(runs[n].lcn, Wrapped(runs[n].length + r.length))]
    else runs + [r]
  }

  function Merged(a: seq<Run>, b: seq<Run>): seq<Run>
    decreases |b|
  {
    if b == [] then a else Joined(Merged(a, b[..|b| - 1]), b[|b| - 1])
  }

  method MergeRuns(existing: seq<Run>, newRuns: seq<Run>) returns (result: seq<Run>)
    ensures result == Merged(existing, newRuns)
  {
    result := existing;
    for i := 0 to |newRuns|
      invariant result == Merged(existing, newRuns[..i])
    {
      assert newRuns[..i + 1][..i] == newRuns[..i];
      var nr := newRuns[i];
      if |result| > 0 {
        var last := result[|result| - 1];
        if Wrapped(last.lcn + last.length) == nr.lcn {
          result := result[|result| - 1 := last.(length := Wrapped(last.length + nr.length))];
          continue;
        }
      }
      result := result + [nr];
    }
    assert newRuns[..|newRuns|] == newRuns;
  }

  /** What the allocator gives. */
  predicate IsExtent(r: Run) {
    r.lcn >= 0 && r.length > 0 && r.lcn + r.length < TWO_TO_63
  }

  predicate IsRun(r: Run) {
    Int64(r.lcn) && Int64(r.length)
  }

  predicate AllRuns(runs: seq<Run>) {
    forall r :: r in runs ==> IsRun(r)
  }

  predicate AllExtents(runs: seq<Run>) {
    forall r :: r in runs ==> IsExtent(r)
  }

  /** The first new run goes into a hole, or into a run whose length is negative. */
  predicate Swallowed(a: seq<Run>, b: seq<Run>) {
    a != [] && b != [] && Touches(a[|a| - 1], b[0]) && (a[|a| - 1].lcn < 0 || a[|a| - 1].length < 0)
  }

  /** With extents from the allocator after them, the merged runs hold the clusters of both exactly if the last
      of the runs is not such a one that the first extent seems to go on from. */
  lemma MergedHolds(a: seq<Run>, b: seq<Run>)
    requires AllRuns(a) && AllExtents(b)
    ensures Cells(Merged(a, b)) == Cells(a) + Cells(b) <==> !Swallowed(a, b)
  {
    if Swallowed(a, b) {
      MergedLoses(a, b);
    } else {
      MergedKeeps(a, b);
    }
  }

  predicate Forward(r: Run) {
    r.lcn >= 0 && r.length >= 0
  }

  predicate EndsForward(runs: seq<Run>) {
    runs != [] && Forward(runs[|runs| - 1])
  }

  lemma {:induction false} MergedKeeps(a: seq<Run>, b: seq<Run>)
    requires AllRuns(a) && AllExtents(b) && !Swallowed(a, b)
    ensures var m := Merged(a, b);
            && Cells(m) == Cells(a) + Cells(b)
            && AllRuns(m) && (b != [] ==> EndsForward(m))
    decreases |b|
  {
    hide Cells, Joined, Touches, AllRuns, AllExtents, CellsOf, Swallowed, EndsForward;
    CellsNone();
    if b != [] {
      var front, r := b[..|b| - 1], b[|b| - 1];
      FrontOf(b);
      NotSwallowed(a, b);
      MergedKeeps(a, front);
      assert b == front + [r];
      CellsAppend(front, [r]);
      CellsOne(r);
      JoinedKeeps(Merged(a, front), r);
      Regrouped(Cells(a), Cells(front), CellsOf(r));
    }
  }

  lemma Regrouped(s: seq<Option<int>>, t: seq<Option<int>>, u: seq<Option<int>>)
    ensures s + t + u == s + (t + u)
  {}

  lemma FrontOf(b: seq<Run>)
    requires b != [] && AllExtents(b)
    ensures AllExtents(b[..|b| - 1]) && IsExtent(b[|b| - 1])
  {}

  lemma NotSwallowed(a: seq<Run>, b: seq<Run>)
    requires b != [] && !Swallowed(a, b)
    ensures !Swallowed(a, b[..|b| - 1])
    ensures |b| == 1 && a != [] && Touches(a[|a| - 1], b[0]) ==> EndsForward(a)
  {}

  lemma JoinedKeeps(runs: seq<Run>, r: Run)
    requires AllRuns(runs) && IsExtent(r)
    requires runs != [] && Touches(runs[|runs| - 1], r) ==> EndsForward(runs)
    ensures Cells(Joined(runs, r)) == Cells(runs) + CellsOf(r)
    ensures AllRuns(Joined(runs, r)) && EndsForward(Joined(runs, r))
  {
    hide Cells, CellsOf, Joined, AllRuns, IsRun, IsExtent, Touches;
    var n := |runs| - 1;
    if n >= 0 && Touches(runs[n], r) {
      assert runs == runs[..n] + [runs[n]];
      GrownKeeps(runs, runs[..n], runs[n], r);
    } else {
      AddedKeeps(runs, r);
    }
  }

  lemma GrownKeeps(runs: seq<Run>, front: seq<Run>, p: Run, r: Run)
    requires AllRuns(runs) && runs == front + [p] && Forward(p) && IsExtent(r) && Touches(p, r)
    ensures Cells(Joined(runs, r)) == Cells(runs) + CellsOf(r)
    ensures AllRuns(Joined(runs, r)) && EndsForward(Joined(runs, r))
  {
    assert IsRun(p);
    hide *;
    JoinedCells(runs, r, front, p);
    Extended(p, r);
    Regrouped(Cells(front), CellsOf(p), CellsOf(r));
    LastGrown(runs, front, p, r);
  }

  lemma AddedKeeps(runs: seq<Run>, r: Run)
    requires AllRuns(runs) && IsExtent(r) && (runs == [] || !Touches(runs[|runs| - 1], r))
    ensures Cells(Joined(runs, r)) == Cells(runs) + CellsOf(r)
    ensures AllRuns(Joined(runs, r)) && EndsForward(Joined(runs, r))
  {
    hide Cells, CellsOf;
    CellsOne(r);
    CellsAppend(runs, [r]);
  }

  lemma LastGrown(runs: seq<Run>, front: seq<Run>, p: Run, r: Run)
    requires AllRuns(runs) && runs == front + [p] && Forward(p) && IsExtent(r) && Touches(p, r)
    ensures var m := front + [Run(p.lcn, Wrapped(p.length + r.length))]; AllRuns(m) && EndsForward(m)
  {
    assert p in runs && forall q :: q in front ==> q in runs;
  }

  lemma Extended(p: Run, r: Run)
    requires Forward(p) && IsRun(p) && IsExtent(r) && Touches(p, r)
    ensures CellsOf(Run(p.lcn, Wrapped(p.length + r.length))) == CellsOf(p) + CellsOf(r)
  {
    assert p.lcn + p.length == r.lcn;
  }

  lemma JoinedCells(runs: seq<Run>, r: Run, front: seq<Run>, p: Run)
    requires runs == front + [p] && Touches(p, r)
    ensures Cells(runs) == Cells(front) + CellsOf(p)
    ensures Joined(runs, r) == front + [Run(p.lcn, Wrapped(p.length + r.length))]
    ensures Cells(Joined(runs, r)) == Cells(front) + CellsOf(Run(p.lcn, Wrapped(p.length + r.length)))
  {
    hide Cells, CellsOf, Touches, Wrapped;
    var grown := Run(p.lcn, Wrapped(p.length + r.length));
    CellsAppend(front, [p]);
    CellsAppend(front, [grown]);
    CellsOne(p);
    CellsOne(grown);
  }

  /** Not what was to be held, and not more; later extents mend nothing. */
  predicate Less(s: seq<Option<int>>, t: seq<Option<int>>) {
    |s| <= |t| && s != t
  }

  lemma {:induction false} MergedLoses(a: seq<Run>, b: seq<Run>)
    requires AllRuns(a) && AllExtents(b) && Swallowed(a, b)
    ensures Less(Cells(Merged(a, b)), Cells(a) + Cells(b))
    ensures AllRuns(Merged(a, b))
    decreases |b|
  {
    hide Cells, Joined, Touches, Less, AllRuns, AllExtents, IsExtent, CellsOf;
    var front, r := b[..|b| - 1], b[|b| - 1];
    FrontOf(b);
    assert b == front + [r];
    CellsAppend(front, [r]);
    CellsOne(r);
    if |b| == 1 {
      JoinedLoses(a, r);
    } else {
      MergedLoses(a, front);
      JoinedMendsNot(Merged(a, front), r, Cells(a) + Cells(front));
      Regrouped(Cells(a), Cells(front), CellsOf(r));
    }
  }

  lemma JoinedLoses(a: seq<Run>, r: Run)
    requires AllRuns(a) && IsExtent(r) && a != [] && Touches(a[|a| - 1], r)
    requires !Forward(a[|a| - 1])
    ensures Less(Cells(Joined(a, r)), Cells(a) + CellsOf(r)) && AllRuns(Joined(a, r))
  {
    hide Cells, CellsOf, Less;
    var n := |a| - 1;
    JoinedCells(a, r, a[..n], a[n]);
    NotExtended(a[n], r);
    LessBehind(Cells(a[..n]), CellsOf(Run(a[n].lcn, Wrapped(a[n].length + r.length))), CellsOf(a[n]), CellsOf(r));
  }

  lemma NotExtended(p: Run, r: Run)
    requires !Forward(p) && IsRun(p) && IsExtent(r) && Touches(p, r)
    ensures Less(CellsOf(Run(p.lcn, Wrapped(p.length + r.length))), CellsOf(p) + CellsOf(r))
  {
    var s, t := CellsOf(Run(p.lcn, Wrapped(p.length + r.length))), CellsOf(p) + CellsOf(r);
    if |s| == |t| {
      assert s[|CellsOf(p)|] != CellsOf(r)[0];
    }
  }

  lemma LessBehind(front: seq<Option<int>>, s: seq<Option<int>>, t: seq<Option<int>>, u: seq<Option<int>>)
    requires Less(s, t + u)
    ensures Less(front + s, front + t + u)
  {
    assert (front + s)[|front|..] == s && (front + t + u)[|front|..] == t + u;
  }

  lemma JoinedMendsNot(runs: seq<Run>, r: Run, t: seq<Option<int>>)
    requires AllRuns(runs) && IsExtent(r) && Less(Cells(runs), t)
    ensures Less(Cells(Joined(runs, r)), t + CellsOf(r)) && AllRuns(Joined(runs, r))
  {
    hide Cells, CellsOf;
    var n := |runs| - 1;
    if n >= 0 && Touches(runs[n], r) {
      JoinedCells(runs, r, runs[..n], runs[n]);
      OnlyExtended(runs[n], r);
      StaysLess(Cells(runs[..n]), CellsOf(Run(runs[n].lcn, Wrapped(runs[n].length + r.length))), CellsOf(runs[n]), t,
                CellsOf(r));
    } else {
      CellsOne(r);
      CellsAppend(runs, [r]);
      StaysLess([], Cells(runs) + CellsOf(r), Cells(runs), t, CellsOf(r));
    }
  }

  lemma OnlyExtended(p: Run, r: Run)
    requires IsRun(p) && IsExtent(r)
    ensures var s := CellsOf(Run(p.lcn, Wrapped(p.length + r.length)));
            && |s| <= |CellsOf(p)| + |CellsOf(r)| && Int64(Wrapped(p.length + r.length))
            && (|s| == |CellsOf(p)| + |CellsOf(r)| ==> s[..|CellsOf(p)|] == CellsOf(p))
  {}

  lemma StaysLess(
    front: seq<Option<int>>, s: seq<Option<int>>, p: seq<Option<int>>, t: seq<Option<int>>, u: seq<Option<int>>)
    requires Less(front + p, t) && |s| <= |p| + |u| && (|s| == |p| + |u| ==> s[..|p|] == p)
    ensures Less(front + s, t + u)
  {
    if |front + s| == |t + u| {
      assert (front + s)[..|front| + |p|] == front + p;
      assert (t + u)[..|t|] == t;
    }
  }

  /** A hole of six clusters takes in the extent at cluster 5, whose cluster is then found nowhere; and the clusters
      at the end of a long enough hole are found, although there are none. */
  lemma HoleTakesExtent()
    ensures Merged([Run(-1, 6)], [Run(5, 1)]) == [Run(-1, 7)]
    ensures Cells([Run(-1, 7)]) == seq(7, _ => None)
    ensures Cells([Run(-1, 6)]) + Cells([Run(5, 1)]) == seq(6, _ => None) + [Some(5)]
    ensures LcnFrom([Run(-1, 6)], 0, 3) == 2
  {
    var hole, one := Run(-1, 6), Run(5, 1);
    assert Joined([hole], one) == [Run(-1, 7)];
    assert Merged([hole], []) == [hole] && [one][..0] == [];
    CellsOne(hole);
    CellsOne(one);
    CellsOne(Run(-1, 7));
  }

  /** What the allocator counts as the clusters of its extents is what they map. */
  lemma {:induction false} CellsAreClusters(runs: seq<Run>)
    requires Allocator.Solid(runs)
    ensures |Cells(runs)| == |Allocator.Clusters(runs)|
    ensures forall i :: 0 <= i < |Cells(runs)| ==> Cells(runs)[i] == Some(Allocator.Clusters(runs)[i])
  {
    hide Cells;
    if runs == [] {
      CellsNone();
    } else {
      var front, r := runs[..|runs| - 1], runs[|runs| - 1];
      CellsAreClusters(front);
      assert runs == front + [r];
      CellsAppend(front, [r]);
      CellsOne(r);
      Allocator.RangeMembers(r.lcn, r.length);
    }
  }

  lemma {:induction false} CellsAppend(a: seq<Run>, b: seq<Run>)
    ensures Cells(a + b) == Cells(a) + Cells(b)
  {
    if a != [] {
      CellsAppend(a[1..], b);
      assert (a + b)[1..] == a[1..] + b;
    } else {
      assert a + b == b;
    }
  }

  lemma CellsNone()
    ensures Cells([]) == []
  {}

  lemma CellsOne(r: Run)
    ensures Cells([r]) == CellsOf(r)
  {}
}
