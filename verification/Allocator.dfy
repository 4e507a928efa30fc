/** The NTFS cluster allocator: a first-fit bitmap, and what whole runs of allocations and frees keep. */
module Allocator {
  import opened Bits
  import opened Runlists

  // ---- the bitmap ----

  function Mask(k: nat): bv8
    requires k < 8
  {
    1 << k
  }

  lemma MaskValues(k: nat)
    requires k < 8
    ensures Mask(k) == if k == 0 then 1 else if k == 1 then 2 else if k == 2 then 4 else if k == 3 then 8
                       else if k == 4 then 16 else if k == 5 then 32 else if k == 6 then 64 else 128
  {
    if k == 0 {} else if k == 1 {} else if k == 2 {} else if k == 3 {}
    else if k == 4 {} else if k == 5 {} else if k == 6 {} else { assert k == 7; }
  }

  lemma SetBit(b: bv8, k: nat, j: nat)
    requires k < 8 && j < 8
    ensures (b | Mask(k)) & Mask(j) != 0 <==> j == k || b & Mask(j) != 0
  {
    MaskValues(k);
    MaskValues(j);
    hide Mask;
  }

  function Cleared(b: bv8, k: nat): bv8
    requires k < 8
  {
    b & !Mask(k)
  }

  lemma ClearBit(b: bv8, k: nat, j: nat)
    requires k < 8 && j < 8
    ensures Cleared(b, k) & Mask(j) != 0 <==> j != k && b & Mask(j) != 0
  {
    MaskValues(k);
    MaskValues(j);
    hide Mask;
  }

  predicate IsUsed(bitmap: seq<bv8>, l: nat)
    requires l < 8 * |bitmap|
  {
    bitmap[l / 8] & Mask(l % 8) != 0
  }

  ghost function Used(bitmap: seq<bv8>): set<nat> {
    set l: nat | l < 8 * |bitmap| && IsUsed(bitmap, l)
  }

  /** Cluster l is in use exactly if bit l % 8, counted from the lowest, of byte l / 8 is set. */
  lemma UsedBits(bitmap: seq<bv8>, l: nat)
    requires l < 8 * |bitmap|
    ensures l in Used(bitmap) <==> (bitmap[l / 8] >> (l % 8)) & 1 == 1
  {
    MaskedBit(bitmap[l / 8], l % 8);
    hide Mask;
  }

  lemma MaskedBit(b: bv8, k: nat)
    requires k < 8
    ensures b & Mask(k) != 0 <==> (b >> k) & 1 == 1
  {
    if k == 0 {} else if k == 1 {} else if k == 2 {} else if k == 3 {}
    else if k == 4 {} else if k == 5 {} else if k == 6 {} else { assert k == 7; }
  }

  lemma SameBit(l: nat, m: nat)
    ensures l / 8 == m / 8 && l % 8 == m % 8 <==> l == m
  {}

  lemma Marked(bitmap: seq<bv8>, l: nat)
    requires l < 8 * |bitmap|
    ensures Used(bitmap[l / 8 := bitmap[l / 8] | Mask(l % 8)]) == Used(bitmap) + {l}
  {
    var after := bitmap[l / 8 := bitmap[l / 8] | Mask(l % 8)];
    forall m: nat | m < 8 * |bitmap|
      ensures IsUsed(after, m) <==> m == l || IsUsed(bitmap, m)
    {
      SameBit(l, m);
      SetBit(bitmap[l / 8], l % 8, m % 8);
      hide Mask;
    }
  }

  lemma Unmarked(bitmap: seq<bv8>, l: nat)
    requires l < 8 * |bitmap|
    ensures Used(bitmap[l / 8 := Cleared(bitmap[l / 8], l % 8)]) == Used(bitmap) - {l}
  {
    var after := bitmap[l / 8 := Cleared(bitmap[l / 8], l % 8)];
    forall m: nat | m < 8 * |bitmap|
      ensures IsUsed(after, m) <==> m != l && IsUsed(bitmap, m)
    {
      SameBit(l, m);
      ClearBit(bitmap[l / 8], l % 8, m % 8);
      hide Mask, Cleared;
    }
  }

  lemma FullByte(bitmap: seq<bv8>, i: nat, k: nat)
    requires i < |bitmap| && bitmap[i] == 0xFF && k < 8
    ensures 8 * i + k in Used(bitmap)
  {
    MaskValues(k);
    assert (8 * i + k) / 8 == i && (8 * i + k) % 8 == k;
  }

  // ---- clusters, and runs of them ----

  /** The clusters of a volume from one on that are free, in order. */
  ghost function Free(used: set<nat>, size: nat, from: nat): seq<nat>
    decreases size - from
  {
    if from >= size then []
    else if from in used then Free(used, size, from + 1)
    else [from] + Free(used, size, from + 1)
  }

  function Range(l: int, n: int): seq<nat>
    decreases n
  {
    if l < 0 || n <= 0 then [] else Range(l, n - 1) + [l + n - 1]
  }

  function Front(runs: seq<Run>): seq<Run>
    requires runs != []
  {
    runs[..|runs| - 1]
  }

  function Last(runs: seq<Run>): Run
    requires runs != []
  {
    runs[|runs| - 1]
  }

  /** The clusters of a runlist, in order; a hole has none. */
  function Clusters(runs: seq<Run>): seq<nat>
    decreases |runs|
  {
    if runs == [] then [] else Clusters(Front(runs)) + Range(Last(runs).lcn, Last(runs).length)
  }

  /** One more cluster: the last run grows if it ends there. */
  function Appended(runs: seq<Run>, l: nat): seq<Run> {
    if runs != [] && Last(runs).lcn + Last(runs).length == l
    then Front(runs) + [Run(Last(runs).lcn, Last(runs).length + 1)]
    else runs + [Run(l, 1)]
  }

  function RunsOf(list: seq<nat>): seq<Run> {
    if list == [] then [] else Appended(RunsOf(list[..|list| - 1]), list[|list| - 1])
  }

  ghost predicate AllFree(used: set<nat>, l: nat, n: nat) {
    forall k :: l <= k < l + n ==> k !in used
  }

  function AtLeastOne(n: int): nat {
    if n < 1 then 1 else n
  }

  /** The first place from a cluster on where n in a row are free. */
  ghost function FirstGap(used: set<nat>, size: nat, n: nat, from: nat): Option<nat>
    decreases size - from
  {
    if from + n > size || from >= size then None
    else if AllFree(used, from, n) then Some(from)
    else FirstGap(used, size, n, from + 1)
  }

  ghost function SetOf(s: seq<nat>): set<nat> {
    set x | x in s
  }

  /** Cluster 0, the boot sector, is marked by any scan that meets it. */
  function Booted(used: set<nat>, size: nat): set<nat> {
    if size > 0 then used + {0} else used
  }

  // ---- facts about them ----

  lemma {:induction false} FreeMembers(used: set<nat>, size: nat, from: nat)
    ensures forall x :: x in Free(used, size, from) <==> from <= x < size && x !in used
    ensures Ascending(Free(used, size, from))
    decreases size - from
  {
    if from < size {
      FreeMembers(used, size, from + 1);
      if from !in used {
        AscendingCons(from, Free(used, size, from + 1));
      }
    }
  }

  ghost predicate Ascending(list: seq<nat>) {
    forall i, j :: 0 <= i < j < |list| ==> list[i] < list[j]
  }

  lemma AscendingCons(x: nat, list: seq<nat>)
    requires Ascending(list) && forall y :: y in list ==> x < y
    ensures Ascending([x] + list)
  {
    forall i, j | 0 <= i < j < |list| + 1
      ensures ([x] + list)[i] < ([x] + list)[j]
    {
      if i == 0 {
        assert list[j - 1] in list;
      }
    }
  }

  lemma {:induction false} FreeSame(u: set<nat>, w: set<nat>, size: nat, from: nat)
    requires forall k :: from <= k < size ==> (k in u <==> k in w)
    ensures Free(u, size, from) == Free(w, size, from)
    decreases size - from
  {
    if from < size {
      FreeSame(u, w, size, from + 1);
    }
  }

  /** Taking the first free cluster leaves the others. */
  lemma {:induction false} FreeTaken(used: set<nat>, size: nat, from: nat)
    requires from > 0 && Free(used, size, from) != []
    ensures var list := Free(used, size, from);
            Free(Booted(used, size) + {list[0]}, size, from) == list[1..]
    decreases size - from
  {
    if from in used {
      FreeTaken(used, size, from + 1);
    } else {
      FreeSame(used, Booted(used, size) + {from}, size, from + 1);
    }
  }

  lemma {:induction false} FreeSkips(used: set<nat>, size: nat, from: nat, end: nat)
    requires from <= end && forall k :: from <= k < end ==> k in used
    ensures Free(used, size, from) == Free(used, size, end)
    decreases end - from
  {
    if from < end {
      FreeSkips(used, size, from + 1, end);
    }
  }

  lemma {:induction false} RangeMembers(l: int, n: int)
    ensures forall x :: x in Range(l, n) <==> 0 <= l <= x < l + n
    ensures |Range(l, n)| == if l < 0 || n <= 0 then 0 else n
    ensures forall i :: 0 <= i < |Range(l, n)| ==> Range(l, n)[i] == l + i
    decreases n
  {
    if l >= 0 && n > 0 {
      RangeMembers(l, n - 1);
    }
  }

  lemma FrontLast(runs: seq<Run>)
    requires runs != []
    ensures Front(runs) + [Last(runs)] == runs
  {}

  lemma ClustersSnoc(runs: seq<Run>, r: Run)
    ensures Clusters(runs + [r]) == Clusters(runs) + Range(r.lcn, r.length)
  {
    assert Front(runs + [r]) == runs;
    hide Front;
  }

  lemma AppendedClusters(runs: seq<Run>, l: nat)
    requires runs != [] ==> Last(runs).lcn >= 0 && Last(runs).length >= 0
    ensures Clusters(Appended(runs, l)) == Clusters(runs) + [l]
  {
    hide Clusters, Front, Last;
    if runs != [] && Last(runs).lcn + Last(runs).length == l {
      FrontLast(runs);
      LastGrows(Front(runs), Last(runs));
    } else {
      RunStarts(runs, l);
    }
  }

  lemma RunStarts(runs: seq<Run>, l: nat)
    ensures Clusters(runs + [Run(l, 1)]) == Clusters(runs) + [l]
  {
    ClustersSnoc(runs, Run(l, 1));
    RangeMore(l, 0);
    hide Clusters, Range;
  }

  lemma LastGrows(runs: seq<Run>, r: Run)
    requires r.lcn >= 0 && r.length >= 0
    ensures Clusters(runs + [Run(r.lcn, r.length + 1)]) == Clusters(runs + [r]) + [r.lcn + r.length]
  {
    ClustersSnoc(runs, Run(r.lcn, r.length + 1));
    ClustersSnoc(runs, r);
    RangeMore(r.lcn, r.length);
    hide Clusters, Range;
  }

  lemma NoRange(l: int, n: int)
    ensures Range(l, 0) == [] && (n <= 0 ==> Range(l, n) == [])
  {}

  lemma RangeMore(l: nat, n: nat)
    ensures Range(l, n + 1) == Range(l, n) + [l + n] && Range(l, 0) == []
  {}

  /** A list of clusters as runs holds those clusters, in order; with the list ascending, no two runs
      that follow each other touch. */
  lemma {:induction false} RunsHoldList(list: seq<nat>)
    ensures Clusters(RunsOf(list)) == list && Solid(RunsOf(list))
  {
    if list != [] {
      hide Clusters, Appended, Solid;
      var front, last := list[..|list| - 1], list[|list| - 1];
      RunsHoldList(front);
      SolidLast(RunsOf(front));
      AppendedClusters(RunsOf(front), last);
      AppendedSolid(RunsOf(front), last);
      assert list == front + [last];
    }
  }

  ghost predicate Solid(runs: seq<Run>) {
    forall r :: r in runs ==> r.lcn >= 0 && r.length > 0
  }

  lemma SolidLast(runs: seq<Run>)
    requires Solid(runs)
    ensures runs != [] ==> Last(runs).lcn >= 0 && Last(runs).length > 0
  {}

  lemma AppendedSolid(runs: seq<Run>, l: nat)
    requires Solid(runs)
    ensures Solid(Appended(runs, l))
  {}

  ghost predicate Apart(runs: seq<Run>) {
    forall i :: 0 <= i < |runs| - 1 ==> runs[i].lcn + runs[i].length < runs[i + 1].lcn
  }

  lemma AppendedApart(runs: seq<Run>, l: nat)
    requires Apart(runs) && (runs != [] ==> Last(runs).lcn + Last(runs).length <= l)
    ensures Apart(Appended(runs, l)) && Appended(runs, l) != []
    ensures Last(Appended(runs, l)).lcn + Last(Appended(runs, l)).length == l + 1
  {}

  lemma {:induction false} RunsAreMaximal(list: seq<nat>)
    requires Ascending(list)
    ensures Apart(RunsOf(list)) && (list == [] <==> RunsOf(list) == [])
    ensures list != [] ==> Last(RunsOf(list)).lcn + Last(RunsOf(list)).length == list[|list| - 1] + 1
  {
    if list != [] {
      hide Apart, Appended, Last;
      RunsAreMaximal(list[..|list| - 1]);
      AppendedApart(RunsOf(list[..|list| - 1]), list[|list| - 1]);
    }
  }

  /** The first gap: no earlier place has n in a row free, and there is none at all only where no place has. */
  lemma {:induction false} FirstGapIsFirst(used: set<nat>, size: nat, n: nat, from: nat)
    requires n > 0
    ensures var g := FirstGap(used, size, n, from);
            && (g.None? <==> forall s :: from <= s && s + n <= size ==> !AllFree(used, s, n))
            && (g.Some? ==> from <= g.value && g.value + n <= size && AllFree(used, g.value, n)
                            && forall s :: from <= s < g.value ==> !AllFree(used, s, n))
    decreases size - from
  {
    hide AllFree;
    if from + n <= size {
      FirstGapIsFirst(used, size, n, from + 1);
    }
  }

  /** A used cluster less than n ahead rules out every start up to it. */
  lemma {:induction false} GapSkips(used: set<nat>, size: nat, n: nat, from: nat, p: nat)
    requires from <= p < from + n && p < size && p in used
    ensures FirstGap(used, size, n, from) == FirstGap(used, size, n, p + 1)
    decreases p - from
  {
    assert from + n <= size ==> !AllFree(used, from, n);
    if from < p {
      GapSkips(used, size, n, from + 1, p);
    }
    if from + n > size && from < p {
      assert p + 1 + n > size;
    }
  }

  // ---- the volume's bitmap in place ----

  class Volume {
    const bitmap: array<bv8>
    var dirty: bool

    constructor (bitmap: array<bv8>)
      ensures this.bitmap == bitmap && !dirty
    {
      this.bitmap, dirty := bitmap, false;
    }

    function Size(): nat {
      8 * bitmap.Length
    }

    ghost function InUse(): set<nat>
      reads bitmap
    {
      Used(bitmap[..])
    }

    method Mark(l: nat)
      requires l < Size()
      modifies this`dirty, bitmap
      ensures InUse() == old(InUse()) + {l} && dirty
    {
      Marked(bitmap[..], l);
      bitmap[l / 8] := bitmap[l / 8] | Mask(l % 8);
      dirty := true;
      assert bitmap[..] == old(bitmap[..])[l / 8 := bitmap[l / 8]];
    }

    /** Looks through the bits of one byte for a free cluster, and takes it. */
    method ScanByte(i: nat, ghost u0: set<nat>) returns (found: Option<nat>)
      requires i < bitmap.Length && InUse() == (if i == 0 then u0 else u0 + {0})
      modifies this`dirty, bitmap
      ensures var list := Free(u0, Size(), From(i, 0));
              if found.Some? then list != [] && found.value == list[0] && InUse() == u0 + {0} + {list[0]}
              else list == Free(u0, Size(), From(i + 1, 0)) && InUse() == u0 + {0}
    {
      var b := bitmap[i];
      ghost var bm := bitmap[..];
      var bit := 0;
      hide Used, Free, Mask, From;
      while bit < 8
        invariant 0 <= bit <= 8
        invariant InUse() == (if i == 0 && bit == 0 then u0 else u0 + {0})
        invariant Free(u0, Size(), From(i, 0)) == Free(u0, Size(), From(i, bit))
      {
        ScansBit(bm, u0, i, bit);
        if b & Mask(bit) == 0 {
          var l := i * 8 + bit;
          Mark(l);
          if l != 0 {
            return Some(l);
          }
        }
        bit := bit + 1;
      }
      found := None;
    }

    /** Takes the first free cluster after the boot sector's. */
    method AllocCluster() returns (lcn: Option<nat>)
      modifies this`dirty, bitmap
      ensures var list := Free(old(InUse()), Size(), 1);
              && lcn == (if list == [] then None else Some(list[0]))
              && InUse() == Booted(old(InUse()), Size()) + (if list == [] then {} else {list[0]})
    {
      ghost var u0 := InUse();
      for i := 0 to bitmap.Length
        invariant InUse() == (if i == 0 then u0 else u0 + {0})
        invariant Free(u0, Size(), 1) == Free(u0, Size(), From(i, 0))
      {
        if bitmap[i] == 0xFF {
          SkipsByte(bitmap[..], u0, i);
          continue;
        }
        hide InUse, Used, Free;
        lcn := ScanByte(i, u0);
        if lcn.Some? {
          return;
        }
      }
      lcn := None;
    }

    /** Takes n clusters one by one; where there are too few, the ones already taken stay taken. */
    method AllocClusters(n: int) returns (runs: Option<seq<Run>>)
      modifies this`dirty, bitmap
      ensures InUse() == TakenFirst(old(InUse()), Size(), n)
      ensures runs == FirstRuns(old(InUse()), Size(), n)
    {
      ghost var u0 := InUse();
      ghost var list := Free(u0, Size(), 1);
      var taken: seq<Run> := [];
      var remaining := n;
      ghost var k := 0;
      hide InUse, Free, RunsOf, Appended, SetOf, Booted;
      assert list[0..] == list && list[..0] == [];
      assert RunsOf([]) == [] by { RunsOfNone(); }
      while remaining > 0
        invariant k <= |list| && (n > 0 ==> remaining == n - k >= 0) && (n <= 0 ==> k == 0)
        invariant Free(InUse(), Size(), 1) == list[k..]
        invariant InUse() == (if k == 0 then u0 else Booted(u0, Size()) + SetOf(list[..k]))
        invariant taken == RunsOf(list[..k])
        decreases remaining
      {
        ghost var u := InUse();
        TakesNext(u0, u, Size(), list, k);
        var lcn := AllocCluster();
        if lcn.None? {
          return None;
        }
        taken := AppendRun(taken, lcn.value);
        remaining := remaining - 1;
        k := k + 1;
      }
      runs := Some(taken);
    }

    /** Takes the first n clusters in a row, if there are any; asked for none, it names the first free cluster
        and takes nothing. */
    method TryAllocContiguous(n: int) returns (runs: Option<seq<Run>>)
      modifies this`dirty, bitmap
      ensures var gap := FirstGap(old(InUse()), Size(), AtLeastOne(n), 1);
              && runs == (if gap.None? then None else Some([Run(gap.value, n)]))
              && InUse() == old(InUse()) + (if gap.None? then {} else SetOf(Range(gap.value, n)))
    {
      ghost var u0 := InUse();
      var startLCN: int := -1;
      var runLen := 0;
      ghost var m := AtLeastOne(n);
      hide FirstGap, AllFree, Used, SetOf, Range, ScannedTo;
      ScanStarts(u0, Size(), m);
      for i := 0 to bitmap.Length
        invariant InUse() == u0 && ScannedTo(u0, Size(), m, startLCN, runLen, From(i, 0))
      {
        for bit := 0 to 8
          invariant InUse() == u0 && ScannedTo(u0, Size(), m, startLCN, runLen, From(i, bit))
        {
          var lcn := i * 8 + bit;
          if lcn == 0 {
            startLCN, runLen := -1, 0;
            continue;
          }
          ReadsHere(bitmap[..], i, bit);
          ScanStep(u0, Size(), m, startLCN, runLen, lcn);
          if bitmap[i] & Mask(bit) == 0 {
            if runLen == 0 {
              startLCN := lcn;
            }
            runLen := runLen + 1;
            if runLen >= n {
              MarkRange(startLCN, n);
              dirty := true;
              return Some([Run(startLCN, n)]);
            }
          } else {
            startLCN, runLen := -1, 0;
          }
        }
      }
      ScanEnds(u0, Size(), m, startLCN, runLen);
      runs := None;
    }

    method MarkRange(start: nat, n: int)
      requires start + n <= Size()
      modifies this`dirty, bitmap
      ensures InUse() == old(InUse()) + SetOf(Range(start, n))
      ensures n > 0 ==> dirty
    {
      var j: nat := 0;
      NoRange(start, n);
      while j < n
        invariant j == 0 || j <= n
        invariant InUse() == old(InUse()) + SetOf(Range(start, j)) && (j > 0 ==> dirty)
      {
        hide InUse;
        RangeMore(start, j);
        assert SetOf(Range(start, j) + [start + j]) == SetOf(Range(start, j)) + {start + j};
        Mark(start + j);
        j := j + 1;
      }
    }

    /** Takes n clusters, in a row if possible. */
    method AllocContiguousClusters(n: int) returns (runs: Option<seq<Run>>)
      modifies this`dirty, bitmap
      ensures runs == GivenRuns(old(InUse()), Size(), n)
      ensures InUse() == Taken(old(InUse()), Size(), n)
    {
      hide InUse, FirstGap, FirstRuns, TakenFirst;
      if n <= 0 {
        return Some([]);
      }
      ghost var u0 := InUse();
      runs := TryAllocContiguous(n);
      if runs.None? {
        assert InUse() == u0 + {} == u0;
        runs := AllocClusters(n);
      }
    }

    method FreeCluster(lcn: nat)
      modifies this`dirty, bitmap
      ensures InUse() == old(InUse()) - (if lcn == 0 then {} else {lcn})
      ensures dirty == (old(dirty) || 0 < lcn < Size())
    {
      if lcn == 0 {
        return;
      }
      if lcn / 8 < bitmap.Length {
        Unmarked(bitmap[..], lcn);
        bitmap[lcn / 8] := Cleared(bitmap[lcn / 8], lcn % 8);
        dirty := true;
        assert bitmap[..] == old(bitmap[..])[lcn / 8 := bitmap[lcn / 8]];
      }
    }

    /** Gives back all clusters of a runlist but the boot sector's. */
    method FreeRuns(runs: seq<Run>)
      modifies this`dirty, bitmap
      ensures InUse() == Freed(old(InUse()), runs)
    {
      ghost var u0 := InUse();
      hide InUse, SetOf, Clusters, Range;
      NoClusters(u0);
      for k := 0 to |runs|
        invariant InUse() == Freed(u0, runs[..k])
      {
        var r := runs[k];
        assert runs[..k + 1] == runs[..k] + [r];
        if r.lcn < 0 || r.length <= 0 {
          FreedEmpty(u0, runs[..k], r);
        }
        FreedEmpty(u0, runs[..k], Run(r.lcn, 0));
        hide Freed;
        if r.lcn < 0 {
          continue;
        }
        var i: nat := 0;
        while i < r.length
          invariant i == 0 || i <= r.length
          invariant InUse() == Freed(u0, runs[..k] + [Run(r.lcn, i)])
        {
          FreedRange(u0, runs[..k], r.lcn, i);
          FreeCluster(r.lcn + i);
          i := i + 1;
        }
      }
      assert runs[..|runs|] == runs;
    }
  }

  /** What is in use once a runlist is freed. */
  ghost function Freed(used: set<nat>, runs: seq<Run>): set<nat> {
    used - (SetOf(Clusters(runs)) - {0})
  }

  /** What asking for n clusters, in a row if possible, gives, and leaves in use. */
  ghost function GivenRuns(used: set<nat>, size: nat, n: int): Option<seq<Run>> {
    if n <= 0 then Some([])
    else
      var gap := FirstGap(used, size, n, 1);
      if gap.Some? then Some([Run(gap.value, n)]) else FirstRuns(used, size, n)
  }

  ghost function Taken(used: set<nat>, size: nat, n: int): set<nat> {
    if n <= 0 then used
    else
      var gap := FirstGap(used, size, n, 1);
      if gap.Some? then used + SetOf(Range(gap.value, n)) else TakenFirst(used, size, n)
  }

  lemma NoClusters(used: set<nat>)
    ensures Freed(used, []) == used
  {}

  lemma FreedEmpty(used: set<nat>, runs: seq<Run>, r: Run)
    requires r.lcn < 0 || r.length <= 0
    ensures Freed(used, runs + [r]) == Freed(used, runs)
  {
    ClustersSnoc(runs, r);
    hide Clusters;
    assert Clusters(runs + [r]) == Clusters(runs);
  }

  lemma FreedRange(used: set<nat>, runs: seq<Run>, lcn: nat, i: nat)
    ensures Freed(used, runs + [Run(lcn, i + 1)])
            == Freed(used, runs + [Run(lcn, i)]) - (if lcn + i == 0 then {} else {lcn + i})
  {
    ClustersSnoc(runs, Run(lcn, i));
    ClustersSnoc(runs, Run(lcn, i + 1));
    RangeMore(lcn, i);
    hide Clusters, Range;
    SetOfSnoc(Clusters(runs + [Run(lcn, i)]), lcn + i);
    assert Clusters(runs + [Run(lcn, i + 1)]) == Clusters(runs + [Run(lcn, i)]) + [lcn + i];
    hide SetOf;
  }

  lemma SetOfSnoc(s: seq<nat>, x: nat)
    ensures SetOf(s + [x]) == SetOf(s) + {x}
  {}

  /** A scan for n free clusters in a row has come to p: the last len before p are free, starting at start,
      and no earlier start will do. */
  ghost predicate ScannedTo(used: set<nat>, size: nat, n: nat, start: int, len: nat, p: nat) {
    && p > len && len < n
    && (len > 0 ==> start == p - len)
    && AllFree(used, p - len, len)
    && FirstGap(used, size, n, 1) == FirstGap(used, size, n, p - len)
  }

  lemma ReadsHere(bitmap: seq<bv8>, i: nat, bit: nat)
    requires i < |bitmap| && bit < 8
    ensures bitmap[i] & Mask(bit) != 0 <==> 8 * i + bit in Used(bitmap)
  {
    assert (8 * i + bit) / 8 == i && (8 * i + bit) % 8 == bit;
  }

  lemma ScanStarts(used: set<nat>, size: nat, n: nat)
    requires n > 0
    ensures ScannedTo(used, size, n, -1, 0, 1)
  {}

  lemma ScanStep(used: set<nat>, size: nat, n: nat, start: int, len: nat, p: nat)
    requires p < size && ScannedTo(used, size, n, start, len, p)
    ensures len < n && p > len && (len > 0 ==> start == p - len)
    ensures p in used ==> ScannedTo(used, size, n, -1, 0, p + 1)
    ensures p !in used && len + 1 < n ==> ScannedTo(used, size, n, p - len, len + 1, p + 1)
    ensures p !in used && len + 1 == n ==> FirstGap(used, size, n, 1) == Some(p - len) && p - len + n <= size
  {
    if p in used {
      GapSkips(used, size, n, p - len, p);
    }
  }

  lemma ScanEnds(used: set<nat>, size: nat, n: nat, start: int, len: nat)
    requires ScannedTo(used, size, n, start, len, if size == 0 then 1 else size)
    ensures FirstGap(used, size, n, 1) == None
  {}

  method AppendRun(runs: seq<Run>, lcn: nat) returns (grown: seq<Run>)
    ensures grown == Appended(runs, lcn)
  {
    if |runs| > 0 {
      var last := runs[|runs| - 1];
      if last.lcn + last.length == lcn {
        return runs[..|runs| - 1] + [Run(last.lcn, last.length + 1)];
      }
    }
    grown := runs + [Run(lcn, 1)];
  }

  /** What taking n clusters one by one leaves in use. */
  ghost function TakenFirst(used: set<nat>, size: nat, n: int): set<nat> {
    var list := Free(used, size, 1);
    if n <= 0 then used
    else if n <= |list| then Booted(used, size) + SetOf(list[..n])
    else Booted(used, size) + SetOf(list)
  }

  ghost function FirstRuns(used: set<nat>, size: nat, n: int): Option<seq<Run>> {
    var list := Free(used, size, 1);
    if n <= 0 then Some([]) else if n <= |list| then Some(RunsOf(list[..n])) else None
  }

  lemma RunsOfNone()
    ensures RunsOf([]) == []
  {}

  lemma TakesNext(u0: set<nat>, u: set<nat>, size: nat, list: seq<nat>, k: nat)
    requires k <= |list| && Free(u, size, 1) == list[k..]
    requires u == (if k == 0 then u0 else Booted(u0, size) + SetOf(list[..k]))
    ensures k < |list| ==>
      && Booted(u, size) + {list[k]} == Booted(u0, size) + SetOf(list[..k + 1])
      && Free(Booted(u, size) + {list[k]}, size, 1) == list[k + 1..]
      && RunsOf(list[..k + 1]) == Appended(RunsOf(list[..k]), list[k])
    ensures k == |list| ==> Booted(u, size) == Booted(u0, size) + SetOf(list)
  {
    if k < |list| {
      FreeTaken(u, size, 1);
      assert list[..k + 1] == list[..k] + [list[k]];
      assert list[..k + 1][..k] == list[..k];
      assert SetOf(list[..k + 1]) == SetOf(list[..k]) + {list[k]};
      assert list[k..][1..] == list[k + 1..];
    } else {
      assert list[..k] == list;
    }
  }

  /** Where a scan from a bit of a byte looks for free clusters: never at cluster 0. */
  function From(i: nat, bit: nat): nat {
    if i == 0 && bit == 0 then 1 else 8 * i + bit
  }

  lemma FreeStep(u: set<nat>, size: nat, l: nat)
    ensures l < size && l !in u ==> Free(u, size, l) != [] && Free(u, size, l)[0] == l
    ensures l in u ==> Free(u, size, l) == Free(u, size, l + 1)
  {}

  lemma ScansBit(bitmap: seq<bv8>, u0: set<nat>, i: nat, bit: nat)
    requires i < |bitmap| && bit < 8
    requires Used(bitmap) == (if i == 0 then u0 else u0 + {0})
    ensures var l, size := i * 8 + bit, 8 * |bitmap|;
            var list := Free(u0, size, From(i, bit));
            if bitmap[i] & Mask(bit) != 0 then list == Free(u0, size, From(i, bit + 1)) && l in u0
            else if l == 0 then list == Free(u0, size, From(i, bit + 1))
            else list != [] && list[0] == l
  {
    ReadsBit(bitmap, u0, i, bit);
    FreeStep(u0, 8 * |bitmap|, i * 8 + bit);
    hide Used, Free, Mask;
  }

  lemma SkipsByte(bitmap: seq<bv8>, u0: set<nat>, i: nat)
    requires i < |bitmap| && bitmap[i] == 0xFF
    requires Used(bitmap) == (if i == 0 then u0 else u0 + {0})
    ensures Free(u0, 8 * |bitmap|, From(i, 0)) == Free(u0, 8 * |bitmap|, From(i + 1, 0))
    ensures i == 0 ==> 0 in u0
  {
    ByteInUse(bitmap, i);
    InUseBefore(Used(bitmap), u0, i);
    hide Used, Mask;
    FreeSkips(u0, 8 * |bitmap|, From(i, 0), From(i + 1, 0));
    hide *;
  }

  lemma InUseBefore(w: set<nat>, u0: set<nat>, i: nat)
    requires w == (if i == 0 then u0 else u0 + {0})
    requires forall k :: 8 * i <= k < 8 * (i + 1) ==> k in w
    ensures forall k :: From(i, 0) <= k < From(i + 1, 0) ==> k in u0
    ensures From(i, 0) <= From(i + 1, 0) && (i == 0 ==> 0 in u0)
  {
    forall k | From(i, 0) <= k < From(i + 1, 0)
      ensures k in u0
    {
      assert k in w;
    }
    assert i == 0 ==> 0 in w;
  }

  lemma ByteInUse(bitmap: seq<bv8>, i: nat)
    requires i < |bitmap| && bitmap[i] == 0xFF
    ensures forall k :: 8 * i <= k < 8 * (i + 1) ==> k in Used(bitmap)
  {
    forall k | 8 * i <= k < 8 * (i + 1)
      ensures k in Used(bitmap)
    {
      FullByte(bitmap, i, k - 8 * i);
    }
  }

  /** The bit read, from the byte as it was before cluster 0 was marked. */
  lemma ReadsBit(bitmap: seq<bv8>, u0: set<nat>, i: nat, bit: nat)
    requires i < |bitmap| && bit < 8
    requires Used(bitmap) == (if i == 0 then u0 else u0 + {0})
    ensures bitmap[i] & Mask(bit) != 0 <==> 8 * i + bit in u0
  {
    assert (8 * i + bit) / 8 == i && (8 * i + bit) % 8 == bit;
    assert 8 * i + bit in Used(bitmap) <==> IsUsed(bitmap, 8 * i + bit);
  }

  // ---- what one allocation gives ----

  /** Free clusters after the boot sector's, in order, go into use, and at most the boot sector's with
      them. */
  ghost predicate Takes(used: set<nat>, size: nat, list: seq<nat>, after: set<nat>) {
    && Ascending(list)
    && (forall x :: x in list ==> 1 <= x < size && x !in used)
    && (after == used + SetOf(list) || after == Booted(used, size) + SetOf(list))
  }

  /** The clusters of the runs given, or all free ones where an allocation fails. */
  ghost function Gone(used: set<nat>, size: nat, runs: Option<seq<Run>>): seq<nat> {
    if runs.Some? then Clusters(runs.value) else Free(used, size, 1)
  }

  lemma AllTaken(used: set<nat>, size: nat)
    ensures Takes(used, size, Free(used, size, 1), Booted(used, size) + SetOf(Free(used, size, 1)))
  {
    FreeMembers(used, size, 1);
  }

  /** Taking clusters one by one works exactly when there are enough, and gives the first of them. */
  lemma FirstRunsGive(used: set<nat>, size: nat, n: nat)
    requires n > 0
    ensures var runs := FirstRuns(used, size, n);
            && (runs.Some? <==> n <= |Free(used, size, 1)|)
            && (runs.Some? ==> |Clusters(runs.value)| == n)
            && Takes(used, size, Gone(used, size, runs), TakenFirst(used, size, n))
  {
    var list := Free(used, size, 1);
    AllTaken(used, size);
    hide Clusters, RunsOf, Free, Takes;
    if n <= |list| {
      RunsHoldList(list[..n]);
      FirstTaken(used, size, list, n);
    }
  }

  lemma FirstTaken(used: set<nat>, size: nat, list: seq<nat>, n: nat)
    requires Takes(used, size, list, Booted(used, size) + SetOf(list)) && n <= |list|
    ensures Takes(used, size, list[..n], Booted(used, size) + SetOf(list[..n]))
  {
    FirstOnes(list, n);
    hide Ascending, SetOf;
  }

  lemma FirstOnes(list: seq<nat>, n: nat)
    requires Ascending(list) && n <= |list|
    ensures Ascending(list[..n]) && forall x :: x in list[..n] ==> x in list
  {}

  lemma {:induction false} RangeIsFree(used: set<nat>, size: nat, l: nat, n: nat)
    requires AllFree(used, l, n) && l + n <= size
    ensures |Free(used, size, l)| >= n
    decreases n
  {
    if n > 0 {
      RangeIsFree(used, size, l + 1, n - 1);
    }
  }

  lemma {:induction false} FewerFromLater(used: set<nat>, size: nat, from: nat, l: nat)
    requires from <= l
    ensures |Free(used, size, from)| >= |Free(used, size, l)|
    decreases l - from
  {
    if from < l {
      FewerFromLater(used, size, from + 1, l);
    }
  }

  lemma OneRun(l: nat, n: nat)
    ensures Clusters([Run(l, n)]) == Range(l, n)
  {
    assert [] + [Run(l, n)] == [Run(l, n)];
    ClustersSnoc([], Run(l, n));
  }

  /** Asking for a row of clusters, and falling back, works exactly when there are enough. */
  lemma AllocationGives(used: set<nat>, size: nat, n: nat)
    requires n > 0
    ensures var runs := GivenRuns(used, size, n);
            && (runs.Some? <==> n <= |Free(used, size, 1)|)
            && (runs.Some? ==> |Clusters(runs.value)| == n)
            && Takes(used, size, Gone(used, size, runs), Taken(used, size, n))
  {
    var gap := FirstGap(used, size, n, 1);
    FirstGapIsFirst(used, size, n, 1);
    FirstRunsGive(used, size, n);
    hide FirstRuns, TakenFirst, FirstGap, Free, Takes;
    if gap.Some? {
      var l := gap.value;
      RangeIsFree(used, size, l, n);
      FewerFromLater(used, size, 1, l);
      OneRun(l, n);
      RangeTakes(used, size, l, n);
      hide Clusters, Range;
      RangeMembers(l, n);
    }
  }

  lemma RangeTakes(used: set<nat>, size: nat, l: nat, n: nat)
    requires AllFree(used, l, n) && 1 <= l && l + n <= size
    ensures Takes(used, size, Range(l, n), used + SetOf(Range(l, n)))
  {
    RangeMembers(l, n);
    hide Range;
  }

  /** A failed allocation leaves nothing free. */
  lemma FailureTakesAll(used: set<nat>, size: nat, n: nat)
    requires n > 0 && GivenRuns(used, size, n).None?
    ensures Free(Taken(used, size, n), size, 1) == []
  {
    FirstRunsGive(used, size, n);
    FreeMembers(used, size, 1);
    FreeMembers(Taken(used, size, n), size, 1);
    hide FirstGap, Free;
    EmptyOrNot(Free(Taken(used, size, n), size, 1));
  }

  lemma EmptyOrNot(s: seq<nat>)
    ensures s == [] || exists x :: x in s
  {
    if s != [] {
      assert s[0] in s;
    }
  }

  // ---- whole runs ----

  datatype Op =
    | Ask(n: int)
    | AskOneByOne(n: int)
    | GiveBack(k: nat)

  /** Clusters in use, the runlists handed out and not given back, and the clusters that a failed
      allocation took and nobody holds. */
  datatype Books = Books(used: set<nat>, live: seq<seq<Run>>, lost: set<nat>)

  ghost function Next(b: Books, size: nat, op: Op): Books {
    match op
    case Ask(n) => Booked(b, size, GivenRuns(b.used, size, n), Taken(b.used, size, n))
    case AskOneByOne(n) => Booked(b, size, FirstRuns(b.used, size, n), TakenFirst(b.used, size, n))
    case GiveBack(k) =>
      if k >= |b.live| then b
      else Books(Freed(b.used, b.live[k]), Without(b.live, k), b.lost)
  }

  function Without(live: seq<seq<Run>>, k: nat): seq<seq<Run>>
    requires k < |live|
  {
    live[..k] + live[k + 1..]
  }

  ghost function Booked(b: Books, size: nat, runs: Option<seq<Run>>, used: set<nat>): Books {
    if runs.Some? then Books(used, b.live + [runs.value], b.lost)
    else Books(used, b.live, b.lost + SetOf(Free(b.used, size, 1)))
  }

  ghost function AfterOps(u0: set<nat>, size: nat, ops: seq<Op>): Books {
    if ops == [] then Books(u0, [], {}) else Next(AfterOps(u0, size, ops[..|ops| - 1]), size, ops[|ops| - 1])
  }

  function Held(live: seq<seq<Run>>): multiset<nat> {
    if live == [] then multiset{} else Held(live[..|live| - 1]) + multiset(Clusters(live[|live| - 1]))
  }

  /** Every cluster in use after the boot sector's was in use from the start, or is held once in one
      runlist, or is lost: exactly one of these. */
  ghost predicate Balanced(u0: set<nat>, size: nat, b: Books) {
    && multiset(b.used - {0}) == multiset(u0 - {0}) + Held(b.live) + multiset(b.lost)
    && forall x :: x in b.used ==> x < size
  }

  lemma DisjointUnion(a: set<nat>, b: set<nat>)
    requires a !! b
    ensures multiset(a + b) == multiset(a) + multiset(b)
  {
    forall x: nat
      ensures multiset(a + b)[x] == (multiset(a) + multiset(b))[x]
    {}
  }

  lemma {:induction false} AscendingCount(s: seq<nat>)
    requires Ascending(s)
    ensures multiset(s) == multiset(SetOf(s))
  {
    if s != [] {
      var front, last := s[..|s| - 1], s[|s| - 1];
      AscendingCount(front);
      assert s == front + [last];
      SetOfSnoc(front, last);
      assert last !in front;
      DisjointUnion(SetOf(front), {last});
    }
  }

  lemma TakenBalanced(u0: set<nat>, size: nat, b: Books, list: seq<nat>, used: set<nat>)
    requires Balanced(u0, size, b) && Takes(b.used, size, list, used)
    ensures multiset(used - {0}) == multiset(u0 - {0}) + Held(b.live) + multiset(b.lost) + multiset(list)
    ensures multiset(list) == multiset(SetOf(list)) && b.used !! SetOf(list)
    ensures forall x :: x in used ==> x < size
  {
    AscendingCount(list);
    DisjointUnion(b.used - {0}, SetOf(list));
    assert used - {0} == (b.used - {0}) + SetOf(list);
  }

  lemma HeldSnoc(live: seq<seq<Run>>, runs: seq<Run>)
    ensures Held(live + [runs]) == Held(live) + multiset(Clusters(runs))
  {
    assert (live + [runs])[..|live|] == live;
  }

  lemma WithoutAt(live: seq<seq<Run>>, i: nat, j: nat)
    requires i < |live| && j < |live| && i != j
    ensures var k := if j < i then j else j - 1;
            k < |Without(live, i)| && Without(live, i)[k] == live[j]
  {}

  lemma WithoutSnoc(live: seq<seq<Run>>, runs: seq<Run>, k: nat)
    requires k <= |live|
    ensures Without(live + [runs], k) == if k == |live| then live else Without(live, k) + [runs]
  {}

  lemma {:induction false} HeldWithout(live: seq<seq<Run>>, k: nat)
    requires k < |live|
    ensures Held(live) == Held(Without(live, k)) + multiset(Clusters(live[k]))
    decreases |live|
  {
    hide Without, Clusters;
    var n := |live| - 1;
    var front, last := live[..n], live[n];
    WithoutSnoc(front, last, k);
    assert live == front + [last];
    if k < n {
      HeldWithout(front, k);
      HeldSnoc(Without(front, k), last);
    }
  }

  /** A list that is part of a set, with multiplicities, has no cluster twice. */
  lemma PartOfSet(whole: set<nat>, rest: multiset<nat>, s: seq<nat>)
    requires multiset(whole) == rest + multiset(s)
    ensures multiset(s) == multiset(SetOf(s)) && SetOf(s) <= whole
    ensures multiset(whole - SetOf(s)) == rest
  {
    forall x: nat
      ensures multiset(s)[x] == multiset(SetOf(s))[x]
      ensures x in s ==> x in whole
    {
      assert multiset(whole)[x] <= 1;
      assert x in s <==> x in multiset(s);
    }
    DisjointUnion(whole - SetOf(s), SetOf(s));
    assert whole == (whole - SetOf(s)) + SetOf(s);
    assert multiset(whole - SetOf(s)) == multiset(whole) - multiset(SetOf(s)) == rest;
  }

  /** Two parts of a set have nothing in common. */
  lemma PartsApart(whole: set<nat>, rest: multiset<nat>, a: multiset<nat>, b: multiset<nat>)
    requires multiset(whole) == rest + a + b
    ensures forall x :: x in a ==> x !in b
  {
    forall x | x in a
      ensures x !in b
    {
      assert multiset(whole)[x] <= 1;
    }
  }

  lemma FreedBalanced(u0: set<nat>, size: nat, b: Books, k: nat)
    requires Balanced(u0, size, b) && k < |b.live|
    ensures Balanced(u0, size, Books(Freed(b.used, b.live[k]), Without(b.live, k), b.lost))
  {
    var list := Clusters(b.live[k]);
    HeldWithout(b.live, k);
    var rest := multiset(u0 - {0}) + Held(Without(b.live, k)) + multiset(b.lost);
    hide Held, Without, Clusters;
    assert multiset(b.used - {0}) == rest + multiset(list);
    PartOfSet(b.used - {0}, rest, list);
    hide SetOf;
    assert Freed(b.used, b.live[k]) - {0} == b.used - {0} - SetOf(list);
  }

  lemma NextBalanced(u0: set<nat>, size: nat, b: Books, op: Op)
    requires Balanced(u0, size, b)
    ensures Balanced(u0, size, Next(b, size, op))
  {
    hide Balanced, GivenRuns, FirstRuns, Taken, TakenFirst, Gone, Takes, Without, Freed;
    match op
    case Ask(n) =>
      if n > 0 {
        AllocationGives(b.used, size, n);
        BookedBalanced(u0, size, b, GivenRuns(b.used, size, n), Taken(b.used, size, n));
      } else {
        NothingAsked(b.used, size, n);
        BookedNothing(u0, size, b);
      }
    case AskOneByOne(n) =>
      if n > 0 {
        FirstRunsGive(b.used, size, n);
        BookedBalanced(u0, size, b, FirstRuns(b.used, size, n), TakenFirst(b.used, size, n));
      } else {
        NothingAsked(b.used, size, n);
        BookedNothing(u0, size, b);
      }
    case GiveBack(k) =>
      if k < |b.live| {
        FreedBalanced(u0, size, b, k);
      }
  }

  lemma NothingAsked(used: set<nat>, size: nat, n: int)
    requires n <= 0
    ensures GivenRuns(used, size, n) == Some([]) && Taken(used, size, n) == used
    ensures FirstRuns(used, size, n) == Some([]) && TakenFirst(used, size, n) == used
  {}

  lemma BookedNothing(u0: set<nat>, size: nat, b: Books)
    requires Balanced(u0, size, b)
    ensures Balanced(u0, size, Booked(b, size, Some([]), b.used))
  {
    HeldSnoc(b.live, []);
  }

  lemma BookedBalanced(u0: set<nat>, size: nat, b: Books, runs: Option<seq<Run>>, used: set<nat>)
    requires Balanced(u0, size, b) && Takes(b.used, size, Gone(b.used, size, runs), used)
    ensures Balanced(u0, size, Booked(b, size, runs, used))
  {
    TakenBalanced(u0, size, b, Gone(b.used, size, runs), used);
    if runs.Some? {
      HeldSnoc(b.live, runs.value);
    } else {
      LostApart(u0, size, b);
      DisjointUnion(b.lost, SetOf(Free(b.used, size, 1)));
    }
    hide Takes, Held, Clusters, Free, SetOf;
  }

  /** A lost cluster is in use. */
  lemma LostApart(u0: set<nat>, size: nat, b: Books)
    requires Balanced(u0, size, b)
    ensures forall x :: x in b.lost ==> x in b.used
  {
    forall x | x in b.lost
      ensures x in b.used
    {
      assert x in multiset(b.lost) && x in multiset(b.used - {0});
    }
  }

  /** Over every run of allocations and of frees of what was handed out, the books balance. */
  lemma {:induction false} EveryRunBalanced(u0: set<nat>, size: nat, ops: seq<Op>)
    requires forall x :: x in u0 ==> x < size
    ensures Balanced(u0, size, AfterOps(u0, size, ops))
  {
    if ops != [] {
      EveryRunBalanced(u0, size, ops[..|ops| - 1]);
      NextBalanced(u0, size, AfterOps(u0, size, ops[..|ops| - 1]), ops[|ops| - 1]);
    } else {
      assert multiset(u0 - {0}) == multiset(u0 - {0}) + multiset{} + multiset({});
    }
  }

  /** A runlist that is held is made of distinct clusters, none of them the boot sector's, none in use at
      the start, and none in another runlist that is held. */
  lemma HeldApart(u0: set<nat>, size: nat, b: Books, i: nat)
    requires Balanced(u0, size, b) && i < |b.live|
    ensures var mine := Clusters(b.live[i]);
            && multiset(mine) == multiset(SetOf(mine)) && SetOf(mine) <= b.used - {0}
            && (forall x :: x in mine && x != 0 ==> x !in u0)
            && forall j :: 0 <= j < |b.live| && j != i ==> SetOf(mine) !! SetOf(Clusters(b.live[j]))
  {
    var mine, init := Clusters(b.live[i]), multiset(u0 - {0});
    var others := Without(b.live, i);
    HeldWithout(b.live, i);
    hide Held, Clusters, Without;
    PartOfSet(b.used - {0}, init + Held(others) + multiset(b.lost), mine);
    PartsApart(b.used - {0}, Held(others) + multiset(b.lost), init, multiset(mine));
    assert forall x :: x in mine ==> x in multiset(mine);
    forall j | 0 <= j < |b.live| && j != i
      ensures SetOf(mine) !! SetOf(Clusters(b.live[j]))
    {
      var k := if j < i then j else j - 1;
      WithoutAt(b.live, i, j);
      HeldWithout(others, k);
      var theirs := Clusters(others[k]);
      PartsApart(b.used - {0}, init + Held(Without(others, k)) + multiset(b.lost), multiset(theirs), multiset(mine));
      assert forall x :: x in theirs ==> x in multiset(theirs);
    }
  }

  /** Once everything is given back, the bitmap is as it was, up to the boot sector's bit, exactly when
      nothing was lost. */
  lemma AllGivenBack(u0: set<nat>, size: nat, b: Books)
    requires Balanced(u0, size, b) && b.live == []
    ensures b.used - {0} == u0 - {0} <==> b.lost == {}
  {
    forall x: nat
      ensures x in b.used - {0} <==> x in u0 - {0} || x in b.lost
      ensures x in b.lost ==> x !in u0 - {0}
    {
      assert x in multiset(b.used - {0}) <==> x in b.used - {0};
      assert multiset(b.used - {0})[x] <= 1;
      assert multiset(b.lost)[x] == if x in b.lost then 1 else 0;
      assert multiset(u0 - {0})[x] == if x in u0 - {0} then 1 else 0;
    }
    if b.lost != {} {
      var x :| x in b.lost;
      assert x in b.used - {0} && x !in u0 - {0};
    }
  }

  /** A step loses clusters exactly when it asks for more than are free and some are. */
  lemma LosesWhen(b: Books, size: nat, op: Op)
    requires forall x :: x in b.lost ==> x in b.used
    ensures var free := |Free(b.used, size, 1)|;
            Next(b, size, op).lost != b.lost <==> !op.GiveBack? && op.n > free > 0
  {
    FreeMembers(b.used, size, 1);
    var list := Free(b.used, size, 1);
    hide Free, Freed, Taken, TakenFirst;
    if !op.GiveBack? {
      if op.n > 0 {
        AllocationGives(b.used, size, op.n);
        FirstRunsGive(b.used, size, op.n);
      }
      hide GivenRuns, FirstRuns;
      if list != [] {
        assert list[0] in SetOf(list) && list[0] !in b.lost;
      } else {
        assert b.lost + SetOf(list) == b.lost;
      }
    }
  }
}
