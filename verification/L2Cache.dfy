/** The cache of second-level page tables of a QED or QCOW image: a bounded LRU list with an index, whose
    lock is released between a miss and the insertion that follows it. */
module L2Cache {
  import opened Bits

  type Table = seq<nat>

  /** A list element; ids tell apart elements for the same offset, as pointers do. */
  datatype Elem = Elem(id: nat, offset: nat, table: Table)

  /** The list, most recently used first, the index into it, and the next unused id. */
  datatype Cache = Cache(list: seq<Elem>, index: map<nat, Elem>, nextId: nat)

  /** The table stored at each offset of the image, None where it cannot be read. */
  type Disk = nat -> Option<Table>

  const EMPTY := Cache([], map[], 0)

  // ---- the two locked sections, on values ----

  function Without(list: seq<Elem>, e: Elem): seq<Elem> {
    if list == [] then [] else if list[0] == e then list[1..] else [list[0]] + Without(list[1..], e)
  }

  /** The first section: a hit moves the element to the front and gives its table. */
  function Looked(c: Cache, offset: nat): Cache {
    if offset in c.index then c.(list := [c.index[offset]] + Without(c.list, c.index[offset])) else c
  }

  /** Drops elements from the back, with their offsets' index entries, until at most max are left. */
  function Evicted(c: Cache, max: nat): Cache
    decreases |c.list|
  {
    if |c.list| <= max then c
    else
      var last := c.list[|c.list| - 1];
      Evicted(Cache(c.list[..|c.list| - 1], c.index - {last.offset}, c.nextId), max)
  }

  /** The second section: a new element goes to the front and into the index, the oldest go. */
  function Inserted(c: Cache, offset: nat, table: Table, max: nat): Cache {
    var e := Elem(c.nextId, offset, table);
    Evicted(Cache([e] + c.list, c.index[offset := e], c.nextId + 1), max)
  }

  // ---- what always holds ----

  ghost predicate Sound(c: Cache, disk: Disk) {
    && (forall i, j :: 0 <= i < j < |c.list| ==> c.list[i].id != c.list[j].id)
    && (forall e :: e in c.list ==> e.id < c.nextId && disk(e.offset) == Some(e.table))
    && (forall o :: o in c.index ==> c.index[o] in c.list && c.index[o].offset == o)
  }

  lemma {:induction false} WithoutMembers(list: seq<Elem>, e: Elem)
    requires forall i, j :: 0 <= i < j < |list| ==> list[i].id != list[j].id
    ensures forall x :: x in Without(list, e) <==> x in list && x != e
    ensures forall i, j :: 0 <= i < j < |Without(list, e)| ==> Without(list, e)[i].id != Without(list, e)[j].id
    ensures e in list ==> |Without(list, e)| == |list| - 1
  {
    if list != [] {
      if list[0] == e {
        forall x | x in list[1..]
          ensures x != e
        {}
      } else {
        WithoutMembers(list[1..], e);
        assert list == [list[0]] + list[1..];
        forall x | x in Without(list[1..], e)
          ensures x.id != list[0].id
        {}
      }
    }
  }

  lemma LookedSound(c: Cache, disk: Disk, offset: nat)
    requires Sound(c, disk)
    ensures Sound(Looked(c, offset), disk) && |Looked(c, offset).list| == |c.list|
  {
    if offset in c.index {
      var e := c.index[offset];
      WithoutMembers(c.list, e);
      var w := Without(c.list, e);
      forall x | x in w
        ensures x.id != e.id
      {
        IdsDiffer(c.list, x, e);
      }
    }
  }

  lemma IdsDiffer(list: seq<Elem>, x: Elem, y: Elem)
    requires forall i, j :: 0 <= i < j < |list| ==> list[i].id != list[j].id
    requires x in list && y in list && x != y
    ensures x.id != y.id
  {}

  lemma {:induction false} EvictedSound(c: Cache, disk: Disk, max: nat)
    requires Sound(c, disk)
    ensures Sound(Evicted(c, max), disk) && |Evicted(c, max).list| <= max
    ensures Evicted(c, max).list == if |c.list| <= max then c.list else c.list[..max]
    ensures Evicted(c, max).nextId == c.nextId
    decreases |c.list|
  {
    if |c.list| > max {
      var n := |c.list| - 1;
      var last := c.list[n];
      var next := Cache(c.list[..n], c.index - {last.offset}, c.nextId);
      forall o | o in next.index
        ensures next.index[o] in next.list
      {
        assert next.index[o] in c.list && next.index[o] != last;
      }
      EvictedSound(next, disk, max);
    }
  }

  lemma InsertedSound(c: Cache, disk: Disk, offset: nat, table: Table, max: nat)
    requires Sound(c, disk) && disk(offset) == Some(table)
    ensures Sound(Inserted(c, offset, table, max), disk) && |Inserted(c, offset, table, max).list| <= max
  {
    var e := Elem(c.nextId, offset, table);
    var grown := Cache([e] + c.list, c.index[offset := e], c.nextId + 1);
    assert Sound(grown, disk);
    EvictedSound(grown, disk, max);
  }

  // ---- callers, interleaved ----

  /** How far a call of the table lookup has got. */
  datatype Call =
    | Idle
    | Missed(offset: nat)
    | Loaded(offset: nat, table: Table)
    | Returned(offset: nat, table: Table)
    | Failed(offset: nat)

  /** The cache, and what each caller is doing. */
  datatype System = System(cache: Cache, calls: map<nat, Call>)

  /** What a caller may do next: start a call (the first locked section), read the table without the
      lock, or insert it (the second locked section). */
  datatype Move = Start(caller: nat, offset: nat) | Load(caller: nat) | Insert(caller: nat)

  function CallOf(s: System, caller: nat): Call {
    if caller in s.calls then s.calls[caller] else Idle
  }

  /** One step; moves that are not possible change nothing. */
  function Next(s: System, m: Move, disk: Disk, max: nat): System {
    var call := CallOf(s, m.caller);
    match m
    case Start(caller, offset) =>
      if call.Missed? || call.Loaded? then s
      else if offset in s.cache.index then
        System(Looked(s.cache, offset), s.calls[caller := Returned(offset, s.cache.index[offset].table)])
      else s.(calls := s.calls[caller := Missed(offset)])
    case Load(caller) =>
      if !call.Missed? then s
      else
        var read := disk(call.offset);
        s.(calls := s.calls[caller := if read.None? then Failed(call.offset) else Loaded(call.offset, read.value)])
    case Insert(caller) =>
      if !call.Loaded? then s
      else System(Inserted(s.cache, call.offset, call.table, max),
                  s.calls[caller := Returned(call.offset, call.table)])
  }

  function Run(moves: seq<Move>, disk: Disk, max: nat): System {
    if moves == [] then System(EMPTY, map[])
    else Next(Run(moves[..|moves| - 1], disk, max), moves[|moves| - 1], disk, max)
  }

  ghost predicate CallHolds(call: Call, disk: Disk) {
    && (call.Loaded? || call.Returned? ==> disk(call.offset) == Some(call.table))
    && (call.Failed? ==> disk(call.offset) == None)
  }

  ghost predicate SystemSound(s: System, disk: Disk, max: nat) {
    && Sound(s.cache, disk) && |s.cache.list| <= max
    && forall t :: t in s.calls ==> CallHolds(s.calls[t], disk)
  }

  lemma NextSound(s: System, m: Move, disk: Disk, max: nat)
    requires SystemSound(s, disk, max)
    ensures SystemSound(Next(s, m, disk, max), disk, max)
  {
    hide Looked, Inserted;
    var call := CallOf(s, m.caller);
    match m
    case Start(caller, offset) =>
      LookedSound(s.cache, disk, offset);
    case Load(caller) =>
    case Insert(caller) =>
      if call.Loaded? {
        InsertedSound(s.cache, disk, call.offset, call.table, max);
      }
  }

  /** Over every interleaving of callers: the index names only elements that are in the list, under their
      own offsets; the list is within its bound whenever the lock is free; and every table returned is the
      one stored at the offset asked for. */
  lemma {:induction false} EveryRunSound(moves: seq<Move>, disk: Disk, max: nat)
    ensures SystemSound(Run(moves, disk, max), disk, max)
  {
    if moves != [] {
      EveryRunSound(moves[..|moves| - 1], disk, max);
      NextSound(Run(moves[..|moves| - 1], disk, max), moves[|moves| - 1], disk, max);
    }
  }

  // ---- elements the index has lost ----

  /** Every element of the list is the one the index names for its offset. */
  ghost predicate Faithful(c: Cache) {
    forall e :: e in c.list ==> e.offset in c.index && c.index[e.offset] == e
  }

  lemma {:induction false} EvictedFaithful(c: Cache, disk: Disk, max: nat)
    requires Sound(c, disk) && Faithful(c)
    ensures Faithful(Evicted(c, max))
    decreases |c.list|
  {
    if |c.list| > max {
      var n := |c.list| - 1;
      var last := c.list[n];
      var next := Cache(c.list[..n], c.index - {last.offset}, c.nextId);
      forall e | e in next.list
        ensures e.offset in next.index && next.index[e.offset] == e
      {
        assert e in c.list && e.id != last.id;
      }
      forall o | o in next.index
        ensures next.index[o] in next.list
      {
        assert next.index[o] in c.list && next.index[o] != last;
      }
      EvictedFaithful(next, disk, max);
    }
  }

  /** Once the index names another element for an offset, or none, it does so for good. */
  lemma {:induction false} EvictedNames(c: Cache, max: nat, o: nat)
    ensures o in Evicted(c, max).index ==> o in c.index && Evicted(c, max).index[o] == c.index[o]
    decreases |c.list|
  {
    if |c.list| > max {
      EvictedNames(Cache(c.list[..|c.list| - 1], c.index - {c.list[|c.list| - 1].offset}, c.nextId), max, o);
    }
  }

  lemma {:induction false} EvictedOlder(c: Cache, max: nat, e: Elem)
    requires e in c.list && e !in Evicted(c, max).list
    ensures e.offset !in Evicted(c, max).index
    decreases |c.list|
  {
    if |c.list| > max {
      var n := |c.list| - 1;
      var next := Cache(c.list[..n], c.index - {c.list[n].offset}, c.nextId);
      if e in next.list {
        EvictedOlder(next, max, e);
      } else {
        EvictedNames(next, max, e.offset);
      }
    }
  }

  /** Inserting keeps the list and the index in step exactly when the offset is not indexed yet, which two
      callers that miss on the same offset cannot both have. */
  lemma InsertKeepsFaithful(c: Cache, disk: Disk, offset: nat, table: Table, max: nat)
    requires Sound(c, disk) && Faithful(c) && disk(offset) == Some(table) && max > 0
    ensures Faithful(Inserted(c, offset, table, max)) <==> offset !in c.index
  {
    var e := Elem(c.nextId, offset, table);
    var grown := Grown(c, offset, table);
    GrownSound(c, disk, offset, table);
    if offset in c.index {
      StaysUnfaithful(c, disk, offset, table, max);
    } else {
      GrownFaithful(c, offset, table);
      EvictedFaithful(grown, disk, max);
    }
  }

  function Grown(c: Cache, offset: nat, table: Table): Cache {
    var e := Elem(c.nextId, offset, table);
    Cache([e] + c.list, c.index[offset := e], c.nextId + 1)
  }

  lemma GrownSound(c: Cache, disk: Disk, offset: nat, table: Table)
    requires Sound(c, disk) && disk(offset) == Some(table)
    ensures Sound(Grown(c, offset, table), disk)
  {}

  lemma GrownFaithful(c: Cache, offset: nat, table: Table)
    requires Faithful(c) && offset !in c.index
    ensures Faithful(Grown(c, offset, table))
  {}

  lemma StaysUnfaithful(c: Cache, disk: Disk, offset: nat, table: Table, max: nat)
    requires Sound(c, disk) && disk(offset) == Some(table) && max > 0 && offset in c.index
    ensures !Faithful(Evicted(Grown(c, offset, table), max))
  {
    var grown := Grown(c, offset, table);
    var e, older := grown.list[0], c.index[offset];
    var after := Evicted(grown, max);
    GrownSound(c, disk, offset, table);
    EvictedSound(grown, disk, max);
    EvictedNames(grown, max, offset);
    assert older in grown.list && older != e;
    assert after.list[0] == e;
    if older !in after.list {
      EvictedOlder(grown, max, older);
    }
  }

  /** Two callers that miss on an offset and both insert. */
  function BothMiss(o: nat): seq<Move> {
    [Start(1, o), Start(2, o), Load(1), Load(2), Insert(1), Insert(2)]
  }

  /** One caller that looks these offsets up in turn, none of which the index has. */
  function Misses(others: seq<nat>): seq<Move> {
    if others == [] then []
    else Misses(others[..|others| - 1]) + [Start(3, others[|others| - 1]), Load(3), Insert(3)]
  }

  /** A table that is still in the list but that no call will find there, in a cache of any size from two up:
      two callers miss on an offset and both insert, then tables for other offsets push the older of the two out. */
  lemma LostTable(disk: Disk, o: nat, others: seq<nat>, max: nat)
    requires max >= 2 && |others| == max - 1 && o !in others
    requires Distinct(others)
    requires disk(o).Some? && forall x :: x in others ==> disk(x).Some?
    ensures var s := Run(BothMiss(o) + Misses(others), disk, max);
            (exists e :: e in s.cache.list && e.offset == o) && o !in s.cache.index
  {
    hide BothMiss, Evicted, Misses;
    var front, x := others[..max - 2], others[max - 2];
    Pushed(disk, o, front, max);
    var before := BothMiss(o) + Misses(front);
    var s := Run(before, disk, max);
    OneMiss(before, disk, x, max);
    MissesSnoc(o, front, x);
    assert others == front + [x];
    assert x !in s.cache.index;
    PushedOut(s.cache, disk(x).value, o, x, max);
  }

  lemma MissesSnoc(o: nat, front: seq<nat>, x: nat)
    ensures BothMiss(o) + Misses(front + [x]) == BothMiss(o) + Misses(front) + [Start(3, x), Load(3), Insert(3)]
  {
    assert (front + [x])[..|front|] == front;
    hide BothMiss;
  }

  /** Both elements for the offset, the older one last, behind a number of others. */
  ghost predicate Twice(c: Cache, o: nat, n: nat) {
    && |c.list| == n + 2 && c.list[n].offset == c.list[n + 1].offset == o
    && o in c.index
  }

  /** As long as there is room both elements stay. */
  lemma {:induction false} Pushed(disk: Disk, o: nat, others: seq<nat>, max: nat)
    requires |others| + 2 <= max && o !in others
    requires Distinct(others)
    requires disk(o).Some? && forall x :: x in others ==> disk(x).Some?
    ensures var s := Run(BothMiss(o) + Misses(others), disk, max);
            && Twice(s.cache, o, |others|) && Rests(s, 3)
            && forall x :: x in s.cache.index ==> x == o || x in others
  {
    if others == [] {
      assert BothMiss(o) + Misses([]) == BothMiss(o);
      BothInsert(disk, o, max);
    } else {
      hide BothMiss, Misses, Evicted;
      var front, x := others[..|others| - 1], others[|others| - 1];
      Pushed(disk, o, front, max);
      var before := BothMiss(o) + Misses(front);
      OneMiss(before, disk, x, max);
      MissesSnoc(o, front, x);
      assert others == front + [x];
      Room(Grown(Run(before, disk, max).cache, x, disk(x).value), max);
    }
  }

  predicate Rests(s: System, caller: nat) {
    !CallOf(s, caller).Missed? && !CallOf(s, caller).Loaded?
  }

  lemma Room(c: Cache, max: nat)
    requires |c.list| <= max
    ensures Evicted(c, max) == c
  {}

  /** A lookup of an offset that the index does not have, with no other call in between. */
  lemma OneMiss(before: seq<Move>, disk: Disk, x: nat, max: nat)
    requires var s := Run(before, disk, max); Rests(s, 3) && x !in s.cache.index && disk(x).Some?
    ensures var s, t := Run(before, disk, max), Run(before + [Start(3, x), Load(3), Insert(3)], disk, max);
            t.cache == Evicted(Grown(s.cache, x, disk(x).value), max) && Rests(t, 3)
  {
    hide Evicted;
    RunSnoc(before, Start(3, x), disk, max);
    RunSnoc(before + [Start(3, x)], Load(3), disk, max);
    RunSnoc(before + [Start(3, x)] + [Load(3)], Insert(3), disk, max);
    assert before + [Start(3, x)] + [Load(3)] + [Insert(3)] == before + [Start(3, x), Load(3), Insert(3)];
  }

  /** One more, and the older element goes, and with it the index entry of the other. */
  lemma PushedOut(c: Cache, table: Table, o: nat, x: nat, max: nat)
    requires max >= 2 && Twice(c, o, max - 2) && x != o
    ensures var d := Evicted(Grown(c, x, table), max);
            (exists e :: e in d.list && e.offset == o) && o !in d.index
  {
    var grown := Grown(c, x, table);
    assert grown.list[max].offset == o && |grown.list| == max + 1;
    var next := Cache(grown.list[..max], grown.index - {o}, grown.nextId);
    hide Evicted;
    Room(next, max);
    OneOver(grown, max);
    assert next.list[max - 1].offset == o && next.list[max - 1] in next.list;
  }

  lemma OneOver(c: Cache, max: nat)
    requires |c.list| == max + 1
    ensures Evicted(c, max) == Cache(c.list[..max], c.index - {c.list[max].offset}, c.nextId)
  {}

  lemma BothInsert(disk: Disk, o: nat, max: nat)
    requires disk(o).Some? && max >= 2
    ensures var s := Run(BothMiss(o), disk, max);
            Twice(s.cache, o, 0) && Rests(s, 3) && forall x :: x in s.cache.index ==> x == o
  {
    var table := disk(o).value;
    var once := Grown(EMPTY, o, table);
    Room(once, max);
    Room(Grown(once, o, table), max);
    assert once.list[0].offset == o;
    hide Evicted;
    var m: seq<Move> := [];
    RunSnoc(m, Start(1, o), disk, max);
    RunSnoc(m + [Start(1, o)], Start(2, o), disk, max);
    RunSnoc(m + [Start(1, o)] + [Start(2, o)], Load(1), disk, max);
    RunSnoc(m + [Start(1, o)] + [Start(2, o)] + [Load(1)], Load(2), disk, max);
    RunSnoc(m + [Start(1, o)] + [Start(2, o)] + [Load(1)] + [Load(2)], Insert(1), disk, max);
    RunSnoc(m + [Start(1, o)] + [Start(2, o)] + [Load(1)] + [Load(2)] + [Insert(1)], Insert(2), disk, max);
    assert m + [Start(1, o)] + [Start(2, o)] + [Load(1)] + [Load(2)] + [Insert(1)] + [Insert(2)] == BothMiss(o);
  }

  lemma RunSnoc(moves: seq<Move>, m: Move, disk: Disk, max: nat)
    ensures Run(moves + [m], disk, max) == Next(Run(moves, disk, max), m, disk, max)
  {
    hide Next;
    assert (moves + [m])[..|moves|] == moves;
  }

  // ---- one caller at a time: least recently used ----

  /** A call with no other call in between. */
  function Called(c: Cache, offset: nat, table: Table, max: nat): Cache {
    if offset in c.index then Looked(c, offset) else Inserted(c, offset, table, max)
  }

  function Offsets(list: seq<Elem>): (r: seq<nat>)
    ensures |r| == |list|
  {
    seq(|list|, i requires 0 <= i < |list| => list[i].offset)
  }

  /** Distinct offsets of a history of calls, the last used first. */
  function Recent(history: seq<nat>): seq<nat> {
    if history == [] then []
    else
      var o := history[|history| - 1];
      [o] + Drop(Recent(history[..|history| - 1]), o)
  }

  function Drop(s: seq<nat>, o: nat): seq<nat> {
    if s == [] then [] else if s[0] == o then Drop(s[1..], o) else [s[0]] + Drop(s[1..], o)
  }

  function Take(s: seq<nat>, n: nat): seq<nat> {
    if |s| <= n then s else s[..n]
  }

  ghost function Calls(history: seq<nat>, disk: Disk, max: nat): Cache
    requires forall o :: o in history ==> disk(o).Some?
  {
    if history == [] then EMPTY
    else
      var o := history[|history| - 1];
      Called(Calls(history[..|history| - 1], disk, max), o, disk(o).value, max)
  }

  ghost predicate Distinct(s: seq<nat>) {
    forall i, j :: 0 <= i < j < |s| ==> s[i] != s[j]
  }

  lemma DistinctTail(s: seq<nat>)
    requires s != [] && Distinct(s)
    ensures Distinct(s[1..]) && s[0] !in s[1..]
  {}

  lemma DistinctCons(o: nat, s: seq<nat>)
    requires Distinct(s) && o !in s
    ensures Distinct([o] + s)
  {}

  lemma {:induction false} DropMembers(s: seq<nat>, o: nat)
    ensures forall x :: x in Drop(s, o) <==> x in s && x != o
    ensures o !in s ==> Drop(s, o) == s
    ensures |Drop(s, o)| <= |s|
    ensures Distinct(s) ==> Distinct(Drop(s, o)) && (o in s ==> |Drop(s, o)| == |s| - 1)
  {
    if s != [] {
      hide Distinct;
      DropMembers(s[1..], o);
      assert s == [s[0]] + s[1..];
      if Distinct(s) {
        DistinctTail(s);
        if s[0] != o {
          DistinctCons(s[0], Drop(s[1..], o));
        }
      }
    }
  }

  lemma {:induction false} RecentDistinct(history: seq<nat>)
    ensures Distinct(Recent(history))
  {
    if history != [] {
      RecentDistinct(history[..|history| - 1]);
      DropMembers(Recent(history[..|history| - 1]), history[|history| - 1]);
    }
  }

  lemma {:induction false} WithoutOffsets(list: seq<Elem>, e: Elem)
    requires e in list && Distinct(Offsets(list))
    ensures Offsets(Without(list, e)) == Drop(Offsets(list), e.offset)
  {
    var os := Offsets(list);
    assert os[1..] == Offsets(list[1..]);
    if list[0] == e {
      DistinctTail(os);
      DropMembers(os[1..], e.offset);
    } else {
      WithoutOffsets(list[1..], e);
      var k :| 0 <= k < |list| && list[k] == e;
      assert os[k] == e.offset && os[0] != os[k];
      assert Offsets([list[0]] + Without(list[1..], e)) == [os[0]] + Offsets(Without(list[1..], e));
    }
  }

  /** Taking the first n and moving one of them to the front commute. */
  lemma {:induction false} DropTake(s: seq<nat>, o: nat, n: nat)
    requires Distinct(s) && n > 0
    ensures o in Take(s, n) ==> Drop(Take(s, n), o) == Take(Drop(s, o), n - 1)
    ensures o !in Take(s, n) ==> Take(Drop(s, o), n - 1) == Take(s, n - 1)
  {
    if s != [] {
      var t := s[1..];
      assert s == [s[0]] + t;
      DropMembers(t, o);
      if n == 1 {
        assert Take(s, 1) == [s[0]];
        assert Drop([s[0]][1..], o) == [];
      } else {
        DropTake(t, o, n - 1);
        assert Take(s, n) == [s[0]] + Take(t, n - 1);
        assert Take(s, n)[1..] == Take(t, n - 1);
        if s[0] == o {
          assert o !in t && o !in Take(t, n - 1);
          DropMembers(Take(t, n - 1), o);
        }
      }
    }
  }

  /** With one caller at a time the cache holds the most recently used tables, as many as fit, the last
      used first, and finds each of them. */
  lemma {:induction false} LeastRecentlyUsed(history: seq<nat>, disk: Disk, max: nat)
    requires max > 0 && forall o :: o in history ==> disk(o).Some?
    ensures var c := Calls(history, disk, max);
            Sound(c, disk) && Faithful(c) && Offsets(c.list) == Take(Recent(history), max)
  {
    if history != [] {
      var n := |history| - 1;
      var o, rest := history[n], history[..n];
      LeastRecentlyUsed(rest, disk, max);
      OneCall(Calls(rest, disk, max), rest, o, disk, max);
    }
  }

  lemma OneCall(c: Cache, rest: seq<nat>, o: nat, disk: Disk, max: nat)
    requires max > 0 && disk(o).Some? && Sound(c, disk) && Faithful(c) && Offsets(c.list) == Take(Recent(rest), max)
    ensures var d := Called(c, o, disk(o).value, max);
            Sound(d, disk) && Faithful(d) && Offsets(d.list) == Take([o] + Drop(Recent(rest), o), max)
  {
    var r, os := Recent(rest), Offsets(c.list);
    RecentDistinct(rest);
    TakeDistinct(r, max);
    DropTake(r, o, max);
    TakeCons(o, Drop(r, o), max);
    hide Sound, Faithful, Looked, Inserted, Distinct, Take, Drop, Recent, Offsets;
    if o in c.index {
      HitCall(c, o, disk);
    } else {
      MissCall(c, o, disk, max);
      NotIndexed(c, o);
      TakeCons(o, os, max);
      TakeTwice(r, max - 1, max);
    }
  }

  lemma TakeDistinct(s: seq<nat>, n: nat)
    requires Distinct(s)
    ensures Distinct(Take(s, n))
  {}

  lemma TakeCons(o: nat, s: seq<nat>, n: nat)
    requires n > 0
    ensures Take([o] + s, n) == [o] + Take(s, n - 1)
  {}

  lemma TakeTwice(s: seq<nat>, m: nat, n: nat)
    requires m <= n
    ensures Take(Take(s, n), m) == Take(s, m)
  {}

  lemma NotIndexed(c: Cache, o: nat)
    requires Faithful(c) && o !in c.index
    ensures o !in Offsets(c.list)
  {}

  lemma HitCall(c: Cache, o: nat, disk: Disk)
    requires Sound(c, disk) && Faithful(c) && Distinct(Offsets(c.list)) && o in c.index
    ensures Sound(Looked(c, o), disk) && Faithful(Looked(c, o))
    ensures Offsets(Looked(c, o).list) == [o] + Drop(Offsets(c.list), o)
    ensures o in Offsets(c.list)
  {
    LookedSound(c, disk, o);
    LookedFaithful(c, disk, o);
    Indexed(c, disk, o);
    LookedOffsets(c, o);
    OffsetIn(c.list, c.index[o]);
    hide *;
  }

  lemma Indexed(c: Cache, disk: Disk, o: nat)
    requires Sound(c, disk) && o in c.index
    ensures c.index[o] in c.list && c.index[o].offset == o
  {}

  lemma LookedOffsets(c: Cache, o: nat)
    requires Distinct(Offsets(c.list)) && o in c.index && c.index[o] in c.list && c.index[o].offset == o
    ensures Offsets(Looked(c, o).list) == [o] + Drop(Offsets(c.list), o)
  {
    var e := c.index[o];
    WithoutOffsets(c.list, e);
    hide Distinct, Without, Drop;
    assert Offsets([e] + Without(c.list, e)) == [e.offset] + Offsets(Without(c.list, e));
  }

  lemma LookedFaithful(c: Cache, disk: Disk, o: nat)
    requires Sound(c, disk) && Faithful(c)
    ensures Faithful(Looked(c, o))
  {
    if o in c.index {
      WithoutMembers(c.list, c.index[o]);
    }
  }

  lemma OffsetIn(list: seq<Elem>, e: Elem)
    requires e in list
    ensures e.offset in Offsets(list)
  {
    var k :| 0 <= k < |list| && list[k] == e;
    assert Offsets(list)[k] == e.offset;
  }

  lemma MissCall(c: Cache, o: nat, disk: Disk, max: nat)
    requires Sound(c, disk) && Faithful(c) && o !in c.index && disk(o).Some? && max > 0
    ensures var d := Inserted(c, o, disk(o).value, max);
            Sound(d, disk) && Faithful(d) && Offsets(d.list) == Take([o] + Offsets(c.list), max)
  {
    var table := disk(o).value;
    InsertedSound(c, disk, o, table, max);
    InsertKeepsFaithful(c, disk, o, table, max);
    GrownSound(c, disk, o, table);
    EvictedSound(Grown(c, o, table), disk, max);
    InsertedIsGrown(c, o, table, max);
    OffsetsTake(Grown(c, o, table).list, max);
    OffsetsGrown(c, o, table);
    hide Sound, Faithful, Evicted, Inserted, Grown, Offsets;
  }

  lemma InsertedIsGrown(c: Cache, o: nat, table: Table, max: nat)
    ensures Inserted(c, o, table, max) == Evicted(Grown(c, o, table), max)
  {
    hide Evicted;
  }

  lemma OffsetsTake(list: seq<Elem>, max: nat)
    ensures Offsets(if |list| <= max then list else list[..max]) == Take(Offsets(list), max)
  {
    if |list| > max {
      assert Offsets(list[..max]) == Offsets(list)[..max];
    }
  }

  lemma OffsetsGrown(c: Cache, o: nat, table: Table)
    ensures Offsets(Grown(c, o, table).list) == [o] + Offsets(c.list)
  {}

  // ---- the cache in place ----

  class TableCache {
    var list: seq<Elem>
    var index: map<nat, Elem>
    var nextId: nat
    const max: nat

    constructor (max: nat)
      ensures State() == EMPTY && this.max == max
    {
      list, index, nextId, this.max := [], map[], 0, max;
    }

    ghost function State(): Cache
      reads this
    {
      Cache(list, index, nextId)
    }

    /** The first locked section of a lookup. */
    method Find(offset: nat) returns (found: Option<Table>)
      modifies this`list
      ensures State() == Looked(old(State()), offset)
      ensures found == if offset in index then Some(index[offset].table) else None
    {
      if offset !in index {
        return None;
      }
      var e := index[offset];
      list := [e] + Without(list, e);
      found := Some(e.table);
    }

    /** The second locked section of a lookup that missed. */
    method Store(offset: nat, table: Table)
      modifies this
      ensures State() == Inserted(old(State()), offset, table, max)
    {
      var e := Elem(nextId, offset, table);
      nextId := nextId + 1;
      list := [e] + list;
      index := index[offset := e];
      while |list| > max
        invariant Evicted(State(), max) == Inserted(old(State()), offset, table, max)
        decreases |list|
      {
        var last := list[|list| - 1];
        list := list[..|list| - 1];
        index := index - {last.offset};
      }
    }

    /** A whole lookup with no other caller in between. */
    method Lookup(offset: nat, disk: Disk) returns (table: Option<Table>)
      requires Sound(State(), disk)
      modifies this
      ensures Sound(State(), disk) && table == disk(offset)
      ensures table.Some? ==> State() == Called(old(State()), offset, table.value, max)
      ensures table.None? ==> State() == old(State())
    {
      ghost var before := State();
      LookedSound(before, disk, offset);
      hide Looked, Inserted;
      table := Find(offset);
      if table.None? {
        MissLeaves(before, offset);
        table := disk(offset);
        if table.Some? {
          InsertedSound(before, disk, offset, table.value, max);
          Store(offset, table.value);
        }
      } else {
        HitGives(before, disk, offset);
      }
    }
  }

  lemma MissLeaves(c: Cache, offset: nat)
    requires offset !in c.index
    ensures Looked(c, offset) == c
  {}

  lemma HitGives(c: Cache, disk: Disk, offset: nat)
    requires Sound(c, disk) && offset in c.index
    ensures disk(offset) == Some(c.index[offset].table)
    ensures Looked(c, offset).index == c.index
  {}
}
