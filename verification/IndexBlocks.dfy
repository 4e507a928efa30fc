/** Index blocks of an NTFS directory, edited in place. */
module IndexBlocks {
  import opened Bits
  import opened Outcomes
  import opened IndexEntries

  const BLOCK_HEADER: nat := 0x18

  /** s with t over the bytes from at on. */
  function Over(s: seq<byte>, at: nat, t: seq<byte>): (r: seq<byte>)
    requires at + |t| <= |s|
    ensures |r| == |s|
  {
    s[..at] + t + s[at + |t|..]
  }

  method Place(b: array<byte>, at: nat, s: seq<byte>)
    requires at + |s| <= b.Length
    modifies b
    ensures b[..] == Over(old(b[..]), at, s)
  {
    for i := 0 to |s|
      invariant b[..at] == old(b[..at]) && b[at..at + i] == s[..i] && b[at + i..] == old(b[at + i..])
    {
      b[at + i] := s[i];
    }
    assert b[..] == b[..at] + b[at..at + |s|] + b[at + |s|..];
  }

  /** The bytes with an entry and then the end mark over what was there. */
  function MarkMoved(hdr: seq<byte>, k: nat, e: seq<byte>): seq<byte>
    requires k + ENTRY + |e| <= |hdr|
  {
    hdr[..k] + e + (hdr[k..k + ENTRY] + hdr[k + |e| + ENTRY..])
  }

  function Overwritten(hdr: seq<byte>, k: nat, e: seq<byte>): seq<byte>
    requires |hdr| >= 12 && k + ENTRY + |e| <= |hdr|
  {
    Resized(MarkMoved(hdr, k, e), End(hdr) + |e|, MarkMoved(hdr, k, e)[8..12])
  }

  lemma MarkMovedBy(s: seq<byte>, k: nat, e: seq<byte>)
    requires k + ENTRY + |e| <= |s|
    ensures Over(Over(s, k + |e|, s[k..k + ENTRY]), k, e) == MarkMoved(s, k, e)
  {}

  lemma MovedBehind(s: seq<byte>, h: nat, k: nat, e: seq<byte>)
    requires h <= |s| && h + k + ENTRY + |e| <= |s|
    ensures MarkMoved(s, h + k, e)[..h] == s[..h] && MarkMoved(s, h + k, e)[h..] == MarkMoved(s[h..], k, e)
  {
    assert s[h..][k..k + ENTRY] == s[h + k..h + k + ENTRY];
  }

  lemma ResizedBehind(s: seq<byte>, h: nat, v: nat)
    requires h + 12 <= |s|
    ensures var r := Over(s, h + 4, Bytes32(v));
            r[..h] == s[..h] && r[h..] == Resized(s[h..], v, s[h..][8..12])
  {
    hide Bytes32;
  }

  /** Where the end mark is, if there is room for the entry, by the block's own account and by its length. */
  function Room(hdr: seq<byte>, e: seq<byte>): (k: Outcome<nat>)
    requires |hdr| >= 12
    ensures k.Returned? ==> First(hdr) <= k.value && k.value + ENTRY + |e| <= |hdr| && End(hdr) <= |hdr|
  {
    if End(hdr) + |e| > U32(hdr, 8) || End(hdr) > |hdr| then Refused
    else if First(hdr) > End(hdr) then Panics
    else
      var k := FindMark(hdr[First(hdr)..End(hdr)], 0);
      if k.None? || First(hdr) + k.value + ENTRY + |e| > |hdr| then Refused else Returned(First(hdr) + k.value)
  }

  method FindRoom(hdr: seq<byte>, e: seq<byte>) returns (k: Outcome<nat>)
    requires |hdr| >= 12
    ensures k == Room(hdr, e)
  {
    var entriesOff, indexLen, allocSize := First(hdr), End(hdr), U32(hdr, 8);
    hide First, End, U32, FindMark;
    if allocSize - indexLen < |e| || indexLen > |hdr| {
      return Refused;
    }
    if entriesOff > indexLen {
      return Panics;
    }
    var found := FindSentinel(hdr[entriesOff..indexLen]);
    if found.None? || entriesOff + found.value + ENTRY + |e| > |hdr| {
      return Refused;
    }
    k := Returned(entriesOff + found.value);
  }

  /** Where the header's account lets it in, the entry is appended in place exactly if the grown index still ends
      inside the block, whatever room the header claims. */
  lemma OverwritingAppends(hdr: seq<byte>, e: seq<byte>)
    requires IsIndex(hdr) && IsEntry(e) && Room(hdr, e).Returned?
    ensures var after := Overwritten(hdr, Room(hdr, e).value, e);
            (IsIndex(after) && Entries(after) == Entries(hdr) + [e]) <==> End(hdr) + |e| <= |hdr|
  {
    var k, f, n := MarkAt(hdr), First(hdr), End(hdr);
    RoomIsMark(hdr, e);
    Layout(hdr);
    if n + |e| > |hdr| {
      EndGrown(hdr, k, e);
      return;
    }
    assert 12 <= f <= k && k + ENTRY <= n <= |hdr| && IsLast(hdr[k..n]);
    hide First, End, U32, Room, MarkAt, Overwritten, IsIndex, Entries, IsEntry, Flat, IsLast;
    OverwrittenIndex(hdr, e, f, k, n, Entries(hdr));
  }

  lemma EndGrown(hdr: seq<byte>, k: nat, e: seq<byte>)
    requires |hdr| >= 12 && k + ENTRY + |e| <= |hdr| && End(hdr) + |e| < 0x1_0000_0000
    ensures End(Overwritten(hdr, k, e)) == End(hdr) + |e| && |Overwritten(hdr, k, e)| == |hdr|
  {
    var moved := MarkMoved(hdr, k, e);
    ResizedFields(moved, End(hdr) + |e|, moved[8..12]);
    hide End;
  }

  lemma RoomIsMark(hdr: seq<byte>, e: seq<byte>)
    requires IsIndex(hdr) && Room(hdr, e).Returned?
    ensures Room(hdr, e).value == MarkAt(hdr) && End(hdr) + |e| <= U32(hdr, 8) < 0x1_0000_0000
  {
    FindsMarkAt(hdr);
    RoomBound(hdr);
    hide IsList, Rest, FindMark, First, End, U32;
  }

  /** The bytes of the index are those of a new buffer with the entry exactly when what follows the first 16
      bytes of the end mark is there already in its new place; as it is where the end mark has no more. */
  lemma SameBytesWhen(hdr: seq<byte>, e: seq<byte>)
    requires IsIndex(hdr) && Room(hdr, e).Returned? && End(hdr) + |e| <= |hdr|
    ensures var k, n := MarkAt(hdr), End(hdr);
            && 12 <= k && k + ENTRY <= n
            && (Overwritten(hdr, k, e)[12..n + |e|] == Inserted(hdr, e)[12..n + |e|]
                <==> hdr[k + |e| + ENTRY..n + |e|] == hdr[k + ENTRY..n])
  {
    var k, n := MarkAt(hdr), End(hdr);
    RoomIsMark(hdr, e);
    Layout(hdr);
    hide First, End, U32, Room, MarkAt, IsIndex, Entries, Flat, IsList, Rest;
    var moved, grown := MarkMoved(hdr, k, e), hdr[..k] + e + hdr[k..];
    TailAt(hdr, k, e, n);
    ResizedTail(moved, n + |e|, moved[8..12], n + |e|);
    ResizedTail(grown, n + |e|, Bytes32(n + |e|), n + |e|);
  }

  lemma ResizedTail(b: seq<byte>, v: nat, room: seq<byte>, m: nat)
    requires |b| >= 12 && |room| == 4 && 12 <= m <= |b|
    ensures Resized(b, v, room)[12..m] == b[12..m]
  {
    hide Bytes32;
  }

  lemma TailAt(hdr: seq<byte>, k: nat, e: seq<byte>, n: nat)
    requires 12 <= k && k + ENTRY <= n && n + |e| <= |hdr|
    ensures MarkMoved(hdr, k, e)[12..n + |e|] == (hdr[..k] + e + hdr[k..])[12..n + |e|]
            <==> hdr[k + |e| + ENTRY..n + |e|] == hdr[k + ENTRY..n]
  {
    var front := hdr[12..k] + e + hdr[k..k + ENTRY];
    var x, y := hdr[k + |e| + ENTRY..n + |e|], hdr[k + ENTRY..n];
    assert MarkMoved(hdr, k, e)[12..n + |e|] == front + x;
    assert (hdr[..k] + e + hdr[k..])[12..n + |e|] == front + y;
    assert (front + x)[|front|..] == x && (front + y)[|front|..] == y;
  }

  // ---- an end mark with a child number ----

  const MARK: seq<byte> := [0, 0, 0, 0, 0, 0, 0, 0, 24, 0, 0, 0, 3, 0, 0, 0, 7, 0, 0, 0, 0, 0, 0, 0]
  const FIELDS: seq<byte> := [16, 0, 0, 0, 40, 0, 0, 0, 104, 0, 0, 0, 1, 0, 0, 0]
  const NEW_ENTRY: seq<byte> := [0, 0, 0, 0, 0, 0, 0, 0, 16, 0, 0, 0, 0, 0, 0, 0]

  /** An index of no entries whose end mark is 24 bytes long, for it names a child, in a block with room. */
  function WithChild(): (hdr: seq<byte>)
    ensures |hdr| == 104
  {
    FIELDS + MARK + Zeros(64)
  }

  /** Such an index takes an entry in place, and loses the child's number, which a new buffer keeps. */
  lemma ChildLost()
    ensures var hdr := WithChild();
            && IsIndex(hdr) && IsEntry(NEW_ENTRY) && Room(hdr, NEW_ENTRY) == Returned(16) && MarkAt(hdr) == 16
            && U32(hdr, 8) <= |hdr|
            && Inserted(hdr, NEW_ENTRY)[48] == 7 && Overwritten(hdr, 16, NEW_ENTRY)[48] == 0
  {
    var hdr := WithChild();
    ChildFields();
    ChildMark();
    hide First, End, FindMark, U32, Rest, IsList, Bytes32, Zeros, Stops, IsLast;
    FindsMarkAt(hdr);
    ChildBytes(hdr);
  }

  lemma ChildFields()
    ensures var hdr := WithChild();
            && First(hdr) == 16 && End(hdr) == 40 && U32(hdr, 8) == 104 && hdr[16..40] == MARK && IsEntry(NEW_ENTRY)
            && hdr[32] == 7 && hdr[48] == 0
  {
    assert U32(NEW_ENTRY, 12) == 0;
  }

  lemma ChildMark()
    ensures IsLast(MARK) && Rest(MARK) == MARK && IsList(MARK)
  {
    assert U32(MARK, 12) == 3;
  }

  lemma ChildBytes(hdr: seq<byte>)
    requires |hdr| == 104 && hdr[32] == 7 && hdr[48] == 0 && End(hdr) == 40
    ensures Spliced(hdr, 16, NEW_ENTRY)[48] == 7 && Overwritten(hdr, 16, NEW_ENTRY)[48] == 0
  {
    hide Bytes32, First, End;
    var grown, moved := hdr[..16] + NEW_ENTRY + hdr[16..], MarkMoved(hdr, 16, NEW_ENTRY);
    assert grown[48] == 7 && moved[48] == 0;
    ResizedTail(grown, 56, Bytes32(56), 49);
    ResizedTail(moved, 56, moved[8..12], 49);
    LastOf(Resized(grown, 56, Bytes32(56)), grown);
    LastOf(Resized(moved, 56, moved[8..12]), moved);
  }

  lemma LastOf(a: seq<byte>, b: seq<byte>)
    requires |a| >= 49 && |b| >= 49 && a[12..49] == b[12..49]
    ensures a[48] == b[48]
  {
    assert a[12..49][36] == a[48] && b[12..49][36] == b[48];
  }

  lemma OverwrittenIndex(hdr: seq<byte>, e: seq<byte>, f: nat, k: nat, n: nat, es: seq<seq<byte>>)
    requires |hdr| >= 12 && f == First(hdr) && n == End(hdr) && IsEntry(e)
    requires 12 <= f <= k && k + ENTRY <= n && n + |e| <= |hdr| && n + |e| < 0x1_0000_0000 && IsLast(hdr[k..n])
    requires hdr[f..k] == Flat(es) && forall g :: g in es ==> IsEntry(g)
    ensures IsIndex(Overwritten(hdr, k, e)) && Entries(Overwritten(hdr, k, e)) == es + [e]
  {
    hide First, End, FindMark, U32, IsList, Parsed, Rest, IsLast, IsEntry, Entries, IsIndex, MarkAt, Flat;
    var u := hdr[k..k + ENTRY] + hdr[k + |e| + ENTRY..];
    var t := u[..n - k];
    assert hdr[k..n][..ENTRY] == hdr[k..k + ENTRY] == t[..ENTRY];
    MarkStays(hdr[k..n], t);
    SplicedIndex(hdr, e, f, k, n, es, t, u, MarkMoved(hdr, k, e)[8..12]);
  }

  lemma RoomBound(hdr: seq<byte>)
    requires |hdr| >= 12
    ensures U32(hdr, 8) < 0x1_0000_0000
  {}

  lemma MarkStays(a: seq<byte>, b: seq<byte>)
    requires |a| >= ENTRY && |b| >= ENTRY && a[..ENTRY] == b[..ENTRY]
    ensures IsLast(a) == IsLast(b)
  {
    assert forall i :: 0 <= i < ENTRY ==> a[i] == a[..ENTRY][i] == b[..ENTRY][i] == b[i];
  }

  const INDX: seq<byte> := [73, 78, 68, 88]

  /** What comes of adding an entry to a block. */
  function Addition(block: seq<byte>, e: seq<byte>): Outcome<nat> {
    if |block| < 0x28 || block[..4] != INDX then Refused else Room(block[BLOCK_HEADER..], e)
  }

  /** Puts an entry before the end mark of an index block, if it fits; otherwise the block is as it was. */
  method AddEntryToIndxBlock(block: array<byte>, e: seq<byte>) returns (r: Outcome<nat>)
    modifies block
    ensures r == Addition(old(block[..]), e)
    ensures !r.Returned? ==> block[..] == old(block[..])
    ensures r.Returned? ==>
      && block.Length >= 0x28 && block[..BLOCK_HEADER] == old(block[..BLOCK_HEADER])
      && block[BLOCK_HEADER..] == Overwritten(old(block[BLOCK_HEADER..]), r.value, e)
  {
    hide First, End, U32, Room, Overwritten;
    if block.Length < 0x28 || block[..4] != INDX {
      return Refused;
    }
    assert block[..][BLOCK_HEADER..] == block[BLOCK_HEADER..];
    var hdr := block[BLOCK_HEADER..];
    r := FindRoom(hdr, e);
    if r.Returned? {
      OverwrittenIs(hdr, r.value, e);
      WriteEntry(block, r.value, e, End(hdr) + |e|);
    }
  }

  lemma OverwrittenIs(hdr: seq<byte>, k: nat, e: seq<byte>)
    requires |hdr| >= 12 && k + ENTRY + |e| <= |hdr|
    ensures Overwritten(hdr, k, e) == Grown(hdr, k, e, End(hdr) + |e|)
  {}

  function Grown(hdr: seq<byte>, k: nat, e: seq<byte>, v: nat): seq<byte>
    requires |hdr| >= 12 && k + ENTRY + |e| <= |hdr|
  {
    Resized(MarkMoved(hdr, k, e), v, MarkMoved(hdr, k, e)[8..12])
  }

  /** Moves the end mark out of the way, puts the entry in, and sets the index's length. */
  method WriteEntry(block: array<byte>, k: nat, e: seq<byte>, v: nat)
    requires block.Length >= 0x28 && BLOCK_HEADER + k + ENTRY + |e| <= block.Length
    modifies block
    ensures block[..BLOCK_HEADER] == old(block[..BLOCK_HEADER])
    ensures block[BLOCK_HEADER..] == Grown(old(block[BLOCK_HEADER..]), k, e, v)
  {
    var at := BLOCK_HEADER + k;
    ghost var b := block[..];
    hide Over, MarkMoved, Resized, Bytes32;
    var mark := block[at..at + ENTRY];
    Place(block, at + |e|, mark);
    Place(block, at, e);
    MarkMovedBy(b, at, e);
    MovedBehind(b, BLOCK_HEADER, k, e);
    ResizedBehind(block[..], BLOCK_HEADER, v);
    Place(block, BLOCK_HEADER + 4, Bytes32(v));
  }
}
