/** The entries of an NTFS directory index: inserting before the end mark, in a new buffer or in place, and
    deleting by name. */
module IndexEntries {
  import opened Bits
  import opened Outcomes

  // ---- little-endian fields ----

  function Bytes32(v: nat): (b: seq<byte>)
    ensures |b| == 4
  {
    [v % 256, v / 256 % 256, v / 0x1_0000 % 256, v / 0x100_0000 % 256]
  }

  lemma Bytes32Value(v: nat)
    requires v < 0x1_0000_0000
    ensures U32(Bytes32(v), 0) == v
  {}

  // ---- entries, one after the other ----

  const ENTRY: nat := 16

  /** The bytes start with the end mark. */
  predicate IsLast(d: seq<byte>)
    requires |d| >= ENTRY
  {
    U32(d, 12) / 2 % 2 == 1
  }

  /** The bytes do not start with a whole entry. */
  predicate Stops(d: seq<byte>) {
    |d| < ENTRY || IsLast(d) || U16(d, 8) < ENTRY || U16(d, 8) > |d|
  }

  /** The entries the bytes start with, and the rest. */
  function Parsed(d: seq<byte>): seq<seq<byte>>
    decreases |d|
  {
    if Stops(d) then [] else [d[..U16(d, 8)]] + Parsed(d[U16(d, 8)..])
  }

  function Rest(d: seq<byte>): (r: seq<byte>)
    ensures |r| <= |d| && Stops(r)
    decreases |d|
  {
    if Stops(d) then d else Rest(d[U16(d, 8)..])
  }

  /** Entries up to an end mark. */
  predicate IsList(d: seq<byte>) {
    |Rest(d)| >= ENTRY && IsLast(Rest(d))
  }

  /** One entry by itself. */
  predicate IsEntry(e: seq<byte>) {
    |e| >= ENTRY && U16(e, 8) == |e| && !IsLast(e)
  }

  function Flat(es: seq<seq<byte>>): seq<byte> {
    if es == [] then [] else es[0] + Flat(es[1..])
  }

  lemma ParsedCons(e: seq<byte>, u: seq<byte>)
    requires IsEntry(e)
    ensures !Stops(e + u) && Parsed(e + u) == [e] + Parsed(u) && Rest(e + u) == Rest(u)
  {
    var d := e + u;
    assert U16(d, 8) == U16(e, 8) && U32(d, 12) == U32(e, 12);
    assert d[..|e|] == e && d[|e|..] == u;
    hide U16, U32, IsLast;
  }

  /** A whole entry at the front. */
  lemma FirstEntry(d: seq<byte>)
    requires !Stops(d)
    ensures var n := U16(d, 8);
            && IsEntry(d[..n]) && d == d[..n] + d[n..]
            && Parsed(d) == [d[..n]] + Parsed(d[n..]) && Rest(d) == Rest(d[n..])
  {
    var e := d[..U16(d, 8)];
    assert U16(e, 8) == U16(d, 8) && U32(e, 12) == U32(d, 12);
  }

  /** Entries put one after the other parse back to themselves. */
  lemma {:induction false} ParsedFlat(es: seq<seq<byte>>, t: seq<byte>)
    requires forall e :: e in es ==> IsEntry(e)
    requires Stops(t)
    ensures Parsed(Flat(es) + t) == es && Rest(Flat(es) + t) == t
  {
    if es == [] {
      assert Flat(es) + t == t;
      assert Parsed(t) == [];
    } else {
      var e, u := es[0], Flat(es[1..]) + t;
      assert e in es && Flat(es) + t == e + u;
      hide Flat, Parsed, Rest, Stops, IsEntry;
      ParsedCons(e, u);
      ParsedFlat(es[1..], t);
    }
  }

  /** And bytes are the entries they parse to, and the rest. */
  lemma {:induction false} FlatParsed(d: seq<byte>)
    ensures Flat(Parsed(d)) + Rest(d) == d && forall e :: e in Parsed(d) ==> IsEntry(e)
    decreases |d|
  {
    if Stops(d) {
      assert Parsed(d) == [] && Flat([]) == [];
      assert [] + d == d;
    } else {
      FirstEntry(d);
      var e, u := d[..U16(d, 8)], d[U16(d, 8)..];
      hide Parsed, Rest, Stops, IsEntry;
      FlatParsed(u);
      assert ([e] + Parsed(u))[1..] == Parsed(u);
      assert Flat([e] + Parsed(u)) == e + Flat(Parsed(u));
      hide Flat;
      assert e + Flat(Parsed(u)) + Rest(u) == e + (Flat(Parsed(u)) + Rest(u));
    }
  }

  lemma {:induction false} FlatJoin(es: seq<seq<byte>>, fs: seq<seq<byte>>)
    ensures Flat(es + fs) == Flat(es) + Flat(fs)
  {
    if es == [] {
      assert es + fs == fs;
    } else {
      FlatJoin(es[1..], fs);
      assert (es + fs)[1..] == es[1..] + fs;
    }
  }

  // ---- an index: a header, its entries, and what lies after them ----

  /** Where the header says its entries start and end. */
  function First(hdr: seq<byte>): nat
    requires |hdr| >= 8
  {
    U32(hdr, 0)
  }

  function End(hdr: seq<byte>): nat
    requires |hdr| >= 8
  {
    U32(hdr, 4)
  }

  predicate IsIndex(hdr: seq<byte>) {
    |hdr| >= 12 && 12 <= First(hdr) <= End(hdr) <= |hdr| && IsList(hdr[First(hdr)..End(hdr)])
  }

  function Entries(hdr: seq<byte>): seq<seq<byte>>
    requires IsIndex(hdr)
  {
    Parsed(hdr[First(hdr)..End(hdr)])
  }

  /** The header's fields, with the index now v bytes long and these bytes for its room. */
  function Resized(hdr: seq<byte>, v: nat, room: seq<byte>): (r: seq<byte>)
    requires |hdr| >= 12 && |room| == 4
    ensures |r| == |hdr|
  {
    hdr[..4] + Bytes32(v) + room + hdr[12..]
  }

  lemma ResizedFields(hdr: seq<byte>, v: nat, room: seq<byte>)
    requires |hdr| >= 12 && v < 0x1_0000_0000 && |room| == 4
    ensures First(Resized(hdr, v, room)) == First(hdr) && End(Resized(hdr, v, room)) == v
    ensures Resized(hdr, v, room)[12..] == hdr[12..]
  {
    Bytes32Value(v);
    var r := Resized(hdr, v, room);
    assert r[4] == Bytes32(v)[0] && r[5] == Bytes32(v)[1] && r[6] == Bytes32(v)[2] && r[7] == Bytes32(v)[3];
    hide Bytes32;
  }

  /** Where the end mark of an index is. */
  function MarkAt(hdr: seq<byte>): (k: nat)
    requires IsIndex(hdr)
    ensures k <= End(hdr)
  {
    End(hdr) - |Rest(hdr[First(hdr)..End(hdr)])|
  }

  /** A buffer with an entry put in at k, and the header saying so. */
  function Spliced(hdr: seq<byte>, k: nat, e: seq<byte>): seq<byte>
    requires |hdr| >= 12 && k <= |hdr|
  {
    Resized(hdr[..k] + e + hdr[k..], End(hdr) + |e|, Bytes32(End(hdr) + |e|))
  }

  function Inserted(hdr: seq<byte>, e: seq<byte>): seq<byte>
    requires IsIndex(hdr)
  {
    Spliced(hdr, MarkAt(hdr), e)
  }

  /** An index taken apart at its end mark. */
  lemma Layout(hdr: seq<byte>)
    requires IsIndex(hdr)
    ensures var es, k := Entries(hdr), MarkAt(hdr);
            && First(hdr) <= k && k + ENTRY <= End(hdr)
            && hdr[First(hdr)..k] == Flat(es) && hdr[k..End(hdr)] == Rest(hdr[First(hdr)..End(hdr)])
            && forall e :: e in es ==> IsEntry(e)
  {
    var f, n := First(hdr), End(hdr);
    FlatParsed(hdr[f..n]);
    CutAt(hdr, f, n, Flat(Parsed(hdr[f..n])), Rest(hdr[f..n]));
    hide Flat, Parsed, Rest, IsEntry, First, End;
  }

  lemma CutAt(s: seq<byte>, i: nat, j: nat, a: seq<byte>, b: seq<byte>)
    requires i <= j <= |s| && s[i..j] == a + b
    ensures var k := j - |b|; i <= k && s[i..k] == a && s[k..j] == b
  {
    var d := s[i..j];
    assert d[..|a|] == a && d[|a|..] == b;
    assert s[i..i + |a|] == d[..|a|];
    assert s[i + |a|..j] == d[|a|..];
  }

  /** An index whose bytes from First to End are these entries, and then an end mark. */
  lemma IndexOf(hdr: seq<byte>, es: seq<seq<byte>>, t: seq<byte>)
    requires |hdr| >= 12 && 12 <= First(hdr) <= End(hdr) <= |hdr|
    requires (forall e :: e in es ==> IsEntry(e)) && |t| >= ENTRY && IsLast(t)
    requires hdr[First(hdr)..End(hdr)] == Flat(es) + t
    ensures IsIndex(hdr) && Entries(hdr) == es && MarkAt(hdr) == End(hdr) - |t|
  {
    ParsedFlat(es, t);
    hide Flat, Parsed, Rest, IsEntry, First, End, IsLast;
  }

  /** Inserting an entry appends it. */
  lemma InsertAppends(hdr: seq<byte>, e: seq<byte>)
    requires IsIndex(hdr) && IsEntry(e) && End(hdr) + |e| < 0x1_0000_0000
    ensures IsIndex(Inserted(hdr, e)) && Entries(Inserted(hdr, e)) == Entries(hdr) + [e]
    ensures MarkAt(Inserted(hdr, e)) == MarkAt(hdr) + |e|
  {
    var k, f, n, t := MarkAt(hdr), First(hdr), End(hdr), Rest(hdr[First(hdr)..End(hdr)]);
    Layout(hdr);
    assert 12 <= f <= k <= n <= |hdr| && |t| >= ENTRY && IsLast(t);
    SplicedIndex(hdr, e, f, k, n, Entries(hdr), t, hdr[k..], Bytes32(n + |e|));
    hide *;
  }

  /** The same, with what is known of the index spelled out; only the end mark and what is up to n after it
      needs to follow the new entry. */
  lemma SplicedIndex(
    hdr: seq<byte>, e: seq<byte>, f: nat, k: nat, n: nat, es: seq<seq<byte>>, t: seq<byte>, u: seq<byte>,
    room: seq<byte>)
    requires |hdr| >= 12 && |room| == 4 && 12 <= f <= k <= n <= |hdr| && f == First(hdr) && IsEntry(e)
    requires hdr[f..k] == Flat(es) && n == k + |t| && |t| >= ENTRY && IsLast(t) && |t| <= |u| && u[..|t|] == t
    requires (forall g :: g in es ==> IsEntry(g)) && n + |e| < 0x1_0000_0000
    ensures var after := Resized(hdr[..k] + e + u, n + |e|, room);
            IsIndex(after) && Entries(after) == es + [e] && MarkAt(after) == k + |e|
  {
    var grown := hdr[..k] + e + u;
    var after := Resized(grown, n + |e|, room);
    assert grown[..12] == hdr[..12];
    SameFirst(hdr, grown);
    ResizedFields(grown, n + |e|, room);
    hide First, End, Resized, Flat, Parsed, Rest, IsEntry, IsLast, IsIndex, MarkAt, Entries;
    TailPart(after, grown, f, n + |e|);
    SplicedPart(hdr, e, f, k, u, |t|);
    InsertedEntries(es, e);
    FlatJoin(es, [e]);
    OneFlat(e);
    IndexOf(after, es + [e], t);
  }

  lemma InsertedEntries(es: seq<seq<byte>>, e: seq<byte>)
    requires (forall f :: f in es ==> IsEntry(f)) && IsEntry(e)
    ensures forall f :: f in es + [e] ==> IsEntry(f)
  {}

  lemma OneFlat(e: seq<byte>)
    ensures Flat([e]) == e
  {
    assert Flat([e]) == e + Flat([]) == e;
  }

  lemma SameFirst(a: seq<byte>, b: seq<byte>)
    requires |a| >= 12 && |b| >= 12 && a[..12] == b[..12]
    ensures First(a) == First(b)
  {
    assert a[0] == a[..12][0] && a[1] == a[..12][1] && a[2] == a[..12][2] && a[3] == a[..12][3];
    assert b[0] == b[..12][0] && b[1] == b[..12][1] && b[2] == b[..12][2] && b[3] == b[..12][3];
  }

  lemma TailPart(a: seq<byte>, b: seq<byte>, i: nat, j: nat)
    requires |a| == |b| >= 12 && a[12..] == b[12..] && 12 <= i <= j <= |a|
    ensures a[i..j] == b[i..j]
  {
    SliceOfSlice(a, 12, |a|, i - 12, j - i);
    SliceOfSlice(b, 12, |b|, i - 12, j - i);
    assert a[12..|a|] == a[12..] && b[12..|b|] == b[12..];
  }

  lemma SplicedPart(hdr: seq<byte>, e: seq<byte>, f: nat, k: nat, u: seq<byte>, m: nat)
    requires f <= k <= |hdr| && m <= |u|
    ensures (hdr[..k] + e + u)[f..k + |e| + m] == hdr[f..k] + e + u[..m]
  {}

  // ---- looking for the end mark ----

  /** The walk of the code, which an entry of any length but zero does not stop. */
  function FindMark(data: seq<byte>, off: nat): (k: Option<nat>)
    ensures k.Some? ==> off <= k.value && k.value + ENTRY <= |data|
    decreases |data| - off
  {
    if off + ENTRY > |data| then None
    else if IsLast(data[off..]) then Some(off)
    else if U16(data[off..], 8) == 0 then None
    else FindMark(data, off + U16(data[off..], 8))
  }

  lemma {:induction false} FindsMark(data: seq<byte>, off: nat)
    requires off <= |data| && IsList(data[off..])
    ensures FindMark(data, off) == Some(|data| - |Rest(data[off..])|)
    decreases |data| - off
  {
    var d := data[off..];
    if !Stops(d) {
      var n := U16(d, 8);
      assert d[n..] == data[off + n..];
      FindsMark(data, off + n);
    }
  }

  lemma FindsMarkAt(hdr: seq<byte>)
    requires IsIndex(hdr)
    ensures FindMark(hdr[First(hdr)..End(hdr)], 0) == Some(MarkAt(hdr) - First(hdr))
  {
    var d := hdr[First(hdr)..End(hdr)];
    assert d[0..] == d;
    FindsMark(d, 0);
  }

  method FindSentinel(data: seq<byte>) returns (k: Option<nat>)
    ensures k == FindMark(data, 0)
  {
    var off := 0;
    hide IsLast, U16;
    while off + ENTRY <= |data|
      invariant FindMark(data, off) == FindMark(data, 0)
      decreases |data| - off
    {
      if IsLast(data[off..]) {
        return Some(off);
      }
      var entLen := U16(data[off..], 8);
      if entLen <= 0 {
        break;
      }
      off := off + entLen;
    }
    k := None;
  }

  /** Inserting before the end mark, for any header. */
  function InsertedFrom(hdr: seq<byte>, e: seq<byte>): Outcome<seq<byte>> {
    if |hdr| < 8 then Panics
    else if First(hdr) > |hdr| || End(hdr) > |hdr| then Refused
    else if First(hdr) > End(hdr) then Panics
    else
      var k := FindMark(hdr[First(hdr)..End(hdr)], 0);
      if k.None? then Refused else Returned(Spliced(hdr, First(hdr) + k.value, e))
  }

  /** On an index it gives the index with the entry. */
  lemma Inserts(hdr: seq<byte>, e: seq<byte>)
    requires IsIndex(hdr)
    ensures InsertedFrom(hdr, e) == Returned(Inserted(hdr, e))
  {
    FindsMarkAt(hdr);
    hide FindMark, IsList, First, End;
  }

  /** A new buffer with the entry before the end mark. */
  method InsertIndexEntry(hdr: seq<byte>, e: seq<byte>) returns (r: Outcome<seq<byte>>)
    ensures r == InsertedFrom(hdr, e)
  {
    hide U32, FindMark;
    if |hdr| < 8 {
      return Panics;
    }
    var entriesOff, indexLen := First(hdr), End(hdr);
    if entriesOff > |hdr| || indexLen > |hdr| {
      return Refused;
    }
    if entriesOff > indexLen {
      return Panics;
    }
    var found := FindSentinel(hdr[entriesOff..indexLen]);
    if found.None? {
      return Refused;
    }
    var k := entriesOff + found.value;
    var grown := hdr[..k] + e + hdr[k..];
    var n := indexLen + |e|;
    r := Returned(grown[..4] + Bytes32(n) + Bytes32(n) + grown[12..]);
  }

  // ---- deleting by name ----

  /** The entries but the first that has the name. */
  function WithoutFirst(es: seq<seq<byte>>, named: seq<byte> -> bool): seq<seq<byte>> {
    if es == [] then [] else if named(es[0]) then es[1..] else [es[0]] + WithoutFirst(es[1..], named)
  }

  function Behind(p: seq<byte>, rest: Option<seq<byte>>): Option<seq<byte>> {
    if rest.None? then None else Some(p + rest.value)
  }

  /** The bytes without the first entry that has the name, if one has. */
  function CutNamed(d: seq<byte>, named: seq<byte> -> bool): Option<seq<byte>>
    decreases |d|
  {
    if Stops(d) then None
    else
      var e, u := d[..U16(d, 8)], d[U16(d, 8)..];
      if named(e) then Some(u) else Behind(e, CutNamed(u, named))
  }

  lemma {:induction false} CutNamedParsed(d: seq<byte>, named: seq<byte> -> bool)
    ensures var cut := CutNamed(d, named);
            && (cut.None? <==> forall e :: e in Parsed(d) ==> !named(e))
            && (cut.Some? ==> Parsed(cut.value) == WithoutFirst(Parsed(d), named) && Rest(cut.value) == Rest(d)
                              && |cut.value| <= |d|)
    decreases |d|
  {
    if !Stops(d) {
      FirstEntry(d);
      var e, u := d[..U16(d, 8)], d[U16(d, 8)..];
      hide Parsed, Rest, IsEntry, Stops;
      WithoutFirstStep(e, Parsed(u), named);
      CutNamedParsed(u, named);
      if !named(e) && CutNamed(u, named).Some? {
        ParsedCons(e, CutNamed(u, named).value);
      }
    }
  }

  lemma WithoutFirstStep(e: seq<byte>, es: seq<seq<byte>>, named: seq<byte> -> bool)
    ensures WithoutFirst([e] + es, named) == if named(e) then es else [e] + WithoutFirst(es, named)
  {
    assert ([e] + es)[1..] == es;
  }

  lemma {:induction false} WithoutFirstOfMore(es: seq<seq<byte>>, e: seq<byte>, named: seq<byte> -> bool)
    requires named(e) && forall f :: f in es ==> !named(f)
    ensures WithoutFirst(es + [e], named) == es
  {
    if es != [] {
      WithoutFirstOfMore(es[1..], e, named);
      assert es[0] in es && (es + [e])[1..] == es[1..] + [e];
    }
  }

  /** The header and its entries without the first that has the name. */
  function Deleted(hdr: seq<byte>, named: seq<byte> -> bool): seq<byte>
    requires IsIndex(hdr)
  {
    var f, n := First(hdr), End(hdr);
    var cut := CutNamed(hdr[f..n], named);
    if cut.None? then hdr
    else
      CutNamedParsed(hdr[f..n], named);
      Resized(hdr[..f] + cut.value + hdr[n..], f + |cut.value|, Bytes32(f + |cut.value|))
  }

  function CutAway(data: seq<byte>, off: nat, n: nat): seq<byte>
    requires off + n <= |data|
  {
    data[..off] + data[off + n..]
  }

  lemma DeletedIs(hdr: seq<byte>, named: seq<byte> -> bool)
    requires IsIndex(hdr)
    ensures var f, n := First(hdr), End(hdr);
            var cut := CutNamed(hdr[f..n], named);
            Deleted(hdr, named)
            == if cut.None? then hdr
               else Resized(hdr[..f] + cut.value + hdr[n..], f + |cut.value|, Bytes32(f + |cut.value|))
  {
    hide First, End, CutNamed, Resized, IsList;
  }

  /** A list of entries starts with its end mark or with an entry and then a list. */
  lemma ListStep(d: seq<byte>)
    requires IsList(d)
    ensures |d| >= ENTRY
    ensures IsLast(d) <==> Stops(d)
    ensures !Stops(d) ==> ENTRY <= U16(d, 8) <= |d| && IsList(d[U16(d, 8)..])
  {
    hide IsLast, U16;
  }

  lemma DeletedEntries(hdr: seq<byte>, named: seq<byte> -> bool)
    requires IsIndex(hdr)
    ensures IsIndex(Deleted(hdr, named)) && Entries(Deleted(hdr, named)) == WithoutFirst(Entries(hdr), named)
  {
    hide First, End, Parsed, Rest, IsLast, CutNamed, Deleted, Bytes32, Resized, U32;
    var f, n := First(hdr), End(hdr);
    var d := hdr[f..n];
    CutNamedParsed(d, named);
    DeletedIs(hdr, named);
    var cut := CutNamed(d, named);
    if cut.Some? {
      CutIndex(hdr, f, n, cut.value);
    } else {
      WithoutNone(Parsed(d), named);
    }
  }

  lemma CutIndex(hdr: seq<byte>, f: nat, n: nat, c: seq<byte>)
    requires |hdr| >= 12 && f == First(hdr) && 12 <= f <= n <= |hdr| && n == End(hdr) && |c| <= n - f && IsList(c)
    ensures var after := Resized(hdr[..f] + c + hdr[n..], f + |c|, Bytes32(f + |c|));
            IsIndex(after) && Entries(after) == Parsed(c)
  {
    hide First, End, Resized, Bytes32, IsList, Parsed, IsIndex, Entries;
    MovedIndex(hdr, f, n, c);
    ListIsIndex(Resized(hdr[..f] + c + hdr[n..], f + |c|, Bytes32(f + |c|)), f, f + |c|, c);
  }

  lemma ListIsIndex(hdr: seq<byte>, f: nat, n: nat, c: seq<byte>)
    requires 12 <= f <= n <= |hdr| && First(hdr) == f && End(hdr) == n && hdr[f..n] == c && IsList(c)
    ensures IsIndex(hdr) && Entries(hdr) == Parsed(c)
  {
    hide First, End, IsList, Parsed;
  }

  /** A header put before other bytes of an index. */
  lemma MovedIndex(hdr: seq<byte>, f: nat, n: nat, c: seq<byte>)
    requires |hdr| >= 12 && f == First(hdr) && 12 <= f <= n <= |hdr| && n == End(hdr) && |c| <= n - f
    ensures var after := Resized(hdr[..f] + c + hdr[n..], f + |c|, Bytes32(f + |c|));
            && First(after) == f && End(after) == f + |c| <= |after| && after[f..f + |c|] == c
  {
    var moved := hdr[..f] + c + hdr[n..];
    assert moved[..12] == hdr[..12];
    SameFirst(hdr, moved);
    EndFits(hdr);
    ResizedFields(moved, f + |c|, Bytes32(f + |c|));
    hide First, End, Resized, Bytes32;
    TailPart(Resized(moved, f + |c|, Bytes32(f + |c|)), moved, f, f + |c|);
    assert moved[f..f + |c|] == c;
  }

  lemma {:induction false} WithoutNone(es: seq<seq<byte>>, named: seq<byte> -> bool)
    requires forall e :: e in es ==> !named(e)
    ensures WithoutFirst(es, named) == es
  {
    if es != [] {
      WithoutNone(es[1..], named);
      assert es[0] in es && es == [es[0]] + es[1..];
    }
  }

  /** Deleting an entry that was inserted, and whose name no other has, gives back the old entries. */
  lemma DeleteUndoesInsert(hdr: seq<byte>, e: seq<byte>, named: seq<byte> -> bool)
    requires IsIndex(hdr) && IsEntry(e) && End(hdr) + |e| < 0x1_0000_0000
    requires named(e) && forall f :: f in Entries(hdr) ==> !named(f)
    ensures IsIndex(Inserted(hdr, e)) && IsIndex(Deleted(Inserted(hdr, e), named))
    ensures Entries(Deleted(Inserted(hdr, e), named)) == Entries(hdr)
  {
    hide Deleted, Inserted, Entries, IsIndex, IsEntry, End;
    InsertAppends(hdr, e);
    DeletedEntries(Inserted(hdr, e), named);
    WithoutFirstOfMore(Entries(hdr), e, named);
  }

  // ---- the walks over any header ----

  /** What a walk reads at off, where there is room for it. */
  function LengthAt(data: seq<byte>, off: nat): nat
    requires off + ENTRY <= |data|
  {
    U16(data[off..], 8)
  }

  predicate LastAt(data: seq<byte>, off: nat)
    requires off + ENTRY <= |data|
  {
    IsLast(data[off..])
  }

  /** The walk goes on past off: there is room for an entry, it is no end mark and has a length. */
  predicate GoesOn(data: seq<byte>, off: nat) {
    off + ENTRY <= |data| && !LastAt(data, off) && LengthAt(data, off) > 0
  }

  /** Where entries that follow each other up to an end mark stand, the walk goes on exactly over them. */
  lemma EntryThere(data: seq<byte>, off: nat)
    requires off <= |data| && IsList(data[off..])
    ensures GoesOn(data, off) <==> !Stops(data[off..])
    ensures GoesOn(data, off) ==>
      var n := LengthAt(data, off);
      && n == U16(data[off..], 8) && off + n <= |data| && IsList(data[off + n..])
      && data[off..][..n] == data[off..off + n] && data[off..][n..] == data[off + n..]
  {
    hide IsLast, U16, IsList, Stops;
    ListStep(data[off..]);
    if GoesOn(data, off) {
      SuffixParts(data, off, LengthAt(data, off));
    }
  }

  lemma SuffixParts(data: seq<byte>, off: nat, n: nat)
    requires off + n <= |data|
    ensures data[off..][..n] == data[off..off + n] && data[off..][n..] == data[off + n..]
  {}

  function Prepend(es: seq<seq<byte>>, rest: Outcome<seq<seq<byte>>>): Outcome<seq<seq<byte>>> {
    if rest.Returned? then Returned(es + rest.value) else rest
  }

  /** The entries of a walk from off on, each a copy; `behind` is what the buffer holds after the data, which
      a slice can reach. */
  function Collected(data: seq<byte>, behind: seq<byte>, off: nat): Outcome<seq<seq<byte>>>
    decreases |data| - off
  {
    if !GoesOn(data, off) then Returned([])
    else
      var next := off + LengthAt(data, off);
      if next > |data + behind| then Panics
      else Prepend([(data + behind)[off..next]], Collected(data, behind, next))
  }

  function CollectedFrom(hdr: seq<byte>, beyond: seq<byte>): Outcome<seq<seq<byte>>> {
    if |hdr| < 8 || First(hdr) > |hdr| || End(hdr) > |hdr| then Returned([])
    else if First(hdr) > End(hdr) then Panics
    else Collected(hdr[First(hdr)..End(hdr)], hdr[End(hdr)..] + beyond, 0)
  }

  /** All entries of an index, each a copy. */
  method CollectRawIndexEntries(hdr: seq<byte>, beyond: seq<byte>) returns (r: Outcome<seq<seq<byte>>>)
    ensures r == CollectedFrom(hdr, beyond)
  {
    hide U32, Collected, LengthAt, LastAt;
    if |hdr| < 8 {
      return Returned([]);
    }
    var entriesOff, indexLen := First(hdr), End(hdr);
    if entriesOff > |hdr| || indexLen > |hdr| {
      return Returned([]);
    }
    if entriesOff > indexLen {
      return Panics;
    }
    var data, behind := hdr[entriesOff..indexLen], hdr[indexLen..] + beyond;
    var out: seq<seq<byte>> := [];
    var off := 0;
    PrependNothing(Collected(data, behind, 0));
    while off + ENTRY <= |data|
      invariant Prepend(out, Collected(data, behind, off)) == Collected(data, behind, 0)
      decreases |data| - off
    {
      CollectedStep(data, behind, off);
      if LastAt(data, off) {
        break;
      }
      var entLen := LengthAt(data, off);
      if entLen <= 0 {
        break;
      }
      if off + entLen > |data + behind| {
        return Panics;
      }
      PrependMore(out, (data + behind)[off..off + entLen], Collected(data, behind, off + entLen));
      out := out + [(data + behind)[off..off + entLen]];
      off := off + entLen;
    }
    CollectedStep(data, behind, off);
    assert out + [] == out;
    r := Returned(out);
  }

  lemma CollectedStep(data: seq<byte>, behind: seq<byte>, off: nat)
    ensures Collected(data, behind, off)
            == if !GoesOn(data, off) then Returned([])
               else if off + LengthAt(data, off) > |data + behind| then Panics
               else Prepend([(data + behind)[off..off + LengthAt(data, off)]],
                            Collected(data, behind, off + LengthAt(data, off)))
  {}

  lemma PrependNothing(o: Outcome<seq<seq<byte>>>)
    ensures Prepend([], o) == o
  {
    if o.Returned? {
      assert [] + o.value == o.value;
    }
  }

  lemma PrependMore(a: seq<seq<byte>>, e: seq<byte>, o: Outcome<seq<seq<byte>>>)
    ensures Prepend(a, Prepend([e], o)) == Prepend(a + [e], o)
  {
    if o.Returned? {
      assert a + ([e] + o.value) == a + [e] + o.value;
    }
  }

  lemma {:induction false} CollectedParsed(data: seq<byte>, behind: seq<byte>, off: nat)
    requires off <= |data| && IsList(data[off..])
    ensures Collected(data, behind, off) == Returned(Parsed(data[off..]))
    decreases |data| - off
  {
    hide IsList, LengthAt, LastAt, Stops, Collected, Parsed;
    EntryThere(data, off);
    CollectedStep(data, behind, off);
    if GoesOn(data, off) {
      var next := off + LengthAt(data, off);
      FirstEntry(data[off..]);
      CollectedParsed(data, behind, next);
      assert (data + behind)[off..next] == data[off..next];
    } else {
      ParsedNone(data[off..]);
    }
  }

  lemma ParsedNone(d: seq<byte>)
    requires Stops(d)
    ensures Parsed(d) == []
  {}

  /** On an index these are its entries, whatever lies beyond it. */
  lemma Collects(hdr: seq<byte>, beyond: seq<byte>)
    requires IsIndex(hdr)
    ensures CollectedFrom(hdr, beyond) == Returned(Entries(hdr))
  {
    var data := hdr[First(hdr)..End(hdr)];
    assert data[0..] == data;
    CollectedParsed(data, hdr[End(hdr)..] + beyond, 0);
    hide First, End, Collected, Parsed, IsList;
  }

  // ---- deleting, for any header ----

  /** The name in a key, as the code finds it: none in a key too short for one. */
  function NameIn(key: seq<byte>): Option<seq<byte>> {
    if |key| < 66 then None
    else
      var nl: nat := key[64];
      if 66 + 2 * nl > |key| then None else Some(key[66..66 + 2 * nl])
  }

  predicate KeyNamed(key: seq<byte>, name: seq<byte> -> bool) {
    NameIn(key).Some? && name(NameIn(key).value)
  }

  /** Length of the key of the entry at off. */
  function KeyAt(data: seq<byte>, off: nat): nat
    requires off + ENTRY <= |data|
  {
    U16(data[off..], 10)
  }

  /** Where the first entry of that name stands, in a walk from off on. */
  function Located(data: seq<byte>, behind: seq<byte>, off: nat, name: seq<byte> -> bool): (r: Outcome<nat>)
    ensures r.Returned? ==> r.value + ENTRY <= |data|
    decreases |data| - off
  {
    if !GoesOn(data, off) then Refused
    else
      var key, end := off + ENTRY, off + ENTRY + KeyAt(data, off);
      if KeyAt(data, off) >= 66 && end > |data + behind| then Panics
      else if KeyAt(data, off) >= 66 && KeyNamed((data + behind)[key..end], name) then Returned(off)
      else Located(data, behind, off + LengthAt(data, off), name)
  }

  /** A buffer without the entry at `at`, n bytes long, and the header saying so. */
  function CutFrom(hdr: seq<byte>, at: nat, n: nat): Outcome<seq<byte>>
    requires |hdr| >= 8
  {
    if at + n > |hdr| || |hdr| - n < 12 then Panics
    else
      var v := (End(hdr) - n) % 0x1_0000_0000;
      Returned(Resized(CutAway(hdr, at, n), v, Bytes32(v)))
  }

  function DeletedFrom(hdr: seq<byte>, beyond: seq<byte>, name: seq<byte> -> bool): Outcome<seq<byte>> {
    if |hdr| < 8 then Panics
    else if First(hdr) > |hdr| || End(hdr) > |hdr| then Returned(hdr)
    else if First(hdr) > End(hdr) then Panics
    else
      var data := hdr[First(hdr)..End(hdr)];
      var found := Located(data, hdr[End(hdr)..] + beyond, 0, name);
      if found.Panics? then Panics
      else if found.Refused? then Returned(hdr)
      else CutFrom(hdr, First(hdr) + found.value, LengthAt(data, found.value))
  }

  method Locate(data: seq<byte>, behind: seq<byte>, name: seq<byte> -> bool) returns (r: Outcome<nat>)
    ensures r == Located(data, behind, 0, name)
  {
    hide Located, LengthAt, LastAt, KeyAt, KeyNamed;
    var off := 0;
    while off + ENTRY <= |data|
      invariant Located(data, behind, off, name) == Located(data, behind, 0, name)
      decreases |data| - off
    {
      LocatedStep(data, behind, off, name);
      if LastAt(data, off) {
        return Refused;
      }
      var entLen, keyLen := LengthAt(data, off), KeyAt(data, off);
      if entLen <= 0 {
        return Refused;
      }
      if keyLen >= 66 {
        if off + ENTRY + keyLen > |data + behind| {
          return Panics;
        }
        if KeyNamed((data + behind)[off + ENTRY..off + ENTRY + keyLen], name) {
          return Returned(off);
        }
      }
      off := off + entLen;
    }
    LocatedStep(data, behind, off, name);
    r := Refused;
  }

  lemma LocatedStep(data: seq<byte>, behind: seq<byte>, off: nat, name: seq<byte> -> bool)
    ensures !GoesOn(data, off) ==> Located(data, behind, off, name) == Refused
    ensures GoesOn(data, off) ==>
      var key, end := off + ENTRY, off + ENTRY + KeyAt(data, off);
      Located(data, behind, off, name)
      == if KeyAt(data, off) >= 66 && end > |data + behind| then Panics
         else if KeyAt(data, off) >= 66 && KeyNamed((data + behind)[key..end], name) then Returned(off)
         else Located(data, behind, off + LengthAt(data, off), name)
  {}

  /** A new buffer without the entry of that name; the old one if there is none. */
  method DeleteIndexEntry(hdr: seq<byte>, beyond: seq<byte>, name: seq<byte> -> bool) returns (r: Outcome<seq<byte>>)
    ensures r == DeletedFrom(hdr, beyond, name)
  {
    hide U32, Located, LengthAt, Bytes32;
    if |hdr| < 8 {
      return Panics;
    }
    var entriesOff, indexLen := First(hdr), End(hdr);
    if entriesOff > |hdr| || indexLen > |hdr| {
      return Returned(hdr);
    }
    if entriesOff > indexLen {
      return Panics;
    }
    var data := hdr[entriesOff..indexLen];
    var found := Locate(data, hdr[indexLen..] + beyond, name);
    if found.Panics? {
      return Panics;
    }
    if found.Refused? {
      return Returned(hdr);
    }
    var absOff, entLen := entriesOff + found.value, LengthAt(data, found.value);
    if absOff + entLen > |hdr| || |hdr| - entLen < 12 {
      return Panics;
    }
    var newHdr := hdr[..absOff] + hdr[absOff + entLen..];
    var v := (indexLen - entLen) % 0x1_0000_0000;
    r := Returned(newHdr[..4] + Bytes32(v) + Bytes32(v) + newHdr[12..]);
  }

  /** An entry by itself has the name. */
  predicate EntryNamed(e: seq<byte>, name: seq<byte> -> bool) {
    |e| >= ENTRY && 66 <= U16(e, 10) <= |e| - ENTRY && KeyNamed(e[ENTRY..ENTRY + U16(e, 10)], name)
  }

  /** An entry that is long enough for its key. */
  predicate KeyInside(e: seq<byte>) {
    |e| >= ENTRY && U16(e, 10) <= |e| - ENTRY
  }

  lemma {:induction false} LocatedCut(data: seq<byte>, behind: seq<byte>, off: nat, name: seq<byte> -> bool)
    requires off <= |data| && IsList(data[off..]) && forall e :: e in Parsed(data[off..]) ==> KeyInside(e)
    ensures var r, cut := Located(data, behind, off, name), CutNamed(data[off..], e => EntryNamed(e, name));
            if cut.None? then r == Refused
            else
              && r.Returned? && off <= r.value && r.value + LengthAt(data, r.value) <= |data|
              && LengthAt(data, r.value) >= ENTRY
              && cut.value == data[off..r.value] + data[r.value + LengthAt(data, r.value)..]
    decreases |data| - off
  {
    hide IsList, LengthAt, LastAt, Stops, Located, Parsed, CutNamed, KeyAt, EntryNamed, KeyNamed, KeyInside;
    EntryThere(data, off);
    LocatedStep(data, behind, off, name);
    var named := e => EntryNamed(e, name);
    if GoesOn(data, off) {
      var next := off + LengthAt(data, off);
      FirstEntry(data[off..]);
      CutNamedStep(data[off..], named);
      KeyThere(data, behind, off, name);
      LengthThere(data, off);
      if named(data[off..next]) {
        assert data[off..off] == [] && [] + data[next..] == data[next..];
      } else {
        LocatedCut(data, behind, next, name);
        var r := Located(data, behind, next, name);
        if r.Returned? {
          assert data[off..next] + data[next..r.value] == data[off..r.value];
        }
      }
    } else {
      CutNamedNone(data[off..], named);
    }
  }

  lemma LengthThere(data: seq<byte>, off: nat)
    requires off + ENTRY <= |data| && !Stops(data[off..])
    ensures LengthAt(data, off) >= ENTRY
  {
    hide IsLast;
  }

  /** The key the walk looks at is the entry's own. */
  lemma KeyThere(data: seq<byte>, behind: seq<byte>, off: nat, name: seq<byte> -> bool)
    requires GoesOn(data, off) && off + LengthAt(data, off) <= |data|
    requires KeyInside(data[off..off + LengthAt(data, off)])
    ensures var k := KeyAt(data, off);
            && off + ENTRY + k <= |data|
            && (EntryNamed(data[off..off + LengthAt(data, off)], name)
                <==> k >= 66 && KeyNamed((data + behind)[off + ENTRY..off + ENTRY + k], name))
  {
    hide LastAt, KeyNamed;
    var n, k := LengthAt(data, off), KeyAt(data, off);
    var e := data[off..off + n];
    assert e[10] == data[off..][10] && e[11] == data[off..][11];
    assert U16(e, 10) == k;
    SliceOfSlice(data, off, off + n, ENTRY, k);
    assert (data + behind)[off + ENTRY..off + ENTRY + k] == data[off + ENTRY..off + ENTRY + k];
  }

  lemma CutNamedStep(d: seq<byte>, named: seq<byte> -> bool)
    requires !Stops(d)
    ensures var e, u := d[..U16(d, 8)], d[U16(d, 8)..];
            CutNamed(d, named) == if named(e) then Some(u) else Behind(e, CutNamed(u, named))
  {}

  lemma CutNamedNone(d: seq<byte>, named: seq<byte> -> bool)
    requires Stops(d)
    ensures CutNamed(d, named) == None
  {}

  /** On an index whose entries hold their keys the walk cuts out the first entry of the name. */
  lemma Deletes(hdr: seq<byte>, beyond: seq<byte>, name: seq<byte> -> bool)
    requires IsIndex(hdr) && forall e :: e in Entries(hdr) ==> KeyInside(e)
    ensures DeletedFrom(hdr, beyond, name) == Returned(Deleted(hdr, e => EntryNamed(e, name)))
  {
    hide Located, CutNamed, IsList, Parsed, LengthAt, Deleted, EntryNamed, KeyInside, CutFrom, U32;
    var f, n := First(hdr), End(hdr);
    var data := hdr[f..n];
    assert data[0..] == data;
    LocatedCut(data, hdr[n..] + beyond, 0, name);
    DeletedIs(hdr, e => EntryNamed(e, name));
    var r := Located(data, hdr[n..] + beyond, 0, name);
    if r.Returned? {
      assert data[0..r.value] == data[..r.value];
      CutIs(hdr, f, n, r.value, LengthAt(data, r.value));
    }
  }

  lemma CutIs(hdr: seq<byte>, f: nat, n: nat, off: nat, m: nat)
    requires |hdr| >= 12 && 12 <= f <= n <= |hdr| && n == End(hdr) && off + m <= n - f
    ensures var cut := CutAway(hdr[f..n], off, m);
            CutFrom(hdr, f + off, m)
            == Returned(Resized(hdr[..f] + cut + hdr[n..], f + |cut|, Bytes32(f + |cut|)))
  {
    hide Resized, Bytes32, CutAway, End;
    CutRegroups(hdr, f, n, off, m);
    Shorter(hdr[f..n], off, m);
    EndFits(hdr);
    assert (n - m) % 0x1_0000_0000 == n - m;
  }

  lemma Shorter(d: seq<byte>, off: nat, m: nat)
    requires off + m <= |d|
    ensures |CutAway(d, off, m)| == |d| - m
  {}

  lemma EndFits(hdr: seq<byte>)
    requires |hdr| >= 8
    ensures End(hdr) < 0x1_0000_0000
  {}

  lemma CutRegroups(hdr: seq<byte>, f: nat, n: nat, off: nat, m: nat)
    requires f <= n <= |hdr| && off + m <= n - f
    ensures var data := hdr[f..n];
            CutAway(hdr, f + off, m) == hdr[..f] + CutAway(data, off, m) + hdr[n..]
  {
    var data := hdr[f..n];
    assert hdr[..f + off] == hdr[..f] + data[..off];
    assert hdr[f + off + m..] == data[off + m..] + hdr[n..];
  }
}
