/** Directory indexes put together byte by byte, as a new one is written: what inserting and deleting do to all of
    their bytes. */
module IndexFormats {
  import opened Bits
  import opened IndexEntries
  import opened Outcomes
  import IndexBlocks

  function Word16(v: nat): (b: seq<byte>)
    ensures |b| == 2
  {
    [v % 0x100, v / 0x100 % 0x100]
  }

  function Word32(v: nat): (b: seq<byte>)
    ensures |b| == 4
  {
    [v % 0x100, v / 0x100 % 0x100, v / 0x1_0000 % 0x100, v / 0x100_0000 % 0x100]
  }

  // ---- an entry ----

  /** An entry for a key: a record's number in eight bytes, the entry's length and the key's in two each, four zeros,
      the key, and zeros up to a multiple of eight. */
  function BuiltEntry(number: seq<byte>, key: seq<byte>): seq<byte>
    requires |number| == 8
  {
    number + Word16((16 + |key| + 7) / 8 * 8) + Word16(|key|) + [0, 0, 0, 0] + key
    + seq((16 + |key| + 7) / 8 * 8 - 16 - |key|, _ => 0)
  }

  /** A key: 64 bytes, how many characters its name has, how it is written, the characters in two bytes each. */
  function BuiltKey(attributes: seq<byte>, kind: byte, chars: seq<byte>): seq<byte>
    requires |attributes| == 64 && |chars| % 2 == 0 && |chars| / 2 < 256
  {
    attributes + [|chars| / 2, kind] + chars
  }

  /** It is an entry by itself. */
  lemma BuiltIsEntry(number: seq<byte>, key: seq<byte>)
    requires |number| == 8 && |key| < 65504
    ensures var e := BuiltEntry(number, key);
            && IsEntry(e) && |e| == (16 + |key| + 7) / 8 * 8 && |e| % 8 == 0 && U16(e, 10) == |key|
            && e[16..16 + |key|] == key
  {
    var e, n := BuiltEntry(number, key), (16 + |key| + 7) / 8 * 8;
    assert 16 + |key| <= n <= 16 + |key| + 7 && n < 0x1_0000;
    assert e[8] == n % 0x100 && e[9] == n / 0x100 && e[10] == |key| % 0x100 && e[11] == |key| / 0x100;
    assert e[12] == 0 && e[13] == 0 && e[14] == 0 && e[15] == 0;
  }

  /** It has the name whose characters are in its key. */
  lemma BuiltIsNamed(
    number: seq<byte>, attributes: seq<byte>, kind: byte, chars: seq<byte>, name: seq<byte> -> bool)
    requires |number| == 8 && |attributes| == 64 && |chars| % 2 == 0 && |chars| / 2 < 256
    ensures EntryNamed(BuiltEntry(number, BuiltKey(attributes, kind, chars)), name) <==> name(chars)
  {
    var key := BuiltKey(attributes, kind, chars);
    BuiltIsEntry(number, key);
    assert key[64] as nat == |chars| / 2 && key[66..66 + |chars|] == chars;
    hide BuiltEntry, BuiltKey, IsEntry;
  }

  // ---- an index ----

  /** The end mark: its length at byte 8 and its flag, bit 1, at byte 12. */
  const MARK: seq<byte> := [0, 0, 0, 0, 0, 0, 0, 0, 16, 0, 0, 0, 2, 0, 0, 0]

  /** An index of these entries: they start 16 bytes in, and the whole length is there twice. */
  function Built(es: seq<seq<byte>>, flags: seq<byte>): seq<byte>
    requires |flags| == 4
  {
    var n := 16 + |Flat(es)| + 16;
    Word32(16) + Word32(n) + Word32(n) + flags + Flat(es) + MARK
  }

  ghost predicate Fits(es: seq<seq<byte>>) {
    (forall e :: e in es ==> IsEntry(e)) && 16 + |Flat(es)| + 16 < 0x1_0000_0000
  }

  lemma BuiltFields(f: seq<byte>, flags: seq<byte>)
    requires |flags| == 4 && 16 + |f| + 16 < 0x1_0000_0000
    ensures var n := 16 + |f| + 16;
            var hdr := Word32(16) + Word32(n) + Word32(n) + flags + f + MARK;
            && |hdr| == n && First(hdr) == 16 && End(hdr) == n && hdr[16..n] == f + MARK && hdr[16..16 + |f|] == f
            && hdr[..16] == Word32(16) + Word32(n) + Word32(n) + flags && hdr[16 + |f|..] == MARK
  {
    var n := 16 + |f| + 16;
    var hdr := Word32(16) + Word32(n) + Word32(n) + flags + f + MARK;
    WordBack(hdr, 0, 16);
    WordBack(hdr, 4, n);
    hide U32, Word32;
  }

  lemma WordBack(hdr: seq<byte>, i: nat, v: nat)
    requires i + 4 <= |hdr| && v < 0x1_0000_0000 && hdr[i..i + 4] == Word32(v)
    ensures U32(hdr, i) == v
  {
    WordsSame(v);
    Bytes32Value(v);
    hide Word32, Bytes32;
    var w := hdr[i..i + 4];
    assert hdr[i] == w[0] && hdr[i + 1] == w[1] && hdr[i + 2] == w[2] && hdr[i + 3] == w[3];
  }

  lemma MarkIsLast()
    ensures IsLast(MARK) && Stops(MARK) && |MARK| == 16
  {
    assert U32(MARK, 12) == 2;
  }

  /** It is a well-formed index of those entries. */
  lemma BuiltIsIndex(es: seq<seq<byte>>, flags: seq<byte>)
    requires |flags| == 4 && Fits(es)
    ensures var hdr := Built(es, flags);
            && IsIndex(hdr) && Entries(hdr) == es && MarkAt(hdr) == 16 + |Flat(es)| && End(hdr) == |hdr|
            && First(hdr) == 16
  {
    BuiltFields(Flat(es), flags);
    MarkIsLast();
    hide First, End, Flat, IsLast, IsEntry, IsIndex, Entries, MarkAt, MARK, Stops, Word32;
    IndexOf(Built(es, flags), es, MARK);
  }

  /** Inserting into it gives the index of the entries with the new one last, byte for byte. */
  lemma InsertBuilt(es: seq<seq<byte>>, flags: seq<byte>, e: seq<byte>)
    requires |flags| == 4 && Fits(es + [e])
    ensures Fits(es) && IsIndex(Built(es, flags))
    ensures Inserted(Built(es, flags), e) == Built(es + [e], flags)
  {
    hide First, End, Flat, IsIndex, MarkAt, MARK, Fits, Word32, Inserted, Entries;
    FlatJoin(es, [e]);
    OneFlat(e);
    FitsLess(es, e);
    BuiltIsIndex(es, flags);
    BuiltFields(Flat(es), flags);
    Grown(Built(es, flags), Flat(es), e, flags);
  }

  lemma Grown(hdr: seq<byte>, f: seq<byte>, e: seq<byte>, flags: seq<byte>)
    requires |flags| == 4 && IsIndex(hdr) && MarkAt(hdr) == 16 + |f| && End(hdr) == |hdr| == 16 + |f| + 16
    requires hdr[..16] == Word32(16) + Word32(|hdr|) + Word32(|hdr|) + flags
    requires hdr[16..16 + |f|] == f && hdr[16 + |f|..] == MARK
    ensures var n := 16 + |f + e| + 16;
            Inserted(hdr, e) == Word32(16) + Word32(n) + Word32(n) + flags + (f + e) + MARK
  {
    hide First, End, IsIndex, MarkAt, MARK, Word32, Bytes32;
    var k := 16 + |f|;
    assert hdr[..k] == hdr[..16] + f;
    WordsSame(16 + |f| + |e| + 16);
    Respelled(hdr, hdr[..k] + e + hdr[k..], f, e, flags);
  }

  lemma FitsLess(es: seq<seq<byte>>, e: seq<byte>)
    requires Fits(es + [e]) && Flat(es + [e]) == Flat(es) + e
    ensures Fits(es)
  {
    assert forall g :: g in es ==> g in es + [e];
  }

  lemma WordsSame(v: nat)
    ensures Bytes32(v) == Word32(v)
  {}

  lemma Respelled(hdr: seq<byte>, grown: seq<byte>, f: seq<byte>, e: seq<byte>, flags: seq<byte>)
    requires |flags| == 4 && |hdr| >= 16 && hdr[..16][12..] == flags && hdr[..16][..4] == Word32(16)
    requires grown == hdr[..16] + f + e + MARK
    ensures var n := 16 + |f| + |e| + 16;
            grown[..4] + Word32(n) + Word32(n) + grown[12..]
            == Word32(16) + Word32(n) + Word32(n) + flags + (f + e) + MARK
  {
    hide Word32;
    assert grown[..4] == hdr[..16][..4] && grown[12..] == flags + (f + e) + MARK;
  }

  /** Deleting from it gives the index of the entries without the first of that name, byte for byte. */
  lemma DeleteBuilt(es: seq<seq<byte>>, flags: seq<byte>, named: seq<byte> -> bool)
    requires |flags| == 4 && Fits(es)
    ensures IsIndex(Built(es, flags))
    ensures Deleted(Built(es, flags), named) == Built(WithoutFirst(es, named), flags)
  {
    hide First, End, Flat, IsIndex, MarkAt, MARK, Word32, Deleted, Entries, CutNamed, IsLast, Stops, Parsed, Rest,
      IsEntry, WithoutFirst;
    var hdr, f := Built(es, flags), Flat(es);
    BuiltIsIndex(es, flags);
    BuiltFields(f, flags);
    MarkIsLast();
    ParsedFlat(es, MARK);
    CutNamedParsed(f + MARK, named);
    DeletedIs(hdr, named);
    var cut := CutNamed(f + MARK, named);
    if cut.Some? {
      FlatParsed(cut.value);
      Shrunk(hdr, f, cut.value, Flat(WithoutFirst(es, named)), flags);
    } else {
      WithoutNone(es, named);
    }
  }

  lemma Shrunk(hdr: seq<byte>, f: seq<byte>, cut: seq<byte>, left: seq<byte>, flags: seq<byte>)
    requires |flags| == 4 && cut == left + MARK && |hdr| == 16 + |f| + 16
    requires hdr[..16] == Word32(16) + Word32(|hdr|) + Word32(|hdr|) + flags
    ensures var n, grown := 16 + |left| + 16, hdr[..16] + cut + hdr[|hdr|..];
            Resized(grown, 16 + |cut|, Bytes32(16 + |cut|))
            == Word32(16) + Word32(n) + Word32(n) + flags + left + MARK
  {
    MarkIsLast();
    hide MARK, Word32, Bytes32;
    WordsSame(16 + |cut|);
    var grown := hdr[..16] + cut + hdr[|hdr|..];
    assert grown == hdr[..16] + [] + left + MARK;
    Respelled(hdr, grown, [], left, flags);
    assert [] + left == left;
  }

  // ---- an index in a block ----

  /** An index in a block: as long as its entries, with room for the rest of the block. */
  function BuiltBody(es: seq<seq<byte>>, flags: seq<byte>, rest: seq<byte>): seq<byte>
    requires |flags| == 4
  {
    var n := 16 + |Flat(es)| + 16;
    Word32(16) + Word32(n) + Word32(n + |rest|) + flags + Flat(es) + MARK + rest
  }

  ghost predicate FitsBlock(es: seq<seq<byte>>, rest: seq<byte>) {
    (forall e :: e in es ==> IsEntry(e)) && 16 + |Flat(es)| + 16 + |rest| < 0x1_0000_0000
  }

  lemma BodyFields(f: seq<byte>, flags: seq<byte>, rest: seq<byte>)
    requires |flags| == 4 && 16 + |f| + 16 + |rest| < 0x1_0000_0000
    ensures var n := 16 + |f| + 16;
            var hdr := Word32(16) + Word32(n) + Word32(n + |rest|) + flags + f + MARK + rest;
            && |hdr| == n + |rest| && First(hdr) == 16 && End(hdr) == n && U32(hdr, 8) == n + |rest|
            && hdr[16..n] == f + MARK && hdr[..16] == Word32(16) + Word32(n) + Word32(n + |rest|) + flags
            && hdr[16 + |f|..] == MARK + rest && hdr[16..16 + |f|] == f
  {
    var n := 16 + |f| + 16;
    var hdr := Word32(16) + Word32(n) + Word32(n + |rest|) + flags + f + MARK + rest;
    MarkIsLast();
    hide MARK, U32, Word32;
    HeadParts(hdr, Word32(16), Word32(n), Word32(n + |rest|), flags, f + MARK + rest);
    TailParts(hdr, f, MARK, rest);
    WordBack(hdr, 0, 16);
    WordBack(hdr, 4, n);
    WordBack(hdr, 8, n + |rest|);
  }

  lemma HeadParts(hdr: seq<byte>, a: seq<byte>, b: seq<byte>, c: seq<byte>, d: seq<byte>, tail: seq<byte>)
    requires |a| == |b| == |c| == |d| == 4 && hdr == (a + b + c + d) + tail
    ensures hdr[0..4] == a && hdr[4..8] == b && hdr[8..12] == c && hdr[..16] == a + b + c + d && hdr[16..] == tail
  {}

  lemma TailParts(hdr: seq<byte>, f: seq<byte>, mark: seq<byte>, rest: seq<byte>)
    requires |hdr| >= 16 && hdr[16..] == f + mark + rest
    ensures hdr[16..16 + |f|] == f && hdr[16 + |f|..] == mark + rest
    ensures hdr[16..16 + |f| + |mark|] == f + mark
  {
    var t := hdr[16..];
    assert t[..|f|] == f && t[|f|..] == mark + rest && t[..|f| + |mark|] == f + mark;
    assert t[..|f|] == hdr[16..16 + |f|] && t[|f|..] == hdr[16 + |f|..];
    assert t[..|f| + |mark|] == hdr[16..16 + |f| + |mark|];
  }

  lemma BodyIsIndex(es: seq<seq<byte>>, flags: seq<byte>, rest: seq<byte>)
    requires |flags| == 4 && FitsBlock(es, rest)
    ensures var hdr := BuiltBody(es, flags, rest);
            IsIndex(hdr) && Entries(hdr) == es && MarkAt(hdr) == 16 + |Flat(es)| && |hdr| >= 12
  {
    BodyFields(Flat(es), flags, rest);
    MarkIsLast();
    hide First, End, Flat, IsLast, IsEntry, IsIndex, Entries, MarkAt, MARK, Stops, Word32, U32;
    IndexOf(BuiltBody(es, flags, rest), es, MARK);
  }

  /** A block that starts with "INDX", with an index 24 bytes in, takes an entry exactly if the room left is as long;
      then it is the block of the entries with the new one last, and that much less room. */
  lemma AddBuilt(head: seq<byte>, es: seq<seq<byte>>, flags: seq<byte>, rest: seq<byte>, e: seq<byte>)
    requires |head| == 24 && head[..4] == [73, 78, 68, 88] && |flags| == 4 && FitsBlock(es, rest)
    ensures var block := head + BuiltBody(es, flags, rest);
            IndexBlocks.Addition(block, e) == if |e| <= |rest| then Returned(16 + |Flat(es)|) else Refused
    ensures |e| <= |rest| ==>
      && 12 <= |BuiltBody(es, flags, rest)| && 16 + |Flat(es)| + ENTRY + |e| <= |BuiltBody(es, flags, rest)|
      && IndexBlocks.Overwritten(BuiltBody(es, flags, rest), 16 + |Flat(es)|, e)
         == BuiltBody(es + [e], flags, rest[|e|..])
  {
    hide First, End, Flat, IsIndex, MarkAt, MARK, Word32, U32, Entries, IndexBlocks.Room, IndexBlocks.Overwritten,
      FitsBlock;
    var hdr, f := BuiltBody(es, flags, rest), Flat(es);
    FitsBody(es, rest);
    BodyFields(f, flags, rest);
    BodyIsIndex(es, flags, rest);
    assert (head + hdr)[..4] == head[..4] && (head + hdr)[24..] == hdr;
    RoomOf(hdr, e, 16 + |f|, rest);
    if |e| <= |rest| {
      FlatJoin(es, [e]);
      OneFlat(e);
      Moved(hdr, f, e, flags, rest);
    }
  }

  lemma FitsBody(es: seq<seq<byte>>, rest: seq<byte>)
    requires FitsBlock(es, rest)
    ensures 16 + |Flat(es)| + 16 + |rest| < 0x1_0000_0000
  {}

  lemma RoomOf(hdr: seq<byte>, e: seq<byte>, k: nat, rest: seq<byte>)
    requires IsIndex(hdr) && MarkAt(hdr) == k && First(hdr) == 16 && End(hdr) == k + 16
    requires U32(hdr, 8) == |hdr| == k + 16 + |rest|
    ensures IndexBlocks.Room(hdr, e) == if |e| <= |rest| then Returned(k) else Refused
  {
    FindsMarkAt(hdr);
    hide IsIndex, MarkAt, U32, FindMark;
  }

  lemma Moved(hdr: seq<byte>, f: seq<byte>, e: seq<byte>, flags: seq<byte>, rest: seq<byte>)
    requires |flags| == 4 && |e| <= |rest| && |hdr| == 16 + |f| + 16 + |rest| && End(hdr) == 16 + |f| + 16
    requires var n := 16 + |f| + 16; hdr[..16] == Word32(16) + Word32(n) + Word32(n + |rest|) + flags
    requires hdr[16..16 + |f|] == f && hdr[16 + |f|..] == MARK + rest
    ensures var n, less := 16 + |f + e| + 16, rest[|e|..];
            IndexBlocks.Overwritten(hdr, 16 + |f|, e)
            == Word32(16) + Word32(n) + Word32(n + |less|) + flags + (f + e) + MARK + less
  {
    MarkIsLast();
    hide End, MARK, Word32, Bytes32;
    var k, n, less := 16 + |f|, 16 + |f + e| + 16, rest[|e|..];
    WordsSame(n);
    assert hdr[..k] == hdr[..16] + f;
    assert hdr[k..][..16] == MARK && hdr[k..][|e| + 16..] == less;
    assert hdr[k..k + ENTRY] == MARK && hdr[k + |e| + ENTRY..] == less;
    var moved := IndexBlocks.MarkMoved(hdr, k, e);
    assert moved == hdr[..16] + f + e + (MARK + less);
    assert moved[..4] == hdr[..16][..4] && moved[8..12] == hdr[..16][8..12];
    assert moved[12..] == hdr[..16][12..] + (f + e) + (MARK + less);
  }
}
