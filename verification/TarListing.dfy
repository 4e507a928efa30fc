/** Recording where the members of a tar are, as its bytes come out of the decoder chunk by chunk. */
module TarListings {
  import opened Bits
  import opened TarStreams

  /** A member, and where its body starts in the decompressed stream. */
  datatype Entry = Entry(name: seq<byte>, outOff: nat, header: Header)

  // ---- the listing of a whole stream ----

  const PATH: seq<byte> := [112, 97, 116, 104, 61]
  const NEWLINE: byte := 10
  const EQUALS: byte := 61

  /** The bytes before the first line feed, and those after it. */
  function FirstLine(data: seq<byte>): (line: seq<byte>)
    ensures |line| <= |data|
  {
    if data == [] || data[0] == NEWLINE then [] else [data[0]] + FirstLine(data[1..])
  }

  /** The value of the first line that starts with "path=". */
  function PaxValue(data: seq<byte>): seq<byte>
    decreases |data|
  {
    if data == [] then []
    else
      var line := FirstLine(data);
      if StartsWith(line, PATH) then line[|PATH|..]
      else if |line| < |data| then PaxValue(data[|line| + 1..])
      else []
  }

  function WithoutZeros(data: seq<byte>): seq<byte> {
    if data != [] && data[|data| - 1] == 0 then WithoutZeros(data[..|data| - 1]) else data
  }

  /** The name an extension's body gives to the next member; none if it has other keys. */
  function LongName(body: seq<byte>): seq<byte> {
    if StartsWith(body, PATH) then PaxValue(body) else if EQUALS !in body then WithoutZeros(body) else []
  }

  /** The members of stream s from p on, up to a zero block, a block that is no header, or the end; long is
      the name an extension has just given. */
  function Listing(s: seq<byte>, p: nat, long: seq<byte>, parse: Parser): seq<Entry>
    requires p <= |s|
    decreases |s| - p
  {
    if p + BLOCK > |s| || IsZero(s[p..p + BLOCK]) || parse(s[p..p + BLOCK]).None? then []
    else
      var h := parse(s[p..p + BLOCK]).value;
      var body := p + BLOCK;
      var next := body + h.size + Pad(h.size);
      var mine := if IsExtension(h.typeflag) then [] else [Entry(if long != [] then long else h.name, body, h)];
      if next > |s| then mine
      else
        mine + Listing(s, next, if IsExtension(h.typeflag) then LongName(s[body..body + h.size]) else [], parse)
  }

  // ---- headers about the next one ----

  /** One of the four types of headers that are not members. */
  predicate NotAMember(typeflag: char) {
    typeflag in ['x', 'g', 'L', 'K']
  }

  /** A member is listed under the name given before it, or else its own, at the place after its header. */
  lemma MemberListing(s: seq<byte>, p: nat, long: seq<byte>, parse: Parser, h: Header, q: nat)
    requires HeaderAt(s, p, h, parse) && !NotAMember(h.typeflag) && NextAt(p, h.size, q)
    ensures Listing(s, p, long, parse)
            == [Entry(if long == [] then h.name else long, p + 512, h)]
               + if q > |s| then [] else Listing(s, q, [], parse)
  {
    hide IsZero, Pad, Listing, LongName;
    HeaderThere(s, p, h, parse);
    NextIs(p, h.size, q);
    ListingStep(s, p, long, parse);
    assert Mine(h, p, long) == [Entry(if long == [] then h.name else long, p + 512, h)];
  }

  /** A header of type x, g, L or K is not listed; its body may give the next one's name. */
  lemma ExtensionListing(s: seq<byte>, p: nat, long: seq<byte>, parse: Parser, h: Header, q: nat)
    requires HeaderAt(s, p, h, parse) && NotAMember(h.typeflag) && NextAt(p, h.size, q) && q <= |s|
    ensures Listing(s, p, long, parse) == Listing(s, q, LongName(s[p + 512..p + 512 + h.size]), parse)
  {
    hide IsZero, Pad, Listing, LongName;
    HeaderThere(s, p, h, parse);
    NextIs(p, h.size, q);
    ListingStep(s, p, long, parse);
    assert Mine(h, p, long) == [];
  }

  /** What a body says the name is: all of it but for zeros at its end, where it has no equals sign; the rest of its
      first line, where that starts with "path="; otherwise nothing. */
  predicate Says(body: seq<byte>, name: seq<byte>) {
    if |body| >= 5 && body[..5] == [112, 97, 116, 104, 61] then
      && 5 + |name| <= |body| && name == body[5..5 + |name|] && 10 !in name
      && (5 + |name| < |body| ==> body[5 + |name|] == 10)
    else if 61 in body then name == []
    else
      && name <= body && (forall i :: |name| <= i < |body| ==> body[i] == 0)
      && (name != [] ==> name[|name| - 1] != 0)
  }

  lemma {:induction false} LineSays(data: seq<byte>)
    ensures var line := FirstLine(data);
            && line <= data && 10 !in line && (|line| < |data| ==> data[|line|] == 10)
  {
    if data != [] && data[0] != 10 {
      LineSays(data[1..]);
    }
  }

  lemma {:induction false} ZerosCut(data: seq<byte>)
    ensures var name := WithoutZeros(data);
            && name <= data && (forall i :: |name| <= i < |data| ==> data[i] == 0)
            && (name != [] ==> name[|name| - 1] != 0)
  {
    if data != [] && data[|data| - 1] == 0 {
      ZerosCut(data[..|data| - 1]);
    }
  }

  lemma NoNameTwice(body: seq<byte>, name: seq<byte>, other: seq<byte>)
    requires Says(body, name) && Says(body, other)
    ensures name == other
  {
    NotLonger(body, name, other);
    NotLonger(body, other, name);
    hide Says;
    SameStart(body, name, other);
  }

  lemma SameStart(body: seq<byte>, name: seq<byte>, other: seq<byte>)
    requires Says(body, name) && Says(body, other) && |name| == |other|
    ensures name == other
  {}

  lemma NotLonger(body: seq<byte>, name: seq<byte>, other: seq<byte>)
    requires Says(body, name)
    ensures |name| < |other| ==> !Says(body, other)
  {
    var at := 5 + |name|;
    if |name| < |other| && |body| >= 5 && body[..5] == [112, 97, 116, 104, 61] && 5 + |other| <= |body| {
      assert body[5..5 + |other|][|name|] == body[at];
    }
  }

  /** It is what the scanner takes for the name. */
  lemma LongNameIs(body: seq<byte>, name: seq<byte>)
    ensures LongName(body) == name <==> Says(body, name)
  {
    LineSays(body);
    ZerosCut(body);
    PathLine(body);
    hide FirstLine, WithoutZeros, PaxValue;
    assert Says(body, LongName(body));
    if Says(body, name) {
      NoNameTwice(body, name, LongName(body));
    }
  }

  lemma PathLine(body: seq<byte>)
    ensures StartsWith(body, PATH) ==> |FirstLine(body)| >= 5 && PaxValue(body) == FirstLine(body)[5..]
  {
    if StartsWith(body, PATH) {
      var line := FirstLine(body);
      LineSays(body);
      assert body[..5] == PATH;
      assert forall k :: 0 <= k < 5 ==> body[k] == body[..5][k] == PATH[k] != 10;
      assert |line| >= 5;
      assert line[..5] == body[..5];
      hide FirstLine;
    }
  }

  /** Such a header and then a member: one entry, under the name in the body of the first if there is one, at the
      place after the second. */
  lemma NamedByExtension(
    s: seq<byte>, p: nat, long: seq<byte>, parse: Parser, ext: Header, q: nat, h: Header, r: nat, name: seq<byte>)
    requires HeaderAt(s, p, ext, parse) && ext.typeflag in ['x', 'g', 'L', 'K'] && NextAt(p, ext.size, q)
    requires HeaderAt(s, q, h, parse) && h.typeflag !in ['x', 'g', 'L', 'K'] && NextAt(q, h.size, r)
    requires Says(s[p + 512..p + 512 + ext.size], name)
    ensures Listing(s, p, long, parse)
            == [Entry(if name == [] then h.name else name, q + 512, h)]
               + if r > |s| then [] else Listing(s, r, [], parse)
  {
    hide Listing, Says, HeaderAt, NextAt, LongName;
    ExtensionEnds(s, p, ext, q, h, parse);
    ExtensionListing(s, p, long, parse, ext, q);
    LongNameIs(s[p + 512..p + 512 + ext.size], name);
    MemberListing(s, q, name, parse, h, r);
  }

  lemma ExtensionEnds(s: seq<byte>, p: nat, ext: Header, q: nat, h: Header, parse: Parser)
    requires NextAt(p, ext.size, q) && HeaderAt(s, q, h, parse)
    ensures q <= |s| && p + 512 + ext.size <= |s|
  {}

  /** No header of those types is ever listed. */
  lemma {:induction false} OnlyMembersListed(s: seq<byte>, p: nat, long: seq<byte>, parse: Parser)
    requires p <= |s|
    ensures forall e :: e in Listing(s, p, long, parse) ==> e.header.typeflag !in ['x', 'g', 'L', 'K']
    decreases |s| - p
  {
    hide IsZero, Pad, LongName;
    if p + BLOCK <= |s| && !IsZero(s[p..p + BLOCK]) && parse(s[p..p + BLOCK]).Some? {
      var h := parse(s[p..p + BLOCK]).value;
      var next := p + BLOCK + h.size + Pad(h.size);
      if next <= |s| {
        OnlyMembersListed(
          s, next, if IsExtension(h.typeflag) then LongName(s[p + BLOCK..p + BLOCK + h.size]) else [], parse);
      }
    }
  }

  // ---- the scanner as a function of what is fed ----

  datatype Phase =
    | InHeader(hdr: seq<byte>)
    | InBody(left: nat, pad: nat)
    | InPad(pad: nat)

  datatype Scan = Scan(
    enabled: bool, done: bool, phase: Phase, pos: nat, entries: seq<Entry>,
    skip: bool, long: seq<byte>, capture: seq<byte>)

  const START := Scan(true, false, InHeader([]), 0, [], false, [], [])

  predicate Proper(c: Scan) {
    c.phase.InHeader? ==> |c.phase.hdr| < BLOCK
  }

  function AfterHeader(c: Scan, hdr: seq<byte>, parse: Parser): Scan {
    if IsZero(hdr) then c.(done := true)
    else
      var h := parse(hdr);
      if h.None? then c.(enabled := false)
      else
        var ext := IsExtension(h.value.typeflag);
        var name := if c.long != [] then c.long else h.value.name;
        c.(phase := InBody(h.value.size, Pad(h.value.size)), skip := ext, long := [],
           entries := if ext then c.entries else c.entries + [Entry(name, c.pos, h.value)])
  }

  function Finish(c: Scan): Scan {
    if !c.skip then c.(capture := [])
    else
      var named := StartsWith(c.capture, PATH) || (c.capture != [] && EQUALS !in c.capture);
      c.(capture := [], long := if named then LongName(c.capture) else c.long)
  }

  function Take(c: Scan, p: seq<byte>): nat
    requires Proper(c)
  {
    match c.phase
    case InHeader(hdr) => Min(BLOCK - |hdr|, |p|)
    case InBody(left, _) => Min(left, |p|)
    case InPad(pad) => Min(pad, |p|)
  }

  /** One turn of the walk. */
  function Turn(c: Scan, p: seq<byte>, parse: Parser): (d: Scan)
    requires Proper(c)
    ensures Proper(d)
  {
    var n := Take(c, p);
    var moved := c.(pos := c.pos + n);
    match c.phase
    case InHeader(hdr) =>
      if |hdr| + n < BLOCK then moved.(phase := InHeader(hdr + p[..n]))
      else AfterHeader(moved.(phase := InHeader([])), hdr + p[..n], parse)
    case InBody(left, pad) =>
      moved.(phase := if n == left then InPad(pad) else InBody(left - n, pad),
             capture := if c.skip then c.capture + p[..n] else c.capture)
    case InPad(pad) => if n == pad then Finish(moved.(phase := InHeader([]))) else moved.(phase := InPad(pad - n))
  }

  function Rank(phase: Phase): nat {
    if phase.InBody? then 2 else if phase.InPad? then 1 else 0
  }

  /** One call: it ends early at a zero block, and a later call goes on with a fresh header. */
  function Fed(c: Scan, p: seq<byte>, parse: Parser): (d: Scan)
    requires Proper(c)
    ensures Proper(d)
    decreases |p|, Rank(c.phase)
  {
    if p == [] || !c.enabled then c
    else
      var d := Turn(c, p, parse);
      if MetZero(c, p) then d else Fed(d, p[Take(c, p)..], parse)
  }

  /** The turn completes a block of zeros. */
  predicate MetZero(c: Scan, p: seq<byte>)
    requires Proper(c)
  {
    c.phase.InHeader? && |c.phase.hdr| + |p| >= BLOCK && IsZero(c.phase.hdr + p[..BLOCK - |c.phase.hdr|])
  }

  // ---- chunks ----

  lemma {:induction false} DoneStays(c: Scan, p: seq<byte>, parse: Parser)
    requires Proper(c) && c.done
    ensures Fed(c, p, parse).done
    decreases |p|, Rank(c.phase)
  {
    if p != [] && c.enabled && !MetZero(c, p) {
      DoneStays(Turn(c, p, parse), p[Take(c, p)..], parse);
    }
  }

  lemma FedStep(c: Scan, p: seq<byte>, parse: Parser)
    requires Proper(c) && p != [] && c.enabled
    ensures Fed(c, p, parse)
            == if MetZero(c, p) then Turn(c, p, parse) else Fed(Turn(c, p, parse), p[Take(c, p)..], parse)
  {}

  lemma ZeroIsDone(c: Scan, p: seq<byte>, parse: Parser)
    requires Proper(c) && MetZero(c, p)
    ensures Turn(c, p, parse).done
  {}

  lemma TakeLess(c: Scan, a: seq<byte>, b: seq<byte>, parse: Parser)
    requires Proper(c) && (Take(c, a) < |a| || Take(c, a + b) == Take(c, a))
    ensures Take(c, a + b) == Take(c, a) && Turn(c, a + b, parse) == Turn(c, a, parse)
    ensures MetZero(c, a + b) == MetZero(c, a)
  {
    assert (a + b)[..Take(c, a)] == a[..Take(c, a)];
  }

  /** A call that ends inside a phase: the next goes on in the same turn. */
  lemma TurnResumed(c: Scan, a: seq<byte>, b: seq<byte>, parse: Parser)
    requires Proper(c) && Take(c, a) == |a| < Take(c, a + b)
    ensures var d := Turn(c, a, parse);
            && Take(c, a + b) == |a| + Take(d, b) && Turn(c, a + b, parse) == Turn(d, b, parse)
            && MetZero(c, a + b) == MetZero(d, b) && d.enabled == c.enabled && !MetZero(c, a)
  {
    hide IsZero, Finish, AfterHeader;
    CutParts(a, b, Take(c, a + b));
    if c.phase.InHeader? {
      HeaderParts(c.phase.hdr, a, b, Take(c, a + b));
      if |c.phase.hdr| + |a + b| >= BLOCK {
        HeaderParts(c.phase.hdr, a, b, BLOCK - |c.phase.hdr|);
      }
    } else if c.phase.InBody? {
      HeaderParts(c.capture, a, b, Take(c, a + b));
    }
  }

  lemma CutParts(a: seq<byte>, b: seq<byte>, n: nat)
    requires |a| <= n <= |a + b|
    ensures (a + b)[..n] == a + b[..n - |a|] && a[..|a|] == a
  {}

  lemma HeaderParts(h: seq<byte>, a: seq<byte>, b: seq<byte>, n: nat)
    requires |a| <= n <= |a + b|
    ensures h + (a + b)[..n] == h + a + b[..n - |a|]
  {}

  /** Feeding on in a second call is feeding it all in one, unless the first has met the end of the
      archive. */
  lemma {:induction false} FedInTwo(c: Scan, a: seq<byte>, b: seq<byte>, parse: Parser)
    requires Proper(c) && !Fed(c, a, parse).done
    ensures Fed(Fed(c, a, parse), b, parse) == Fed(c, a + b, parse)
    decreases |a|, Rank(c.phase)
  {
    hide Fed, Turn, MetZero;
    if a == [] {
      FedNothing(c, parse);
      assert a + b == b;
    } else if !c.enabled {
      FedDisabled(c, a, parse);
      FedDisabled(c, b, parse);
      FedDisabled(c, a + b, parse);
    } else if b == [] {
      FedNothing(Fed(c, a, parse), parse);
      assert a + b == a;
    } else {
      FedStep(c, a, parse);
      FedStep(c, a + b, parse);
      var n := Take(c, a);
      var d := Turn(c, a, parse);
      if MetZero(c, a) {
        ZeroIsDone(c, a, parse);
        assert false;
      } else if n < |a| || Take(c, a + b) == n {
        TakeLess(c, a, b, parse);
        TurnRanks(c, a, parse);
        hide Take;
        FedInTwo(d, a[n..], b, parse);
        assert (a + b)[n..] == a[n..] + b;
      } else {
        TurnResumed(c, a, b, parse);
        FedNothing(d, parse);
        FedStep(d, b, parse);
        CutTails(a, b, Take(c, a + b));
        assert a[n..] == [];
        hide Take;
      }
    }
  }

  /** A call that meets the end of the archive stops there, whatever else it was given. */
  lemma {:induction false} EndsHere(c: Scan, a: seq<byte>, b: seq<byte>, parse: Parser)
    requires Proper(c) && !c.done && Fed(c, a, parse).done
    ensures Fed(c, a + b, parse) == Fed(c, a, parse)
    ensures Fed(c, a, parse).enabled && Fed(c, a, parse).phase == InHeader([])
    decreases |a|, Rank(c.phase)
  {
    hide Fed, Turn, MetZero;
    if a == [] {
      FedNothing(c, parse);
      assert false;
    } else if !c.enabled {
      FedDisabled(c, a, parse);
      assert false;
    } else {
      FedStep(c, a, parse);
      FedStep(c, a + b, parse);
      var n := Take(c, a);
      var d := Turn(c, a, parse);
      TurnDone(c, a, parse);
      if MetZero(c, a) {
        MetWhole(c, a, b);
        TakeLess(c, a, b, parse);
      } else if n < |a| {
        TakeLess(c, a, b, parse);
        TurnRanks(c, a, parse);
        hide Take;
        EndsHere(d, a[n..], b, parse);
        assert (a + b)[n..] == a[n..] + b;
      } else {
        assert a[n..] == [];
        FedNothing(d, parse);
        assert false;
      }
    }
  }

  lemma TurnDone(c: Scan, p: seq<byte>, parse: Parser)
    requires Proper(c) && c.enabled && !c.done
    ensures var d := Turn(c, p, parse);
            && (d.done <==> MetZero(c, p)) && (MetZero(c, p) ==> d.enabled && d.phase == InHeader([]))
  {
    hide IsZero, LongName;
  }

  lemma MetWhole(c: Scan, a: seq<byte>, b: seq<byte>)
    requires Proper(c) && MetZero(c, a)
    ensures Take(c, a + b) == Take(c, a)
  {
    hide IsZero;
  }

  lemma {:induction false} PosGrows(c: Scan, p: seq<byte>, parse: Parser)
    requires Proper(c)
    ensures Fed(c, p, parse).pos >= c.pos
    ensures p != [] && c.enabled && c.phase == InHeader([]) ==> Fed(c, p, parse).pos > c.pos
    decreases |p|, Rank(c.phase)
  {
    hide Fed, Turn, MetZero;
    if p == [] {
      FedNothing(c, parse);
    } else if !c.enabled {
      FedDisabled(c, p, parse);
    } else {
      FedStep(c, p, parse);
      TurnPos(c, p, parse);
      if !MetZero(c, p) {
        TurnRanks(c, p, parse);
        hide Take;
        PosGrows(Turn(c, p, parse), p[Take(c, p)..], parse);
      }
    }
  }

  lemma TurnPos(c: Scan, p: seq<byte>, parse: Parser)
    requires Proper(c)
    ensures Turn(c, p, parse).pos == c.pos + Take(c, p)
    ensures p != [] && c.phase == InHeader([]) ==> Take(c, p) > 0
  {
    hide IsZero, LongName;
  }

  /** Feeding on in a second call is feeding it all in one exactly when the first has not met the end of the
      archive, or there is nothing more. */
  lemma FedInTwoWhen(c: Scan, a: seq<byte>, b: seq<byte>, parse: Parser)
    requires Proper(c) && !c.done
    ensures Fed(Fed(c, a, parse), b, parse) == Fed(c, a + b, parse) <==> !Fed(c, a, parse).done || b == []
  {
    hide Fed, Proper;
    var d := Fed(c, a, parse);
    if !d.done {
      FedInTwo(c, a, b, parse);
    } else if b == [] {
      FedNothing(d, parse);
      assert a + b == a;
    } else {
      EndsHere(c, a, b, parse);
      PosGrows(d, b, parse);
    }
  }

  lemma CutTails(a: seq<byte>, b: seq<byte>, n: nat)
    requires |a| <= n <= |a + b|
    ensures (a + b)[n..] == b[n - |a|..]
  {}

  lemma FedNothing(c: Scan, parse: Parser)
    requires Proper(c)
    ensures Fed(c, [], parse) == c
  {}

  // ---- one call is the listing ----

  lemma PadListed(c: Scan, r: seq<byte>, parse: Parser)
    requires c.enabled && c.phase.InPad?
    ensures var pad := c.phase.pad;
            Fed(c, r, parse).entries
            == if |r| < pad then c.entries
               else Fed(PadTaken(c), r[pad..], parse).entries
  {
    PadTurn(c, r, parse);
    if r == [] {
      FedNothing(c, parse);
      FedNothing(PadTaken(c), parse);
    } else {
      FedStep(c, r, parse);
      FedNothing(Turn(c, r, parse), parse);
    }
    hide Fed, Turn, PadTaken;
  }

  lemma PadTurn(c: Scan, r: seq<byte>, parse: Parser)
    requires c.phase.InPad?
    ensures !MetZero(c, r) && Take(c, r) == Min(c.phase.pad, |r|) && PadTaken(c).entries == c.entries
    ensures |r| >= c.phase.pad ==> Turn(c, r, parse) == PadTaken(c)
    ensures |r| < c.phase.pad ==> Turn(c, r, parse).entries == c.entries && r[Take(c, r)..] == []
  {
    hide LongName;
  }

  function PadTaken(c: Scan): Scan
    requires c.phase.InPad?
  {
    Finish(c.(pos := c.pos + c.phase.pad, phase := InHeader([])))
  }

  /** Past a member's body and padding. */
  function Past(c: Scan, r: seq<byte>): Scan
    requires c.phase.InBody? && c.phase.left + c.phase.pad <= |r|
  {
    Finish(c.(pos := c.pos + c.phase.left + c.phase.pad, phase := InHeader([]),
              capture := if c.skip then c.capture + r[..c.phase.left] else c.capture))
  }

  lemma BodyListed(c: Scan, r: seq<byte>, parse: Parser)
    requires c.enabled && c.phase.InBody?
    ensures var end := c.phase.left + c.phase.pad;
            Fed(c, r, parse).entries
            == if |r| < end then c.entries else Fed(Past(c, r), r[end..], parse).entries
  {
    var size, pad := c.phase.left, c.phase.pad;
    if |r| < size {
      BodyCutShort(c, r, parse);
    } else {
      BodyThere(c, r, parse);
      var d := BodyTaken(c, r);
      assert d.enabled && d.phase == InPad(pad) && d.entries == c.entries;
      hide Fed, Past, PadTaken, BodyTaken;
      PadListed(d, r[size..], parse);
      if |r| >= size + pad {
        assert r[size..][pad..] == r[size + pad..];
        PastBody(c, r);
      }
    }
  }

  lemma BodyCutShort(c: Scan, r: seq<byte>, parse: Parser)
    requires c.enabled && c.phase.InBody? && |r| < c.phase.left
    ensures Fed(c, r, parse).entries == c.entries
  {
    BodyTurn(c, r, parse);
    if r == [] {
      FedNothing(c, parse);
    } else {
      FedStep(c, r, parse);
      FedNothing(Turn(c, r, parse), parse);
    }
    hide *;
  }

  lemma BodyThere(c: Scan, r: seq<byte>, parse: Parser)
    requires c.enabled && c.phase.InBody? && |r| >= c.phase.left
    ensures Fed(c, r, parse).entries == Fed(BodyTaken(c, r), r[c.phase.left..], parse).entries
  {
    BodyTurn(c, r, parse);
    if r == [] {
      FedNothing(c, parse);
      FedNothing(BodyTaken(c, r), parse);
    } else {
      FedStep(c, r, parse);
    }
    hide Fed, Turn;
  }

  /** What one turn makes of a body that has not begun. */
  function BodyTaken(c: Scan, r: seq<byte>): Scan
    requires c.phase.InBody? && c.phase.left <= |r|
  {
    c.(pos := c.pos + c.phase.left, phase := InPad(c.phase.pad),
       capture := if c.skip then c.capture + r[..c.phase.left] else c.capture)
  }

  lemma BodyTurn(c: Scan, r: seq<byte>, parse: Parser)
    requires c.phase.InBody?
    ensures !MetZero(c, r) && Take(c, r) == Min(c.phase.left, |r|)
    ensures |r| >= c.phase.left ==> Turn(c, r, parse) == BodyTaken(c, r)
    ensures |r| < c.phase.left ==> Turn(c, r, parse).entries == c.entries && r[Take(c, r)..] == []
  {}

  lemma PastBody(c: Scan, r: seq<byte>)
    requires c.phase.InBody? && c.phase.left + c.phase.pad <= |r|
    ensures PadTaken(BodyTaken(c, r)) == Past(c, r)
  {
    hide Finish;
  }

  lemma Names(c: Scan, r: seq<byte>)
    requires c.phase.InBody? && c.phase.left + c.phase.pad <= |r| && c.capture == [] && c.long == []
    ensures var d := Past(c, r);
            && d.capture == [] && d.entries == c.entries && d.enabled == c.enabled && d.phase == InHeader([])
            && d.long == (if c.skip then LongName(r[..c.phase.left]) else [])
            && d.pos == c.pos + c.phase.left + c.phase.pad
  {
    assert [] + r[..c.phase.left] == r[..c.phase.left];
    hide PaxValue, StartsWith;
  }

  lemma HeaderListed(c: Scan, r: seq<byte>, parse: Parser)
    requires c.enabled && c.phase == InHeader([]) && |r| >= BLOCK
    ensures Fed(c, r, parse).entries
            == if IsZero(r[..BLOCK]) || parse(r[..BLOCK]).None? then c.entries
               else Fed(AfterHeader(c.(pos := c.pos + BLOCK), r[..BLOCK], parse), r[BLOCK..], parse).entries
  {
    FedStep(c, r, parse);
    hide Fed, IsZero, AfterHeader;
    HeaderTurned(c, r, parse);
    hide Turn, MetZero;
    HeaderRefused(c.(pos := c.pos + BLOCK), r[..BLOCK], parse);
    var d := AfterHeader(c.(pos := c.pos + BLOCK), r[..BLOCK], parse);
    if !d.enabled {
      FedDisabled(d, r[BLOCK..], parse);
    }
  }

  lemma HeaderTurned(c: Scan, r: seq<byte>, parse: Parser)
    requires c.phase == InHeader([]) && |r| >= BLOCK
    ensures Take(c, r) == BLOCK && MetZero(c, r) == IsZero(r[..BLOCK])
    ensures Turn(c, r, parse) == AfterHeader(c.(pos := c.pos + BLOCK), r[..BLOCK], parse)
  {
    assert [] + r[..BLOCK] == r[..BLOCK];
    hide IsZero, AfterHeader;
  }

  lemma HeaderRefused(c: Scan, hdr: seq<byte>, parse: Parser)
    requires c.enabled
    ensures var d := AfterHeader(c, hdr, parse);
            && (IsZero(hdr) || parse(hdr).None? ==> d.entries == c.entries)
            && (d.enabled <==> IsZero(hdr) || parse(hdr).Some?)
  {
    hide IsZero;
  }

  lemma FedDisabled(c: Scan, p: seq<byte>, parse: Parser)
    requires Proper(c) && !c.enabled
    ensures Fed(c, p, parse) == c
  {}

  /** Feeding the rest of a stream in one call, from a member's header on, records the listing of it. */
  lemma {:induction false} FedIsListing(c: Scan, s: seq<byte>, p: nat, parse: Parser)
    requires p <= |s| && c.enabled && c.phase == InHeader([]) && c.pos == p && c.capture == []
    ensures Fed(c, s[p..], parse).entries == c.entries + Listing(s, p, c.long, parse)
    decreases |s| - p
  {
    var r := s[p..];
    if |r| < BLOCK {
      if r == [] {
        FedNothing(c, parse);
      } else {
        FedStep(c, r, parse);
        FedNothing(Turn(c, r, parse), parse);
      }
    } else {
      HeaderListed(c, r, parse);
      assert r[..BLOCK] == s[p..p + BLOCK];
      if !IsZero(r[..BLOCK]) && parse(r[..BLOCK]).Some? {
        MemberListed(c, s, p, parse);
      }
    }
  }

  lemma {:induction false} MemberListed(c: Scan, s: seq<byte>, p: nat, parse: Parser)
    requires p + BLOCK <= |s| && c.enabled && c.phase == InHeader([]) && c.pos == p && c.capture == []
    requires !IsZero(s[p..p + BLOCK]) && parse(s[p..p + BLOCK]).Some?
    ensures Fed(AfterHeader(c.(pos := p + BLOCK), s[p..p + BLOCK], parse), s[p + BLOCK..], parse).entries
            == c.entries + Listing(s, p, c.long, parse)
    decreases |s| - p, 0
  {
    hide Fed, Past, LongName, IsZero, AfterHeader, Listing, Mine, Pad, IsExtension;
    var hdr, rest := s[p..p + BLOCK], s[p + BLOCK..];
    var d := AfterHeader(c.(pos := p + BLOCK), hdr, parse);
    MemberShape(c, hdr, p, parse);
    ListingStep(s, p, c.long, parse);
    BodyListed(d, rest, parse);
    var size := d.phase.left;
    var end := size + d.phase.pad;
    if end <= |rest| {
      Names(d, rest);
      assert rest[end..] == s[p + BLOCK + end..] && rest[..size] == s[p + BLOCK..p + BLOCK + size];
      FedIsListing(Past(d, rest), s, p + BLOCK + end, parse);
    }
  }

  /** The entry a header adds. */
  function Mine(h: Header, p: nat, long: seq<byte>): seq<Entry> {
    if IsExtension(h.typeflag) then [] else [Entry(if long != [] then long else h.name, p + BLOCK, h)]
  }

  lemma MemberShape(c: Scan, hdr: seq<byte>, p: nat, parse: Parser)
    requires !IsZero(hdr) && parse(hdr).Some?
    ensures var h, d := parse(hdr).value, AfterHeader(c.(pos := p + BLOCK), hdr, parse);
            && d.phase == InBody(h.size, Pad(h.size)) && d.skip == IsExtension(h.typeflag) && d.long == []
            && d.capture == c.capture && d.enabled == c.enabled && d.pos == p + BLOCK
            && d.entries == c.entries + Mine(h, p, c.long)
  {
    hide IsZero;
    assert c.entries + [] == c.entries;
  }

  lemma ListingStep(s: seq<byte>, p: nat, long: seq<byte>, parse: Parser)
    requires p + BLOCK <= |s| && !IsZero(s[p..p + BLOCK]) && parse(s[p..p + BLOCK]).Some?
    ensures var h, body := parse(s[p..p + BLOCK]).value, p + BLOCK;
            var next := body + h.size + Pad(h.size);
            Listing(s, p, long, parse)
            == if next > |s| then Mine(h, p, long)
               else Mine(h, p, long)
                    + Listing(s, next, if IsExtension(h.typeflag) then LongName(s[body..body + h.size]) else [], parse)
  {
    hide IsZero, LongName;
  }

  /** The entry's body starts where its header, read from the stream, ends. */
  ghost predicate Placed(s: seq<byte>, p: nat, e: Entry, parse: Parser) {
    p + BLOCK <= e.outOff <= |s| && parse(s[e.outOff - BLOCK..e.outOff]) == Some(e.header)
  }

  /** The next header comes no earlier than this entry's body ends, rounded up to a whole block. */
  ghost predicate Before(e: Entry, f: Entry) {
    e.outOff + e.header.size + Pad(e.header.size) + BLOCK <= f.outOff
  }

  /** Entries from p on, each in its place, and in order. */
  ghost predicate InPlace(s: seq<byte>, p: nat, es: seq<Entry>, parse: Parser) {
    && (forall e :: e in es ==> Placed(s, p, e, parse))
    && forall i, j :: 0 <= i < j < |es| ==> Before(es[i], es[j])
  }

  lemma {:induction false} ListingPlaces(s: seq<byte>, p: nat, long: seq<byte>, parse: Parser)
    requires p <= |s|
    ensures InPlace(s, p, Listing(s, p, long, parse), parse)
    decreases |s| - p
  {
    hide IsZero, Listing, Pad, LongName, InPlace, Mine;
    if p + BLOCK > |s| || IsZero(s[p..p + BLOCK]) || parse(s[p..p + BLOCK]).None? {
      NoneInPlace(s, p, long, parse);
    } else {
      ListingStep(s, p, long, parse);
      var h := parse(s[p..p + BLOCK]).value;
      var next := p + BLOCK + h.size + Pad(h.size);
      if next <= |s| {
        var given := if IsExtension(h.typeflag) then LongName(s[p + BLOCK..p + BLOCK + h.size]) else [];
        ListingPlaces(s, next, given, parse);
        MinePlaced(s, p, long, Listing(s, next, given, parse), parse);
      } else {
        OneInPlace(s, p, long, parse);
      }
    }
  }

  lemma NoneInPlace(s: seq<byte>, p: nat, long: seq<byte>, parse: Parser)
    requires p <= |s| && (p + BLOCK > |s| || IsZero(s[p..p + BLOCK]) || parse(s[p..p + BLOCK]).None?)
    ensures InPlace(s, p, Listing(s, p, long, parse), parse)
  {
    hide IsZero;
  }

  lemma OneInPlace(s: seq<byte>, p: nat, long: seq<byte>, parse: Parser)
    requires p + BLOCK <= |s| && parse(s[p..p + BLOCK]).Some?
    ensures InPlace(s, p, Mine(parse(s[p..p + BLOCK]).value, p, long), parse)
  {
    MinePlaced(s, p, long, [], parse);
    var mine := Mine(parse(s[p..p + BLOCK]).value, p, long);
    assert mine + [] == mine;
  }

  lemma MinePlaced(s: seq<byte>, p: nat, long: seq<byte>, es: seq<Entry>, parse: Parser)
    requires p + BLOCK <= |s| && parse(s[p..p + BLOCK]).Some?
    requires var h := parse(s[p..p + BLOCK]).value;
             InPlace(s, p + BLOCK + h.size + Pad(h.size), es, parse)
    ensures InPlace(s, p, Mine(parse(s[p..p + BLOCK]).value, p, long) + es, parse)
  {
    hide Pad;
    var h := parse(s[p..p + BLOCK]).value;
    var mine := Mine(h, p, long);
    var fs := mine + es;
    forall i, j | 0 <= i < j < |fs|
      ensures Before(fs[i], fs[j])
    {
      if i < |mine| {
        assert fs[j] == es[j - |mine|] && fs[j] in es;
      }
    }
  }

  // ---- any chunks ----

  function FedAll(c: Scan, chunks: seq<seq<byte>>, parse: Parser): (d: Scan)
    requires Proper(c)
    ensures Proper(d)
  {
    if chunks == [] then c else Fed(FedAll(c, chunks[..|chunks| - 1], parse), chunks[|chunks| - 1], parse)
  }

  /** However a stream is cut into chunks, up to the one that completes its first zero block, the entries
      are the listing of the whole. */
  lemma {:induction false} ChunksDoNotMatter(chunks: seq<seq<byte>>, parse: Parser)
    requires chunks != [] ==> !FedAll(START, chunks[..|chunks| - 1], parse).done
    ensures FedAll(START, chunks, parse) == Fed(START, Flatten(chunks), parse)
    ensures FedAll(START, chunks, parse).entries == Listing(Flatten(chunks), 0, [], parse)
  {
    if chunks != [] {
      var n := |chunks| - 1;
      var front := chunks[..n];
      if front != [] && FedAll(START, front[..n - 1], parse).done {
        DoneStays(FedAll(START, front[..n - 1], parse), front[n - 1], parse);
        assert false;
      }
      ChunksDoNotMatter(front, parse);
      FedInTwo(START, Flatten(front), chunks[n], parse);
    }
    FedIsListing(START, Flatten(chunks), 0, parse);
    assert Flatten(chunks)[0..] == Flatten(chunks);
  }

  /** No chunk that holds anything comes after one that met the end of the archive. */
  predicate EndsLast(chunks: seq<seq<byte>>, parse: Parser) {
    chunks == []
    || (EndsLast(chunks[..|chunks| - 1], parse)
        && (FedAll(START, chunks[..|chunks| - 1], parse).done ==> chunks[|chunks| - 1] == []))
  }

  /** Over any chunks, the state they leave is that of one call exactly when none that holds anything comes
      after the end of the archive. */
  lemma {:induction false} ChunksDoNotMatterWhen(chunks: seq<seq<byte>>, parse: Parser)
    ensures FedAll(START, chunks, parse) == Fed(START, Flatten(chunks), parse) <==> EndsLast(chunks, parse)
    ensures !EndsLast(chunks, parse) ==>
      Fed(START, Flatten(chunks), parse).done
      && FedAll(START, chunks, parse).pos > Fed(START, Flatten(chunks), parse).pos
  {
    hide Fed;
    if chunks == [] {
      FedNothing(START, parse);
    } else {
      var n := |chunks| - 1;
      var front, last := chunks[..n], chunks[n];
      ChunksDoNotMatterWhen(front, parse);
      var one, many := Fed(START, Flatten(front), parse), FedAll(START, front, parse);
      PosGrows(many, last, parse);
      if one.done {
        EndsHere(START, Flatten(front), last, parse);
        FedNothing(many, parse);
      } else {
        FedInTwo(START, Flatten(front), last, parse);
      }
    }
  }

  /** Past a zero block it does matter: a header in the same chunk is passed over, and one in the next chunk
      is recorded. */
  lemma PastTheEnd(zero: seq<byte>, hdr: seq<byte>, parse: Parser)
    requires |zero| == |hdr| == BLOCK && IsZero(zero) && !IsZero(hdr)
    requires parse(hdr).Some? && !IsExtension(parse(hdr).value.typeflag)
    ensures FedAll(START, [zero + hdr], parse).entries == []
    ensures |FedAll(START, [zero, hdr], parse).entries| == 1
  {
    assert [zero, hdr][..1] == [zero] && [zero][..0] == [] && [zero + hdr][..0] == [];
    assert [] + (zero + hdr)[..BLOCK] == zero && [] + zero[..BLOCK] == zero && [] + hdr[..BLOCK] == hdr;
    var d := Turn(START, zero, parse);
    var e := Turn(d, hdr, parse);
    hide IsZero;
    FedStep(START, zero + hdr, parse);
    FedStep(START, zero, parse);
    FedStep(d, hdr, parse);
    assert hdr[BLOCK..] == [];
    FedNothing(e, parse);
    hide Fed;
    assert FedAll(START, [], parse) == START;
    assert FedAll(START, [zero], parse) == d;
  }

  // ---- the scanner in place ----

  class DirScanner {
    var enabled: bool
    var entries: seq<Entry>
    var pos: nat
    var state: nat
    var remain: nat
    var padRem: nat
    var hdr: seq<byte>
    var done: bool
    var skipEntry: bool
    var gnuLong: seq<byte>
    var capture: seq<byte>

    constructor ()
      ensures Valid() && State() == START
    {
      enabled, done, state, pos, entries := true, false, 0, 0, [];
      remain, padRem, hdr, skipEntry, gnuLong, capture := 0, 0, [], false, [], [];
    }

    ghost predicate Valid()
      reads this
    {
      state <= 2 && |hdr| < BLOCK && (state != 0 ==> hdr == [])
    }

    ghost function State(): (c: Scan)
      reads this
      requires Valid()
      ensures Proper(c)
    {
      var phase := if state == 0 then InHeader(hdr) else if state == 1 then InBody(remain, padRem) else InPad(padRem);
      Scan(enabled, done, phase, pos, entries, skipEntry, gnuLong, capture)
    }

    method HeaderTurn(p: seq<byte>, parse: Parser) returns (n: nat, zero: bool)
      requires Valid() && p != [] && enabled && state == 0
      modifies this
      ensures Valid() && n == Take(old(State()), p) && State() == Turn(old(State()), p, parse)
      ensures zero == MetZero(old(State()), p)
    {
      zero := false;
      n := Min(BLOCK - |hdr|, |p|);
      hide IsZero, AfterHeader;
      hdr := hdr + p[..n];
      pos := pos + n;
      if |hdr| < BLOCK {
        return;
      }
      var block := hdr;
      hdr := [];
      zero := WholeHeader(block, parse);
    }

    method WholeHeader(block: seq<byte>, parse: Parser) returns (zero: bool)
      requires Valid() && enabled && state == 0 && hdr == []
      modifies this
      ensures Valid() && State() == AfterHeader(old(State()), block, parse) && zero == IsZero(block)
    {
      hide IsZero;
      zero := IsZero(block);
      if zero {
        done := true;
        return;
      }
      var h := parse(block);
      if h.None? {
        enabled := false;
        return;
      }
      remain, padRem, state := h.value.size, Pad(h.value.size), 1;
      skipEntry := IsExtension(h.value.typeflag);
      var cur := h.value.name;
      if gnuLong != [] {
        cur := gnuLong;
        gnuLong := [];
      }
      if !skipEntry {
        entries := entries + [Entry(cur, pos, h.value)];
      }
    }

    method FinishHeader()
      requires Valid() && state == 0 && hdr == []
      modifies this`gnuLong, this`capture
      ensures Valid() && State() == Finish(old(State()))
    {
      if !skipEntry {
        capture := [];
        return;
      }
      hide StartsWith, PaxValue, WithoutZeros;
      if StartsWith(capture, PATH) {
        gnuLong := PaxValue(capture);
      } else if |capture| > 0 && EQUALS !in capture {
        gnuLong := WithoutZeros(capture);
      }
      capture := [];
    }

    method BodyTurn(p: seq<byte>, ghost parse: Parser) returns (n: nat)
      requires Valid() && state > 0
      modifies this
      ensures Valid() && n == Take(old(State()), p) && State() == Turn(old(State()), p, parse)
    {
      if state == 1 {
        n := Min(remain, |p|);
        if skipEntry {
          capture := capture + p[..n];
        }
        remain, pos := remain - n, pos + n;
        if remain == 0 {
          state := 2;
        }
      } else {
        n := Min(padRem, |p|);
        padRem, pos := padRem - n, pos + n;
        if padRem == 0 {
          state := 0;
          FinishHeader();
        }
      }
      hide Finish;
    }

    /** Walks over one chunk of the stream. */
    method Feed(p: seq<byte>, parse: Parser)
      requires Valid()
      modifies this
      ensures Valid() && State() == Fed(old(State()), p, parse)
    {
      var rest := p;
      hide Fed, Turn, MetZero;
      while rest != [] && enabled
        invariant Valid() && Fed(State(), rest, parse) == Fed(old(State()), p, parse)
        decreases |rest|, Rank(State().phase)
      {
        ghost var c := State();
        FedStep(c, rest, parse);
        TurnRanks(c, rest, parse);
        var n: nat;
        if state == 0 {
          var zero;
          n, zero := HeaderTurn(rest, parse);
          if zero {
            return;
          }
        } else {
          n := BodyTurn(rest, parse);
        }
        rest := rest[n..];
      }
      FedStops(State(), rest, parse);
    }
  }

  lemma FedStops(c: Scan, p: seq<byte>, parse: Parser)
    requires Proper(c) && (p == [] || !c.enabled)
    ensures Fed(c, p, parse) == c
  {}

  lemma TurnRanks(c: Scan, p: seq<byte>, parse: Parser)
    requires Proper(c) && p != []
    ensures Take(c, p) > 0 || Rank(Turn(c, p, parse).phase) < Rank(c.phase)
    ensures !c.phase.InHeader? ==> !MetZero(c, p)
  {}
}
