/** Capturing the headers of a tar member that is itself a tar, chunk by chunk, while file bodies become
    holes. */
module Captures {
  import opened Bits
  import opened TarStreams
  import opened Replays

  // ---- the capture as a function of what is fed ----

  /** Where in a member of the nested tar the capture is. */
  datatype Phase =
    | InHeader(hdr: seq<byte>)
    | InBody(size: nat, left: nat, pad: nat)
    | InPad(pad: nat)
    | InFile(left: nat)
    | Ended
    | Aborted

  /** With what a replay of the capture would read. */
  datatype Captured = Captured(phase: Phase, out: seq<byte>)

  const START := Captured(InHeader([]), [])

  const SPACE_SIZE: seq<byte> := [32, 115, 105, 122, 101, 61]
  const SPARSE: seq<byte> := [71, 78, 85, 46, 115, 112, 97, 114, 115, 101, 46]

  /** An extension that may say the size or layout of a body is another: " size=", "size=", "GNU.sparse.". */
  predicate Overrides(body: seq<byte>) {
    Contains(body, SPACE_SIZE) || StartsWith(body, SPACE_SIZE[1..]) || Contains(body, SPARSE)
  }

  predicate Proper(c: Captured) {
    && (c.phase.InHeader? ==> |c.phase.hdr| < BLOCK)
    && (c.phase.InBody? ==> c.phase.left <= c.phase.size)
  }

  /** How a full header block goes on. */
  function AfterHeader(hdr: seq<byte>, out: seq<byte>, parse: Parser): Captured {
    if IsZero(hdr) then Captured(Ended, out + hdr)
    else
      var h := parse(hdr);
      if h.None? then Captured(Aborted, [])
      else if IsExtension(h.value.typeflag) then
        Captured(InBody(h.value.size, h.value.size, Pad(h.value.size)), out + hdr)
      else if h.value.typeflag == 'S' then Captured(Aborted, [])
      else
        var hole := h.value.size + Pad(h.value.size);
        Captured(InFile(hole), out + (hdr + Zeros(hole)))
  }

  function AfterBody(phase: Phase, body: seq<byte>, out: seq<byte>): Captured
    requires phase.InBody? && |body| <= phase.left
  {
    if body != [] && Overrides(body) then Captured(Aborted, [])
    else
      Captured(if |body| == phase.left then InPad(phase.pad) else phase.(left := phase.left - |body|),
               if body == [] then out else out + (body + Zeros(phase.pad)))
  }

  /** Takes the bytes that belong to the phase the capture is in. */
  function Take(c: Captured, p: seq<byte>): nat
    requires Proper(c)
  {
    match c.phase
    case InHeader(hdr) => Min(BLOCK - |hdr|, |p|)
    case InBody(_, left, _) => Min(left, |p|)
    case InPad(pad) => Min(pad, |p|)
    case InFile(left) => Min(left, |p|)
    case _ => 0
  }

  /** One turn of the walk. */
  function Turn(c: Captured, p: seq<byte>, parse: Parser): (d: Captured)
    requires Proper(c)
    ensures Proper(d)
  {
    var n := Take(c, p);
    match c.phase
    case InHeader(hdr) =>
      if |hdr| + n < BLOCK then c.(phase := InHeader(hdr + p[..n])) else AfterHeader(hdr + p[..n], c.out, parse)
    case InBody(_, _, _) => AfterBody(c.phase, p[..n], c.out)
    case InPad(pad) => c.(phase := if n == pad then InHeader([]) else InPad(pad - n))
    case InFile(left) => c.(phase := if n == left then InHeader([]) else InFile(left - n))
    case _ => c
  }

  function Rank(phase: Phase): nat {
    if phase.InBody? then 2 else if phase.InHeader? then 0 else 1
  }

  function Fed(c: Captured, p: seq<byte>, parse: Parser): (d: Captured)
    requires Proper(c)
    ensures Proper(d)
    decreases |p|, Rank(c.phase)
  {
    if p == [] || c.phase.Ended? || c.phase.Aborted? then c
    else Fed(Turn(c, p, parse), p[Take(c, p)..], parse)
  }

  // ---- the tar stream with its file bodies blanked ----

  /** A member with its body and padding zeroed, but for the body of an extension; None if it cannot be
      captured or is not all there. */
  function MemberBlanked(hdr: seq<byte>, rest: seq<byte>, parse: Parser): (b: Option<seq<byte>>)
    ensures b.Some? ==> |hdr| <= |b.value| <= |hdr| + |rest|
  {
    var h := parse(hdr);
    if h.None? || |rest| < h.value.size + Pad(h.value.size) then None
    else if IsExtension(h.value.typeflag) then
      var body := rest[..h.value.size];
      if Overrides(body) then None else Some(hdr + (body + Zeros(Pad(h.value.size))))
    else if h.value.typeflag == 'S' then None
    else Some(hdr + Zeros(h.value.size + Pad(h.value.size)))
  }

  /** A whole tar stream, up to and including its first zero block, with the file bodies and all padding
      zeroed; None if there is no such block or if a member cannot be captured. */
  function Blanked(s: seq<byte>, parse: Parser): Option<seq<byte>>
    decreases |s|
  {
    if |s| < BLOCK then None
    else if IsZero(s[..BLOCK]) then Some(s[..BLOCK])
    else
      var member := MemberBlanked(s[..BLOCK], s[BLOCK..], parse);
      if member.None? then None else Join(member.value, Blanked(s[|member.value|..], parse))
  }

  function Join(a: seq<byte>, b: Option<seq<byte>>): Option<seq<byte>> {
    if b.None? then None else Some(a + b.value)
  }

  lemma MemberKeepsPlaces(hdr: seq<byte>, rest: seq<byte>, parse: Parser)
    requires MemberBlanked(hdr, rest, parse).Some?
    ensures var b := MemberBlanked(hdr, rest, parse).value;
            && b[..|hdr|] == hdr
            && forall i :: 0 <= i < |b| ==> b[i] == (hdr + rest)[i] || b[i] == 0
  {
    hide Overrides, Pad;
  }

  /** Blanking changes no byte but to zero, moves none, and keeps the headers. */
  lemma {:induction false} BlankedKeepsPlaces(s: seq<byte>, parse: Parser)
    requires Blanked(s, parse).Some?
    ensures var b := Blanked(s, parse).value;
            && BLOCK <= |b| <= |s| && b[..BLOCK] == s[..BLOCK]
            && forall i :: 0 <= i < |b| ==> b[i] == s[i] || b[i] == 0
    decreases |s|
  {
    hide MemberBlanked, IsZero;
    if !IsZero(s[..BLOCK]) {
      MemberKeepsPlaces(s[..BLOCK], s[BLOCK..], parse);
      assert s[..BLOCK] + s[BLOCK..] == s;
      var m := MemberBlanked(s[..BLOCK], s[BLOCK..], parse).value;
      BlankedKeepsPlaces(s[|m|..], parse);
      assert (m + Blanked(s[|m|..], parse).value)[..BLOCK] == m[..BLOCK];
    }
  }

  /** It says " size=" or "GNU.sparse." anywhere, or begins with "size=". */
  ghost predicate SaysSize(body: seq<byte>) {
    || (exists i: nat :: ThereIn(body, [32, 115, 105, 122, 101, 61], i))
    || ThereIn(body, [115, 105, 122, 101, 61], 0)
    || exists i: nat :: ThereIn(body, [71, 78, 85, 46, 115, 112, 97, 114, 115, 101, 46], i)
  }

  lemma OverridesWhen(body: seq<byte>)
    ensures Overrides(body) <==> SaysSize(body)
  {
    ContainsWhen(body, [32, 115, 105, 122, 101, 61]);
    ContainsWhen(body, [71, 78, 85, 46, 115, 112, 97, 114, 115, 101, 46]);
    assert SPACE_SIZE[1..] == [115, 105, 122, 101, 61];
    hide Contains;
  }

  /** What is kept of a member: an extension's header and body, unless the body may say a size; nothing of a sparse
      file, with which a stream cannot be captured; of any other only the header. */
  ghost function Kept(hdr: seq<byte>, body: seq<byte>, typeflag: char, pad: nat): (k: Option<seq<byte>>)
    ensures k.Some? ==> |k.value| == |hdr| + |body| + pad
  {
    if typeflag in ['x', 'g', 'L', 'K'] then
      if SaysSize(body) then None else Some(hdr + (body + seq(pad, _ => 0)))
    else if typeflag == 'S' then None
    else Some(hdr + seq(|body| + pad, _ => 0))
  }

  lemma MemberIs(hdr: seq<byte>, rest: seq<byte>, parse: Parser, h: Header)
    requires parse(hdr) == Some(h)
    ensures |rest| < h.size + Pad(h.size) ==> MemberBlanked(hdr, rest, parse) == None
    ensures h.size + Pad(h.size) <= |rest| ==>
      MemberBlanked(hdr, rest, parse) == Kept(hdr, rest[..h.size], h.typeflag, Pad(h.size))
  {
    hide Pad, Overrides, SaysSize;
    if h.size + Pad(h.size) <= |rest| {
      OverridesWhen(rest[..h.size]);
      ZerosAre(Pad(h.size));
      ZerosAre(h.size + Pad(h.size));
    }
  }

  /** A stream is captured member by member, each for itself. */
  lemma FirstBlanked(s: seq<byte>, parse: Parser, h: Header, q: nat)
    requires HeaderAt(s, 0, h, parse) && NextAt(0, h.size, q)
    ensures q > |s| ==> Blanked(s, parse) == None
    ensures q <= |s| ==>
      var k := Kept(s[..512], s[512..512 + h.size], h.typeflag, q - 512 - h.size);
      Blanked(s, parse) == if k.None? then None else Join(k.value, Blanked(s[q..], parse))
  {
    hide Pad, IsZero, Kept, MemberBlanked, Blanked;
    HeaderThere(s, 0, h, parse);
    NextIs(0, h.size, q);
    MemberIs(s[..BLOCK], s[BLOCK..], parse, h);
    BlankedStep(s, parse, h);
    if q <= |s| {
      assert s[512..512 + h.size] == s[BLOCK..][..h.size];
    }
  }

  lemma ZerosAre(n: nat)
    ensures Zeros(n) == seq(n, _ => 0)
  {}

  lemma BlankedStep(s: seq<byte>, parse: Parser, h: Header)
    requires |s| >= BLOCK && !IsZero(s[..BLOCK]) && parse(s[..BLOCK]) == Some(h)
    ensures var m := MemberBlanked(s[..BLOCK], s[BLOCK..], parse);
            Blanked(s, parse) == if m.None? then None else Join(m.value, Blanked(s[|m.value|..], parse))
  {
    hide IsZero, MemberBlanked;
  }

  // ---- chunks ----

  /** Some of an extension's body has come, but not all of it. */
  predicate MidBody(c: Captured) {
    c.phase.InBody? && 0 < c.phase.left < c.phase.size
  }

  /** Feeding on in a second call is feeding it all in one, unless the cut is in an extension's body. */
  lemma {:induction false} FedInTwo(c: Captured, a: seq<byte>, b: seq<byte>, parse: Parser)
    requires Proper(c) && !MidBody(Fed(c, a, parse))
    ensures Fed(Fed(c, a, parse), b, parse) == Fed(c, a + b, parse)
    decreases |a|, Rank(c.phase)
  {
    if a == [] {
      assert a + b == b;
    } else if c.phase.Ended? || c.phase.Aborted? {
    } else {
      var n := Take(c, a);
      if n < |a| {
        TakeLess(c, a, b);
        TurnPrefix(c, a, b, parse);
        FedInTwo(Turn(c, a, parse), a[n..], b, parse);
        assert (a + b)[n..] == a[n..] + b;
      } else if b == [] {
        assert a + b == a;
      } else {
        TurnEnds(c, a, b, parse);
      }
    }
  }

  lemma TurnPrefix(c: Captured, a: seq<byte>, b: seq<byte>, parse: Parser)
    requires Proper(c) && Take(c, a + b) == Take(c, a)
    ensures Turn(c, a + b, parse) == Turn(c, a, parse)
  {
    assert (a + b)[..Take(c, a)] == a[..Take(c, a)];
  }

  lemma TakeLess(c: Captured, a: seq<byte>, b: seq<byte>)
    requires Proper(c) && Take(c, a) < |a|
    ensures Take(c, a + b) == Take(c, a)
  {}

  /** A call that ends inside a phase other than an extension's body: the next goes on in the same turn. */
  lemma TurnResumed(c: Captured, a: seq<byte>, b: seq<byte>, parse: Parser)
    requires Proper(c) && Take(c, a) == |a| < Take(c, a + b) && !c.phase.InBody?
    ensures var d := Turn(c, a, parse);
            Take(c, a + b) == |a| + Take(d, b) && Turn(c, a + b, parse) == Turn(d, b, parse)
  {
    var d := Turn(c, a, parse);
    assert a[..|a|] == a;
    var n := Take(c, a + b);
    assert (a + b)[..n] == a + b[..n - |a|];
    if c.phase.InHeader? {
      assert c.phase.hdr + a + b[..n - |a|] == c.phase.hdr + (a + b[..n - |a|]);
    }
  }

  lemma {:induction false} ContainsMore(s: seq<byte>, more: seq<byte>, t: seq<byte>)
    requires Contains(s, t)
    ensures Contains(s + more, t)
  {
    if StartsWith(s, t) {
      assert (s + more)[..|t|] == s[..|t|];
    } else {
      ContainsMore(s[1..], more, t);
      assert (s + more)[1..] == s[1..] + more;
    }
  }

  lemma OverridesMore(s: seq<byte>, more: seq<byte>)
    requires Overrides(s)
    ensures Overrides(s + more)
  {
    if Contains(s, SPACE_SIZE) {
      ContainsMore(s, more, SPACE_SIZE);
    } else if Contains(s, SPARSE) {
      ContainsMore(s, more, SPARSE);
    } else {
      assert (s + more)[..5] == s[..5];
    }
  }

  lemma TurnEnds(c: Captured, a: seq<byte>, b: seq<byte>, parse: Parser)
    requires Proper(c) && a != [] && b != [] && Take(c, a) == |a|
    requires !c.phase.Ended? && !c.phase.Aborted? && !MidBody(Turn(c, a, parse))
    ensures Fed(Turn(c, a, parse), b, parse) == Fed(c, a + b, parse)
  {
    hide Fed, Turn, IsZero, Overrides, MidBody;
    if Take(c, a + b) == |a| {
      TurnPrefix(c, a, b, parse);
      FedStep(c, a + b, parse);
      assert (a + b)[|a|..] == b;
    } else if c.phase.InBody? {
      BodyCut(c, a, b, parse);
    } else {
      TurnResumed(c, a, b, parse);
      StillGoing(c, a, b, parse);
      var d := Turn(c, a, parse);
      FedStep(c, a + b, parse);
      FedStep(d, b, parse);
      assert (a + b)[Take(c, a + b)..] == b[Take(d, b)..];
    }
  }

  lemma FedStep(c: Captured, p: seq<byte>, parse: Parser)
    requires Proper(c) && p != [] && !c.phase.Ended? && !c.phase.Aborted?
    ensures Fed(c, p, parse) == Fed(Turn(c, p, parse), p[Take(c, p)..], parse)
  {}

  lemma StillGoing(c: Captured, a: seq<byte>, b: seq<byte>, parse: Parser)
    requires Proper(c) && Take(c, a) == |a| < Take(c, a + b) && !c.phase.InBody?
    ensures var d := Turn(c, a, parse); !d.phase.Ended? && !d.phase.Aborted?
  {}

  /** The body so far has already ruled the capture out; with more of it, it still does. */
  lemma BodyCut(c: Captured, a: seq<byte>, b: seq<byte>, parse: Parser)
    requires Proper(c) && c.phase.InBody? && Take(c, a) == |a| < Take(c, a + b) && a != []
    requires !MidBody(Turn(c, a, parse))
    ensures Fed(Turn(c, a, parse), b, parse) == Fed(c, a + b, parse)
  {
    var n := Take(c, a + b);
    assert a[..|a|] == a && (a + b)[..n] == a + b[..n - |a|];
    hide Overrides;
    assert Overrides(a);
    OverridesMore(a, b[..n - |a|]);
    FedStep(c, a + b, parse);
  }

  /** A cut between two parts of an extension's body that does no harm: the first part rules the capture
      out, or the second does and so does the whole, or neither does and the body has no padding, which would
      be replayed after each part. */
  predicate Harmless(a: seq<byte>, b: seq<byte>, pad: nat) {
    || Overrides(a)
    || (Overrides(b) && Overrides(a + b))
    || (!Overrides(b) && !Overrides(a + b) && pad == 0)
  }

  lemma SplitBody(c: Captured, a: seq<byte>, b: seq<byte>, parse: Parser)
    requires Proper(c) && c.phase.InBody? && a != [] && b != [] && |a| + |b| <= c.phase.left
    ensures Fed(Fed(c, a, parse), b, parse) == Fed(c, a + b, parse) <==> Harmless(a, b, c.phase.pad)
    ensures var twice, once := Fed(Fed(c, a, parse), b, parse), Fed(c, a + b, parse);
            || twice == once || twice.phase.Aborted? || once.phase.Aborted?
            || (twice.phase == once.phase && |twice.out| != |once.out|)
  {
    hide Overrides, Fed, Proper;
    BodyFed(c, a, parse);
    BodyFed(c, a + b, parse);
    if Overrides(a) {
      OverridesMore(a, b);
      FedStops(Fed(c, a, parse), b, parse);
    } else {
      BodyFed(Fed(c, a, parse), b, parse);
      TwicePadded(c.out, a, b, Zeros(c.phase.pad));
    }
  }

  /** Feeding on depends on what was captured before in nothing but what it is put behind. */
  lemma {:induction false} OutBehind(c: Captured, d: Captured, p: seq<byte>, parse: Parser)
    requires Proper(c) && Proper(d) && c.phase == d.phase
    ensures var e, f := Fed(c, p, parse), Fed(d, p, parse);
            e.phase == f.phase && (|c.out| != |d.out| && !e.phase.Aborted? ==> |e.out| != |f.out|)
    decreases |p|, Rank(c.phase)
  {
    if p != [] && !c.phase.Ended? && !c.phase.Aborted? {
      TurnBehind(c, d, p, parse);
      TurnRanks(c, p, parse);
      hide Turn, Take;
      OutBehind(Turn(c, p, parse), Turn(d, p, parse), p[Take(c, p)..], parse);
      StaysAborted(Turn(c, p, parse), p[Take(c, p)..], parse);
    }
  }

  lemma TurnBehind(c: Captured, d: Captured, p: seq<byte>, parse: Parser)
    requires Proper(c) && Proper(d) && c.phase == d.phase
    ensures var e, f := Turn(c, p, parse), Turn(d, p, parse);
            e.phase == f.phase && (|c.out| != |d.out| && !e.phase.Aborted? ==> |e.out| != |f.out|)
    ensures Take(c, p) == Take(d, p)
  {
    hide Overrides, IsZero, Zeros, Pad;
  }

  /** What comes after a body is such that the capture is given up there. */
  predicate GivesUp(pad: nat, rest: seq<byte>, parse: Parser) {
    Fed(Captured(InPad(pad), []), rest, parse).phase.Aborted?
  }

  /** The rest of a body, and then anything: as far as the body goes, a cut does harm or not; what comes after
      mends nothing, except where it makes the capture be given up. */
  lemma CutInBody(c: Captured, a: seq<byte>, b: seq<byte>, parse: Parser)
    requires Proper(c) && c.phase.InBody? && a != [] && b != [] && |a| < c.phase.left
    ensures var n := Min(c.phase.left - |a|, |b|);
            Fed(Fed(c, a, parse), b, parse) == Fed(c, a + b, parse)
            <==> Harmless(a, b[..n], c.phase.pad) || GivesUp(c.phase.pad, b[n..], parse)
  {
    hide Overrides, Fed, Proper, Harmless, GivesUp, Sound, Behind;
    var n := Min(c.phase.left - |a|, |b|);
    var part, rest := b[..n], b[n..];
    SplitBody(c, a, part, parse);
    BodyParts(c, a, part, rest, parse);
    Cut(a, b, n);
    GoesOn(Fed(Fed(c, a, parse), part, parse), Fed(c, a + part, parse), c.phase.pad, rest, parse);
  }

  lemma Cut(a: seq<byte>, b: seq<byte>, n: nat)
    requires n <= |b|
    ensures b == b[..n] + b[n..] && a + b == (a + b[..n]) + b[n..]
  {}

  /** Given up, or at the padding if anything is to come. */
  predicate Behind(c: Captured, pad: nat, rest: seq<byte>) {
    c.phase.Aborted? || rest == [] || c.phase == InPad(pad)
  }

  lemma BodyParts(c: Captured, a: seq<byte>, part: seq<byte>, rest: seq<byte>, parse: Parser)
    requires Proper(c) && c.phase.InBody? && a != [] && part != [] && |a| + |part| <= c.phase.left
    requires |a| + |part| == c.phase.left || rest == []
    ensures Fed(Fed(c, a, parse), part + rest, parse) == Fed(Fed(Fed(c, a, parse), part, parse), rest, parse)
    ensures Fed(c, (a + part) + rest, parse) == Fed(Fed(c, a + part, parse), rest, parse)
    ensures Sound(Fed(Fed(c, a, parse), part, parse)) && Sound(Fed(c, a + part, parse))
    ensures Behind(Fed(Fed(c, a, parse), part, parse), c.phase.pad, rest)
    ensures Behind(Fed(c, a + part, parse), c.phase.pad, rest)
  {
    hide Overrides, Fed, Proper;
    BodyFed(c, a, parse);
    BodyFed(c, a + part, parse);
    StaysAborted(Fed(c, a, parse), part, parse);
    if !Overrides(a) {
      BodyFed(Fed(c, a, parse), part, parse);
    }
    FedAfterBody(Fed(c, a, parse), part, rest, parse);
    FedAfterBody(c, a + part, rest, parse);
    SoundFed(c, a, parse);
    SoundFed(Fed(c, a, parse), part, parse);
    SoundFed(c, a + part, parse);
  }

  /** A capture that is given up keeps nothing. */
  predicate Sound(c: Captured) {
    c.phase.Aborted? ==> c.out == []
  }

  lemma {:induction false} SoundFed(c: Captured, p: seq<byte>, parse: Parser)
    requires Proper(c) && Sound(c)
    ensures Sound(Fed(c, p, parse))
    decreases |p|, Rank(c.phase)
  {
    if p != [] && !c.phase.Ended? && !c.phase.Aborted? {
      TurnRanks(c, p, parse);
      SoundTurn(c, p, parse);
      hide Turn, Take;
      SoundFed(Turn(c, p, parse), p[Take(c, p)..], parse);
    }
  }

  lemma SoundTurn(c: Captured, p: seq<byte>, parse: Parser)
    requires Proper(c) && Sound(c)
    ensures Sound(Turn(c, p, parse))
  {
    hide Overrides, IsZero;
  }

  lemma GoesOn(c: Captured, d: Captured, pad: nat, p: seq<byte>, parse: Parser)
    requires Proper(c) && Proper(d) && Sound(c) && Sound(d) && Behind(c, pad, p) && Behind(d, pad, p)
    requires c == d || c.phase.Aborted? || d.phase.Aborted? || (c.phase == d.phase && |c.out| != |d.out|)
    ensures Fed(c, p, parse) == Fed(d, p, parse) <==> c == d || GivesUp(pad, p, parse)
  {
    hide Fed;
    var at := Captured(InPad(pad), []);
    SoundFed(c, p, parse);
    SoundFed(d, p, parse);
    StaysAborted(c, p, parse);
    StaysAborted(d, p, parse);
    if p == [] {
      FedStops(c, p, parse);
      FedStops(d, p, parse);
      FedStops(at, p, parse);
    }
    if p != [] && c.phase == at.phase {
      OutBehind(c, at, p, parse);
    }
    if p != [] && d.phase == at.phase {
      OutBehind(d, at, p, parse);
    }
    if p != [] && c.phase == d.phase {
      OutBehind(c, d, p, parse);
    }
  }

  /** A cut at the end of a body, or of what has come of it, is no cut in it. */
  lemma FedAfterBody(c: Captured, p: seq<byte>, rest: seq<byte>, parse: Parser)
    requires Proper(c) && (c.phase.InBody? ==> |p| <= c.phase.left && (|p| == c.phase.left || rest == []))
    requires c.phase.InBody? || c == Captured(Aborted, [])
    ensures Fed(c, p + rest, parse) == Fed(Fed(c, p, parse), rest, parse)
  {
    hide Fed, Overrides;
    if rest == [] {
      assert p + rest == p;
      FedStops(Fed(c, p, parse), rest, parse);
    } else if c.phase.Aborted? {
      StaysAborted(c, p, parse);
      StaysAborted(c, p + rest, parse);
      StaysAborted(c, rest, parse);
    } else if p == [] {
      assert p + rest == rest;
      FedStops(c, p, parse);
    } else {
      BodyFed(c, p, parse);
      FedInTwo(c, p, rest, parse);
    }
  }

  lemma StaysAborted(c: Captured, p: seq<byte>, parse: Parser)
    requires Proper(c)
    ensures c.phase.Aborted? ==> Fed(c, p, parse) == c
  {}

  const SPACE_SI: seq<byte> := [32, 115, 105]
  const ZE_EQUALS: seq<byte> := [122, 101, 61]

  /** Without padding a cut does harm too: through " size=", which neither part has, so that the capture goes
      on with wrong holes; or before a "size=" that says nothing inside the body, so that it is given up. */
  lemma SplitOverride(parse: Parser)
    ensures var c := Captured(InBody(512, 512, 0), []);
            && Fed(c, SPACE_SI + ZE_EQUALS, parse).phase.Aborted?
            && !Fed(Fed(c, SPACE_SI, parse), ZE_EQUALS, parse).phase.Aborted?
            && !Fed(c, [120] + SPACE_SIZE[1..], parse).phase.Aborted?
            && Fed(Fed(c, [120], parse), SPACE_SIZE[1..], parse).phase.Aborted?
  {
    var c := Captured(InBody(512, 512, 0), []);
    assert SPACE_SI + ZE_EQUALS == SPACE_SIZE;
    Short(SPACE_SI);
    Short(ZE_EQUALS);
    Short([120]);
    NotInside();
    hide Overrides, Fed;
    BodyFed(c, SPACE_SI, parse);
    BodyFed(c, SPACE_SIZE, parse);
    BodyFed(Fed(c, SPACE_SI, parse), ZE_EQUALS, parse);
    BodyFed(c, [120], parse);
    BodyFed(c, [120] + SPACE_SIZE[1..], parse);
    BodyFed(Fed(c, [120], parse), SPACE_SIZE[1..], parse);
  }

  lemma Short(s: seq<byte>)
    requires |s| < 5
    ensures !Overrides(s)
  {
    TooShort(s, SPACE_SIZE);
    TooShort(s, SPARSE);
  }

  lemma {:induction false} TooShort(s: seq<byte>, t: seq<byte>)
    requires |s| < |t|
    ensures !Contains(s, t)
  {
    if s != [] {
      TooShort(s[1..], t);
    }
  }

  lemma NotInside()
    ensures Overrides(SPACE_SIZE) && Overrides(SPACE_SIZE[1..]) && !Overrides([120] + SPACE_SIZE[1..])
  {
    var s := [120] + SPACE_SIZE[1..];
    assert s[0] == 120 && s[1..] == SPACE_SIZE[1..];
    TooShort(s[1..], SPACE_SIZE);
    TooShort(s, SPARSE);
    assert SPACE_SIZE[..6] == SPACE_SIZE && SPACE_SIZE[1..][..5] == SPACE_SIZE[1..];
    assert s[..6] == s && s[..5][0] == 120;
    assert StartsWith(SPACE_SIZE, SPACE_SIZE);
  }

  lemma BodyFed(c: Captured, p: seq<byte>, parse: Parser)
    requires Proper(c) && c.phase.InBody? && p != [] && |p| <= c.phase.left
    ensures var d := Fed(c, p, parse);
            if Overrides(p) then d == Captured(Aborted, [])
            else d == Captured(if |p| == c.phase.left then InPad(c.phase.pad) else c.phase.(left := c.phase.left - |p|),
                               c.out + (p + Zeros(c.phase.pad)))
  {
    hide Fed, Overrides;
    FedOnce(c, p, parse);
  }

  lemma TwicePadded(o: seq<byte>, a: seq<byte>, b: seq<byte>, z: seq<byte>)
    ensures o + (a + z) + (b + z) == o + (a + b + z) <==> z == []
  {
    if z == [] {
      assert o + (a + z) + (b + z) == o + (a + b + z);
    } else {
      assert |o + (a + z) + (b + z)| != |o + (a + b + z)|;
    }
  }

  lemma FedOnce(c: Captured, p: seq<byte>, parse: Parser)
    requires Proper(c) && c.phase.InBody? && p != [] && |p| <= c.phase.left
    ensures Fed(c, p, parse) == Turn(c, p, parse)
    ensures p[..|p|] == p
  {
    hide Turn;
    FedStep(c, p, parse);
    assert p[Take(c, p)..] == [];
  }

  // ---- one call is the blanked stream ----

  /** What a replay reads, once the capture has met the end of the archive. */
  function Finished(c: Captured, p: seq<byte>, parse: Parser): Option<seq<byte>>
    requires Proper(c)
  {
    var d := Fed(c, p, parse);
    if d.phase.Ended? then Some(d.out) else None
  }

  lemma PadFinished(out: seq<byte>, pad: nat, p: seq<byte>, parse: Parser)
    ensures Finished(Captured(InPad(pad), out), p, parse)
            == if |p| < pad then None else Finished(Captured(InHeader([]), out), p[pad..], parse)
    ensures Finished(Captured(InFile(pad), out), p, parse)
            == if |p| < pad then None else Finished(Captured(InHeader([]), out), p[pad..], parse)
  {
    if p != [] {
      FedStep(Captured(InPad(pad), out), p, parse);
      FedStep(Captured(InFile(pad), out), p, parse);
      hide Fed;
      NothingLeft(Turn(Captured(InPad(pad), out), p, parse), parse);
      NothingLeft(Turn(Captured(InFile(pad), out), p, parse), parse);
    }
  }

  lemma NothingLeft(c: Captured, parse: Parser)
    requires Proper(c)
    ensures Fed(c, [], parse) == c
  {}

  lemma BodyFinished(out: seq<byte>, size: nat, pad: nat, p: seq<byte>, parse: Parser)
    requires size == 0 ==> pad == 0
    ensures Finished(Captured(InBody(size, size, pad), out), p, parse)
            == if |p| < size + pad || Overrides(p[..size]) then None
               else Finished(Captured(InHeader([]), out + (p[..size] + Zeros(pad))), p[size + pad..], parse)
  {
    hide Overrides;
    var c := Captured(InBody(size, size, pad), out);
    NoOverride();
    if p == [] {
      NothingLeft(c, parse);
      NothingLeft(Captured(InHeader([]), out + Zeros(pad)), parse);
    } else {
      FedStep(c, p, parse);
      var n := Take(c, p);
      var d := Turn(c, p, parse);
      if |p| < size {
        NothingLeft(d, parse);
      } else if size == 0 || !Overrides(p[..size]) {
        PadFinished(d.out, pad, p[size..], parse);
        hide Fed;
        if |p| >= size + pad {
          assert p[size..][pad..] == p[size + pad..];
        }
        assert size == 0 ==> out + (p[..0] + Zeros(0)) == out;
      }
    }
  }

  lemma NoOverride()
    ensures !Overrides([])
  {}

  lemma MemberFinished(out: seq<byte>, hdr: seq<byte>, rest: seq<byte>, parse: Parser)
    requires !IsZero(hdr)
    ensures var m := MemberBlanked(hdr, rest, parse);
            Finished(AfterHeader(hdr, out, parse), rest, parse)
            == if m.None? then None
               else Finished(Captured(InHeader([]), out + m.value), rest[|m.value| - |hdr|..], parse)
  {
    var h := parse(hdr);
    if h.None? {
    } else if IsExtension(h.value.typeflag) {
      hide Fed, Overrides, IsZero;
      BodyFinished(out + hdr, h.value.size, Pad(h.value.size), rest, parse);
      if |rest| >= h.value.size {
        Regroup(out, hdr, rest[..h.value.size] + Zeros(Pad(h.value.size)));
      }
    } else if h.value.typeflag != 'S' {
      var hole := h.value.size + Pad(h.value.size);
      hide Fed, IsZero;
      PadFinished(out + (hdr + Zeros(hole)), hole, rest, parse);
    }
  }

  lemma JoinTwice(a: seq<byte>, b: seq<byte>, c: Option<seq<byte>>)
    ensures Join(a, Join(b, c)) == Join(a + b, c)
  {
    if c.Some? {
      Regroup(a, b, c.value);
    }
  }

  lemma HeaderFinished(out: seq<byte>, s: seq<byte>, parse: Parser)
    requires |s| >= BLOCK
    ensures var hdr := s[..BLOCK];
            Finished(Captured(InHeader([]), out), s, parse)
            == if IsZero(hdr) then Some(out + hdr) else Finished(AfterHeader(hdr, out, parse), s[BLOCK..], parse)
  {
    FedStep(Captured(InHeader([]), out), s, parse);
    assert [] + s[..BLOCK] == s[..BLOCK];
    hide IsZero;
  }

  /** Feeding from a member's header on, in one call, reaches the end of the archive exactly where the
      stream can be blanked, and captures it blanked. */
  lemma {:induction false} FinishedIsBlanked(out: seq<byte>, s: seq<byte>, parse: Parser)
    ensures Finished(Captured(InHeader([]), out), s, parse) == Join(out, Blanked(s, parse))
    decreases |s|
  {
    var c := Captured(InHeader([]), out);
    if |s| < BLOCK {
      if s != [] {
        FedStep(c, s, parse);
        NothingLeft(Turn(c, s, parse), parse);
      }
    } else {
      HeaderFinished(out, s, parse);
      var hdr, rest := s[..BLOCK], s[BLOCK..];
      hide Fed, Finished, MemberBlanked, IsZero, AfterHeader;
      if !IsZero(hdr) {
        MemberFinished(out, hdr, rest, parse);
        var member := MemberBlanked(hdr, rest, parse);
        if member.Some? {
          var m := member.value;
          assert rest[|m| - BLOCK..] == s[|m|..];
          FinishedIsBlanked(out + m, s[|m|..], parse);
          JoinTwice(out, m, Blanked(s[|m|..], parse));
        }
      }
    }
  }

  // ---- any chunks ----

  function FedAll(c: Captured, chunks: seq<seq<byte>>, parse: Parser): (d: Captured)
    requires Proper(c)
    ensures Proper(d)
  {
    if chunks == [] then c else Fed(FedAll(c, chunks[..|chunks| - 1], parse), chunks[|chunks| - 1], parse)
  }

  /** However a stream is cut into chunks, as long as no cut is inside an extension's body, the capture is
      that of one call: it reaches the end of the archive exactly where the stream can be blanked, and
      replays it blanked. */
  lemma {:induction false} ChunksDoNotMatter(chunks: seq<seq<byte>>, parse: Parser)
    requires forall k :: 0 <= k < |chunks| ==> !MidBody(FedAll(START, chunks[..k], parse))
    ensures FedAll(START, chunks, parse) == Fed(START, Flatten(chunks), parse)
    ensures var c := FedAll(START, chunks, parse);
            (if c.phase.Ended? then Some(c.out) else None) == Blanked(Flatten(chunks), parse)
  {
    if chunks != [] {
      var n := |chunks| - 1;
      var front := chunks[..n];
      forall k | 0 <= k < |front|
        ensures !MidBody(FedAll(START, front[..k], parse))
      {
        assert front[..k] == chunks[..k];
      }
      ChunksDoNotMatter(front, parse);
      FedInTwo(START, Flatten(front), chunks[n], parse);
    }
    FinishedIsBlanked([], Flatten(chunks), parse);
    JoinNothing(Blanked(Flatten(chunks), parse));
  }

  lemma JoinNothing(b: Option<seq<byte>>)
    ensures Join([], b) == b
  {
    if b.Some? {
      assert [] + b.value == b.value;
    }
  }

  // ---- the capture in place ----

  lemma {:induction false} ContentGrows(data: seq<byte>, more: seq<byte>, runs: seq<Piece>)
    requires InBounds(data, runs)
    ensures InBounds(data + more, runs) && Content(data + more, runs) == Content(data, runs)
  {
    if runs != [] {
      var r := runs[|runs| - 1];
      ContentGrows(data, more, runs[..|runs| - 1]);
      assert (data + more)[r.off..r.off + r.n] == data[r.off..r.off + r.n];
    }
  }

  lemma Appended(data: seq<byte>, runs: seq<Piece>, p: seq<byte>, hole: nat)
    requires InBounds(data, runs)
    ensures var grown := runs + [Piece(|data|, |p|, hole)];
            InBounds(data + p, grown) && Content(data + p, grown) == Content(data, runs) + (p + Zeros(hole))
  {
    var grown := runs + [Piece(|data|, |p|, hole)];
    ContentGrows(data, p, runs);
    assert grown[..|runs|] == runs;
    assert (data + p)[|data|..|data| + |p|] == p;
  }

  lemma BodyEnds(phase: Phase, body: seq<byte>, out: seq<byte>)
    requires phase.InBody? && |body| <= phase.left
    ensures AfterBody(phase, body, out)
            == if body != [] && Overrides(body) then Captured(Aborted, [])
               else
                 Captured(if |body| == phase.left then InPad(phase.pad) else phase.(left := phase.left - |body|),
                          if body == [] then out else out + (body + Zeros(phase.pad)))
  {
    hide Overrides, Zeros;
  }

  class NestedCapture {
    var runs: seq<Piece>
    var data: seq<byte>
    var abort: bool
    var done: bool
    var state: nat
    var remain: nat
    var padRem: nat
    var hdr: seq<byte>
    ghost var size: nat

    constructor ()
      ensures Valid() && State() == START
    {
      runs, data, abort, done, state, remain, padRem, hdr, size := [], [], false, false, 0, 0, 0, [], 0;
    }

    ghost predicate Valid()
      reads this
    {
      && InBounds(data, runs) && state <= 3 && |hdr| < BLOCK
      && (state == 1 ==> remain <= size) && (state != 0 ==> hdr == [])
    }

    ghost function Walking(): Phase
      reads this
    {
      if abort then Aborted
      else if done then Ended
      else if state == 0 then InHeader(hdr)
      else if state == 1 then InBody(size, remain, padRem)
      else if state == 2 then InPad(padRem)
      else InFile(remain)
    }

    ghost function State(): (c: Captured)
      reads this
      requires Valid()
      ensures Proper(c)
    {
      Captured(Walking(), if abort then [] else Content(data, runs))
    }

    method AppendData(p: seq<byte>)
      requires Valid()
      modifies this`runs, this`data
      ensures Valid() && data == old(data) + p && runs == old(runs) + [Piece(|old(data)|, |p|, 0)]
      ensures Content(data, runs) == old(Content(data, runs)) + p
    {
      Appended(data, runs, p, 0);
      assert p + Zeros(0) == p;
      runs := runs + [Piece(|data|, |p|, 0)];
      data := data + p;
    }

    /** The run just appended is followed by a hole. */
    method SetHole(hole: nat, ghost data0: seq<byte>, ghost runs0: seq<Piece>, ghost p: seq<byte>)
      requires Valid() && InBounds(data0, runs0) && data == data0 + p && runs == runs0 + [Piece(|data0|, |p|, 0)]
      modifies this`runs
      ensures Valid() && Content(data, runs) == Content(data0, runs0) + (p + Zeros(hole))
    {
      var last := runs[|runs| - 1];
      runs := runs[..|runs| - 1] + [Piece(last.off, last.n, hole)];
      Appended(data0, runs0, p, hole);
      assert runs == runs0 + [Piece(|data0|, |p|, hole)];
    }

    /** Bytes, and a hole behind them. */
    method AppendWithHole(p: seq<byte>, hole: nat)
      requires Valid()
      modifies this`runs, this`data
      ensures Valid() && Content(data, runs) == old(Content(data, runs)) + (p + Zeros(hole))
    {
      hide Content, InBounds, Zeros;
      ghost var data0, runs0 := data, runs;
      AppendData(p);
      SetHole(hole, data0, runs0, p);
    }

    /** The rest of a header block, as far as it has come, and what a whole one asks for. */
    method HeaderTurn(p: seq<byte>, parse: Parser) returns (n: nat)
      requires Valid() && p != [] && !abort && !done && state == 0
      modifies this
      ensures Valid() && n == Take(old(State()), p) && State() == Turn(old(State()), p, parse)
    {
      n := Min(BLOCK - |hdr|, |p|);
      hide Content, InBounds, AfterHeader;
      hdr := hdr + p[..n];
      if |hdr| < BLOCK {
        return;
      }
      var block := hdr;
      hdr := [];
      WholeHeader(block, parse);
    }

    method WholeHeader(block: seq<byte>, parse: Parser)
      requires Valid() && !abort && !done && state == 0 && hdr == []
      modifies this
      ensures Valid() && State() == AfterHeader(block, old(State().out), parse)
    {
      hide Content, InBounds, IsZero, Zeros;
      if IsZero(block) {
        AppendData(block);
        done := true;
        return;
      }
      var h := parse(block);
      if h.None? {
        abort := true;
        return;
      }
      ghost var data0, runs0 := data, runs;
      AppendData(block);
      if IsExtension(h.value.typeflag) {
        state, remain, padRem, size := 1, h.value.size, Pad(h.value.size), h.value.size;
      } else if h.value.typeflag == 'S' {
        abort := true;
      } else {
        SetHole(h.value.size + Pad(h.value.size), data0, runs0, block);
        state, remain := 3, h.value.size + Pad(h.value.size);
      }
    }

    /** As much of an extension's body as has come. */
    method BodyTurn(p: seq<byte>) returns (n: nat)
      requires Valid() && !abort && !done && state == 1
      modifies this
      ensures Valid() && n == Take(old(State()), p)
      ensures State() == AfterBody(old(Walking()), p[..n], old(State().out))
    {
      hide Content, InBounds, Overrides, Zeros, AfterBody;
      n := Min(remain, |p|);
      var body := p[..n];
      ghost var phase, out := Walking(), State().out;
      BodyEnds(phase, body, out);
      if n > 0 {
        if Overrides(body) {
          abort := true;
          return;
        }
        AppendWithHole(body, padRem);
      }
      remain := remain - n;
      if remain == 0 {
        state := 2;
      }
    }

    /** Over padding or a file's body. */
    method SkipTurn(p: seq<byte>, ghost parse: Parser) returns (n: nat)
      requires Valid() && !abort && !done && state >= 2
      modifies this
      ensures Valid() && n == Take(old(State()), p) && State() == Turn(old(State()), p, parse)
    {
      hide Content, InBounds;
      if state == 2 {
        n := Min(padRem, |p|);
        padRem := padRem - n;
        if padRem == 0 {
          state := 0;
        }
      } else {
        n := Min(remain, |p|);
        remain := remain - n;
        if remain == 0 {
          state := 0;
        }
      }
    }

    /** Walks over one chunk of the member. */
    method Feed(p: seq<byte>, parse: Parser)
      requires Valid()
      modifies this
      ensures Valid() && State() == Fed(old(State()), p, parse)
    {
      if done || abort {
        return;
      }
      var rest := p;
      hide Fed, Turn, AfterBody;
      while rest != [] && !done && !abort
        invariant Valid() && Fed(State(), rest, parse) == Fed(old(State()), p, parse)
        decreases |rest|, Rank(Walking())
      {
        ghost var c := State();
        FedStep(c, rest, parse);
        var n: nat;
        if state == 0 {
          n := HeaderTurn(rest, parse);
        } else if state == 1 {
          n := BodyTurn(rest);
          BodyTurnIs(c, rest, parse);
        } else {
          n := SkipTurn(rest, parse);
        }
        TurnRanks(c, rest, parse);
        rest := rest[n..];
      }
      FedStops(State(), rest, parse);
    }
  }

  lemma FedStops(c: Captured, p: seq<byte>, parse: Parser)
    requires Proper(c) && (p == [] || c.phase.Ended? || c.phase.Aborted?)
    ensures Fed(c, p, parse) == c
  {}

  lemma BodyTurnIs(c: Captured, p: seq<byte>, parse: Parser)
    requires Proper(c) && c.phase.InBody?
    ensures Turn(c, p, parse) == AfterBody(c.phase, p[..Take(c, p)], c.out)
  {}

  lemma TurnRanks(c: Captured, p: seq<byte>, parse: Parser)
    requires Proper(c) && p != [] && !c.phase.Ended? && !c.phase.Aborted?
    ensures Take(c, p) > 0 || Rank(Turn(c, p, parse).phase) < Rank(c.phase)
  {}

  /** A reader over what a capture that met the end of the archive has kept. */
  method Replaying(c: NestedCapture) returns (r: ReplayReader)
    requires c.Valid() && !c.abort
    ensures fresh(r) && r.Valid() && r.pos == 0 && r.Stream() == c.State().out
  {
    r := new ReplayReader(c.data, c.runs);
  }
}
