/** The scanner insists on ten bits before it decodes a code-length symbol, RFC 1951 does not.  A
    decoder with such a demand accepts no other streams and gives no other bytes, accepts exactly the
    streams whose last code length symbol has the room, and so every stream that a byte follows, as the
    trailer of a gzip member does. */
module Lookahead {
  import opened Bits
  import opened Huffman
  import opened Inflate

  // ---- a lookahead demand only refuses ----

  lemma LengthsEnd(cl: Lengths, B: seq<bool>, p: nat, acc: Lengths, look: nat)
    ensures CodeLengths(cl, |acc|, B, p, acc, look) == LengthList(acc, p)
  {}

  /** A code length symbol comes at p, with its extra bits. */
  ghost predicate Readable(cl: Lengths, B: seq<bool>, p: nat, acc: Lengths, look: nat) {
    p + look <= |B|
    && var d := Decode(cl, B, p);
       d.Some? && p + cl[d.value] <= |B|
       && (d.value < 16 || ((d.value == 16 ==> acc != []) && p + cl[d.value] + RepeatExtra(d.value) <= |B|))
  }

  ghost function AfterSymbol(cl: Lengths, B: seq<bool>, p: nat): nat
    requires Decode(cl, B, p).Some?
  {
    var s := Decode(cl, B, p).value;
    p + cl[s] + if s < 16 then 0 else RepeatExtra(s)
  }

  /** The lengths after symbol s with its extra bits. */
  function GrownBy(s: nat, extra: nat, acc: Lengths): Lengths
    requires s == 16 ==> acc != []
  {
    if s < 16 then acc + [s] else acc + Repeated(if s == 16 then acc[|acc| - 1] else 0, RepeatBase(s) + extra)
  }

  ghost function ExtraAt(cl: Lengths, B: seq<bool>, p: nat): nat
    requires Decode(cl, B, p).Some?
    requires var s := Decode(cl, B, p).value; s < 16 || p + cl[s] + RepeatExtra(s) <= |B|
  {
    var s := Decode(cl, B, p).value;
    if s < 16 then 0 else Field(B, p + cl[s], RepeatExtra(s))
  }

  ghost function Grown(cl: Lengths, B: seq<bool>, p: nat, acc: Lengths): Lengths
    requires Readable(cl, B, p, acc, 0)
  {
    GrownBy(Decode(cl, B, p).value, ExtraAt(cl, B, p), acc)
  }

  lemma LengthsStep(cl: Lengths, total: nat, B: seq<bool>, p: nat, acc: Lengths, look: nat)
    requires |acc| != total && p <= |B|
    ensures CodeLengths(cl, total, B, p, acc, look).LengthList? ==> Readable(cl, B, p, acc, look)
    ensures Readable(cl, B, p, acc, look) ==>
      && Decode(cl, B, p).Some? && Readable(cl, B, p, acc, 0) && p < AfterSymbol(cl, B, p) <= |B|
      && (|acc| < total ==>
            CodeLengths(cl, total, B, p, acc, look)
            == CodeLengths(cl, total, B, AfterSymbol(cl, B, p), Grown(cl, B, p, acc), look))
    ensures CodeLengths(cl, total, B, p, acc, look).LengthList? ==> |acc| < total
  {
    hide Repeated, Field, RepeatBase;
  }

  lemma {:induction false} CodeLengthsLook(
    cl: Lengths, total: nat, B: seq<bool>, p: nat, acc: Lengths, look: nat)
    requires p <= |B|
    ensures var strict, free := CodeLengths(cl, total, B, p, acc, look), CodeLengths(cl, total, B, p, acc, 0);
            && (strict.LengthList? ==> free == strict)
            && (free.LengthList? && free.next + look <= |B| + 1 ==> strict == free)
    decreases |B| - p
  {
    if |acc| == total {
      LengthsEnd(cl, B, p, acc, look);
      LengthsEnd(cl, B, p, acc, 0);
    } else {
      LengthsStep(cl, total, B, p, acc, look);
      LengthsStep(cl, total, B, p, acc, 0);
      if Readable(cl, B, p, acc, 0) && |acc| < total {
        CodeLengthsLook(cl, total, B, AfterSymbol(cl, B, p), Grown(cl, B, p, acc), look);
      }
      RoomToRead(cl, B, p, acc, look);
      hide CodeLengths, Readable, AfterSymbol, Grown;
    }
  }

  lemma RoomToRead(cl: Lengths, B: seq<bool>, p: nat, acc: Lengths, look: nat)
    ensures Readable(cl, B, p, acc, look) <==> Readable(cl, B, p, acc, 0) && p + look <= |B|
  {}

  lemma HeaderLook(B: seq<bool>, p: nat, look: nat)
    ensures var strict, free := DynamicHeader(B, p, look), DynamicHeader(B, p, 0);
            && (strict.Header? ==> free == strict)
            && (free.Header? && free.next + look <= |B| + 1 ==> strict == free)
  {
    hide ValidLengths, CodeLengths, CodeLengthLengths;
    if p + 14 <= |B| {
      var nlit := 257 + Field(B, p, 5);
      var ndist := 1 + Field(B, p + 5, 5);
      var ncode := 4 + Field(B, p + 10, 4);
      var q := p + 14 + 3 * ncode;
      if ncode <= CODE_LENGTH_CODES && q <= |B| {
        CodeLengthsLook(CodeLengthLengths(B, p + 14, ncode), nlit + ndist, B, q, [], look);
      }
    }
  }

  lemma BodyLook(kind: nat, B: seq<bool>, p: nat, out: seq<byte>, look: nat)
    ensures var strict, free := BlockBody(kind, B, p, out, look), BlockBody(kind, B, p, out, 0);
            && (strict.Done? ==> free == strict)
            && (free.Done? && free.pos + look <= |B| + 2 ==> strict == free)
  {
    hide DynamicHeader, Symbols, Stored;
    HeaderLook(B, p, look);
  }

  /** The lookahead demand makes no difference to what a stream decodes to, and none to whether it decodes
      where all but two of the bits asked for follow it: the last code length symbol takes a bit, and so does
      the symbol that ends the block. */
  lemma {:induction false} BlocksLook(B: seq<bool>, p: nat, out: seq<byte>, look: nat)
    ensures var strict, free := Blocks(B, p, out, look), Blocks(B, p, out, 0);
            && (strict.Done? ==> free == strict)
            && (free.Done? && free.pos + look <= |B| + 2 ==> strict == free)
    decreases |B| - p
  {
    hide BlockBody;
    if p + 3 <= |B| {
      var kind := Field(B, p + 1, 2);
      BodyLook(kind, B, p + 3, out, look);
      var free := BlockBody(kind, B, p + 3, out, 0);
      if free.Done? {
        BlocksLook(B, free.pos, free.out, look);
      }
    }
  }

  // ---- exactly when it refuses ----

  function Max(a: nat, b: nat): nat {
    if a > b then a else b
  }

  /** Where the last code length symbol from p on starts; 0 if there is none. */
  ghost function LastLength(cl: Lengths, total: nat, B: seq<bool>, p: nat, acc: Lengths): nat
    decreases |B| - p
  {
    if |acc| >= total then 0
    else if !Readable(cl, B, p, acc, 0) || AfterSymbol(cl, B, p) <= p then p
    else Max(p, LastLength(cl, total, B, AfterSymbol(cl, B, p), Grown(cl, B, p, acc)))
  }

  /** Where the last code length symbol of a dynamic header starts. */
  ghost function LastOfHeader(B: seq<bool>, p: nat): nat {
    if p + 14 > |B| then 0
    else
      var nlit, ndist, ncode := 257 + Field(B, p, 5), 1 + Field(B, p + 5, 5), 4 + Field(B, p + 10, 4);
      var q := p + 14 + 3 * ncode;
      if ncode > CODE_LENGTH_CODES || q > |B| then 0
      else LastLength(CodeLengthLengths(B, p + 14, ncode), nlit + ndist, B, q, [])
  }

  /** Where the last code length symbol of a stream starts, over all its dynamic blocks. */
  ghost function LastOfStream(B: seq<bool>, p: nat, out: seq<byte>): nat
    decreases |B| - p
  {
    if p + 3 > |B| then 0
    else
      var kind := Field(B, p + 1, 2);
      var here := LastOfBlock(kind, B, p + 3);
      var r := BlockBody(kind, B, p + 3, out, 0);
      if r.Fail? || B[p] || r.pos <= p then here else Max(here, LastOfStream(B, r.pos, r.out))
  }

  /** From position `last` on there are `look` bits, or there is no such position. */
  predicate Room(last: nat, look: nat, B: seq<bool>) {
    last == 0 || last + look <= |B|
  }

  lemma {:induction false} LengthsRoom(
    cl: Lengths, total: nat, B: seq<bool>, p: nat, acc: Lengths, look: nat)
    requires 0 < p <= |B|
    ensures var strict, free := CodeLengths(cl, total, B, p, acc, look), CodeLengths(cl, total, B, p, acc, 0);
            strict.LengthList? <==> free.LengthList? && Room(LastLength(cl, total, B, p, acc), look, B)
    decreases |B| - p
  {
    if |acc| == total {
      LengthsEnd(cl, B, p, acc, look);
      LengthsEnd(cl, B, p, acc, 0);
    } else {
      LengthsStep(cl, total, B, p, acc, look);
      LengthsStep(cl, total, B, p, acc, 0);
      RoomToRead(cl, B, p, acc, look);
      if Readable(cl, B, p, acc, 0) && |acc| < total {
        LengthsRoom(cl, total, B, AfterSymbol(cl, B, p), Grown(cl, B, p, acc), look);
      }
      hide CodeLengths, Readable, AfterSymbol, Grown;
    }
  }

  lemma HeaderRoom(B: seq<bool>, p: nat, look: nat)
    ensures DynamicHeader(B, p, look).Header?
            <==> DynamicHeader(B, p, 0).Header? && Room(LastOfHeader(B, p), look, B)
  {
    hide ValidLengths, CodeLengths, CodeLengthLengths, LastLength;
    HeaderLook(B, p, look);
    if p + 14 <= |B| {
      var nlit, ndist, ncode := 257 + Field(B, p, 5), 1 + Field(B, p + 5, 5), 4 + Field(B, p + 10, 4);
      var q := p + 14 + 3 * ncode;
      if ncode <= CODE_LENGTH_CODES && q <= |B| {
        var cl := CodeLengthLengths(B, p + 14, ncode);
        LengthsRoom(cl, nlit + ndist, B, q, [], look);
        CodeLengthsLook(cl, nlit + ndist, B, q, [], look);
      }
    }
  }

  /** Where the last code length symbol of one block starts. */
  ghost function LastOfBlock(kind: nat, B: seq<bool>, p: nat): nat {
    if kind == 2 then LastOfHeader(B, p) else 0
  }

  lemma BodyRoom(kind: nat, B: seq<bool>, p: nat, out: seq<byte>, look: nat)
    ensures var strict, free := BlockBody(kind, B, p, out, look), BlockBody(kind, B, p, out, 0);
            && (strict.Done? <==> free.Done? && Room(LastOfBlock(kind, B, p), look, B))
            && (strict.Done? ==> strict == free)
  {
    hide DynamicHeader, Symbols, Stored, LastOfHeader;
    HeaderRoom(B, p, look);
    HeaderLook(B, p, look);
  }

  /** With the demand exactly those streams decode that decode without it and whose last code length symbol
      has the bits asked for. */
  lemma {:induction false} BlocksRoom(B: seq<bool>, p: nat, out: seq<byte>, look: nat)
    ensures Blocks(B, p, out, look).Done?
            <==> Blocks(B, p, out, 0).Done? && Room(LastOfStream(B, p, out), look, B)
    decreases |B| - p
  {
    hide BlockBody, LastOfBlock;
    if p + 3 <= |B| {
      var kind := Field(B, p + 1, 2);
      BodyRoom(kind, B, p + 3, out, look);
      hide Field;
      var free := BlockBody(kind, B, p + 3, out, 0);
      if free.Done? {
        BlocksRoom(B, free.pos, free.out, look);
      }
    }
  }

  // ---- bits that follow the stream do not matter ----

  /** B is the beginning of E. */
  ghost predicate Begins(B: seq<bool>, E: seq<bool>) {
    |B| <= |E| && forall i :: 0 <= i < |B| ==> B[i] == E[i]
  }

  lemma {:induction false} FieldBegins(B: seq<bool>, E: seq<bool>, p: nat, n: nat)
    requires Begins(B, E) && p + n <= |B|
    ensures Field(B, p, n) == Field(E, p, n)
    decreases n
  {
    if n > 0 {
      FieldBegins(B, E, p + 1, n - 1);
    }
  }

  lemma {:induction false} MsbBegins(B: seq<bool>, E: seq<bool>, p: nat, l: nat)
    requires Begins(B, E) && p + l <= |B|
    ensures Msb(B, p, l) == Msb(E, p, l)
  {
    if l > 0 {
      MsbBegins(B, E, p, l - 1);
    }
  }

  lemma DecodeBegins(lens: Lengths, B: seq<bool>, E: seq<bool>, p: nat)
    requires Begins(B, E) && Decode(lens, B, p).Some?
    ensures Decode(lens, E, p) == Decode(lens, B, p)
  {
    var s := Decode(lens, B, p).value;
    MsbBegins(B, E, p, lens[s]);
    DecodeIs(lens, E, p, s);
  }

  lemma DistanceBegins(dist: Lengths, B: seq<bool>, E: seq<bool>, p: nat, length: nat)
    requires Begins(B, E) && DistanceStep(dist, B, p, length).Match?
    ensures DistanceStep(dist, E, p, length) == DistanceStep(dist, B, p, length)
  {
    hide Decode;
    DecodeBegins(dist, B, E, p);
    var d := Decode(dist, B, p).value;
    FieldBegins(B, E, p + dist[d], DistanceExtra(d));
  }

  lemma MatchBegins(dist: Lengths, B: seq<bool>, E: seq<bool>, p: nat, i: nat)
    requires Begins(B, E) && MatchStep(dist, B, p, i).Match?
    ensures MatchStep(dist, E, p, i) == MatchStep(dist, B, p, i)
  {
    hide DistanceStep;
    var e := LengthExtra(i);
    FieldBegins(B, E, p, e);
    LengthInRange(i, Field(B, p, e));
    DistanceBegins(dist, B, E, p + e, LengthBase(i) + Field(B, p, e));
  }

  lemma StepBegins(lit: Lengths, dist: Lengths, B: seq<bool>, E: seq<bool>, p: nat)
    requires Begins(B, E) && !NextStep(lit, dist, B, p).Bad?
    ensures NextStep(lit, dist, E, p) == NextStep(lit, dist, B, p)
  {
    hide Decode, MatchStep;
    DecodeBegins(lit, B, E, p);
    var s := Decode(lit, B, p).value;
    if s > 256 {
      MatchBegins(dist, B, E, p + lit[s], s - 257);
    }
  }

  lemma {:induction false} SymbolsBegins(
    lit: Lengths, dist: Lengths, B: seq<bool>, E: seq<bool>, p: nat, out: seq<byte>)
    requires Begins(B, E) && Symbols(lit, dist, B, p, out).Done?
    ensures Symbols(lit, dist, E, p, out) == Symbols(lit, dist, B, p, out)
    decreases |B| - p
  {
    hide NextStep;
    StepBegins(lit, dist, B, E, p);
    match NextStep(lit, dist, B, p)
    case EndOfBlock(q) =>
    case Literal(q, b) => SymbolsBegins(lit, dist, B, E, q, out + [b]);
    case Match(q, d, n) => SymbolsBegins(lit, dist, B, E, q, CopyBytes(out, d, n));
  }

  lemma {:induction false} BytesBegins(B: seq<bool>, E: seq<bool>, p: nat, n: nat)
    requires Begins(B, E) && p + 8 * n <= |B|
    ensures Bytes(B, p, n) == Bytes(E, p, n)
  {
    if n > 0 {
      BytesBegins(B, E, p, n - 1);
      FieldBegins(B, E, p + 8 * (n - 1), 8);
    }
  }

  lemma StoredBegins(B: seq<bool>, E: seq<bool>, p: nat, out: seq<byte>)
    requires Begins(B, E) && Stored(B, p, out).Done?
    ensures Stored(E, p, out) == Stored(B, p, out)
  {
    hide AlignUp;
    var q := AlignUp(p);
    FieldBegins(B, E, q, 16);
    FieldBegins(B, E, q + 16, 16);
    BytesBegins(B, E, q + 32, Field(B, q, 16));
  }

  lemma {:induction false} CodeLengthLengthsBegins(B: seq<bool>, E: seq<bool>, p: nat, n: nat)
    requires n <= CODE_LENGTH_CODES && Begins(B, E) && p + 3 * n <= |B|
    ensures CodeLengthLengths(B, p, n) == CodeLengthLengths(E, p, n)
  {
    if n > 0 {
      CodeLengthLengthsBegins(B, E, p, n - 1);
      FieldBegins(B, E, p + 3 * (n - 1), 3);
    }
  }

  lemma {:induction false} CodeLengthsBegins(
    cl: Lengths, total: nat, B: seq<bool>, E: seq<bool>, p: nat, acc: Lengths, look: nat)
    requires Begins(B, E) && p <= |B| && CodeLengths(cl, total, B, p, acc, look).LengthList?
    ensures CodeLengths(cl, total, E, p, acc, look) == CodeLengths(cl, total, B, p, acc, look)
    decreases |B| - p
  {
    hide CodeLengths, Readable, AfterSymbol, Grown, Begins;
    if |acc| == total {
      LengthsEnd(cl, B, p, acc, look);
      LengthsEnd(cl, E, p, acc, look);
    } else {
      LengthsStep(cl, total, B, p, acc, look);
      SymbolBegins(cl, B, E, p, acc, look);
      LengthsStep(cl, total, E, p, acc, look);
      CodeLengthsBegins(cl, total, B, E, AfterSymbol(cl, B, p), Grown(cl, B, p, acc), look);
    }
  }

  lemma SymbolBegins(cl: Lengths, B: seq<bool>, E: seq<bool>, p: nat, acc: Lengths, look: nat)
    requires Begins(B, E) && Readable(cl, B, p, acc, look) && Readable(cl, B, p, acc, 0) && Decode(cl, B, p).Some?
    ensures |B| <= |E| && Decode(cl, E, p).Some? && Readable(cl, E, p, acc, look) && Readable(cl, E, p, acc, 0)
    ensures AfterSymbol(cl, E, p) == AfterSymbol(cl, B, p) && Grown(cl, E, p, acc) == Grown(cl, B, p, acc)
  {
    DecodeBegins(cl, B, E, p);
    assert |B| <= |E|;
    hide Decode, Field, Begins, RepeatExtra, GrownBy;
    var s := Decode(cl, B, p).value;
    if s >= 16 {
      FieldBegins(B, E, p + cl[s], RepeatExtra(s));
    }
  }

  lemma HeaderBegins(B: seq<bool>, E: seq<bool>, p: nat, look: nat)
    requires Begins(B, E) && DynamicHeader(B, p, look).Header?
    ensures DynamicHeader(E, p, look) == DynamicHeader(B, p, look)
  {
    hide ValidLengths, CodeLengths, CodeLengthLengths;
    FieldBegins(B, E, p, 5);
    FieldBegins(B, E, p + 5, 5);
    FieldBegins(B, E, p + 10, 4);
    var total := 257 + Field(B, p, 5) + 1 + Field(B, p + 5, 5);
    var ncode := 4 + Field(B, p + 10, 4);
    CodeLengthLengthsBegins(B, E, p + 14, ncode);
    CodeLengthsBegins(CodeLengthLengths(B, p + 14, ncode), total, B, E, p + 14 + 3 * ncode, [], look);
  }

  lemma BodyBegins(kind: nat, B: seq<bool>, E: seq<bool>, p: nat, out: seq<byte>, look: nat)
    requires Begins(B, E) && BlockBody(kind, B, p, out, look).Done?
    ensures BlockBody(kind, E, p, out, look) == BlockBody(kind, B, p, out, look)
  {
    hide Stored, DynamicHeader, NextStep;
    if kind == 0 {
      StoredBegins(B, E, p, out);
    } else if kind == 1 {
      SymbolsBegins(FixedLiteralLengths(), FixedDistanceLengths(), B, E, p, out);
    } else {
      HeaderBegins(B, E, p, look);
      var h := DynamicHeader(B, p, look);
      SymbolsBegins(h.lit, h.dist, B, E, h.next, out);
    }
  }

  /** What follows a complete stream is never looked at. */
  lemma {:induction false} BlocksBegins(B: seq<bool>, E: seq<bool>, p: nat, out: seq<byte>, look: nat)
    requires Begins(B, E) && Blocks(B, p, out, look).Done?
    ensures Blocks(E, p, out, look) == Blocks(B, p, out, look)
    decreases |B| - p
  {
    hide BlockBody;
    var kind := Field(B, p + 1, 2);
    FieldBegins(B, E, p + 1, 2);
    BodyBegins(kind, B, E, p + 3, out, look);
    var r := BlockBody(kind, B, p + 3, out, look);
    if !B[p] {
      BlocksBegins(B, E, r.pos, r.out, look);
    }
  }

  // ---- inside a gzip member ----

  /** How many bits the scanner wants before a code-length symbol. */
  const LOOKAHEAD := 10

  /** What the scanner decodes a byte string to. */
  ghost function Scanned(data: seq<byte>): Outcome {
    Blocks(StreamBits(data), 0, [], LOOKAHEAD)
  }

  /** Whatever the scanner accepts is a stream RFC 1951 decodes to the same bytes. */
  lemma ScannedIsRfc1951(data: seq<byte>)
    ensures Scanned(data).Done? ==> Rfc1951(data) == Scanned(data)
  {
    BlocksLook(StreamBits(data), 0, [], LOOKAHEAD);
  }

  /** Every RFC 1951 stream is accepted when at least one byte follows it, as the eight-byte trailer
      of a gzip member does, and decodes to the same bytes, ending at the same bit. */
  lemma MemberIsScanned(stream: seq<byte>, trailer: seq<byte>)
    requires Rfc1951(stream).Done? && |trailer| >= 1
    ensures Scanned(stream + trailer) == Rfc1951(stream)
  {
    var B, E := StreamBits(stream), StreamBits(stream + trailer);
    StreamBegins(stream, trailer);
    BlocksBegins(B, E, 0, [], 0);
    BlocksLook(E, 0, [], LOOKAHEAD);
  }

  /** The scanner accepts exactly the streams that RFC 1951 decodes and in which ten bits follow the start of
      the last code length symbol. */
  lemma ScannedWhen(data: seq<byte>)
    ensures Scanned(data).Done?
            <==> Rfc1951(data).Done? && Room(LastOfStream(StreamBits(data), 0, []), LOOKAHEAD, StreamBits(data))
  {
    BlocksRoom(StreamBits(data), 0, [], LOOKAHEAD);
  }

  lemma StreamBegins(a: seq<byte>, b: seq<byte>)
    ensures Begins(StreamBits(a), StreamBits(a + b))
  {
    forall t | 0 <= t < 8 * |a|
      ensures StreamBits(a)[t] == StreamBits(a + b)[t]
    {
      StreamBit(a, t / 8, t % 8);
      StreamBit(a + b, t / 8, t % 8);
    }
  }
}
