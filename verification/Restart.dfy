/** What makes random access into a deflate stream possible: decoding can stop at a byte-aligned block
    boundary and be resumed there from the last 32 KiB of output alone. */
module Restart {
  import opened Bits
  import opened Huffman
  import opened Inflate

  // ---- matches ----

  lemma {:induction false} CopyBehind(pre: seq<byte>, out: seq<byte>, d: nat, n: nat)
    requires 1 <= d <= |out|
    ensures CopyBytes(pre + out, d, n) == pre + CopyBytes(out, d, n)
    decreases n
  {
    if n > 0 {
      var b := out[|out| - d];
      assert (pre + out) + [b] == pre + (out + [b]);
      CopyBehind(pre, out + [b], d, n - 1);
    }
  }

  /** r is out followed by a match of distance d: each further byte repeats the one d before it. */
  ghost predicate Repeats(r: seq<byte>, out: seq<byte>, d: nat) {
    out <= r && 1 <= d <= |out| && forall k :: |out| <= k < |r| ==> r[k] == r[k - d]
  }

  lemma {:induction false} CopyRepeats(out: seq<byte>, d: nat, n: nat)
    requires 1 <= d <= |out|
    ensures Repeats(CopyBytes(out, d, n), out, d)
    decreases n
  {
    if n > 0 {
      var next := out + [out[|out| - d]];
      CopyRepeats(next, d, n - 1);
      assert CopyBytes(out, d, n)[|out|] == next[|out|];
    }
  }

  /** Byte-by-byte copying is the only result with that property. */
  lemma {:induction false} CopyUnique(r: seq<byte>, out: seq<byte>, d: nat)
    requires Repeats(r, out, d)
    ensures r == CopyBytes(out, d, |r| - |out|)
    decreases |r| - |out|
  {
    if |r| > |out| {
      CopyUnique(r, out + [out[|out| - d]], d);
    }
  }

  // ---- only the window matters ----

  function Extend(pre: seq<byte>, r: Outcome): Outcome {
    if r.Done? then Done(r.pos, pre + r.out) else Fail
  }

  lemma {:induction false} SymbolsBehind(
    pre: seq<byte>, lit: Lengths, dist: Lengths, B: seq<bool>, p: nat, w: seq<byte>)
    requires |w| >= MAX_WINDOW
    ensures Symbols(lit, dist, B, p, pre + w) == Extend(pre, Symbols(lit, dist, B, p, w))
    decreases |B| - p
  {
    match NextStep(lit, dist, B, p)
    case Bad =>
    case EndOfBlock(q) =>
    case Literal(q, b) =>
      assert (pre + w) + [b] == pre + (w + [b]);
      SymbolsBehind(pre, lit, dist, B, q, w + [b]);
    case Match(q, d, n) =>
      CopyBehind(pre, w, d, n);
      SymbolsBehind(pre, lit, dist, B, q, CopyBytes(w, d, n));
  }

  lemma BodyBehind(pre: seq<byte>, kind: nat, B: seq<bool>, p: nat, w: seq<byte>, look: nat)
    requires |w| >= MAX_WINDOW
    ensures BlockBody(kind, B, p, pre + w, look) == Extend(pre, BlockBody(kind, B, p, w, look))
  {
    if kind == 0 {
      var r := Stored(B, p, w);
      if r.Done? {
        var q := AlignUp(p);
        var added := Bytes(B, q + 32, Field(B, q, 16));
        assert (pre + w) + added == pre + (w + added);
      }
    } else if kind == 1 {
      SymbolsBehind(pre, FixedLiteralLengths(), FixedDistanceLengths(), B, p, w);
    } else if kind == 2 {
      var h := DynamicHeader(B, p, look);
      if h.Header? {
        SymbolsBehind(pre, h.lit, h.dist, B, h.next, w);
      }
    }
  }

  /** With 32 KiB of output before a block, what came earlier does not matter to the rest. */
  lemma {:induction false} BlocksBehind(pre: seq<byte>, B: seq<bool>, p: nat, w: seq<byte>, look: nat)
    requires |w| >= MAX_WINDOW
    ensures Blocks(B, p, pre + w, look) == Extend(pre, Blocks(B, p, w, look))
    decreases |B| - p
  {
    if p + 3 <= |B| {
      var kind := Field(B, p + 1, 2);
      BodyBehind(pre, kind, B, p + 3, w, look);
      var r := BlockBody(kind, B, p + 3, w, look);
      if r.Done? {
        BlocksBehind(pre, B, r.pos, r.out, look);
      }
    }
  }

  // ---- only the bits ahead matter ----

  function Moved(k: nat, r: Outcome): Outcome {
    if r.Done? then Done(k + r.pos, r.out) else Fail
  }

  lemma StepAhead(lit: Lengths, dist: Lengths, B: seq<bool>, k: nat, C: seq<bool>, p: nat)
    requires SameBits(B, k, C, 0) && k + p <= |B|
    ensures var a, b := NextStep(lit, dist, B, k + p), NextStep(lit, dist, C, p);
            match b
            case Bad => a.Bad?
            case EndOfBlock(q) => a == EndOfBlock(k + q)
            case Literal(q, x) => a == Literal(k + q, x)
            case Match(q, d, n) => a == Match(k + q, d, n)
  {
    hide Decode, MatchStep;
    DecodeSame(lit, B, k, C, 0, p);
    var s := Decode(lit, C, p);
    if s.Some? && s.value > 256 {
      MatchAhead(dist, B, k, C, p + lit[s.value], s.value - 257);
    }
  }

  lemma MatchAhead(dist: Lengths, B: seq<bool>, k: nat, C: seq<bool>, p: nat, i: nat)
    requires SameBits(B, k, C, 0) && k + p <= |B|
    ensures SameMatch(k, MatchStep(dist, B, k + p, i), MatchStep(dist, C, p, i))
  {
    hide DistanceStep;
    if i < LENGTH_CODES && k + p + LengthExtra(i) <= |B| {
      FieldSame(B, k, C, 0, p, LengthExtra(i));
      var extra := Field(C, p, LengthExtra(i));
      LengthInRange(i, extra);
      DistanceAhead(dist, B, k, C, p + LengthExtra(i), LengthBase(i) + extra);
    }
  }

  /** The same step, k bits further on. */
  predicate SameMatch(k: nat, a: Step, b: Step)
    requires b.Bad? || b.Match?
  {
    if b.Bad? then a.Bad? else a == Match(k + b.next, b.distance, b.length)
  }

  lemma DistanceAhead(dist: Lengths, B: seq<bool>, k: nat, C: seq<bool>, p: nat, length: nat)
    requires SameBits(B, k, C, 0) && k + p <= |B| && 3 <= length <= 258
    ensures SameMatch(k, DistanceStep(dist, B, k + p, length), DistanceStep(dist, C, p, length))
  {
    hide Decode;
    DecodeSame(dist, B, k, C, 0, p);
    var d := Decode(dist, C, p);
    if d.Some? && d.value < DISTANCE_CODES {
      var q := p + dist[d.value];
      var e := DistanceExtra(d.value);
      if k + q + e <= |B| {
        FieldSame(B, k, C, 0, q, e);
      }
    }
  }

  lemma {:induction false} SymbolsAhead(
    lit: Lengths, dist: Lengths, B: seq<bool>, k: nat, C: seq<bool>, p: nat, out: seq<byte>)
    requires SameBits(B, k, C, 0) && k + p <= |B|
    ensures Symbols(lit, dist, B, k + p, out) == Moved(k, Symbols(lit, dist, C, p, out))
    decreases |B| - p
  {
    hide NextStep;
    StepAhead(lit, dist, B, k, C, p);
    match NextStep(lit, dist, C, p)
    case Bad =>
    case EndOfBlock(q) =>
    case Literal(q, b) =>
      SymbolsAhead(lit, dist, B, k, C, q, out + [b]);
    case Match(q, d, n) =>
      if d <= |out| {
        SymbolsAhead(lit, dist, B, k, C, q, CopyBytes(out, d, n));
      }
  }

  lemma {:induction false} BytesAhead(B: seq<bool>, k: nat, C: seq<bool>, p: nat, n: nat)
    requires SameBits(B, k, C, 0) && k + p + 8 * n <= |B|
    ensures Bytes(B, k + p, n) == Bytes(C, p, n)
  {
    if n > 0 {
      BytesAhead(B, k, C, p, n - 1);
      FieldSame(B, k, C, 0, p + 8 * (n - 1), 8);
    }
  }

  lemma AlignAhead(k: nat, p: nat)
    requires k % 8 == 0
    ensures AlignUp(k + p) == k + AlignUp(p)
  {}

  /** Stored blocks keep their place in the stream when it is cut at a byte boundary. */
  lemma StoredAhead(B: seq<bool>, k: nat, C: seq<bool>, p: nat, out: seq<byte>)
    requires k % 8 == 0 && SameBits(B, k, C, 0) && k + p <= |B|
    ensures Stored(B, k + p, out) == Moved(k, Stored(C, p, out))
  {
    hide AlignUp;
    AlignAhead(k, p);
    var q := AlignUp(p);
    assert AlignUp(k + p) == k + q;
    if k + q + 32 <= |B| {
      FieldSame(B, k, C, 0, q, 16);
      FieldSame(B, k, C, 0, q + 16, 16);
      var len := Field(C, q, 16);
      if k + q + 32 + 8 * len <= |B| {
        BytesAhead(B, k, C, q + 32, len);
      }
    }
  }

  lemma {:induction false} CodeLengthLengthsAhead(B: seq<bool>, k: nat, C: seq<bool>, p: nat, n: nat)
    requires n <= CODE_LENGTH_CODES && SameBits(B, k, C, 0) && k + p + 3 * n <= |B|
    ensures CodeLengthLengths(B, k + p, n) == CodeLengthLengths(C, p, n)
  {
    if n > 0 {
      CodeLengthLengthsAhead(B, k, C, p, n - 1);
      FieldSame(B, k, C, 0, p + 3 * (n - 1), 3);
    }
  }

  lemma {:induction false} CodeLengthsAhead(
    cl: Lengths, total: nat, B: seq<bool>, k: nat, C: seq<bool>, p: nat, acc: Lengths, look: nat)
    requires SameBits(B, k, C, 0) && k + p <= |B|
    ensures var a, b := CodeLengths(cl, total, B, k + p, acc, look), CodeLengths(cl, total, C, p, acc, look);
            if b.NoLengths? then a.NoLengths? else a == LengthList(b.lens, k + b.next)
    decreases |B| - p
  {
    hide Decode;
    if |acc| < total && k + p + look <= |B| {
      DecodeSame(cl, B, k, C, 0, p);
      var d := Decode(cl, C, p);
      if d.Some? {
        var q := p + cl[d.value];
        if d.value < 16 {
          CodeLengthsAhead(cl, total, B, k, C, q, acc + [d.value], look);
        } else if !(d.value == 16 && acc == []) && k + q + RepeatExtra(d.value) <= |B| {
          FieldSame(B, k, C, 0, q, RepeatExtra(d.value));
          var n := RepeatBase(d.value) + Field(C, q, RepeatExtra(d.value));
          var v := if d.value == 16 then acc[|acc| - 1] else 0;
          CodeLengthsAhead(cl, total, B, k, C, q + RepeatExtra(d.value), acc + Repeated(v, n), look);
        }
      }
    }
  }

  lemma HeaderAhead(B: seq<bool>, k: nat, C: seq<bool>, p: nat, look: nat)
    requires SameBits(B, k, C, 0) && k + p <= |B|
    ensures var a, b := DynamicHeader(B, k + p, look), DynamicHeader(C, p, look);
            if b.BadHeader? then a.BadHeader? else a == Header(b.lit, b.dist, k + b.next)
  {
    hide DynamicLengths;
    if k + p + 14 <= |B| {
      FieldSame(B, k, C, 0, p, 5);
      FieldSame(B, k, C, 0, p + 5, 5);
      FieldSame(B, k, C, 0, p + 10, 4);
      LengthsAhead(B, k, C, p + 14, 257 + Field(C, p, 5), 1 + Field(C, p + 5, 5),
                   4 + Field(C, p + 10, 4), look);
    }
  }

  lemma LengthsAhead(B: seq<bool>, k: nat, C: seq<bool>, p: nat, nlit: nat, ndist: nat, ncode: nat, look: nat)
    requires SameBits(B, k, C, 0) && k + p <= |B|
    ensures var a, b := DynamicLengths(B, k + p, nlit, ndist, ncode, look),
                        DynamicLengths(C, p, nlit, ndist, ncode, look);
            if b.BadHeader? then a.BadHeader? else a == Header(b.lit, b.dist, k + b.next)
  {
    hide ValidLengths, CodeLengthLengths, CodeLengths;
    if ncode <= CODE_LENGTH_CODES && k + p + 3 * ncode <= |B| {
      CodeLengthLengthsAhead(B, k, C, p, ncode);
      var cl := CodeLengthLengths(C, p, ncode);
      CodeLengthsAhead(cl, nlit + ndist, B, k, C, p + 3 * ncode, [], look);
    }
  }

  lemma BodyAhead(kind: nat, B: seq<bool>, k: nat, C: seq<bool>, p: nat, out: seq<byte>, look: nat)
    requires k % 8 == 0 && SameBits(B, k, C, 0) && k + p <= |B|
    ensures BlockBody(kind, B, k + p, out, look) == Moved(k, BlockBody(kind, C, p, out, look))
  {
    hide Stored, DynamicHeader, NextStep;
    if kind == 0 {
      StoredAhead(B, k, C, p, out);
    } else if kind == 1 {
      SymbolsAhead(FixedLiteralLengths(), FixedDistanceLengths(), B, k, C, p, out);
    } else if kind == 2 {
      HeaderAhead(B, k, C, p, look);
      var h := DynamicHeader(C, p, look);
      if h.Header? {
        SymbolsAhead(h.lit, h.dist, B, k, C, h.next, out);
      }
    }
  }

  /** Decoding looks at no bit before the block, so the stream can be cut there, at a whole byte. */
  lemma {:induction false} BlocksAhead(B: seq<bool>, k: nat, C: seq<bool>, p: nat, out: seq<byte>, look: nat)
    requires k % 8 == 0 && SameBits(B, k, C, 0) && k + p <= |B|
    ensures Blocks(B, k + p, out, look) == Moved(k, Blocks(C, p, out, look))
    decreases |B| - p
  {
    hide BlockBody;
    if k + p + 3 <= |B| {
      FieldSame(B, k, C, 0, p + 1, 2);
      var kind := Field(C, p + 1, 2);
      BodyAhead(kind, B, k, C, p + 3, out, look);
      var r := BlockBody(kind, C, p + 3, out, look);
      if r.Done? {
        BlocksAhead(B, k, C, r.pos, r.out, look);
      }
    }
  }

  // ---- the restart theorem ----

  /** The last 32 KiB of the output, or all of it. */
  function Window(out: seq<byte>): (w: seq<byte>)
    ensures |w| <= MAX_WINDOW
  {
    if |out| <= MAX_WINDOW then out else out[|out| - MAX_WINDOW..]
  }

  /** What a decoder gives that starts at byte k of the stream with a dictionary. */
  ghost function InflateWithDictionary(data: seq<byte>, k: nat, dict: seq<byte>, look: nat): (r: Outcome)
    requires k <= |data|
    ensures r.Done? ==> dict <= r.out
  {
    Blocks(StreamBits(data[k..]), 0, dict, look)
  }

  /** Decoding resumed at a byte-aligned block boundary with the last 32 KiB before it as dictionary
      succeeds exactly when decoding goes on successfully there, and gives exactly the same bytes. */
  lemma RestartAtBoundary(data: seq<byte>, k: nat, out: seq<byte>, look: nat)
    requires k <= |data|
    ensures var whole := Blocks(StreamBits(data), 8 * k, out, look);
            var again := InflateWithDictionary(data, k, Window(out), look);
            && (whole.Done? <==> again.Done?)
            && (whole.Done? ==> whole.pos == 8 * k + again.pos)
            && (whole.Done? ==> whole.out[|out|..] == again.out[|Window(out)|..])
  {
    hide BlockBody;
    var w := Window(out);
    StreamBitsDrop(data, k);
    BlocksAhead(StreamBits(data), 8 * k, StreamBits(data[k..]), 0, out, look);
    if |out| > MAX_WINDOW {
      var pre := out[..|out| - MAX_WINDOW];
      assert out == pre + w;
      BlocksBehind(pre, StreamBits(data[k..]), 0, w, look);
    }
  }
}
