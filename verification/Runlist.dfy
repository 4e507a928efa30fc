/** NTFS runlists: extents as lengths and signed jumps, each in as few bytes as it needs. */
module Runlists {
  import opened Bits

  /** One extent: lcn is its first cluster, negative for a hole. */
  datatype Run = Run(lcn: int, length: int)

  predicate Int64(x: int) {
    -TWO_TO_63 <= x < TWO_TO_63
  }

  /** The sum of two int64s wraps round. */
  function Wrapped(x: int): int {
    if x >= TWO_TO_63 then x - TWO_TO_64 else if x < -TWO_TO_63 then x + TWO_TO_64 else x
  }

  // ---- numbers in a given count of bytes ----

  /** The n low bytes of v in two's complement, lowest first. */
  function TwosBytes(v: int, n: nat): (bs: seq<byte>)
    ensures |bs| == n
    decreases n
  {
    if n == 0 then [] else [v % 256] + TwosBytes(v / 256, n - 1)
  }

  /** v >> 8 * j, keeping the sign. */
  function Sar8(v: int, j: nat): int
    decreases j
  {
    if j == 0 then v else Sar8(v / 256, j - 1)
  }

  /** What the low eight bytes of a field say as an unsigned number; later ones are shifted away. */
  function Unsigned(bs: seq<byte>): nat {
    LittleEndian(if |bs| <= 8 then bs else bs[..8])
  }

  /** What a field says as a signed number. */
  function Signed(bs: seq<byte>): int {
    if |bs| == 0 then 0
    else if |bs| >= 8 then AsInt64(Unsigned(bs))
    else if bs[|bs| - 1] >= 128 then LittleEndian(bs) - Pow2(8 * |bs|)
    else LittleEndian(bs)
  }

  /** v can be written in n bytes with a sign. */
  ghost predicate Fits(v: int, n: nat) {
    n > 0 && -(Pow2(8 * n - 1) as int) <= v < Pow2(8 * n - 1)
  }

  lemma Pow2Step8(n: nat)
    ensures Pow2(n + 8) == 256 * Pow2(n)
  {
    ScalePow2(n, 8);
    Scale8(Pow2(n));
  }

  lemma FitsShift(v: int, n: nat)
    requires n > 0
    ensures Fits(v, n + 1) <==> Fits(v / 256, n)
  {
    Pow2Step8(8 * n - 1);
  }

  lemma FitsOne(v: int)
    ensures Fits(v, 1) <==> -128 <= v < 128
  {
    Pow2Of8();
    assert Pow2(8) == 2 * Pow2(7);
  }

  lemma {:induction false} TwosBytesValue(v: int, n: nat)
    requires Fits(v, n)
    ensures LittleEndian(TwosBytes(v, n)) == if v < 0 then v + Pow2(8 * n) else v
    ensures TwosBytes(v, n)[n - 1] >= 128 <==> v < 0
    decreases n
  {
    Pow2Step8(8 * (n - 1));
    if n == 1 {
      FitsOne(v);
      assert TwosBytes(v / 256, 0) == [];
      assert LittleEndian([]) == 0;
    } else {
      FitsShift(v, n - 1);
      TwosBytesValue(v / 256, n - 1);
    }
  }

  lemma {:induction false} LittleEndianBound(bs: seq<byte>)
    ensures LittleEndian(bs) < Pow2(8 * |bs|)
  {
    if bs != [] {
      LittleEndianBound(bs[1..]);
      Pow2Step8(8 * (|bs| - 1));
    }
  }

  /** Writing a number in a count of bytes it fits, and reading the field back. */
  lemma SignedOfTwos(v: int, n: nat)
    requires Fits(v, n) && n <= 8
    ensures Signed(TwosBytes(v, n)) == v
  {
    TwosBytesValue(v, n);
    if n == 8 {
      Pow2Of64();
      assert Pow2(64) == 2 * Pow2(63);
    }
  }

  lemma {:induction false} UnsignedOfTwos(v: nat, n: nat)
    requires v < Pow2(8 * n)
    ensures LittleEndian(TwosBytes(v, n)) == v
  {
    if n > 0 {
      Pow2Step8(8 * (n - 1));
      UnsignedOfTwos(v / 256, n - 1);
    }
  }

  // ---- the least count of bytes ----

  /** The least count of bytes for a signed number. */
  function Width(v: int): (n: nat)
    ensures n >= 1
    decreases if v < 0 then -v else v
  {
    if -128 <= v < 128 then 1 else 1 + Width(v / 256)
  }

  lemma {:induction false} WidthIsLeast(v: int, n: nat)
    ensures Fits(v, n) <==> n >= Width(v)
    decreases n
  {
    FitsOne(v);
    if n == 1 {
    } else if n > 1 {
      if -128 <= v < 128 {
        Pow2Monotone(7, 8 * n - 1);
      } else {
        FitsShift(v, n - 1);
        WidthIsLeast(v / 256, n - 1);
      }
    }
  }

  lemma WidthOfInt64(v: int)
    requires Int64(v)
    ensures Width(v) <= 8
  {
    Pow2Of64();
    assert Pow2(64) == 2 * Pow2(63);
    WidthIsLeast(v, 8);
  }

  /** The count of bytes for a length: one for zero, none for a negative one. */
  function LengthWidth(v: int): nat
    decreases v
  {
    if v < 0 then 0 else if v < 256 then 1 else 1 + LengthWidth(v / 256)
  }

  lemma {:induction false} LengthWidthIsLeast(v: nat, n: nat)
    requires n > 0
    ensures v < Pow2(8 * n) <==> n >= LengthWidth(v)
    decreases n
  {
    Pow2Step8(8 * (n - 1));
    Pow2Monotone(0, 8 * (n - 1));
    if n > 1 && v >= 256 {
      LengthWidthIsLeast(v / 256, n - 1);
    } else if n > 1 {
      Pow2Monotone(0, 8 * (n - 1));
    }
  }

  lemma {:induction false} Sar8Step(v: int, j: nat)
    ensures Sar8(v, j + 1) == Sar8(v, j) / 256
    decreases j
  {
    if j > 0 {
      Sar8Step(v / 256, j - 1);
    }
  }

  method MinBytesUnsigned(v: int) returns (n: nat)
    requires Int64(v)
    ensures n == LengthWidth(v)
  {
    if v == 0 {
      return 1;
    }
    n := 0;
    var rest: int := v;
    while rest > 0
      invariant v < 0 ==> rest == v && n == 0
      invariant v > 0 ==> 0 <= rest && LengthWidth(v) == n + if rest == 0 then 0 else LengthWidth(rest)
      decreases rest
    {
      n := n + 1;
      rest := rest / 256;
    }
  }

  method MinBytesSigned(v: int) returns (n: nat)
    requires Int64(v)
    ensures n == Width(v)
  {
    if v == 0 {
      return 1;
    }
    n := 1;
    var tmp: int := v;
    ghost var last: int := v;
    while true
      invariant n >= 1 && tmp == last == Sar8(v, n - 1)
      invariant Width(v) == n - 1 + Width(last)
      invariant (v > 0 ==> last > 0) && (v < 0 ==> last < 0) && (last == -1 ==> n == 1)
      decreases if tmp < 0 then -tmp else tmp
    {
      tmp := tmp / 256;
      Sar8Step(v, n - 1);
      if tmp == 0 || tmp == -1 {
        break;
      }
      n := n + 1;
      last := tmp;
    }
    if v > 0 && Sar8(v, n - 1) / 128 != 0 {
      n := n + 1;
    }
    if v < 0 && Sar8(v, n - 1) / 128 != -1 {
      n := n + 1;
    }
  }

  // ---- what the encoding of a runlist is ----

  /** The fields are int64s and the last jump landed on a cluster. */
  predicate Encodable(r: Run, prev: int) {
    Int64(r.length) && Int64(r.lcn) && 0 <= prev < TWO_TO_63
  }

  /** The cluster the next jump is measured from. */
  function Base(r: Run, prev: int): int {
    if r.lcn >= 0 then r.lcn else prev
  }

  function JumpWidth(r: Run, prev: int): nat {
    if r.lcn >= 0 then Width(r.lcn - prev) else 0
  }

  /** A header byte with the two widths, the length, the jump. */
  function EncodedRun(r: Run, prev: int): seq<byte>
    requires Encodable(r, prev)
  {
    Header(r, prev)
    + TwosBytes(r.length, LengthWidth(r.length))
    + if r.lcn >= 0 then TwosBytes(r.lcn - prev, Width(r.lcn - prev)) else []
  }

  function Header(r: Run, prev: int): (h: seq<byte>)
    requires Encodable(r, prev)
    ensures |h| == 1
  {
    Widths(r, prev);
    [16 * JumpWidth(r, prev) + LengthWidth(r.length)]
  }

  lemma Widths(r: Run, prev: int)
    requires Encodable(r, prev)
    ensures LengthWidth(r.length) <= 8 && JumpWidth(r, prev) <= 8
  {
    Pow2Of64();
    if r.length >= 0 {
      LengthWidthIsLeast(r.length, 8);
    }
    if r.lcn >= 0 {
      WidthOfInt64(r.lcn - prev);
    }
  }

  ghost predicate InRange(runs: seq<Run>) {
    forall r :: r in runs ==> Int64(r.lcn) && Int64(r.length)
  }

  /** Each run after the one before, then a zero byte. */
  ghost function Encoded(runs: seq<Run>, prev: int): seq<byte>
    requires InRange(runs) && 0 <= prev < TWO_TO_63
  {
    if runs == [] then [0] else EncodedRun(runs[0], prev) + Encoded(runs[1..], Base(runs[0], prev))
  }

  // ---- what a byte string decodes to ----

  function Prepend(runs: seq<Run>, rest: Option<seq<Run>>): Option<seq<Run>> {
    if rest.None? then None else Some(runs + rest.value)
  }

  /** One run from its two fields. */
  function DecodedRun(length: seq<byte>, jump: seq<byte>, prev: int): Run {
    Run(if jump == [] then -1 else Wrapped(prev + Signed(jump)), AsInt64(Unsigned(length)))
  }

  /** The two widths in a header byte. */
  function LenBytes(h: byte): nat {
    h % 16
  }

  function OffBytes(h: byte): nat {
    h / 16
  }

  /** The runs up to a zero header or the end; None if a run is cut short. */
  function Decoded(data: seq<byte>, prev: int): Option<seq<Run>>
    decreases |data|
  {
    if data == [] || data[0] == 0 then Some([])
    else
      var m, n := LenBytes(data[0]), OffBytes(data[0]);
      if 1 + m + n > |data| then None
      else
        var jump := data[1 + m..1 + m + n];
        Prepend([DecodedRun(data[1..1 + m], jump, prev)],
                Decoded(data[1 + m + n..], Wrapped(prev + Signed(jump))))
  }

  // ---- the round trip ----

  /** What a run comes back as: holes all look alike, and a negative length is lost. */
  function Kept(r: Run): Run {
    Run(if r.lcn < 0 then -1 else r.lcn, if r.length < 0 then 0 else r.length)
  }

  /** A hole of negative length has the terminator for a header. */
  function Survivors(runs: seq<Run>): seq<Run> {
    if runs == [] || (runs[0].lcn < 0 && runs[0].length < 0) then []
    else [Kept(runs[0])] + Survivors(runs[1..])
  }

  /** The length field read back. */
  lemma LengthBack(v: int)
    requires Int64(v)
    ensures AsInt64(Unsigned(TwosBytes(v, LengthWidth(v)))) == if v < 0 then 0 else v
  {
    if v >= 0 {
      Pow2Of64();
      LengthWidthIsLeast(v, 8);
      LengthWidthIsLeast(v, LengthWidth(v));
      UnsignedOfTwos(v, LengthWidth(v));
    }
  }

  /** The jump field read back. */
  lemma JumpBack(r: Run, prev: int)
    requires r.lcn < TWO_TO_63 && 0 <= prev < TWO_TO_63
    ensures r.lcn >= 0 ==> Signed(TwosBytes(r.lcn - prev, Width(r.lcn - prev))) == r.lcn - prev
  {
    if r.lcn >= 0 {
      WidthOfInt64(r.lcn - prev);
      WidthIsLeast(r.lcn - prev, Width(r.lcn - prev));
      SignedOfTwos(r.lcn - prev, Width(r.lcn - prev));
    }
  }

  /** Decoding the encoding of a run and then anything is decoding the run, then the rest. */
  lemma OneRunBack(r: Run, prev: int, rest: seq<byte>)
    requires Encodable(r, prev)
    ensures Decoded(EncodedRun(r, prev) + rest, prev)
            == if r.lcn < 0 && r.length < 0 then Some([]) else Prepend([Kept(r)], Decoded(rest, Base(r, prev)))
  {
    hide LengthWidth, Width, TwosBytes, Signed, Decoded, DecodedRun, EncodedRun, Wrapped, Prepend, Kept, Base;
    var m, n := LengthWidth(r.length), JumpWidth(r, prev);
    var length := TwosBytes(r.length, m);
    var jump := if r.lcn >= 0 then TwosBytes(r.lcn - prev, n) else [];
    Widths(r, prev);
    NoLength(r.length);
    NoJump(r, prev);
    EncodedShape(r, prev, rest);
    DecodedStep(16 * n + m, length, jump, rest, prev);
    KeptBack(r, prev);
  }

  lemma EncodedShape(r: Run, prev: int, rest: seq<byte>)
    requires Encodable(r, prev)
    ensures var m, n := LengthWidth(r.length), JumpWidth(r, prev);
            var jump := if r.lcn >= 0 then TwosBytes(r.lcn - prev, n) else [];
            && m <= 8 && n <= 8 && |jump| == n
            && EncodedRun(r, prev) + rest == [16 * n + m] + TwosBytes(r.length, m) + jump + rest
  {
    Widths(r, prev);
    hide LengthWidth, Width, TwosBytes;
  }

  lemma KeptBack(r: Run, prev: int)
    requires Encodable(r, prev)
    ensures var jump := if r.lcn >= 0 then TwosBytes(r.lcn - prev, JumpWidth(r, prev)) else [];
            && DecodedRun(TwosBytes(r.length, LengthWidth(r.length)), jump, prev) == Kept(r)
            && Wrapped(prev + Signed(jump)) == Base(r, prev)
  {
    LengthBack(r.length);
    JumpBack(r, prev);
    NoJump(r, prev);
    hide LengthWidth, Width, TwosBytes, Unsigned, Signed, AsInt64;
  }

  lemma DecodedStep(h: byte, length: seq<byte>, jump: seq<byte>, rest: seq<byte>, prev: int)
    requires h == 16 * |jump| + |length| && |length| <= 8 && |jump| <= 8
    ensures Decoded([h] + length + jump + rest, prev)
            == if h == 0 then Some([])
               else Prepend([DecodedRun(length, jump, prev)], Decoded(rest, Wrapped(prev + Signed(jump))))
  {
    var data := [h] + length + jump + rest;
    FieldsBack([h], length, jump, rest);
    HeaderParts(|jump|, |length|);
    DecodedParts(data, prev);
    hide Signed, DecodedRun, Decoded, Wrapped, LenBytes, OffBytes;
  }

  lemma HeaderParts(n: nat, m: nat)
    requires m < 16 && n < 16
    ensures LenBytes(16 * n + m) == m && OffBytes(16 * n + m) == n
  {}

  lemma DecodedParts(data: seq<byte>, prev: int)
    requires data != []
    ensures var m, n := LenBytes(data[0]), OffBytes(data[0]);
            data[0] != 0 && 1 + m + n <= |data| ==>
              Decoded(data, prev) == Prepend([DecodedRun(data[1..1 + m], data[1 + m..1 + m + n], prev)],
                                             Decoded(data[1 + m + n..], Wrapped(prev + Signed(data[1 + m..1 + m + n]))))
    ensures data[0] == 0 ==> Decoded(data, prev) == Some([])
    ensures data[0] != 0 && 1 + LenBytes(data[0]) + OffBytes(data[0]) > |data| ==> Decoded(data, prev) == None
  {
    hide Signed, DecodedRun, Prepend, Wrapped, LenBytes, OffBytes;
  }

  lemma NoLength(v: int)
    ensures LengthWidth(v) == 0 <==> v < 0
  {}

  lemma NoJump(r: Run, prev: int)
    ensures JumpWidth(r, prev) == 0 <==> r.lcn < 0
    ensures Signed([]) == 0
  {}

  lemma FieldsBack(h: seq<byte>, length: seq<byte>, jump: seq<byte>, rest: seq<byte>)
    requires |h| == 1
    ensures var data, m, n := h + length + jump + rest, |length|, |jump|;
            && |data| >= 1 + m + n && data[0] == h[0]
            && data[1..1 + m] == length && data[1 + m..1 + m + n] == jump && data[1 + m + n..] == rest
  {}

  lemma {:induction false} DecodesSurvivors(runs: seq<Run>, prev: int, rest: seq<byte>)
    requires InRange(runs) && 0 <= prev < TWO_TO_63
    ensures Decoded(Encoded(runs, prev) + rest, prev) == Some(Survivors(runs))
  {
    if runs == [] {
      assert ([0] + rest)[0] == 0;
    } else {
      var r, tail := runs[0], Encoded(runs[1..], Base(runs[0], prev));
      assert Encoded(runs, prev) + rest == EncodedRun(r, prev) + (tail + rest);
      OneRunBack(r, prev, tail + rest);
      DecodesSurvivors(runs[1..], Base(r, prev), rest);
    }
  }

  lemma {:induction false} SurvivorsAreAll(runs: seq<Run>)
    ensures |Survivors(runs)| <= |runs|
    ensures Survivors(runs) == runs <==> forall r :: r in runs ==> r.lcn >= -1 && r.length >= 0
  {
    if runs != [] {
      SurvivorsAreAll(runs[1..]);
      var r := runs[0];
      assert runs == [r] + runs[1..];
      if r.lcn >= -1 && r.length >= 0 {
        assert Survivors(runs) == [r] + Survivors(runs[1..]);
        assert Survivors(runs)[1..] == Survivors(runs[1..]);
      }
    }
  }

  /** Decoding what a runlist was encoded as, whatever follows it, gives the runlist back exactly when no
      run has a negative length or a first cluster below -1. */
  lemma RoundTrip(runs: seq<Run>, rest: seq<byte>)
    requires InRange(runs)
    ensures Decoded(Encoded(runs, 0) + rest, 0) == Some(runs)
            <==> forall r :: r in runs ==> r.lcn >= -1 && r.length >= 0
  {
    DecodesSurvivors(runs, 0, rest);
    SurvivorsAreAll(runs);
  }

  // ---- the two loops ----

  lemma {:induction false} TwosBytesMore(v: int, n: nat)
    ensures TwosBytes(v, n + 1) == TwosBytes(v, n) + [Sar8(v, n) % 256]
    decreases n
  {
    if n == 0 {
      assert TwosBytes(v / 256, 0) == [];
    } else {
      TwosBytesMore(v / 256, n - 1);
    }
  }

  method AppendBytes(out: seq<byte>, v: int, n: nat) returns (grown: seq<byte>)
    ensures grown == out + TwosBytes(v, n)
  {
    grown := out;
    for j := 0 to n
      invariant grown == out + TwosBytes(v, j)
    {
      TwosBytesMore(v, j);
      grown := grown + [Sar8(v, j) % 256];
    }
  }

  lemma EncodedStep(runs: seq<Run>, prev: int)
    requires runs != [] && InRange(runs) && 0 <= prev < TWO_TO_63
    ensures Encoded(runs, prev) == EncodedRun(runs[0], prev) + Encoded(runs[1..], Base(runs[0], prev))
  {}

  lemma EncodedAt(runs: seq<Run>, k: nat, prev: int)
    requires k < |runs| && InRange(runs[k..]) && 0 <= prev < TWO_TO_63
    ensures Encodable(runs[k], prev) && InRange(runs[k + 1..]) && 0 <= Base(runs[k], prev) < TWO_TO_63
    ensures Encoded(runs[k..], prev) == EncodedRun(runs[k], prev) + Encoded(runs[k + 1..], Base(runs[k], prev))
  {
    assert runs[k..][0] == runs[k] && runs[k..][1..] == runs[k + 1..];
    EncodedStep(runs[k..], prev);
    hide Encoded, EncodedRun;
  }

  method EncodeRun(out: seq<byte>, r: Run, prev: int) returns (grown: seq<byte>, prevLCN: int)
    requires Encodable(r, prev)
    ensures grown == out + EncodedRun(r, prev) && prevLCN == Base(r, prev)
  {
    hide EncodedRun, Header, LengthWidth, Width, TwosBytes, Encodable, Int64;
    EncodableInt64(r, prev);
    prevLCN := prev;
    var lenBytes := MinBytesUnsigned(r.length);
    var offBytes, lcnDelta := 0, 0;
    if r.lcn >= 0 {
      lcnDelta := r.lcn - prev;
      offBytes := MinBytesSigned(lcnDelta);
      prevLCN := r.lcn;
    }
    EncodedRunIs(r, prev, lenBytes, offBytes, lcnDelta);
    grown := out + [16 * offBytes + lenBytes];
    grown := AppendBytes(grown, r.length, lenBytes);
    grown := AppendBytes(grown, lcnDelta, offBytes);
  }

  lemma EncodedNothing(prev: int)
    requires 0 <= prev < TWO_TO_63
    ensures Encoded([], prev) == [0]
  {}

  lemma EncodableInt64(r: Run, prev: int)
    requires Encodable(r, prev)
    ensures Int64(r.length) && (r.lcn >= 0 ==> Int64(r.lcn - prev))
  {}

  lemma EncodedRunIs(r: Run, prev: int, lenBytes: nat, offBytes: nat, delta: int)
    requires Encodable(r, prev)
    requires lenBytes == LengthWidth(r.length)
    requires delta == if r.lcn >= 0 then r.lcn - prev else 0
    requires offBytes == if r.lcn >= 0 then Width(delta) else 0
    ensures lenBytes <= 8 && offBytes <= 8
    ensures EncodedRun(r, prev)
            == [16 * offBytes + lenBytes] + TwosBytes(r.length, lenBytes) + TwosBytes(delta, offBytes)
  {
    Widths(r, prev);
    NoBytes(delta);
    hide LengthWidth, Width, TwosBytes, TWO_TO_63, Encodable;
  }

  lemma NoBytes(v: int)
    ensures TwosBytes(v, 0) == []
  {}

  method EncodeRunlist(runs: seq<Run>) returns (out: seq<byte>)
    requires InRange(runs)
    ensures out == Encoded(runs, 0)
  {
    out := [];
    var prevLCN: int := 0;
    assert runs[0..] == runs;
    hide EncodedRun, Encoded, InRange, Encodable;
    for k := 0 to |runs|
      invariant 0 <= prevLCN < TWO_TO_63 && InRange(runs[k..])
      invariant out + Encoded(runs[k..], prevLCN) == Encoded(runs, 0)
    {
      EncodedAt(runs, k, prevLCN);
      ghost var rest := Encoded(runs[k + 1..], Base(runs[k], prevLCN));
      Regroup(out, EncodedRun(runs[k], prevLCN), rest);
      hide Base;
      out, prevLCN := EncodeRun(out, runs[k], prevLCN);
    }
    assert runs[|runs|..] == [];
    EncodedNothing(prevLCN);
    out := out + [0];
  }

  lemma {:induction false} LittleEndianMore(bs: seq<byte>, b: byte)
    ensures LittleEndian(bs + [b]) == LittleEndian(bs) + Scale(b, 8 * |bs|)
  {
    if bs == [] {
      assert [b][1..] == [];
    } else {
      assert (bs + [b])[1..] == bs[1..] + [b];
      LittleEndianMore(bs[1..], b);
      ScaleTwice(b, 8 * (|bs| - 1), 8);
      Scale8(Scale(b, 8 * (|bs| - 1)));
    }
  }

  lemma ShiftedAway(x: nat, n: nat)
    requires n >= 64
    ensures Shl64(x, n) == 0
  {
    ScaleTwice(x, n - 64, 64);
    Scale64(Scale(x, n - 64));
  }

  /** One more byte shifted in under the or. */
  lemma UnsignedMore(bs: seq<byte>, b: byte)
    ensures Or(Unsigned(bs), Shl64(b, 8 * |bs|)) == Unsigned(bs + [b]) < TWO_TO_64
  {
    if |bs| < 8 {
      UnsignedMoreLow(bs, b);
    } else {
      hide LittleEndian, Or, Shl64;
      LittleEndianBound(bs[..8]);
      Pow2Of64();
      ShiftedAway(b, 8 * |bs|);
      OrZero(Unsigned(bs));
      assert (bs + [b])[..8] == bs[..8];
    }
  }

  lemma UnsignedMoreLow(bs: seq<byte>, b: byte)
    requires |bs| < 8
    ensures Or(Unsigned(bs), Shl64(b, 8 * |bs|)) == Unsigned(bs + [b]) < TWO_TO_64
  {
    hide LittleEndian, Or, Shl64, Scale, Pow2;
    var n := 8 * |bs|;
    LittleEndianMore(bs, b);
    LittleEndianBound(bs);
    LittleEndianBound(bs + [b]);
    Pow2Monotone(n + 8, 64);
    Pow2Of64();
    Pow2Of8();
    ShlFits(b, n, 8);
    OrDisjoint(Unsigned(bs), b, n);
  }

  method LoadBytes(data: seq<byte>, i: nat, n: nat) returns (u: nat)
    requires i + n <= |data|
    ensures u == Unsigned(data[i..i + n]) < TWO_TO_64
  {
    u := 0;
    for j := 0 to n
      invariant u == Unsigned(data[i..i + j]) < TWO_TO_64
    {
      UnsignedMore(data[i..i + j], data[i + j]);
      assert data[i..i + j + 1] == data[i..i + j] + [data[i + j]];
      u := Or(u, Shl64(data[i + j], 8 * j));
    }
  }

  /** -1 << n on 64 bits sets every bit from n up. */
  lemma AllOnesShifted(n: nat)
    requires n < 64
    ensures Shl64(TWO_TO_64 - 1, n) == TWO_TO_64 - Pow2(n) == Scale(Pow2(64 - n) - 1, n)
  {
    var p := Pow2(n);
    assert Pow2(0) == 1;
    hide Pow2, Scale;
    ScaleAdd(TWO_TO_64 - 1, 1, n);
    ScaleAdd(Pow2(64 - n) - 1, 1, n);
    ScalePow2(0, n);
    ScalePow2(64 - n, n);
    ScalePow2(64, n);
    ScalePow2(n, 64);
    Scale64(p);
    Pow2Of64();
    Pow2Monotone(n, 64);
    Borrow(p);
  }

  lemma Borrow(p: nat)
    requires 0 < p <= TWO_TO_64
    ensures (TWO_TO_64 * p - p) % TWO_TO_64 == TWO_TO_64 - p || p == TWO_TO_64
  {
    if p < TWO_TO_64 {
      assert TWO_TO_64 * p - p == TWO_TO_64 * (p - 1) + (TWO_TO_64 - p);
    }
  }

  /** The sign extended over the top of the register. */
  lemma SignExtended(bs: seq<byte>)
    requires bs != []
    ensures var u := Unsigned(bs);
            Signed(bs) == AsInt64(if bs[|bs| - 1] >= 128 then Or(u, Shl64(TWO_TO_64 - 1, 8 * |bs|)) else u)
  {
    var u, n := Unsigned(bs), |bs|;
    if n >= 8 {
      ShiftedAway(TWO_TO_64 - 1, 8 * n);
      OrZero(u);
    } else {
      LittleEndianBound(bs);
      AllOnesShifted(8 * n);
      OrDisjoint(u, Pow2(64 - 8 * n) - 1, 8 * n);
      Pow2Monotone(8 * n, 56);
      Pow2Step8(56);
      Pow2Of64();
    }
  }

  lemma SignedInRange(bs: seq<byte>)
    requires Unsigned(bs) < TWO_TO_64
    ensures Int64(Signed(bs))
  {
    LittleEndianBound(bs);
    if |bs| < 8 {
      Pow2Monotone(8 * |bs|, 56);
      Pow2Step8(56);
      Pow2Of64();
    }
  }

  lemma PrependNothing(rest: Option<seq<Run>>)
    ensures Prepend([], rest) == rest
  {
    if rest.Some? {
      assert [] + rest.value == rest.value;
    }
  }

  lemma PrependToNone(read: seq<Run>)
    ensures Prepend(read, Some([])) == Some(read) && Prepend(read, None) == None
  {
    assert read + [] == read;
  }

  lemma PrependMore(read: seq<Run>, r: Run, rest: Option<seq<Run>>)
    ensures Prepend(read, Prepend([r], rest)) == Prepend(read + [r], rest)
  {
    if rest.Some? {
      assert read + ([r] + rest.value) == read + [r] + rest.value;
    }
  }

  /** The run, and the cluster its jump lands on, where the fields of m and n bytes start at s. */
  function RunAt(data: seq<byte>, s: nat, m: nat, n: nat, prev: int): Run
    requires s + m + n <= |data|
  {
    DecodedRun(data[s..s + m], data[s + m..s + m + n], prev)
  }

  function JumpedFrom(data: seq<byte>, s: nat, m: nat, n: nat, prev: int): int
    requires s + m + n <= |data|
  {
    Wrapped(prev + Signed(data[s + m..s + m + n]))
  }

  /** The fields of one run, after its header. */
  method DecodeRun(data: seq<byte>, start: nat, lenBytes: nat, offBytes: nat, prev: int)
    returns (r: Run, prevLCN: int)
    requires Int64(prev)
    requires start + lenBytes + offBytes <= |data|
    ensures r == RunAt(data, start, lenBytes, offBytes, prev)
    ensures prevLCN == JumpedFrom(data, start, lenBytes, offBytes, prev) && Int64(prevLCN)
  {
    var i := start;
    prevLCN := prev;
    var runLen := LoadBytes(data, i, lenBytes);
    i := i + lenBytes;
    ghost var jump := data[i..i + offBytes];
    hide Unsigned, LittleEndian, Or, Shl64, Pow2;
    if offBytes > 0 {
      var lcnDelta := LoadBytes(data, i, offBytes);
      SignExtended(jump);
      SignedInRange(jump);
      hide Signed;
      if data[i + offBytes - 1] >= 128 {
        lcnDelta := Or(lcnDelta, Shl64(TWO_TO_64 - 1, 8 * offBytes));
      }
      prevLCN := Wrapped(prevLCN + AsInt64(lcnDelta));
    }
    var lcn := -1;
    if offBytes > 0 {
      lcn := prevLCN;
    }
    r := Run(lcn, AsInt64(runLen));
  }

  method DecodeRunlist(data: seq<byte>) returns (runs: Option<seq<Run>>)
    ensures runs == Decoded(data, 0)
  {
    var read: seq<Run> := [];
    var prevLCN: int := 0;
    var i := 0;
    assert Int64(0);
    assert data[0..] == data;
    hide Decoded, RunAt, JumpedFrom, Int64, LenBytes, OffBytes, Prepend;
    PrependNothing(Decoded(data, 0));
    while i < |data|
      invariant i <= |data| && Int64(prevLCN)
      invariant Decoded(data, 0) == Prepend(read, Decoded(data[i..], prevLCN))
    {
      var hdr := data[i];
      DecodedAt(data, i, prevLCN);
      i := i + 1;
      if hdr == 0 {
        PrependToNone(read);
        return Some(read);
      }
      var lenBytes, offBytes := LenBytes(hdr), OffBytes(hdr);
      if i + lenBytes + offBytes > |data| {
        PrependToNone(read);
        return None;
      }
      var r;
      r, prevLCN := DecodeRun(data, i, lenBytes, offBytes, prevLCN);
      i := i + lenBytes + offBytes;
      PrependMore(read, r, Decoded(data[i..], prevLCN));
      read := read + [r];
    }
    assert data[|data|..] == [];
    PrependToNone(read);
    DecodedNothing(prevLCN);
    runs := Some(read);
  }

  lemma DecodedAt(data: seq<byte>, i: nat, prev: int)
    requires i < |data|
    ensures var m, n, s := LenBytes(data[i]), OffBytes(data[i]), i + 1;
            && (data[i] == 0 ==> Decoded(data[i..], prev) == Some([]))
            && (data[i] != 0 && s + m + n > |data| ==> Decoded(data[i..], prev) == None)
            && (data[i] != 0 && s + m + n <= |data| ==>
                  Decoded(data[i..], prev)
                  == Prepend([RunAt(data, s, m, n, prev)], Decoded(data[s + m + n..], JumpedFrom(data, s, m, n, prev))))
  {
    hide Decoded, DecodedRun, Signed, Wrapped, LenBytes, OffBytes, Prepend;
    DecodedParts(data[i..], prev);
    if i + 1 + LenBytes(data[i]) + OffBytes(data[i]) <= |data| {
      SuffixParts(data, i, LenBytes(data[i]), OffBytes(data[i]));
    }
  }

  lemma DecodedNothing(prev: int)
    ensures Decoded([], prev) == Some([])
  {}

  lemma SuffixParts(data: seq<byte>, i: nat, m: nat, n: nat)
    requires i + 1 + m + n <= |data|
    ensures var from, s := data[i..], i + 1;
            && from[0] == data[i] && from[1..1 + m] == data[s..s + m]
            && from[1 + m..1 + m + n] == data[s + m..s + m + n] && from[1 + m + n..] == data[s + m + n..]
  {}
}
