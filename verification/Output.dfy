/** The output side of the scanner: recent output in a buffer that is handed to a sink and slid
    forward, always keeping the 32 KiB a match can reach back. */
module Output {
  import opened Bits
  import opened Inflate
  import opened Restart
  import opened Checkpoints

  /** The room a buffer is allocated with. */
  const CAPACITY := FLUSH_THRESHOLD + MAX_WINDOW + 512

  /** The n bytes of a buffer from start on repeat those `distance` before them, and what was there
      before start is kept. */
  ghost predicate Copied(after: seq<byte>, before: seq<byte>, start: nat, distance: nat, n: nat) {
    && 1 <= distance <= start && start + n <= |after| == |before|
    && (forall i :: 0 <= i < start ==> after[i] == before[i])
    && (forall i :: start <= i < start + n ==> after[i] == after[i - distance])
  }

  /** A copied match is the byte-by-byte copy of RFC 1951, whatever output went before the buffer. */
  lemma CopiedIsMatch(got: seq<byte>, after: seq<byte>, before: seq<byte>, start: nat, distance: nat, n: nat)
    requires Copied(after, before, start, distance, n)
    ensures got + after[..start + n] == CopyBytes(got + before[..start], distance, n)
  {
    assert after[..start] == before[..start];
    CopyUnique(after[..start + n], before[..start], distance);
    CopyBehind(got, before[..start], distance, n);
  }

  class OutBuffer {
    /** Recent output: the first `len` bytes of the array. */
    var buf: array<byte>
    var len: nat
    /** The offset of buf[0] in the output, and the offset up to which the sink has seen it. */
    var outBase: nat
    var flushed: nat
    const sink: Recorder

    constructor (sink: Recorder)
      requires sink.Valid() && sink.got == []
      ensures Valid() && fresh(buf) && this.sink == sink && Out() == []
    {
      this.sink := sink;
      buf := new byte[CAPACITY](_ => 0);
      len, outBase, flushed := 0, 0, 0;
    }

    /** The invariant but for the bound on what is buffered, which an append may break until it flushes. */
    ghost predicate Holds()
      reads this, sink
    {
      && CAPACITY <= buf.Length
      && len <= buf.Length
      && sink.Valid()
      && |sink.got| == outBase == flushed
      && (outBase == 0 || len >= MAX_WINDOW)
    }

    ghost predicate Valid()
      reads this, sink
    {
      Holds() && len < LAG
    }

    /** Everything that has been output. */
    ghost function Out(): (r: seq<byte>)
      reads this, sink, buf
      ensures Valid() ==> |r| == outBase + len
    {
      sink.got + if len <= buf.Length then buf[..len] else []
    }

    /** The output is what the sink was given and then the buffer; either nothing was flushed yet or as much is
        buffered as a match can reach back. */
    lemma History()
      requires Valid()
      ensures sink.got == Out()[..outBase] && buf[..len] == Out()[outBase..] && outBase == flushed
      ensures len < LAG && (outBase == 0 || len >= MAX_WINDOW)
      ensures |Window(Out())| <= len && Window(Out()) == buf[len - |Window(Out())|..len]
    {}

    /** How much has been output. */
    function OutOff(): (r: nat)
      reads this
    {
      outBase + len
    }

    /** Hands all but the last 32 KiB to the sink and slides those to the front. */
    method FlushOut()
      requires Holds()
      modifies this`len, this`outBase, this`flushed, buf, sink
      ensures Valid() && Out() == old(Out())
      ensures len <= MAX_WINDOW && len <= old(len)
      ensures Points(sink.cands) == old(Points(sink.cands))
    {
      hide Recorder.Valid, Points;
      var keep := MAX_WINDOW;
      if keep > len {
        keep := len;
      }
      var cut := len - keep;
      ghost var older, history := buf[..cut], buf[cut..len];
      assert buf[..len] == older + history;
      if cut > 0 {
        sink.ToSink(outBase, buf[..cut]);
      }
      Slide(cut, keep);
      len := keep;
      outBase := outBase + cut;
      flushed := outBase;
    }

    method MaybeFlush()
      requires Holds()
      modifies this`len, this`outBase, this`flushed, buf, sink
      ensures Valid() && Out() == old(Out())
      ensures len < FLUSH_THRESHOLD && len <= old(len)
      ensures Points(sink.cands) == old(Points(sink.cands))
    {
      if len >= FLUSH_THRESHOLD {
        FlushOut();
      }
    }

    /** The last bytes before `off`, as far back as a match can reach. */
    method WindowBefore(off: nat) returns (w: seq<byte>)
      requires Valid() && off == OutOff()
      ensures w == Window(Out())
    {
      var start: int := off - MAX_WINDOW;
      if start < outBase {
        start := outBase;
      }
      if start >= off {
        return [];
      }
      w := buf[start - outBase..off - outBase];
    }

    // ---- appending ----

    /** Makes room for n more bytes, moving to a larger array if need be. */
    method Grow(n: nat, extra: nat)
      requires Holds()
      modifies this`buf
      ensures Holds() && Out() == old(Out())
      ensures len + n <= buf.Length
      ensures buf == old(buf) || fresh(buf)
    {
      if buf.Length - len < n {
        var grown := new byte[buf.Length + n + extra](_ => 0);
        forall i | 0 <= i < len {
          grown[i] := buf[i];
        }
        assert grown[..len] == buf[..len];
        buf := grown;
      }
    }

    method Store(at: nat, p: seq<byte>)
      requires at + |p| <= buf.Length
      modifies buf
      ensures forall i :: 0 <= i < buf.Length ==>
                buf[i] == if at <= i < at + |p| then p[i - at] else old(buf[i])
    {
      forall k | at <= k < at + |p| {
        buf[k] := p[k - at];
      }
    }

    /** Moves n bytes from `cut` to the front. */
    method Slide(cut: nat, n: nat)
      requires cut + n <= buf.Length
      modifies buf
      ensures buf[..n] == old(buf[cut..cut + n])
    {
      forall i | 0 <= i < n {
        buf[i] := buf[cut + i];
      }
    }

    method Append(p: seq<byte>)
      requires Valid()
      modifies this`buf, this`len, buf
      ensures Holds() && Out() == old(Out()) + p
      ensures len < LAG ==> Valid()
      ensures buf == old(buf) || fresh(buf)
      ensures len == old(len) + |p|
    {
      hide Recorder.Valid, Points;
      Grow(|p|, 0);
      ghost var before := buf[..len];
      Store(len, p);
      len := len + |p|;
      assert buf[..len] == before + p;
    }

    /** A literal in the hot loop. */
    method HotLiteral(b: byte)
      requires Valid()
      modifies this, buf, sink
      ensures Valid() && Out() == old(Out()) + [b]
      ensures buf == old(buf) || fresh(buf)
      ensures Points(sink.cands) == old(Points(sink.cands))
    {
      MaybeFlush();
      Append([b]);
    }

    method AppendOut(p: seq<byte>)
      requires Valid()
      modifies this, buf, sink
      ensures Valid() && Out() == old(Out()) + p
      ensures buf == old(buf) || fresh(buf)
      ensures Points(sink.cands) == old(Points(sink.cands))
    {
      Append(p);
      MaybeFlush();
    }

    // ---- matches ----

    /** memmove of n bytes that are all in place already. */
    method Move(to: nat, from: nat, n: nat)
      requires from + n <= to && to + n <= buf.Length
      modifies buf
      ensures forall i :: 0 <= i < buf.Length ==>
                buf[i] == if to <= i < to + n then old(buf[i - to + from]) else old(buf[i])
    {
      forall i | 0 <= i < n {
        buf[to + i] := buf[from + i];
      }
    }

    /** Copies an overlapping match in pieces no longer than its distance. */
    method CopyOverlapping(start: nat, distance: nat, length: nat)
      requires 1 <= distance <= start && start + length <= buf.Length
      modifies buf
      ensures Copied(buf[..], old(buf[..]), start, distance, length)
    {
      var i := 0;
      while i < length
        invariant 0 <= i <= length
        invariant Copied(buf[..], old(buf[..]), start, distance, i)
      {
        var n := length - i;
        if n > distance {
          n := distance;
        }
        Move(start + i, start - distance + i, n);
        i := i + n;
      }
    }

    /** The hot loop's choice of copy: one or two 8-byte stores for short matches that do not overlap
        them, one move where the match does not overlap itself, pieces otherwise. */
    method CopyFast(start: nat, distance: nat, length: nat)
      requires 1 <= distance <= start && start + length <= buf.Length && start + 16 <= buf.Length
      modifies buf
      ensures Copied(buf[..], old(buf[..]), start, distance, length)
    {
      var src := start - distance;
      if distance >= 8 && length <= 8 {
        Move(start, src, 8);
      } else if distance >= 16 && length <= 16 {
        Move(start, src, 8);
        Move(start + 8, src + 8, 8);
      } else if distance >= length {
        Move(start, src, length);
      } else {
        CopyOverlapping(start, distance, length);
      }
    }

    /** The tail's choice. */
    method CopySlow(start: nat, distance: nat, length: nat)
      requires 1 <= distance <= start && start + length <= buf.Length
      modifies buf
      ensures Copied(buf[..], old(buf[..]), start, distance, length)
    {
      if distance >= length {
        Move(start, start - distance, length);
      } else {
        CopyOverlapping(start, distance, length);
      }
    }

    /** A match in the hot loop: one capacity check, then a copy straight into the buffer.  It is
        refused only when it reaches back further than all output so far. */
    method HotMatch(distance: nat, length: nat) returns (ok: bool)
      requires Valid() && 1 <= distance && length <= MATCH_MAX
      modifies this, buf, sink
      ensures Valid()
      ensures buf == old(buf) || fresh(buf)
      ensures Points(sink.cands) == old(Points(sink.cands))
      ensures ok <==> distance <= |old(Out())| && distance <= MAX_WINDOW
      ensures ok ==> Out() == CopyBytes(old(Out()), distance, length)
    {
      hide Recorder.Valid, Points, Copied, CopyBytes;
      MaybeFlush();
      var start := len;
      if distance > start || distance > MAX_WINDOW {
        return false;
      }
      ghost var before := buf[..];
      CopyFast(start, distance, length);
      CopiedIsMatch(sink.got, buf[..], before, start, distance, length);
      len := start + length;
      return true;
    }

    /** A match in the tail. */
    method CopyMatch(distance: nat, length: nat) returns (ok: bool)
      requires Valid() && 1 <= distance
      modifies this, buf, sink
      ensures Valid()
      ensures buf == old(buf) || fresh(buf)
      ensures Points(sink.cands) == old(Points(sink.cands))
      ensures ok <==> distance <= |old(Out())| && distance <= MAX_WINDOW
      ensures ok ==> Out() == CopyBytes(old(Out()), distance, length)
    {
      hide Recorder.Valid, Points, Copied, CopyBytes;
      if distance > OutOff() {
        return false;
      }
      if distance > MAX_WINDOW {
        return false;
      }
      Grow(length, MAX_WINDOW);
      // The history is buffered as far as the match reaches: either nothing has been flushed yet or
      // 32 KiB are kept.
      var start := len;
      ghost var before := buf[..];
      CopySlow(start, distance, length);
      CopiedIsMatch(sink.got, buf[..], before, start, distance, length);
      len := start + length;
      MaybeFlush();
      return true;
    }

    /** Hands over what is still buffered. */
    method Drain()
      requires Valid()
      modifies this`flushed, sink
      ensures sink.Valid() && sink.got == old(Out()) && flushed == OutOff()
      ensures Points(sink.cands) == old(Points(sink.cands))
    {
      if flushed < OutOff() {
        sink.ToSink(flushed, buf[flushed - outBase..len]);
        flushed := OutOff();
      } else {
        assert buf[..len] == [];
      }
    }
  }
}
