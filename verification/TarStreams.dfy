/** What the walkers of a tar stream share: 512-byte header blocks, bodies padded to whole blocks. */
module TarStreams {
  import opened Bits

  const BLOCK: nat := 512

  /** What a header block says. */
  datatype Header = Header(
    name: seq<byte>, size: nat, typeflag: char, mode: int, mtime: int, uid: int, gid: int, linkname: seq<byte>)

  /** Reads a header block, None where it is not one. */
  type Parser = seq<byte> -> Option<Header>

  function Min(a: nat, b: nat): nat {
    if a < b then a else b
  }

  function Pad(size: nat): (p: nat)
    ensures p < BLOCK && (size + p) % BLOCK == 0
  {
    var k, r := size / BLOCK, size % BLOCK;
    assert size == BLOCK * k + r;
    assert if r == 0 then (BLOCK - r) % BLOCK == 0 else size + (BLOCK - r) % BLOCK == BLOCK * (k + 1);
    (BLOCK - size % BLOCK) % BLOCK
  }

  /** PAX records and GNU long names: bodies that are about the next header. */
  predicate IsExtension(typeflag: char) {
    typeflag == 'x' || typeflag == 'g' || typeflag == 'L' || typeflag == 'K'
  }

  predicate IsZero(block: seq<byte>) {
    forall i :: 0 <= i < |block| ==> block[i] == 0
  }

  function Flatten(chunks: seq<seq<byte>>): seq<byte> {
    if chunks == [] then [] else Flatten(chunks[..|chunks| - 1]) + chunks[|chunks| - 1]
  }

  predicate StartsWith(s: seq<byte>, t: seq<byte>) {
    |t| <= |s| && s[..|t|] == t
  }

  predicate Contains(s: seq<byte>, t: seq<byte>) {
    StartsWith(s, t) || (s != [] && Contains(s[1..], t))
  }

  /** One string is at a place in another. */
  predicate ThereIn(s: seq<byte>, t: seq<byte>, i: nat) {
    i + |t| <= |s| && s[i..i + |t|] == t
  }

  lemma ThereNext(s: seq<byte>, t: seq<byte>, i: nat)
    requires s != [] && i > 0
    ensures ThereIn(s, t, i) <==> ThereIn(s[1..], t, i - 1)
  {
    if i + |t| <= |s| {
      assert s[1..][i - 1..i - 1 + |t|] == s[i..i + |t|];
    }
  }

  /** It is contained exactly if it is there at some place. */
  lemma {:induction false} ContainsWhen(s: seq<byte>, t: seq<byte>)
    ensures Contains(s, t) <==> exists i: nat :: ThereIn(s, t, i)
  {
    if StartsWith(s, t) {
      assert ThereIn(s, t, 0);
    } else if s != [] {
      ContainsWhen(s[1..], t);
      assert !ThereIn(s, t, 0);
      if Contains(s[1..], t) {
        var i: nat :| ThereIn(s[1..], t, i);
        ThereNext(s, t, i + 1);
        assert ThereIn(s, t, i + 1);
      }
      forall i: nat | ThereIn(s, t, i)
        ensures Contains(s[1..], t)
      {
        ThereNext(s, t, i);
      }
    }
  }

  // ---- headers in a stream ----

  /** A header block that is read so. */
  predicate HeaderAt(s: seq<byte>, p: nat, h: Header, parse: Parser) {
    p + 512 <= |s| && (exists i :: p <= i < p + 512 && s[i] != 0) && parse(s[p..p + 512]) == Some(h)
  }

  /** Where the next header is: after the body, a whole number of blocks on. */
  predicate NextAt(p: nat, size: nat, q: nat) {
    p + 512 + size <= q < p + 512 + size + 512 && (q - p) % 512 == 0
  }

  lemma NextIs(p: nat, size: nat, q: nat)
    requires NextAt(p, size, q)
    ensures q == p + BLOCK + size + Pad(size)
  {
    var a, b := q - p - 512 - size, Pad(size);
    assert (size + a) % 512 == 0 && (size + b) % 512 == 0;
  }

  lemma HeaderThere(s: seq<byte>, p: nat, h: Header, parse: Parser)
    requires HeaderAt(s, p, h, parse)
    ensures p + BLOCK <= |s| && !IsZero(s[p..p + BLOCK]) && parse(s[p..p + BLOCK]) == Some(h)
  {
    var i :| p <= i < p + 512 && s[i] != 0;
    assert s[p..p + 512][i - p] != 0;
  }
}
