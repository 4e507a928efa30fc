/** The update sequence array of an NTFS record: the last two bytes of each sector are kept in the array while
    a sequence number stands in their place. */
module UpdateSequences {
  import opened Bits

  const SECTOR: nat := 512

  /** Where the array is and how many words it has, as the record's header says. */
  function ArrayAt(b: seq<byte>): nat
    requires |b| >= 8
  {
    U16(b, 4)
  }

  function Words(b: seq<byte>): nat
    requires |b| >= 8
  {
    U16(b, 6)
  }

  /** The record has an array, and all of it. */
  predicate HasArray(b: seq<byte>) {
    |b| >= 8 && ArrayAt(b) != 0 && ArrayAt(b) + 2 * Words(b) <= |b|
  }

  /** The last two bytes of sector i, counted from 1. */
  function EndOf(i: nat): nat
    requires i > 0
  {
    SECTOR * i - 2
  }

  /** How many sector ends a loop reaches that stops at the array's words, at the buffer's end, and after so
      many sectors. */
  function Reached(b: seq<byte>, sectors: nat): nat
    requires |b| >= 8
  {
    var inBuffer := |b| / SECTOR;
    var asked := if sectors < inBuffer then sectors else inBuffer;
    if Words(b) == 0 then 0 else if Words(b) - 1 < asked then Words(b) - 1 else asked
  }

  /** The number after the one in the array; it is never zero. */
  function NextNumber(b: seq<byte>, off: nat): (v: nat)
    requires off + 2 <= |b|
    ensures 0 < v < 0x1_0000
  {
    var v := (U16(b, off) + 1) % 0x1_0000;
    if v == 0 then 1 else v
  }

  function Word(b: seq<byte>, at: nat, low: byte, high: byte): (r: seq<byte>)
    requires at + 2 <= |b|
    ensures |r| == |b|
  {
    b[at := low][at + 1 := high]
  }

  /** The word at pos copied from the one at `at`, a byte at a time. */
  function Copied(c: seq<byte>, at: nat, pos: nat): (r: seq<byte>)
    requires at + 2 <= |c| && pos + 2 <= |c|
    ensures |r| == |c|
  {
    var d := c[pos := c[at]];
    d[pos + 1 := d[at + 1]]
  }

  /** The word at pos saved to the one at `at`, and v put in its place. */
  function Swapped(c: seq<byte>, at: nat, pos: nat, v: nat): (r: seq<byte>)
    requires at + 2 <= |c| && pos + 2 <= |c| && v < 0x1_0000
    ensures |r| == |c|
  {
    Word(Copied(c, pos, at), pos, v % 256, v / 256)
  }

  /** Sectors 1 to k stamped with v, their own bytes saved to the array at off, a byte at a time. */
  function StampedTo(b: seq<byte>, off: nat, k: nat, v: nat): (r: seq<byte>)
    requires SECTOR * k <= |b| && (k > 0 ==> off + 2 * k + 2 <= |b|) && v < 0x1_0000
    ensures |r| == |b|
  {
    if k == 0 then b
    else
      Swapped(StampedTo(b, off, k - 1, v), off + 2 * k, EndOf(k), v)
  }

  /** Sectors 1 to k given back the bytes in the array. */
  function RestoredTo(b: seq<byte>, off: nat, k: nat): (r: seq<byte>)
    requires SECTOR * k <= |b| && (k > 0 ==> off + 2 * k + 2 <= |b|)
    ensures |r| == |b|
  {
    if k == 0 then b
    else
      Copied(RestoredTo(b, off, k - 1), off + 2 * k, EndOf(k))
  }

  /** A record stamped with the next number. */
  function Stamped(b: seq<byte>, sectors: nat): (r: seq<byte>)
    requires HasArray(b) && ArrayAt(b) + 2 <= |b|
    ensures |r| == |b|
  {
    var off, v := ArrayAt(b), NextNumber(b, ArrayAt(b));
    StampedTo(Word(b, off, v % 256, v / 256), off, Reached(b, sectors), v)
  }

  /** A record with its sector ends given back; one without an array stays as it is. */
  function Restored(b: seq<byte>): (r: seq<byte>)
    ensures |r| == |b|
  {
    if !HasArray(b) then b else RestoredTo(b, ArrayAt(b), Reached(b, |b| / SECTOR))
  }

  // ---- the two loops ----

  method CopyWord(buf: array<byte>, at: nat, pos: nat)
    requires at + 2 <= buf.Length && pos + 2 <= buf.Length
    modifies buf
    ensures buf[..] == Copied(old(buf[..]), at, pos)
  {
    buf[pos] := buf[at];
    buf[pos + 1] := buf[at + 1];
  }

  method PutWord(buf: array<byte>, pos: nat, v: nat)
    requires pos + 2 <= buf.Length && v < 0x1_0000
    modifies buf
    ensures buf[..] == Word(old(buf[..]), pos, v % 256, v / 256)
  {
    buf[pos] := v % 256;
    buf[pos + 1] := v / 256;
  }

  /** Undoes the stamps in place. */
  method ApplyUSA(buf: array<byte>)
    modifies buf
    ensures buf[..] == Restored(old(buf[..]))
  {
    hide U16, RestoredTo, Reached;
    if buf.Length < 8 {
      return;
    }
    var usaOff, usaCnt := ArrayAt(buf[..]), Words(buf[..]);
    if usaOff == 0 || usaOff + usaCnt * 2 > buf.Length {
      return;
    }
    RestoreSectors(buf, usaOff, usaCnt);
  }

  method RestoreSectors(buf: array<byte>, usaOff: nat, usaCnt: nat)
    requires HasArray(buf[..]) && usaOff == ArrayAt(buf[..]) && usaCnt == Words(buf[..])
    modifies buf
    ensures buf[..] == RestoredTo(old(buf[..]), usaOff, Reached(old(buf[..]), buf.Length / SECTOR))
  {
    ghost var b := buf[..];
    ghost var n := |b| / SECTOR;
    RestoredNone(b, usaOff);
    assert |b| >= 8 && usaOff + 2 * usaCnt <= |b|;
    hide U16, RestoredTo, Reached, Copied, HasArray, ArrayAt, Words, EndOf;
    var i := 1;
    while i < usaCnt
      invariant 1 <= i && i - 1 <= Reached(b, n) && (i > 1 ==> i <= usaCnt) && SECTOR * (i - 1) <= |b|
      invariant buf[..] == RestoredTo(b, usaOff, i - 1)
    {
      ReachedNext(b, n, i);
      AllSectors(b, i);
      var pos := EndOf(i);
      if pos + 2 > buf.Length {
        break;
      }
      RestoredStep(b, usaOff, i - 1);
      CopyWord(buf, usaOff + i * 2, pos);
      i := i + 1;
    }
    ReachedNext(b, n, i);
  }

  lemma AllSectors(b: seq<byte>, i: nat)
    requires 1 <= i
    ensures EndOf(i) + 2 <= |b| <==> i <= |b| / SECTOR
  {}

  lemma RestoredNone(b: seq<byte>, off: nat)
    ensures RestoredTo(b, off, 0) == b
  {}

  lemma StampedNone(b: seq<byte>, off: nat, v: nat)
    requires v < 0x1_0000
    ensures StampedTo(b, off, 0, v) == b
  {}

  lemma RestoredStep(b: seq<byte>, off: nat, k: nat)
    requires SECTOR * (k + 1) <= |b| && off + 2 * (k + 1) + 2 <= |b|
    ensures RestoredTo(b, off, k + 1) == Copied(RestoredTo(b, off, k), off + 2 * (k + 1), EndOf(k + 1))
  {}

  lemma StampedStep(b: seq<byte>, off: nat, k: nat, v: nat)
    requires SECTOR * (k + 1) <= |b| && off + 2 * (k + 1) + 2 <= |b| && v < 0x1_0000
    ensures StampedTo(b, off, k + 1, v) == Swapped(StampedTo(b, off, k, v), off + 2 * (k + 1), EndOf(k + 1), v)
  {}

  /** The loops' conditions: sector i is reached exactly if there is a word for it, it was asked for and it is
      all in the buffer. */
  lemma ReachedNext(b: seq<byte>, sectors: nat, i: nat)
    requires |b| >= 8 && 1 <= i && i - 1 <= Reached(b, sectors)
    ensures i <= Reached(b, sectors) <==> i < Words(b) && i <= sectors && EndOf(i) + 2 <= |b|
    ensures EndOf(i) + 2 == SECTOR * i && (i <= Reached(b, sectors) ==> SECTOR * i <= |b|)
  {
    hide U16;
  }

  /** Stamps in place; with no room for the number itself there is a panic, before anything is changed. */
  method StampUSA(buf: array<byte>, sectors: nat) returns (panics: bool)
    modifies buf
    ensures var b := old(buf[..]);
            && panics == (HasArray(b) && ArrayAt(b) + 2 > |b|)
            && buf[..] == if HasArray(b) && !panics then Stamped(b, sectors) else b
  {
    hide U16, StampedTo, Reached, Word;
    panics := false;
    if buf.Length < 8 {
      return;
    }
    ghost var b := buf[..];
    var usaOff, usaCnt := ArrayAt(buf[..]), Words(buf[..]);
    if usaOff == 0 || usaOff + usaCnt * 2 > buf.Length {
      return;
    }
    if usaOff + 2 > buf.Length {
      return true;
    }
    var number := (U16(buf[..], usaOff) + 1) % 0x1_0000;
    if number == 0 {
      number := 1;
    }
    PutWord(buf, usaOff, number);
    StampSectors(buf, usaOff, usaCnt, sectors, number, b);
  }

  method StampSectors(buf: array<byte>, usaOff: nat, usaCnt: nat, sectors: nat, number: nat, ghost b: seq<byte>)
    requires |b| == buf.Length && HasArray(b) && usaOff == ArrayAt(b) && usaCnt == Words(b) && number < 0x1_0000
    modifies buf
    ensures buf[..] == StampedTo(old(buf[..]), usaOff, Reached(b, sectors), number)
  {
    ghost var numbered := buf[..];
    StampedNone(numbered, usaOff, number);
    assert |b| >= 8 && usaOff + 2 * usaCnt <= |b|;
    hide U16, StampedTo, Reached, Copied, Word, HasArray, ArrayAt, Words, Swapped, EndOf;
    var i := 1;
    while i < usaCnt && i <= sectors
      invariant 1 <= i && i - 1 <= Reached(b, sectors) && (i > 1 ==> i <= usaCnt) && SECTOR * (i - 1) <= |b|
      invariant buf[..] == StampedTo(numbered, usaOff, i - 1, number)
    {
      ReachedNext(b, sectors, i);
      var pos := EndOf(i);
      if pos + 2 > buf.Length {
        break;
      }
      StampedStep(numbered, usaOff, i - 1, number);
      SwapWord(buf, usaOff + i * 2, pos, number);
      i := i + 1;
    }
    ReachedNext(b, sectors, i);
  }

  method SwapWord(buf: array<byte>, at: nat, pos: nat, v: nat)
    requires at + 2 <= buf.Length && pos + 2 <= buf.Length && v < 0x1_0000
    modifies buf
    ensures buf[..] == Swapped(old(buf[..]), at, pos, v)
  {
    CopyWord(buf, pos, at);
    PutWord(buf, pos, v);
  }

  // ---- the round trip ----

  /** The array ends before the first sector's last two bytes, and after the fields that say where it is. */
  predicate InFirstSector(b: seq<byte>) {
    HasArray(b) && 8 <= ArrayAt(b) && Words(b) > 0 && ArrayAt(b) + 2 * Words(b) <= SECTOR - 2
  }

  predicate InArray(off: nat, words: nat, j: nat) {
    off <= j < off + 2 * words
  }

  /** What stamping does to a byte: sector ends are in the array, nothing else but them is changed. */
  lemma {:induction false} StampedByte(b: seq<byte>, off: nat, k: nat, v: nat, i: nat, j: nat)
    requires SECTOR * k <= |b| && off + 2 * k + 2 <= SECTOR - 2 && v < 0x1_0000 && SECTOR - 2 <= |b|
    requires 1 <= i && j < |b|
    ensures var c := StampedTo(b, off, k, v);
            && (i <= k ==> c[off + 2 * i] == b[EndOf(i)] && c[off + 2 * i + 1] == b[EndOf(i) + 1])
            && (j < off + 2 || (off + 2 * k + 2 <= j && (j < SECTOR - 2 || j % SECTOR < SECTOR - 2 || j >= SECTOR * k))
                ==> c[j] == b[j])
  {
    if k > 0 {
      StampedByte(b, off, k - 1, v, i, j);
      StampedByte(b, off, k - 1, v, i, EndOf(k));
      StampedByte(b, off, k - 1, v, i, EndOf(k) + 1);
    }
  }

  /** What restoring does to a byte, where the array is before the first sector's end. */
  lemma {:induction false} RestoredByte(c: seq<byte>, off: nat, k: nat, i: nat, j: nat)
    requires SECTOR * k <= |c| && off + 2 * k + 2 <= SECTOR - 2 && SECTOR - 2 <= |c|
    requires 1 <= i && j < |c|
    ensures var r := RestoredTo(c, off, k);
            && (i <= k ==> r[EndOf(i)] == c[off + 2 * i] && r[EndOf(i) + 1] == c[off + 2 * i + 1])
            && (j < SECTOR - 2 || j % SECTOR < SECTOR - 2 || j >= SECTOR * k ==> r[j] == c[j])
  {
    if k > 0 {
      RestoredByte(c, off, k - 1, i, j);
      RestoredByte(c, off, k - 1, i, off + 2 * k);
      RestoredByte(c, off, k - 1, i, off + 2 * k + 1);
    }
  }

  lemma FieldsKept(b: seq<byte>, c: seq<byte>)
    requires |b| == |c| >= 8 && forall j :: 4 <= j < 8 ==> b[j] == c[j]
    ensures ArrayAt(c) == ArrayAt(b) && Words(c) == Words(b)
    ensures HasArray(c) == HasArray(b) && Reached(c, |c| / SECTOR) == Reached(b, |b| / SECTOR)
  {}

  /** Undoing a stamp over all of a record's sectors gives every byte outside the array back. */
  lemma StampAndApply(b: seq<byte>, sectors: nat, j: nat)
    requires InFirstSector(b) && sectors >= |b| / SECTOR && j < |b| && !InArray(ArrayAt(b), Words(b), j)
    ensures Restored(Stamped(b, sectors))[j] == b[j]
  {
    var off, k := ArrayAt(b), Reached(b, sectors);
    var v := NextNumber(b, off);
    var numbered := Word(b, off, v % 256, v / 256);
    var c := Stamped(b, sectors);
    assert off + 2 * k + 2 <= off + 2 * Words(b);
    if |b| < SECTOR - 2 {
      ShortRecord(b, sectors, j);
    } else {
      hide StampedTo, RestoredTo, U16, NextNumber;
      forall t: nat | 4 <= t < 8
        ensures b[t] == c[t]
      {
        StampedByte(numbered, off, k, v, 1, t);
      }
      FieldsKept(b, c);
      ByteBack(numbered, c, off, k, v, j);
    }
  }

  /** A record of less than a sector has no sector ends. */
  lemma ShortRecord(b: seq<byte>, sectors: nat, j: nat)
    requires InFirstSector(b) && |b| < SECTOR && j < |b| && !InArray(ArrayAt(b), Words(b), j)
    ensures Restored(Stamped(b, sectors))[j] == b[j]
  {
    hide U16, NextNumber;
    var c := Stamped(b, sectors);
    assert Reached(b, sectors) == 0;
    FieldsKept(b, c);
  }

  lemma ByteBack(b: seq<byte>, c: seq<byte>, off: nat, k: nat, v: nat, j: nat)
    requires SECTOR * k <= |b| && off + 2 * k + 2 <= SECTOR - 2 <= |b| && v < 0x1_0000
    requires c == StampedTo(b, off, k, v) && j < |b| && (j < off || j >= off + 2 * k + 2)
    ensures RestoredTo(c, off, k)[j] == b[j]
  {
    hide StampedTo, RestoredTo;
    var i := j / SECTOR + 1;
    StampedByte(b, off, k, v, i, j);
    RestoredByte(c, off, k, i, j);
    if j % SECTOR >= SECTOR - 2 {
      assert j == EndOf(i) || j == EndOf(i) + 1;
    }
  }

  // ---- which bytes these are ----

  /** The number after the one in the array's first word. */
  lemma NumberAfter(b: seq<byte>, off: nat)
    requires off + 2 <= |b|
    ensures var was := b[off] as nat + 0x100 * (b[off + 1] as nat);
            NextNumber(b, off) == if was == 0xFFFF then 1 else was + 1
  {}

  /** In a record whose array is named at byte 4 and counted at byte 6, the last two bytes of each of the first sectors
      of 512, one sector less than the array has words, are saved to the word of the sector and hold the number. */
  lemma StampedWords(b: seq<byte>, sectors: nat, i: nat)
    requires InFirstSector(b) && sectors >= |b| / 512 && 1 <= i && 512 * i <= |b|
    requires i < b[6] as nat + 0x100 * (b[7] as nat)
    ensures var off := b[4] as nat + 0x100 * (b[5] as nat);
            var c, v := Stamped(b, sectors), NextNumber(b, off);
            && off + 2 * i + 2 <= 510
            && c[off + 2 * i] == b[512 * i - 2] && c[off + 2 * i + 1] == b[512 * i - 1]
            && c[512 * i - 2] == c[off] == v % 0x100 && c[512 * i - 1] == c[off + 1] == v / 0x100
  {
    StampedStart(b, sectors, 0);
    StampedSector(b, sectors, i);
    hide Stamped, NextNumber;
  }

  /** And they are given back from there. */
  lemma RestoredWords(c: seq<byte>, i: nat)
    requires InFirstSector(c) && 1 <= i && 512 * i <= |c| && i < c[6] as nat + 0x100 * (c[7] as nat)
    ensures var off, r := c[4] as nat + 0x100 * (c[5] as nat), Restored(c);
            off + 2 * i + 2 <= 510 && r[512 * i - 2] == c[off + 2 * i] && r[512 * i - 1] == c[off + 2 * i + 1]
  {
    RestoredByte(c, ArrayAt(c), Reached(c, |c| / SECTOR), i, 0);
    hide RestoredTo;
  }

  // ---- arrays over the fields that say where they are ----

  predicate HasLayout(b: seq<byte>, off: nat, words: nat, len: nat) {
    |b| == len >= 8 && ArrayAt(b) == off && Words(b) == words
  }

  /** Undoing a stamp gives back every byte outside the array. */
  ghost predicate ComesBack(b: seq<byte>, sectors: nat)
    requires HasArray(b) && ArrayAt(b) + 2 <= |b|
  {
    forall j: nat :: j < |b| && !InArray(ArrayAt(b), Words(b), j) ==> Restored(Stamped(b, sectors))[j] == b[j]
  }

  /** The new number makes the array longer: by a word where it is the word count itself, by 256 where its low byte
      is the count's high one. */
  predicate Lengthens(off: nat, words: nat, len: nat) {
    off == 6 || (off == 7 && off + 2 * (words + 256) <= len)
  }

  /** Which layouts come back, among those of arrays that end before byte 510. */
  predicate Returns(off: nat, words: nat, len: nat) {
    var n := len / SECTOR;
    words >= 1 && (off >= 8 || if Lengthens(off, words, len) then n < words else words == 1 || n == 0)
  }

  /** Every record of that layout comes back, or one does not. */
  lemma ComesBackWhen(off: nat, words: nat, len: nat, sectors: nat)
    requires 0 < off && off + 2 * words <= SECTOR - 2 && len >= 8 && off + 2 * words <= len && off + 2 <= len
    requires sectors >= len / SECTOR
    ensures (forall b: seq<byte> :: HasLayout(b, off, words, len) ==> ComesBack(b, sectors))
            <==> Returns(off, words, len)
  {
    if Returns(off, words, len) {
      forall b: seq<byte> | HasLayout(b, off, words, len)
        ensures ComesBack(b, sectors)
      {
        forall j: nat | j < |b| && !InArray(off, words, j)
          ensures Restored(Stamped(b, sectors))[j] == b[j]
        {
          if off >= 8 {
            StampAndApply(b, sectors, j);
          } else {
            Back(b, sectors, j);
          }
        }
      }
    } else {
      var b, j := Lost(off, words, len, sectors);
      assert !ComesBack(b, sectors);
    }
  }

  /** The number and the bytes that stamping leaves in the header. */
  lemma StampedStart(b: seq<byte>, sectors: nat, j: nat)
    requires HasArray(b) && ArrayAt(b) + 2 <= |b| && ArrayAt(b) + 2 * Words(b) <= SECTOR - 2 && sectors >= |b| / SECTOR
    ensures var off, k, v := ArrayAt(b), Reached(b, |b| / SECTOR), NextNumber(b, ArrayAt(b));
            && Reached(b, sectors) == k && (k > 0 ==> SECTOR <= |b| && k < Words(b))
            && Stamped(b, sectors)[off] == v % 256 && Stamped(b, sectors)[off + 1] == v / 256
            && (j < |b| && (j < off || (off + 2 * k + 2 <= j && (j < SECTOR - 2 || k == 0)))
                ==> Stamped(b, sectors)[j] == b[j])
  {
    hide U16, NextNumber;
    var off, k, v := ArrayAt(b), Reached(b, sectors), NextNumber(b, ArrayAt(b));
    if k > 0 {
      hide StampedTo;
      var numbered := Word(b, off, v % 256, v / 256);
      StampedByte(numbered, off, k, v, 1, off);
      StampedByte(numbered, off, k, v, 1, off + 1);
      if j < |b| {
        StampedByte(numbered, off, k, v, 1, j);
      }
    }
  }

  /** The bytes of sector i's end are in the array, and the number in their place. */
  lemma StampedSector(b: seq<byte>, sectors: nat, i: nat)
    requires HasArray(b) && ArrayAt(b) + 2 <= |b| && ArrayAt(b) + 2 * Words(b) <= SECTOR - 2 && sectors >= |b| / SECTOR
    requires 1 <= i <= Reached(b, |b| / SECTOR)
    ensures var off, v, c := ArrayAt(b), NextNumber(b, ArrayAt(b)), Stamped(b, sectors);
            && EndOf(i) + 2 <= |b| && off + 2 * i + 2 <= SECTOR - 2
            && c[off + 2 * i] == b[EndOf(i)] && c[off + 2 * i + 1] == b[EndOf(i) + 1]
            && c[EndOf(i)] == v % 256 && c[EndOf(i) + 1] == v / 256
  {
    hide U16, NextNumber, StampedTo;
    var off, k, v := ArrayAt(b), Reached(b, sectors), NextNumber(b, ArrayAt(b));
    var numbered := Word(b, off, v % 256, v / 256);
    StampedByte(numbered, off, k, v, i, off);
    StampedEnd(numbered, off, k, v, i);
  }

  lemma {:induction false} StampedEnd(b: seq<byte>, off: nat, k: nat, v: nat, i: nat)
    requires SECTOR * k <= |b| && off + 2 * k + 2 <= SECTOR - 2 && v < 0x1_0000 && 1 <= i <= k
    ensures EndOf(i) + 2 <= |b|
    ensures StampedTo(b, off, k, v)[EndOf(i)] == v % 256 && StampedTo(b, off, k, v)[EndOf(i) + 1] == v / 256
  {
    if i < k {
      StampedEnd(b, off, k - 1, v, i);
    }
  }

  /** Restoring later sectors leaves what is before their ends. */
  lemma {:induction false} RestoredStays(c: seq<byte>, off: nat, k: nat, i: nat, j: nat)
    requires SECTOR * k <= |c| && (k > 0 ==> off + 2 * k + 2 <= |c|) && i <= k && j < |c| && j < EndOf(i + 1)
    ensures RestoredTo(c, off, k)[j] == RestoredTo(c, off, i)[j]
  {
    if i < k {
      RestoredStays(c, off, k - 1, i, j);
    }
  }

  /** What the number does to the header's fields, where no sector's end is saved over them. */
  lemma NumberInHeader(b: seq<byte>, c: seq<byte>)
    requires |b| == |c| && HasArray(b) && ArrayAt(b) < 8 && ArrayAt(b) + 2 <= |b| && Words(b) < 255
    requires var v := NextNumber(b, ArrayAt(b)); c[ArrayAt(b)] == v % 256 && c[ArrayAt(b) + 1] == v / 256
    requires forall j :: 4 <= j < 8 && !(ArrayAt(b) <= j < ArrayAt(b) + 2) ==> c[j] == b[j]
    ensures var off, words := ArrayAt(b), Words(b);
            && (off == 5 ==> ArrayAt(c) == 261)
            && (off >= 6 ==> ArrayAt(c) == off)
            && Words(c) == (if off == 6 then words + 1 else if off == 7 then words + 256 else words)
  {
    var off := ArrayAt(b);
    if off >= 4 {
      NumberBytes(b, off);
    }
  }

  /** The number after one whose low byte has room. */
  lemma NumberBytes(b: seq<byte>, off: nat)
    requires off + 2 <= |b| && b[off] < 255
    ensures NextNumber(b, off) % 256 == b[off] + 1 && NextNumber(b, off) / 256 == b[off + 1]
  {
    assert U16(b, off) + 1 < 0x1_0000;
  }

  lemma Back(b: seq<byte>, sectors: nat, j: nat)
    requires HasArray(b) && ArrayAt(b) < 8 && ArrayAt(b) + 2 <= |b| && ArrayAt(b) + 2 * Words(b) <= SECTOR - 2
    requires sectors >= |b| / SECTOR && Returns(ArrayAt(b), Words(b), |b|)
    requires j < |b| && !InArray(ArrayAt(b), Words(b), j)
    ensures Restored(Stamped(b, sectors))[j] == b[j]
  {
    var off, words, n := ArrayAt(b), Words(b), |b| / SECTOR;
    var v, c := NextNumber(b, off), Stamped(b, sectors);
    var k := Reached(b, n);
    hide U16, NextNumber, ArrayAt, Words, StampedTo, RestoredTo;
    forall t: nat | t < 8 && !(off <= t < off + 2) && (k == 0 || t < off)
      ensures c[t] == b[t]
    {
      StampedStart(b, sectors, t);
    }
    StampedStart(b, sectors, j);
    NumberInHeader(b, c);
    RestoredNone(c, ArrayAt(c));
    if k > 0 {
      hide Stamped;
      assert off >= 6 && Lengthens(off, words, |b|) && n < words;
      assert HasArray(c) && Reached(c, n) == n == k;
      ByteBack(Word(b, off, v % 256, v / 256), c, off, k, v, j);
    }
  }

  /** A record of zeros, but for its header and one byte. */
  function Record(off: nat, words: nat, len: nat, one: nat): (b: seq<byte>)
    requires len >= 8 && off < 0x1_0000 && words < 0x1_0000
    ensures HasLayout(b, off, words, len)
    ensures forall j :: 0 <= j < len && !(4 <= j < 8) ==> b[j] == (if j == one then 1 else 0)
  {
    seq(len, j requires 0 <= j < len =>
      if j == 4 then off % 256 else if j == 5 then off / 256
      else if j == 6 then words % 256 else if j == 7 then words / 256
      else if j == one then 1 else 0)
  }

  lemma RestoredBefore(c: seq<byte>, j: nat)
    requires j < |c| && j < SECTOR - 2
    ensures Restored(c)[j] == c[j]
  {
    if HasArray(c) {
      RestoredStays(c, ArrayAt(c), Reached(c, |c| / SECTOR), 0, j);
    }
  }

  /** With no words at all the number itself is outside the array. */
  lemma LostNumber(b: seq<byte>, sectors: nat)
    requires HasArray(b) && ArrayAt(b) + 2 <= |b| && ArrayAt(b) <= SECTOR - 2 && Words(b) == 0
    requires sectors >= |b| / SECTOR && b[ArrayAt(b)] < 255
    ensures Restored(Stamped(b, sectors))[ArrayAt(b)] == b[ArrayAt(b)] + 1
  {
    var off, c := ArrayAt(b), Stamped(b, sectors);
    StampedStart(b, sectors, 0);
    NumberBytes(b, off);
    if off < SECTOR - 2 {
      RestoredBefore(c, off);
    } else {
      FieldsKept(b, c);
    }
  }

  /** An array over its own header that stays as long, or is not found again, leaves the number at the first
      sector's end, where there are zeros. */
  lemma LostEnd(b: seq<byte>, sectors: nat) returns (j: nat)
    requires HasArray(b) && ArrayAt(b) < 8 && ArrayAt(b) + 2 * Words(b) <= SECTOR - 2
    requires Words(b) >= 2 && |b| >= SECTOR && sectors >= |b| / SECTOR
    requires b == Record(ArrayAt(b), Words(b), |b|, if ArrayAt(b) == 5 then SECTOR - 1 else |b|)
    requires !Lengthens(ArrayAt(b), Words(b), |b|)
    ensures SECTOR - 2 <= j < SECTOR && Restored(Stamped(b, sectors))[j] != b[j]
  {
    var c := Stamped(b, sectors);
    hide Stamped, StampedTo, NextNumber, Record, Restored;
    StampedSector(b, sectors, 1);
    NumberBytes(b, ArrayAt(b));
    j := SECTOR - 2;
    if ArrayAt(b) == 5 {
      MovedArray(b, sectors);
      ZeroSaved(b, sectors, 129);
      RestoredAt261(c);
      j := if HasArray(c) then SECTOR - 1 else SECTOR - 2;
    } else {
      NothingRestored(b, sectors);
    }
  }

  lemma RestoredAt261(c: seq<byte>)
    requires |c| >= SECTOR && ArrayAt(c) == 261 && Words(c) >= 2
    ensures if HasArray(c) then Restored(c)[SECTOR - 1] == c[264] else Restored(c) == c
  {
    if HasArray(c) {
      RestoredNone(c, 261);
      RestoredStep(c, 261, 0);
      RestoredStays(c, 261, Reached(c, |c| / SECTOR), 1, SECTOR - 1);
    }
  }

  /** An array at byte 5 is looked for elsewhere. */
  lemma MovedArray(b: seq<byte>, sectors: nat)
    requires HasArray(b) && ArrayAt(b) == 5 && 5 + 2 * Words(b) <= SECTOR - 2 && |b| >= SECTOR
    requires sectors >= |b| / SECTOR
    ensures ArrayAt(Stamped(b, sectors)) == 261 && Words(Stamped(b, sectors)) % 256 == Words(b)
  {
    hide Stamped, StampedTo, NextNumber;
    StampedStart(b, sectors, 4);
    NumberBytes(b, 5);
  }

  lemma NothingRestored(b: seq<byte>, sectors: nat)
    requires HasArray(b) && ArrayAt(b) < 8 && ArrayAt(b) + 2 * Words(b) <= SECTOR - 2 && ArrayAt(b) != 5
    requires Words(b) >= 2 && |b| >= SECTOR && sectors >= |b| / SECTOR
    requires b == Record(ArrayAt(b), Words(b), |b|, |b|)
    requires !Lengthens(ArrayAt(b), Words(b), |b|)
    ensures Restored(Stamped(b, sectors)) == Stamped(b, sectors)
  {
    var off, c := ArrayAt(b), Stamped(b, sectors);
    hide Stamped, StampedTo, NextNumber, Record, Restored;
    StampedStart(b, sectors, 4);
    StampedStart(b, sectors, 5);
    StampedStart(b, sectors, 6);
    NumberBytes(b, off);
    if off < 5 {
      SavedOverHeader(b, sectors);
    }
    NoneRestored(c);
  }

  lemma NoneRestored(c: seq<byte>)
    requires |c| >= 8 && (!HasArray(c) || Words(c) == 0)
    ensures Restored(c) == c
  {
    RestoredNone(c, ArrayAt(c));
  }

  /** The zeros of the first two sectors' ends take the place of the header's fields, or of one of them. */
  lemma SavedOverHeader(b: seq<byte>, sectors: nat)
    requires HasArray(b) && ArrayAt(b) < 5 && ArrayAt(b) + 2 * Words(b) <= SECTOR - 2
    requires Words(b) >= 2 && |b| >= SECTOR && sectors >= |b| / SECTOR
    requires b == Record(ArrayAt(b), Words(b), |b|, |b|)
    ensures ArrayAt(Stamped(b, sectors)) == 0 || Words(Stamped(b, sectors)) == 0
  {
    hide Stamped, StampedTo, NextNumber, Record, Restored;
    StampedStart(b, sectors, 5);
    StampedStart(b, sectors, 7);
    StampedSector(b, sectors, 1);
    if Reached(b, |b| / SECTOR) >= 2 {
      StampedSector(b, sectors, 2);
    }
  }

  lemma ZeroSaved(b: seq<byte>, sectors: nat, i: nat)
    requires HasArray(b) && ArrayAt(b) == 5 && 5 + 2 * Words(b) <= SECTOR - 2
    requires |b| >= SECTOR && sectors >= |b| / SECTOR && 2 <= i && 5 + 2 * i + 1 < SECTOR - 2
    requires b == Record(5, Words(b), |b|, SECTOR - 1)
    ensures Stamped(b, sectors)[5 + 2 * i + 1] == 0
  {
    hide U16, ArrayAt, Words, Stamped, NextNumber, Record;
    if i <= Reached(b, |b| / SECTOR) {
      StampedSector(b, sectors, i);
    } else {
      StampedStart(b, sectors, 5 + 2 * i + 1);
    }
  }

  /** An array that grew over its own header has a sector restored that was not stamped, from the byte behind. */
  lemma LostSector(b: seq<byte>, sectors: nat)
    requires HasArray(b) && ArrayAt(b) < 8 && ArrayAt(b) + 2 * Words(b) <= SECTOR - 2 && Words(b) >= 1
    requires Lengthens(ArrayAt(b), Words(b), |b|) && sectors >= |b| / SECTOR >= Words(b)
    requires b == Record(ArrayAt(b), Words(b), |b|, ArrayAt(b) + 2 * Words(b))
    ensures EndOf(Words(b)) < |b| && Restored(Stamped(b, sectors))[EndOf(Words(b))] != b[EndOf(Words(b))]
  {
    var off, words, c := ArrayAt(b), Words(b), Stamped(b, sectors);
    hide Stamped, StampedTo, NextNumber, Record;
    StampedStart(b, sectors, 4);
    StampedStart(b, sectors, 5);
    StampedStart(b, sectors, 6);
    StampedStart(b, sectors, off + 2 * words);
    NumberInHeader(b, c);
    assert HasArray(c) && Reached(c, |c| / SECTOR) >= words;
    if off + 2 * words == SECTOR - 2 {
      StampedSector(b, sectors, 1);
    }
    FromBehind(c, off, Reached(c, |c| / SECTOR), words);
  }

  /** What sector i gets: the bytes in the array, or, where they are the first sector's end, what that got. */
  lemma FromBehind(c: seq<byte>, off: nat, k: nat, i: nat)
    requires SECTOR * k <= |c| && off + 2 * k + 2 <= |c| && 1 <= i <= k && off + 2 * i <= SECTOR - 2
    requires off + 2 * i == SECTOR - 2 ==> i > 1
    ensures EndOf(i) < |c|
    ensures RestoredTo(c, off, k)[EndOf(i)] == if off + 2 * i < SECTOR - 2 then c[off + 2 * i] else c[off + 2]
  {
    hide RestoredTo;
    RestoredNone(c, off);
    RestoredStep(c, off, i - 1);
    RestoredStays(c, off, k, i, EndOf(i));
    if off + 2 * i < SECTOR - 2 {
      RestoredStays(c, off, i - 1, 0, off + 2 * i);
    } else {
      RestoredStep(c, off, 0);
      RestoredStays(c, off, i - 1, 1, SECTOR - 2);
    }
  }

  /** A record that does not come back, in each other layout. */
  lemma Lost(off: nat, words: nat, len: nat, sectors: nat) returns (b: seq<byte>, j: nat)
    requires 0 < off && off + 2 * words <= SECTOR - 2 && len >= 8 && off + 2 * words <= len && off + 2 <= len
    requires sectors >= len / SECTOR && !Returns(off, words, len)
    ensures HasLayout(b, off, words, len) && j < len && !InArray(off, words, j)
    ensures Restored(Stamped(b, sectors))[j] != b[j]
  {
    hide Stamped, Restored;
    if words == 0 {
      b, j := Record(off, words, len, len), off;
      LostNumber(b, sectors);
    } else if Lengthens(off, words, len) {
      b, j := Record(off, words, len, off + 2 * words), EndOf(words);
      LostSector(b, sectors);
    } else {
      b := Record(off, words, len, if off == 5 then SECTOR - 1 else len);
      j := LostEnd(b, sectors);
    }
  }

  /** An array over the fields that say where it is does not come back: here it starts at byte 4. */
  lemma OverItsHeader(b: seq<byte>)
    requires |b| == SECTOR && b[4] == 4 && b[5] == 0 && b[6] == 2 && b[7] == 0 && b[510] == 2 && b[511] == 0
    ensures HasArray(b) && ArrayAt(b) + 2 * Words(b) <= SECTOR - 2 && !InArray(ArrayAt(b), Words(b), 510)
    ensures Restored(Stamped(b, 1))[510] != b[510]
  {
    var numbered := Word(b, 4, 5, 0);
    StampedNone(numbered, 4, 5);
    StampedStep(numbered, 4, 0, 5);
    var c := Stamped(b, 1);
    assert Reached(b, 1) == 1 && c == Swapped(numbered, 6, 510, 5);
    assert c[4] == 5 && c[5] == 0 && c[6] == 2 && c[7] == 0;
    assert HasArray(c) && ArrayAt(c) == 5 && Words(c) == 2;
    RestoredNone(c, 5);
    RestoredStep(c, 5, 0);
  }
}
