/** The scanner's constant tables, checked against the code ranges RFC 1951 describes. */
module CodeTables {
  import opened Bits
  import opened Inflate

  const LENGTH_BASE: seq<nat> := [
    3, 4, 5, 6, 7, 8, 9, 10, 11, 13, 15, 17, 19, 23, 27, 31, 35, 43, 51, 59, 67, 83, 99, 115, 131, 163, 195, 227,
    258]
  const LENGTH_EXTRA: seq<nat> := [
    0, 0, 0, 0, 0, 0, 0, 0, 1, 1, 1, 1, 2, 2, 2, 2, 3, 3, 3, 3, 4, 4, 4, 4, 5, 5, 5, 5, 0]
  const DISTANCE_BASE: seq<nat> := [
    1, 2, 3, 4, 5, 7, 9, 13, 17, 25, 33, 49, 65, 97, 129, 193, 257, 385, 513, 769, 1025, 1537, 2049, 3073, 4097,
    6145, 8193, 12289, 16385, 24577]
  const DISTANCE_EXTRA: seq<nat> := [
    0, 0, 0, 0, 1, 1, 2, 2, 3, 3, 4, 4, 5, 5, 6, 6, 7, 7, 8, 8, 9, 9, 10, 10, 11, 11, 12, 12, 13, 13]
  const CODE_LENGTH_ORDER: seq<nat> := [16, 17, 18, 0, 8, 7, 9, 6, 10, 5, 11, 4, 12, 3, 13, 2, 14, 1, 15]

  /** 2^e for the extra-bit counts that occur. */
  function SmallPower(e: nat): nat {
    if e == 0 then 1 else if e == 1 then 2 else if e == 2 then 4 else if e == 3 then 8
    else if e == 4 then 16 else if e == 5 then 32 else if e == 6 then 64 else if e == 7 then 128
    else if e == 8 then 256 else if e == 9 then 512 else if e == 10 then 1024 else if e == 11 then 2048
    else if e == 12 then 4096 else 8192
  }

  lemma SmallPowerIsPow2(e: nat)
    requires e <= 13
    ensures SmallPower(e) == Pow2(e)
  {
    SmallPowers();
  }

  lemma LengthEntries(i: nat)
    requires i < LENGTH_CODES
    ensures |LENGTH_BASE| == |LENGTH_EXTRA| == LENGTH_CODES
    ensures LENGTH_EXTRA[i] == LengthExtra(i)
    ensures LENGTH_BASE[0] == 3 && LENGTH_BASE[28] == 258
    ensures 0 < i < 28 ==> LENGTH_BASE[i] == LENGTH_BASE[i - 1] + SmallPower(LENGTH_EXTRA[i - 1])
  {}

  /** The length table is the one of section 3.2.5. */
  lemma {:induction false} LengthTable(i: nat)
    requires i < LENGTH_CODES
    ensures |LENGTH_BASE| == |LENGTH_EXTRA| == LENGTH_CODES
    ensures LENGTH_BASE[i] == LengthBase(i) && LENGTH_EXTRA[i] == LengthExtra(i)
  {
    hide LENGTH_BASE, LENGTH_EXTRA, LengthExtra, SmallPower, Pow2;
    LengthEntries(i);
    if 0 < i < 28 {
      LengthTable(i - 1);
      SmallPowerIsPow2(LengthExtra(i - 1));
    }
  }

  lemma DistanceEntries(d: nat)
    requires d < DISTANCE_CODES
    ensures |DISTANCE_BASE| == |DISTANCE_EXTRA| == DISTANCE_CODES
    ensures DISTANCE_EXTRA[d] == DistanceExtra(d)
    ensures DISTANCE_BASE[0] == 1
    ensures 0 < d ==> DISTANCE_BASE[d] == DISTANCE_BASE[d - 1] + SmallPower(DISTANCE_EXTRA[d - 1])
  {}

  /** The distance table is the one of section 3.2.5. */
  lemma {:induction false} DistanceTable(d: nat)
    requires d < DISTANCE_CODES
    ensures |DISTANCE_BASE| == |DISTANCE_EXTRA| == DISTANCE_CODES
    ensures DISTANCE_BASE[d] == DistanceBase(d) && DISTANCE_EXTRA[d] == DistanceExtra(d)
  {
    hide DISTANCE_BASE, DISTANCE_EXTRA, DistanceExtra, SmallPower, Pow2;
    DistanceEntries(d);
    if 0 < d {
      DistanceTable(d - 1);
      SmallPowerIsPow2(DistanceExtra(d - 1));
    }
  }

  lemma OrderTable(i: nat)
    requires i < CODE_LENGTH_CODES
    ensures |CODE_LENGTH_ORDER| == CODE_LENGTH_CODES && CODE_LENGTH_ORDER[i] == CodeLengthOrder(i)
  {}

  /** Base and extra bits of a length code. */
  method LengthCode(i: nat) returns (base: nat, extra: nat)
    requires i < LENGTH_CODES
    ensures base == LengthBase(i) && extra == LengthExtra(i)
  {
    LengthTable(i);
    base, extra := LENGTH_BASE[i], LENGTH_EXTRA[i];
  }

  /** Base and extra bits of a distance code. */
  method DistanceCode(d: nat) returns (base: nat, extra: nat)
    requires d < DISTANCE_CODES
    ensures base == DistanceBase(d) && extra == DistanceExtra(d)
  {
    DistanceTable(d);
    base, extra := DISTANCE_BASE[d], DISTANCE_EXTRA[d];
  }
}
