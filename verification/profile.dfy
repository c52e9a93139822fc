/** One profile block of the save file (`parse_profile`): the Mii name, the
    height, the BCD birth date and the body-measurement table. Offsets and
    the 21-octet record stride at 0x3661 are the ones the code uses. */
module ProfileDecoder {
  import opened Bytes
  import opened Wrappers
  import opened PackedDate
  import Utf

  const MaxProfiles := 8
  const MaxMeasurements := 1024
  const ProfileSize := 0x9289
  const NameOffset := 0x08
  /** The name field holds ten UTF-16BE code units. */
  const NameUnits := 10
  const HeightOffset := 0x1F
  const DobOffset := 0x20
  const MeasurementOffset := 0x3661
  const MeasurementRecordSize := 21
  /** Plausible weights, in tenths of a kilogram: 30.0 kg to 150.0 kg. */
  const MinWeightRaw := 300
  const MaxWeightRaw := 1500

  /** One body test. Weight, BMI and balance stay the fixed-point integers
      of the file (tenths, hundredths, tenths) instead of floats. */
  datatype Measurement = Measurement(
    timestamp: Timestamp,
    weightTenths: int,
    bmiHundredths: int,
    balanceTenths: int,
    hasExtendedData: bool)

  /** An exercise record; the decoder never produces one, but the encoder
      can render them. */
  datatype Activity = Activity(
    timestamp: Timestamp,
    kind: int,
    name: string,
    durationMin: nat,
    calories: nat,
    score: nat)

  datatype Profile = Profile(
    name: seq<Byte>,
    heightCm: Byte,
    birthYear: nat,
    birthMonth: nat,
    birthDay: nat,
    measurements: seq<Measurement>,
    activities: seq<Activity>)

  /** Offset of measurement record `i` inside the profile block. */
  function RecordStart(i: nat): nat {
    MeasurementOffset + MeasurementRecordSize * i
  }

  /** The guard of the scan: record `i` ends inside the profile block. */
  predicate RecordInBlock(i: nat) {
    RecordStart(i) + MeasurementRecordSize <= ProfileSize
  }

  function WeightAt(block: seq<Byte>, i: nat): nat
    requires |block| == ProfileSize && RecordInBlock(i)
  {
    ReadBe16(block, RecordStart(i) + 4)
  }

  /** Record `i` is one the scan accepts: within the cap, inside the block,
      and with a plausible weight (the validity oracle). */
  predicate IsValidRecord(block: seq<Byte>, i: nat)
    requires |block| == ProfileSize
  {
    i < MaxMeasurements && RecordInBlock(i) && MinWeightRaw <= WeightAt(block, i) <= MaxWeightRaw
  }

  function DecodeRecord(block: seq<Byte>, i: nat): Measurement
    requires |block| == ProfileSize && RecordInBlock(i)
  {
    var s := RecordStart(i);
    Measurement(Decode(ReadBe32(block, s)), WeightAt(block, i), ReadBe16(block, s + 6), ReadBe16(block, s + 8), false)
  }

  /** The measurement loop from record `i` on: the number of consecutive
      valid records starting at `i`. */
  function ValidRunFrom(block: seq<Byte>, i: nat): (n: nat)
    requires |block| == ProfileSize && i <= MaxMeasurements
    decreases MaxMeasurements - i
    ensures i + n <= MaxMeasurements
  {
    if i >= MaxMeasurements || !RecordInBlock(i) then 0
    else if WeightAt(block, i) < MinWeightRaw || WeightAt(block, i) > MaxWeightRaw then 0
    else 1 + ValidRunFrom(block, i + 1)
  }

  /** The run from `i` covers only valid records and ends at an invalid one
      or at the cap. */
  lemma ValidRunFromSpec(block: seq<Byte>, i: nat)
    requires |block| == ProfileSize && i <= MaxMeasurements
    ensures forall k :: i <= k < i + ValidRunFrom(block, i) ==> IsValidRecord(block, k)
    ensures i + ValidRunFrom(block, i) < MaxMeasurements ==> !IsValidRecord(block, i + ValidRunFrom(block, i))
  {
    ValidRunAllValid(block, i);
    ValidRunEnd(block, i);
  }

  lemma {:induction false} ValidRunAllValid(block: seq<Byte>, i: nat)
    requires |block| == ProfileSize && i <= MaxMeasurements
    decreases MaxMeasurements - i
    ensures forall k :: i <= k < i + ValidRunFrom(block, i) ==> IsValidRecord(block, k)
  {
    if IsValidRecord(block, i) {
      var n := ValidRunFrom(block, i + 1);
      assert ValidRunFrom(block, i) == 1 + n;
      ValidRunAllValid(block, i + 1);
    } else {
      assert ValidRunFrom(block, i) == 0;
    }
  }

  lemma {:induction false} ValidRunEnd(block: seq<Byte>, i: nat)
    requires |block| == ProfileSize && i <= MaxMeasurements
    decreases MaxMeasurements - i
    ensures i + ValidRunFrom(block, i) < MaxMeasurements ==> !IsValidRecord(block, i + ValidRunFrom(block, i))
  {
    if IsValidRecord(block, i) {
      var n := ValidRunFrom(block, i + 1);
      assert ValidRunFrom(block, i) == 1 + n;
      ValidRunEnd(block, i + 1);
      assert i + ValidRunFrom(block, i) == (i + 1) + n;
    } else {
      assert ValidRunFrom(block, i) == 0;
    }
  }

  /** Number of measurements the scan keeps. */
  function MeasurementCount(block: seq<Byte>): (n: nat)
    requires |block| == ProfileSize
    ensures n <= MaxMeasurements
  {
    ValidRunFrom(block, 0)
  }

  /** The measurement list of a profile block: records `0..k-1`, in order. */
  function Measurements(block: seq<Byte>): (r: seq<Measurement>)
    requires |block| == ProfileSize
    ensures |r| == MeasurementCount(block)
    ensures forall k :: 0 <= k < |r| ==> r[k] == DecodeRecord(block, k)
  {
    seq(MeasurementCount(block), k requires 0 <= k < MaxMeasurements => DecodeRecord(block, k))
  }

  /** The measurement list is exactly records `0..k-1`, where `k` is the
      first record whose weight is implausible, or 1024; every kept weight
      lies in 300..1500 tenths of a kilogram. */
  lemma MeasurementsSpec(block: seq<Byte>)
    requires |block| == ProfileSize
    ensures var r := Measurements(block);
      && (forall k :: 0 <= k < |r| ==> IsValidRecord(block, k))
      && (|r| < MaxMeasurements ==> !IsValidRecord(block, |r|))
      && (forall k :: 0 <= k < |r| ==> MinWeightRaw <= r[k].weightTenths <= MaxWeightRaw && !r[k].hasExtendedData)
  {
    ValidRunFromSpec(block, 0);
    var r := Measurements(block);
    forall k | 0 <= k < |r|
      ensures MinWeightRaw <= r[k].weightTenths <= MaxWeightRaw && !r[k].hasExtendedData
    {
      assert IsValidRecord(block, k);
      assert r[k] == DecodeRecord(block, k);
      assert r[k].weightTenths == WeightAt(block, k);
    }
  }

  /** The end-of-block guard of the scan never stops it: all 1024 records
      lie inside the block. */
  lemma SizeGuardNeverBinds(i: nat)
    requires i < MaxMeasurements
    ensures RecordInBlock(i)
  {
  }

  /** Birth year: the four BCD nibbles of a big-endian 16-bit field. */
  function BcdYear(v: nat): (y: nat)
    requires v < 0x1_0000
    ensures y <= 15 * 1111
  {
    ((v / 0x1000) % 0x10) * 1000 + ((v / 0x100) % 0x10) * 100 + ((v / 0x10) % 0x10) * 10 + v % 0x10
  }

  /** Birth month or day: the two BCD nibbles of one octet. */
  function BcdByte(b: Byte): (n: nat)
    ensures n <= 15 * 11
  {
    ((b / 0x10) % 0x10) * 10 + b % 0x10
  }

  /** The BCD field the game writes for a year of four decimal digits. */
  function EncodeBcdYear(y: nat): (v: nat)
    requires y < 10000
    ensures v < 0x1_0000
  {
    var t1 := y / 10;
    var t2 := t1 / 10;
    ((t2 / 10) * 0x10 + t2 % 10) * 0x100 + (t1 % 10) * 0x10 + y % 10
  }

  function EncodeBcdByte(n: nat): Byte
    requires n < 100
  {
    (n / 10) * 0x10 + n % 10
  }

  /** Dividing `a * 16 + b` by 16, for a nibble `b`. */
  lemma NibbleSplit(a: nat, b: nat)
    requires b < 0x10
    ensures (a * 0x10 + b) / 0x10 == a && (a * 0x10 + b) % 0x10 == b
  {
  }

  /** Dividing `a * 4096 + b` by 4096, for three nibbles `b`. */
  lemma NibblesSplit(a: nat, b: nat)
    requires b < 0x1000
    ensures (a * 0x1000 + b) / 0x1000 == a
  {
  }

  /** Reading back four nibbles, each a decimal digit. */
  lemma BcdYearOfDigits(d3: nat, d2: nat, d1: nat, d0: nat)
    requires d3 < 10 && d2 < 10 && d1 < 10 && d0 < 10
    ensures BcdYear(((d3 * 0x10 + d2) * 0x10 + d1) * 0x10 + d0) == d3 * 1000 + d2 * 100 + d1 * 10 + d0
  {
    var hi := d3 * 0x10 + d2;
    var a := hi * 0x10 + d1;
    var v := a * 0x10 + d0;
    NibbleSplit(a, d0);
    NibbleSplit(hi, d1);
    assert v == hi * 0x100 + (d1 * 0x10 + d0);
    ShiftOctet(hi, d1 * 0x10 + d0);
    NibbleSplit(d3, d2);
    assert v == d3 * 0x1000 + (d2 * 0x100 + d1 * 0x10 + d0);
    NibblesSplit(d3, d2 * 0x100 + d1 * 0x10 + d0);
    assert (v / 0x1000) % 0x10 == d3;
    assert (v / 0x100) % 0x10 == d2;
    assert (v / 0x10) % 0x10 == d1;
    assert v % 0x10 == d0;
  }

  lemma {:induction false} BcdYearRoundTrip(y: nat)
    requires y < 10000
    ensures BcdYear(EncodeBcdYear(y)) == y
  {
    var t1 := y / 10;
    var t2 := t1 / 10;
    var d3, d2, d1, d0 := t2 / 10, t2 % 10, t1 % 10, y % 10;
    assert t2 == d3 * 10 + d2;
    assert t1 == t2 * 10 + d1;
    assert y == t1 * 10 + d0;
    assert EncodeBcdYear(y) == ((d3 * 0x10 + d2) * 0x10 + d1) * 0x10 + d0;
    BcdYearOfDigits(d3, d2, d1, d0);
  }

  lemma BcdByteRoundTrip(n: nat)
    requires n < 100
    ensures BcdByte(EncodeBcdByte(n)) == n
  {
  }

  /** Size of the `name` array of a profile record. */
  const NameFieldSize := 24

  /** The C string that `name` holds once `parse_profile` has returned, given
      the transcoder's output `out`. Up to 23 octets fit with their NUL. At 24
      or 25 octets the array is full: octet 24 and the NUL fall on `height_cm`
      and the padding octet after it, the height store then overwrites octet
      24, and the string runs on through the height octet up to the zero
      padding octet. */
  function NameString(out: seq<Byte>, height: Byte): (r: seq<Byte>)
    requires |out| <= Utf.OutputLimit + 2
    ensures |r| <= NameFieldSize + 1
    ensures |out| < NameFieldSize ==> r == out
    ensures |out| >= NameFieldSize ==> NameFieldSize <= |r| && r[..NameFieldSize] == out[..NameFieldSize]
    ensures |r| > NameFieldSize <==> |out| >= NameFieldSize && height != 0
    ensures |r| > NameFieldSize ==> r[NameFieldSize] == height
    ensures r == [] <==> out == []
  {
    if |out| < NameFieldSize then out
    else out[..NameFieldSize] + (if height == 0 then [] else [height])
  }

  /** `parse_profile` on one profile block: `None` for an unused slot. The
      name is the one the code as written leaves in the record. */
  function ParseProfile(block: seq<Byte>): (r: Option<Profile>)
    requires |block| == ProfileSize
    ensures r.None? <==> ReadBe16(block, NameOffset) == 0
    ensures r.Some? ==>
      && r.value.name == NameString(Utf.Utf16beToUtf8(block[NameOffset..NameOffset + 2 * NameUnits], NameUnits),
                                    block[HeightOffset])
      && 1 <= |r.value.name| <= NameFieldSize + 1
      && r.value.heightCm == block[HeightOffset]
      && r.value.birthYear == BcdYear(ReadBe16(block, DobOffset))
      && r.value.birthMonth == BcdByte(block[DobOffset + 2])
      && r.value.birthDay == BcdByte(block[DobOffset + 3])
      && r.value.measurements == Measurements(block)
      && r.value.activities == []
  {
    var field := block[NameOffset..NameOffset + 2 * NameUnits];
    assert Utf.Unit(field, 0) == ReadBe16(block, NameOffset);
    var out := Utf.Utf16beToUtf8(field, NameUnits);
    if out == [] then None
    else
      Some(Profile(NameString(out, block[HeightOffset]), block[HeightOffset],
                   BcdYear(ReadBe16(block, DobOffset)),
                   BcdByte(block[DobOffset + 2]),
                   BcdByte(block[DobOffset + 3]),
                   Measurements(block),
                   []))
  }

  /** Whenever the transcoder stays within the field, the stored name is
      exactly its output, and the corrected transcoder gives the same. */
  lemma ShortNameStored(block: seq<Byte>)
    requires |block| == ProfileSize
    requires |Utf.Utf16beToUtf8(block[NameOffset..NameOffset + 2 * NameUnits], NameUnits)| <= Utf.OutputLimit
    ensures var field := block[NameOffset..NameOffset + 2 * NameUnits];
      ParseProfile(block).Some? ==>
        ParseProfile(block).value.name == Utf.Utf16beToUtf8(field, NameUnits) == Utf.Utf16beToUtf8Fitted(field, NameUnits)
  {
    Utf.TranscodersAgree(block[NameOffset..NameOffset + 2 * NameUnits], NameUnits);
  }

  /** The overlong name of the transcoder's witness, with a height of 170 cm:
      the stored string is the first 24 octets, then the height octet in
      place of the transcoder's 25th octet. */
  lemma OverlongNameStored()
    ensures var out := Utf.Utf16beToUtf8(Utf.OverlongName, NameUnits);
      && |out| == 25
      && var s := NameString(out, 170);
      && |s| == 25 && s[..24] == out[..24] && s[24] == 170 && s[24] != out[24]
  {
    Utf.OverlongNameWitness();
  }
}
