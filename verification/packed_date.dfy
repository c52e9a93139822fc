/** The 32-bit packed measurement date of the save file (`parse_wiifit_date`).
    Layout as the code extracts it: year in bits 30-20, zero-based month in
    bits 19-16, day in bits 15-11, hour in bits 10-6, minute in bits 5-0;
    bit 31 is ignored. Out-of-range fields are replaced, one by one, by a
    fixed default instead of rejecting the record. */
module PackedDate {

  /** A calendar tuple as it is put into `struct tm` before `mktime`. */
  datatype Timestamp = Timestamp(year: int, month: int, day: int, hour: int, minute: int, second: int)

  /** The raw bit fields of a packed date, month already shifted to 1-based. */
  datatype Fields = Fields(year: nat, month: nat, day: nat, hour: nat, minute: nat)

  const MinYear := 2006
  const MaxYear := 2030
  const DefaultYear := 2020

  /** The fields fit the widths of the packed layout. */
  predicate FitsLayout(f: Fields) {
    f.year < 0x800 && 1 <= f.month <= 0x10 && f.day < 0x20 && f.hour < 0x20 && f.minute < 0x40
  }

  /** Bit-field extraction, lines 65-69 of the decoder. */
  function Unpack(packed: nat): (f: Fields)
    requires packed < 0x1_0000_0000
    ensures FitsLayout(f)
  {
    Fields((packed / 0x10_0000) % 0x800,
           (packed / 0x1_0000) % 0x10 + 1,
           (packed / 0x800) % 0x20,
           (packed / 0x40) % 0x20,
           packed % 0x40)
  }

  /** The packing the layout describes: the inverse of `Unpack`. */
  function Pack(f: Fields): (packed: nat)
    requires FitsLayout(f)
    ensures packed < 0x8000_0000
  {
    f.year * 0x10_0000 + (f.month - 1) * 0x1_0000 + f.day * 0x800 + f.hour * 0x40 + f.minute
  }

  predicate InRange(t: Timestamp) {
    && MinYear <= t.year <= MaxYear
    && 1 <= t.month <= 12
    && 1 <= t.day <= 31
    && 0 <= t.hour <= 23
    && 0 <= t.minute <= 59
    && t.second == 0
  }

  /** A field kept when it lies in `lo..hi`, otherwise the default. */
  function Clamp(v: int, lo: int, hi: int, default: int): int {
    if lo <= v <= hi then v else default
  }

  /** The calendar tuple `parse_wiifit_date` hands to `mktime`. */
  function Decode(packed: nat): (t: Timestamp)
    requires packed < 0x1_0000_0000
    ensures InRange(t)
    ensures var f := Unpack(packed);
      && (MinYear <= f.year <= MaxYear ==> t.year == f.year)
      && (f.year < MinYear || f.year > MaxYear ==> t.year == DefaultYear)
      && (f.month <= 12 ==> t.month == f.month)
      && (f.month > 12 ==> t.month == 1)
      && (1 <= f.day ==> t.day == f.day)
      && (f.day == 0 ==> t.day == 1)
      && (f.hour <= 23 ==> t.hour == f.hour)
      && (f.hour > 23 ==> t.hour == 0)
      && (f.minute <= 59 ==> t.minute == f.minute)
      && (f.minute > 59 ==> t.minute == 0)
  {
    var f := Unpack(packed);
    Timestamp(Clamp(f.year, MinYear, MaxYear, DefaultYear),
              Clamp(f.month, 1, 12, 1),
              Clamp(f.day, 1, 31, 1),
              Clamp(f.hour, 0, 23, 0),
              Clamp(f.minute, 0, 59, 0),
              0)
  }

  // Division by each power of two of the layout undoes "times it plus a
  // smaller remainder"; one lemma per divisor keeps the arithmetic linear.

  lemma Split16(q: nat, r: nat)
    requires r < 0x10
    ensures (q * 0x10 + r) / 0x10 == q && (q * 0x10 + r) % 0x10 == r
  {
  }

  lemma Split32(q: nat, r: nat)
    requires r < 0x20
    ensures (q * 0x20 + r) / 0x20 == q && (q * 0x20 + r) % 0x20 == r
  {
  }

  lemma Split64(q: nat, r: nat)
    requires r < 0x40
    ensures (q * 0x40 + r) / 0x40 == q && (q * 0x40 + r) % 0x40 == r
  {
  }

  lemma Split2048(q: nat, r: nat)
    requires r < 0x800
    ensures (q * 0x800 + r) / 0x800 == q && (q * 0x800 + r) % 0x800 == r
  {
  }

  lemma Split16Bits(q: nat, r: nat)
    requires r < 0x1_0000
    ensures (q * 0x1_0000 + r) / 0x1_0000 == q
  {
  }

  lemma Split20Bits(q: nat, r: nat)
    requires r < 0x10_0000
    ensures (q * 0x10_0000 + r) / 0x10_0000 == q
  {
  }

  lemma Split31Bits(q: nat, r: nat)
    requires r < 0x8000_0000
    ensures (q * 0x8000_0000 + r) % 0x8000_0000 == r
  {
  }

  lemma {:induction false} UnpackPack(f: Fields)
    requires FitsLayout(f)
    ensures Unpack(Pack(f)) == f
  {
    var p := Pack(f);
    var m := f.month - 1;
    var low11 := f.hour * 0x40 + f.minute;
    var low16 := f.day * 0x800 + low11;
    var low20 := m * 0x1_0000 + low16;
    var top6 := (f.year * 0x10 + m) * 0x20 + f.day;
    assert p == f.year * 0x10_0000 + low20;
    Split20Bits(f.year, low20);
    Split2048(0, f.year);
    assert p == (f.year * 0x10 + m) * 0x1_0000 + low16;
    Split16Bits(f.year * 0x10 + m, low16);
    Split16(f.year, m);
    assert p == top6 * 0x800 + low11;
    Split2048(top6, low11);
    Split32(f.year * 0x10 + m, f.day);
    assert p == (top6 * 0x20 + f.hour) * 0x40 + f.minute;
    Split64(top6 * 0x20 + f.hour, f.minute);
    Split32(top6, f.hour);
  }

  /** Extraction loses only bit 31: packing the extracted fields gives back
      the low 31 bits. */
  lemma {:induction false} PackUnpack(packed: nat)
    requires packed < 0x1_0000_0000
    ensures Pack(Unpack(packed)) == packed % 0x8000_0000
  {
    var f := Unpack(packed);
    var q6, mi := packed / 0x40, packed % 0x40;
    var q11, h := q6 / 0x20, q6 % 0x20;
    var q16, d := q11 / 0x20, q11 % 0x20;
    var q20, mo := q16 / 0x10, q16 % 0x10;
    var top, y := q20 / 0x800, q20 % 0x800;
    var low11 := h * 0x40 + mi;
    var low16 := d * 0x800 + low11;
    var low20 := mo * 0x1_0000 + low16;
    assert packed == q11 * 0x800 + low11;
    Split2048(q11, low11);
    assert packed == q16 * 0x1_0000 + low16;
    Split16Bits(q16, low16);
    assert packed == q20 * 0x10_0000 + low20;
    Split20Bits(q20, low20);
    assert f == Fields(y, mo + 1, d, h, mi);
    assert packed == top * 0x8000_0000 + (y * 0x10_0000 + low20);
    Split31Bits(top, y * 0x10_0000 + low20);
  }

  /** A date the game could have written survives decoding unchanged. */
  lemma DecodePacked(t: Timestamp)
    requires InRange(t)
    ensures Decode(Pack(Fields(t.year, t.month, t.day, t.hour, t.minute))) == t
  {
    UnpackPack(Fields(t.year, t.month, t.day, t.hour, t.minute));
  }

  /** The sample date of the decoder's documentation. */
  lemma SampleDate()
    ensures Decode(0x7E74_55CF) == Timestamp(2023, 5, 10, 23, 15, 0)
  {
    assert Pack(Fields(2023, 5, 10, 23, 15)) == 0x7E74_55CF;
    DecodePacked(Timestamp(2023, 5, 10, 23, 15, 0));
  }
}
