/** UTF-16BE to UTF-8 transcoding of the profile name (`utf16be_to_utf8`),
    using only the one-, two- and three-octet forms of section 3 of RFC 3629
    (no surrogate pairs). */
module Utf {
  import opened Bytes
  import opened Wrappers

  /** A new code unit is started only while fewer than this many octets have
      been written (`j < 23`). */
  const OutputLimit := 23

  /** Octets of the UTF-8 form chosen for a 16-bit code unit. */
  function Width(u: nat): nat {
    if u < 0x80 then 1 else if u < 0x800 then 2 else 3
  }

  predicate IsContinuation(b: Byte) {
    0x80 <= b < 0xC0
  }

  /** The UTF-8 octets the transcoder writes for one code unit; `0xC0 | x`
      and `0x80 | x` are sums because `x` never overlaps the tag bits. */
  function EncodeUnit(u: nat): (r: seq<Byte>)
    requires u < 0x1_0000
    ensures |r| == Width(u)
    ensures forall k :: 1 <= k < |r| ==> IsContinuation(r[k])
  {
    if u < 0x80 then [u]
    else if u < 0x800 then [0xC0 + u / 0x40, 0x80 + u % 0x40]
    else [0xE0 + u / 0x1000, 0x80 + (u / 0x40) % 0x40, 0x80 + u % 0x40]
  }

  predicate AllUnits(us: seq<nat>) {
    forall k :: 0 <= k < |us| ==> us[k] < 0x1_0000
  }

  function EncodeUnits(us: seq<nat>): (r: seq<Byte>)
    requires AllUnits(us)
  {
    if |us| == 0 then [] else EncodeUnit(us[0]) + EncodeUnits(us[1..])
  }

  function Prepend(u: nat, rest: Option<seq<nat>>): Option<seq<nat>> {
    match rest
    case None => None
    case Some(us) => Some([u] + us)
  }

  /** A decoder for the same three forms, used as the transcoder's partner. */
  function DecodeUtf8(bs: seq<Byte>): Option<seq<nat>>
    decreases |bs|
  {
    if |bs| == 0 then Some([])
    else if bs[0] < 0x80 then Prepend(bs[0], DecodeUtf8(bs[1..]))
    else if 0xC0 <= bs[0] < 0xE0 && 2 <= |bs| && IsContinuation(bs[1]) then
      Prepend((bs[0] as int - 0xC0) * 0x40 + (bs[1] as int - 0x80), DecodeUtf8(bs[2..]))
    else if 0xE0 <= bs[0] < 0xF0 && 3 <= |bs| && IsContinuation(bs[1]) && IsContinuation(bs[2]) then
      Prepend((bs[0] as int - 0xE0) * 0x1000 + (bs[1] as int - 0x80) * 0x40 + (bs[2] as int - 0x80),
              DecodeUtf8(bs[3..]))
    else None
  }

  lemma DecodeUnitThen(u: nat, rest: seq<Byte>)
    requires u < 0x1_0000
    ensures DecodeUtf8(EncodeUnit(u) + rest) == Prepend(u, DecodeUtf8(rest))
  {
    var e := EncodeUnit(u);
    var bs := e + rest;
    assert bs[Width(u)..] == rest;
    assert bs[..Width(u)] == e;
    if u < 0x80 {
      assert bs[0] == u;
    } else if u < 0x800 {
      TwoOctetValue(u);
      assert bs[0] == e[0] && bs[1] == e[1];
    } else {
      ThreeOctetValue(u);
      assert bs[0] == e[0] && bs[1] == e[1] && bs[2] == e[2];
    }
  }

  /** The two-octet form carries the unit's upper five and lower six bits. */
  lemma TwoOctetValue(u: nat)
    requires 0x80 <= u < 0x800
    ensures var e := EncodeUnit(u);
      0xC0 <= e[0] < 0xE0 && IsContinuation(e[1]) && (e[0] as int - 0xC0) * 0x40 + (e[1] as int - 0x80) == u
  {
  }

  /** The three-octet form carries the unit's upper four, middle six and
      lower six bits. */
  lemma ThreeOctetValue(u: nat)
    requires 0x800 <= u < 0x1_0000
    ensures var e := EncodeUnit(u);
      0xE0 <= e[0] < 0xF0 && IsContinuation(e[1]) && IsContinuation(e[2])
      && (e[0] as int - 0xE0) * 0x1000 + (e[1] as int - 0x80) * 0x40 + (e[2] as int - 0x80) == u
  {
    var q := u / 0x40;
    assert u == q * 0x40 + u % 0x40;
    assert q == (q / 0x40) * 0x40 + q % 0x40;
    assert u == (q / 0x40) * 0x1000 + ((q % 0x40) * 0x40 + u % 0x40);
    SixBits(q / 0x40, (q % 0x40) * 0x40 + u % 0x40);
  }

  /** Division by 4096 undoes "times 4096 plus a remainder below 4096". */
  lemma SixBits(q: nat, r: nat)
    requires r < 0x1000
    ensures (q * 0x1000 + r) / 0x1000 == q
  {
  }

  lemma {:induction false} EncodeUnitsRoundTrip(us: seq<nat>)
    requires AllUnits(us)
    ensures DecodeUtf8(EncodeUnits(us)) == Some(us)
  {
    if |us| > 0 {
      EncodeUnitsRoundTrip(us[1..]);
      DecodeUnitThen(us[0], EncodeUnits(us[1..]));
      assert [us[0]] + us[1..] == us;
    }
  }

  /** Code unit `i` of a UTF-16BE source. */
  function Unit(src: seq<Byte>, i: nat): (u: nat)
    requires 2 * i + 2 <= |src|
    ensures u < 0x1_0000
  {
    ReadBe16(src, 2 * i)
  }

  /** Code units `a..b-1` of a UTF-16BE source. */
  function UnitsOf(src: seq<Byte>, a: nat, b: nat): (us: seq<nat>)
    requires a <= b && 2 * b <= |src|
    decreases b - a
    ensures |us| == b - a && AllUnits(us)
  {
    if a == b then [] else [Unit(src, a)] + UnitsOf(src, a + 1, b)
  }

  /** What the transcoder loop produced: the octets and how many code units
      it encoded. */
  datatype Transcoded = Transcoded(bytes: seq<Byte>, units: nat)

  /** The loop of `utf16be_to_utf8` from unit `i` with `out` already written,
      as the code is written. */
  function TranscodeFrom(src: seq<Byte>, maxChars: nat, i: nat, out: seq<Byte>): (r: Transcoded)
    requires 2 * maxChars <= |src| && i <= maxChars
    decreases maxChars - i
    ensures i <= r.units <= maxChars
  {
    if i >= maxChars || |out| >= OutputLimit then Transcoded(out, i)
    else if Unit(src, i) == 0 then Transcoded(out, i)
    else TranscodeFrom(src, maxChars, i + 1, out + EncodeUnit(Unit(src, i)))
  }

  lemma AppendAssoc(a: seq<Byte>, b: seq<Byte>, c: seq<Byte>)
    ensures a + b + c == a + (b + c)
  {
  }

  lemma EncodeUnitsCons(u: nat, rest: seq<nat>)
    requires u < 0x1_0000 && AllUnits(rest)
    ensures EncodeUnits([u] + rest) == EncodeUnit(u) + EncodeUnits(rest)
  {
    assert ([u] + rest)[1..] == rest;
  }

  /** What the loop writes: the encoding of exactly the units it read. */
  lemma {:induction false} TranscodeFromOutput(src: seq<Byte>, maxChars: nat, i: nat, out: seq<Byte>)
    requires 2 * maxChars <= |src| && i <= maxChars
    decreases maxChars - i
    ensures var r := TranscodeFrom(src, maxChars, i, out);
      r.bytes == out + EncodeUnits(UnitsOf(src, i, r.units))
  {
    if i < maxChars && |out| < OutputLimit && Unit(src, i) != 0 {
      var u := Unit(src, i);
      var r := TranscodeFrom(src, maxChars, i + 1, out + EncodeUnit(u));
      assert TranscodeFrom(src, maxChars, i, out) == r;
      TranscodeFromOutput(src, maxChars, i + 1, out + EncodeUnit(u));
      var rest := UnitsOf(src, i + 1, r.units);
      assert UnitsOf(src, i, r.units) == [u] + rest;
      EncodeUnitsCons(u, rest);
      AppendAssoc(out, EncodeUnit(u), EncodeUnits(rest));
    } else {
      assert out + EncodeUnits(UnitsOf(src, i, i)) == out;
    }
  }

  /** The loop only appends. */
  lemma {:induction false} TranscodeFromGrows(src: seq<Byte>, maxChars: nat, i: nat, out: seq<Byte>)
    requires 2 * maxChars <= |src| && i <= maxChars
    decreases maxChars - i
    ensures |out| <= |TranscodeFrom(src, maxChars, i, out).bytes|
  {
    if i < maxChars && |out| < OutputLimit && Unit(src, i) != 0 {
      TranscodeFromGrows(src, maxChars, i + 1, out + EncodeUnit(Unit(src, i)));
    }
  }

  /** A unit is started only below 23 octets and adds at most 3, so the loop
      never writes more than 25 octets. */
  lemma {:induction false} TranscodeFromBound(src: seq<Byte>, maxChars: nat, i: nat, out: seq<Byte>)
    requires 2 * maxChars <= |src| && i <= maxChars
    requires |out| <= OutputLimit + 2
    decreases maxChars - i
    ensures |TranscodeFrom(src, maxChars, i, out).bytes| <= OutputLimit + 2
  {
    if i < maxChars && |out| < OutputLimit && Unit(src, i) != 0 {
      TranscodeFromBound(src, maxChars, i + 1, out + EncodeUnit(Unit(src, i)));
    }
  }

  /** Every unit the loop read is nonzero. */
  lemma {:induction false} TranscodeFromNonzero(src: seq<Byte>, maxChars: nat, i: nat, out: seq<Byte>)
    requires 2 * maxChars <= |src| && i <= maxChars
    decreases maxChars - i
    ensures var r := TranscodeFrom(src, maxChars, i, out);
      forall j :: i <= j < r.units ==> Unit(src, j) != 0
  {
    if i < maxChars && |out| < OutputLimit && Unit(src, i) != 0 {
      TranscodeFromNonzero(src, maxChars, i + 1, out + EncodeUnit(Unit(src, i)));
    }
  }

  /** Why the loop stopped: at the unit limit, at a zero unit, or once 23
      octets are written; and the last unit it wrote was started below 23. */
  lemma {:induction false} TranscodeFromStops(src: seq<Byte>, maxChars: nat, i: nat, out: seq<Byte>)
    requires 2 * maxChars <= |src| && i <= maxChars
    decreases maxChars - i
    ensures var r := TranscodeFrom(src, maxChars, i, out);
      && (r.units > i ==> |r.bytes| - Width(Unit(src, r.units - 1)) < OutputLimit)
      && (r.units < maxChars ==> Unit(src, r.units) == 0 || |r.bytes| >= OutputLimit)
  {
    var r := TranscodeFrom(src, maxChars, i, out);
    if i < maxChars && |out| < OutputLimit && Unit(src, i) != 0 {
      var u := Unit(src, i);
      var out' := out + EncodeUnit(u);
      assert r == TranscodeFrom(src, maxChars, i + 1, out');
      TranscodeFromStops(src, maxChars, i + 1, out');
      if r.units == i + 1 {
        assert r.bytes == out';
        assert |out'| - Width(u) == |out|;
      }
    } else {
      assert r == Transcoded(out, i);
    }
  }

  /** `utf16be_to_utf8(src, dst, maxChars)` as written: the octets placed in
      `dst` before the terminating NUL. */
  function Utf16beToUtf8(src: seq<Byte>, maxChars: nat): (r: seq<Byte>)
    requires 2 * maxChars <= |src|
    ensures |r| <= OutputLimit + 2
    ensures |r| <= 3 * maxChars
    ensures DecodeUtf8(r) == Some(UnitsOf(src, 0, UnitsRead(src, maxChars)))
    ensures r == [] <==> maxChars == 0 || Unit(src, 0) == 0
  {
    var t := TranscodeFrom(src, maxChars, 0, []);
    TranscodeFromOutput(src, maxChars, 0, []);
    TranscodeFromBound(src, maxChars, 0, []);
    TranscodeFromNonzero(src, maxChars, 0, []);
    TranscodeFromStops(src, maxChars, 0, []);
    assert t.bytes == EncodeUnits(UnitsOf(src, 0, t.units)) by {
      assert [] + EncodeUnits(UnitsOf(src, 0, t.units)) == EncodeUnits(UnitsOf(src, 0, t.units));
    }
    EncodeUnitsRoundTrip(UnitsOf(src, 0, t.units));
    EncodeUnitsLength(UnitsOf(src, 0, t.units));
    t.bytes
  }

  /** Number of code units the transcoder encodes before it stops. */
  function UnitsRead(src: seq<Byte>, maxChars: nat): (n: nat)
    requires 2 * maxChars <= |src|
    ensures n <= maxChars
    ensures forall j :: 0 <= j < n ==> Unit(src, j) != 0
  {
    TranscodeFromNonzero(src, maxChars, 0, []);
    TranscodeFrom(src, maxChars, 0, []).units
  }

  lemma {:induction false} EncodeUnitsLength(us: seq<nat>)
    requires AllUnits(us)
    ensures |us| <= |EncodeUnits(us)| <= 3 * |us|
  {
    if |us| > 0 {
      EncodeUnitsLength(us[1..]);
    }
  }

  lemma SameUnit(src: seq<Byte>, src': seq<Byte>, i: nat)
    requires 2 * i + 2 <= |src| && 2 * i + 2 <= |src'|
    requires src[2 * i] == src'[2 * i] && src[2 * i + 1] == src'[2 * i + 1]
    ensures Unit(src, i) == Unit(src', i)
  {
  }

  /** The transcoder never looks past the first `2 * maxChars` source octets. */
  lemma {:induction false} TranscodeReadsPrefix(src: seq<Byte>, maxChars: nat, i: nat, out: seq<Byte>)
    requires 2 * maxChars <= |src| && i <= maxChars
    decreases maxChars - i
    ensures TranscodeFrom(src, maxChars, i, out) == TranscodeFrom(src[..2 * maxChars], maxChars, i, out)
  {
    var src' := src[..2 * maxChars];
    if i < maxChars && |out| < OutputLimit {
      SameUnit(src, src', i);
      var u := Unit(src, i);
      if u != 0 {
        TranscodeReadsPrefix(src, maxChars, i + 1, out + EncodeUnit(u));
      }
    }
  }

  lemma ReadsAtMostTwiceMaxChars(src: seq<Byte>, maxChars: nat)
    requires 2 * maxChars <= |src|
    ensures Utf16beToUtf8(src, maxChars) == Utf16beToUtf8(src[..2 * maxChars], maxChars)
  {
    TranscodeReadsPrefix(src, maxChars, 0, []);
  }

  /** The loop with the evidently intended bound: a unit is started only when
      all of its octets still fit below the 23-octet limit, so the name and
      its NUL always fit the 24-octet `name` field. */
  function FitFrom(src: seq<Byte>, maxChars: nat, i: nat, out: seq<Byte>): (r: seq<Byte>)
    requires 2 * maxChars <= |src| && i <= maxChars
    requires |out| <= OutputLimit
    decreases maxChars - i
    ensures |out| <= |r| <= OutputLimit
    ensures r[..|out|] == out
  {
    if i >= maxChars || Unit(src, i) == 0 || |out| + Width(Unit(src, i)) > OutputLimit then out
    else FitFrom(src, maxChars, i + 1, out + EncodeUnit(Unit(src, i)))
  }

  /** The corrected transcoder used for profile names. */
  function Utf16beToUtf8Fitted(src: seq<Byte>, maxChars: nat): (r: seq<Byte>)
    requires 2 * maxChars <= |src|
    ensures |r| <= OutputLimit
    ensures r == [] <==> maxChars == 0 || Unit(src, 0) == 0
  {
    FitFrom(src, maxChars, 0, [])
  }

  /** Both loops write the same octets whenever the code as written stays
      within 23 octets, which is every name of ASCII or two-octet
      characters. */
  lemma {:induction false} FitFromAgrees(src: seq<Byte>, maxChars: nat, i: nat, out: seq<Byte>)
    requires 2 * maxChars <= |src| && i <= maxChars
    requires |out| <= OutputLimit
    requires |TranscodeFrom(src, maxChars, i, out).bytes| <= OutputLimit
    decreases maxChars - i
    ensures FitFrom(src, maxChars, i, out) == TranscodeFrom(src, maxChars, i, out).bytes
  {
    if i < maxChars && |out| < OutputLimit && Unit(src, i) != 0 {
      var u := Unit(src, i);
      var out' := out + EncodeUnit(u);
      TranscodeStep(src, maxChars, i, out);
      TranscodeFromGrows(src, maxChars, i + 1, out');
      assert |out| + Width(u) <= OutputLimit;
      FitStep(src, maxChars, i, out);
      FitFromAgrees(src, maxChars, i + 1, out');
      assert FitFrom(src, maxChars, i, out) == FitFrom(src, maxChars, i + 1, out');
      assert TranscodeFrom(src, maxChars, i, out) == TranscodeFrom(src, maxChars, i + 1, out');
      assert FitFrom(src, maxChars, i + 1, out') == TranscodeFrom(src, maxChars, i + 1, out').bytes;
    } else {
      BothStop(src, maxChars, i, out);
      assert FitFrom(src, maxChars, i, out) == TranscodeFrom(src, maxChars, i, out).bytes;
    }
  }

  /** Where the code as written stops, the corrected loop stops too. */
  lemma BothStop(src: seq<Byte>, maxChars: nat, i: nat, out: seq<Byte>)
    requires 2 * maxChars <= |src| && i <= maxChars && |out| <= OutputLimit
    requires i == maxChars || |out| == OutputLimit || Unit(src, i) == 0
    ensures TranscodeFrom(src, maxChars, i, out).bytes == out
    ensures FitFrom(src, maxChars, i, out) == out
  {
  }

  lemma TranscodersAgree(src: seq<Byte>, maxChars: nat)
    requires 2 * maxChars <= |src|
    requires |Utf16beToUtf8(src, maxChars)| <= OutputLimit
    ensures Utf16beToUtf8Fitted(src, maxChars) == Utf16beToUtf8(src, maxChars)
  {
    FitFromAgrees(src, maxChars, 0, []);
  }

  /** Ten UTF-16BE units: seven U+3042, one 'A', one U+3042, then the
      terminator. */
  const OverlongName: seq<Byte> :=
    [0x30, 0x42, 0x30, 0x42, 0x30, 0x42, 0x30, 0x42, 0x30, 0x42, 0x30, 0x42, 0x30, 0x42,
     0x00, 0x41, 0x30, 0x42, 0x00, 0x00]

  /** Units `0..k-1` of `OverlongName` are the ones its comment lists. */
  lemma OverlongNameUnits()
    ensures forall k :: 0 <= k < 7 ==> Unit(OverlongName, k) == 0x3042
    ensures Unit(OverlongName, 7) == 0x41 && Unit(OverlongName, 8) == 0x3042
  {
  }

  lemma TranscodeStep(src: seq<Byte>, maxChars: nat, i: nat, out: seq<Byte>)
    requires 2 * maxChars <= |src| && i < maxChars
    requires |out| < OutputLimit && Unit(src, i) != 0
    ensures TranscodeFrom(src, maxChars, i, out)
         == TranscodeFrom(src, maxChars, i + 1, out + EncodeUnit(Unit(src, i)))
  {
  }

  lemma FitStep(src: seq<Byte>, maxChars: nat, i: nat, out: seq<Byte>)
    requires 2 * maxChars <= |src| && i < maxChars
    requires Unit(src, i) != 0 && |out| + Width(Unit(src, i)) <= OutputLimit
    ensures FitFrom(src, maxChars, i, out) == FitFrom(src, maxChars, i + 1, out + EncodeUnit(Unit(src, i)))
  {
  }

  /** With ten units of input the code as written reaches 25 octets, which
      with its NUL is two octets more than the 24-octet `name` field. */
  lemma OverlongNameWitness()
    ensures |Utf16beToUtf8(OverlongName, 10)| == 25
    ensures Utf16beToUtf8(OverlongName, 10)[24] == 0x82
  {
    var s := OverlongName;
    OverlongNameUnits();
    var e := EncodeUnit(0x3042);
    var out: seq<Byte> := [];
    var i := 0;
    while i < 7
      invariant 0 <= i <= 7 && |out| == 3 * i
      invariant TranscodeFrom(s, 10, 0, []) == TranscodeFrom(s, 10, i, out)
    {
      TranscodeStep(s, 10, i, out);
      out := out + e;
      i := i + 1;
    }
    TranscodeStep(s, 10, 7, out);
    out := out + [0x41];
    TranscodeStep(s, 10, 8, out);
    assert e[2] == 0x82;
    out := out + e;
    assert |out| == 25 && out[24] == 0x82;
  }

  /** On the same input the corrected loop stops at 22 octets. */
  lemma OverlongNameFitted()
    ensures |Utf16beToUtf8Fitted(OverlongName, 10)| == 22
  {
    var s := OverlongName;
    OverlongNameUnits();
    var e := EncodeUnit(0x3042);
    var out: seq<Byte> := [];
    var i := 0;
    while i < 7
      invariant 0 <= i <= 7 && |out| == 3 * i
      invariant FitFrom(s, 10, 0, []) == FitFrom(s, 10, i, out)
    {
      FitStep(s, 10, i, out);
      out := out + e;
      i := i + 1;
    }
    FitStep(s, 10, 7, out);
    out := out + [0x41];
    assert FitFrom(s, 10, 8, out) == out;
  }

  /** The units A, B, C and a terminator become "ABC". */
  lemma AbcExample()
    ensures Utf16beToUtf8([0x00, 0x41, 0x00, 0x42, 0x00, 0x43, 0x00, 0x00], 4) == [0x41, 0x42, 0x43]
  {
    var s: seq<Byte> := [0x00, 0x41, 0x00, 0x42, 0x00, 0x43, 0x00, 0x00];
    assert Unit(s, 0) == 0x41 && Unit(s, 1) == 0x42 && Unit(s, 2) == 0x43 && Unit(s, 3) == 0;
    TranscodeStep(s, 4, 0, []);
    TranscodeStep(s, 4, 1, [0x41]);
    TranscodeStep(s, 4, 2, [0x41, 0x42]);
  }
}
