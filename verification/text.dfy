/** Text helpers shared by the encoder and the session: `%d`-style decimal
    rendering, zero padding, C-string views of byte buffers, substring search
    (`strstr`) and concatenation of text fragments. */
module Text {
  import opened Bytes

  /** The NUL that terminates a C string. */
  const Nul: char := '\0'

  predicate IsDigit(c: char) {
    '0' <= c <= '9'
  }

  function DigitChar(d: nat): (c: char)
    requires d < 10
    ensures IsDigit(c) && c as int - '0' as int == d
  {
    ('0' as int + d) as char
  }

  /** Decimal digits of `n` without leading zeros, as `%u` prints it. */
  function NatToDecimal(n: nat): (r: string)
    ensures 1 <= |r|
    ensures forall k :: 0 <= k < |r| ==> IsDigit(r[k])
    ensures n < 10 <==> |r| == 1
  {
    if n < 10 then [DigitChar(n)] else NatToDecimal(n / 10) + [DigitChar(n % 10)]
  }

  /** `n` as `%d` prints it: a minus sign for negative values. */
  function Dec(n: int): (r: string)
    ensures 1 <= |r|
    ensures n < 0 <==> r[0] == '-'
  {
    if n < 0 then "-" + NatToDecimal(-n) else NatToDecimal(n)
  }

  /** The range of a C `int`. */
  predicate IsInt32(n: int) {
    -0x8000_0000 <= n < 0x8000_0000
  }

  function Pow10(k: nat): (r: nat)
    ensures r >= 1
  {
    if k == 0 then 1 else 10 * Pow10(k - 1)
  }

  /** A number below `10^k` has at most `k` digits. */
  lemma {:induction false} NatToDecimalDigits(n: nat, k: nat)
    requires 1 <= k && n < Pow10(k)
    ensures |NatToDecimal(n)| <= k
  {
    if n >= 10 {
      assert Pow10(1) == 10;
      assert k >= 2;
      assert n / 10 < Pow10(k - 1);
      NatToDecimalDigits(n / 10, k - 1);
    }
  }

  /** `%d` of a C `int` takes at most 11 characters, sign included. */
  lemma DecInt32Length(n: int)
    requires IsInt32(n)
    ensures |Dec(n)| <= 11
  {
    assert Pow10(10) == 10_000_000_000;
    if n < 0 {
      NatToDecimalDigits(-n, 10);
    } else {
      NatToDecimalDigits(n, 10);
    }
  }

  /** `%0<width>d` for a non-negative value: zeros on the left up to `width`
      characters; a wider number is printed in full. */
  function ZeroPad(n: nat, width: nat): (r: string)
    ensures |r| == if |NatToDecimal(n)| < width then width else |NatToDecimal(n)|
    ensures r[|r| - |NatToDecimal(n)|..] == NatToDecimal(n)
    ensures forall k :: 0 <= k < |r| - |NatToDecimal(n)| ==> r[k] == '0'
  {
    var digits := NatToDecimal(n);
    if |digits| < width then Zeros(width - |digits|) + digits else digits
  }

  function Zeros(n: nat): (r: string)
    ensures |r| == n && forall k :: 0 <= k < n ==> r[k] == '0'
  {
    if n == 0 then "" else Zeros(n - 1) + "0"
  }

  /** Reads back a run of decimal digits; the inverse of `NatToDecimal`. */
  function ParseNat(s: string): int
    requires forall k :: 0 <= k < |s| ==> IsDigit(s[k])
  {
    if |s| == 0 then 0 else ParseNat(s[..|s| - 1]) * 10 + (s[|s| - 1] as int - '0' as int)
  }

  /** Reads back `%d` output; the inverse of `Dec`. */
  function ParseInt(s: string): int
    requires 1 <= |s|
    requires forall k :: 0 <= k < |s| ==> IsDigit(s[k]) || (k == 0 && s[k] == '-')
  {
    if s[0] == '-' then -ParseNat(s[1..]) else ParseNat(s)
  }

  lemma {:induction false} NatToDecimalRoundTrip(n: nat)
    ensures ParseNat(NatToDecimal(n)) == n
  {
    if n >= 10 {
      var prefix := NatToDecimal(n / 10);
      var s := prefix + [DigitChar(n % 10)];
      assert s[..|s| - 1] == prefix;
      NatToDecimalRoundTrip(n / 10);
    }
  }

  lemma DecRoundTrip(n: int)
    ensures ParseInt(Dec(n)) == n
  {
    var s := Dec(n);
    if n < 0 {
      var digits := NatToDecimal(-n);
      assert s == "-" + digits;
      assert s[1..] == digits;
      NatToDecimalRoundTrip(-n);
    } else {
      assert IsDigit(s[0]);
      NatToDecimalRoundTrip(n);
    }
  }

  /** The C string held in a received buffer: everything before the first NUL
      octet, one char per octet. */
  function CString(bs: seq<Byte>): (r: string)
    ensures |r| <= |bs|
    ensures forall k :: 0 <= k < |r| ==> r[k] as int == bs[k] && r[k] != Nul
    ensures |r| < |bs| ==> bs[|r|] == 0
  {
    if |bs| == 0 || bs[0] == 0 then "" else [bs[0] as char] + CString(bs[1..])
  }

  /** The octets of a byte string read as text, one char per octet. */
  function BytesToText(bs: seq<Byte>): (r: string)
    ensures |r| == |bs| && forall k :: 0 <= k < |r| ==> r[k] as int == bs[k]
  {
    seq(|bs|, k requires 0 <= k < |bs| => bs[k] as char)
  }

  /** `strstr(s, t) != NULL`. */
  function Contains(s: string, t: string): bool
  {
    if |t| <= |s| && s[..|t|] == t then true
    else if |s| == 0 then false
    else Contains(s[1..], t)
  }

  /** `t` occurs in `s` at position `i`. */
  predicate OccursAt(s: string, t: string, i: int) {
    0 <= i && i + |t| <= |s| && s[i..i + |t|] == t
  }

  lemma {:induction false} ContainsIff(s: string, t: string)
    ensures Contains(s, t) <==> exists i :: OccursAt(s, t, i)
  {
    if |t| <= |s| && s[..|t|] == t {
      assert OccursAt(s, t, 0);
    } else if |s| == 0 {
      assert |t| > 0;
    } else {
      ContainsIff(s[1..], t);
      if exists i :: OccursAt(s, t, i) {
        var i :| OccursAt(s, t, i);
        assert i != 0;
        OccursInTail(s, t, i);
      }
      if exists i :: OccursAt(s[1..], t, i) {
        var i :| OccursAt(s[1..], t, i);
        OccursAfterHead(s, t, i);
      }
    }
  }

  lemma OccursInTail(s: string, t: string, i: int)
    requires 0 < i && OccursAt(s, t, i)
    ensures OccursAt(s[1..], t, i - 1)
  {
    assert s[1..][i - 1..i - 1 + |t|] == s[i..i + |t|];
  }

  lemma OccursAfterHead(s: string, t: string, i: int)
    requires |s| > 0 && OccursAt(s[1..], t, i)
    ensures OccursAt(s, t, i + 1)
  {
    assert s[i + 1..i + 1 + |t|] == s[1..][i..i + |t|];
  }

  /** The text produced by writing the fragments one after another. */
  function Concat(fs: seq<string>): string
  {
    if |fs| == 0 then "" else fs[0] + Concat(fs[1..])
  }

  lemma {:induction false} ConcatAppend(a: seq<string>, b: seq<string>)
    ensures Concat(a + b) == Concat(a) + Concat(b)
  {
    if |a| == 0 {
      assert a + b == b;
    } else {
      assert (a + b)[1..] == a[1..] + b;
      ConcatAppend(a[1..], b);
    }
  }

  predicate IsPrefix(a: string, b: string) {
    |a| <= |b| && b[..|a|] == a
  }
}
