/** `json_escape_string`: the JSON string escaper (a subset of section 7 of
    RFC 8259) writing into a fixed-size buffer. Quote, backslash, newline,
    carriage return and tab become two-character escapes; every other
    character, control characters included, is copied as it is. */
module JsonEscape {
  import opened Wrappers
  import opened Text

  /** The characters the escaper rewrites. */
  predicate IsSpecial(c: char) {
    c == '"' || c == '\\' || c == '\n' || c == '\r' || c == '\t'
  }

  /** The letter that follows the backslash in the escape of `c`. */
  function EscapeLetter(c: char): char
    requires IsSpecial(c)
  {
    match c
    case '"' => '"'
    case '\\' => '\\'
    case '\n' => 'n'
    case '\r' => 'r'
    case '\t' => 't'
  }

  /** The character an escape letter stands for; `None` for other letters. */
  function LetterMeaning(l: char): (r: Option<char>)
    ensures r.Some? ==> IsSpecial(r.value) && EscapeLetter(r.value) == l
  {
    match l
    case '"' => Some('"')
    case '\\' => Some('\\')
    case 'n' => Some('\n')
    case 'r' => Some('\r')
    case 't' => Some('\t')
    case _ => None
  }

  lemma LetterRoundTrip(c: char)
    requires IsSpecial(c)
    ensures LetterMeaning(EscapeLetter(c)) == Some(c)
  {
  }

  function EscapeChar(c: char): (r: string)
    ensures 1 <= |r| <= 2
  {
    if IsSpecial(c) then ['\\', EscapeLetter(c)] else [c]
  }

  /** The escape of a whole string, with no size limit: the reference the
      bounded escaper is compared with. */
  function EscapeAll(s: string): (r: string)
    ensures |s| <= |r| <= 2 * |s|
  {
    if |s| == 0 then "" else EscapeChar(s[0]) + EscapeAll(s[1..])
  }

  lemma {:induction false} EscapeAllConcat(a: string, b: string)
    ensures EscapeAll(a + b) == EscapeAll(a) + EscapeAll(b)
  {
    if |a| == 0 {
      assert a + b == b;
    } else {
      assert (a + b)[1..] == a[1..] + b;
      EscapeAllConcat(a[1..], b);
    }
  }

  /** Reads escaped text back: `None` for a lone or unknown backslash escape
      and for a raw special character. */
  function Unescape(w: string): Option<string>
  {
    if |w| == 0 then Some("")
    else if w[0] == '\\' then
      if |w| < 2 || LetterMeaning(w[1]).None? then None
      else
        match Unescape(w[2..])
        case None => None
        case Some(t) => Some([LetterMeaning(w[1]).value] + t)
    else if IsSpecial(w[0]) then None
    else
      match Unescape(w[1..])
      case None => None
      case Some(t) => Some([w[0]] + t)
  }

  /** Text made only of whole escapes and ordinary characters. */
  predicate WellEscaped(w: string) {
    Unescape(w).Some?
  }

  lemma {:induction false} UnescapeEscapeAll(s: string)
    ensures Unescape(EscapeAll(s)) == Some(s)
  {
    if |s| > 0 {
      UnescapeEscapeAll(s[1..]);
      var w := EscapeAll(s);
      assert s == [s[0]] + s[1..];
      if IsSpecial(s[0]) {
        LetterRoundTrip(s[0]);
        assert w[0] == '\\' && w[1] == EscapeLetter(s[0]);
        assert w[2..] == EscapeAll(s[1..]);
      } else {
        assert w[0] == s[0] && w[0] != '\\';
        assert w[1..] == EscapeAll(s[1..]);
      }
    }
  }

  lemma {:induction false} EscapeAllUnescape(w: string, s: string)
    requires Unescape(w) == Some(s)
    ensures EscapeAll(s) == w
  {
    if |w| > 0 {
      if w[0] == '\\' {
        var t := Unescape(w[2..]).value;
        EscapeAllUnescape(w[2..], t);
        assert s == [LetterMeaning(w[1]).value] + t;
        assert s[1..] == t;
        assert w == ['\\', w[1]] + w[2..];
      } else {
        var t := Unescape(w[1..]).value;
        EscapeAllUnescape(w[1..], t);
        assert s[1..] == t;
        assert w == [w[0]] + w[1..];
      }
    }
  }

  /** Escaped text and the text it stands for determine each other. */
  lemma EscapeIff(s: string, w: string)
    ensures Unescape(w) == Some(s) <==> w == EscapeAll(s)
  {
    if Unescape(w) == Some(s) {
      EscapeAllUnescape(w, s);
    }
    if w == EscapeAll(s) {
      UnescapeEscapeAll(s);
    }
  }

  /** The escaping loop from source index `i` with `out` written so far. A
      special character that no longer fits as a pair is skipped, and the
      loop goes on with the next character. */
  function EscapeFrom(src: string, dstSize: nat, i: nat, out: string): (r: string)
    requires 1 <= dstSize && |out| <= dstSize - 1 && i <= |src|
    decreases |src| - i
    ensures |out| <= |r| <= dstSize - 1 && r[..|out|] == out
  {
    if i == |src| || src[i] == Nul || |out| >= dstSize - 1 then out
    else if IsSpecial(src[i]) then
      if |out| < dstSize - 2 then EscapeFrom(src, dstSize, i + 1, out + EscapeChar(src[i]))
      else EscapeFrom(src, dstSize, i + 1, out)
    else EscapeFrom(src, dstSize, i + 1, out + [src[i]])
  }

  /** `json_escape_string(src, dst, dstSize)`: the text left in `dst`. */
  function EscapeInto(src: string, dstSize: nat): (r: string)
    requires 1 <= dstSize
    ensures |r| <= dstSize - 1
  {
    EscapeFrom(src, dstSize, 0, "")
  }

  /** The written text is the escape of the characters kept so far. */
  lemma {:induction false} EscapeFromWellEscaped(src: string, dstSize: nat, i: nat, out: string, kept: string)
    requires 1 <= dstSize && |out| <= dstSize - 1 && i <= |src|
    requires out == EscapeAll(kept) && forall k :: 0 <= k < |kept| ==> kept[k] != Nul
    decreases |src| - i
    ensures WellEscaped(EscapeFrom(src, dstSize, i, out))
    ensures forall k :: 0 <= k < |EscapeFrom(src, dstSize, i, out)| ==> EscapeFrom(src, dstSize, i, out)[k] != Nul
  {
    if i == |src| || src[i] == Nul || |out| >= dstSize - 1 {
      UnescapeEscapeAll(kept);
      NoNulEscape(kept);
    } else if IsSpecial(src[i]) && |out| >= dstSize - 2 {
      EscapeFromWellEscaped(src, dstSize, i + 1, out, kept);
    } else {
      EscapeAllConcat(kept, [src[i]]);
      assert EscapeAll([src[i]]) == EscapeChar(src[i]);
      EscapeFromWellEscaped(src, dstSize, i + 1, out + EscapeChar(src[i]), kept + [src[i]]);
    }
  }

  lemma {:induction false} NoNulEscape(s: string)
    requires forall k :: 0 <= k < |s| ==> s[k] != Nul
    ensures forall k :: 0 <= k < |EscapeAll(s)| ==> EscapeAll(s)[k] != Nul
  {
    if |s| > 0 {
      NoNulEscape(s[1..]);
    }
  }

  /** The escaper never writes a lone backslash or a NUL before the
      terminator, and stays within `dstSize - 1` characters. */
  lemma EscapeIntoWellEscaped(src: string, dstSize: nat)
    requires 1 <= dstSize
    ensures var r := EscapeInto(src, dstSize);
      WellEscaped(r) && (forall k :: 0 <= k < |r| ==> r[k] != Nul) && |r| <= dstSize - 1
  {
    EscapeFromWellEscaped(src, dstSize, 0, "", "");
  }

  /** The length of the C string in `s`: the index of its first NUL, or its
      whole length when it has none. */
  function FirstNul(s: string): (r: nat)
    ensures r <= |s| && NoNul(s[..r]) && (r == |s| || s[r] == Nul)
  {
    if |s| == 0 || s[0] == Nul then 0
    else
      var t := FirstNul(s[1..]);
      assert s[..t + 1] == [s[0]] + s[1..][..t];
      t + 1
  }

  /** The escape of a longer prefix extends that of a shorter one. */
  lemma EscapePrefix(s: string, a: nat, b: nat)
    requires a <= b <= |s|
    ensures EscapeAll(s[..b]) == EscapeAll(s[..a]) + EscapeAll(s[a..b])
  {
    assert s[..b] == s[..a] + s[a..b];
    EscapeAllConcat(s[..a], s[a..b]);
  }

  /** What `json_escape_string` leaves for `src`, described without its
      loop: the escape of `src[..m]`, the longest prefix of the C string
      whose escape fits in `dstSize - 1` characters; then, when exactly one
      slot is left, the first ordinary character `src[q]` after it. Every
      character between the two is special and is skipped. */
  predicate Keeps(src: string, dstSize: nat, r: string, m: nat, q: nat) {
    var p := FirstNul(src);
    m <= q <= p &&
    |EscapeAll(src[..m])| <= dstSize - 1 &&
    (m < p ==> |EscapeAll(src[..m + 1])| > dstSize - 1) &&
    (forall k :: m <= k < q ==> IsSpecial(src[k])) &&
    if m < p && |EscapeAll(src[..m])| + 2 == dstSize && q < p then
      !IsSpecial(src[q]) && r == EscapeAll(src[..m]) + [src[q]]
    else
      r == EscapeAll(src[..m])
  }

  /** The description has one solution: the fit pins `m`, and the first
      ordinary character pins `q`. */
  lemma KeepsUnique(src: string, dstSize: nat, r1: string, m1: nat, q1: nat, r2: string, m2: nat, q2: nat)
    requires Keeps(src, dstSize, r1, m1, q1) && Keeps(src, dstSize, r2, m2, q2)
    ensures r1 == r2
  {
    FitUnique(src, dstSize, m1, m2);
    if q1 < q2 {
      assert IsSpecial(src[q1]);
    } else if q2 < q1 {
      assert IsSpecial(src[q2]);
    }
  }

  /** Only one prefix of the C string is the longest whose escape fits. */
  lemma FitUnique(src: string, dstSize: nat, m1: nat, m2: nat)
    requires m1 <= FirstNul(src) && m2 <= FirstNul(src)
    requires |EscapeAll(src[..m1])| <= dstSize - 1 && |EscapeAll(src[..m2])| <= dstSize - 1
    requires m1 < FirstNul(src) ==> |EscapeAll(src[..m1 + 1])| > dstSize - 1
    requires m2 < FirstNul(src) ==> |EscapeAll(src[..m2 + 1])| > dstSize - 1
    ensures m1 == m2
  {
    if m1 < m2 {
      EscapePrefix(src, m1 + 1, m2);
    } else if m2 < m1 {
      EscapePrefix(src, m2 + 1, m1);
    }
  }

  /** The longest prefix of the C string, from `i` on, whose escape fits. */
  function FitEnd(src: string, dstSize: nat, i: nat): (m: nat)
    requires i <= FirstNul(src) && |EscapeAll(src[..i])| <= dstSize - 1
    decreases FirstNul(src) - i
    ensures i <= m <= FirstNul(src) && |EscapeAll(src[..m])| <= dstSize - 1
    ensures m < FirstNul(src) ==> |EscapeAll(src[..m + 1])| > dstSize - 1
  {
    if i < FirstNul(src) && |EscapeAll(src[..i + 1])| <= dstSize - 1 then FitEnd(src, dstSize, i + 1) else i
  }

  /** The first ordinary character of the C string at or after `i`, or the
      NUL's index when there is none. */
  function NextPlain(src: string, i: nat): (q: nat)
    requires i <= FirstNul(src)
    decreases FirstNul(src) - i
    ensures i <= q <= FirstNul(src)
    ensures forall k :: i <= k < q ==> IsSpecial(src[k])
    ensures q < FirstNul(src) ==> !IsSpecial(src[q])
  {
    if i == FirstNul(src) || !IsSpecial(src[i]) then i else NextPlain(src, i + 1)
  }

  /** While the escapes fit, the loop copies them whole. */
  lemma {:induction false} EscapeFromFitting(src: string, dstSize: nat, i: nat, m: nat)
    requires 1 <= dstSize && i <= m <= |src| && NoNul(src[..m])
    requires |EscapeAll(src[..i])| <= dstSize - 1 && |EscapeAll(src[..m])| <= dstSize - 1
    decreases m - i
    ensures EscapeFrom(src, dstSize, i, EscapeAll(src[..i])) == EscapeFrom(src, dstSize, m, EscapeAll(src[..m]))
  {
    if i < m {
      var out := EscapeAll(src[..i]);
      var e := EscapeChar(src[i]);
      EscapePrefix(src, i + 1, m);
      PrefixStep(src, i);
      assert src[..m][i] == src[i];
      assert |out| + |e| <= dstSize - 1;
      FitStep(src, dstSize, i, out);
      EscapeFromFitting(src, dstSize, i + 1, m);
    }
  }

  /** One step of the loop on a character whose escape fits. */
  lemma FitStep(src: string, dstSize: nat, i: nat, out: string)
    requires 1 <= dstSize && i < |src| && src[i] != Nul
    requires |out| + |EscapeChar(src[i])| <= dstSize - 1
    ensures EscapeFrom(src, dstSize, i, out) == EscapeFrom(src, dstSize, i + 1, out + EscapeChar(src[i]))
  {
  }

  /** One step of the loop on a special character when one slot is left. */
  lemma SkipStep(src: string, dstSize: nat, i: nat, out: string)
    requires 2 <= dstSize && i < |src| && src[i] != Nul && IsSpecial(src[i]) && |out| == dstSize - 2
    ensures EscapeFrom(src, dstSize, i, out) == EscapeFrom(src, dstSize, i + 1, out)
  {
  }

  /** With one slot left the loop skips special characters and copies the
      first ordinary one, if one comes before the NUL. */
  lemma {:induction false} EscapeFromSkipping(src: string, dstSize: nat, i: nat, out: string)
    requires 2 <= dstSize && |out| == dstSize - 2 && i <= FirstNul(src)
    decreases |src| - i
    ensures var q := NextPlain(src, i);
      EscapeFrom(src, dstSize, i, out) == if q < FirstNul(src) then out + [src[q]] else out
  {
    var p := FirstNul(src);
    if i < p {
      assert src[..p][i] == src[i];
      if IsSpecial(src[i]) {
        SkipStep(src, dstSize, i, out);
        EscapeFromSkipping(src, dstSize, i + 1, out);
      } else {
        assert EscapeFrom(src, dstSize, i + 1, out + [src[i]]) == out + [src[i]];
      }
    }
  }

  /** From the end of the longest fitting prefix, the loop's result meets
      the description. */
  lemma EscapeFromKeepsAt(src: string, dstSize: nat, m: nat)
    requires 1 <= dstSize && m <= FirstNul(src) && |EscapeAll(src[..m])| <= dstSize - 1
    requires m < FirstNul(src) ==> |EscapeAll(src[..m + 1])| > dstSize - 1
    ensures exists q: nat :: Keeps(src, dstSize, EscapeFrom(src, dstSize, m, EscapeAll(src[..m])), m, q)
  {
    var p := FirstNul(src);
    var e := EscapeAll(src[..m]);
    var r := EscapeFrom(src, dstSize, m, e);
    if m == p || |e| == dstSize - 1 {
      assert r == e;
      assert Keeps(src, dstSize, r, m, m);
    } else {
      SkipAfterFit(src, dstSize, m);
      var q := NextPlain(src, m + 1);
      assert Keeps(src, dstSize, r, m, q);
    }
  }

  /** A special character that no longer fits is where skipping starts. */
  lemma SkipAfterFit(src: string, dstSize: nat, m: nat)
    requires 1 <= dstSize && m < FirstNul(src) && |EscapeAll(src[..m])| < dstSize - 1
    requires |EscapeAll(src[..m + 1])| > dstSize - 1
    ensures IsSpecial(src[m]) && |EscapeAll(src[..m])| + 2 == dstSize
    ensures var q := NextPlain(src, m + 1);
      EscapeFrom(src, dstSize, m, EscapeAll(src[..m]))
      == if q < FirstNul(src) then EscapeAll(src[..m]) + [src[q]] else EscapeAll(src[..m])
  {
    var p := FirstNul(src);
    var e := EscapeAll(src[..m]);
    PrefixStep(src, m);
    assert src[..p][m] == src[m];
    assert |EscapeChar(src[m])| == 2;
    SkipStep(src, dstSize, m, e);
    EscapeFromSkipping(src, dstSize, m + 1, e);
  }

  /** The escaper's output meets the loop-free description. */
  lemma EscapeIntoKeeps(src: string, dstSize: nat)
    requires 1 <= dstSize
    ensures exists m: nat, q: nat :: Keeps(src, dstSize, EscapeInto(src, dstSize), m, q)
  {
    var p := FirstNul(src);
    assert src[..0] == "";
    var m := FitEnd(src, dstSize, 0);
    assert src[..m] == src[..p][..m];
    EscapeFromFitting(src, dstSize, 0, m);
    assert EscapeAll(src[..0]) == "";
    var r := EscapeFrom(src, dstSize, m, EscapeAll(src[..m]));
    assert EscapeInto(src, dstSize) == r;
    EscapeFromKeepsAt(src, dstSize, m);
    var q :| Keeps(src, dstSize, r, m, q);
    assert Keeps(src, dstSize, EscapeInto(src, dstSize), m, q);
  }

  /** The loop run on `src` and on its C string agree. */
  lemma {:induction false} EscapeFromCut(src: string, dstSize: nat, i: nat, out: string)
    requires 1 <= dstSize && |out| <= dstSize - 1 && i <= FirstNul(src)
    decreases |src| - i
    ensures EscapeFrom(src, dstSize, i, out) == EscapeFrom(src[..FirstNul(src)], dstSize, i, out)
  {
    var p := FirstNul(src);
    if i < p && |out| < dstSize - 1 {
      assert src[..p][i] == src[i];
      if IsSpecial(src[i]) && |out| >= dstSize - 2 {
        EscapeFromCut(src, dstSize, i + 1, out);
      } else {
        EscapeFromCut(src, dstSize, i + 1, out + EscapeChar(src[i]));
      }
    }
  }

  /** The escaper reads `src` only up to its first NUL. */
  lemma EscapeIntoCString(src: string, dstSize: nat)
    requires 1 <= dstSize
    ensures EscapeInto(src, dstSize) == EscapeInto(src[..FirstNul(src)], dstSize)
  {
    EscapeFromCut(src, dstSize, 0, "");
  }

  /** When the escape of the C string fits, the escaper writes exactly it,
      whatever follows the NUL. */
  lemma EscapeIntoFitsCString(src: string, dstSize: nat)
    requires 1 <= dstSize && |EscapeAll(src[..FirstNul(src)])| <= dstSize - 1
    ensures EscapeInto(src, dstSize) == EscapeAll(src[..FirstNul(src)])
  {
    EscapeIntoCString(src, dstSize);
    EscapeIntoFits(src[..FirstNul(src)], dstSize);
  }

  /** The part of `src` the escaper reads: up to its first NUL. */
  predicate NoNul(s: string) {
    forall k :: 0 <= k < |s| ==> s[k] != Nul
  }

  lemma {:induction false} EscapeFromFits(src: string, dstSize: nat, i: nat)
    requires 1 <= dstSize && i <= |src| && NoNul(src)
    requires |EscapeAll(src)| <= dstSize - 1 && |EscapeAll(src[..i])| <= dstSize - 1
    decreases |src| - i
    ensures EscapeFrom(src, dstSize, i, EscapeAll(src[..i])) == EscapeAll(src)
  {
    var out := EscapeAll(src[..i]);
    if i < |src| {
      var c := src[i];
      var e := EscapeChar(c);
      OneStepEscape(src, i);
      assert |out + e| <= dstSize - 1;
      assert c != Nul;
      assert EscapeFrom(src, dstSize, i, out) == EscapeFrom(src, dstSize, i + 1, out + e);
      EscapeFromFits(src, dstSize, i + 1);
    } else {
      assert src[..i] == src;
    }
  }

  /** The escape of the first `i + 1` characters extends that of the first
      `i` by one character's escape, and the whole escape extends both. */
  lemma OneStepEscape(src: string, i: nat)
    requires i < |src|
    ensures EscapeAll(src[..i + 1]) == EscapeAll(src[..i]) + EscapeChar(src[i])
    ensures |EscapeAll(src[..i + 1])| <= |EscapeAll(src)|
  {
    PrefixStep(src, i);
    assert src == src[..i + 1] + src[i + 1..];
    EscapeAllConcat(src[..i + 1], src[i + 1..]);
  }

  /** The escape of one more character of a prefix. */
  lemma PrefixStep(src: string, i: nat)
    requires i < |src|
    ensures EscapeAll(src[..i + 1]) == EscapeAll(src[..i]) + EscapeChar(src[i])
  {
    assert src[..i + 1] == src[..i] + [src[i]];
    EscapeAllConcat(src[..i], [src[i]]);
    assert EscapeAll([src[i]]) == EscapeChar(src[i]) + EscapeAll([]);
  }

  /** When the whole escape fits, the escaper writes exactly it. */
  lemma EscapeIntoFits(src: string, dstSize: nat)
    requires 1 <= dstSize && NoNul(src)
    requires |EscapeAll(src)| <= dstSize - 1
    ensures EscapeInto(src, dstSize) == EscapeAll(src)
  {
    assert src[..0] == "";
    EscapeFromFits(src, dstSize, 0);
  }

  /** Text without special characters that is shorter than the buffer comes
      back unchanged. */
  lemma {:induction false} PlainUnchanged(src: string, dstSize: nat)
    requires 1 <= dstSize && NoNul(src) && |src| < dstSize
    requires forall k :: 0 <= k < |src| ==> !IsSpecial(src[k])
    ensures EscapeInto(src, dstSize) == src
  {
    PlainEscape(src);
    EscapeIntoFits(src, dstSize);
  }

  lemma {:induction false} PlainEscape(s: string)
    requires forall k :: 0 <= k < |s| ==> !IsSpecial(s[k])
    ensures EscapeAll(s) == s
  {
    if |s| > 0 {
      PlainEscape(s[1..]);
    }
  }

  /** A control character other than newline, carriage return and tab is
      copied through unescaped. */
  lemma ControlCharPassesThrough(c: char)
    requires c != Nul && c < ' ' && c != '\n' && c != '\r' && c != '\t'
    ensures EscapeInto([c], 64) == [c]
  {
    PlainUnchanged([c], 64);
  }

  /** With one slot left, a pending escape is dropped whole; a following
      ordinary character still takes the slot. */
  lemma DropsPendingEscape()
    ensures EscapeInto("ab\"c", 4) == "abc"
  {
  }

  /** A quote before the NUL is escaped, not dropped, and what follows the
      NUL is never read. */
  lemma QuoteBeforeNul()
    ensures EscapeInto("a\"b\0c", 100) == "a\\\"b"
  {
    var src := "a\"b\0c";
    assert FirstNul(src) == 3;
    assert src[..3] == "a\"b";
    assert EscapeAll("a\"b") == "a\\\"b";
    EscapeIntoFitsCString(src, 100);
  }
}
