/** The capacity-bounded writer behind `json_build_response`: each
    `SAFE_APPEND` formats one fragment at the current offset of a buffer of
    `cap` characters, and the first fragment that does not fit jumps to the
    overflow exit, which skips every later fragment. */
module JsonBuilder {
  import opened Text

  /** The writer's state. `Open(text)`: `text` written, offset `|text|`.
      `Overflowed(text, partial)`: the jump was taken at offset `|text|`,
      after the refused fragment left its truncated head `partial`. */
  datatype Builder = Open(text: string) | Overflowed(text: string, partial: string)

  /** The offset never reaches `cap`, and a truncated head ends before the
      last slot, which holds the terminator. */
  predicate Fits(b: Builder, cap: nat) {
    match b
    case Open(text) => |text| <= cap - 1
    case Overflowed(text, partial) => |text| + |partial| <= cap - 1
  }

  /** The characters in the buffer before its first NUL. */
  function Written(b: Builder): string {
    match b
    case Open(text) => text
    case Overflowed(text, partial) => text + partial
  }

  /** One `SAFE_APPEND` of `frag`. */
  function Append(b: Builder, frag: string, cap: nat): (r: Builder)
    requires 1 <= cap && Fits(b, cap)
    ensures Fits(r, cap)
  {
    match b
    case Overflowed(_, _) => b
    case Open(text) =>
      if |text| >= cap - 1 then Overflowed(text, "")
      else if |frag| >= cap - |text| then Overflowed(text, frag[..cap - |text| - 1])
      else Open(text + frag)
  }

  /** The appends of `frags`, one after another. */
  function AppendAll(b: Builder, frags: seq<string>, cap: nat): (r: Builder)
    requires 1 <= cap && Fits(b, cap)
    ensures Fits(r, cap)
    decreases |frags|
  {
    if |frags| == 0 then b else AppendAll(Append(b, frags[0], cap), frags[1..], cap)
  }

  /** What `json_build_response` leaves: the buffer text before the first
      NUL and the returned length. */
  datatype Built = Built(buffer: string, length: int)

  /** The return path: the offset, or, after an overflow with more than ten
      characters written and more than twenty to spare, `]}]}` written at
      the offset and the `snprintf` count 4 returned in its place. */
  function Finish(b: Builder, cap: nat): (r: Built)
    requires 1 <= cap && Fits(b, cap)
    ensures 0 <= r.length < cap && |r.buffer| < cap
  {
    match b
    case Open(text) => Built(text, |text|)
    case Overflowed(text, partial) =>
      if |text| > 10 && cap > |text| + 20 then Built(text + "]}]}", 4)
      else Built(text + partial, |text|)
  }

  /** Every fragment is non-empty. */
  predicate NonEmpty(frags: seq<string>) {
    forall k :: 0 <= k < |frags| ==> |frags[k]| > 0
  }

  /** Appending to text that already holds `t`: the buffer is always a
      prefix of `t` followed by all fragments. */
  lemma {:induction false} AppendAllPrefix(t: string, frags: seq<string>, cap: nat)
    requires 1 <= cap && |t| <= cap - 1
    decreases |frags|
    ensures IsPrefix(Written(AppendAll(Open(t), frags, cap)), t + Concat(frags))
    ensures IsPrefix(AppendAll(Open(t), frags, cap).text, t + Concat(frags))
  {
    if |frags| > 0 {
      var f := frags[0];
      var whole := t + Concat(frags);
      assert whole == (t + f) + Concat(frags[1..]);
      if |t| >= cap - 1 {
        assert AppendAll(Open(t), frags, cap) == Overflowed(t, "") by {
          OverflowedStays(Overflowed(t, ""), frags[1..], cap);
        }
      } else if |f| >= cap - |t| {
        OverflowedStays(Overflowed(t, f[..cap - |t| - 1]), frags[1..], cap);
        assert whole[..|t| + (cap - |t| - 1)] == t + f[..cap - |t| - 1];
      } else {
        AppendAllPrefix(t + f, frags[1..], cap);
      }
    }
  }

  /** After the jump, later appends change nothing. */
  lemma {:induction false} OverflowedStays(b: Builder, frags: seq<string>, cap: nat)
    requires 1 <= cap && b.Overflowed? && Fits(b, cap)
    decreases |frags|
    ensures AppendAll(b, frags, cap) == b
  {
    if |frags| > 0 {
      OverflowedStays(b, frags[1..], cap);
    }
  }

  /** With non-empty fragments, the appends all succeed exactly when the
      whole text fits before the last slot, and then the buffer holds it. */
  lemma {:induction false} AppendAllFits(t: string, frags: seq<string>, cap: nat)
    requires 1 <= cap && |t| <= cap - 1 && NonEmpty(frags)
    decreases |frags|
    ensures AppendAll(Open(t), frags, cap).Open? <==> |t + Concat(frags)| < cap
    ensures |t + Concat(frags)| < cap ==> AppendAll(Open(t), frags, cap) == Open(t + Concat(frags))
  {
    if |frags| > 0 {
      var f := frags[0];
      assert t + Concat(frags) == (t + f) + Concat(frags[1..]);
      if |t| >= cap - 1 {
        OverflowedStays(Overflowed(t, ""), frags[1..], cap);
      } else if |f| >= cap - |t| {
        OverflowedStays(Overflowed(t, f[..cap - |t| - 1]), frags[1..], cap);
      } else {
        assert NonEmpty(frags[1..]) by {
          forall k | 0 <= k < |frags[1..]| ensures |frags[1..][k]| > 0 {
            assert frags[1..][k] == frags[k + 1];
          }
        }
        AppendAllFits(t + f, frags[1..], cap);
      }
    }
  }

  /** The appends never shorten the complete text already written. */
  lemma {:induction false} TextGrows(t: string, frags: seq<string>, cap: nat)
    requires 1 <= cap && |t| <= cap - 1
    decreases |frags|
    ensures |AppendAll(Open(t), frags, cap).text| >= |t|
  {
    if |frags| > 0 {
      var b := Append(Open(t), frags[0], cap);
      if b.Overflowed? {
        OverflowedStays(b, frags[1..], cap);
      } else {
        TextGrows(t + frags[0], frags[1..], cap);
      }
    }
  }

  /** A first fragment that fits on its own makes the returned length
      positive, whatever follows. */
  lemma BuildLengthPositive(frags: seq<string>, cap: nat)
    requires 1 <= cap && |frags| > 0 && 0 < |frags[0]| < cap
    ensures 0 < Build(frags, cap).length < cap
  {
    assert Append(Open(""), frags[0], cap) == Open(frags[0]);
    assert AppendAll(Open(""), frags, cap) == AppendAll(Open(frags[0]), frags[1..], cap);
    TextGrows(frags[0], frags[1..], cap);
  }

  /** Building from an empty buffer. */
  function Build(frags: seq<string>, cap: nat): (r: Built)
    requires 1 <= cap
    ensures 0 <= r.length < cap && |r.buffer| < cap
  {
    Finish(AppendAll(Open(""), frags, cap), cap)
  }

  /** The builder's contract: when the text fits it is written whole and its
      length returned; otherwise the buffer holds a prefix of it, either as
      is with the offset returned, or followed by `]}]}` with 4 returned. */
  lemma BuildSpec(frags: seq<string>, cap: nat)
    requires 1 <= cap && NonEmpty(frags)
    ensures var r := Build(frags, cap);
      && (|Concat(frags)| < cap ==> r == Built(Concat(frags), |Concat(frags)|))
      && (|Concat(frags)| >= cap ==>
            || (IsPrefix(r.buffer, Concat(frags)) && r.length <= |r.buffer|)
            || (r.length == 4 && |r.buffer| > 14 && r.buffer[|r.buffer| - 4..] == "]}]}" &&
                IsPrefix(r.buffer[..|r.buffer| - 4], Concat(frags))))
  {
    AppendAllFits("", frags, cap);
    AppendAllPrefix("", frags, cap);
    assert "" + Concat(frags) == Concat(frags);
    var b := AppendAll(Open(""), frags, cap);
    if b.Overflowed? && |b.text| > 10 && cap > |b.text| + 20 {
      assert (b.text + "]}]}")[..|b.text|] == b.text;
    }
  }

  /** The overflow exit as evidently intended, with `offset +=` in place of
      `offset =`: the closing `]}]}` then counts in the returned length. The
      buffer is the same as on the path as written. */
  function FinishCorrected(b: Builder, cap: nat): (r: Built)
    requires 1 <= cap && Fits(b, cap)
    ensures r.buffer == Finish(b, cap).buffer
    ensures r.length <= |r.buffer| < cap
    ensures r.length == Finish(b, cap).length || (r.length == |r.buffer| >= 4 && r.buffer[r.length - 4..] == "]}]}")
  {
    match b
    case Open(text) => Built(text, |text|)
    case Overflowed(text, partial) =>
      if |text| > 10 && cap > |text| + 20 then Built(text + "]}]}", |text| + 4)
      else Built(text + partial, |text|)
  }

  /** With the corrected exit the returned length always covers text that
      was written: the whole text, a prefix of it, or a prefix of more than
      ten characters followed by `]}]}`. */
  lemma BuildCorrectedSpec(frags: seq<string>, cap: nat)
    requires 1 <= cap && NonEmpty(frags)
    ensures var r := FinishCorrected(AppendAll(Open(""), frags, cap), cap);
      && r.length <= |r.buffer|
      && (|Concat(frags)| < cap ==> r == Built(Concat(frags), |Concat(frags)|))
      && (|Concat(frags)| >= cap ==>
            || IsPrefix(r.buffer[..r.length], Concat(frags))
            || (r.length == |r.buffer| > 14 && r.buffer[r.length - 4..] == "]}]}" &&
                IsPrefix(r.buffer[..r.length - 4], Concat(frags))))
  {
    AppendAllFits("", frags, cap);
    AppendAllPrefix("", frags, cap);
    assert "" + Concat(frags) == Concat(frags);
    var b := AppendAll(Open(""), frags, cap);
    var r := FinishCorrected(b, cap);
    if b.Overflowed? {
      if |b.text| > 10 && cap > |b.text| + 20 {
        assert r.buffer[..r.length - 4] == b.text;
      } else {
        assert r.buffer[..r.length] == b.text;
      }
    } else {
      assert r.buffer[..r.length] == b.text;
    }
  }
}
