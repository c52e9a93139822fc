/** `json_build_response` and `json_build_error`: the sync payloads. Each
    `SAFE_APPEND` of the response is one fragment handed to the bounded
    writer; the reference text `ResponseText` is the same document written
    as nested comma-joined lists. Weights, BMI and balance are the reader's
    fixed-point integers, printed with one or two decimals. */
module JsonResponse {
  import opened Bytes
  import opened Wrappers
  import opened Text
  import opened PackedDate
  import opened ProfileDecoder
  import opened JsonEscape
  import opened JsonBuilder

  /** Size of the buffers the escaped names and messages go through. */
  const NameEscapeSize := 64
  const MessageEscapeSize := 256

  const Header := "{\"version\":2,\"profiles\":["

  /** `%0<width>d`, the sign counted in the width. */
  function PadInt(n: int, width: nat): (r: string)
    ensures |r| >= 1
  {
    if n >= 0 then ZeroPad(n, width)
    else "-" + ZeroPad(-n, if width >= 1 then width - 1 else 0)
  }

  /** `%.1f` of `tenths / 10`. */
  function Tenths(tenths: nat): string {
    NatToDecimal(tenths / 10) + "." + ZeroPad(tenths % 10, 1)
  }

  /** `%.2f` of `hundredths / 100`. */
  function Hundredths(hundredths: nat): string {
    NatToDecimal(hundredths / 100) + "." + ZeroPad(hundredths % 100, 2)
  }

  /** A negative value is replaced by `default` before it is printed. */
  function Sanitize(v: int, default: nat): (r: nat)
    ensures v >= 0 ==> r == v
    ensures v < 0 ==> r == default
  {
    if v < 0 then default else v
  }

  /** A timestamp as `%Y-%m-%dT%H:%M:%S`. */
  function DateText(t: Timestamp): string {
    PadInt(t.year, 4) + "-" + PadInt(t.month, 2) + "-" + PadInt(t.day, 2) + "T" +
    PadInt(t.hour, 2) + ":" + PadInt(t.minute, 2) + ":" + PadInt(t.second, 2)
  }

  const ActivityKinds: seq<string> := ["yoga", "strength", "aerobics", "balance", "training"]

  /** `activity_type_string`. */
  function ActivityTypeName(kind: int): (r: string)
    ensures 0 <= kind < |ActivityKinds| ==> r == ActivityKinds[kind]
    ensures !(0 <= kind < |ActivityKinds|) ==> r == "unknown"
  {
    match kind
    case 0 => "yoga"
    case 1 => "strength"
    case 2 => "aerobics"
    case 3 => "balance"
    case 4 => "training"
    case _ => "unknown"
  }

  /** The kind a type name stands for; `None` for "unknown". */
  function ActivityKindOf(name: string): (r: Option<int>)
  {
    if name == "yoga" then Some(0)
    else if name == "strength" then Some(1)
    else if name == "aerobics" then Some(2)
    else if name == "balance" then Some(3)
    else if name == "training" then Some(4)
    else None
  }

  /** Distinct kinds 0..4 get distinct names, and all others share
      "unknown". */
  lemma ActivityTypeRoundTrip(kind: int)
    ensures ActivityKindOf(ActivityTypeName(kind)) == (if 0 <= kind < |ActivityKinds| then Some(kind) else None)
  {
  }

  /** The opening of a profile object, up to the measurements. */
  function ProfileHead(p: Profile): (r: string)
    ensures |r| > |Header| && r[0] == '{'
  {
    "{\"name\":\"" + EscapeInto(BytesToText(p.name), NameEscapeSize) + "\",\"height_cm\":" + Dec(p.heightCm) +
    ",\"dob\":\"" + PadInt(p.birthYear, 4) + "-" + PadInt(p.birthMonth, 2) + "-" + PadInt(p.birthDay, 2) + "\","
  }

  function MeasurementText(m: Measurement): (r: string)
    ensures |r| >= 1 && r[0] == '{'
  {
    "{\"date\":\"" + DateText(m.timestamp) +
    "\",\"weight_kg\":" + Tenths(Sanitize(m.weightTenths, 0)) +
    ",\"bmi\":" + Hundredths(Sanitize(m.bmiHundredths, 0)) +
    ",\"balance_percent\":" + Tenths(Sanitize(m.balanceTenths, 500)) + "}"
  }

  function ActivityText(a: Activity): (r: string)
    ensures |r| >= 1 && r[0] == '{'
  {
    "{\"date\":\"" + DateText(a.timestamp) + "\",\"type\":\"" + ActivityTypeName(a.kind) +
    "\",\"name\":\"" + EscapeInto(a.name, NameEscapeSize) + "\",\"duration_min\":" + Dec(a.durationMin) +
    ",\"calories\":" + Dec(a.calories) + ",\"score\":" + Dec(a.score) + "}"
  }

  function MeasurementTexts(ms: seq<Measurement>): (r: seq<string>)
    ensures |r| == |ms| && forall k :: 0 <= k < |ms| ==> r[k] == MeasurementText(ms[k])
  {
    seq(|ms|, k requires 0 <= k < |ms| => MeasurementText(ms[k]))
  }

  function ActivityTexts(as_: seq<Activity>): (r: seq<string>)
    ensures |r| == |as_| && forall k :: 0 <= k < |as_| ==> r[k] == ActivityText(as_[k])
  {
    seq(|as_|, k requires 0 <= k < |as_| => ActivityText(as_[k]))
  }

  // ---------------------------------------------------------------------
  // The appends, fragment by fragment

  /** A list loop from item `i` on: a `","` append before every item but
      the first, then the item's own appends. */
  function ListFrom(groups: seq<seq<string>>, i: nat): seq<string>
    requires i <= |groups|
    decreases |groups| - i
  {
    if i == |groups| then []
    else (if i > 0 then [","] else []) + groups[i] + ListFrom(groups, i + 1)
  }

  /** Items appended with one `SAFE_APPEND` each. */
  function Singles(items: seq<string>): (r: seq<seq<string>>)
    ensures |r| == |items| && forall k :: 0 <= k < |items| ==> r[k] == [items[k]]
  {
    seq(|items|, k requires 0 <= k < |items| => [items[k]])
  }

  /** The appends of one profile object, given its opening and the texts of
      its measurements and activities. */
  function ObjectFragments(head: string, ms: seq<string>, acts: seq<string>): seq<string> {
    [head, "\"measurements\":["] + ListFrom(Singles(ms), 0) +
    ["],", "\"activities\":["] + ListFrom(Singles(acts), 0) + ["]}"]
  }

  function ProfileFragments(p: Profile): seq<string> {
    ObjectFragments(ProfileHead(p), MeasurementTexts(p.measurements), ActivityTexts(p.activities))
  }

  function ProfileGroups(ps: seq<Profile>): (r: seq<seq<string>>)
    ensures |r| == |ps| && forall k :: 0 <= k < |ps| ==> r[k] == ProfileFragments(ps[k])
  {
    seq(|ps|, k requires 0 <= k < |ps| => ProfileFragments(ps[k]))
  }

  /** Every append of `json_build_response`, in order. */
  function ResponseFragments(ps: seq<Profile>): seq<string> {
    [Header] + ListFrom(ProfileGroups(ps), 0) + ["]}"]
  }

  // ---------------------------------------------------------------------
  // The reference document

  /** `items` joined with commas. */
  function Join(items: seq<string>): string {
    if |items| == 0 then "" else items[0] + CommaEach(items[1..])
  }

  function CommaEach(items: seq<string>): string {
    if |items| == 0 then "" else "," + items[0] + CommaEach(items[1..])
  }

  function ObjectText(head: string, ms: seq<string>, acts: seq<string>): string {
    head + "\"measurements\":[" + Join(ms) + "],\"activities\":[" + Join(acts) + "]}"
  }

  function ProfileObject(p: Profile): string {
    ObjectText(ProfileHead(p), MeasurementTexts(p.measurements), ActivityTexts(p.activities))
  }

  function ProfileObjects(ps: seq<Profile>): (r: seq<string>)
    ensures |r| == |ps| && forall k :: 0 <= k < |ps| ==> r[k] == ProfileObject(ps[k])
  {
    seq(|ps|, k requires 0 <= k < |ps| => ProfileObject(ps[k]))
  }

  /** The whole response: the header, the comma-separated profile objects,
      and the closing `]}`. */
  function ResponseText(ps: seq<Profile>): string {
    Header + Join(ProfileObjects(ps)) + "]}"
  }

  /** The texts the groups write. */
  function GroupTexts(groups: seq<seq<string>>): (r: seq<string>)
    ensures |r| == |groups| && forall k :: 0 <= k < |groups| ==> r[k] == Concat(groups[k])
  {
    seq(|groups|, k requires 0 <= k < |groups| => Concat(groups[k]))
  }

  lemma {:induction false} ListFromTail(groups: seq<seq<string>>, i: nat)
    requires 1 <= i <= |groups|
    decreases |groups| - i
    ensures Concat(ListFrom(groups, i)) == CommaEach(GroupTexts(groups)[i..])
  {
    if i < |groups| {
      ListFromTail(groups, i + 1);
      ConcatAppend([","] + groups[i], ListFrom(groups, i + 1));
      ConcatAppend([","], groups[i]);
      assert GroupTexts(groups)[i..][1..] == GroupTexts(groups)[i + 1..];
    }
  }

  /** Appending the groups with separators writes their texts joined. */
  lemma ListFromJoin(groups: seq<seq<string>>)
    ensures Concat(ListFrom(groups, 0)) == Join(GroupTexts(groups))
  {
    if |groups| > 0 {
      ListFromTail(groups, 1);
      assert ListFrom(groups, 0) == groups[0] + ListFrom(groups, 1);
      ConcatAppend(groups[0], ListFrom(groups, 1));
    }
  }

  lemma SinglesTexts(items: seq<string>)
    ensures GroupTexts(Singles(items)) == items
  {
    var g := GroupTexts(Singles(items));
    forall k | 0 <= k < |items| ensures g[k] == items[k] {
      assert Concat([items[k]]) == items[k] + Concat([]);
    }
  }

  lemma ConcatPair(x: string, y: string)
    ensures Concat([x, y]) == x + y
  {
    assert [x, y][1..] == [y];
    assert Concat([y]) == y + Concat([]);
  }

  lemma ObjectFragmentsText(head: string, ms: seq<string>, acts: seq<string>)
    ensures Concat(ObjectFragments(head, ms, acts)) == ObjectText(head, ms, acts)
  {
    var lm := ListFrom(Singles(ms), 0);
    var la := ListFrom(Singles(acts), 0);
    var a := [head, "\"measurements\":["];
    var b := ["],", "\"activities\":["];
    var c := ["]}"];
    assert Concat(lm) == Join(ms) by {
      ListFromJoin(Singles(ms));
      SinglesTexts(ms);
    }
    assert Concat(la) == Join(acts) by {
      ListFromJoin(Singles(acts));
      SinglesTexts(acts);
    }
    ConcatPair(head, "\"measurements\":[");
    ConcatPair("],", "\"activities\":[");
    assert Concat(c) == "]}" + Concat([]);
    ConcatAppend(a, lm);
    ConcatAppend(a + lm, b);
    ConcatAppend(a + lm + b, la);
    ConcatAppend(a + lm + b + la, c);
    assert ObjectFragments(head, ms, acts) == a + lm + b + la + c;
  }

  /** The response frame around any list of groups. */
  lemma FrameText(groups: seq<seq<string>>)
    ensures Concat([Header] + ListFrom(groups, 0) + ["]}"]) == Header + Join(GroupTexts(groups)) + "]}"
  {
    ListFromJoin(groups);
    ConcatAppend([Header] + ListFrom(groups, 0), ["]}"]);
    ConcatAppend([Header], ListFrom(groups, 0));
  }

  lemma ProfileGroupTexts(ps: seq<Profile>)
    ensures GroupTexts(ProfileGroups(ps)) == ProfileObjects(ps)
  {
    var groups := ProfileGroups(ps);
    forall k | 0 <= k < |ps| ensures GroupTexts(groups)[k] == ProfileObjects(ps)[k] {
      ObjectFragmentsText(ProfileHead(ps[k]), MeasurementTexts(ps[k].measurements), ActivityTexts(ps[k].activities));
    }
  }

  /** The appends of `json_build_response` write exactly the reference
      document. */
  lemma ResponseFragmentsText(ps: seq<Profile>)
    ensures Concat(ResponseFragments(ps)) == ResponseText(ps)
  {
    FrameText(ProfileGroups(ps));
    ProfileGroupTexts(ps);
  }

  /** Every fragment of every group is non-empty. */
  predicate GroupsNonEmpty(groups: seq<seq<string>>) {
    forall k :: 0 <= k < |groups| ==> NonEmpty(groups[k])
  }

  lemma {:induction false} ListFromNonEmpty(groups: seq<seq<string>>, i: nat)
    requires i <= |groups| && GroupsNonEmpty(groups)
    decreases |groups| - i
    ensures NonEmpty(ListFrom(groups, i))
  {
    if i < |groups| {
      ListFromNonEmpty(groups, i + 1);
    }
  }

  lemma ObjectFragmentsNonEmpty(head: string, ms: seq<string>, acts: seq<string>)
    requires |head| > 0 && NonEmpty(ms) && NonEmpty(acts)
    ensures NonEmpty(ObjectFragments(head, ms, acts))
  {
    ListFromNonEmpty(Singles(ms), 0);
    ListFromNonEmpty(Singles(acts), 0);
  }

  lemma MeasurementTextsNonEmpty(ms: seq<Measurement>)
    ensures NonEmpty(MeasurementTexts(ms))
  {
    var ts := MeasurementTexts(ms);
    forall j | 0 <= j < |ts| ensures |ts[j]| > 0 {
      assert ts[j] == MeasurementText(ms[j]);
    }
  }

  lemma ActivityTextsNonEmpty(as_: seq<Activity>)
    ensures NonEmpty(ActivityTexts(as_))
  {
    var ts := ActivityTexts(as_);
    forall j | 0 <= j < |ts| ensures |ts[j]| > 0 {
      assert ts[j] == ActivityText(as_[j]);
    }
  }

  lemma ProfileFragmentsNonEmpty(p: Profile)
    ensures NonEmpty(ProfileFragments(p))
  {
    MeasurementTextsNonEmpty(p.measurements);
    ActivityTextsNonEmpty(p.activities);
    ObjectFragmentsNonEmpty(ProfileHead(p), MeasurementTexts(p.measurements), ActivityTexts(p.activities));
  }

  lemma FrameNonEmpty(groups: seq<seq<string>>)
    requires GroupsNonEmpty(groups)
    ensures NonEmpty([Header] + ListFrom(groups, 0) + ["]}"])
  {
    ListFromNonEmpty(groups, 0);
  }

  /** Every fragment of the response is non-empty, so each append either
      writes something or overflows. */
  lemma ResponseFragmentsNonEmpty(ps: seq<Profile>)
    ensures NonEmpty(ResponseFragments(ps))
  {
    var groups := ProfileGroups(ps);
    forall k | 0 <= k < |ps| ensures NonEmpty(groups[k]) {
      ProfileFragmentsNonEmpty(ps[k]);
    }
    FrameNonEmpty(groups);
  }

  /** `json_build_response` into a buffer of `cap` characters. */
  function BuildResponse(ps: seq<Profile>, cap: nat): (r: Built)
    requires 1 <= cap
    ensures 0 <= r.length < cap && |r.buffer| < cap
  {
    Build(ResponseFragments(ps), cap)
  }

  /** When the document fits, it is written whole and its length returned;
      otherwise the buffer holds a prefix of it, possibly followed by
      `]}]}` with 4 returned. */
  lemma BuildResponseSpec(ps: seq<Profile>, cap: nat)
    requires 1 <= cap
    ensures var r := BuildResponse(ps, cap); var doc := ResponseText(ps);
      && (|doc| < cap ==> r == Built(doc, |doc|))
      && (|doc| >= cap ==>
            || (IsPrefix(r.buffer, doc) && r.length <= |r.buffer|)
            || (r.length == 4 && |r.buffer| > 14 && r.buffer[|r.buffer| - 4..] == "]}]}" &&
                IsPrefix(r.buffer[..|r.buffer| - 4], doc)))
  {
    ResponseFragmentsNonEmpty(ps);
    ResponseFragmentsText(ps);
    BuildSpec(ResponseFragments(ps), cap);
  }

  /** The document opens with the header and closes with `]}`. */
  lemma ResponseFrame(ps: seq<Profile>)
    ensures var doc := ResponseText(ps);
      IsPrefix(Header, doc) && |doc| >= |Header| + 2 && doc[|doc| - 2..] == "]}"
  {
    var mid := Join(ProfileObjects(ps));
    assert ResponseText(ps) == Header + mid + "]}";
    Framed(Header, mid, "]}");
  }

  lemma Framed(head: string, mid: string, tail: string)
    ensures var doc := head + mid + tail;
      IsPrefix(head, doc) && |doc| >= |head| + |tail| && doc[|doc| - |tail|..] == tail
  {
  }

  /** An object with no activities ends with `"activities":[]}`. */
  lemma EmptyActivitiesTail(head: string, ms: seq<string>)
    ensures var o := ObjectText(head, ms, []); var tail := "],\"activities\":[]}";
      |o| >= |tail| && o[|o| - |tail|..] == tail
  {
    var m := head + "\"measurements\":[" + Join(ms);
    assert ObjectText(head, ms, []) == m + "],\"activities\":[" + "" + "]}";
  }

  /** A profile from the reader has an empty activity list, so its object
      ends with `"activities":[]}`. */
  lemma NoActivitiesRendered(p: Profile)
    requires p.activities == []
    ensures var o := ProfileObject(p); var tail := "],\"activities\":[]}";
      |o| >= |tail| && o[|o| - |tail|..] == tail
  {
    var head, ms := ProfileHead(p), MeasurementTexts(p.measurements);
    assert ActivityTexts(p.activities) == [];
    assert ProfileObject(p) == ObjectText(head, ms, []);
    EmptyActivitiesTail(head, ms);
  }

  /** Once the header fits, the returned length is positive and below the
      capacity, on the overflow exit too. */
  lemma ResponseLengthInRange(ps: seq<Profile>, cap: nat)
    requires |Header| < cap
    ensures 0 < BuildResponse(ps, cap).length < cap
  {
    assert ResponseFragments(ps)[0] == Header;
    BuildLengthPositive(ResponseFragments(ps), cap);
  }

  /** With a 50-character buffer, a fragment of 25 or more characters after
      the header takes the overflow exit, which writes `]}]}` and returns 4. */
  lemma OverflowAfterHeader(frags: seq<string>)
    requires |frags| >= 2 && frags[0] == Header && |frags[1]| >= 50 - |Header|
    ensures AppendAll(Open(""), frags, 50) == Overflowed(Header, frags[1][..50 - |Header| - 1])
    ensures Build(frags, 50) == Built(Header + "]}]}", 4)
  {
    var b2 := Overflowed(Header, frags[1][..50 - |Header| - 1]);
    assert Append(Open(""), Header, 50) == Open(Header);
    assert Append(Open(Header), frags[1], 50) == b2;
    assert frags[1..][1..] == frags[2..];
    assert AppendAll(Open(""), frags, 50) == AppendAll(Open(Header), frags[1..], 50);
    assert AppendAll(Open(Header), frags[1..], 50) == AppendAll(b2, frags[2..], 50);
    OverflowedStays(b2, frags[2..], 50);
    assert Finish(b2, 50) == Built(Header + "]}]}", 4);
  }

  /** The overflow exit's defect: with a 50-character buffer the first
      profile's opening does not fit after the header, the exit writes
      `]}]}` and returns 4, so only `{"ve` counts as written. */
  lemma OverflowReturnsFour(p: Profile)
    ensures BuildResponse([p], 50) == Built(Header + "]}]}", 4)
  {
    var groups := ProfileGroups([p]);
    ObjectFragmentsFirst(ProfileHead(p), MeasurementTexts(p.measurements), ActivityTexts(p.activities));
    FrameSecond(groups, ProfileHead(p));
    OverflowAfterHeader(ResponseFragments([p]));
  }

  /** The same response with the corrected overflow exit: the returned
      length covers the header and the closing `]}]}`. */
  lemma CorrectedOverflowKeepsClosing(p: Profile)
    ensures FinishCorrected(AppendAll(Open(""), ResponseFragments([p]), 50), 50)
         == Built(Header + "]}]}", |Header| + 4)
  {
    ObjectFragmentsFirst(ProfileHead(p), MeasurementTexts(p.measurements), ActivityTexts(p.activities));
    FrameSecond(ProfileGroups([p]), ProfileHead(p));
    OverflowAfterHeader(ResponseFragments([p]));
  }

  lemma ObjectFragmentsFirst(head: string, ms: seq<string>, acts: seq<string>)
    ensures |ObjectFragments(head, ms, acts)| > 0 && ObjectFragments(head, ms, acts)[0] == head
  {
  }

  /** The second response fragment is the first one of the first profile. */
  lemma FrameSecond(groups: seq<seq<string>>, head: string)
    requires |groups| > 0 && |groups[0]| > 0 && groups[0][0] == head
    ensures var f := [Header] + ListFrom(groups, 0) + ["]}"]; |f| >= 2 && f[1] == head
  {
    assert ListFrom(groups, 0) == groups[0] + ListFrom(groups, 1);
  }

  // ---------------------------------------------------------------------
  // The error payload

  const ErrorPrefix := "{\"version\":2,\"error\":{\"code\":"
  const ErrorMiddle := ",\"message\":\""
  const ErrorSuffix := "\"}}"

  /** The full error document, before `snprintf` cuts it to the buffer. */
  function ErrorText(code: int, msg: string): string {
    ErrorPrefix + Dec(code) + ErrorMiddle + EscapeInto(msg, MessageEscapeSize) + ErrorSuffix
  }

  /** `json_build_error` into a buffer of `cap` characters: the document,
      cut to `cap - 1` characters, and its full length. */
  function BuildError(code: int, msg: string, cap: nat): (r: Built)
    requires 1 <= cap
    ensures r.length == |ErrorText(code, msg)| && IsPrefix(r.buffer, ErrorText(code, msg))
    ensures |r.buffer| == if r.length < cap then r.length else cap - 1
  {
    var doc := ErrorText(code, msg);
    Built(if |doc| < cap then doc else doc[..cap - 1], |doc|)
  }

  /** With a 32-bit code the error document is short: at most the fixed
      parts, 11 characters of code and 255 of escaped message. */
  lemma ErrorTextBound(code: int, msg: string)
    requires IsInt32(code)
    ensures 0 < |ErrorText(code, msg)| <= |ErrorPrefix| + 11 + |ErrorMiddle| + (MessageEscapeSize - 1) + |ErrorSuffix|
  {
    DecInt32Length(code);
  }

  /** Both fields can be read back from the document: the code is the
      decimal between the fixed prefix and middle, and the message is the
      escaped text between the middle and the suffix. */
  lemma ErrorFieldsRecoverable(code: int, msg: string)
    requires NoNul(msg) && |EscapeAll(msg)| < MessageEscapeSize
    ensures ErrorText(code, msg) == ErrorPrefix + Dec(code) + ErrorMiddle + EscapeAll(msg) + ErrorSuffix
    ensures ParseInt(Dec(code)) == code
    ensures Unescape(EscapeAll(msg)) == Some(msg)
  {
    EscapeIntoFits(msg, MessageEscapeSize);
    DecRoundTrip(code);
    UnescapeEscapeAll(msg);
  }

  /** The error document for the reader's "no profiles" failure. */
  lemma NoProfilesPayload()
    ensures ErrorText(-4, "No profiles found in save file") ==
      "{\"version\":2,\"error\":{\"code\":" + "-4" + ",\"message\":\"" + "No profiles found in save file" + "\"}}"
  {
    var msg := "No profiles found in save file";
    PlainUnchanged(msg, MessageEscapeSize);
    assert DigitChar(4) == '4';
    assert NatToDecimal(4) == "4";
    assert Dec(-4) == "-4";
    assert ErrorText(-4, msg) == ErrorPrefix + "-4" + ErrorMiddle + msg + ErrorSuffix;
  }
}
