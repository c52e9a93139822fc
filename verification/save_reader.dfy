/** `wiifit_read_save` and `wiifit_error_string`: locating the save file on
    the NAND, reading it, walking the eight profile slots, and the error
    policy. The NAND calls (open, stat, allocate, read) are answers of an
    abstract storage oracle; the reader's own decisions are modelled exactly. */
module SaveReader {
  import opened Bytes
  import opened Wrappers
  import opened Text
  import opened ProfileDecoder

  const Success := 0
  const ErrInit := -1
  const ErrNotFound := -2
  const ErrRead := -3
  const ErrParse := -4
  const ErrDecrypt := -5
  const ErrMemory := -6

  /** Size of the `error_msg` buffer; messages are cut to 255 characters. */
  const ErrorMsgSize := 256

  /** What the reader leaves in `WiiFitSaveData`. */
  datatype SaveData = SaveData(profiles: seq<Profile>, errorCode: int, errorMsg: string)

  /** The candidate save files, in the order they are tried. */
  const SavePaths: seq<string> := [
    "/title/00010000/5246504a/data/FitPlus0.dat",
    "/title/00010000/52465045/data/FitPlus0.dat",
    "/title/00010000/52465050/data/FitPlus0.dat",
    "/title/00010000/5246504A/data/FitPlus0.dat",
    "/title/00010000/5246504a/data/RPHealth.dat",
    "/title/00010000/52465045/data/RPHealth.dat",
    "/title/00010000/52465050/data/RPHealth.dat",
    "/title/00010004/5246504a/data/FitPlus0.dat",
    "/title/00010004/52465045/data/FitPlus0.dat",
    "/title/00010000/52464e4a/data/RPHealth.dat",
    "/title/00010000/52464e45/data/RPHealth.dat",
    "/title/00010000/52464e50/data/RPHealth.dat"
  ]

  /** `snprintf` into `error_msg`: at most 255 characters are kept. */
  function Msg(s: string): (r: string)
    ensures |r| < ErrorMsgSize && IsPrefix(r, s)
    ensures |s| < ErrorMsgSize ==> r == s
  {
    if |s| < ErrorMsgSize then s else s[..ErrorMsgSize - 1]
  }

  /** A failed call's negative return value. */
  type Failure = c: int | c < 0 witness -1

  datatype OpenResult = Opened(fd: nat) | OpenFailed(code: Failure)
  datatype StatResult = StatOk(length: nat) | StatFailed(code: Failure)
  datatype ReadResult = ReadData(data: seq<Byte>) | ReadFailed(code: Failure)

  /** The NAND as the reader sees it: whether `wiifit_init` succeeded and
      what each call answers. */
  datatype Storage = Storage(
    initialized: bool,
    open: string -> OpenResult,
    stat: nat -> StatResult,
    allocates: nat -> bool,
    read: (nat, nat) -> ReadResult)

  /** The calls the reader makes on the NAND, in order. */
  datatype StorageCall = Open(path: string) | Stat(fd: nat) | Allocate(size: nat) | Read(fd: nat, size: nat) | Close(fd: nat)

  datatype ReadOutcome = ReadOutcome(data: SaveData, calls: seq<StorageCall>)

  // ---------------------------------------------------------------------
  // The profile-slot loop

  function SlotStart(i: nat): nat {
    i * ProfileSize
  }

  predicate SlotFits(i: nat, size: nat) {
    SlotStart(i) + ProfileSize <= size
  }

  function Slot(buf: seq<Byte>, i: nat): (block: seq<Byte>)
    requires SlotFits(i, |buf|)
    ensures |block| == ProfileSize
  {
    buf[SlotStart(i)..SlotStart(i) + ProfileSize]
  }

  /** How many slots the loop visits: it stops at the first slot that does
      not fit in the file, and after eight. */
  function SlotCount(size: nat): (n: nat)
    ensures n <= MaxProfiles
    ensures forall i :: 0 <= i < n ==> SlotFits(i, size)
    ensures n < MaxProfiles ==> !SlotFits(n, size)
  {
    if size / ProfileSize < MaxProfiles then size / ProfileSize else MaxProfiles
  }

  /** What `parse_profile` reports for each visited slot, in slot order. */
  function SlotResults(buf: seq<Byte>): (r: seq<Option<Profile>>)
    ensures |r| == SlotCount(|buf|)
    ensures forall i :: 0 <= i < |r| ==> r[i] == ParseProfile(Slot(buf, i))
  {
    seq(SlotCount(|buf|), i requires 0 <= i < SlotCount(|buf|) => ParseProfile(Slot(buf, i)))
  }

  /** The loop over the slot results from index `i` on: the profiles of the
      occupied slots, each appended at `profile_count`. */
  function PresentFrom<T>(rs: seq<Option<T>>, i: nat): (r: seq<T>)
    requires i <= |rs|
    decreases |rs| - i
    ensures |r| <= |rs| - i
  {
    if i == |rs| then []
    else if rs[i].Some? then [rs[i].value] + PresentFrom(rs, i + 1)
    else PresentFrom(rs, i + 1)
  }

  /** The indices of the occupied entries from `i` on, in order. */
  function IndicesFrom<T>(rs: seq<Option<T>>, i: nat): (r: seq<nat>)
    requires i <= |rs|
    decreases |rs| - i
    ensures |r| == |PresentFrom(rs, i)|
    ensures forall k :: 0 <= k < |r| ==> i <= r[k] < |rs|
  {
    if i == |rs| then []
    else if rs[i].Some? then [i] + IndicesFrom(rs, i + 1)
    else IndicesFrom(rs, i + 1)
  }

  /** Each kept value is the one at its index. */
  lemma {:induction false} PresentValues<T>(rs: seq<Option<T>>, i: nat)
    requires i <= |rs|
    decreases |rs| - i
    ensures forall k :: 0 <= k < |PresentFrom(rs, i)| ==> rs[IndicesFrom(rs, i)[k]] == Some(PresentFrom(rs, i)[k])
  {
    if i < |rs| {
      PresentValues(rs, i + 1);
    }
  }

  /** The indices are strictly increasing. */
  lemma {:induction false} IndicesIncrease<T>(rs: seq<Option<T>>, i: nat)
    requires i <= |rs|
    decreases |rs| - i
    ensures forall k, l :: 0 <= k < l < |IndicesFrom(rs, i)| ==> IndicesFrom(rs, i)[k] < IndicesFrom(rs, i)[l]
  {
    if i < |rs| {
      IndicesIncrease(rs, i + 1);
    }
  }

  /** Every occupied index from `i` on is listed. */
  lemma {:induction false} IndicesComplete<T>(rs: seq<Option<T>>, i: nat)
    requires i <= |rs|
    decreases |rs| - i
    ensures forall j :: i <= j < |rs| && rs[j].Some? ==> j in IndicesFrom(rs, i)
  {
    if i < |rs| {
      IndicesComplete(rs, i + 1);
    }
  }

  /** A slot is occupied if the loop visits it and it holds a profile. */
  predicate Occupied(buf: seq<Byte>, i: nat) {
    i < SlotCount(|buf|) && ParseProfile(Slot(buf, i)).Some?
  }

  /** The profile loop and its verdict on a buffer that was read in full. */
  function DecodeSave(buf: seq<Byte>): (r: SaveData)
    ensures |r.profiles| <= MaxProfiles
    ensures r.errorCode == Success <==> |r.profiles| > 0
    ensures r.errorCode != Success ==> r.errorCode == ErrParse && r.errorMsg == "No profiles found in save file" && r.profiles == []
    ensures r.errorCode == Success ==> r.errorMsg == ""
  {
    var profiles := PresentFrom(SlotResults(buf), 0);
    if |profiles| == 0 then SaveData([], ErrParse, "No profiles found in save file")
    else SaveData(profiles, Success, "")
  }

  /** The decoded profiles are those of the occupied slots, in slot order,
      and the result is a parse error exactly when no slot is occupied. */
  lemma DecodeSaveSpec(buf: seq<Byte>)
    ensures var r := DecodeSave(buf); var occ := IndicesFrom(SlotResults(buf), 0);
      && |r.profiles| == |occ|
      && (forall k :: 0 <= k < |occ| ==> Occupied(buf, occ[k]) && ParseProfile(Slot(buf, occ[k])) == Some(r.profiles[k]))
      && (forall k, l :: 0 <= k < l < |occ| ==> occ[k] < occ[l])
      && (forall j :: Occupied(buf, j) ==> j in occ)
      && (r.errorCode == ErrParse <==> forall j :: !Occupied(buf, j))
  {
    var rs := SlotResults(buf);
    PresentValues(rs, 0);
    IndicesIncrease(rs, 0);
    IndicesComplete(rs, 0);
    var occ := IndicesFrom(rs, 0);
    if |occ| > 0 {
      assert rs[occ[0]].Some?;
      assert Occupied(buf, occ[0]);
    }
    forall j: nat | Occupied(buf, j)
      ensures j in occ
    {
      assert rs[j].Some?;
    }
  }

  // ---------------------------------------------------------------------
  // Locating the save file

  datatype Search = Found(index: nat, fd: nat) | NotFound(lastError: int, tried: nat)

  /** Path `i` is the first candidate that opens. */
  predicate FirstOpened(st: Storage, i: nat) {
    i < |SavePaths| && st.open(SavePaths[i]).Opened? &&
    forall j :: 0 <= j < i ==> st.open(SavePaths[j]).OpenFailed?
  }

  /** The open loop from candidate `i` on; `lastError` is the last failure. */
  function SearchFrom(st: Storage, i: nat, lastError: int): (r: Search)
    requires i <= |SavePaths|
    decreases |SavePaths| - i
    ensures r.Found? ==>
      && i <= r.index < |SavePaths| && st.open(SavePaths[r.index]) == Opened(r.fd)
      && forall j :: i <= j < r.index ==> st.open(SavePaths[j]).OpenFailed?
    ensures r.NotFound? ==>
      && r.tried == |SavePaths|
      && (forall j :: i <= j < |SavePaths| ==> st.open(SavePaths[j]).OpenFailed?)
      && r.lastError == (if i < |SavePaths| then st.open(SavePaths[|SavePaths| - 1]).code else lastError)
  {
    if i == |SavePaths| then NotFound(lastError, i)
    else
      match st.open(SavePaths[i])
      case Opened(fd) => Found(i, fd)
      case OpenFailed(c) => SearchFrom(st, i + 1, c)
  }

  /** The search finds the first candidate that opens, and fails exactly
      when none does. */
  lemma SearchFindsFirst(st: Storage)
    ensures var r := SearchFrom(st, 0, 0);
      && (r.Found? ==> FirstOpened(st, r.index))
      && (r.NotFound? <==> forall j :: 0 <= j < |SavePaths| ==> st.open(SavePaths[j]).OpenFailed?)
  {
    var r := SearchFrom(st, 0, 0);
    if r.Found? {
      assert st.open(SavePaths[r.index]).Opened?;
    }
  }

  /** The open calls the search makes. */
  function OpenCalls(s: Search): (r: seq<StorageCall>)
    requires s.Found? ==> s.index < |SavePaths|
    ensures |r| == (if s.Found? then s.index + 1 else |SavePaths|)
    ensures forall k :: 0 <= k < |r| ==> r[k] == Open(SavePaths[k])
  {
    var n := if s.Found? then s.index + 1 else |SavePaths|;
    seq(n, k requires 0 <= k < n => Open(SavePaths[k]))
  }

  function NotFoundMessage(lastError: int, tried: nat): string {
    "Save not found (ISFS error " + Dec(lastError) + "). Tried " + Dec(tried) + " paths. Last: " + SavePaths[|SavePaths| - 1]
  }

  /** A failure after the `memset`: no profiles, the code and the message. */
  function Failed(code: int, msg: string): (r: SaveData)
    ensures r.profiles == [] && r.errorCode == code && |r.errorMsg| < ErrorMsgSize
  {
    SaveData([], code, Msg(msg))
  }

  /** Number of `Close` calls in a trace. */
  function Closes(calls: seq<StorageCall>): nat {
    if |calls| == 0 then 0 else (if calls[0].Close? then 1 else 0) + Closes(calls[1..])
  }

  lemma {:induction false} ClosesAppend(a: seq<StorageCall>, b: seq<StorageCall>)
    ensures Closes(a + b) == Closes(a) + Closes(b)
  {
    if |a| == 0 {
      assert a + b == b;
    } else {
      assert (a + b)[1..] == a[1..] + b;
      ClosesAppend(a[1..], b);
    }
  }

  /** A trace without `Close` calls counts none. */
  lemma {:induction false} NoClose(calls: seq<StorageCall>)
    requires forall k :: 0 <= k < |calls| ==> !calls[k].Close?
    ensures Closes(calls) == 0
  {
    if |calls| > 0 {
      NoClose(calls[1..]);
    }
  }

  lemma OpensHaveNoClose(s: Search)
    requires s.Found? ==> s.index < |SavePaths|
    ensures Closes(OpenCalls(s)) == 0
  {
    NoClose(OpenCalls(s));
  }

  /** `wiifit_read_save` applied to the save data `prev` already in place. */
  function ReadSave(prev: SaveData, st: Storage): (r: ReadOutcome)
  {
    if !st.initialized then
      ReadOutcome(prev.(errorCode := ErrInit, errorMsg := "Reader not initialized"), [])
    else
      var search := SearchFrom(st, 0, 0);
      var opens := OpenCalls(search);
      match search
      case NotFound(lastError, tried) =>
        ReadOutcome(Failed(ErrNotFound, NotFoundMessage(lastError, tried)), opens)
      case Found(_, fd) =>
        ReadOutcome(ReadOpened(st, fd), opens + ReadTail(st, fd))
  }

  /** The save data the read leaves once the file is open as `fd`: stat,
      allocate, read, then the profile loop. */
  function ReadOpened(st: Storage, fd: nat): (r: SaveData)
    ensures r.errorCode in {Success, ErrRead, ErrParse, ErrMemory}
    ensures r.errorCode == Success <==> |r.profiles| > 0
    ensures r.errorCode != Success ==> r.profiles == []
    ensures |r.profiles| <= MaxProfiles && |r.errorMsg| < ErrorMsgSize
  {
    match st.stat(fd)
    case StatFailed(c) =>
      Failed(ErrRead, "Failed to get file stats (error " + Dec(c) + ")")
    case StatOk(size) =>
      if !st.allocates(size) then
        Failed(ErrMemory, "Failed to allocate " + NatToDecimal(size) + " bytes")
      else
        match st.read(fd, size)
        case ReadFailed(c) =>
          Failed(ErrRead, "Failed to read save file (error " + Dec(c) + ")")
        case ReadData(data) =>
          if |data| != size then
            Failed(ErrRead, "Failed to read save file (error " + Dec(|data|) + ")")
          else
            DecodeSave(data)
  }

  /** The calls after a successful open: stat, allocate and read as far as
      each succeeds, then the one close. */
  function ReadTail(st: Storage, fd: nat): seq<StorageCall> {
    TailSteps(st, fd) + [Close(fd)]
  }

  function TailSteps(st: Storage, fd: nat): (r: seq<StorageCall>)
    ensures forall k :: 0 <= k < |r| ==> !r[k].Close? && !r[k].Open?
  {
    match st.stat(fd)
    case StatFailed(_) => [Stat(fd)]
    case StatOk(size) =>
      if !st.allocates(size) then [Stat(fd), Allocate(size)]
      else [Stat(fd), Allocate(size), Read(fd, size)]
  }

  /** Every message an initialised read leaves fits `error_msg`. */
  lemma ReadSaveMessageFits(prev: SaveData, st: Storage)
    requires st.initialized
    ensures |ReadSave(prev, st).data.errorMsg| < ErrorMsgSize
  {
  }

  /** Some candidate path opens. */
  predicate AnyOpens(st: Storage) {
    exists j :: 0 <= j < |SavePaths| && st.open(SavePaths[j]).Opened?
  }

  /** An uninitialised reader touches nothing, keeps the old profiles and
      reports -1. */
  lemma ReadSaveUninitialized(prev: SaveData, st: Storage)
    requires !st.initialized
    ensures ReadSave(prev, st) == ReadOutcome(prev.(errorCode := ErrInit, errorMsg := "Reader not initialized"), [])
  {
  }

  /** The result of an initialised read: one of the reader's codes, success
      exactly when profiles were found, and no profiles on failure. */
  lemma ReadSaveVerdict(prev: SaveData, st: Storage)
    requires st.initialized
    ensures var r := ReadSave(prev, st);
      && r.data.errorCode in {Success, ErrNotFound, ErrRead, ErrParse, ErrMemory}
      && (r.data.errorCode == Success <==> |r.data.profiles| > 0)
      && (r.data.errorCode != Success ==> r.data.profiles == [])
      && |r.data.profiles| <= MaxProfiles
  {
  }

  /** The calls of an initialised read: candidates are opened in table
      order, and an opened file is closed exactly once, as the last call. */
  lemma ReadSaveCalls(prev: SaveData, st: Storage)
    requires st.initialized
    ensures var r := ReadSave(prev, st);
      && (forall k :: 0 <= k < |r.calls| && r.calls[k].Open? ==> r.calls[k] == Open(SavePaths[k]))
      && (AnyOpens(st) ==> Closes(r.calls) == 1 && |r.calls| > 0 && r.calls[|r.calls| - 1].Close?)
      && (!AnyOpens(st) ==> Closes(r.calls) == 0)
  {
    var search := SearchFrom(st, 0, 0);
    SearchFindsFirst(st);
    var opens := OpenCalls(search);
    OpensHaveNoClose(search);
    var r := ReadSave(prev, st);
    if search.Found? {
      var tail := ReadTail(st, search.fd);
      assert r.calls == opens + tail;
      ClosesAppend(opens, tail);
      TailCloses(st, search.fd);
    } else {
      assert r.calls == opens;
    }
  }

  lemma TailCloses(st: Storage, fd: nat)
    ensures Closes(ReadTail(st, fd)) == 1
    ensures ReadTail(st, fd)[|ReadTail(st, fd)| - 1] == Close(fd)
    ensures forall k :: 0 <= k < |ReadTail(st, fd)| ==> !ReadTail(st, fd)[k].Open?
  {
    var m := TailSteps(st, fd);
    NoClose(m);
    ClosesAppend(m, [Close(fd)]);
    assert [Close(fd)][1..] == [];
  }

  /** No candidate opens: -2, with the last error and the twelve tries in
      the message, after one open call per candidate. */
  lemma ReadSaveNotFound(prev: SaveData, st: Storage)
    requires st.initialized
    requires forall j :: 0 <= j < |SavePaths| ==> st.open(SavePaths[j]).OpenFailed?
    ensures var r := ReadSave(prev, st);
      && r.data.errorCode == ErrNotFound && r.data.profiles == []
      && r.data.errorMsg == Msg(NotFoundMessage(st.open(SavePaths[|SavePaths| - 1]).code, |SavePaths|))
      && r.calls == OpenCalls(NotFound(0, |SavePaths|))
  {
    SearchFindsFirst(st);
  }

  /** Candidate `i` is the first that opens, as `fd`: the search finds it. */
  lemma SearchFindsOpened(st: Storage, i: nat, fd: nat)
    requires FirstOpened(st, i) && st.open(SavePaths[i]) == Opened(fd)
    ensures SearchFrom(st, 0, 0) == Found(i, fd)
  {
  }

  /** After the file opens as `fd`: a stat failure or a failed or short read
      gives -3, an allocation failure -6, and a full read the verdict of the
      profile loop on the bytes read. */
  lemma ReadSaveAfterOpen(prev: SaveData, st: Storage, i: nat, fd: nat)
    requires st.initialized
    requires FirstOpened(st, i) && st.open(SavePaths[i]) == Opened(fd)
    ensures var r := ReadSave(prev, st);
      && (st.stat(fd).StatFailed? ==> r.data.errorCode == ErrRead && r.data.profiles == [])
      && (st.stat(fd).StatOk? && !st.allocates(st.stat(fd).length) ==> r.data.errorCode == ErrMemory && r.data.profiles == [])
      && (st.stat(fd).StatOk? && st.allocates(st.stat(fd).length) ==>
            var size := st.stat(fd).length;
            var rr := st.read(fd, size);
            && (rr.ReadFailed? || |rr.data| != size ==> r.data.errorCode == ErrRead && r.data.profiles == [])
            && (rr.ReadData? && |rr.data| == size ==> r.data == DecodeSave(rr.data)))
  {
    SearchFindsOpened(st, i, fd);
  }

  // ---------------------------------------------------------------------
  // Error strings

  /** `wiifit_error_string`. */
  function ErrorString(code: int): (r: string)
    ensures r == "Unknown error" <==> code !in {Success, ErrInit, ErrNotFound, ErrRead, ErrParse, ErrDecrypt, ErrMemory}
  {
    match code
    case 0 => "Success"
    case -1 => "Initialization failed"
    case -2 => "Save file not found"
    case -3 => "Read error"
    case -4 => "Parse error"
    case -5 => "Decryption error"
    case -6 => "Memory allocation failed"
    case _ => "Unknown error"
  }

  /** Reads a description back to its code; `None` for "Unknown error". */
  function ErrorCodeOf(s: string): (r: Option<int>) {
    if s == "Success" then Some(Success)
    else if s == "Initialization failed" then Some(ErrInit)
    else if s == "Save file not found" then Some(ErrNotFound)
    else if s == "Read error" then Some(ErrRead)
    else if s == "Parse error" then Some(ErrParse)
    else if s == "Decryption error" then Some(ErrDecrypt)
    else if s == "Memory allocation failed" then Some(ErrMemory)
    else None
  }

  /** Each known code has its own description, and every other code shares
      "Unknown error". */
  lemma ErrorStringRoundTrip(code: int)
    ensures ErrorCodeOf(ErrorString(code)) ==
      (if code in {Success, ErrInit, ErrNotFound, ErrRead, ErrParse, ErrDecrypt, ErrMemory} then Some(code) else None)
  {
  }
}
