/** The state-blob cache of the library: one slot per state type that the next initialization consumes,
    the version choice and its lock, and TPMLIB_SetState for both TPM versions. */
module StateCache {
  import opened Bytes
  import opened Codes

  const BUFLEN_EMPTY_BUFFER: Uint32 := 0xffff_ffff

  /** The length 2^32 - 1 marks an empty buffer. */
  type Blob32 = b: Bytes | |b| < 0xffff_ffff witness []

  datatype StateType = Permanent | Volatile | SaveState
  datatype Version = V12 | V2
  datatype Slot = Absent | Empty | Blob(data: Blob32)

  datatype Slots = Slots(permanent: Slot, volatile: Slot, saveState: Slot) {
    function At(st: StateType): Slot {
      match st case Permanent => permanent case Volatile => volatile case SaveState => saveState
    }

    function With(st: StateType, s: Slot): (r: Slots)
      ensures forall t :: r.At(t) == if t == st then s else At(t)
    {
      match st
      case Permanent => this.(permanent := s)
      case Volatile => this.(volatile := s)
      case SaveState => this.(saveState := s)
    }
  }

  const ALL_ABSENT := Slots(Absent, Absent, Absent)

  datatype State = State(slots: Slots, version: Version, locked: bool, running: bool)

  /** Results of the parts of SetState that the cache does not determine: allocations, the temporary TPM
      state, loading the permanent state, and the blob's own validation. */
  datatype Checks = Checks(mallocOk: bool, initOk: bool, copyOk: bool, permanentOk: bool, blobOk: bool)

  datatype Event =
    | Choose(ver: Option<Version>)
    | MainInit(up: bool)
    | Terminate
    | SetState(st: StateType, buffer: Option<Blob32>, checks: Checks)
    | GetState(st: StateType, mallocOk: bool)
    | Load(name: string)

  datatype Result = Done | Refused | Retry | Delivered(data: Blob32) | FallThrough | Copied(data: Blob32) | FromTpm

  // ---------------------------------------------------------------- names

  function StateTypeToName(st: StateType): string {
    match st case Permanent => "permall" case Volatile => "volatilestate" case SaveState => "savestate"
  }

  function NameToStateType(name: string): Option<StateType> {
    if name == "permall" then Some(Permanent)
    else if name == "volatilestate" then Some(Volatile)
    else if name == "savestate" then Some(SaveState)
    else None
  }

  /** The two mappings are inverse, so a slot is only ever consumed under its own file name. */
  lemma NamesInverse(name: string, st: StateType)
    ensures NameToStateType(name) == Some(st) <==> name == StateTypeToName(st)
    ensures NameToStateType(name) == None <==> name !in {"permall", "volatilestate", "savestate"}
  {
    assert "permall"[0] == 'p' && "volatilestate"[0] == 'v' && "savestate"[0] == 's';
  }

  // ---------------------------------------------------------------- one call

  /** Whether the blob passes: a volatile or saved state needs the permanent state loaded first, and the
      TPM 2 has no saved state. */
  predicate Accepts(s: State, st: StateType, c: Checks) {
    match s.version
    case V12 => c.blobOk && (st != Permanent ==> (s.slots.permanent.Blob? ==> c.copyOk) && c.permanentOk)
    case V2 => && st != SaveState && c.blobOk
               && (st == Volatile ==> (s.slots.permanent.Blob? ==> c.copyOk) && c.permanentOk)
  }

  function SetStep(s: State, st: StateType, buffer: Option<Blob32>, c: Checks): (r: (Result, State)) {
    match buffer
    case None => (Done, s.(slots := s.slots.With(st, Empty)))
    case Some(b) =>
      if s.running || !c.mallocOk || (s.version == V12 && !c.initOk) then (Refused, s)
      else if !Accepts(s, st, c) then (Refused, s.(slots := ALL_ABSENT))
      else (Done, s.(slots := s.slots.With(st, Blob(b))))
  }

  function LoadStep(s: State, name: string): (r: (Result, State)) {
    match NameToStateType(name)
    case None => (FallThrough, s)
    case Some(st) =>
      var next := s.(slots := s.slots.With(st, Absent));
      match s.slots.At(st)
      case Absent => (FallThrough, next)
      case Empty => (Retry, next)
      case Blob(b) => (Delivered(b), next)
  }

  /** TPMLIB_GetState: a running TPM is asked itself, otherwise the cache is looked at before the file. */
  function GetStep(s: State, st: StateType, mallocOk: bool): Result {
    if s.running then FromTpm
    else match s.slots.At(st)
      case Absent => FallThrough
      case Empty => Done
      case Blob(b) => if mallocOk then Copied(b) else Refused
  }

  function Step(s: State, e: Event): (r: (Result, State)) {
    match e
    case Choose(ver) =>
      if s.locked || ver.None? then (Refused, s)
      else (Done, s.(version := ver.value, slots := if s.version != ver.value then ALL_ABSENT else s.slots))
    case MainInit(up) => (if up then Done else Refused, s.(locked := true, running := up))
    case Terminate => (Done, s.(locked := false, running := false))
    case SetState(st, buffer, checks) => SetStep(s, st, buffer, checks)
    case GetState(st, mallocOk) => (GetStep(s, st, mallocOk), s)
    case Load(name) => LoadStep(s, name)
  }

  // ---------------------------------------------------------------- runs

  function StateAt(s: State, run: seq<Event>, n: nat): (r: State)
    requires n <= |run|
  {
    if n == 0 then s else Step(StateAt(s, run, n - 1), run[n - 1]).1
  }

  function ResultAt(s: State, run: seq<Event>, i: nat): Result
    requires i < |run|
  {
    Step(StateAt(s, run, i), run[i]).0
  }

  /** Call `i` put the blob `b` into the slot of `st`. */
  predicate Puts(s: State, run: seq<Event>, i: nat, st: StateType, b: Blob32)
    requires i < |run|
  {
    run[i].SetState? && run[i].st == st && run[i].buffer == Some(b) && ResultAt(s, run, i) == Done
  }

  /** Call `i` sets, consumes or clears the slot of `st`, or is a change of version. */
  predicate Touches(s: State, run: seq<Event>, i: nat, st: StateType)
    requires i < |run|
  {
    match run[i]
    case Choose(ver) => StateAt(s, run, i + 1).version != StateAt(s, run, i).version
    case SetState(st', _, _) =>
      || (st' == st && ResultAt(s, run, i) == Done)
      || StateAt(s, run, i + 1).slots.At(st) != StateAt(s, run, i).slots.At(st)
    case Load(name) => NameToStateType(name) == Some(st)
    case _ => false
  }

  /** Before call `n`, blob `b` of `st` comes from call `i`, and nothing touched the slot since. */
  predicate ComesFrom(s: State, run: seq<Event>, n: nat, st: StateType, b: Blob32, i: nat)
    requires n <= |run|
  {
    i < n && Puts(s, run, i, st, b) && forall k :: i < k < n ==> !Touches(s, run, k, st)
  }

  lemma UntouchedKeeps(s: State, run: seq<Event>, i: nat, st: StateType)
    requires i < |run| && !Touches(s, run, i, st)
    ensures StateAt(s, run, i + 1).slots.At(st) == StateAt(s, run, i).slots.At(st)
    ensures StateAt(s, run, i + 1).version == StateAt(s, run, i).version
  {}

  /** A blob in a slot was put there by one earlier call of its own type, which nothing has undone. */
  lemma {:induction false} BlobHasSource(s: State, run: seq<Event>, n: nat, st: StateType) returns (i: nat)
    requires n <= |run| && s.slots == ALL_ABSENT && StateAt(s, run, n).slots.At(st).Blob?
    ensures ComesFrom(s, run, n, st, StateAt(s, run, n).slots.At(st).data, i)
    decreases n
  {
    var before := StateAt(s, run, n - 1);
    if Touches(s, run, n - 1, st) {
      i := n - 1;
    } else {
      UntouchedKeeps(s, run, n - 1, st);
      i := BlobHasSource(s, run, n - 1, st);
    }
  }

  lemma {:induction false} VersionHolds(s: State, run: seq<Event>, i: nat, n: nat, st: StateType)
    requires i < n <= |run| && run[i].SetState? && forall k :: i < k < n ==> !Touches(s, run, k, st)
    ensures StateAt(s, run, n).version == StateAt(s, run, i).version
    decreases n
  {
    if i < n - 1 {
      VersionHolds(s, run, i, n - 1, st);
      UntouchedKeeps(s, run, n - 1, st);
    }
  }

  /** One-shot delivery over every run from an empty cache: a load that delivers `b` under some name
      delivers the blob that one earlier call set for exactly that type, under the TPM version still
      chosen, with no set, load, clear or version change of that slot in between. */
  lemma DeliveryHasSource(s: State, run: seq<Event>, j: nat, b: Blob32) returns (i: nat, st: StateType)
    requires s.slots == ALL_ABSENT && j < |run| && run[j].Load? && ResultAt(s, run, j) == Delivered(b)
    ensures run[j].name == StateTypeToName(st) && ComesFrom(s, run, j, st, b, i)
    ensures StateAt(s, run, i).version == StateAt(s, run, j).version
  {
    st := NameToStateType(run[j].name).value;
    NamesInverse(run[j].name, st);
    i := BlobHasSource(s, run, j, st);
    VersionHolds(s, run, i, j, st);
  }

  /** A blob is delivered at most once: two deliveries have different sources. */
  lemma DeliveredOnce(s: State, run: seq<Event>, j: nat, j': nat, b: Blob32, b': Blob32, st: StateType, i: nat)
    requires j < j' < |run| && run[j].Load? && run[j'].Load?
    requires run[j].name == run[j'].name == StateTypeToName(st)
    requires ComesFrom(s, run, j, st, b, i)
    ensures !ComesFrom(s, run, j', st, b', i)
  {
    NamesInverse(run[j].name, st);
    assert Touches(s, run, j, st);
  }

  lemma {:induction false} SlotHolds(s: State, run: seq<Event>, i: nat, n: nat, st: StateType, b: Blob32)
    requires n <= |run| && ComesFrom(s, run, n, st, b, i)
    ensures StateAt(s, run, n).slots.At(st) == Blob(b)
    decreases n
  {
    if i < n - 1 {
      SlotHolds(s, run, i, n - 1, st, b);
      UntouchedKeeps(s, run, n - 1, st);
    }
  }

  /** The converse of `DeliveryHasSource`: the last blob set for a type is what its next load delivers. */
  lemma SourceIsDelivered(s: State, run: seq<Event>, i: nat, j: nat, st: StateType, b: Blob32)
    requires j < |run| && ComesFrom(s, run, j, st, b, i) && run[j] == Load(StateTypeToName(st))
    ensures ResultAt(s, run, j) == Delivered(b)
  {
    SlotHolds(s, run, i, j, st, b);
    NamesInverse(run[j].name, st);
  }

  /** A slot stays as a call left it while nothing touches it. */
  lemma {:induction false} SlotAfter(s: State, run: seq<Event>, i: nat, n: nat, st: StateType)
    requires i < n <= |run| && forall k :: i < k < n ==> !Touches(s, run, k, st)
    ensures StateAt(s, run, n).slots.At(st) == StateAt(s, run, i + 1).slots.At(st)
    decreases n
  {
    if i < n - 1 {
      SlotAfter(s, run, i, n - 1, st);
      UntouchedKeeps(s, run, n - 1, st);
    }
  }

  /** A second load finds nothing: whatever the first one returned, the next falls through to the file. */
  lemma LoadConsumes(s: State, run: seq<Event>, i: nat, j: nat, st: StateType)
    requires i < j < |run| && run[i] == run[j] == Load(StateTypeToName(st))
    requires forall k :: i < k < j ==> !Touches(s, run, k, st)
    ensures ResultAt(s, run, j) == FallThrough
  {
    NamesInverse(StateTypeToName(st), st);
    SlotAfter(s, run, i, j, st);
  }

  /** Setting a type to NULL, which is allowed at any time, makes its next load report that there is no state
      yet, instead of turning to the file. */
  lemma EmptyIsRetried(s: State, run: seq<Event>, i: nat, j: nat, st: StateType)
    requires i < j < |run| && run[i].SetState? && run[i].st == st && run[i].buffer == None
    requires run[j] == Load(StateTypeToName(st)) && forall k :: i < k < j ==> !Touches(s, run, k, st)
    ensures ResultAt(s, run, i) == Done && ResultAt(s, run, j) == Retry
  {
    NamesInverse(StateTypeToName(st), st);
    SlotAfter(s, run, i, j, st);
  }

  /** When a blob is taken, spelled out: the TPM is down, there is memory, the blob passes its own check, and a
      blob other than the permanent state finds a permanent state it can be checked with; the TPM 2 takes no
      saved state. */
  lemma PutIff(s: State, st: StateType, b: Blob32, c: Checks)
    ensures SetStep(s, st, Some(b), c).0 == Done <==>
              && !s.running && c.mallocOk && c.blobOk && (s.version == V12 ==> c.initOk)
              && (st != Permanent ==> c.permanentOk && (s.slots.permanent.Blob? ==> c.copyOk))
              && (st == SaveState ==> s.version == V12)
  {}

  /** What the call leaves in the slot of any type: its own blob if it is taken; all as before if the TPM runs or
      nothing was checked; nothing at all if a check failed. */
  lemma PutEffect(s: State, st: StateType, b: Blob32, c: Checks, t: StateType)
    ensures var (r, next) := SetStep(s, st, Some(b), c);
            && next.version == s.version && next.locked == s.locked && next.running == s.running
            && next.slots.At(t) ==
                 if r == Done then (if t == st then Blob(b) else s.slots.At(t))
                 else if s.running || !c.mallocOk || (s.version == V12 && !c.initOk) then s.slots.At(t)
                 else Absent
  {}

  /** From its initialization until it is terminated the version cannot change. */
  lemma {:induction false} VersionLocked(s: State, run: seq<Event>, i: nat, n: nat)
    requires i < n <= |run| && run[i].MainInit? && forall k :: i < k < n ==> !run[k].Terminate?
    ensures StateAt(s, run, n).locked && StateAt(s, run, n).version == StateAt(s, run, i).version
    decreases n
  {
    if i < n - 1 {
      VersionLocked(s, run, i, n - 1);
    }
  }

  /** Looking does not consume: what GetState copies out of the cache while the TPM is down is what one
      earlier call set, and the next load of that type still delivers it. */
  lemma CopyIsDeliveredLater(s: State, run: seq<Event>, g: nat, j: nat, st: StateType, b: Blob32) returns (i: nat)
    requires s.slots == ALL_ABSENT && g < j < |run| && run[j] == Load(StateTypeToName(st))
    requires run[g].GetState? && run[g].st == st && ResultAt(s, run, g) == Copied(b)
    requires forall k :: g < k < j ==> !Touches(s, run, k, st)
    ensures ComesFrom(s, run, g, st, b, i) && ResultAt(s, run, j) == Delivered(b)
  {
    i := BlobHasSource(s, run, g, st);
    SourceIsDelivered(s, run, i, j, st, b);
  }

  /** While the TPM is down, looking foresees loading: a copy is what the next load would deliver, an empty answer
      means it would report that there is no state yet, and the file is asked exactly when it would be. A
      running TPM answers itself. */
  lemma GetForesees(s: State, st: StateType, b: Blob32)
    ensures var load := Step(s, Load(StateTypeToName(st))).0; var get := Step(s, GetState(st, true)).0;
            && (s.running ==> get == FromTpm)
            && (!s.running ==> (get == Copied(b) <==> load == Delivered(b)))
            && (!s.running ==> (get == Done <==> load == Retry) && (get == FallThrough <==> load == FallThrough))
    ensures Step(s, GetState(st, false)).1 == Step(s, GetState(st, true)).1 == s
  {
    NamesInverse(StateTypeToName(st), st);
  }

  /** A TPM that came up refuses every blob, without change, until it is terminated or initialized again. */
  lemma {:induction false} RunningRefuses(s: State, run: seq<Event>, i: nat, n: nat, c: Checks, st: StateType,
                                          b: Blob32)
    requires i < n <= |run| && run[i] == MainInit(true)
    requires forall k :: i < k < n ==> !run[k].Terminate? && !run[k].MainInit?
    ensures StateAt(s, run, n).running
    ensures Step(StateAt(s, run, n), SetState(st, Some(b), c)) == (Refused, StateAt(s, run, n))
    decreases n
  {
    if i < n - 1 {
      RunningRefuses(s, run, i, n - 1, c, st, b);
    }
  }

  /** After it is terminated, either version can be chosen; the cache survives that exactly if it is the same. */
  lemma TerminatedIsFree(s: State, v: Version)
    ensures var (r, next) := Step(Step(s, Terminate).1, Choose(Some(v)));
            r == Done && next.version == v && next.slots == if v == s.version then s.slots else ALL_ABSENT
  {}

  // ---------------------------------------------------------------- the code

  /** struct sized_buffer. */
  datatype SizedBuffer = SizedBuffer(buffer: Option<Bytes>, buflen: Uint32)

  /** Index of a state type in the cache array: its bit in the state mask. */
  function Index(st: StateType): nat {
    match st case Permanent => 1 case Volatile => 2 case SaveState => 4
  }

  predicate WellFormed(b: SizedBuffer) {
    match b.buffer
    case None => b.buflen == 0 || b.buflen == BUFLEN_EMPTY_BUFFER
    case Some(d) => b.buflen == |d| < 0xffff_ffff
  }

  function SlotOf(b: SizedBuffer): Slot
    requires WellFormed(b)
  {
    match b.buffer
    case None => if b.buflen == 0 then Absent else Empty
    case Some(d) => Blob(d)
  }

  class Library {
    const cachedBlobs: array<SizedBuffer>
    var version: Version
    var locked: bool
    var running: bool

    ghost predicate Valid()
      reads this, cachedBlobs
    {
      cachedBlobs.Length == 5 && forall st :: WellFormed(cachedBlobs[Index(st)])
    }

    ghost function Cached(): Slots
      requires Valid()
      reads this, cachedBlobs
    {
      Slots(SlotOf(cachedBlobs[Index(Permanent)]),
            SlotOf(cachedBlobs[Index(Volatile)]),
            SlotOf(cachedBlobs[Index(SaveState)]))
    }

    ghost function Abs(): State
      requires Valid()
      reads this, cachedBlobs
    {
      State(Cached(), version, locked, running)
    }

    constructor ()
      ensures Valid() && Abs() == State(ALL_ABSENT, V12, false, false)
    {
      cachedBlobs := new SizedBuffer[5](_ => SizedBuffer(None, 0));
      version, locked, running := V12, false, false;
    }

    method ClearCachedState(st: StateType)
      requires Valid()
      modifies cachedBlobs
      ensures Valid() && Abs() == old(Abs()).(slots := old(Cached()).With(st, Absent))
    {
      cachedBlobs[Index(st)] := SizedBuffer(None, 0);
    }

    method ClearAllCachedState()
      requires Valid()
      modifies cachedBlobs
      ensures Valid() && Abs() == old(Abs()).(slots := ALL_ABSENT)
    {
      ClearCachedState(Volatile);
      ClearCachedState(Permanent);
      ClearCachedState(SaveState);
    }

    /** A NULL buffer sets the empty state, whatever the length. */
    method SetCachedState(st: StateType, buffer: Option<Bytes>, buflen: Uint32)
      requires Valid() && (buffer.Some? ==> buflen == |buffer.value| < 0xffff_ffff)
      modifies cachedBlobs
      ensures Valid()
      ensures Abs() == old(Abs()).(slots := old(Cached()).With(st, if buffer.None? then Empty else Blob(buffer.value)))
    {
      cachedBlobs[Index(st)] := SizedBuffer(buffer, if buffer.Some? then buflen else BUFLEN_EMPTY_BUFFER);
    }

    /** The caller owns the blob now. */
    method GetCachedState(st: StateType) returns (buffer: Option<Blob32>, isEmpty: bool)
      requires Valid()
      modifies cachedBlobs
      ensures Valid() && Abs() == old(Abs()).(slots := old(Cached()).With(st, Absent))
      ensures old(Cached()).At(st) == if isEmpty then Empty else if buffer.Some? then Blob(buffer.value) else Absent
      ensures isEmpty ==> buffer.None?
    {
      buffer := cachedBlobs[Index(st)].buffer;
      isEmpty := cachedBlobs[Index(st)].buflen == BUFLEN_EMPTY_BUFFER;
      cachedBlobs[Index(st)] := SizedBuffer(None, 0);
    }

    method CopyCachedState(st: StateType, mallocOk: bool) returns (ok: bool, buffer: Option<Blob32>, isEmpty: bool)
      requires Valid()
      ensures ok <==> (Cached().At(st).Blob? ==> mallocOk)
      ensures isEmpty <==> Cached().At(st).Empty?
      ensures buffer == if ok && Cached().At(st).Blob? then Some(Cached().At(st).data) else None
    {
      isEmpty := cachedBlobs[Index(st)].buflen == BUFLEN_EMPTY_BUFFER;
      ok, buffer := true, None;
      if cachedBlobs[Index(st)].buffer.Some? {
        ok := mallocOk;
        if ok {
          buffer := cachedBlobs[Index(st)].buffer;
        }
      }
    }

    /** TPM_NVRAM_LoadData up to the point where it turns to a callback or a file. */
    method LoadData(name: string) returns (r: Result)
      requires Valid()
      modifies cachedBlobs
      ensures Valid() && (r, Abs()) == LoadStep(old(Abs()), name)
    {
      var st := NameToStateType(name);
      if st.None? {
        return FallThrough;             // slot 0 is never set
      }
      var buffer, isEmpty := GetCachedState(st.value);
      if isEmpty {
        return Retry;
      }
      return if buffer.Some? then Delivered(buffer.value) else FallThrough;
    }

    /** TPM_PermanentAll_NVLoad_Preserve: the load consumes the permanent slot, and it is put back whatever
        the load returned. */
    method LoadPermanentPreserving(copyOk: bool, permanentOk: bool) returns (ok: bool)
      requires Valid()
      modifies cachedBlobs
      ensures Valid() && Abs() == old(Abs())
      ensures ok <==> (Cached().permanent.Blob? ==> copyOk) && permanentOk
    {
      var buffer, isEmpty;
      ok, buffer, isEmpty := CopyCachedState(Permanent, copyOk);
      if ok {
        var r := LoadData("permall");
        ok := permanentOk;
        if isEmpty || buffer.Some? {
          SetCachedState(Permanent, buffer, if buffer.Some? then |buffer.value| else 0);
        }
      }
    }

    /** TPM12_SetState and TPM2_SetState. A successful call changes its own slot only. */
    method SetStateBlob(st: StateType, buffer: Option<Blob32>, c: Checks) returns (r: Result)
      requires Valid()
      modifies cachedBlobs
      ensures Valid() && (r, Abs()) == SetStep(old(Abs()), st, buffer, c)
      ensures r == Done ==> forall t :: t != st ==> Cached().At(t) == old(Cached().At(t))
    {
      if buffer.None? {
        SetCachedState(st, None, 0);
        return Done;
      }
      if running || !c.mallocOk || (version == V12 && !c.initOk) {
        return Refused;
      }
      var ok;
      if st == Permanent {
        ok := c.blobOk;
      } else if version == V12 {
        ok := LoadPermanentPreserving(c.copyOk, c.permanentOk);
        ok := ok && c.blobOk;
      } else if st == Volatile {
        var copy, isEmpty;
        ok, copy, isEmpty := CopyCachedState(Permanent, c.copyOk);
        ok := ok && c.permanentOk && c.blobOk;
      } else {
        ok := false;
      }
      if !ok {
        ClearAllCachedState();
        return Refused;
      }
      SetCachedState(st, buffer, |buffer.value|);
      return Done;
    }

    /** TPM12_GetState and TPM2_GetState up to the point where they turn to the running TPM or a file. */
    method GetStateBlob(st: StateType, mallocOk: bool) returns (r: Result)
      requires Valid()
      modifies cachedBlobs
      ensures Valid() && (r, Abs()) == Step(old(Abs()), GetState(st, mallocOk))
    {
      if running {
        return FromTpm;
      }
      var ok, buffer, isEmpty := CopyCachedState(st, mallocOk);
      if !ok {
        return Refused;
      }
      if buffer.Some? {
        return Copied(buffer.value);
      }
      if isEmpty {
        return Done;
      }
      r := LoadData(StateTypeToName(st));
      NamesInverse(StateTypeToName(st), st);
    }

    method ChooseTPMVersion(ver: Option<Version>) returns (r: Result)
      requires Valid()
      modifies this`version, cachedBlobs
      ensures Valid() && (r, Abs()) == Step(old(Abs()), Choose(ver))
    {
      if locked || ver.None? {
        return Refused;
      }
      if version != ver.value {
        ClearAllCachedState();
      }
      version := ver.value;
      return Done;
    }
  }
}
