/** Monotonic counters: a table in permanent data, its NV image, and the active counter of this boot. */
module Counters {
  import opened Bytes
  import opened Codes
  import opened Tables

  const MIN_COUNTERS := 8
  const COUNT_ID_NULL: Uint32 := 0xffff_ffff
  const COUNT_ID_ILLEGAL: Uint32 := 0xffff_fffe
  const MAX_COUNT: Uint32 := 0xffff_ffff

  /** A slot. Releasing it clears `valid` and the secret, and keeps `count`. */
  datatype Counter = Counter(valid: bool, text: Bytes, count: Uint32, secret: Bytes)

  type Table = t: seq<Counter> | |t| == MIN_COUNTERS witness seq(MIN_COUNTERS, _ => Counter(false, [], 0, []))

  /** `table` is the in-memory structure, `nv` the copy a restart reads back. */
  datatype State = State(table: Table, nv: Table, active: Uint32, shutdown: bool)

  /** Whether writing, and re-reading for a roll-back, the NV file succeeds. */
  datatype Io = Io(storeOk: bool, reloadOk: bool)

  /** `auth` is the result of everything before the counter is touched (state check, session, HMAC),
      `response` that of everything after the NV store. */
  datatype Event =
    | Create(auth: Rc, text: Bytes, secret: Bytes, setRc: Rc, io: Io, response: Rc)
    | Increment(id: Uint32, auth: Rc, io: Io, response: Rc)
    | Read(id: Uint32, response: Rc)
    | Release(byOwner: bool, id: Uint32, auth: Rc, io: Io, response: Rc)
    | OwnerClear(auth: Rc, laterRc: Rc, io: Io, response: Rc)
    | Restart

  datatype Report = Report(created: bool, slot: nat, count: Uint32)
  datatype Outcome = Outcome(rc: Rc, state: State, report: Option<Report>)

  // ---------------------------------------------------------------- the table

  function Max(a: Uint32, b: Uint32): Uint32 { if a < b then b else a }

  /** Maximum count of the first `n` slots, created or released. */
  function MaxCount(t: seq<Counter>, n: nat): (m: Uint32)
    requires n <= |t|
    ensures forall k :: 0 <= k < n ==> t[k].count <= m
    ensures m == 0 || exists k :: 0 <= k < n && t[k].count == m
  {
    if n == 0 then 0 else Max(MaxCount(t, n - 1), t[n - 1].count)
  }

  function NextCount(t: Table): Uint32 {
    (MaxCount(t, MIN_COUNTERS) + 1) % TWO_32
  }

  predicate IsFree(c: Counter) { !c.valid }

  predicate IsValidId(t: Table, id: Uint32) {
    id < MIN_COUNTERS && t[id].valid
  }

  function Released(c: Counter): Counter {
    if c.valid then c.(valid := false, secret := []) else c
  }

  function ReleaseAll(t: Table): (r: Table)
    ensures forall k :: 0 <= k < MIN_COUNTERS ==> r[k] == Released(t[k])
  {
    seq(MIN_COUNTERS, i requires 0 <= i < |t| => Released(t[i]))
  }

  function BlankTable(): (t: Table) {
    seq(MIN_COUNTERS, _ => Counter(false, [], 0, []))
  }

  // ---------------------------------------------------------------- the ordinals

  /** TPM_PermanentAll_NVStore: write through on success, roll back to the NV image on error. */
  function NvStore(s: State, write: bool, rc: Rc, io: Io): (r: (Rc, State)) {
    if !write then (rc, s)
    else if rc == Success then
      if io.storeOk then (Success, s.(nv := s.table)) else (Fail, s)
    else
      if io.reloadOk then (rc, s.(table := s.nv)) else (Fail, s.(table := BlankTable()))
  }

  function Finish(s: State, rc: Rc, report: Option<Report>): Outcome {
    if rc == Success then Outcome(rc, s, report)
    else Outcome(rc, s.(shutdown := s.shutdown || rc == Fail), None)
  }

  function CreateStep(s: State, e: Event): (o: Outcome)
    requires e.Create?
  {
    if e.auth != Success then Finish(s, e.auth, None)
    else
      var i := First(s.table, IsFree, 0);
      if i == MIN_COUNTERS then Finish(s, RESOURCES, None)
      else
        var next := NextCount(s.table);
        var (rc, s1) := NvStore(s.(table := s.table[i := Counter(true, e.text, next, e.secret)]), true, e.setRc, e.io);
        Finish(s1, FirstError(rc, e.response), Some(Report(true, i, next)))
  }

  /** The first check: no counter active yet and `id` created, or `id` is the active one. */
  predicate MayIncrement(s: State, id: Uint32) {
    (if s.active == COUNT_ID_NULL then IsValidId(s.table, id) else s.active == id) && IsValidId(s.table, id)
  }

  function IncrementStep(s: State, e: Event): (o: Outcome)
    requires e.Increment?
  {
    if !MayIncrement(s, e.id) then Finish(s, BAD_COUNTER, None)
    else if e.auth != Success then Finish(s, e.auth, None)
    else
      var count := (s.table[e.id].count + 1) % TWO_32;
      var s0 := s.(active := if s.active == COUNT_ID_NULL then e.id else s.active,
                   table := s.table[e.id := s.table[e.id].(count := count)]);
      var (rc, s1) := NvStore(s0, true, Success, e.io);
      Finish(s1, FirstError(rc, e.response), Some(Report(false, e.id, count)))
  }

  /** TPM_ReleaseCounter, which finds the counter and then checks its secret, and TPM_ReleaseCounterOwner,
      which checks the owner's secret first. */
  function ReleaseStep(s: State, e: Event): (o: Outcome)
    requires e.Release?
  {
    var found := if IsValidId(s.table, e.id) then Success else BAD_COUNTER;
    var rc0 := if e.byOwner then FirstError(e.auth, found) else FirstError(found, e.auth);
    if rc0 != Success then Finish(s, rc0, None)
    else
      var s0 := s.(table := s.table[e.id := Released(s.table[e.id])],
                   active := if s.active == e.id then COUNT_ID_ILLEGAL else s.active);
      var (rc, s1) := NvStore(s0, true, Success, e.io);
      Finish(s1, FirstError(rc, e.response), None)
  }

  /** The counter part of TPM_OwnerClear: the volatile data are re-initialized, all counters released. */
  function OwnerClearStep(s: State, e: Event): (o: Outcome)
    requires e.OwnerClear?
  {
    if e.auth != Success then Finish(s, e.auth, None)
    else
      var s0 := s.(table := ReleaseAll(s.table), active := COUNT_ID_NULL);
      var (rc, s1) := NvStore(s0, true, e.laterRc, e.io);
      Finish(s1, FirstError(rc, e.response), None)
  }

  function Step(s: State, e: Event): (o: Outcome) {
    if e.Restart? then Outcome(Success, State(s.nv, s.nv, COUNT_ID_NULL, false), None)
    else if s.shutdown then Outcome(FailedSelfTest, s, None)
    else match e
      case Create(_, _, _, _, _, _) => CreateStep(s, e)
      case Increment(_, _, _, _) => IncrementStep(s, e)
      case Read(id, response) =>
        if IsValidId(s.table, id) then Finish(s, response, Some(Report(false, id, s.table[id].count)))
        else Finish(s, BAD_COUNTER, None)
      case Release(_, _, _, _, _) => ReleaseStep(s, e)
      case OwnerClear(_, _, _, _) => OwnerClearStep(s, e)
  }

  // ---------------------------------------------------------------- when a count goes down

  /** A new counter starts above everything in the table exactly while the maximum is not 2^32 - 1. */
  lemma CreateIsFreshIff(t: Table)
    ensures (forall k :: 0 <= k < MIN_COUNTERS ==> t[k].count < NextCount(t))
            <==> MaxCount(t, MIN_COUNTERS) < MAX_COUNT
  {
    if MaxCount(t, MIN_COUNTERS) == MAX_COUNT {
      assert NextCount(t) == 0;
      assert t[0].count >= 0;
    }
  }

  /** Outside the failure state, memory and NV agree. */
  ghost predicate Inv(s: State) {
    !s.shutdown ==> s.table == s.nv
  }

  /** No count of the first table is above that of the second. */
  ghost predicate AtLeast(t: Table, t': Table) {
    forall k :: 0 <= k < MIN_COUNTERS ==> t[k].count <= t'[k].count
  }

  /** The increment is carried out. */
  predicate Increments(s: State, e: Event) {
    e.Increment? && !s.shutdown && e.auth == Success && MayIncrement(s, e.id)
  }

  /** The creation is carried out and stored. */
  predicate Creates(s: State, e: Event) {
    && e.Create? && !s.shutdown && e.auth == Success && e.setRc == Success && e.io.storeOk
    && First(s.table, IsFree, 0) < MIN_COUNTERS
  }

  /** The step meets the wrap: it stores an increment of a counter that stands at 2^32 - 1, or, with some
      counter at 2^32 - 1, a new counter in a slot that has counted before. */
  predicate Lowers(s: State, e: Event) {
    || (Increments(s, e) && e.io.storeOk && s.table[e.id].count == MAX_COUNT)
    || (Creates(s, e) && MaxCount(s.table, MIN_COUNTERS) == MAX_COUNT && s.table[First(s.table, IsFree, 0)].count > 0)
  }

  lemma NewCountLowersIff(t: Table, i: nat, c: Counter)
    requires i < MIN_COUNTERS && c.count == NextCount(t)
    ensures !AtLeast(t, t[i := c]) <==> MaxCount(t, MIN_COUNTERS) == MAX_COUNT && t[i].count > 0
  {
    CreateIsFreshIff(t);
    assert t[i := c][i].count == c.count;
  }

  lemma CreateLowersIff(s: State, e: Event)
    requires e.Create? && !s.shutdown && Inv(s)
    ensures !AtLeast(s.nv, CreateStep(s, e).state.nv) <==> Lowers(s, e)
  {
    var i := First(s.table, IsFree, 0);
    if Creates(s, e) {
      NewCountLowersIff(s.table, i, Counter(true, e.text, NextCount(s.table), e.secret));
    }
  }

  lemma IncrementLowersIff(s: State, e: Event)
    requires e.Increment? && !s.shutdown && Inv(s)
    ensures !AtLeast(s.nv, IncrementStep(s, e).state.nv) <==> Lowers(s, e)
  {}

  /** A command, restart or failure lowers a count in NV exactly when it meets the wrap. */
  lemma LowersIff(s: State, e: Event)
    requires Inv(s)
    ensures !AtLeast(s.nv, Step(s, e).state.nv) <==> Lowers(s, e)
  {
    if !s.shutdown && e.Create? {
      CreateLowersIff(s, e);
    } else if !s.shutdown && e.Increment? {
      IncrementLowersIff(s, e);
    }
  }

  /** The wrap is really there: incremented at 2^32 - 1, a counter reports 0 and NV holds 0. */
  lemma WrapReportsZero(s: State, e: Event)
    requires Inv(s) && e.Increment? && Lowers(s, e) && e.response == Success
    ensures Step(s, e).report == Some(Report(false, e.id, 0)) && Step(s, e).state.nv[e.id].count == 0
  {}

  lemma WrapExample()
    ensures var full := BlankTable()[0 := Counter(true, [], MAX_COUNT, [])];
            var s := State(full, full, COUNT_ID_NULL, false);
            Inv(s) && Lowers(s, Increment(0, Success, Io(true, true), Success))
  {
    var full := BlankTable()[0 := Counter(true, [], MAX_COUNT, [])];
    assert full[0].count == MAX_COUNT;
  }

  // ---------------------------------------------------------------- one step

  /** What a single step owes the run: the invariant, and a report that is the NV count of its slot. A new
      counter takes a slot that was free and starts above every old count, exactly while there is room
      above; an increment raises its own counter by one, but for the wrap; either leaves the other
      slots alone. */
  ghost predicate StepOk(s: State, e: Event, o: Outcome) {
    && Inv(o.state)
    && (o.report.Some? ==> ReportOk(s, e, o.state, o.report.value))
  }

  ghost predicate ReportOk(s: State, e: Event, next: State, r: Report) {
    && r.slot < MIN_COUNTERS && next.nv[r.slot].count == r.count
    && (forall k :: 0 <= k < MIN_COUNTERS && k != r.slot ==> next.nv[k] == s.nv[k])
    && r.created == e.Create?
    && (e.Create? ==> NewOk(s.nv, e, next.nv, r))
    && (e.Increment? ==>
          && r.slot == e.id && s.nv[r.slot].valid && r.count == (s.nv[r.slot].count + 1) % TWO_32
          && next.nv[r.slot] == s.nv[r.slot].(count := r.count))
    && (e.Read? ==> r.slot == e.id && next == s)
  }

  /** A new counter has a free slot, the given label and secret, and one more than the largest count. */
  ghost predicate NewOk(t: Table, e: Event, t': Table, r: Report)
    requires e.Create? && r.slot < MIN_COUNTERS
  {
    && !t[r.slot].valid && t'[r.slot] == Counter(true, e.text, r.count, e.secret)
    && (exists m: Uint32 :: IsMax(t, m) && r.count == (m + 1) % TWO_32)
    && (Above(r.count, t) <==> MaxCount(t, MIN_COUNTERS) < MAX_COUNT)
  }

  /** `m` is the largest count of the table. */
  ghost predicate IsMax(t: Table, m: Uint32) {
    (forall k :: 0 <= k < MIN_COUNTERS ==> t[k].count <= m) && exists k :: 0 <= k < MIN_COUNTERS && t[k].count == m
  }

  ghost predicate Above(count: Uint32, t: Table) {
    forall k :: 0 <= k < MIN_COUNTERS ==> t[k].count < count
  }

  lemma CreateKeeps(s: State, e: Event)
    requires e.Create? && !s.shutdown && Inv(s)
    ensures StepOk(s, e, CreateStep(s, e))
  {
    CreateIsFreshIff(s.table);
    MaxIsMax(s.table);
  }

  lemma MaxIsMax(t: Table)
    ensures IsMax(t, MaxCount(t, MIN_COUNTERS))
  {
    if MaxCount(t, MIN_COUNTERS) == 0 {
      assert t[0].count == 0;
    }
  }

  lemma IncrementKeeps(s: State, e: Event)
    requires e.Increment? && !s.shutdown && Inv(s)
    ensures StepOk(s, e, IncrementStep(s, e))
  {}

  /** Releasing one counter or all reports nothing and keeps every count. */
  lemma ReleaseKeeps(s: State, e: Event)
    requires (e.Release? || e.OwnerClear?) && !s.shutdown && Inv(s)
    ensures var o := if e.Release? then ReleaseStep(s, e) else OwnerClearStep(s, e);
            && StepOk(s, e, o) && o.report == None
            && forall k :: 0 <= k < MIN_COUNTERS ==> o.state.nv[k].count == s.nv[k].count
  {}

  lemma StepKeeps(s: State, e: Event)
    requires Inv(s)
    ensures StepOk(s, e, Step(s, e))
  {
    if !s.shutdown {
      match e
      case Create(_, _, _, _, _, _) => CreateKeeps(s, e);
      case Increment(_, _, _, _) => IncrementKeeps(s, e);
      case Read(_, _) =>
      case Release(_, _, _, _, _) => ReleaseKeeps(s, e);
      case OwnerClear(_, _, _, _) => ReleaseKeeps(s, e);
      case Restart =>
    }
  }

  // ---------------------------------------------------------------- success and its effect

  /** When a command succeeds, spelled out; and exactly the successful ones that name a count report one. */
  lemma SucceedsIff(s: State, e: Event)
    ensures Step(s, e).rc == Success <==>
              || e.Restart?
              || (!s.shutdown && e.response == Success &&
                  match e
                  case Create(auth, _, _, setRc, io, _) =>
                    auth == Success && setRc == Success && io.storeOk && !Full(s.table)
                  case Increment(id, auth, io, _) =>
                    && auth == Success && io.storeOk && id < MIN_COUNTERS && s.table[id].valid
                    && (s.active == COUNT_ID_NULL || s.active == id)
                  case Read(id, _) => id < MIN_COUNTERS && s.table[id].valid
                  case Release(_, id, auth, io, _) =>
                    auth == Success && io.storeOk && id < MIN_COUNTERS && s.table[id].valid
                  case OwnerClear(auth, laterRc, io, _) => auth == Success && laterRc == Success && io.storeOk
                  case Restart => true)
    ensures Step(s, e).report.Some? <==> Step(s, e).rc == Success && (e.Create? || e.Increment? || e.Read?)
  {}

  /** All slots are taken. */
  predicate Full(t: Table) {
    forall k :: 0 <= k < MIN_COUNTERS ==> t[k].valid
  }

  /** The release is carried out and stored. */
  predicate Releases(s: State, e: Event) {
    e.Release? && !s.shutdown && e.auth == Success && IsValidId(s.table, e.id) && e.io.storeOk
  }

  /** A released counter is gone with its secret, in memory and in NV; its label and count remain, and every
      other slot is as before. */
  lemma ReleaseEffect(s: State, e: Event)
    requires Inv(s) && Releases(s, e)
    ensures var next := Step(s, e).state; var id := e.id;
            && next.nv == next.table
            && !next.nv[id].valid && next.nv[id].secret == []
            && next.nv[id].text == s.nv[id].text && next.nv[id].count == s.nv[id].count
            && (forall k :: 0 <= k < MIN_COUNTERS && k != id ==> next.nv[k] == s.nv[k])
            && next.active == if s.active == id then COUNT_ID_ILLEGAL else s.active
  {}

  /** After TPM_OwnerClear there are no counters and no secrets of counters, the labels and counts remain, and
      no counter is active. */
  lemma OwnerClearEffect(s: State, e: Event, k: nat)
    requires Inv(s) && e.OwnerClear? && Step(s, e).rc == Success && k < MIN_COUNTERS
    ensures var next := Step(s, e).state;
            && next.nv == next.table && next.active == COUNT_ID_NULL
            && !next.nv[k].valid && (s.nv[k].valid ==> next.nv[k].secret == [])
            && next.nv[k].text == s.nv[k].text && next.nv[k].count == s.nv[k].count
  {}

  /** A restart brings back NV, and any counter that is there can be the active one of the new boot. */
  lemma RestartEffect(s: State, id: Uint32)
    ensures var next := Step(s, Restart).state;
            && next.nv == s.nv && Inv(next) && !next.shutdown
            && (Step(next, Increment(id, Success, Io(true, true), Success)).rc == Success
                <==> id < MIN_COUNTERS && s.nv[id].valid)
  {}

  /** No ninth counter, and no increment of a counter that is not the active one: the command is refused and
      changes nothing. */
  lemma Refusals(s: State, e: Event)
    requires !s.shutdown
    ensures e.Create? && e.auth == Success && Full(s.table) ==> Step(s, e) == Outcome(Error(0x15), s, None)
    ensures e.Increment? && s.active != COUNT_ID_NULL && s.active != e.id ==>
              Step(s, e) == Outcome(Error(0x45), s, None)
  {}

  /** A command whose changes cannot be stored returns the fatal code, leaves NV as it was, and only a restart
      ends the failure state. */
  lemma StoreFailureIsFatal(s: State, e: Event, e': Event)
    requires Inv(s) && !s.shutdown && !e.Restart? && !e'.Restart? && !e.Read?
    requires e.auth == Success && !e.io.storeOk
    requires match e
             case Create(_, _, _, setRc, _, _) => setRc == Success && !Full(s.table)
             case Increment(id, _, _, _) => MayIncrement(s, id)
             case Release(_, id, _, _, _) => IsValidId(s.table, id)
             case OwnerClear(_, laterRc, _, _) => laterRc == Success
    ensures var o := Step(s, e);
            o.rc == Fail && o.state.nv == s.nv && o.report == None && Step(o.state, e').rc == FailedSelfTest
  {}

  // ---------------------------------------------------------------- runs

  function StateAt(s: State, run: seq<Event>, n: nat): (r: State)
    requires n <= |run|
  {
    if n == 0 then s else Step(StateAt(s, run, n - 1), run[n - 1]).state
  }

  function ReportAt(s: State, run: seq<Event>, i: nat): Option<Report>
    requires i < |run|
  {
    Step(StateAt(s, run, i), run[i]).report
  }

  /** Call `i` meets the wrap. */
  predicate LowersAt(s: State, run: seq<Event>, i: nat)
    requires i < |run|
  {
    Lowers(StateAt(s, run, i), run[i])
  }

  ghost predicate RisesAt(s: State, run: seq<Event>, i: nat)
    requires i < |run|
  {
    AtLeast(StateAt(s, run, i).nv, StateAt(s, run, i + 1).nv)
  }

  /** No call from `i` up to but not including `j` meets the wrap. */
  predicate NoneLowers(s: State, run: seq<Event>, i: nat, j: nat)
    requires j <= |run|
  {
    forall k :: i <= k < j ==> !LowersAt(s, run, k)
  }

  lemma {:induction false} InvAt(s: State, run: seq<Event>, n: nat)
    requires Inv(s) && n <= |run|
    ensures Inv(StateAt(s, run, n))
  {
    if n > 0 {
      InvAt(s, run, n - 1);
      StepKeeps(StateAt(s, run, n - 1), run[n - 1]);
    }
  }

  /** Over a stretch of a run in which no call meets the wrap, no count in NV goes down, whatever is created,
      incremented, released, cleared, lost or rolled back on the way. */
  lemma {:induction false} CountsRise(s: State, run: seq<Event>, i: nat, j: nat)
    requires Inv(s) && i <= j <= |run| && NoneLowers(s, run, i, j)
    ensures AtLeast(StateAt(s, run, i).nv, StateAt(s, run, j).nv)
    decreases j
  {
    if i < j {
      CountsRise(s, run, i, j - 1);
      InvAt(s, run, j - 1);
      assert !LowersAt(s, run, j - 1);
      LowersIff(StateAt(s, run, j - 1), run[j - 1]);
    }
  }

  /** In every run whatsoever, the counts in NV never go down if and only if no call meets the wrap. */
  lemma CountsNeverDecrease(s: State, run: seq<Event>)
    requires Inv(s)
    ensures (forall i :: 0 <= i < |run| ==> RisesAt(s, run, i))
            <==> NoneLowers(s, run, 0, |run|)
  {
    forall i | 0 <= i < |run| ensures RisesAt(s, run, i) <==> !LowersAt(s, run, i) {
      InvAt(s, run, i);
      LowersIff(StateAt(s, run, i), run[i]);
    }
  }

  lemma ReportAtOk(s: State, run: seq<Event>, i: nat)
    requires Inv(s) && i < |run| && ReportAt(s, run, i).Some?
    ensures ReportOk(StateAt(s, run, i), run[i], StateAt(s, run, i + 1), ReportAt(s, run, i).value)
    ensures Inv(StateAt(s, run, i)) && !StateAt(s, run, i).shutdown
  {
    InvAt(s, run, i);
    StepKeeps(StateAt(s, run, i), run[i]);
  }

  /** At call `j` some number is above every count. */
  ghost predicate RoomAt(s: State, run: seq<Event>, j: nat)
    requires j <= |run|
  {
    Above(MAX_COUNT, StateAt(s, run, j).table)
  }

  /** A counter created while there is room above the maximum starts above all counts of that moment. */
  lemma NewIsAbove(s: State, run: seq<Event>, j: nat)
    requires Inv(s) && j < |run| && ReportAt(s, run, j).Some? && run[j].Create?
    requires RoomAt(s, run, j)
    ensures Above(ReportAt(s, run, j).value.count, StateAt(s, run, j).nv)
  {
    ReportAtOk(s, run, j);
    assert MaxCount(StateAt(s, run, j).nv, MIN_COUNTERS) < MAX_COUNT;
  }

  lemma ReportIsStored(s: State, run: seq<Event>, i: nat)
    requires Inv(s) && i < |run| && ReportAt(s, run, i).Some?
    ensures var r := ReportAt(s, run, i).value;
            r.slot < MIN_COUNTERS && StateAt(s, run, i + 1).nv[r.slot].count == r.count
  {
    ReportAtOk(s, run, i);
  }

  lemma AboveEarlier(t: Table, t': Table, slot: nat, count: Uint32)
    requires AtLeast(t, t') && Above(count, t') && slot < MIN_COUNTERS
    ensures t[slot].count < count
  {}

  /** Monotonicity over every run, restarts and NV failures included: a counter never reports less than it
      did before, unless a call in between met the wrap. */
  lemma ReportsRise(s: State, run: seq<Event>, i: nat, j: nat)
    requires Inv(s) && i < j < |run| && NoneLowers(s, run, i + 1, j + 1)
    requires ReportAt(s, run, i).Some? && ReportAt(s, run, j).Some?
    requires ReportAt(s, run, i).value.slot == ReportAt(s, run, j).value.slot
    ensures ReportAt(s, run, i).value.count <= ReportAt(s, run, j).value.count
  {
    ReportIsStored(s, run, i);
    ReportIsStored(s, run, j);
    CountsRise(s, run, i + 1, j + 1);
  }

  /** Freshness over every run: a counter created while there is room above the maximum starts strictly above
      every count reported before by any counter, released ones too, unless a call in between met the
      wrap. */
  lemma CountsNeverRepeat(s: State, run: seq<Event>, i: nat, j: nat)
    requires Inv(s) && i < j < |run| && NoneLowers(s, run, i + 1, j)
    requires ReportAt(s, run, i).Some? && ReportAt(s, run, j).Some? && run[j].Create?
    requires RoomAt(s, run, j)
    ensures ReportAt(s, run, i).value.count < ReportAt(s, run, j).value.count
  {
    ReportIsStored(s, run, i);
    NewIsAbove(s, run, j);
    CountsRise(s, run, i + 1, j);
    AboveEarlier(StateAt(s, run, i + 1).nv, StateAt(s, run, j).nv,
                 ReportAt(s, run, i).value.slot, ReportAt(s, run, j).value.count);
  }

  // ---------------------------------------------------------------- released counters stay released

  /** The step stores a new counter in slot `id`. */
  predicate Takes(s: State, e: Event, id: nat) {
    Creates(s, e) && First(s.table, IsFree, 0) == id
  }

  /** A creation that reports a slot takes it, and one that takes a slot reports it unless its response fails. */
  lemma TakesIff(s: State, e: Event, id: nat)
    requires e.Create? && e.response == Success && id < MIN_COUNTERS
    ensures Takes(s, e, id) <==> Step(s, e).report.Some? && Step(s, e).report.value.slot == id
  {}

  lemma FreeStaysFree(s: State, e: Event, id: nat)
    requires Inv(s) && id < MIN_COUNTERS && !s.nv[id].valid && !Takes(s, e, id)
    ensures !Step(s, e).state.nv[id].valid
  {}

  predicate TakesAt(s: State, run: seq<Event>, i: nat, id: nat)
    requires i < |run|
  {
    Takes(StateAt(s, run, i), run[i], id)
  }

  /** None of the first `n` calls takes slot `id`. */
  predicate NoneTakes(s: State, run: seq<Event>, n: nat, id: nat)
    requires n <= |run|
  {
    forall k :: 0 <= k < n ==> !TakesAt(s, run, k, id)
  }

  lemma {:induction false} FreeUntilTaken(s: State, run: seq<Event>, id: nat, n: nat)
    requires Inv(s) && id < MIN_COUNTERS && !s.nv[id].valid && n <= |run|
    requires NoneTakes(s, run, n, id)
    ensures !StateAt(s, run, n).nv[id].valid
  {
    if n > 0 {
      FreeUntilTaken(s, run, id, n - 1);
      InvAt(s, run, n - 1);
      assert !TakesAt(s, run, n - 1, id);
      FreeStaysFree(StateAt(s, run, n - 1), run[n - 1], id);
    }
  }

  /** Reading, incrementing or releasing a counter that is not there fails with BAD_COUNTER; an owner's release
      fails in its authorization first. Nothing changes but for a fatal code of that authorization. */
  lemma NoSuchCounter(s: State, e: Event)
    requires Inv(s) && !s.shutdown && (e.Read? || e.Increment? || e.Release?)
    requires e.id < MIN_COUNTERS ==> !s.nv[e.id].valid
    ensures var o := Step(s, e);
            && o.rc == (if e.Release? && e.byOwner && e.auth != Success then e.auth else BAD_COUNTER)
            && o.report == None && o.state == s.(shutdown := o.rc == Fail)
  {}

  /** Once released, an id is of no use until a new counter is created in its slot: over every run, restarts
      included, reading, incrementing and releasing it fail. */
  lemma ReleasedIsGone(s: State, e: Event, run: seq<Event>, j: nat)
    requires Inv(s) && Releases(s, e) && j < |run|
    requires NoneTakes(Step(s, e).state, run, j, e.id)
    requires (run[j].Read? || run[j].Increment? || run[j].Release?) && run[j].id == e.id
    ensures var at := StateAt(Step(s, e).state, run, j); var rc := Step(at, run[j]).rc;
            rc == if at.shutdown then FailedSelfTest
                  else if run[j].Release? && run[j].byOwner && run[j].auth != Success then run[j].auth
                  else BAD_COUNTER
  {
    var s1 := Step(s, e).state;
    StepKeeps(s, e);
    ReleaseEffect(s, e);
    FreeUntilTaken(s1, run, e.id, j);
    InvAt(s1, run, j);
    if !StateAt(s1, run, j).shutdown {
      NoSuchCounter(StateAt(s1, run, j), run[j]);
    }
  }

  // ---------------------------------------------------------------- the active counter

  /** Ids of the increments carried out in a run. */
  function IncrementedIds(s: State, run: seq<Event>): (r: seq<Uint32>)
    decreases run
  {
    if run == [] then []
    else (if Increments(s, run[0]) then [run[0].id] else []) + IncrementedIds(Step(s, run[0]).state, run[1..])
  }

  /** No event of the run resets the active id. */
  predicate SameBoot(run: seq<Event>) {
    forall i :: 0 <= i < |run| ==> !run[i].Restart? && !run[i].OwnerClear?
  }

  /** Every id of the list is `id`, and is that of a slot. */
  ghost predicate OnlyId(ids: seq<Uint32>, id: Uint32) {
    (ids == [] || id < MIN_COUNTERS) && forall k :: 0 <= k < |ids| ==> ids[k] == id
  }

  /** The active id of a boot stays, but for its release, which makes it illegal for good. */
  lemma ActiveStep(s: State, e: Event)
    requires !e.Restart? && !e.OwnerClear?
    ensures var next := Step(s, e).state;
            && (s.active != COUNT_ID_NULL ==> next.active == s.active || next.active == COUNT_ID_ILLEGAL)
            && (Increments(s, e) ==>
                  next.active == e.id < MIN_COUNTERS && (s.active != COUNT_ID_NULL ==> s.active == e.id))
            && (e.Release? && !s.shutdown && e.auth == Success && IsValidId(s.table, e.id) && s.active == e.id
                ==> next.active == COUNT_ID_ILLEGAL)
  {}

  /** Once some counter is active, every increment is of that counter, and of none after its release. */
  lemma {:induction false} ActiveIsFixed(s: State, run: seq<Event>)
    requires SameBoot(run) && s.active != COUNT_ID_NULL
    ensures OnlyId(IncrementedIds(s, run), s.active)
    decreases run
  {
    if run != [] {
      var next := Step(s, run[0]).state;
      ActiveStep(s, run[0]);
      ActiveIsFixed(next, run[1..]);
      OnlyIdCons(if Increments(s, run[0]) then [run[0].id] else [], IncrementedIds(next, run[1..]),
                 next.active, s.active);
    }
  }

  lemma OnlyIdCons(first: seq<Uint32>, rest: seq<Uint32>, restId: Uint32, id: Uint32)
    requires OnlyId(rest, restId) && OnlyId(first, id) && (restId == id || restId == COUNT_ID_ILLEGAL)
    ensures OnlyId(first + rest, id)
  {
    if rest != [] { assert rest[0] == restId; }
  }

  /** Between two clears of the active id all increments name one counter. */
  lemma {:induction false} OneCounterPerBoot(s: State, run: seq<Event>, i: nat, j: nat)
    requires SameBoot(run) && i < |IncrementedIds(s, run)| && j < |IncrementedIds(s, run)|
    ensures IncrementedIds(s, run)[i] == IncrementedIds(s, run)[j]
    decreases run
  {
    if s.active != COUNT_ID_NULL {
      ActiveIsFixed(s, run);
    } else {
      var next := Step(s, run[0]).state;
      ActiveStep(s, run[0]);
      if Increments(s, run[0]) {
        ActiveIsFixed(next, run[1..]);
        OnlyIdCons([run[0].id], IncrementedIds(next, run[1..]), next.active, next.active);
      } else {
        assert [] + IncrementedIds(next, run[1..]) == IncrementedIds(next, run[1..]);
        OneCounterPerBoot(next, run[1..], i, j);
      }
    }
  }

  /** After the active counter is released, no increment of any id is carried out until the next clear,
      not of a re-created slot, and not of the illegal value itself. */
  lemma ReleasedActiveBlocks(s: State, e: Event, run: seq<Event>)
    requires e.Release? && !s.shutdown && e.auth == Success && IsValidId(s.table, e.id) && s.active == e.id
    requires SameBoot(run)
    ensures IncrementedIds(Step(s, e).state, run) == []
  {
    ActiveStep(s, e);
    var next := Step(s, e).state;
    ActiveIsFixed(next, run);
  }

  // ---------------------------------------------------------------- the code

  class CounterTable {
    const counters: array<Counter>
    var nv: Table
    var active: Uint32
    var shutdown: bool

    ghost predicate Valid() { counters.Length == MIN_COUNTERS }

    ghost function Abs(): State
      requires Valid()
      reads this, counters
    {
      State(counters[..], nv, active, shutdown)
    }

    constructor ()
      ensures Valid() && Abs() == State(BlankTable(), BlankTable(), COUNT_ID_NULL, false)
    {
      counters := new Counter[MIN_COUNTERS](_ => Counter(false, [], 0, []));
      nv, active, shutdown := BlankTable(), COUNT_ID_NULL, false;
    }

    /** TPM_Counters_GetNextCount: over created and released slots alike. */
    method GetNextCount() returns (next: Uint32)
      requires Valid()
      ensures next == NextCount(counters[..])
    {
      var maxCount: Uint32 := 0;
      for id := 0 to MIN_COUNTERS
        invariant maxCount == MaxCount(counters[..], id)
      {
        if counters[id].count > maxCount {
          maxCount := counters[id].count;
        }
      }
      next := (maxCount + 1) % TWO_32;
    }

    method GetNewHandle() returns (i: nat)
      requires Valid()
      ensures i == First(counters[..], IsFree, 0)
    {
      i := 0;
      while i < MIN_COUNTERS && counters[i].valid
        invariant i <= MIN_COUNTERS
        invariant First(counters[..], IsFree, i) == First(counters[..], IsFree, 0)
      {
        i := i + 1;
      }
    }

    /** TPM_Counters_Release. */
    method ReleaseEach()
      requires Valid()
      modifies counters
      ensures counters[..] == ReleaseAll(old(counters[..]))
    {
      for i := 0 to MIN_COUNTERS
        invariant forall k :: 0 <= k < i ==> counters[k] == Released(old(counters[k]))
        invariant forall k :: i <= k < MIN_COUNTERS ==> counters[k] == old(counters[k])
      {
        if counters[i].valid {
          counters[i] := counters[i].(valid := false, secret := []);
        }
      }
    }

    method CopyBack(t: Table)
      requires Valid()
      modifies counters
      ensures counters[..] == t
    {
      for i := 0 to MIN_COUNTERS
        invariant forall k :: 0 <= k < i ==> counters[k] == t[k]
      {
        counters[i] := t[i];
      }
    }

    /** Write through on success; on error read the old image back. */
    method Store(rcIn: Rc, io: Io) returns (rc: Rc)
      requires Valid()
      modifies this`nv, counters
      ensures (rc, Abs()) == NvStore(old(Abs()), true, rcIn, io)
    {
      rc := rcIn;
      if rcIn == Success {
        if io.storeOk {
          nv := counters[..];
        } else {
          rc := Fail;
        }
      } else if io.reloadOk {
        CopyBack(nv);
      } else {
        CopyBack(BlankTable());
        rc := Fail;
      }
    }

    method CreateCounter(e: Event) returns (rc: Rc, report: Option<Report>)
      requires Valid() && e.Create? && !shutdown
      modifies this, counters
      ensures Outcome(rc, Abs(), report) == CreateStep(old(Abs()), e)
    {
      rc, report := e.auth, None;
      var i, next := 0, 0;
      if rc == Success {
        i := GetNewHandle();
        if i == MIN_COUNTERS {
          rc := RESOURCES;
        } else {
          next := GetNextCount();
          counters[i] := Counter(true, e.text, next, e.secret);
          rc := Store(e.setRc, e.io);
          rc := FirstError(rc, e.response);
          report := if rc == Success then Some(Report(true, i, next)) else None;
        }
      }
      if rc == Fail {
        shutdown := true;
      }
    }

    method IncrementCounter(e: Event) returns (rc: Rc, report: Option<Report>)
      requires Valid() && e.Increment? && !shutdown
      modifies this, counters
      ensures Outcome(rc, Abs(), report) == IncrementStep(old(Abs()), e)
    {
      rc, report := Success, None;
      var id := e.id;
      if active == COUNT_ID_NULL {
        if !(id < MIN_COUNTERS && counters[id].valid) {
          rc := BAD_COUNTER;
        }
      } else if active != id {
        rc := BAD_COUNTER;
      }
      if rc == Success && !(id < MIN_COUNTERS && counters[id].valid) {
        rc := BAD_COUNTER;
      }
      if rc == Success {
        rc := e.auth;
        if rc == Success {
          if active == COUNT_ID_NULL {
            active := id;
          }
          counters[id] := counters[id].(count := (counters[id].count + 1) % TWO_32);
          rc := Store(Success, e.io);
          rc := FirstError(rc, e.response);
          report := if rc == Success then Some(Report(false, id, counters[id].count)) else None;
        }
      }
      if rc == Fail {
        shutdown := true;
      }
    }

    method ReleaseCounter(e: Event) returns (rc: Rc)
      requires Valid() && e.Release? && !shutdown
      modifies this, counters
      ensures Outcome(rc, Abs(), None) == ReleaseStep(old(Abs()), e)
    {
      var id := e.id;
      rc := if e.byOwner then e.auth else Success;
      if rc == Success && !(id < MIN_COUNTERS && counters[id].valid) {
        rc := BAD_COUNTER;
      }
      if !e.byOwner {
        rc := FirstError(rc, e.auth);
      }
      if rc == Success {
        counters[id] := counters[id].(valid := false, secret := []);
        if active == id {
          active := COUNT_ID_ILLEGAL;
        }
        rc := Store(Success, e.io);
        rc := FirstError(rc, e.response);
      }
      if rc == Fail {
        shutdown := true;
      }
    }

    method ClearOwner(e: Event) returns (rc: Rc)
      requires Valid() && e.OwnerClear? && !shutdown
      modifies this, counters
      ensures Outcome(rc, Abs(), None) == OwnerClearStep(old(Abs()), e)
    {
      rc := e.auth;
      if rc == Success {
        active := COUNT_ID_NULL;
        ReleaseEach();
        rc := Store(e.laterRc, e.io);
        rc := FirstError(rc, e.response);
      }
      if rc == Fail {
        shutdown := true;
      }
    }
  }
}
