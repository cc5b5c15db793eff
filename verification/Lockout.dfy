/** Dictionary-attack mitigation of the TPM 1.2: the failure counter, the doubling lock-out
    period over a clock of which only 32 bits are seen, and the gate that every authorized
    command passes. All definitions here are on values; class `Auth.TpmAuth` is the code that
    changes the fields in place and is proved against them. */
module Lockout {
  import opened Bytes
  import opened Codes

  const LOCKOUT_THRESHOLD := 5

  /** The lock-out part of the volatile state, and the self-test flag that shuts the TPM down. */
  datatype Da = Da(failCount: Uint32, failTime: Uint32, disableResetLock: bool, shutdown: bool)

  /** A moment at which the clock may be read: its true time in seconds, and whether
      the platform clock call succeeds there. The TPM only ever sees `time % 2^32`. */
  datatype Instant = Instant(time: nat, clockOk: bool)

  datatype DaState = Inactive | Active(timeLeft: Uint32)

  /** What the platform does with a left shift of the int 1 by 31 or more, which C leaves open. */
  type WideShift = nat -> Uint32

  function WaitTime(wide: WideShift, diff: nat): (w: Uint32) {
    Pow2Bound(diff);
    if diff < 31 then Pow2(diff) else wide(diff)
  }

  lemma Pow2Bound(n: nat)
    ensures n < 31 ==> Pow2(n) <= 0x4000_0000
  {
    if 0 < n < 31 {
      Pow2Table();
      Pow2Mono(n, 30);
    }
  }

  lemma Pow2Table()
    ensures Pow2(30) == 0x4000_0000
  {
    assert Pow2(10) == 1024;
    assert Pow2(20) == 1024 * 1024 by { assert Pow2(15) == 32 * 1024; }
    assert Pow2(25) == 32 * 1024 * 1024;
  }

  /** Seconds since the recorded failure, as computed from two 32-bit readings. */
  function TimeDiff(current: Uint32, failTime: Uint32): (d: Uint32) {
    if current >= failTime then current - failTime
    else (0xffff_ffff - failTime) + current + 1
  }

  function GetState(da: Da, wide: WideShift, at: Instant): (r: (Rc, DaState)) {
    if da.failCount <= LOCKOUT_THRESHOLD then (Success, Inactive)
    else if !at.clockOk then (Fail, Inactive)
    else
      var waitTime := WaitTime(wide, da.failCount - LOCKOUT_THRESHOLD - 1);
      var timeDiff := TimeDiff(at.time % TWO_32, da.failTime);
      if waitTime > timeDiff then (Success, Active(waitTime - timeDiff)) else (Success, Inactive)
  }

  /** The gate of every authorized command. */
  function CheckState(da: Da, wide: WideShift, at: Instant): (r: (Rc, Da)) {
    match GetState(da, wide, at)
    case (Success, Inactive) => (Success, da.(disableResetLock := false))
    case (Success, Active(_)) => (DefendLockRunning, da)
    case (rc, _) => (rc, da)
  }

  /** One failed authorization. */
  function AuthdataFail(da: Da, at: Instant): (r: (Rc, Da)) {
    var da1 := da.(failCount := (da.failCount + 1) % TWO_32);
    if da1.failCount <= LOCKOUT_THRESHOLD then (Success, da1)
    else if at.clockOk then (Success, da1.(failTime := at.time % TWO_32))
    else (Fail, da1)
  }

  /** An ordinal behind the lock-out gate, TPM_ResetLockValue, or a command without authorization. */
  datatype Kind = Gated | Reset | Plain

  /** How far a command gets after the gate, and what the authorization check says.
      `before` is any error between the gate and the session look-up, `session` any error of the
      look-up, `valid` whether the HMAC matches, `after` the result of everything after it. */
  datatype Attempt = Attempt(kind: Kind, gate: Instant, before: Rc, session: Rc, valid: bool,
                             failAt: Instant, after: Rc)

  /** The final response: after the fatal code the TPM is in the failure state. */
  function Finish(da: Da, rc: Rc): (r: (Rc, Da)) {
    (rc, if rc == Fail then da.(shutdown := true) else da)
  }

  function AuthCheck(da: Da, a: Attempt): (r: (Rc, Da)) {
    if a.session != Success then (a.session, da)
    else if a.valid then (Success, da)
    else
      var (rc, da1) := AuthdataFail(da, a.failAt);
      (if rc == Success then AuthFail else rc, da1)
  }

  /** An ordinal whose state check includes the lock-out gate. */
  function GatedCommand(da: Da, wide: WideShift, a: Attempt): (r: (Rc, Da)) {
    var (rc, da1) := CheckState(da, wide, a.gate);
    if rc != Success then Finish(da1, rc)
    else if da1.shutdown then (FailedSelfTest, da1)
    else if a.before != Success then Finish(da1, a.before)
    else
      var (rc2, da2) := AuthCheck(da1, a);
      if rc2 != Success then Finish(da2, rc2) else Finish(da2, a.after)
  }

  /** TPM_ResetLockValue: the gate only updates `disableResetLock`, its code is ignored. */
  function ResetLockValue(da: Da, wide: WideShift, a: Attempt): (r: (Rc, Da)) {
    var da1 := CheckState(da, wide, a.gate).1;
    if da1.shutdown then (FailedSelfTest, da1)
    else if a.before != Success then Finish(da1, a.before)
    else if da1.disableResetLock then (AuthFail, da1)
    else
      var (rc2, da2) := AuthCheck(da1, a);
      if rc2 != Success then Finish(da2.(disableResetLock := true), rc2)
      else Finish(da2.(failCount := 0), a.after)
  }

  function Step(da: Da, wide: WideShift, a: Attempt): (r: (Rc, Da)) {
    match a.kind
    case Gated => GatedCommand(da, wide, a)
    case Reset => ResetLockValue(da, wide, a)
    case Plain => if da.shutdown then (FailedSelfTest, da) else Finish(da, a.after)
  }

  /** The command passed its state check and its parameters were read. */
  predicate Parsed(da: Da, wide: WideShift, a: Attempt) {
    var (rc, da1) := CheckState(da, wide, a.gate);
    !a.kind.Plain? && (a.kind.Reset? || rc == Success) && !da1.shutdown && a.before == Success
  }

  /** The step gets as far as comparing the HMAC. */
  predicate Compares(da: Da, wide: WideShift, a: Attempt) {
    && Parsed(da, wide, a)
    && (a.kind.Reset? ==> !CheckState(da, wide, a.gate).1.disableResetLock)
    && a.session == Success
  }

  predicate Fails(da: Da, wide: WideShift, a: Attempt) {
    Compares(da, wide, a) && !a.valid
  }

  predicate Accepts(da: Da, wide: WideShift, a: Attempt) {
    Compares(da, wide, a) && a.valid
  }

  // ---------------------------------------------------------------- the 32-bit clock

  /** Across any number of wraps, the two-branch difference is the true elapsed time mod 2^32. */
  lemma TimeDiffIsElapsed(t0: nat, t1: nat)
    requires t0 <= t1
    ensures TimeDiff(t1 % TWO_32, t0 % TWO_32) == (t1 - t0) % TWO_32 <= t1 - t0
  {
    var q0, r0 := t0 / TWO_32, t0 % TWO_32;
    var q1, r1 := t1 / TWO_32, t1 % TWO_32;
    assert t1 - t0 == TWO_32 * (q1 - q0) + (r1 - r0);
    if r1 >= r0 {
      ModOf(t1 - t0, q1 - q0, r1 - r0);
    } else {
      ModOf(t1 - t0, q1 - q0 - 1, r1 - r0 + TWO_32);
    }
  }

  lemma ModOf(x: int, q: int, r: int)
    requires 0 <= r < TWO_32 && x == TWO_32 * q + r
    ensures x % TWO_32 == r
  {}

  lemma ModStep(x: Uint32, n: nat)
    ensures ((x + 1) % TWO_32 + n) % TWO_32 == (x + 1 + n) % TWO_32
  {}

  /** The lock-out seen from outside: with the last failure at true time `t0`, the state at any
      later `t` is ACTIVE exactly while the elapsed time mod 2^32 is below the wait time. In
      particular the lock-out comes back 2^32 seconds after the failure. */
  lemma LockoutWindow(da: Da, wide: WideShift, t0: nat, t: nat)
    requires da.failCount > LOCKOUT_THRESHOLD && da.failTime == t0 % TWO_32 && t0 <= t
    ensures var w := WaitTime(wide, da.failCount - LOCKOUT_THRESHOLD - 1);
            var elapsed := (t - t0) % TWO_32;
            GetState(da, wide, Instant(t, true))
            == (Success, if elapsed < w then Active(w - elapsed) else Inactive)
  {
    TimeDiffIsElapsed(t0, t);
  }

  /** The same in plain seconds, as long as the shift is defined: with 6 + j failures the lock-out lasts exactly
      2^j seconds from the last one. */
  lemma LockoutLasts(da: Da, wide: WideShift, t0: nat, t: nat)
    requires 5 < da.failCount <= 36 && da.failTime == t0 % TWO_32 && t0 <= t < t0 + TWO_32
    ensures var w := Pow2(da.failCount - 6);
            GetState(da, wide, Instant(t, true))
            == (Success, if t - t0 < w then Active(w - (t - t0)) else Inactive)
  {
    LockoutWindow(da, wide, t0, t);
  }

  /** A reported `timeLeft` is a promise: with no new failure it counts down second by second,
      whatever the clock wraps over, and the lock-out is over when it reaches zero. */
  lemma TimeLeftCountsDown(da: Da, wide: WideShift, t: nat, left: Uint32, s: nat)
    requires GetState(da, wide, Instant(t, true)) == (Success, Active(left))
    requires s <= left
    ensures GetState(da, wide, Instant(t + s, true))
            == (Success, if s < left then Active(left - s) else Inactive)
  {
    var now, f := t % TWO_32, da.failTime;
    var later := (t + s) % TWO_32;
    var w := WaitTime(wide, da.failCount - LOCKOUT_THRESHOLD - 1);
    var q := t / TWO_32;
    if now + s < TWO_32 {
      ModOf(t + s, q, now + s);
    } else {
      ModOf(t + s, q + 1, now + s - TWO_32);
    }
    assert TimeDiff(later, f) == TimeDiff(now, f) + s;
  }

  // ---------------------------------------------------------------- one command

  /** The lock-out is over, as far as the TPM can tell. */
  predicate Unlocked(da: Da, wide: WideShift, at: Instant) { GetState(da, wide, at) == (Success, Inactive) }

  /** An authorization is looked at exactly when the TPM works, the command was read, its session found, and:
      for an ordinal behind the gate, the lock-out is over; for TPM_ResetLockValue, it is over or the command
      has not failed during it. */
  lemma ComparesIff(da: Da, wide: WideShift, a: Attempt)
    ensures Compares(da, wide, a) <==>
              && !a.kind.Plain? && !da.shutdown && a.before == Success && a.session == Success
              && (Unlocked(da, wide, a.gate) || (a.kind.Reset? && !da.disableResetLock))
  {}

  /** The codes: a good authorization returns what the ordinal does, a bad one AUTHFAIL, or the fatal code where
      the clock cannot be read past the threshold; during the lock-out gated commands are refused and
      change nothing. The fatal code, and nothing else, stops the TPM for good. */
  lemma StepCodes(da: Da, wide: WideShift, a: Attempt)
    ensures var (rc, next) := Step(da, wide, a);
            && (Accepts(da, wide, a) ==> rc == a.after)
            && (Fails(da, wide, a) ==>
                  rc == if (da.failCount + 1) % TWO_32 > 5 && !a.failAt.clockOk then Fail else AuthFail)
            && (a.kind.Gated? && GetState(da, wide, a.gate).1.Active? ==> rc == DefendLockRunning && next == da)
            && (a.kind.Gated? && da.failCount > 5 && !a.gate.clockOk ==> rc == Fail)
            && (next.shutdown <==> da.shutdown || rc == Fail)
  {}

  /** Once stopped, the TPM looks at no authorization and stays stopped. */
  lemma {:induction false} StoppedForGood(da: Da, wide: WideShift, run: seq<Attempt>)
    requires da.shutdown
    ensures Run(da, wide, run).shutdown && FailureTimes(da, wide, run) == []
    decreases run
  {
    if run != [] {
      StepCodes(da, wide, run[0]);
      StoppedForGood(Step(da, wide, run[0]).1, wide, run[1..]);
    }
  }

  /** A good TPM_ResetLockValue clears the count, and with it the lock-out at every moment, and stays enabled;
      a bad one counts and disables itself. */
  lemma ResetEffect(da: Da, wide: WideShift, a: Attempt, at: Instant)
    requires a.kind.Reset? && Compares(da, wide, a)
    ensures var next := Step(da, wide, a).1;
            if a.valid then next.failCount == 0 && Unlocked(next, wide, at) && !next.disableResetLock
            else && next.failCount == (da.failCount + 1) % TWO_32 && next.disableResetLock
                 && (next.failCount > 5 && a.failAt.clockOk ==> next.failTime == a.failAt.time % TWO_32)
  {}

  /** A command that passes the gate ends the disabling of TPM_ResetLockValue; a refused one does not. */
  lemma GateReenables(da: Da, wide: WideShift, a: Attempt)
    requires a.kind.Gated?
    ensures Step(da, wide, a).1.disableResetLock == (da.disableResetLock && !Unlocked(da, wide, a.gate))
  {}

  lemma CountGrowsByOne(da: Da, wide: WideShift, a: Attempt)
    ensures Step(da, wide, a).1.failCount <= da.failCount + if Fails(da, wide, a) then 1 else 0
  {}

  /** Up to five failures, no run of any commands comes to a lock-out. */
  lemma {:induction false} FewFailuresStayOpen(da: Da, wide: WideShift, run: seq<Attempt>, at: Instant)
    requires da.failCount + |FailureTimes(da, wide, run)| <= 5
    ensures Run(da, wide, run).failCount <= da.failCount + |FailureTimes(da, wide, run)|
    ensures Unlocked(Run(da, wide, run), wide, at)
    decreases run
  {
    if run != [] {
      CountGrowsByOne(da, wide, run[0]);
      FewFailuresStayOpen(Step(da, wide, run[0]).1, wide, run[1..], at);
    }
  }

  // ---------------------------------------------------------------- runs

  function Run(da: Da, wide: WideShift, run: seq<Attempt>): (r: Da)
    decreases run
  {
    if run == [] then da else Run(Step(da, wide, run[0]).1, wide, run[1..])
  }

  /** True times of the failed authorizations of a run, in order. */
  function FailureTimes(da: Da, wide: WideShift, run: seq<Attempt>): (r: seq<nat>)
    decreases run
  {
    if run == [] then []
    else (if Fails(da, wide, run[0]) then [run[0].failAt.time] else [])
         + FailureTimes(Step(da, wide, run[0]).1, wide, run[1..])
  }

  /** True time never runs backwards, within a command and from one to the next. */
  ghost predicate InOrder(from: nat, run: seq<Attempt>)
    decreases run
  {
    run == [] || (from <= run[0].gate.time <= run[0].failAt.time && InOrder(run[0].failAt.time, run[1..]))
  }

  ghost predicate NoReset(run: seq<Attempt>) {
    forall i :: 0 <= i < |run| ==> !run[i].kind.Reset?
  }

  /** A gate that lets a command through while the counter is past the threshold has seen the whole
      wait time go by in true seconds. */
  lemma PassedGateWaited(da: Da, wide: WideShift, at: Instant, t0: nat)
    requires da.failCount > LOCKOUT_THRESHOLD && da.failTime == t0 % TWO_32 && t0 <= at.time
    requires CheckState(da, wide, at).0 == Success
    ensures WaitTime(wide, da.failCount - LOCKOUT_THRESHOLD - 1) <= at.time - t0
  {
    TimeDiffIsElapsed(t0, at.time);
  }

  function Min(a: nat, b: nat): nat { if a < b then a else b }

  /** The lock-out that `c` failures impose before the next one, where the shift is defined. */
  function Delay(c: nat): nat {
    if LOCKOUT_THRESHOLD < c < LOCKOUT_THRESHOLD + 32 then Pow2(c - LOCKOUT_THRESHOLD - 1) else 0
  }

  /** Each failure, the `c + 1`-st and on, comes a delay after the one before it, at `last`. */
  ghost predicate Delayed(c: nat, last: nat, times: seq<nat>)
    decreases times
  {
    times == [] || (times[0] >= last + Delay(c) && Delayed(c + 1, times[0], times[1..]))
  }

  /** What one gated command does: when it fails, it counts, it was late enough, and it restarts the
      lock-out; otherwise counter and clock stay. */
  lemma GatedEffect(da: Da, wide: WideShift, a: Attempt, c: nat, last: nat)
    requires !a.kind.Reset? && last <= a.gate.time <= a.failAt.time && da.failCount == c % TWO_32
    requires Delay(c) > 0 && !da.shutdown ==> da.failTime == last % TWO_32
    ensures var next := Step(da, wide, a).1;
            if Fails(da, wide, a) then
              && a.failAt.time >= last + Delay(c)
              && next.failCount == (c + 1) % TWO_32
              && (Delay(c + 1) > 0 && !next.shutdown ==> next.failTime == a.failAt.time % TWO_32)
            else next.failCount == da.failCount && next.failTime == da.failTime && (da.shutdown ==> next.shutdown)
  {
    CountUp(c);
    if Fails(da, wide, a) && Delay(c) > 0 {
      PassedGateWaited(da, wide, a.gate, last);
    }
  }

  lemma CountUp(c: nat)
    ensures (c + 1) % TWO_32 == (c % TWO_32 + 1) % TWO_32
    ensures c < 100 ==> c % TWO_32 == c && (c + 1) % TWO_32 == c + 1
  {}

  /** Every run of gated commands spaces its failures by the doubling delay. */
  lemma {:induction false} RunIsDelayed(da: Da, wide: WideShift, run: seq<Attempt>, from: nat, c: nat, last: nat)
    requires NoReset(run) && InOrder(from, run) && last <= from && da.failCount == c % TWO_32
    requires Delay(c) > 0 && !da.shutdown ==> da.failTime == last % TWO_32
    ensures Delayed(c, last, FailureTimes(da, wide, run))
    decreases run
  {
    if run != [] {
      var a := run[0];
      var next := Step(da, wide, a).1;
      GatedEffect(da, wide, a, c, last);
      var rest := FailureTimes(next, wide, run[1..]);
      if Fails(da, wide, a) {
        RunIsDelayed(next, wide, run[1..], a.failAt.time, c + 1, a.failAt.time);
        assert ([a.failAt.time] + rest)[1..] == rest;
      } else {
        RunIsDelayed(next, wide, run[1..], a.failAt.time, c, last);
        assert [] + rest == rest;
      }
    }
  }

  /** Delays 1, 2, 4, ... add up: `j` failures past the threshold, the last at `last`. */
  lemma {:induction false} DelaysAddUp(times: seq<nat>, j: nat, t6: nat, last: nat, k: nat)
    requires Delayed(LOCKOUT_THRESHOLD + 1 + j, last, times) && k < |times|
    requires last >= t6 + Pow2(Min(j, 31)) - 1
    ensures times[k] >= t6 + Pow2(Min(j + k + 1, 31)) - 1
    decreases k
  {
    assert times[0] >= t6 + Pow2(Min(j + 1, 31)) - 1;
    if k > 0 {
      DelaysAddUp(times[1..], j + 1, t6, times[0], k - 1);
      assert (j + 1) + (k - 1) + 1 == j + k + 1;
    }
  }

  lemma {:induction false} DelayedDrop(c: nat, last: nat, times: seq<nat>, k: nat)
    requires Delayed(c, last, times) && k < |times|
    ensures Delayed(c + k + 1, times[k], times[k + 1..])
    decreases k
  {
    if k > 0 {
      DelayedDrop(c + 1, times[0], times[1..], k - 1);
      assert times[1..][k..] == times[k + 1..];
    }
  }

  lemma DelayedTimes(times: seq<nat>, from: nat, j: nat)
    requires Delayed(0, from, times) && LOCKOUT_THRESHOLD + j < |times|
    ensures times[LOCKOUT_THRESHOLD + j] - times[LOCKOUT_THRESHOLD] >= Pow2(Min(j, 31)) - 1
  {
    if j > 0 {
      var t6 := times[LOCKOUT_THRESHOLD];
      DelayedDrop(0, from, times, LOCKOUT_THRESHOLD);
      DelaysAddUp(times[LOCKOUT_THRESHOLD + 1..], 0, t6, t6, j - 1);
    }
  }

  /** The guessing budget. In every run of gated commands from a cleared counter, the failure that
      makes the count 6 + j comes at least 2^min(j,31) - 1 true seconds after the one that made it 6. */
  lemma DoublingLockout(da: Da, wide: WideShift, run: seq<Attempt>, from: nat, j: nat)
    requires da.failCount == 0 && NoReset(run) && InOrder(from, run)
    requires LOCKOUT_THRESHOLD + j < |FailureTimes(da, wide, run)|
    ensures var times := FailureTimes(da, wide, run);
            times[LOCKOUT_THRESHOLD + j] - times[LOCKOUT_THRESHOLD] >= Pow2(Min(j, 31)) - 1
  {
    RunIsDelayed(da, wide, run, from, 0, from);
    DelayedTimes(FailureTimes(da, wide, run), from, j);
  }

  /** `FailureTimes` lists exactly the steps that raise the count: without resets the final count is
      the initial one plus their number, mod 2^32. */
  lemma {:induction false} CountIsFailures(da: Da, wide: WideShift, run: seq<Attempt>)
    requires NoReset(run)
    ensures Run(da, wide, run).failCount == (da.failCount + |FailureTimes(da, wide, run)|) % TWO_32
    decreases run
  {
    if run == [] {
      ModOf(da.failCount, 0, da.failCount);
    } else {
      var next := Step(da, wide, run[0]).1;
      CountIsFailures(next, wide, run[1..]);
      ModStep(da.failCount, |FailureTimes(next, wide, run[1..])|);
    }
  }

  // ---------------------------------------------------------------- TPM_ResetLockValue

  /** No authorized command of the run finds the lock-out over at its gate. */
  predicate Locked(da: Da, wide: WideShift, run: seq<Attempt>)
    decreases run
  {
    run == [] ||
    ((run[0].kind.Plain? || GetState(da, wide, run[0].gate) != (Success, Inactive))
     && Locked(Step(da, wide, run[0]).1, wide, run[1..]))
  }

  /** How many steps of the run change the failure count. */
  function CountChanges(da: Da, wide: WideShift, run: seq<Attempt>): nat
    decreases run
  {
    if run == [] then 0
    else var next := Step(da, wide, run[0]).1;
      (if next.failCount != da.failCount then 1 else 0) + CountChanges(next, wide, run[1..])
  }

  /** While ResetLockValue is disabled and the lock-out runs, the counter and its clock are frozen. */
  lemma {:induction false} DisabledFreezes(da: Da, wide: WideShift, run: seq<Attempt>)
    requires da.disableResetLock && Locked(da, wide, run)
    ensures CountChanges(da, wide, run) == 0
    ensures var end := Run(da, wide, run);
            end.failCount == da.failCount && end.failTime == da.failTime && end.disableResetLock
    decreases run
  {
    if run != [] {
      DisabledFreezes(Step(da, wide, run[0]).1, wide, run[1..]);
    }
  }

  /** Between two moments when the lock-out is inactive, the failure count changes at most once:
      one failed owner authorization raises it, or one good one clears it and ends the period. */
  lemma {:induction false} OneResetPerLockout(da: Da, wide: WideShift, run: seq<Attempt>)
    requires Locked(da, wide, run)
    ensures CountChanges(da, wide, run) <= 1
    ensures |FailureTimes(da, wide, run)| <= 1
    decreases run
  {
    if run != [] {
      var next := Step(da, wide, run[0]).1;
      if Fails(da, wide, run[0]) {
        DisabledFreezes(next, wide, run[1..]);
        DisabledNoFailure(next, wide, run[1..]);
      } else if next.failCount == da.failCount {
        OneResetPerLockout(next, wide, run[1..]);
      } else {
        assert next.failCount == 0;
        ClearedStays(next, wide, run[1..]);
      }
    }
  }

  /** After a successful reset the lock-out is over, so only unauthorized commands can follow. */
  lemma {:induction false} ClearedStays(da: Da, wide: WideShift, run: seq<Attempt>)
    requires da.failCount == 0 && Locked(da, wide, run)
    ensures CountChanges(da, wide, run) == 0 && FailureTimes(da, wide, run) == []
    decreases run
  {
    if run != [] {
      ClearedStays(Step(da, wide, run[0]).1, wide, run[1..]);
    }
  }

  lemma {:induction false} DisabledNoFailure(da: Da, wide: WideShift, run: seq<Attempt>)
    requires da.disableResetLock && Locked(da, wide, run)
    ensures FailureTimes(da, wide, run) == []
    decreases run
  {
    if run != [] {
      DisabledNoFailure(Step(da, wide, run[0]).1, wide, run[1..]);
    }
  }
}
