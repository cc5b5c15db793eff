/** The authorization sessions of the TPM 1.2 and the generic one-session ordinal: rolling nonces,
    the HMAC check, and session termination, over the lock-out of module `Lockout`. */
module Auth {
  import opened Bytes
  import opened Codes
  import opened Lockout
  import opened Tables

  const MIN_AUTH_SESSIONS := 16

  type Hmac = (Bytes, Bytes) -> Digest20

  /** `TPM_DEFEND_LOCK_RUNNING` comes from the lock-out gate only, never from later processing. */
  type LaterRc = r: Rc | r != DefendLockRunning witness Success

  datatype Session = Session(valid: bool, handle: Uint32, nonceEven: Digest20)

  function ZeroNonce(): (z: Digest20)
    ensures forall i :: 0 <= i < 20 ==> z[i] == 0
  {
    seq(20, _ => 0)
  }

  /** A slot as TPM_AuthSessionData_Init leaves it. */
  function NoSession(): Session {
    Session(false, 0, ZeroNonce())
  }

  /** The two kinds of authorized ordinal. */
  type AuthKind = k: Kind | !k.Plain? witness Gated

  /** A one-session ordinal as the session code sees it. `before` to `hmacRc` are the results of the
      steps up to the HMAC comparison. `exec` is the result of the ordinal itself, which may delete
      the sessions in the slots `kills` and may clear the continue flag (`forceEnd`). `outDigest`,
      `nonceRc` and `tail` are the results of the response, around the new nonce `nonce`. */
  datatype Command = Command(
    kind: AuthKind, gate: Instant, before: LaterRc,
    handle: Uint32, lookup: LaterRc, key: Bytes, inParamDigest: Digest20, nonceOdd: Digest20,
    continueSession: bool, authData: Digest20, hmacRc: LaterRc, failAt: Instant,
    exec: LaterRc, kills: set<nat>, forceEnd: bool,
    outDigest: LaterRc, nonceRc: LaterRc, nonce: Digest20, tail: LaterRc)

  /** TPM_OIAP; `handle` is the value the handle generator settles on. */
  datatype Opening = Opening(before: LaterRc, handle: Uint32, nonce: Digest20, nonceRc: LaterRc, tail: LaterRc)

  datatype Event =
    | Execute(command: Command)
    | Open(opening: Opening)
    | Terminate(handle: Uint32)

  datatype State = State(da: Da, table: seq<Session>)

  // ---------------------------------------------------------------- the session table

  /** Index at or after `from` of the first valid session with this handle, or the table size. */
  function FindFrom(table: seq<Session>, h: Uint32, from: nat): (i: nat)
    requires from <= |table|
    ensures from <= i <= |table|
    ensures i < |table| ==> table[i].valid && table[i].handle == h
    ensures forall k :: from <= k < i ==> !(table[k].valid && table[k].handle == h)
    decreases |table| - from
  {
    if from == |table| || (table[from].valid && table[from].handle == h) then from
    else FindFrom(table, h, from + 1)
  }

  function Find(table: seq<Session>, h: Uint32): (i: nat)
    ensures i <= |table|
  {
    FindFrom(table, h, 0)
  }

  predicate IsFree(s: Session) { !s.valid }

  function TerminateHandle(table: seq<Session>, h: Uint32): (t: seq<Session>) {
    var i := Find(table, h);
    if i < |table| then table[i := NoSession()] else table
  }

  function Kill(table: seq<Session>, kills: set<nat>): (t: seq<Session>)
    ensures |t| == |table|
    ensures forall i :: 0 <= i < |t| ==> t[i] == if i in kills then NoSession() else table[i]
  {
    seq(|table|, i requires 0 <= i < |table| => if i in kills then NoSession() else table[i])
  }

  // ---------------------------------------------------------------- one ordinal

  /** What the HMAC covers: command digest, the stored even nonce, the caller's odd nonce, the flag. */
  function Message(inParamDigest: Digest20, nonceEven: Digest20, nonceOdd: Digest20, c: bool): Bytes {
    inParamDigest + nonceEven + nonceOdd + [if c then 1 else 0]
  }

  predicate HmacMatches(hmac: Hmac, c: Command, nonceEven: Digest20) {
    hmac(c.key, Message(c.inParamDigest, nonceEven, c.nonceOdd, c.continueSession)) == c.authData
  }

  /** The lock-out's view of a command run against the given table. */
  function AttemptOf(hmac: Hmac, table: seq<Session>, c: Command): (a: Attempt) {
    var i := Find(table, c.handle);
    if i == |table| then
      Attempt(c.kind, c.gate, c.before, INVALID_AUTHHANDLE, false, c.failAt, Success)
    else
      Attempt(c.kind, c.gate, c.before, FirstError(c.lookup, c.hmacRc),
              HmacMatches(hmac, c, table[i].nonceEven), c.failAt, AfterCheck(c))
  }

  function AfterCheck(c: Command): Rc {
    FirstError(c.exec, FirstError(c.outDigest, FirstError(c.nonceRc, c.tail)))
  }

  /** The session table after an accepted authorization on slot `i`. */
  function AfterAccept(table: seq<Session>, i: nat, c: Command): (t: seq<Session>)
    requires i < |table|
  {
    var killed := Kill(table, c.kills);
    var continueSession := c.continueSession && !c.forceEnd && i !in c.kills;
    var rolled :=
      if FirstError(c.exec, FirstError(c.outDigest, c.nonceRc)) == Success
      then killed[i := killed[i].(nonceEven := c.nonce)] else killed;
    if AfterCheck(c) != Success || !continueSession then TerminateHandle(rolled, c.handle) else rolled
  }

  function ExecuteStep(hmac: Hmac, wide: WideShift, s: State, c: Command): (r: (Rc, State)) {
    var a := AttemptOf(hmac, s.table, c);
    var (rc, da) := Step(s.da, wide, a);
    var table :=
      if Accepts(s.da, wide, a) then AfterAccept(s.table, Find(s.table, c.handle), c)
      else if Parsed(s.da, wide, a) then TerminateHandle(s.table, c.handle)
      else s.table;
    (rc, State(da, table))
  }

  /** The part of an ordinal after its parameters were read: the authorization, and what follows it. */
  function PerformStep(hmac: Hmac, s: State, c: Command): (r: (Rc, State)) {
    var a := AttemptOf(hmac, s.table, c);
    var ended := TerminateHandle(s.table, c.handle);
    if c.kind.Reset? && s.da.disableResetLock then (AuthFail, State(s.da, ended))
    else
      var (rc, da) := AuthCheck(s.da, a);
      if rc != Success then (rc, State(if c.kind.Reset? then da.(disableResetLock := true) else da, ended))
      else if Find(s.table, c.handle) == |s.table| then (a.after, s)
      else (a.after, State(if c.kind.Reset? then da.(failCount := 0) else da,
                           AfterAccept(s.table, Find(s.table, c.handle), c)))
  }

  /** The code an ordinal ends with when its parameters are not read. */
  function EarlyCode(da: Da, wide: WideShift, c: Command): (rc: Rc) {
    var (gate, da1) := CheckState(da, wide, c.gate);
    if c.kind.Gated? && gate != Success then gate else if da1.shutdown then FailedSelfTest else c.before
  }

  lemma ParsedByParts(hmac: Hmac, wide: WideShift, s: State, c: Command)
    requires Parsed(s.da, wide, AttemptOf(hmac, s.table, c))
    ensures var (rc, s1) := PerformStep(hmac, s.(da := CheckState(s.da, wide, c.gate).1), c);
            ExecuteStep(hmac, wide, s, c) == (rc, s1.(da := Finish(s1.da, rc).1))
  {}

  lemma EarlyByParts(hmac: Hmac, wide: WideShift, s: State, c: Command)
    requires !Parsed(s.da, wide, AttemptOf(hmac, s.table, c))
    ensures var rc := EarlyCode(s.da, wide, c);
            ExecuteStep(hmac, wide, s, c) == (rc, s.(da := Finish(CheckState(s.da, wide, c.gate).1, rc).1))
  {}

  function OpenStep(s: State, o: Opening): (r: (Rc, State)) {
    if s.da.shutdown then (FailedSelfTest, s)
    else
      var i := First(s.table, IsFree, 0);
      var rc :=
        if o.before != Success then o.before
        else if i == |s.table| then RESOURCES
        else if o.handle == 0 || Find(s.table, o.handle) < |s.table| then Fail
        else FirstError(o.nonceRc, o.tail);
      var (rc', da) := Finish(s.da, rc);
      // a slot taken and then given up is reset; it was free, but may hold an old nonce
      var table :=
        if rc == Success then s.table[i := Session(true, o.handle, o.nonce)]
        else if o.before == Success && i < |s.table| && o.handle != 0 && Find(s.table, o.handle) == |s.table|
        then s.table[i := NoSession()]
        else s.table;
      (rc', State(da, table))
  }

  function EventStep(hmac: Hmac, wide: WideShift, s: State, e: Event): (r: (Rc, State)) {
    match e
    case Execute(c) => ExecuteStep(hmac, wide, s, c)
    case Open(o) => OpenStep(s, o)
    case Terminate(h) => (Success, s.(table := TerminateHandle(s.table, h)))
  }

  // ---------------------------------------------------------------- what a command leaves behind

  /** The bytes under the HMAC: 20 of the command digest, 20 of the stored nonce, 20 of the caller's, one flag. */
  lemma MessageBytes(inParamDigest: Digest20, nonceEven: Digest20, nonceOdd: Digest20, c: bool)
    ensures var m := Message(inParamDigest, nonceEven, nonceOdd, c);
            && |m| == 61 && m[..20] == inParamDigest && m[20..40] == nonceEven && m[40..60] == nonceOdd
            && m[60] == if c then 1 else 0
  {
    var m := Message(inParamDigest, nonceEven, nonceOdd, c);
    assert m[..20] == inParamDigest && m[20..40] == nonceEven && m[40..60] == nonceOdd;
  }

  /** An authorization is accepted exactly when the command gets as far as the session, the session is there,
      and the HMAC is that of the message under the session's nonce. */
  lemma AcceptsIff(hmac: Hmac, wide: WideShift, s: State, c: Command)
    ensures var i := Find(s.table, c.handle);
            Accepts(s.da, wide, AttemptOf(hmac, s.table, c)) <==>
              && !s.da.shutdown && c.before == Success && c.lookup == Success && c.hmacRc == Success
              && (Unlocked(s.da, wide, c.gate) || (c.kind.Reset? && !s.da.disableResetLock))
              && i < |s.table|
              && c.authData
                 == hmac(c.key, Message(c.inParamDigest, s.table[i].nonceEven, c.nonceOdd, c.continueSession))
  {
    ComparesIff(s.da, wide, AttemptOf(hmac, s.table, c));
  }

  /** Everything after the check went well. */
  predicate Completes(c: Command) {
    c.exec == Success && c.outDigest == Success && c.nonceRc == Success && c.tail == Success
  }

  lemma SucceedsIff(hmac: Hmac, wide: WideShift, s: State, c: Command)
    ensures ExecuteStep(hmac, wide, s, c).0 == Success
            <==> Accepts(s.da, wide, AttemptOf(hmac, s.table, c)) && Completes(c)
  {
    StepCodes(s.da, wide, AttemptOf(hmac, s.table, c));
  }

  /** Which error a command past the gate is refused with: that of its parameters, of its handle, of the session,
      of the HMAC computation, and last the failed authorization, which the fatal code of a clock that
      cannot be read past the threshold takes precedence over. */
  lemma RefusalCode(hmac: Hmac, wide: WideShift, s: State, c: Command)
    requires c.kind.Gated? && Unlocked(s.da, wide, c.gate) && !s.da.shutdown
    requires !Accepts(s.da, wide, AttemptOf(hmac, s.table, c))
    ensures ExecuteStep(hmac, wide, s, c).0 ==
              if c.before != Success then c.before
              else if Find(s.table, c.handle) == |s.table| then Error(0x22)
              else if c.lookup != Success then c.lookup
              else if c.hmacRc != Success then c.hmacRc
              else if (s.da.failCount + 1) % TWO_32 > 5 && !c.failAt.clockOk then Fail
              else AuthFail
  {
    StepCodes(s.da, wide, AttemptOf(hmac, s.table, c));
  }

  /** An accepted command keeps its session exactly when it completes, asks for it, and neither ends it itself
      nor deletes what it belongs to. Then the session is in its place with the new nonce, and else it is
      gone. Other sessions are those not deleted. */
  lemma SessionAfterAccept(table: seq<Session>, used: set<Digest20>, spent: set<Digest20>, i: nat, c: Command)
    requires TableInv(table, used, spent) && i == Find(table, c.handle) < |table|
    ensures var t := AfterAccept(table, i, c);
            && |t| == |table|
            && (Find(t, c.handle) < |t| <==> Completes(c) && c.continueSession && !c.forceEnd && i !in c.kills)
            && (Find(t, c.handle) < |t| ==> Find(t, c.handle) == i && t[i] == table[i].(nonceEven := c.nonce))
            && (forall k :: 0 <= k < |t| && k != i && k !in c.kills ==> t[k] == table[k])
            && (forall k :: 0 <= k < |t| && k in c.kills ==> !t[k].valid)
  {
    var killed := Kill(table, c.kills);
    var rolls := FirstError(c.exec, FirstError(c.outDigest, c.nonceRc)) == Success;
    var rolled := if rolls then killed[i := killed[i].(nonceEven := c.nonce)] else killed;
    FindsOwnSlot(table, rolled, used, spent, i);
    FindsOwnSlot(table, AfterAccept(table, i, c), used, spent, i);
  }

  /** A command that is not accepted ends its session if it was read so far, and touches no other. */
  lemma SessionAfterRefusal(hmac: Hmac, wide: WideShift, s: State, c: Command,
                            used: set<Digest20>, spent: set<Digest20>)
    requires TableInv(s.table, used, spent) && !Accepts(s.da, wide, AttemptOf(hmac, s.table, c))
    ensures var t := ExecuteStep(hmac, wide, s, c).1.table; var i := Find(s.table, c.handle);
            && |t| == |s.table|
            && (forall k :: 0 <= k < |t| && k != i ==> t[k] == s.table[k])
            && (i < |t| ==> if Parsed(s.da, wide, AttemptOf(hmac, s.table, c)) then !t[i].valid else t[i] == s.table[i])
  {}

  /** The client that continues: after an accepted command that keeps its session, the next one is accepted if it
      uses the nonce of the response and the lock-out is over at its gate. */
  lemma NextIsAccepted(hmac: Hmac, wide: WideShift, s: State, c: Command, d: Command,
                       used: set<Digest20>, spent: set<Digest20>)
    requires TableInv(s.table, used, spent) && ExecuteStep(hmac, wide, s, c).0 == Success
    requires c.continueSession && !c.forceEnd && Find(s.table, c.handle) !in c.kills
    requires d.handle == c.handle && d.before == Success && d.lookup == Success && d.hmacRc == Success
    requires Unlocked(ExecuteStep(hmac, wide, s, c).1.da, wide, d.gate)
    requires hmac(d.key, Message(d.inParamDigest, c.nonce, d.nonceOdd, d.continueSession)) == d.authData
    ensures var s1 := ExecuteStep(hmac, wide, s, c).1; Accepts(s1.da, wide, AttemptOf(hmac, s1.table, d))
  {
    var s1 := ExecuteStep(hmac, wide, s, c).1;
    SucceedsIff(hmac, wide, s, c);
    AcceptsIff(hmac, wide, s, c);
    StepCodes(s.da, wide, AttemptOf(hmac, s.table, c));
    SessionAfterAccept(s.table, used, spent, Find(s.table, c.handle), c);
    AcceptsIff(hmac, wide, s1, d);
  }

  /** TPM_OIAP succeeds exactly when there is a free slot and a handle that is not in use, and then the new
      session can be found under it with its nonce. Open sessions are never touched. */
  lemma OpensIff(s: State, o: Opening, k: nat)
    ensures var (rc, next) := OpenStep(s, o);
            && (rc == Success <==>
                  && !s.da.shutdown && o.before == Success && o.nonceRc == Success && o.tail == Success
                  && (exists j :: 0 <= j < |s.table| && !s.table[j].valid)
                  && o.handle != 0 && Find(s.table, o.handle) == |s.table|)
            && |next.table| == |s.table|
            && (k < |s.table| && s.table[k].valid ==> next.table[k] == s.table[k])
            && (rc == Success ==>
                  var i := Find(next.table, o.handle);
                  i < |s.table| && !s.table[i].valid && next.table[i] == Session(true, o.handle, o.nonce))
            && (rc != Success && k < |s.table| ==> next.table[k].valid == s.table[k].valid)
  {
    var i := First(s.table, IsFree, 0);
    if OpenStep(s, o).0 == Success {
      var t := OpenStep(s, o).1.table;
      assert t[i].valid && t[i].handle == o.handle;
      assert forall j :: 0 <= j < |t| && j != i ==> t[j] == s.table[j];
    }
  }

  // ---------------------------------------------------------------- runs and replay

  /** An authorization the TPM accepted: the HMAC it computed and what the caller sent. */
  datatype Acceptance = Acceptance(key: Bytes, inParamDigest: Digest20, nonceEven: Digest20,
                                   nonceOdd: Digest20, continueSession: bool, authData: Digest20)

  function Accepted(hmac: Hmac, wide: WideShift, s: State, e: Event): (r: seq<Acceptance>) {
    if e.Execute? && Accepts(s.da, wide, AttemptOf(hmac, s.table, e.command))
                  && Find(s.table, e.command.handle) < |s.table| then
      var c := e.command;
      [Acceptance(c.key, c.inParamDigest, s.table[Find(s.table, c.handle)].nonceEven, c.nonceOdd,
                  c.continueSession, c.authData)]
    else []
  }

  /** All authorizations accepted in a run, in order. */
  function Acceptances(hmac: Hmac, wide: WideShift, s: State, run: seq<Event>): (r: seq<Acceptance>)
    decreases run
  {
    if run == [] then []
    else Accepted(hmac, wide, s, run[0]) + Acceptances(hmac, wide, EventStep(hmac, wide, s, run[0]).1, run[1..])
  }

  function Drawn(e: Event): (r: set<Digest20>) {
    match e
    case Execute(c) => {c.nonce}
    case Open(o) => {o.nonce}
    case Terminate(_) => {}
  }

  /** Every nonce the run draws from the random number generator is new. */
  ghost predicate FreshNonces(used: set<Digest20>, run: seq<Event>)
    decreases run
  {
    run == [] || (Drawn(run[0]) !! used && FreshNonces(used + Drawn(run[0]), run[1..]))
  }

  /** Open sessions hold distinct nonces that were drawn and were not yet accepted against, and
      distinct handles. */
  ghost predicate TableInv(table: seq<Session>, used: set<Digest20>, spent: set<Digest20>) {
    && spent <= used
    && (forall i :: 0 <= i < |table| && table[i].valid ==> table[i].nonceEven in used && table[i].nonceEven !in spent)
    && (forall i, j :: 0 <= i < j < |table| && table[i].valid && table[j].valid ==>
          table[i].nonceEven != table[j].nonceEven && table[i].handle != table[j].handle)
  }

  /** Handles being distinct, a look-up in a table with some of the sessions gone finds slot `i` or none. */
  lemma FindsOwnSlot(table: seq<Session>, left: seq<Session>, used: set<Digest20>, spent: set<Digest20>, i: nat)
    requires TableInv(table, used, spent) && |left| == |table| && i < |table| && table[i].valid
    requires forall k :: 0 <= k < |table| && left[k].valid ==> table[k].valid && left[k].handle == table[k].handle
    ensures Find(left, table[i].handle) == if left[i].valid then i else |left|
  {
    var j := FindFrom(left, table[i].handle, 0);
    assert j < |left| ==> table[j].valid && table[j].handle == table[i].handle;
  }

  /** A table whose sessions are those of the old one, but for slot `i`, which is gone or has a new nonce. */
  lemma SpendingKeeps(table: seq<Session>, left: seq<Session>, used: set<Digest20>, spent: set<Digest20>, i: nat,
                      nonce: Digest20)
    requires TableInv(table, used, spent) && |left| == |table| && i < |table| && table[i].valid && nonce !in used
    requires forall k :: 0 <= k < |table| && left[k].valid ==>
               table[k].valid && left[k].handle == table[k].handle
               && left[k].nonceEven == if k == i then nonce else table[k].nonceEven
    ensures TableInv(left, used + {nonce}, spent + {table[i].nonceEven})
  {}

  /** The heart of the protocol: an accepted check always leaves a table in which its nonce is gone,
      replaced by a new one or terminated with its session. */
  lemma AcceptSpendsNonce(table: seq<Session>, used: set<Digest20>, spent: set<Digest20>, i: nat, c: Command)
    requires TableInv(table, used, spent) && i == Find(table, c.handle) < |table|
    requires c.nonce !in used
    ensures TableInv(AfterAccept(table, i, c), used + {c.nonce}, spent + {table[i].nonceEven})
  {
    var killed := Kill(table, c.kills);
    var rolls := FirstError(c.exec, FirstError(c.outDigest, c.nonceRc)) == Success;
    var rolled := if rolls then killed[i := killed[i].(nonceEven := c.nonce)] else killed;
    FindsOwnSlot(table, rolled, used, spent, i);
    SpendingKeeps(table, AfterAccept(table, i, c), used, spent, i, c.nonce);
  }

  lemma TerminateKeeps(table: seq<Session>, used: set<Digest20>, spent: set<Digest20>, h: Uint32)
    requires TableInv(table, used, spent)
    ensures TableInv(TerminateHandle(table, h), used, spent)
  {}

  lemma OpenKeeps(s: State, o: Opening, used: set<Digest20>, spent: set<Digest20>)
    requires TableInv(s.table, used, spent) && o.nonce !in used
    ensures TableInv(OpenStep(s, o).1.table, used + {o.nonce}, spent)
  {}

  lemma ExecuteKeeps(hmac: Hmac, wide: WideShift, s: State, c: Command, used: set<Digest20>, spent: set<Digest20>)
    requires TableInv(s.table, used, spent) && c.nonce !in used
    ensures var acc := Accepted(hmac, wide, s, Execute(c));
            && |acc| <= 1
            && (acc != [] ==> acc[0].nonceEven !in spent)
            && TableInv(ExecuteStep(hmac, wide, s, c).1.table, used + {c.nonce},
                        if acc == [] then spent else spent + {acc[0].nonceEven})
  {
    var i := Find(s.table, c.handle);
    if Accepts(s.da, wide, AttemptOf(hmac, s.table, c)) {
      assert i < |s.table|;
      AcceptSpendsNonce(s.table, used, spent, i, c);
    } else {
      TerminateKeeps(s.table, used, spent, c.handle);
    }
  }

  /** One event keeps the table invariant, and what it accepts was an unspent nonce. */
  lemma EventKeeps(hmac: Hmac, wide: WideShift, s: State, e: Event, used: set<Digest20>, spent: set<Digest20>)
    requires TableInv(s.table, used, spent) && Drawn(e) !! used
    ensures var acc := Accepted(hmac, wide, s, e);
            && |acc| <= 1
            && (acc != [] ==> acc[0].nonceEven !in spent)
            && TableInv(EventStep(hmac, wide, s, e).1.table, used + Drawn(e),
                        if acc == [] then spent else spent + {acc[0].nonceEven})
  {
    match e
    case Terminate(h) =>
      TerminateKeeps(s.table, used, spent, h);
      assert used + {} == used;
    case Open(o) =>
      OpenKeeps(s, o, used, spent);
    case Execute(c) =>
      ExecuteKeeps(hmac, wide, s, c, used, spent);
  }

  /** Each acceptance uses a nonce that is not in `spent` and was not used by an earlier one. */
  ghost predicate SpentOnce(acc: seq<Acceptance>, spent: set<Digest20>)
    decreases acc
  {
    acc == [] || (acc[0].nonceEven !in spent && SpentOnce(acc[1..], spent + {acc[0].nonceEven}))
  }

  lemma {:induction false} SpentOnceDistinct(acc: seq<Acceptance>, spent: set<Digest20>, i: nat, j: nat)
    requires SpentOnce(acc, spent) && i <= j < |acc|
    ensures acc[j].nonceEven !in spent && (i < j ==> acc[i].nonceEven != acc[j].nonceEven)
    decreases acc
  {
    if j > 0 {
      SpentOnceDistinct(acc[1..], spent + {acc[0].nonceEven}, if i > 0 then i - 1 else j - 1, j - 1);
    }
  }

  /** Over a whole run no nonce is ever accepted against twice. */
  lemma {:induction false} NoncesAreSpentOnce(hmac: Hmac, wide: WideShift, s: State, run: seq<Event>,
                                              used: set<Digest20>, spent: set<Digest20>)
    requires TableInv(s.table, used, spent) && FreshNonces(used, run)
    ensures SpentOnce(Acceptances(hmac, wide, s, run), spent)
    decreases run
  {
    if run != [] {
      var first := Accepted(hmac, wide, s, run[0]);
      var next := EventStep(hmac, wide, s, run[0]).1;
      EventKeeps(hmac, wide, s, run[0], used, spent);
      NoncesAreSpentOnce(hmac, wide, next, run[1..], used + Drawn(run[0]),
                         if first == [] then spent else spent + {first[0].nonceEven});
      SpentOnceCons(first, Acceptances(hmac, wide, next, run[1..]), spent);
    }
  }

  lemma SpentOnceCons(first: seq<Acceptance>, rest: seq<Acceptance>, spent: set<Digest20>)
    requires |first| <= 1 && (first != [] ==> first[0].nonceEven !in spent)
    requires SpentOnce(rest, if first == [] then spent else spent + {first[0].nonceEven})
    ensures SpentOnce(first + rest, spent)
  {
    if first == [] {
      assert first + rest == rest;
    } else {
      assert (first + rest)[1..] == rest;
    }
  }

  /** What was accepted really carried the HMAC of its message. */
  lemma {:induction false} AcceptancesAreAuthentic(hmac: Hmac, wide: WideShift, s: State, run: seq<Event>, i: nat)
    requires i < |Acceptances(hmac, wide, s, run)|
    ensures var a := Acceptances(hmac, wide, s, run)[i];
            a.authData == hmac(a.key, Message(a.inParamDigest, a.nonceEven, a.nonceOdd, a.continueSession))
    decreases run
  {
    var first := Accepted(hmac, wide, s, run[0]);
    if i >= |first| {
      AcceptancesAreAuthentic(hmac, wide, EventStep(hmac, wide, s, run[0]).1, run[1..], i - |first|);
    }
  }

  lemma MessageInjective(d: Digest20, e1: Digest20, e2: Digest20, o: Digest20, c: bool)
    requires e1 != e2
    ensures Message(d, e1, o, c) != Message(d, e2, o, c)
  {
    assert Message(d, e1, o, c)[20..40] == e1;
    assert Message(d, e2, o, c)[20..40] == e2;
  }

  /** No replay. Starting with no open session, in every run of commands on any number of sessions
      whose nonces are fresh: if the TPM accepts the same (inParamDigest, nonceOdd, continue flag,
      authData) twice, then the two messages it checked differ and yet have the same HMAC. */
  lemma NoReplay(hmac: Hmac, wide: WideShift, s: State, run: seq<Event>, i: nat, j: nat)
    requires forall k :: 0 <= k < |s.table| ==> !s.table[k].valid
    requires FreshNonces({}, run)
    requires i < j < |Acceptances(hmac, wide, s, run)|
    requires var acc := Acceptances(hmac, wide, s, run);
             && acc[i].inParamDigest == acc[j].inParamDigest && acc[i].nonceOdd == acc[j].nonceOdd
             && acc[i].continueSession == acc[j].continueSession && acc[i].authData == acc[j].authData
    ensures var a := Acceptances(hmac, wide, s, run)[i]; var b := Acceptances(hmac, wide, s, run)[j];
            var ma := Message(a.inParamDigest, a.nonceEven, a.nonceOdd, a.continueSession);
            var mb := Message(b.inParamDigest, b.nonceEven, b.nonceOdd, b.continueSession);
            ma != mb && hmac(a.key, ma) == hmac(b.key, mb)
  {
    NoncesAreSpentOnce(hmac, wide, s, run, {}, {});
    SpentOnceDistinct(Acceptances(hmac, wide, s, run), {}, i, j);
    AcceptancesAreAuthentic(hmac, wide, s, run, i);
    AcceptancesAreAuthentic(hmac, wide, s, run, j);
    var a := Acceptances(hmac, wide, s, run)[i];
    var b := Acceptances(hmac, wide, s, run)[j];
    MessageInjective(a.inParamDigest, a.nonceEven, b.nonceEven, a.nonceOdd, a.continueSession);
  }

  // ---------------------------------------------------------------- lock-out of a whole run

  /** What the lock-out sees of an event. */
  function AttemptOfEvent(hmac: Hmac, s: State, e: Event, at: Instant): (a: Attempt) {
    match e
    case Execute(c) => AttemptOf(hmac, s.table, c)
    case Open(o) => Attempt(Plain, at, Success, Success, true, at, OpenStep(s, o).0)
    case Terminate(_) => Attempt(Plain, at, Success, Success, true, at, Success)
  }

  function MachineRun(hmac: Hmac, wide: WideShift, s: State, run: seq<Event>): (r: State)
    decreases run
  {
    if run == [] then s else MachineRun(hmac, wide, EventStep(hmac, wide, s, run[0]).1, run[1..])
  }

  /** The attempts of a run; `times[i]` stands for the moment of an event that reads no clock. */
  function Attempts(hmac: Hmac, wide: WideShift, s: State, run: seq<Event>, times: seq<Instant>): (r: seq<Attempt>)
    requires |times| == |run|
    decreases run
  {
    if run == [] then []
    else [AttemptOfEvent(hmac, s, run[0], times[0])]
         + Attempts(hmac, wide, EventStep(hmac, wide, s, run[0]).1, run[1..], times[1..])
  }

  /** The lock-out fields of the machine go through exactly the steps of module `Lockout`, so every
      theorem on its runs holds of runs of sessions and commands. */
  lemma {:induction false} LockoutOfRun(hmac: Hmac, wide: WideShift, s: State, run: seq<Event>, times: seq<Instant>)
    requires |times| == |run|
    ensures MachineRun(hmac, wide, s, run).da == Lockout.Run(s.da, wide, Attempts(hmac, wide, s, run, times))
    decreases run
  {
    if run != [] {
      var next := EventStep(hmac, wide, s, run[0]).1;
      LockoutOfRun(hmac, wide, next, run[1..], times[1..]);
      var rest := Attempts(hmac, wide, next, run[1..], times[1..]);
      assert ([AttemptOfEvent(hmac, s, run[0], times[0])] + rest)[1..] == rest;
      assert next.da == Step(s.da, wide, AttemptOfEvent(hmac, s, run[0], times[0])).1;
    }
  }

  /** After an accepted TPM_ResetLockValue, in every run of sessions and commands, no gated command is refused
      for the lock-out before a sixth authorization has failed. */
  lemma ResetUnlocks(hmac: Hmac, wide: WideShift, s: State, c: Command, run: seq<Event>, times: seq<Instant>,
                     d: Command)
    requires c.kind.Reset? && Accepts(s.da, wide, AttemptOf(hmac, s.table, c)) && |times| == |run| && d.kind.Gated?
    requires var s1 := ExecuteStep(hmac, wide, s, c).1;
             |FailureTimes(s1.da, wide, Attempts(hmac, wide, s1, run, times))| <= 5
    ensures var s2 := MachineRun(hmac, wide, ExecuteStep(hmac, wide, s, c).1, run);
            ExecuteStep(hmac, wide, s2, d).0 != DefendLockRunning
  {
    var s1 := ExecuteStep(hmac, wide, s, c).1;
    var s2 := MachineRun(hmac, wide, s1, run);
    ResetEffect(s.da, wide, AttemptOf(hmac, s.table, c), d.gate);
    LockoutOfRun(hmac, wide, s1, run, times);
    FewFailuresStayOpen(s1.da, wide, Attempts(hmac, wide, s1, run, times), d.gate);
    OpenGateLetsThrough(hmac, wide, s2, d);
  }

  lemma OpenGateLetsThrough(hmac: Hmac, wide: WideShift, s: State, d: Command)
    requires d.kind.Gated? && Unlocked(s.da, wide, d.gate)
    ensures ExecuteStep(hmac, wide, s, d).0 != DefendLockRunning
  {}

  // ---------------------------------------------------------------- the code

  class TpmAuth {
    const hmac: Hmac
    const wide: WideShift
    var failCount: Uint32
    var failTime: Uint32
    var disableResetLock: bool
    var shutdown: bool
    const sessions: array<Session>

    ghost function Abs(): State
      reads this, sessions
    {
      State(Da(failCount, failTime, disableResetLock, shutdown), sessions[..])
    }

    constructor (hmac: Hmac, wide: WideShift)
      ensures Abs() == State(Da(0, 0, false, false), seq(MIN_AUTH_SESSIONS, _ => NoSession()))
      ensures this.hmac == hmac && this.wide == wide && fresh(sessions)
    {
      this.hmac, this.wide := hmac, wide;
      failCount, failTime, disableResetLock, shutdown := 0, 0, false, false;
      sessions := new Session[MIN_AUTH_SESSIONS](_ => NoSession());
    }

    method GetEntry(handle: Uint32) returns (i: nat)
      ensures i == Find(sessions[..], handle)
    {
      i := 0;
      while i < sessions.Length && !(sessions[i].valid && sessions[i].handle == handle)
        invariant i <= sessions.Length
        invariant FindFrom(sessions[..], handle, i) == Find(sessions[..], handle)
      {
        i := i + 1;
      }
    }

    method TerminateSession(handle: Uint32)
      modifies sessions
      ensures Abs() == old(Abs()).(table := TerminateHandle(old(sessions[..]), handle))
    {
      var i := GetEntry(handle);
      if i < sessions.Length {
        sessions[i] := NoSession();
      }
    }

    method DaState(at: Instant) returns (rc: Rc, state: DaState)
      ensures (rc, state) == GetState(Abs().da, wide, at)
    {
      rc, state := Success, Inactive;
      if failCount > LOCKOUT_THRESHOLD {
        if !at.clockOk {
          rc := Fail;
        } else {
          var currentTime := at.time % TWO_32;
          var thresholdDiff := failCount - LOCKOUT_THRESHOLD - 1;
          var waitTime := WaitTime(wide, thresholdDiff);
          var timeDiff;
          if currentTime >= failTime {
            timeDiff := currentTime - failTime;
          } else {
            timeDiff := (0xffff_ffff - failTime) + currentTime + 1;
          }
          if waitTime > timeDiff {
            state := Active(waitTime - timeDiff);
          }
        }
      }
    }

    method CheckGate(at: Instant) returns (rc: Rc)
      modifies this`disableResetLock
      ensures (rc, Abs().da) == CheckState(old(Abs().da), wide, at)
    {
      var state;
      rc, state := DaState(at);
      if rc == Success {
        if state == Inactive {
          disableResetLock := false;
        } else {
          rc := DefendLockRunning;
        }
      }
    }

    method RecordFailure(at: Instant) returns (rc: Rc)
      modifies this`failCount, this`failTime
      ensures (rc, Abs().da) == AuthdataFail(old(Abs().da), at)
    {
      rc := Success;
      failCount := (failCount + 1) % TWO_32;
      if failCount > LOCKOUT_THRESHOLD {
        if at.clockOk {
          failTime := at.time % TWO_32;
        } else {
          rc := Fail;
        }
      }
    }

    /** TPM_AuthSessions_GetData followed by TPM_Authdata_Check. */
    method Authorize(c: Command) returns (rc: Rc, i: nat)
      modifies this`failCount, this`failTime
      ensures i == Find(sessions[..], c.handle)
      ensures (rc, Abs().da) == AuthCheck(old(Abs().da), AttemptOf(hmac, sessions[..], c))
    {
      i := GetEntry(c.handle);
      if i == sessions.Length {
        rc := INVALID_AUTHHANDLE;
        return;
      }
      rc := FirstError(c.lookup, c.hmacRc);
      if rc == Success {
        var expected := hmac(c.key, Message(c.inParamDigest, sessions[i].nonceEven, c.nonceOdd, c.continueSession));
        if expected != c.authData {
          rc := RecordFailure(c.failAt);
          if rc == Success {
            rc := AuthFail;
          }
        }
      }
    }

    method KillSlots(kills: set<nat>)
      modifies sessions
      ensures sessions[..] == Kill(old(sessions[..]), kills)
    {
      var k := 0;
      while k < sessions.Length
        invariant k <= sessions.Length
        invariant forall j :: 0 <= j < k ==> sessions[j] == if j in kills then NoSession() else old(sessions[j])
        invariant forall j :: k <= j < sessions.Length ==> sessions[j] == old(sessions[j])
      {
        if k in kills {
          sessions[k] := NoSession();
        }
        k := k + 1;
      }
    }

    /** The ordinal's own work and its response, once the authorization was accepted on slot `i`. */
    method Respond(c: Command, i: nat) returns (rc: Rc)
      requires i < sessions.Length
      modifies sessions
      ensures rc == AfterCheck(c)
      ensures sessions[..] == AfterAccept(old(sessions[..]), i, c)
    {
      KillSlots(c.kills);
      var continueSession := c.continueSession && !c.forceEnd && i !in c.kills;
      rc := FirstError(c.exec, c.outDigest);
      if rc == Success {
        rc := c.nonceRc;
        if rc == Success {
          sessions[i] := sessions[i].(nonceEven := c.nonce);
          rc := c.tail;
        }
      }
      if rc != Success || !continueSession {
        TerminateSession(c.handle);
      }
    }

    method FreeSlot() returns (i: nat)
      ensures i == First(sessions[..], IsFree, 0)
    {
      i := 0;
      while i < sessions.Length && sessions[i].valid
        invariant i <= sessions.Length
        invariant First(sessions[..], IsFree, i) == First(sessions[..], IsFree, 0)
      {
        i := i + 1;
      }
    }

    /** TPM_OIAP: take the first free slot, under a handle no open session has. */
    method Oiap(o: Opening) returns (rc: Rc)
      modifies this`shutdown, sessions
      ensures (rc, Abs()) == OpenStep(old(Abs()), o)
    {
      if shutdown {
        return FailedSelfTest;
      }
      rc := o.before;
      if rc == Success {
        var i := FreeSlot();
        if i == sessions.Length {
          rc := RESOURCES;
        } else {
          var other := GetEntry(o.handle);
          if o.handle == 0 || other < sessions.Length {
            rc := Fail;
          } else {
            rc := FirstError(o.nonceRc, o.tail);
            sessions[i] := if rc == Success then Session(true, o.handle, o.nonce) else NoSession();
          }
        }
      }
      if rc == Fail {
        shutdown := true;
      }
    }

    /** The ordinal once its parameters are read. */
    method Perform(c: Command) returns (rc: Rc)
      modifies this, sessions
      ensures (rc, Abs()) == PerformStep(hmac, old(Abs()), c)
    {
      if c.kind.Reset? && disableResetLock {
        TerminateSession(c.handle);
        return AuthFail;
      }
      var i;
      rc, i := Authorize(c);
      if rc == Success {
        if c.kind.Reset? {
          failCount := 0;
        }
        rc := Respond(c, i);
      } else {
        if c.kind.Reset? {
          disableResetLock := true;
        }
        TerminateSession(c.handle);
      }
    }

    /** One-session ordinal, with TPM_ResetLockValue as the variant that skips the lock-out gate. */
    method Run(c: Command) returns (rc: Rc)
      modifies this, sessions
      ensures (rc, Abs()) == ExecuteStep(hmac, wide, old(Abs()), c)
    {
      ghost var s := Abs();
      rc := CheckGate(c.gate);
      if c.kind.Reset? {
        rc := Success;
      }
      if rc == Success && shutdown {
        rc := FailedSelfTest;
      }
      if rc == Success {
        rc := c.before;
      }
      if rc == Success {
        ParsedByParts(hmac, wide, s, c);
        rc := Perform(c);
      } else {
        EarlyByParts(hmac, wide, s, c);
      }
      if rc == Fail {
        shutdown := true;
      }
    }
  }
}
