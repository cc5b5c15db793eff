/** The audit digest: a hash chain over fixed-length tagged events (section 8.1 of part 3 of the TPM
    Main specification). The hash is any function; where two logs end in one digest, the theorems
    name the collision among the inputs that were really hashed. */
module AuditLog {
  import opened Bytes

  const TAG_COUNTER_VALUE: Uint16 := 0x000E
  const TAG_AUDIT_EVENT_IN: Uint16 := 0x0012
  const TAG_AUDIT_EVENT_OUT: Uint16 := 0x0013

  type Hash = Bytes -> Digest20
  type Text4 = b: Bytes | |b| == 4 witness [0, 0, 0, 0]

  /** The public part of the audit counter. */
  datatype CounterValue = CounterValue(text: Text4, count: Uint32)

  datatype AuditEvent =
    | EventIn(params: Digest20, counter: CounterValue)
    | EventOut(params: Digest20, counter: CounterValue)

  function ZeroDigest(): (z: Digest20) { seq(20, _ => 0) }

  // ---------------------------------------------------------------- events

  function StorePublic(c: CounterValue): (b: Bytes)
    ensures |b| == 10
  {
    Store16(TAG_COUNTER_VALUE) + c.text + Store32(c.count)
  }

  function Serialize(e: AuditEvent): (b: Bytes)
    ensures |b| == 32
  {
    Store16(if e.EventIn? then TAG_AUDIT_EVENT_IN else TAG_AUDIT_EVENT_OUT) + e.params + StorePublic(e.counter)
  }

  /** Tag, digest and counter sit at fixed offsets, so nothing is ambiguous. */
  lemma SerializeInjective(e1: AuditEvent, e2: AuditEvent)
    requires Serialize(e1) == Serialize(e2)
    ensures e1 == e2
  {
    EventFields(e1);
    EventFields(e2);
  }

  lemma EventFields(e: AuditEvent)
    ensures var b := Serialize(e);
            && Load16(b[..2]) == (if e.EventIn? then TAG_AUDIT_EVENT_IN else TAG_AUDIT_EVENT_OUT)
            && b[2..22] == e.params && b[24..28] == e.counter.text && Load32(b[28..32]) == e.counter.count
  {
    var b := Serialize(e);
    assert b[..2] == Store16(if e.EventIn? then TAG_AUDIT_EVENT_IN else TAG_AUDIT_EVENT_OUT);
    assert b[22..] == StorePublic(e.counter);
    assert b[24..28] == StorePublic(e.counter)[2..6];
    assert b[28..32] == StorePublic(e.counter)[6..10] == Store32(e.counter.count);
  }

  // ---------------------------------------------------------------- the chain

  function Extend(h: Hash, d: Digest20, e: AuditEvent): Digest20 {
    h(d + Serialize(e))
  }

  function Chain(h: Hash, d: Digest20, events: seq<AuditEvent>): Digest20 {
    if events == [] then d
    else Extend(h, Chain(h, d, events[..|events| - 1]), events[|events| - 1])
  }

  /** What an extension hashes, byte by byte: the old digest, the tag of an input or output event, the digest of the
      parameters, and the tagged label and count of the audit counter. */
  lemma ExtendHashes(h: Hash, d: Digest20, e: AuditEvent, x: Bytes)
    requires |x| == 52 && x[..20] == d && FromBin(x[20..22]) == (if e.EventIn? then 0x12 else 0x13)
    requires x[22..42] == e.params && FromBin(x[42..44]) == 0x0E
    requires x[44..48] == e.counter.text && FromBin(x[48..52]) == e.counter.count
    ensures Extend(h, d, e) == h(x)
  {
    var tag, tag2, count := x[20..22], x[42..44], x[48..52];
    LoadIsFromBin(tag);
    LoadIsFromBin(tag2);
    LoadIsFromBin(count);
    Store16OfLoad16(tag);
    Store16OfLoad16(tag2);
    Store32OfLoad32(count);
    assert x == d + (tag + e.params + (tag2 + e.counter.text + count));
  }

  /** The i-th input given to the hash. */
  function HashInput(h: Hash, d: Digest20, events: seq<AuditEvent>, i: nat): Bytes
    requires i < |events|
  {
    Chain(h, d, events[..i]) + Serialize(events[i])
  }

  lemma ChainLast(h: Hash, d: Digest20, events: seq<AuditEvent>)
    requires events != []
    ensures Chain(h, d, events) == h(HashInput(h, d, events, |events| - 1))
  {}

  lemma HashInputPrefix(h: Hash, d: Digest20, events: seq<AuditEvent>, i: nat)
    requires i < |events| - 1
    ensures HashInput(h, d, events[..|events| - 1], i) == HashInput(h, d, events, i)
  {
    assert events[..|events| - 1][..i] == events[..i];
  }

  /** Two different inputs of the two logs with one hash. */
  ghost predicate Collision(h: Hash, d: Digest20, a: seq<AuditEvent>, b: seq<AuditEvent>, i: nat, j: nat) {
    && i < |a| && j < |b|
    && HashInput(h, d, a, i) != HashInput(h, d, b, j)
    && h(HashInput(h, d, a, i)) == h(HashInput(h, d, b, j))
  }

  /** An input of the log that hashes back to the start of the chain. */
  ghost predicate HitsStart(h: Hash, d: Digest20, a: seq<AuditEvent>, i: nat) {
    i < |a| && h(HashInput(h, d, a, i)) == d
  }

  /** The hash failed on what the two logs hashed: a collision, or a return to the start value. */
  ghost predicate Flaw(h: Hash, d: Digest20, a: seq<AuditEvent>, b: seq<AuditEvent>) {
    || (exists i, j :: Collision(h, d, a, b, i, j))
    || (exists i :: HitsStart(h, d, a, i) || HitsStart(h, d, b, i))
  }

  /** The digest fixes the log: if two event sequences end in the same digest and differ, then one of
      the hash inputs of the two runs is a second preimage of another, or hashes to the start value. */
  lemma {:induction false} ChainFixesLog(h: Hash, d: Digest20, a: seq<AuditEvent>, b: seq<AuditEvent>)
    requires Chain(h, d, a) == Chain(h, d, b)
    ensures a == b || Flaw(h, d, a, b)
    decreases |a|
  {
    if a == [] && b == [] {
    } else if a == [] {
      ChainLast(h, d, b);
      assert HitsStart(h, d, b, |b| - 1);
    } else if b == [] {
      ChainLast(h, d, a);
      assert HitsStart(h, d, a, |a| - 1);
    } else {
      ChainLast(h, d, a);
      ChainLast(h, d, b);
      var a', b' := a[..|a| - 1], b[..|b| - 1];
      var x, y := HashInput(h, d, a, |a| - 1), HashInput(h, d, b, |b| - 1);
      if x != y {
        assert Collision(h, d, a, b, |a| - 1, |b| - 1);
      } else {
        SplitInput(Chain(h, d, a'), a[|a| - 1], Chain(h, d, b'), b[|b| - 1]);
        ChainFixesLog(h, d, a', b');
        if a' == b' {
          assert a == a' + [a[|a| - 1]] && b == b' + [b[|b| - 1]];
        } else {
          WitnessesExtend(h, d, a, b);
        }
      }
    }
  }

  lemma SplitInput(d1: Digest20, e1: AuditEvent, d2: Digest20, e2: AuditEvent)
    requires d1 + Serialize(e1) == d2 + Serialize(e2)
    ensures d1 == d2 && e1 == e2
  {
    assert d1 == (d1 + Serialize(e1))[..20] && d2 == (d2 + Serialize(e2))[..20];
    assert Serialize(e1) == (d1 + Serialize(e1))[20..] && Serialize(e2) == (d2 + Serialize(e2))[20..];
    SerializeInjective(e1, e2);
  }

  /** What was found in the logs without their last events is in the whole logs. */
  lemma WitnessesExtend(h: Hash, d: Digest20, a: seq<AuditEvent>, b: seq<AuditEvent>)
    requires a != [] && b != []
    requires Flaw(h, d, a[..|a| - 1], b[..|b| - 1])
    ensures Flaw(h, d, a, b)
  {
    var a', b' := a[..|a| - 1], b[..|b| - 1];
    if i, j :| Collision(h, d, a', b', i, j) {
      HashInputPrefix(h, d, a, i);
      HashInputPrefix(h, d, b, j);
      assert Collision(h, d, a, b, i, j);
    } else {
      var i :| HitsStart(h, d, a', i) || HitsStart(h, d, b', i);
      if HitsStart(h, d, a', i) {
        HashInputPrefix(h, d, a, i);
        assert HitsStart(h, d, a, i);
      } else {
        HashInputPrefix(h, d, b, i);
        assert HitsStart(h, d, b, i);
      }
    }
  }

  // ---------------------------------------------------------------- audited commands

  /** An audited ordinal with the digests of its parameters; TPM_SaveState logs its input only. */
  datatype Audited = Normal(input: Digest20, output: Digest20) | SaveState(input: Digest20)

  datatype Log = Log(digest: Digest20, counter: CounterValue)

  /** The counter the command is logged with: a new audit session starts at the all-zero digest. */
  function CounterFor(log: Log): CounterValue {
    if log.digest == ZeroDigest() then log.counter.(count := (log.counter.count + 1) % TWO_32) else log.counter
  }

  function EventsOf(log: Log, c: Audited): (r: seq<AuditEvent>) {
    match c
    case Normal(i, o) => [EventIn(i, CounterFor(log)), EventOut(o, CounterFor(log))]
    case SaveState(i) => [EventIn(i, CounterFor(log))]
  }

  function AuditStep(h: Hash, log: Log, c: Audited): Log {
    Log(Chain(h, log.digest, EventsOf(log, c)), CounterFor(log))
  }

  function AuditRun(h: Hash, log: Log, run: seq<Audited>): Log
    decreases run
  {
    if run == [] then log else AuditRun(h, AuditStep(h, log, run[0]), run[1..])
  }

  function RunEvents(h: Hash, log: Log, run: seq<Audited>): (r: seq<AuditEvent>)
    decreases run
  {
    if run == [] then [] else EventsOf(log, run[0]) + RunEvents(h, AuditStep(h, log, run[0]), run[1..])
  }

  /** No command of the run leaves the digest at zero. */
  predicate NeverZero(h: Hash, log: Log, run: seq<Audited>)
    decreases run
  {
    run == [] || (AuditStep(h, log, run[0]).digest != ZeroDigest() && NeverZero(h, AuditStep(h, log, run[0]), run[1..]))
  }

  /** Within an audit session the counter stands still. */
  lemma {:induction false} CounterStands(h: Hash, log: Log, run: seq<Audited>, i: nat)
    requires log.digest != ZeroDigest() && NeverZero(h, log, run)
    ensures AuditRun(h, log, run).counter == log.counter
    ensures i < |RunEvents(h, log, run)| ==> RunEvents(h, log, run)[i].counter == log.counter
    decreases run
  {
    if run != [] {
      var k := |EventsOf(log, run[0])|;
      CounterStands(h, AuditStep(h, log, run[0]), run[1..], if i < k then 0 else i - k);
    }
  }

  /** An audit session has one counter value: from the all-zero digest, the first command raises the counter by
      one, and all events of the session carry that value. */
  lemma SessionHasOneCounter(h: Hash, c: CounterValue, run: seq<Audited>, i: nat)
    requires run != [] && NeverZero(h, Log(ZeroDigest(), c), run) && i < |RunEvents(h, Log(ZeroDigest(), c), run)|
    ensures var next := CounterValue(c.text, (c.count + 1) % TWO_32);
            && AuditRun(h, Log(ZeroDigest(), c), run).counter == next
            && RunEvents(h, Log(ZeroDigest(), c), run)[i].counter == next
  {
    var log := Log(ZeroDigest(), c);
    var k := |EventsOf(log, run[0])|;
    CounterStands(h, AuditStep(h, log, run[0]), run[1..], if i < k then 0 else i - k);
  }

  lemma {:induction false} ChainAppend(h: Hash, d: Digest20, a: seq<AuditEvent>, b: seq<AuditEvent>)
    ensures Chain(h, d, a + b) == Chain(h, Chain(h, d, a), b)
    decreases |b|
  {
    if b == [] {
      assert a + b == a;
    } else {
      var b' := b[..|b| - 1];
      assert (a + b)[..|a + b| - 1] == a + b';
      ChainAppend(h, d, a, b');
    }
  }

  lemma ChainOfCommand(h: Hash, log: Log, c: Audited)
    ensures var d := Extend(h, log.digest, EventIn(c.input, CounterFor(log)));
            Chain(h, log.digest, EventsOf(log, c))
            == if c.Normal? then Extend(h, d, EventOut(c.output, CounterFor(log))) else d
  {
    var e := EventIn(c.input, CounterFor(log));
    assert Chain(h, log.digest, [e]) == Extend(h, log.digest, e) by {
      assert [e][..0] == [];
    }
    assert c.Normal? ==> EventsOf(log, c)[..1] == [e];
  }

  lemma {:induction false} RunIsChain(h: Hash, log: Log, run: seq<Audited>)
    ensures AuditRun(h, log, run).digest == Chain(h, log.digest, RunEvents(h, log, run))
    decreases run
  {
    if run != [] {
      var next := AuditStep(h, log, run[0]);
      RunIsChain(h, next, run[1..]);
      ChainAppend(h, log.digest, EventsOf(log, run[0]), RunEvents(h, next, run[1..]));
    }
  }

  /** The event log can be read back: it starts a command at every input event. */
  lemma {:induction false} EventsFixRun(h: Hash, l1: Log, a: seq<Audited>, l2: Log, b: seq<Audited>)
    requires l1.digest == l2.digest && RunEvents(h, l1, a) == RunEvents(h, l2, b)
    ensures a == b && (a != [] ==> CounterFor(l1) == CounterFor(l2))
    decreases a
  {
    if a == [] || b == [] {
      FirstEvent(h, l1, a);
      FirstEvent(h, l2, b);
    } else {
      FirstEvent(h, l1, a);
      FirstEvent(h, l2, b);
      var m1, m2 := AuditStep(h, l1, a[0]), AuditStep(h, l2, b[0]);
      FirstEvent(h, m1, a[1..]);
      FirstEvent(h, m2, b[1..]);
      var r1, r2 := RunEvents(h, m1, a[1..]), RunEvents(h, m2, b[1..]);
      Resync(EventsOf(l1, a[0]), r1, EventsOf(l2, b[0]), r2);
      EventsFixRun(h, m1, a[1..], m2, b[1..]);
      assert a == [a[0]] + a[1..] && b == [b[0]] + b[1..];
    }
  }

  lemma FirstEvent(h: Hash, log: Log, run: seq<Audited>)
    ensures run == [] <==> RunEvents(h, log, run) == []
    ensures run != [] ==> RunEvents(h, log, run)[0] == EventIn(run[0].input, CounterFor(log))
  {}

  /** One command's events, then events that start with an input event: the cut is at one place only. */
  lemma Resync(e1: seq<AuditEvent>, r1: seq<AuditEvent>, e2: seq<AuditEvent>, r2: seq<AuditEvent>)
    requires e1 + r1 == e2 + r2
    requires 1 <= |e1| <= 2 && e1[0].EventIn? && (|e1| == 2 ==> e1[1].EventOut?)
    requires 1 <= |e2| <= 2 && e2[0].EventIn? && (|e2| == 2 ==> e2[1].EventOut?)
    requires (r1 != [] ==> r1[0].EventIn?) && (r2 != [] ==> r2[0].EventIn?)
    ensures e1 == e2 && r1 == r2
  {
    var all := e1 + r1;
    assert |e1| == 2 ==> all[1] == e1[1];
    assert |e2| == 2 ==> all[1] == e2[1];
    assert |e1| == 1 && r1 != [] ==> all[1] == r1[0];
    assert |e2| == 1 && r2 != [] ==> all[1] == r2[0];
    assert |e1| == |e2|;
    assert e1 == all[..|e1|] && e2 == all[..|e1|] && r1 == all[|e1|..] && r2 == all[|e1|..];
  }

  /** An audit digest stands for one audit session: two runs of audited commands from the all-zero
      digest that end in the same digest audited the same commands under the same counter value, or
      the hash has a collision, or a return to zero, among what they hashed. */
  lemma DigestFixesSession(h: Hash, c1: CounterValue, a: seq<Audited>, c2: CounterValue, b: seq<Audited>)
    requires AuditRun(h, Log(ZeroDigest(), c1), a).digest == AuditRun(h, Log(ZeroDigest(), c2), b).digest
    ensures || (a == b && (a != [] ==> c1 == c2))
            || Flaw(h, ZeroDigest(), RunEvents(h, Log(ZeroDigest(), c1), a), RunEvents(h, Log(ZeroDigest(), c2), b))
  {
    var l1, l2 := Log(ZeroDigest(), c1), Log(ZeroDigest(), c2);
    RunIsChain(h, l1, a);
    RunIsChain(h, l2, b);
    ChainFixesLog(h, ZeroDigest(), RunEvents(h, l1, a), RunEvents(h, l2, b));
    if RunEvents(h, l1, a) == RunEvents(h, l2, b) {
      EventsFixRun(h, l1, a, l2, b);
      SameCounter(c1, c2);
    }
  }

  lemma SameCounter(c1: CounterValue, c2: CounterValue)
    ensures CounterFor(Log(ZeroDigest(), c1)) == CounterFor(Log(ZeroDigest(), c2)) ==> c1 == c2
  {
    assert (c1.count + 1) % TWO_32 == (c2.count + 1) % TWO_32 ==> c1.count == c2.count;
  }

  // ---------------------------------------------------------------- the code

  class AuditState {
    const h: Hash
    var auditDigest: Digest20
    var counter: CounterValue
    var shutdown: bool

    ghost function Abs(): Log
      reads this
    {
      Log(auditDigest, counter)
    }

    constructor (h: Hash, counter: CounterValue)
      ensures Abs() == Log(ZeroDigest(), counter) && this.h == h && !shutdown
    {
      this.h, auditDigest, this.counter, shutdown := h, ZeroDigest(), counter, false;
    }

    method ExtendIn(inParamDigest: Digest20)
      modifies this`auditDigest
      ensures auditDigest == Extend(h, old(auditDigest), EventIn(inParamDigest, counter))
    {
      var event := Serialize(EventIn(inParamDigest, counter));
      auditDigest := h(auditDigest + event);
    }

    method ExtendOut(outParamDigest: Digest20)
      modifies this`auditDigest
      ensures auditDigest == Extend(h, old(auditDigest), EventOut(outParamDigest, counter))
    {
      var event := Serialize(EventOut(outParamDigest, counter));
      auditDigest := h(auditDigest + event);
    }

    /** TPM_ProcessAudit; `storeOk` is whether the NV store of a new counter value succeeds. If not, the
        digest stays and the TPM goes into the failure state. */
    method ProcessAudit(c: Audited, storeOk: bool) returns (ok: bool)
      modifies this
      ensures ok <==> storeOk || old(auditDigest) != ZeroDigest()
      ensures shutdown == (old(shutdown) || !ok) && counter == CounterFor(old(Abs()))
      ensures Abs() == if ok then AuditStep(h, old(Abs()), c) else Log(old(auditDigest), CounterFor(old(Abs())))
    {
      ghost var log := Abs();
      ok := true;
      if auditDigest == ZeroDigest() {
        counter := counter.(count := (counter.count + 1) % TWO_32);
        ok := storeOk;
      }
      if ok {
        ExtendIn(c.input);
        if c.Normal? {
          ExtendOut(c.output);
        }
        ChainOfCommand(h, log, c);
      } else {
        shutdown := true;
      }
    }
  }
}
