/** Which ordinals are audited: a bit map of 256 ordinals and two flags for the TSC ordinals, as a
    refinement of a set of ordinals. */
module AuditStatus {
  import opened Bytes

  const ORDINALS_MAX := 256
  const TSC_ORD_PHYSICAL_PRESENCE: Uint32 := 0x4000_000A
  const TSC_ORD_RESET_ESTABLISHMENT_BIT: Uint32 := 0x4000_000B
  /** The flags 0x01 and 0x02 of the TSC byte, by bit number. */
  const TSC_PHYS_PRES_AUDIT := 0
  const TSC_RESET_ESTAB_AUDIT := 1

  datatype Rc = Success | BadParameter | BadIndex | Fail

  // ---------------------------------------------------------------- bits

  /** `b | (1 << i)` or `b & ~(1 << i)`: bit `i` made `on`, the others kept. */
  function WriteOne(b: nat, i: nat, on: bool): (r: nat) {
    if i == 0 then b - b % 2 + (if on then 1 else 0) else b % 2 + 2 * WriteOne(b / 2, i - 1, on)
  }

  lemma {:induction false} WriteOneBits(b: nat, i: nat, on: bool, j: nat)
    ensures Bit(WriteOne(b, i, on), j) == if i == j then on else Bit(b, j)
    decreases i
  {
    if i > 0 {
      Halves(b % 2, WriteOne(b / 2, i - 1, on));
      if j > 0 {
        WriteOneBits(b / 2, i - 1, on, j - 1);
      }
    }
  }

  lemma {:induction false} WriteOneBound(b: nat, i: nat, on: bool, n: nat)
    requires b < Pow2(n) && i < n
    ensures WriteOne(b, i, on) < Pow2(n)
    decreases n
  {
    var half := b / 2;
    assert b == 2 * half + b % 2 && Pow2(n) == 2 * Pow2(n - 1);
    assert half < Pow2(n - 1);
    if i > 0 {
      WriteOneBound(half, i - 1, on, n - 1);
    }
  }

  /** A byte stays a byte. */
  function Write(b: byte, i: nat, on: bool): (r: byte)
    requires i < 8
  {
    assert Pow2(8) == 256;
    WriteOneBound(b, i, on, 8);
    WriteOne(b, i, on)
  }

  // ---------------------------------------------------------------- the set of ordinals

  /** The ordinals that have a place in the structure. */
  predicate Known(ord: Uint32) {
    ord < ORDINALS_MAX || ord == TSC_ORD_PHYSICAL_PRESENCE || ord == TSC_ORD_RESET_ESTABLISHMENT_BIT
  }

  /** The ordinal's bit. */
  predicate Audited(map8: Bytes, tsc: byte, ord: Uint32)
    requires |map8| == ORDINALS_MAX / 8
  {
    if ord < ORDINALS_MAX then Bit(map8[ord / 8], ord % 8)
    else if ord == TSC_ORD_PHYSICAL_PRESENCE then Bit(tsc, TSC_PHYS_PRES_AUDIT)
    else ord == TSC_ORD_RESET_ESTABLISHMENT_BIT && Bit(tsc, TSC_RESET_ESTAB_AUDIT)
  }

  /** Where an ordinal's bit is: bit `ord % 8` of byte `ord / 8`, and the bits 0x01 and 0x02 of the TSC byte. */
  lemma AuditedBit(map8: Bytes, tsc: byte, ord: Uint32)
    requires |map8| == ORDINALS_MAX / 8
    ensures ord < 256 ==> Pow2(ord % 8) > 0 && (Audited(map8, tsc, ord) <==> (map8[ord / 8] / Pow2(ord % 8)) % 2 == 1)
    ensures ord == 0x4000_000A ==> (Audited(map8, tsc, ord) <==> tsc % 2 == 1)
    ensures ord == 0x4000_000B ==> (Audited(map8, tsc, ord) <==> (tsc / 2) % 2 == 1)
    ensures ord >= 256 && ord != 0x4000_000A && ord != 0x4000_000B ==> !Audited(map8, tsc, ord)
  {
    if ord < 256 {
      BitIs(map8[ord / 8], ord % 8);
    }
    assert Bit(tsc, 1) == Bit(tsc / 2, 0);
  }

  /** Changing one bit of the map changes membership of that ordinal and of no other. */
  lemma WriteBit(map8: Bytes, tsc: byte, ord: Uint32, on: bool, other: Uint32)
    requires |map8| == ORDINALS_MAX / 8 && ord < ORDINALS_MAX
    ensures Audited(map8[ord / 8 := Write(map8[ord / 8], ord % 8, on)], tsc, other)
            == if other == ord then on else Audited(map8, tsc, other)
  {
    if other < ORDINALS_MAX && other / 8 == ord / 8 {
      WriteOneBits(map8[ord / 8], ord % 8, on, other % 8);
      SameByte(ord, other);
    }
  }

  lemma SameByte(a: Uint32, b: Uint32)
    requires a / 8 == b / 8
    ensures a % 8 == b % 8 <==> a == b
  {}

  ghost predicate Ascending(list: seq<Uint32>) {
    forall i, j :: 0 <= i < j < |list| ==> list[i] < list[j]
  }

  lemma AscendingAppend(list: seq<Uint32>, x: Uint32)
    requires Ascending(list) && forall o: Uint32 :: o in list ==> o < x
    ensures Ascending(list + [x])
  {
    assert forall i :: 0 <= i < |list| ==> list[i] in list;
  }

  ghost function Members(a: seq<Uint32>): set<Uint32> { set o | o in a }

  /** The last element of an ascending list is its largest, and is gone from the rest. */
  lemma DropLast(a: seq<Uint32>, x: Uint32)
    requires Ascending(a + [x])
    ensures Ascending(a) && Members(a) == Members(a + [x]) - {x}
    ensures x in Members(a + [x]) && forall o :: o in Members(a + [x]) ==> o <= x
  {
    var all := a + [x];
    assert all[|a|] == x;
    assert forall i :: 0 <= i < |a| ==> a[i] == all[i] < x;
  }

  /** An ascending list is determined by its members, so the two clauses of `Store` fix its result. */
  lemma {:induction false} AscendingUnique(a: seq<Uint32>, b: seq<Uint32>)
    requires Ascending(a) && Ascending(b) && Members(a) == Members(b)
    ensures a == b
    decreases |a|
  {
    if a == [] || b == [] {
      NoMembers(a);
      NoMembers(b);
    } else {
      var a1, x, b1, y := a[..|a| - 1], a[|a| - 1], b[..|b| - 1], b[|b| - 1];
      assert a == a1 + [x] && b == b1 + [y];
      DropLast(a1, x);
      DropLast(b1, y);
      AscendingUnique(a1, b1);
    }
  }

  lemma NoMembers(a: seq<Uint32>)
    ensures a == [] <==> Members(a) == {}
  {
    if a != [] { assert a[0] in Members(a); }
  }

  // ---------------------------------------------------------------- the code

  class Status {
    /** TPM_OrdinalTable_GetAuditable: what this implementation can audit. */
    const auditable: Uint32 -> bool
    const map8: array<byte>
    var tsc: byte

    ghost predicate Shaped() { map8.Length == ORDINALS_MAX / 8 }

    ghost function Has(ord: Uint32): bool
      requires Shaped()
      reads this, map8
    {
      Audited(map8[..], tsc, ord)
    }

    /** Only auditable ordinals are audited; every operation keeps this. */
    ghost predicate Valid()
      reads this, map8
    {
      Shaped() && forall ord: Uint32 :: Has(ord) ==> auditable(ord)
    }

    constructor (auditable: Uint32 -> bool)
      ensures Valid() && this.auditable == auditable && forall ord: Uint32 :: !Has(ord)
    {
      this.auditable := auditable;
      map8 := new byte[ORDINALS_MAX / 8](_ => 0);
      tsc := 0;
      new;
      forall ord: Uint32 ensures !Has(ord) {
        ZeroHasNoBit(ord % 8);
        ZeroHasNoBit(TSC_PHYS_PRES_AUDIT);
        ZeroHasNoBit(TSC_RESET_ESTAB_AUDIT);
      }
    }

    method Get(ord: Uint32) returns (rc: Rc, audited: bool)
      requires Shaped()
      ensures rc == if Known(ord) then Success else Fail
      ensures audited == Has(ord)
    {
      rc, audited := Success, false;
      if ord < ORDINALS_MAX {
        audited := Bit(map8[ord / 8], ord % 8);
      } else if ord == TSC_ORD_PHYSICAL_PRESENCE {
        audited := Bit(tsc, TSC_PHYS_PRES_AUDIT);
      } else if ord == TSC_ORD_RESET_ESTABLISHMENT_BIT {
        audited := Bit(tsc, TSC_RESET_ESTAB_AUDIT);
      } else {
        rc := Fail;
      }
    }

    /** Insert or remove one ordinal. `altered` tells whether the set changed, except that removing
        ResetEstablishmentBit never reports a change. */
    method Set(on: bool, ord: Uint32) returns (rc: Rc, altered: bool)
      requires Valid()
      modifies this`tsc, map8
      ensures Valid()
      ensures rc == if on && !auditable(ord) then BadParameter else if Known(ord) then Success else BadIndex
      ensures forall o: Uint32 :: Has(o) == if rc == Success && o == ord then on else old(Has(o))
      ensures altered <==> old(Has(ord)) != Has(ord) && (ord == TSC_ORD_RESET_ESTABLISHMENT_BIT ==> on)
    {
      rc, altered := Success, false;
      if on && !auditable(ord) {
        rc := BadParameter;
        return;
      }
      ghost var was, wasTsc := map8[..], tsc;
      if ord < ORDINALS_MAX {
        var index, offset := ord / 8, ord % 8;
        altered := (Bit(map8[index], offset) && !on) || (!Bit(map8[index], offset) && on);
        map8[index] := Write(map8[index], offset, on);
        assert map8[..] == was[index := Write(was[index], offset, on)];
        forall o: Uint32 ensures Has(o) == if o == ord then on else Audited(was, wasTsc, o) {
          WriteBit(was, wasTsc, ord, on, o);
        }
      } else if ord == TSC_ORD_PHYSICAL_PRESENCE {
        altered := (Bit(tsc, TSC_PHYS_PRES_AUDIT) && !on) || (!Bit(tsc, TSC_PHYS_PRES_AUDIT) && on);
        tsc := Write(tsc, TSC_PHYS_PRES_AUDIT, on);
        WriteOneBits(wasTsc, TSC_PHYS_PRES_AUDIT, on, TSC_PHYS_PRES_AUDIT);
        WriteOneBits(wasTsc, TSC_PHYS_PRES_AUDIT, on, TSC_RESET_ESTAB_AUDIT);
      } else if ord == TSC_ORD_RESET_ESTABLISHMENT_BIT {
        if on {
          altered := !Bit(tsc, TSC_RESET_ESTAB_AUDIT);
        }
        tsc := Write(tsc, TSC_RESET_ESTAB_AUDIT, on);
        WriteOneBits(wasTsc, TSC_RESET_ESTAB_AUDIT, on, TSC_PHYS_PRES_AUDIT);
        WriteOneBits(wasTsc, TSC_RESET_ESTAB_AUDIT, on, TSC_RESET_ESTAB_AUDIT);
      } else {
        rc := BadIndex;
      }
    }

    /** TPM_OrdinalAuditStatus_Init: on success the audited ordinals are exactly the known defaults;
        it fails exactly when some default is not auditable. */
    method Init(auditDefault: Uint32 -> bool) returns (rc: Rc)
      requires Valid()
      modifies this`tsc, map8
      ensures Valid()
      ensures rc == Success <==> forall o: Uint32 :: Known(o) && auditDefault(o) ==> auditable(o)
      ensures rc == Success ==> forall o: Uint32 :: Has(o) == (Known(o) && auditDefault(o))
    {
      rc := Success;
      var altered;
      var ord: Uint32 := 0;
      while rc == Success && ord < ORDINALS_MAX
        invariant Valid() && 0 <= ord <= ORDINALS_MAX
        invariant rc != Success ==> exists o: Uint32 :: Known(o) && auditDefault(o) && !auditable(o)
        invariant rc == Success ==>
                    forall o: Uint32 :: o < ord ==> Has(o) == auditDefault(o) && (auditDefault(o) ==> auditable(o))
        invariant forall o: Uint32 :: !Known(o) ==> !Has(o)
        decreases ORDINALS_MAX - ord, rc == Success
      {
        rc, altered := Set(auditDefault(ord), ord);
        ord := ord + 1;
      }
      if rc == Success {
        rc, altered := Set(auditDefault(TSC_ORD_PHYSICAL_PRESENCE), TSC_ORD_PHYSICAL_PRESENCE);
      }
      if rc == Success {
        rc, altered := Set(auditDefault(TSC_ORD_RESET_ESTABLISHMENT_BIT), TSC_ORD_RESET_ESTABLISHMENT_BIT);
      }
    }

    /** TPM_OrdinalAuditStatus_Store: the audited ordinals from `start` on, in ascending order, and in any
        case the audited TSC ordinals. */
    method Store(start: Uint32) returns (list: seq<Uint32>)
      requires Shaped()
      ensures Ascending(list)
      ensures forall o: Uint32 :: o in list <==> Has(o) && (o >= start || o >= ORDINALS_MAX)
    {
      list := [];
      var ord := start;
      var rc, audited;
      while ord < ORDINALS_MAX
        invariant start <= ord && (ord <= ORDINALS_MAX || ord == start)
        invariant Ascending(list) && forall o: Uint32 :: o in list ==> o < ord
        invariant forall o: Uint32 :: o in list <==> start <= o < ord && o < ORDINALS_MAX && Has(o)
      {
        rc, audited := Get(ord);
        if rc == Success && audited {
          AscendingAppend(list, ord);
          list := list + [ord];
        }
        ord := ord + 1;
      }
      assert forall o: Uint32 :: o in list ==> o < ORDINALS_MAX;
      rc, audited := Get(TSC_ORD_PHYSICAL_PRESENCE);
      if audited {
        AscendingAppend(list, TSC_ORD_PHYSICAL_PRESENCE);
        list := list + [TSC_ORD_PHYSICAL_PRESENCE];
      }
      rc, audited := Get(TSC_ORD_RESET_ESTABLISHMENT_BIT);
      if audited {
        AscendingAppend(list, TSC_ORD_RESET_ESTABLISHMENT_BIT);
        list := list + [TSC_ORD_RESET_ESTABLISHMENT_BIT];
      }
    }
  }
}
