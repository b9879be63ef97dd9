/** Building the reservation-station pool from a configuration and the
    initial register-status table from a register file. */
module Pool {
  import opened Types
  import opened Engine

  /** The decimal digit `d`. */
  function DigitChar(d: nat): (c: char)
    requires d < 10
    ensures '0' <= c <= '9'
  {
    "0123456789"[d]
  }

  /** The decimal spelling of `n`, as a template string prints a number. */
  function NatToString(n: nat): (s: string)
    ensures 1 <= |s|
    ensures n >= 10 ==> |s| >= 2
  {
    if n < 10 then [DigitChar(n)] else NatToString(n / 10) + [DigitChar(n % 10)]
  }

  /** Distinct numbers are spelled differently. */
  lemma {:induction false} NatToStringInjective(a: nat, b: nat)
    requires NatToString(a) == NatToString(b)
    ensures a == b
  {
    if a >= 10 && b >= 10 {
      var sa, sb := NatToString(a), NatToString(b);
      assert sa[|sa| - 1] == DigitChar(a % 10) && sb[|sb| - 1] == DigitChar(b % 10);
      assert sa[..|sa| - 1] == NatToString(a / 10) && sb[..|sb| - 1] == NatToString(b / 10);
      NatToStringInjective(a / 10, b / 10);
    }
  }

  /** The number of stations a configured count yields: a loop from 1 to a
      non-positive count runs no iteration. */
  function Count(n: int): nat
  {
    if n > 0 then n else 0
  }

  /** The stations one loop of `createReservationStations` pushes: empty
      stations of `unit` named `prefix` followed by 1, 2, ..., `count`. */
  function Bank(prefix: string, unit: UnitType, count: int): (r: seq<Station>)
    ensures |r| == Count(count)
  {
    if count <= 0 then [] else Bank(prefix, unit, count - 1) + [EmptyStation(prefix + NatToString(count), unit)]
  }

  /** The pool `createReservationStations` builds: the FP adders, the FP
      multipliers, the integer adders and the integer multipliers, in that
      order. */
  function StationsFor(config: HardwareConfig): seq<Station>
  {
    Bank("Add", FpAdd, config.fpAddStations) + Bank("Mult", FpMult, config.fpMultStations) +
    Bank("IntAdd", IntAdd, config.intAddStations) + Bank("IntMult", IntMult, config.intMultStations)
  }

  /** One loop of `createReservationStations`: push the stations `prefix`1
      to `prefix``count`. */
  method PushStations(stations: seq<Station>, prefix: string, unit: UnitType, count: int)
    returns (r: seq<Station>)
    ensures r == stations + Bank(prefix, unit, count)
  {
    r := stations;
    var i := 1;
    while i <= count
      invariant 1 <= i <= Count(count) + 1
      invariant r == stations + Bank(prefix, unit, i - 1)
    {
      r := r + [EmptyStation(prefix + NatToString(i), unit)];
      i := i + 1;
    }
  }

  /** `createReservationStations`. */
  method CreateReservationStations(config: HardwareConfig) returns (stations: seq<Station>)
    ensures stations == StationsFor(config)
  {
    stations := [];
    stations := PushStations(stations, "Add", FpAdd, config.fpAddStations);
    stations := PushStations(stations, "Mult", FpMult, config.fpMultStations);
    stations := PushStations(stations, "IntAdd", IntAdd, config.intAddStations);
    stations := PushStations(stations, "IntMult", IntMult, config.intMultStations);
  }

  /** The unit prefix of a station name. */
  function Prefix(unit: UnitType): string
  {
    match unit
    case FpAdd => "Add"
    case FpMult => "Mult"
    case IntAdd => "IntAdd"
    case IntMult => "IntMult"
  }

  /** The unit and the 1-based number within its unit of the station at
      position `k` of the pool: the FP adders come first, then the FP
      multipliers, the integer adders and the integer multipliers. */
  function Slot(config: HardwareConfig, k: nat): (UnitType, nat)
  {
    var a, m, ia := Count(config.fpAddStations), Count(config.fpMultStations), Count(config.intAddStations);
    if k < a then (FpAdd, k + 1)
    else if k < a + m then (FpMult, k - a + 1)
    else if k < a + m + ia then (IntAdd, k - a - m + 1)
    else (IntMult, k - a - m - ia + 1)
  }

  /** The total number of configured stations. */
  function PoolSize(config: HardwareConfig): nat
  {
    Count(config.fpAddStations) + Count(config.fpMultStations) +
    Count(config.intAddStations) + Count(config.intMultStations)
  }

  /** Station `k` of a bank. */
  lemma {:induction false} BankAt(unit: UnitType, count: int, k: nat)
    requires k < Count(count)
    ensures Bank(Prefix(unit), unit, count)[k] == EmptyStation(Prefix(unit) + NatToString(k + 1), unit)
  {
    if k < count - 1 {
      BankAt(unit, count - 1, k);
    }
  }

  /** Indexing a concatenation. */
  lemma ConcatAt(a: seq<Station>, b: seq<Station>, k: nat)
    requires k < |a| + |b|
    ensures (a + b)[k] == if k < |a| then a[k] else b[k - |a|]
  {
  }

  /** The station in slot `k` of the pool. */
  lemma {:induction false} LayoutAt(config: HardwareConfig, k: nat)
    requires k < PoolSize(config)
    ensures |StationsFor(config)| == PoolSize(config)
    ensures StationsFor(config)[k] == EmptyStation(Prefix(Slot(config, k).0) + NatToString(Slot(config, k).1), Slot(config, k).0)
  {
    var a, m, ia := Count(config.fpAddStations), Count(config.fpMultStations), Count(config.intAddStations);
    var b1, b2 := Bank("Add", FpAdd, config.fpAddStations), Bank("Mult", FpMult, config.fpMultStations);
    var b3, b4 := Bank("IntAdd", IntAdd, config.intAddStations), Bank("IntMult", IntMult, config.intMultStations);
    var b12 := b1 + b2;
    var b123 := b12 + b3;
    assert StationsFor(config) == b123 + b4;
    ConcatAt(b123, b4, k);
    var st := StationsFor(config)[k];
    if k < a + m + ia {
      ConcatAt(b12, b3, k);
      if k < a + m {
        ConcatAt(b1, b2, k);
        if k < a {
          assert Slot(config, k) == (FpAdd, k + 1);
          BankAt(FpAdd, config.fpAddStations, k);
        } else {
          assert Slot(config, k) == (FpMult, k - a + 1);
          BankAt(FpMult, config.fpMultStations, k - a);
        }
      } else {
        assert Slot(config, k) == (IntAdd, k - a - m + 1);
        BankAt(IntAdd, config.intAddStations, k - a - m);
      }
    } else {
      assert Slot(config, k) == (IntMult, k - a - m - ia + 1);
      BankAt(IntMult, config.intMultStations, k - a - m - ia);
    }
  }

  /** The pool has one station per configured slot, and the station in slot
      `k` is the empty station of the slot's unit, named by the unit's
      prefix and the slot's number. */
  lemma StationsForLayout(config: HardwareConfig)
    ensures |StationsFor(config)| == PoolSize(config)
    ensures forall k :: 0 <= k < |StationsFor(config)| ==>
      StationsFor(config)[k] == EmptyStation(Prefix(Slot(config, k).0) + NatToString(Slot(config, k).1), Slot(config, k).0)
  {
    forall k | 0 <= k < |StationsFor(config)|
      ensures StationsFor(config)[k] == EmptyStation(Prefix(Slot(config, k).0) + NatToString(Slot(config, k).1), Slot(config, k).0)
    {
      LayoutAt(config, k);
    }
  }

  /** Distinct slots of one pool are distinct (unit, number) pairs. */
  lemma SlotInjective(config: HardwareConfig, k1: nat, k2: nat)
    requires k1 < k2
    ensures Slot(config, k1) != Slot(config, k2)
  {
  }

  /** Names with different unit prefixes differ, and so do names with the
      same prefix and different numbers. */
  lemma NamesDiffer(u1: UnitType, n1: nat, u2: UnitType, n2: nat)
    requires (u1, n1) != (u2, n2)
    ensures Prefix(u1) + NatToString(n1) != Prefix(u2) + NatToString(n2)
  {
    var s1, s2 := Prefix(u1) + NatToString(n1), Prefix(u2) + NatToString(n2);
    if u1 == u2 {
      if s1 == s2 {
        assert NatToString(n1) == s1[|Prefix(u1)|..] == s2[|Prefix(u2)|..] == NatToString(n2);
        NatToStringInjective(n1, n2);
      }
    } else {
      assert s1[0] != s2[0] || s1[3] != s2[3];
    }
  }

  /** Station names are unique across the whole pool, and none is empty. */
  lemma StationNamesUnique(config: HardwareConfig)
    ensures var st := StationsFor(config);
      (forall k :: 0 <= k < |st| ==> st[k].name != "") &&
      (forall k1, k2 :: 0 <= k1 < k2 < |st| ==> st[k1].name != st[k2].name)
  {
    var st := StationsFor(config);
    StationsForLayout(config);
    forall k1, k2 | 0 <= k1 < k2 < |st|
      ensures st[k1].name != st[k2].name
    {
      SlotInjective(config, k1, k2);
      NamesDiffer(Slot(config, k1).0, Slot(config, k1).1, Slot(config, k2).0, Slot(config, k2).1);
    }
  }

  /** A status table with the keys of `regs`, every entry naming no
      producer. */
  function ClearStatus(regs: RegisterFile): (status: RegisterStatus)
    ensures status.Keys == regs.Keys
  {
    map r | r in regs :: None
  }

  /** `initializeRegisterStatus`: one entry per register of the file, none
      naming a producer. */
  method InitializeRegisterStatus(regFile: RegisterFile) returns (status: RegisterStatus)
    ensures status.Keys == regFile.Keys
    ensures forall r :: r in status ==> status[r].None?
    ensures status == ClearStatus(regFile)
  {
    status := map[];
    var keys := regFile.Keys;
    while keys != {}
      invariant keys <= regFile.Keys
      invariant status.Keys == regFile.Keys - keys
      invariant forall r :: r in status ==> status[r].None?
      decreases |keys|
    {
      var r :| r in keys;
      status := status[r := None];
      keys := keys - {r};
    }
  }
}
