/** All devices of a network: which numbers they carry, and when their addresses keep them apart. */
module AreaAddresses {
  import opened Octets
  import opened AreaBlocks
  import opened AreaModel
  import opened AreaNumbering
  import opened AreaOrder

  // ---------- the devices of a network ----------

  ghost function NetworkOfDevice(area: Area, f: Fields): int
  {
    if IsLocalType(f.machine) then NetworkOf(area.builds, 0, f, 0) else GroupOf(area, f.machine).ipid
  }

  /** The number initMachineInfo returns for an accepted device. */
  ghost function DeviceNumber(area: Area, f: Fields): int
  {
    if IsLocalType(f.machine) then NumberOf(area, f)
    else NetworkSize(area, NetworkOfDevice(area, f)) + GroupsBefore(area, f.machine) + f.sub
  }

  /** What distinguishes devices: the location for local ones, the index within the group for the others. */
  function Identity(f: Fields): Fields
  {
    if IsLocalType(f.machine) then Canonical(f) else Fields(f.machine, f.sub, 0, 0, 0, 0, 0)
  }

  ghost predicate Accepted(area: Area, f: Fields)
    requires WellFormed(area)
  {
    AreaIndexFits(area, f.area) && Accepts(area, f)
  }

  /** An accepted device of the area and the network. */
  ghost predicate On(area: Area, areaIndex: nat, ipid: int, f: Fields)
    requires WellFormed(area)
  {
    f.area == areaIndex && Accepted(area, f) && NetworkOfDevice(area, f) == ipid
  }

  ghost predicate Carried(area: Area, areaIndex: nat, ipid: int, n: int)
    requires WellFormed(area)
  {
    exists f :: On(area, areaIndex, ipid, f) && DeviceNumber(area, f) == n
  }

  // ---------- which numbers they carry ----------

  datatype Range = Range(first: int, last: int)

  predicate Holds(r: Range, n: int)
  {
    r.first <= n <= r.last
  }

  const LOCAL := 0

  /** Local devices are kind 0; kinds 1, 2 and 3 are the entries 0, 1 and 2 of the guard array. */
  function KindOf(machine: nat): nat
  {
    if machine == MANAGER_TYPE then 1 else if machine == AREA_DOOR_TYPE then 2 else if machine == GUARD_TYPE then 3 else LOCAL
  }

  function TypeOf(kind: nat): nat
  {
    if kind == 1 then MANAGER_TYPE else if kind == 2 then AREA_DOOR_TYPE else GUARD_TYPE
  }

  function Group(area: Area, kind: nat): Guard
  {
    GroupOf(area, TypeOf(kind))
  }

  /** The numbers of one kind of devices on a network. A group counts all groups in front of it, whatever network
      they are on. */
  ghost function RangeOf(area: Area, ipid: int, kind: nat): Range
  {
    if kind == LOCAL then Range(1, NetworkSize(area, ipid))
    else if Group(area, kind).ipid != ipid then Range(1, 0)
    else
      var before := NetworkSize(area, ipid) + GroupsBefore(area, TypeOf(kind));
      Range(before + Group(area, kind).indexBegin, before + Group(area, kind).indexEnd)
  }

  predicate GroupsStartAtOne(area: Area)
  {
    area.manage.indexBegin == 1 && area.areaGate.indexBegin == 1 && area.guard.indexBegin == 1
  }

  /** Every number lies in the range of its kind; when groups start at 1, they come after all local devices. */
  lemma NumberRange(area: Area, f: Fields)
    requires WellFormed(area) && Accepted(area, f)
    ensures KindOf(f.machine) < 4
            && Holds(RangeOf(area, NetworkOfDevice(area, f), KindOf(f.machine)), DeviceNumber(area, f))
    ensures GroupsStartAtOne(area) ==>
              1 <= DeviceNumber(area, f)
              && (DeviceNumber(area, f) <= NetworkSize(area, NetworkOfDevice(area, f)) <==> IsLocalType(f.machine))
  {
    SizeNonNegative(area, NetworkOfDevice(area, f));
    if IsLocalType(f.machine) {
      NumberThenDevice(area, f);
    }
  }

  lemma SizeNonNegative(area: Area, ipid: int)
    requires WellFormed(area)
    ensures NetworkSize(area, ipid) >= 0
  {
    BuildBlocksCountable(area, ipid);
    TotalNonNegative(BuildBlocks(area.builds, ipid));
  }

  lemma DeviceInRange(area: Area, areaIndex: nat, ipid: int, kind: nat, n: int) returns (f: Fields)
    requires WellFormed(area) && AreaIndexFits(area, areaIndex) && kind < 4 && Holds(RangeOf(area, ipid, kind), n)
    ensures On(area, areaIndex, ipid, f) && DeviceNumber(area, f) == n && KindOf(f.machine) == kind
  {
    if kind == LOCAL {
      DeviceThenNumber(area, ipid, areaIndex, n);
      f := DeviceAt(area, ipid, areaIndex, n);
    } else {
      var g := Group(area, kind);
      f := Fields(TypeOf(kind), g.indexBegin + n - RangeOf(area, ipid, kind).first, 0, 0, 0, 0, areaIndex);
    }
  }

  /** The numbers carried on a network are those of the four ranges and no others. */
  lemma CarriedNumbers(area: Area, areaIndex: nat, ipid: int, n: int)
    requires WellFormed(area) && AreaIndexFits(area, areaIndex)
    ensures Carried(area, areaIndex, ipid, n) <==> exists kind: nat :: kind < 4 && Holds(RangeOf(area, ipid, kind), n)
  {
    if Carried(area, areaIndex, ipid, n) {
      var f :| On(area, areaIndex, ipid, f) && DeviceNumber(area, f) == n;
      NumberRange(area, f);
    } else if kind: nat :| kind < 4 && Holds(RangeOf(area, ipid, kind), n) {
      var f := DeviceInRange(area, areaIndex, ipid, kind, n);
    }
  }

  /** With all three groups on the network and every first index 1, its devices carry exactly 1, 2, ..., up to their
      total. */
  lemma AllOnOneNetwork(area: Area, areaIndex: nat, ipid: int)
    requires WellFormed(area) && AreaIndexFits(area, areaIndex) && GroupsStartAtOne(area)
    requires area.manage.ipid == area.areaGate.ipid == area.guard.ipid == ipid
    ensures var total := NetworkSize(area, ipid) + area.manage.indexEnd + area.areaGate.indexEnd + area.guard.indexEnd;
      forall n :: Carried(area, areaIndex, ipid, n) <==> 1 <= n <= total
  {
    hide NetworkSize, Carried;
    SizeNonNegative(area, ipid);
    var total := NetworkSize(area, ipid) + area.manage.indexEnd + area.areaGate.indexEnd + area.guard.indexEnd;
    forall n ensures Carried(area, areaIndex, ipid, n) <==> 1 <= n <= total {
      CarriedNumbers(area, areaIndex, ipid, n);
      if 1 <= n <= total {
        assert Holds(RangeOf(area, ipid, 0), n) || Holds(RangeOf(area, ipid, 1), n)
               || Holds(RangeOf(area, ipid, 2), n) || Holds(RangeOf(area, ipid, 3), n);
      }
    }
  }

  // ---------- one group ----------

  ghost predicate CarriedByGroup(area: Area, areaIndex: nat, kind: nat, n: int)
    requires WellFormed(area)
  {
    exists f :: On(area, areaIndex, Group(area, kind).ipid, f) && KindOf(f.machine) == kind && DeviceNumber(area, f) == n
  }

  function CountIf(counted: bool, g: Guard): int
  {
    if counted then GroupCount(g) else 0
  }

  /** Devices of the groups in front that are on the same network, or else those that are not. */
  function InFront(area: Area, kind: nat, same: bool): int
  {
    var ipid := Group(area, kind).ipid;
    (if kind > 1 then CountIf((area.manage.ipid == ipid) == same, area.manage) else 0)
    + (if kind > 2 then CountIf((area.areaGate.ipid == ipid) == same, area.areaGate) else 0)
  }

  /** A group takes up exactly the numbers behind the devices in front of it on its network, if and only if its first
      index and the groups of other networks in front of it make up 1. */
  lemma GroupFollowsOn(area: Area, areaIndex: nat, kind: nat)
    requires WellFormed(area) && AreaIndexFits(area, areaIndex)
    requires 1 <= kind < 4 && Group(area, kind).indexBegin <= Group(area, kind).indexEnd
    ensures var front := NetworkSize(area, Group(area, kind).ipid) + InFront(area, kind, true);
      (forall n :: CarriedByGroup(area, areaIndex, kind, n) <==> front < n <= front + GroupCount(Group(area, kind)))
      <==> Group(area, kind).indexBegin + InFront(area, kind, false) == 1
  {
    hide NetworkSize;
    var ipid := Group(area, kind).ipid;
    var r := RangeOf(area, ipid, kind);
    forall n ensures CarriedByGroup(area, areaIndex, kind, n) <==> Holds(r, n) {
      if CarriedByGroup(area, areaIndex, kind, n) {
        var f :| On(area, areaIndex, ipid, f) && KindOf(f.machine) == kind && DeviceNumber(area, f) == n;
        NumberRange(area, f);
      } else if Holds(r, n) {
        var f := DeviceInRange(area, areaIndex, ipid, kind, n);
      }
    }
    assert CarriedByGroup(area, areaIndex, kind, r.first) && CarriedByGroup(area, areaIndex, kind, r.last);
  }

  // ---------- gaps ----------

  ghost predicate GapFree(area: Area, areaIndex: nat, ipid: int)
    requires WellFormed(area)
  {
    forall m, n :: 1 <= m < n && Carried(area, areaIndex, ipid, n) ==> Carried(area, areaIndex, ipid, m)
  }

  /** s begins before r and ends at most just before it begins. */
  predicate LeadsTo(s: Range, r: Range)
  {
    s.first < r.first <= s.last + 1
  }

  ghost predicate Connected(area: Area, ipid: int)
  {
    forall kind: nat ::
      kind < 4 && RangeOf(area, ipid, kind).first <= RangeOf(area, ipid, kind).last ==> Reached(area, ipid, kind)
  }

  ghost predicate Reached(area: Area, ipid: int, kind: nat)
  {
    RangeOf(area, ipid, kind).first <= 1
    || exists k: nat :: k < 4 && LeadsTo(RangeOf(area, ipid, k), RangeOf(area, ipid, kind))
  }

  /** The numbers on a network have no gap if and only if every group with devices on it begins inside or right
      behind the local devices or another group that begins before it. */
  lemma NoGaps(area: Area, areaIndex: nat, ipid: int)
    requires WellFormed(area) && AreaIndexFits(area, areaIndex)
    ensures GapFree(area, areaIndex, ipid) <==> Connected(area, ipid)
  {
    hide RangeOf, Carried;
    if Connected(area, ipid) {
      forall m, n | 1 <= m < n && Carried(area, areaIndex, ipid, n) ensures Carried(area, areaIndex, ipid, m) {
        CarriedNumbers(area, areaIndex, ipid, n);
        var kind: nat :| kind < 4 && Holds(RangeOf(area, ipid, kind), n);
        CarriedBelow(area, areaIndex, ipid, kind, m);
      }
    }
    if GapFree(area, areaIndex, ipid) {
      forall kind: nat | kind < 4 && RangeOf(area, ipid, kind).first <= RangeOf(area, ipid, kind).last
        ensures Reached(area, ipid, kind)
      {
        var n := RangeOf(area, ipid, kind).first;
        CarriedNumbers(area, areaIndex, ipid, n);
        CarriedNumbers(area, areaIndex, ipid, n - 1);
        assert Holds(RangeOf(area, ipid, kind), n);
        if n > 1 {
          var k: nat :| k < 4 && Holds(RangeOf(area, ipid, k), n - 1);
          assert LeadsTo(RangeOf(area, ipid, k), RangeOf(area, ipid, kind));
        }
      }
    }
  }

  lemma {:induction false} CarriedBelow(area: Area, areaIndex: nat, ipid: int, kind: nat, m: int)
    requires WellFormed(area) && AreaIndexFits(area, areaIndex) && Connected(area, ipid)
    requires kind < 4 && RangeOf(area, ipid, kind).first <= RangeOf(area, ipid, kind).last
    requires 1 <= m <= RangeOf(area, ipid, kind).last
    ensures Carried(area, areaIndex, ipid, m)
    decreases if RangeOf(area, ipid, kind).first > 1 then RangeOf(area, ipid, kind).first else 0
  {
    hide RangeOf, Carried;
    CarriedNumbers(area, areaIndex, ipid, m);
    if m < RangeOf(area, ipid, kind).first {
      var k: nat :| k < 4 && LeadsTo(RangeOf(area, ipid, k), RangeOf(area, ipid, kind));
      CarriedBelow(area, areaIndex, ipid, k, m);
    } else {
      assert Holds(RangeOf(area, ipid, kind), m);
    }
  }

  /** Groups that start at 1 leave a gap all the same: the management centres of network 2 are counted in front of
      the gate of network 1, and one number of network 1 is nobody's. */
  lemma GapBehindOtherNetwork() returns (area: Area)
    ensures WellFormed(area) && GroupsStartAtOne(area) && !GapFree(area, 0, 1)
  {
    var cell := Cell(1, 1, 1, 1, 1, 1, 1, 0, 0);
    area := Area(Guard(2, 1, 1), Guard(1, 1, 1), Guard(3, 1, 0), [], [Build(1, 1, 1, [cell])]);
    SizeNonNegative(area, 1);
    NoGaps(area, 0, 1);
    var first := RangeOf(area, 1, 2).first;
    assert first == NetworkSize(area, 1) + 2 == RangeOf(area, 1, 2).last;
    forall k: nat | k < 4 ensures !LeadsTo(RangeOf(area, 1, k), RangeOf(area, 1, 2)) {
      assert k == 0 || k == 1 || k == 2 || k == 3;
    }
    assert !Reached(area, 1, 2);
  }

  // ---------- numbers as identities ----------

  ghost predicate NumbersIdentify(area: Area, areaIndex: nat, ipid: int)
    requires WellFormed(area)
  {
    forall f, g ::
      On(area, areaIndex, ipid, f) && On(area, areaIndex, ipid, g) && DeviceNumber(area, f) == DeviceNumber(area, g) > 0 ==>
        Identity(f) == Identity(g)
  }

  /** Some positive number is in both. */
  predicate Meet(r: Range, s: Range)
  {
    1 <= r.last && 1 <= s.last && r.first <= r.last && s.first <= s.last && r.first <= s.last && s.first <= r.last
  }

  ghost predicate Apart(area: Area, ipid: int)
  {
    forall j: nat, k: nat :: j < k < 4 ==> !Meet(RangeOf(area, ipid, j), RangeOf(area, ipid, k))
  }

  /** On one network, positive numbers identify the devices if and only if no two ranges meet. */
  lemma NumberIdentifies(area: Area, areaIndex: nat, ipid: int)
    requires WellFormed(area) && AreaIndexFits(area, areaIndex)
    ensures NumbersIdentify(area, areaIndex, ipid) <==> Apart(area, ipid)
  {
    hide NetworkSize, RangeOf;
    if Apart(area, ipid) {
      forall f, g | On(area, areaIndex, ipid, f) && On(area, areaIndex, ipid, g)
                    && DeviceNumber(area, f) == DeviceNumber(area, g) > 0
        ensures Identity(f) == Identity(g)
      {
        NumberRange(area, f);
        NumberRange(area, g);
        SameKind(area, areaIndex, ipid, f, g);
      }
    } else {
      var j: nat, k: nat :| j < k < 4 && Meet(RangeOf(area, ipid, j), RangeOf(area, ipid, k));
      var low := Max(RangeOf(area, ipid, j).first, RangeOf(area, ipid, k).first);
      var f := DeviceInRange(area, areaIndex, ipid, j, Max(low, 1));
      var g := DeviceInRange(area, areaIndex, ipid, k, Max(low, 1));
      assert Identity(f) != Identity(g);
    }
  }

  lemma SameKind(area: Area, areaIndex: nat, ipid: int, f: Fields, g: Fields)
    requires WellFormed(area) && On(area, areaIndex, ipid, f) && On(area, areaIndex, ipid, g)
    requires KindOf(f.machine) == KindOf(g.machine) && DeviceNumber(area, f) == DeviceNumber(area, g)
    ensures Identity(f) == Identity(g)
  {
    if IsLocalType(f.machine) {
      NumberThenDevice(area, f);
      NumberThenDevice(area, g);
    }
  }

  function Max(a: int, b: int): int
  {
    if a >= b then a else b
  }

  /** The prior contents of the record do not influence the number of an accepted local device. */
  lemma NumberIgnoresRecord(area: Area, f: Fields, before: int, number: int, index: int)
    requires WellFormed(area) && Accepted(area, f) && IsLocalType(f.machine)
    ensures var ipid := NetworkOf(area.builds, 0, f, before);
      ipid == NetworkOfDevice(area, f)
      && TallyBuilds(Tally(0, number, index), area.builds, 0, f, ipid).machineNumber == DeviceNumber(area, f)
  {
    var k, j := AcceptedIsLocated(area, f);
    LocatedIsAccepted(area, f, k, j);
    TallyIsOrdinal(Tally(0, number, index), area, f, k, j);
    LocatedNumber(area, f, k, j);
  }

  // ---------- addresses ----------

  /** The last octet is never 0 or 255. */
  lemma LastOctet(start: byte, n: int)
    requires n > 0
    ensures 1 <= Low(start, n) <= 254
  {
  }

  ghost predicate SameAddress(start: byte, m: int, n: int)
  {
    High(start, m) == High(start, n) && Low(start, m) == Low(start, n)
  }

  ghost predicate KeepsApart(start: byte, count: int)
  {
    forall m, n :: 1 <= m < n <= count ==> !SameAddress(start, m, n)
  }

  function Limit(start: byte): int
  {
    if start == 255 then 763 else 508
  }

  /** Addresses separate 1..count exactly as long as start octet plus count stays within 508 (763 when the start
      octet is already 255): past that the clamp of the last octet repeats an address. */
  lemma SeparationBound(start: byte, count: int)
    ensures KeepsApart(start, count) <==> start + count <= Limit(start)
  {
    if start + count <= Limit(start) {
      forall m, n | 1 <= m < n <= count ensures !SameAddress(start, m, n) {
        Carry(start, m);
        Carry(start, n);
      }
    } else if start == 255 {
      assert SameAddress(start, 508, 509);
    } else {
      assert SameAddress(start, 255 - start, 509 - start);
    }
  }

  /** An address is the pair of its last two octets: the third one never wraps around between two devices. */
  lemma AddressIsPair(start: IpAddress, m: int, n: int)
    ensures AddressFor(start, m) == AddressFor(start, n) <==> SameAddress(start[3], m, n)
  {
    if AddressFor(start, m) == AddressFor(start, n) {
      assert AddressFor(start, m)[2] == AddressFor(start, n)[2] && AddressFor(start, m)[3] == AddressFor(start, n)[3];
      ThirdOctet(start[2], High(start[3], m), High(start[3], n));
    }
  }

  lemma ThirdOctet(base: byte, a: byte, b: byte)
    requires Cast(base + a) == Cast(base + b)
    ensures a == b
  {
  }

  /** The highest number carried on a network by the first kinds of devices. */
  ghost function Top(area: Area, ipid: int, kinds: nat): int
  {
    if kinds == 0 then 0
    else
      var r := RangeOf(area, ipid, kinds - 1);
      Max(Top(area, ipid, kinds - 1), if r.first <= r.last then r.last else 0)
  }

  lemma TopIsLast(area: Area, ipid: int, kinds: nat)
    ensures forall kind: nat, n :: kind < kinds && Holds(RangeOf(area, ipid, kind), n) ==> n <= Top(area, ipid, kinds)
    ensures Top(area, ipid, kinds) > 0 ==>
              exists kind: nat :: kind < kinds && Holds(RangeOf(area, ipid, kind), Top(area, ipid, kinds))
  {
    hide RangeOf;
    if kinds > 0 {
      TopIsLast(area, ipid, kinds - 1);
      var r := RangeOf(area, ipid, kinds - 1);
      if Top(area, ipid, kinds) == Top(area, ipid, kinds - 1) > 0 {
        var kind: nat :| kind < kinds - 1 && Holds(RangeOf(area, ipid, kind), Top(area, ipid, kinds - 1));
        assert Holds(RangeOf(area, ipid, kind), Top(area, ipid, kinds));
      } else if Top(area, ipid, kinds) > 0 {
        assert Holds(r, r.last);
      }
    }
  }

  /** Devices with a positive number, which are those that get an address at all, get different ones. */
  ghost predicate AddressesDiffer(area: Area, areaIndex: nat, ipid: int, start: IpAddress)
    requires WellFormed(area)
  {
    forall f, g ::
      On(area, areaIndex, ipid, f) && On(area, areaIndex, ipid, g) && Identity(f) != Identity(g)
      && DeviceNumber(area, f) > 0 && DeviceNumber(area, g) > 0 ==>
        AddressFor(start, DeviceNumber(area, f)) != AddressFor(start, DeviceNumber(area, g))
  }

  /** The addresses on a network differ when no two ranges meet and the highest number carried there stays in bounds;
      without gaps in the numbers, not otherwise. */
  lemma DistinctAddresses(area: Area, areaIndex: nat, ipid: int, start: IpAddress)
    requires WellFormed(area) && AreaIndexFits(area, areaIndex)
    ensures Apart(area, ipid) && start[3] + Top(area, ipid, 4) <= Limit(start[3]) ==>
              AddressesDiffer(area, areaIndex, ipid, start)
    ensures GapFree(area, areaIndex, ipid) && AddressesDiffer(area, areaIndex, ipid, start) ==>
              Apart(area, ipid) && start[3] + Top(area, ipid, 4) <= Limit(start[3])
  {
    hide RangeOf, AddressFor, SameAddress, Limit, Top, High, Low;
    SeparationBound(start[3], Top(area, ipid, 4));
    NumberIdentifies(area, areaIndex, ipid);
    if Apart(area, ipid) && KeepsApart(start[3], Top(area, ipid, 4)) {
      forall f, g | On(area, areaIndex, ipid, f) && On(area, areaIndex, ipid, g) && Identity(f) != Identity(g)
                    && DeviceNumber(area, f) > 0 && DeviceNumber(area, g) > 0
        ensures AddressFor(start, DeviceNumber(area, f)) != AddressFor(start, DeviceNumber(area, g))
      {
        TopIsLast(area, ipid, 4);
        NumberRange(area, f);
        NumberRange(area, g);
        AddressIsPair(start, DeviceNumber(area, f), DeviceNumber(area, g));
        SameIsSymmetric(start[3], DeviceNumber(area, f), DeviceNumber(area, g));
      }
    }
    if AddressesDiffer(area, areaIndex, ipid, start) && GapFree(area, areaIndex, ipid) {
      if m, n :| 1 <= m < n <= Top(area, ipid, 4) && SameAddress(start[3], m, n) {
        NumbersBelowTop(area, areaIndex, ipid, m);
        NumbersBelowTop(area, areaIndex, ipid, n);
        AddressIsPair(start, m, n);
        var f :| On(area, areaIndex, ipid, f) && DeviceNumber(area, f) == m;
        var g :| On(area, areaIndex, ipid, g) && DeviceNumber(area, g) == n;
        SameDevice(area, areaIndex, ipid, f, g);
      }
    }
  }

  lemma SameIsSymmetric(start: byte, m: int, n: int)
    ensures SameAddress(start, m, n) == SameAddress(start, n, m)
  {
    hide High, Low;
  }

  lemma NumbersBelowTop(area: Area, areaIndex: nat, ipid: int, n: int)
    requires WellFormed(area) && AreaIndexFits(area, areaIndex) && GapFree(area, areaIndex, ipid)
    requires 1 <= n <= Top(area, ipid, 4)
    ensures Carried(area, areaIndex, ipid, n)
  {
    hide RangeOf, Top, Carried;
    TopIsLast(area, ipid, 4);
    CarriedNumbers(area, areaIndex, ipid, Top(area, ipid, 4));
  }

  /** The number depends on the identity only. */
  lemma SameDevice(area: Area, areaIndex: nat, ipid: int, f: Fields, g: Fields)
    requires WellFormed(area) && On(area, areaIndex, ipid, f) && On(area, areaIndex, ipid, g) && Identity(f) == Identity(g)
    ensures DeviceNumber(area, f) == DeviceNumber(area, g)
  {
    hide NumberOf;
    if IsLocalType(f.machine) {
      NumberingOrder(area, f, g);
      NumberingOrder(area, g, f);
    }
  }
}
