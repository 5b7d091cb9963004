/** The community description and the two calculations made from it: the running number of a device
    and the address derived from that number. */
module AreaModel {
  import opened Octets
  import opened Common
  import opened AreaBlocks

  type IpAddress = s: seq<byte> | |s| == 4 witness [0, 0, 0, 0]

  datatype Guard = Guard(ipid: byte, indexBegin: byte, indexEnd: byte)

  datatype NetItem = NetItem(netStart: IpAddress, netEnd: IpAddress, netGW: IpAddress, ipid: int)

  datatype Cell = Cell(cellBegin: byte, cellEnd: byte, floorBegin: byte, floorEnd: byte, roomBegin: byte, roomEnd: byte,
                       outDoorCount: byte, inDoorCount: byte, secondOutDoorCount: byte)

  datatype Build = Build(ipid: byte, buildBegin: byte, buildEnd: byte, cells: seq<Cell>)

  datatype Area = Area(manage: Guard, areaGate: Guard, guard: Guard, netItems: seq<NetItem>, builds: seq<Build>)

  const ROOM_TYPE := 1
  const CELL_DOOR_TYPE := 2
  const HOUSE_DOOR_TYPE := 3
  const GUARD_TYPE := 6
  const AREA_DOOR_TYPE := 7
  const MANAGER_TYPE := 8

  // ---------- machine codes ----------

  /** The seven fields packed into a 64-bit machine code. */
  datatype Fields = Fields(machine: nat, sub: nat, door: nat, floor: nat, cell: nat, build: nat, area: nat)

  function ParseMachineCode(code: nat): Fields
  {
    Fields(code % 16, code / 0x10 % 256, code / 0x1000 % 256, code / 0x10_0000 % 256,
           code / 0x1000_0000 % 4096, code / 0x100_0000_0000 % 4096, code / 0x10_0000_0000_0000 % 256)
  }

  /** The packing macro. The shift of the cell is done in 32-bit unsigned arithmetic, the shifts of building and
      area in 64-bit; the fields do not overlap, so the bitwise or of the macro is a sum. */
  function GenerateMachineCode(f: Fields): nat
  {
    f.machine % 16 + f.sub * 0x10 + f.door * 0x1000 + f.floor * 0x10_0000 + f.cell * 0x1000_0000 % 0x1_0000_0000
    + f.build * 0x100_0000_0000 + f.area * 0x10_0000_0000_0000
  }

  predicate InFieldRange(f: Fields)
  {
    f.machine < 16 && f.sub < 256 && f.door < 256 && f.floor < 256 && f.cell < 4096 && f.build < 4096 && f.area < 256
  }

  /** Packing and unpacking give the fields back exactly when the cell fits in four bits: the 32-bit shift drops
      the upper eight bits of the cell field. */
  lemma PackUnpack(f: Fields)
    requires InFieldRange(f)
    ensures ParseMachineCode(GenerateMachineCode(f)) == f.(cell := f.cell % 16)
    ensures ParseMachineCode(GenerateMachineCode(f)) == f <==> f.cell < 16
  {
    var code := GenerateMachineCode(f);
    var kept := f.cell % 16;
    assert f.cell * 0x1000_0000 % 0x1_0000_0000 == kept * 0x1000_0000 by {
      DivisionUnique(f.cell * 0x1000_0000, 0x1_0000_0000, f.cell / 16, kept * 0x1000_0000);
    }
    var r6 := f.area;
    var r5 := f.build + r6 * 4096;
    var r4 := kept + r5 * 4096;
    var r3 := f.floor + r4 * 256;
    var r2 := f.door + r3 * 256;
    var r1 := f.sub + r2 * 256;
    var low2 := f.machine + f.sub * 0x10;
    var low3 := low2 + f.door * 0x1000;
    var low4 := low3 + f.floor * 0x10_0000;
    var low5 := low4 + kept * 0x1000_0000;
    DivisionUnique(code, 0x10, r1, f.machine);
    DivisionUnique(code, 0x1000, r2, low2);
    DivisionUnique(code, 0x10_0000, r3, low3);
    DivisionUnique(code, 0x1000_0000, r4, low4);
    DivisionUnique(code, 0x100_0000_0000, r5, low5);
    DivisionUnique(code, 0x10_0000_0000_0000, r6, low5 + f.build * 0x100_0000_0000);
    DivisionUnique(r1, 256, r2, f.sub);
    DivisionUnique(r2, 256, r3, f.door);
    DivisionUnique(r3, 256, r4, f.floor);
    DivisionUnique(r4, 4096, r5, kept);
    DivisionUnique(r5, 4096, r6, f.build);
  }

  // ---------- device counts ----------

  function CalculationCellMachineNumber(cell: Cell): int
  {
    (cell.floorEnd - cell.floorBegin + 1) * (cell.roomEnd - cell.roomBegin + 1) * (cell.inDoorCount + cell.secondOutDoorCount)
    + cell.outDoorCount
  }

  /** The cells of a building as blocks: one copy of the device list for each cell of the range. */
  function CellBlocks(cells: seq<Cell>): (bs: seq<Block>)
    ensures |bs| == |cells|
  {
    seq(|cells|, i requires 0 <= i < |cells| =>
      Block(cells[i].cellEnd - cells[i].cellBegin + 1, CalculationCellMachineNumber(cells[i])))
  }

  method CalculationBuildMachineNumber(build: Build) returns (machineNumber: int)
    ensures machineNumber == Total(CellBlocks(build.cells))
  {
    machineNumber := 0;
    var index := 0;
    ghost var bs := CellBlocks(build.cells);
    while index < |build.cells|
      invariant 0 <= index <= |build.cells|
      invariant machineNumber == Total(bs[..index])
    {
      var cell := build.cells[index];
      machineNumber := machineNumber + (cell.cellEnd - cell.cellBegin + 1) * CalculationCellMachineNumber(cell);
      index := index + 1;
      assert bs[..index][..index - 1] == bs[..index - 1];
    }
    assert bs[..index] == bs;
  }

  /** The buildings of one local network as blocks; the other buildings contribute nothing. */
  function BuildBlocks(builds: seq<Build>, ipid: int): (bs: seq<Block>)
    ensures |bs| == |builds|
  {
    seq(|builds|, i requires 0 <= i < |builds| =>
      Block(if builds[i].ipid == ipid then builds[i].buildEnd - builds[i].buildBegin + 1 else 0,
            Total(CellBlocks(builds[i].cells))))
  }

  lemma BuildProduct(builds: seq<Build>, ipid: int, i: nat)
    requires i < |builds|
    ensures BuildBlocks(builds, ipid)[i].count * BuildBlocks(builds, ipid)[i].size
            == if builds[i].ipid == ipid then
                 (builds[i].buildEnd - builds[i].buildBegin + 1) * Total(CellBlocks(builds[i].cells))
               else 0
  {
    var b := BuildBlocks(builds, ipid)[i];
    assert b == Block(if builds[i].ipid == ipid then builds[i].buildEnd - builds[i].buildBegin + 1 else 0,
                      Total(CellBlocks(builds[i].cells)));
    assert b.count == 0 ==> b.count * b.size == 0;
  }

  /** The loop over all buildings of a network that runs before a guard device is numbered. */
  method CountNetwork(builds: seq<Build>, ipid: int) returns (machineNumber: int)
    ensures machineNumber == Total(BuildBlocks(builds, ipid))
  {
    machineNumber := 0;
    ghost var bs := BuildBlocks(builds, ipid);
    var i := 0;
    while i < |builds|
      invariant 0 <= i <= |builds|
      invariant machineNumber == Total(bs[..i])
    {
      var build := builds[i];
      if build.ipid == ipid {
        var n := CalculationBuildMachineNumber(build);
        machineNumber := machineNumber + (build.buildEnd - build.buildBegin + 1) * n;
      }
      BuildProduct(builds, ipid, i);
      i := i + 1;
      assert bs[..i][..i - 1] == bs[..i - 1];
    }
    assert bs[..i] == bs;
  }

  // ---------- what initMachineInfo computes ----------

  /** The index at which the search for a building stops; the last building when nothing stops it. */
  function FindBuild(builds: seq<Build>, i: nat, f: Fields): (k: nat)
    requires i < |builds|
    ensures i <= k < |builds|
    decreases |builds| - i
  {
    var b := builds[i];
    if f.build <= b.buildEnd && ((f.build >= b.buildBegin && f.area <= b.buildEnd) || f.build < b.buildBegin) then i
    else if i == |builds| - 1 then i
    else FindBuild(builds, i + 1, f)
  }

  function FindCell(cells: seq<Cell>, i: nat, f: Fields): (k: nat)
    requires i < |cells|
    ensures i <= k < |cells|
    decreases |cells| - i
  {
    if f.cell <= cells[i].cellEnd || i == |cells| - 1 then i else FindCell(cells, i + 1, f)
  }

  predicate IsLocalType(machine: nat)
  {
    machine == ROOM_TYPE || machine == CELL_DOOR_TYPE || machine == HOUSE_DOOR_TYPE
  }

  predicate InRoom(cell: Cell, f: Fields)
  {
    cell.floorBegin <= f.floor <= cell.floorEnd && cell.roomBegin <= f.door <= cell.roomEnd
  }

  predicate FitsCell(cell: Cell, f: Fields)
  {
    cell.cellBegin <= f.cell <= cell.cellEnd && 1 <= f.sub &&
    if f.machine == CELL_DOOR_TYPE then f.sub <= cell.outDoorCount
    else if f.machine == HOUSE_DOOR_TYPE then InRoom(cell, f) && f.sub <= cell.secondOutDoorCount
    else InRoom(cell, f) && f.sub <= cell.inDoorCount
  }

  predicate InGroup(g: Guard, f: Fields)
  {
    g.indexBegin <= f.sub <= g.indexEnd
  }

  /** A building or cell list is read through a pointer that is only set inside the search loop. */
  predicate Searchable(area: Area, f: Fields)
  {
    IsLocalType(f.machine) ==> area.builds != [] && forall i :: 0 <= i < |area.builds| ==> area.builds[i].cells != []
  }

  /** The parameter check at the head of initMachineInfo. */
  predicate Accepts(area: Area, f: Fields)
    requires Searchable(area, f)
  {
    if IsLocalType(f.machine) then
      var b := area.builds[FindBuild(area.builds, 0, f)];
      b.buildBegin <= f.build <= b.buildEnd && FitsCell(b.cells[FindCell(b.cells, 0, f)], f)
    else
      (f.machine == GUARD_TYPE && InGroup(area.guard, f)) || (f.machine == AREA_DOOR_TYPE && InGroup(area.areaGate, f))
      || (f.machine == MANAGER_TYPE && InGroup(area.manage, f))
  }

  /** The running totals of the numbering loop. */
  datatype Tally = Tally(machineNumber: int, number: int, index: int)

  function DevicesPerRoom(cell: Cell): int
  {
    cell.inDoorCount + cell.secondOutDoorCount
  }

  /** Position of a device inside its cell, counted from 1: doors of the cell first, then room by room the
      confirmation doors followed by the indoor stations. */
  function PlaceInCell(cell: Cell, f: Fields): int
  {
    var room := cell.outDoorCount + (f.floor - cell.floorBegin) * (cell.roomEnd - cell.roomBegin + 1) * DevicesPerRoom(cell)
                + (f.door - cell.roomBegin) * DevicesPerRoom(cell);
    if f.machine == ROOM_TYPE then room + cell.secondOutDoorCount + f.sub
    else if f.machine == CELL_DOOR_TYPE then f.sub
    else if f.machine == HOUSE_DOOR_TYPE then room + f.sub
    else 0
  }

  function CountInCell(cell: Cell, f: Fields): int
  {
    if f.machine == ROOM_TYPE then cell.inDoorCount
    else if f.machine == CELL_DOOR_TYPE then cell.outDoorCount
    else cell.secondOutDoorCount
  }

  function TallyCells(t: Tally, cells: seq<Cell>, j: nat, f: Fields): Tally
    requires j <= |cells|
    decreases |cells| - j
  {
    if j == |cells| then t
    else
      var cell := cells[j];
      if f.cell > cell.cellEnd then
        TallyCells(t.(machineNumber := t.machineNumber
                                       + (cell.cellEnd - cell.cellBegin + 1) * CalculationCellMachineNumber(cell)),
                   cells, j + 1, f)
      else if f.cell >= cell.cellBegin then
        var n := t.machineNumber + (f.cell - cell.cellBegin) * CalculationCellMachineNumber(cell) + PlaceInCell(cell, f);
        if IsLocalType(f.machine) then Tally(n, CountInCell(cell, f), f.sub) else t.(machineNumber := n)
      else TallyCells(t, cells, j + 1, f)
  }

  function TallyBuild(t: Tally, build: Build, f: Fields, ipid: int): Tally
  {
    if build.ipid != ipid then t
    else if f.build > build.buildEnd then
      t.(machineNumber := t.machineNumber + (build.buildEnd - build.buildBegin + 1) * Total(CellBlocks(build.cells)))
    else if f.build >= build.buildBegin && f.area <= build.buildEnd then
      TallyCells(t.(machineNumber := t.machineNumber + (f.build - build.buildBegin) * Total(CellBlocks(build.cells))),
                 build.cells, 0, f)
    else t
  }

  function TallyBuilds(t: Tally, builds: seq<Build>, i: nat, f: Fields, ipid: int): Tally
    requires i <= |builds|
    decreases |builds| - i
  {
    if i == |builds| then t
    else TallyBuilds(TallyBuild(t, builds[i], f, ipid), builds, i + 1, f, ipid)
  }

  /** The network of the device: that of the first building whose range holds it, else whatever was there before. */
  function NetworkOf(builds: seq<Build>, i: nat, f: Fields, before: int): int
    requires i <= |builds|
    decreases |builds| - i
  {
    if i == |builds| then before
    else if builds[i].buildBegin <= f.build <= builds[i].buildEnd && f.area <= builds[i].buildEnd then builds[i].ipid
    else NetworkOf(builds, i + 1, f, before)
  }

  function GroupOf(area: Area, machine: nat): Guard
  {
    if machine == GUARD_TYPE then area.guard else if machine == AREA_DOOR_TYPE then area.areaGate else area.manage
  }

  function GroupCount(g: Guard): int
  {
    g.indexEnd - g.indexBegin + 1
  }

  /** Devices of the other groups that are numbered before this one. */
  function GroupsBefore(area: Area, machine: nat): int
  {
    if machine == GUARD_TYPE then GroupCount(area.manage) + GroupCount(area.areaGate)
    else if machine == AREA_DOOR_TYPE then GroupCount(area.manage)
    else 0
  }

  // ---------- addresses ----------

  /** The last two octets derived from a device number: the carry into the third octet, and the fourth octet. */
  function High(start: byte, machineNumber: int): byte
  {
    Cast((machineNumber + start) / 255)
  }

  function Low(start: byte, machineNumber: int): byte
  {
    var h8 := High(start, machineNumber);
    var l8 := if h8 == 0 then Cast(machineNumber + start) else Cast((machineNumber + start) % 255 + h8);
    if l8 % 255 == 0 then 1 else l8
  }

  /** The net item of a network: the last one listed, as later ones overwrite earlier ones. */
  function NetItemOf(items: seq<NetItem>, ipid: int): (r: Option<NetItem>)
    ensures r.Some? ==> r.value in items && r.value.ipid == ipid
    ensures r.Some? ==> exists i :: 0 <= i < |items| && items[i] == r.value && forall j :: i < j < |items| ==> items[j].ipid != ipid
    ensures r.None? <==> forall i :: 0 <= i < |items| ==> items[i].ipid != ipid
  {
    if items == [] then None
    else if items[|items| - 1].ipid == ipid then Some(items[|items| - 1])
    else NetItemOf(items[..|items| - 1], ipid)
  }

  function AddressFor(start: IpAddress, machineNumber: int): IpAddress
  {
    [start[0], start[1], Cast(start[2] + High(start[3], machineNumber)), Low(start[3], machineNumber)]
  }

  function Complement(n: int): byte
  {
    Cast(256 - n)
  }

  function MaskFor(item: NetItem): IpAddress
  {
    var octet := (j: int) requires 0 <= j < 3 =>
      if item.netStart[j] != item.netEnd[j] then Complement(item.netEnd[j]) else 255;
    [octet(0), octet(1), octet(2), 0]
  }

  /** The address of a device, octet by octet. The number is added to the last octet of the start; 255 carries into the
      third octet, and an address never ends in 0 or 255. */
  predicate AddressOf(start: IpAddress, n: int, a: IpAddress)
  {
    var third: int := start[2];
    var sum: int := start[3] + n;
    && a[0] == start[0] && a[1] == start[1]
    && (sum < 255 ==> a[2] == start[2] && a[3] == sum)
    && (255 <= sum <= 508 ==> a[2] == (third + 1) % 256 && a[3] == sum - 254)
    && (sum == 509 ==> a[2] == (third + 1) % 256 && a[3] == 1)
    && (510 <= sum <= 762 ==> a[2] == (third + 2) % 256 && a[3] == sum - 508)
    && (sum == 763 ==> a[2] == (third + 2) % 256 && a[3] == 1)
    && 1 <= a[3] <= 254
  }

  /** A mask octet is 255 where start and end of the range agree, else what the end octet lacks to 256; the last is 0. */
  predicate MaskOf(item: NetItem, mask: IpAddress)
  {
    && (forall j :: 0 <= j < 3 && item.netStart[j] == item.netEnd[j] ==> mask[j] == 255)
    && (forall j :: 0 <= j < 3 && item.netStart[j] != item.netEnd[j] ==>
          mask[j] == if item.netEnd[j] == 0 then 0 else 256 - item.netEnd[j])
    && mask[3] == 0
  }

  lemma AddressSpelledOut(item: NetItem, n: int)
    requires n > 0
    ensures AddressOf(item.netStart, n, AddressFor(item.netStart, n)) && MaskOf(item, MaskFor(item))
  {
    MaskSpelledOut(item);
    hide MaskFor, MaskOf;
    Carry(item.netStart[3], n);
    hide High, Low;
  }

  lemma MaskSpelledOut(item: NetItem)
    ensures MaskOf(item, MaskFor(item))
  {
  }

  lemma Carry(start: byte, n: int)
    requires n > 0
    ensures start + n < 255 ==> High(start, n) == 0 && Low(start, n) == start + n
    ensures 255 <= start + n <= 508 ==> High(start, n) == 1 && Low(start, n) == start + n - 254
    ensures start + n == 509 ==> High(start, n) == 1 && Low(start, n) == 1
    ensures 510 <= start + n <= 762 ==> High(start, n) == 2 && Low(start, n) == start + n - 508
    ensures start + n == 763 ==> High(start, n) == 2 && Low(start, n) == 1
    ensures 1 <= Low(start, n) <= 254
  {
    var sum := n + start;
    if 255 <= sum < 510 {
      assert sum / 255 == 1 && sum % 255 == sum - 255;
    } else if 510 <= sum < 765 {
      assert sum / 255 == 2 && sum % 255 == sum - 510;
    }
  }

  /** The record that initMachineInfo fills in. */
  class MachineInfo {
    var number: byte
    var index: byte
    var ipid: byte
    var machineCode: nat
    var ipAddress: IpAddress
    var gateWay: IpAddress
    var netMask: IpAddress

    constructor ()
      ensures number == 0 && index == 0 && ipid == 0 && machineCode == 0
    {
      number, index, ipid, machineCode := 0, 0, 0, 0;
      ipAddress, gateWay, netMask := [0, 0, 0, 0], [0, 0, 0, 0], [0, 0, 0, 0];
    }

    /** The address part is set from the last net item of the network (calculationIP). */
    method CalculationIP(area: Area, machineNumber: int, ipid: byte) returns (ret: int)
      modifies this`ipAddress, this`gateWay, this`netMask
      ensures ret == if machineNumber > 0 && NetItemOf(area.netItems, ipid).Some? then 0 else -1
      ensures ret == 0 ==> Addressed(NetItemOf(area.netItems, ipid).value, machineNumber)
      ensures if ret == 0 then HasAddress(NetItemOf(area.netItems, ipid).value, machineNumber)
              else ipAddress == old(ipAddress) && gateWay == old(gateWay) && netMask == old(netMask)
    {
      ret := -1;
      if machineNumber > 0 {
        var i := 0;
        while i < |area.netItems|
          invariant 0 <= i <= |area.netItems|
          invariant ret == if NetItemOf(area.netItems[..i], ipid).Some? then 0 else -1
          invariant if ret == 0 then HasAddress(NetItemOf(area.netItems[..i], ipid).value, machineNumber)
                    else ipAddress == old(ipAddress) && gateWay == old(gateWay) && netMask == old(netMask)
        {
          assert area.netItems[..i + 1][..i] == area.netItems[..i];
          if ipid == area.netItems[i].ipid {
            ret := 0;
            SetAddress(area.netItems[i], machineNumber);
          }
          i := i + 1;
        }
        assert area.netItems[..i] == area.netItems;
        if ret == 0 {
          AddressSpelledOut(NetItemOf(area.netItems, ipid).value, machineNumber);
        }
      }
    }

    /** Address, gateway and mask of the record, spelled out. */
    predicate Addressed(item: NetItem, machineNumber: int)
      reads this
    {
      AddressOf(item.netStart, machineNumber, ipAddress) && gateWay == item.netGW && MaskOf(item, netMask)
    }

    predicate HasAddress(item: NetItem, machineNumber: int)
      reads this
    {
      ipAddress == AddressFor(item.netStart, machineNumber) && gateWay == item.netGW && netMask == MaskFor(item)
    }

    method SetAddress(item: NetItem, machineNumber: int)
      modifies this`ipAddress, this`gateWay, this`netMask
      ensures HasAddress(item, machineNumber) && (machineNumber > 0 ==> Addressed(item, machineNumber))
    {
      if machineNumber > 0 {
        AddressSpelledOut(item, machineNumber);
      }
      var h8: int := Cast((machineNumber + item.netStart[3]) / 255);
      var l8 := if h8 == 0 then Cast(machineNumber + item.netStart[3])
                else Cast((machineNumber + item.netStart[3]) % 255 + h8 * 1);
      if l8 % 255 == 0 {
        l8 := 1;
      }
      ipAddress := ipAddress[0 := item.netStart[0]];
      ipAddress := ipAddress[1 := item.netStart[1]];
      ipAddress := ipAddress[2 := Cast(item.netStart[2] + h8)];
      ipAddress := ipAddress[3 := l8];
      gateWay := item.netGW;
      SetMask(item);
    }

    method SetMask(item: NetItem)
      modifies this`netMask
      ensures netMask == MaskFor(item)
    {
      netMask := netMask[3 := 0];
      var j := 2;
      while j >= 0
        invariant -1 <= j <= 2
        invariant netMask[3] == 0
        invariant forall k :: j < k < 3 ==> netMask[k] == MaskFor(item)[k]
      {
        if item.netStart[j] != item.netEnd[j] {
          netMask := netMask[j := Complement(item.netEnd[j])];
        } else {
          netMask := netMask[j := 255];
        }
        j := j - 1;
      }
    }

    /** initMachineInfo. A rejected code returns 0 and leaves the record alone. */
    method InitMachineInfo(machineCode: nat, area: Area) returns (machineNumber: int)
      requires Searchable(area, ParseMachineCode(machineCode))
      modifies this
      ensures var f := ParseMachineCode(machineCode);
        if !Accepts(area, f) then machineNumber == 0 && unchanged(this)
        else
          && this.machineCode == machineCode
          && (if IsLocalType(f.machine) then
                var t := TallyBuilds(Tally(0, old(number), old(index)), area.builds, 0, f, ipid);
                ipid == NetworkOf(area.builds, 0, f, old(ipid))
                && machineNumber == t.machineNumber && number == Cast(t.number) && index == Cast(t.index)
              else
                ipid == GroupOf(area, f.machine).ipid
                && number == Cast(GroupCount(GroupOf(area, f.machine))) && index == f.sub
                && machineNumber == Total(BuildBlocks(area.builds, ipid)) + GroupsBefore(area, f.machine) + f.sub)
          && (machineNumber > 0 && NetItemOf(area.netItems, ipid).Some? ==>
                HasAddress(NetItemOf(area.netItems, ipid).value, machineNumber)
                && Addressed(NetItemOf(area.netItems, ipid).value, machineNumber))
          && (machineNumber <= 0 || NetItemOf(area.netItems, ipid).None? ==>
                ipAddress == old(ipAddress) && gateWay == old(gateWay) && netMask == old(netMask))
    {
      hide TallyBuilds, BuildBlocks, Total, NetworkOf, AddressFor, MaskFor, NetItemOf;
      var f := ParseMachineCode(machineCode);
      machineNumber := 0;
      var ok := Check(area, f);
      if !ok {
        return 0;
      }
      this.machineCode := machineCode;
      if f.machine == GUARD_TYPE || f.machine == AREA_DOOR_TYPE || f.machine == MANAGER_TYPE {
        var g := if f.machine == GUARD_TYPE then area.guard
                 else if f.machine == AREA_DOOR_TYPE then area.areaGate else area.manage;
        ipid := g.ipid;
        number := Cast(g.indexEnd - g.indexBegin + 1);
        index := f.sub;
        machineNumber := CountNetwork(area.builds, ipid);
        if f.machine == GUARD_TYPE {
          machineNumber := machineNumber + area.manage.indexEnd - area.manage.indexBegin + 1
                           + area.areaGate.indexEnd - area.areaGate.indexBegin + 1 + f.sub;
        } else if f.machine == AREA_DOOR_TYPE {
          machineNumber := machineNumber + area.manage.indexEnd - area.manage.indexBegin + 1 + f.sub;
        } else {
          machineNumber := machineNumber + f.sub;
        }
      } else {
        SetNetwork(area, f);
        machineNumber := NumberDevice(area, f);
      }
      var _ := CalculationIP(area, machineNumber, ipid);
    }

    /** The switch on the device type that validates the parameters. */
    method Check(area: Area, f: Fields) returns (ok: bool)
      requires Searchable(area, f)
      ensures ok == Accepts(area, f)
    {
      if f.machine == ROOM_TYPE || f.machine == CELL_DOOR_TYPE || f.machine == HOUSE_DOOR_TYPE {
        var i := 0;
        var build := area.builds[0];
        while i < |area.builds|
          invariant 0 <= i <= |area.builds|
          invariant i < |area.builds| ==> FindBuild(area.builds, 0, f) == FindBuild(area.builds, i, f)
          invariant i == |area.builds| ==> build == area.builds[FindBuild(area.builds, 0, f)]
        {
          build := area.builds[i];
          if f.build > build.buildEnd {
          } else if f.build >= build.buildBegin && f.area <= build.buildEnd {
            break;
          } else if f.build < build.buildBegin {
            break;
          }
          i := i + 1;
        }
        if f.build < build.buildBegin || f.build > build.buildEnd {
          return false;
        }
        i := 0;
        var cell := build.cells[0];
        while i < |build.cells|
          invariant 0 <= i <= |build.cells|
          invariant i < |build.cells| ==> FindCell(build.cells, 0, f) == FindCell(build.cells, i, f)
          invariant i == |build.cells| ==> cell == build.cells[FindCell(build.cells, 0, f)]
        {
          cell := build.cells[i];
          if f.cell > cell.cellEnd {
          } else if f.cell >= cell.cellBegin && f.cell <= cell.cellEnd {
            break;
          } else if f.cell < cell.cellBegin {
            break;
          }
          i := i + 1;
        }
        if f.cell < cell.cellBegin || f.cell > cell.cellEnd {
          return false;
        }
        if f.machine == CELL_DOOR_TYPE {
          if f.sub > cell.outDoorCount || f.sub < 1 {
            return false;
          }
        } else if f.machine == HOUSE_DOOR_TYPE {
          if f.floor < cell.floorBegin || f.floor > cell.floorEnd {
            return false;
          }
          if f.door < cell.roomBegin || f.door > cell.roomEnd {
            return false;
          }
          if f.sub > cell.secondOutDoorCount || f.sub < 1 {
            return false;
          }
        } else {
          if f.floor < cell.floorBegin || f.floor > cell.floorEnd {
            return false;
          }
          if f.door < cell.roomBegin || f.door > cell.roomEnd {
            return false;
          }
          if f.sub < 1 || f.sub > cell.inDoorCount {
            return false;
          }
        }
        return true;
      } else if f.machine == GUARD_TYPE {
        return !(f.sub < area.guard.indexBegin || f.sub > area.guard.indexEnd);
      } else if f.machine == AREA_DOOR_TYPE {
        return !(f.sub < area.areaGate.indexBegin || f.sub > area.areaGate.indexEnd);
      } else if f.machine == MANAGER_TYPE {
        return !(f.sub < area.manage.indexBegin || f.sub > area.manage.indexEnd);
      }
      return false;
    }

    method SetNetwork(area: Area, f: Fields)
      modifies this`ipid
      ensures ipid == NetworkOf(area.builds, 0, f, old(ipid))
    {
      var i := 0;
      while i < |area.builds|
        invariant 0 <= i <= |area.builds|
        invariant ipid == old(ipid)
        invariant NetworkOf(area.builds, 0, f, old(ipid)) == NetworkOf(area.builds, i, f, old(ipid))
      {
        var build := area.builds[i];
        if f.build > build.buildEnd {
        } else if f.build >= build.buildBegin && f.area <= build.buildEnd {
          ipid := build.ipid;
          break;
        }
        i := i + 1;
      }
    }

    /** The nested loops that add up the devices in front of this one. */
    method NumberDevice(area: Area, f: Fields) returns (machineNumber: int)
      requires IsLocalType(f.machine)
      modifies this`number, this`index
      ensures var t := TallyBuilds(Tally(0, old(number), old(index)), area.builds, 0, f, ipid);
        machineNumber == t.machineNumber && number == Cast(t.number) && index == Cast(t.index)
    {
      machineNumber := 0;
      ghost var t := Tally(0, number, index);
      var i := 0;
      while i < |area.builds|
        invariant 0 <= i <= |area.builds|
        invariant t.machineNumber == machineNumber && number == Cast(t.number) && index == Cast(t.index)
        invariant TallyBuilds(Tally(0, old(number), old(index)), area.builds, 0, f, ipid)
                  == TallyBuilds(t, area.builds, i, f, ipid)
      {
        var build := area.builds[i];
        ghost var next := TallyBuild(t, build, f, ipid);
        if build.ipid == ipid {
          if f.build > build.buildEnd {
            var n := CalculationBuildMachineNumber(build);
            machineNumber := machineNumber + (build.buildEnd - build.buildBegin + 1) * n;
          } else if f.build >= build.buildBegin && f.area <= build.buildEnd {
            var n := CalculationBuildMachineNumber(build);
            machineNumber := machineNumber + (f.build - build.buildBegin) * n;
            machineNumber := NumberInBuild(build.cells, f, machineNumber, t);
          }
        }
        t := next;
        i := i + 1;
      }
    }

    /** The switch on the device type inside the cell that was found. */
    method PlaceDevice(cell: Cell, f: Fields) returns (place: int, number: byte)
      requires IsLocalType(f.machine)
      ensures place == PlaceInCell(cell, f) && number == Cast(CountInCell(cell, f))
    {
      if f.machine == ROOM_TYPE {
        place := cell.outDoorCount
          + (f.floor - cell.floorBegin) * (cell.roomEnd - cell.roomBegin + 1) * (cell.inDoorCount + cell.secondOutDoorCount)
          + (f.door - cell.roomBegin) * (cell.inDoorCount + cell.secondOutDoorCount)
          + cell.secondOutDoorCount + f.sub;
        number := cell.inDoorCount;
      } else if f.machine == CELL_DOOR_TYPE {
        place := f.sub;
        number := cell.outDoorCount;
      } else {
        place := cell.outDoorCount
          + (f.floor - cell.floorBegin) * (cell.roomEnd - cell.roomBegin + 1) * (cell.inDoorCount + cell.secondOutDoorCount)
          + (f.door - cell.roomBegin) * (cell.inDoorCount + cell.secondOutDoorCount) + f.sub;
        number := cell.secondOutDoorCount;
      }
    }

    method NumberInBuild(cells: seq<Cell>, f: Fields, start: int, ghost before: Tally) returns (machineNumber: int)
      requires IsLocalType(f.machine)
      requires number == Cast(before.number) && index == Cast(before.index)
      modifies this`number, this`index
      ensures var t := TallyCells(before.(machineNumber := start), cells, 0, f);
        machineNumber == t.machineNumber && number == Cast(t.number) && index == Cast(t.index)
    {
      hide CalculationCellMachineNumber, PlaceInCell;
      machineNumber := start;
      var j := 0;
      while j < |cells|
        invariant 0 <= j <= |cells|
        invariant number == old(number) && index == old(index)
        invariant TallyCells(before.(machineNumber := start), cells, 0, f)
                  == TallyCells(before.(machineNumber := machineNumber), cells, j, f)
      {
        var cell := cells[j];
        if f.cell > cell.cellEnd {
          machineNumber := machineNumber + (cell.cellEnd - cell.cellBegin + 1) * CalculationCellMachineNumber(cell);
        } else if f.cell >= cell.cellBegin && f.cell <= cell.cellEnd {
          machineNumber := machineNumber + (f.cell - cell.cellBegin) * CalculationCellMachineNumber(cell);
          var place;
          place, number := PlaceDevice(cell, f);
          machineNumber := machineNumber + place;
          index := Cast(f.sub);
          break;
        }
        j := j + 1;
      }
    }
  }
}
