/** Device numbering is a bijection between the devices of a network and 1..N. */
module AreaNumbering {
  import opened AreaBlocks
  import opened AreaModel

  // ---------- well-formed communities ----------

  ghost predicate WellFormedCells(cells: seq<Cell>)
  {
    && cells != []
    && (forall i :: 0 <= i < |cells| ==>
          cells[i].cellBegin <= cells[i].cellEnd && cells[i].floorBegin <= cells[i].floorEnd + 1
          && cells[i].roomBegin <= cells[i].roomEnd + 1)
    && forall i, j :: 0 <= i < j < |cells| ==> cells[i].cellEnd < cells[j].cellBegin
  }

  ghost predicate WellFormed(area: Area)
  {
    && area.builds != []
    && (forall i :: 0 <= i < |area.builds| ==>
          area.builds[i].buildBegin <= area.builds[i].buildEnd && WellFormedCells(area.builds[i].cells))
    && forall i, j :: 0 <= i < j < |area.builds| ==> area.builds[i].buildEnd < area.builds[j].buildBegin
  }

  /** The search compares the area number with the building ranges; below every range end it is harmless. */
  ghost predicate AreaIndexFits(area: Area, areaIndex: nat)
  {
    forall i :: 0 <= i < |area.builds| ==> areaIndex <= area.builds[i].buildEnd
  }

  /** Device f stands in building k, cell entry j. */
  ghost predicate Located(area: Area, f: Fields, k: nat, j: nat)
  {
    && IsLocalType(f.machine) && k < |area.builds| && j < |area.builds[k].cells|
    && area.builds[k].buildBegin <= f.build <= area.builds[k].buildEnd
    && FitsCell(area.builds[k].cells[j], f)
  }

  /** Cell doors are identified by building, cell and index only. */
  function Canonical(f: Fields): Fields
  {
    if f.machine == CELL_DOOR_TYPE then f.(floor := 0, door := 0) else f
  }

  // ---------- inside one cell ----------

  function Rooms(cell: Cell): int
  {
    cell.roomEnd - cell.roomBegin + 1
  }

  /** A cell as blocks: its doors, then one copy of the room equipment per room. */
  function CellPlan(cell: Cell): seq<Block>
  {
    [Block(1, cell.outDoorCount), Block((cell.floorEnd - cell.floorBegin + 1) * Rooms(cell), DevicesPerRoom(cell))]
  }

  function PlanSlot(cell: Cell, f: Fields): Slot
  {
    if f.machine == CELL_DOOR_TYPE then Slot(0, 0, f.sub)
    else Slot(1, (f.floor - cell.floorBegin) * Rooms(cell) + (f.door - cell.roomBegin),
              if f.machine == ROOM_TYPE then cell.secondOutDoorCount + f.sub else f.sub)
  }

  ghost predicate WellFormedCell(cell: Cell)
  {
    cell.cellBegin <= cell.cellEnd && cell.floorBegin <= cell.floorEnd + 1 && cell.roomBegin <= cell.roomEnd + 1
  }

  lemma PlanOfCell(cell: Cell)
    requires WellFormedCell(cell)
    ensures Countable(CellPlan(cell)) && Total(CellPlan(cell)) == CalculationCellMachineNumber(cell)
  {
    var plan := CellPlan(cell);
    assert plan[..1] == [plan[0]];
    TotalSingle(plan[0]);
    ProductMonotone(0, cell.floorEnd - cell.floorBegin + 1, Rooms(cell));
  }

  lemma TotalSingle(b: Block)
    ensures Total([b]) == b.count * b.size
  {
    assert [b][..0] == [];
  }

  lemma RoomIndex(floor: int, floors: int, door: int, rooms: int)
    requires 0 <= floor < floors && 0 <= door < rooms
    ensures 0 <= floor * rooms + door < floors * rooms
  {
    ProductMonotone(0, floor, rooms);
    ProductMonotone(floor + 1, floors, rooms);
  }

  lemma PlaceIsRank(cell: Cell, f: Fields)
    requires WellFormedCell(cell) && IsLocalType(f.machine) && FitsCell(cell, f)
    ensures HasSlot(CellPlan(cell), PlanSlot(cell, f))
    ensures PlaceInCell(cell, f) == Rank(CellPlan(cell), PlanSlot(cell, f))
    ensures 1 <= PlaceInCell(cell, f) <= CalculationCellMachineNumber(cell)
  {
    var plan := CellPlan(cell);
    PlanOfCell(cell);
    assert plan[..0] == [] && plan[..1] == [plan[0]] && plan[..1][..0] == [];
    if f.machine != CELL_DOOR_TYPE {
      var floor, door, rooms := f.floor - cell.floorBegin, f.door - cell.roomBegin, Rooms(cell);
      RoomIndex(floor, cell.floorEnd - cell.floorBegin + 1, door, rooms);
      Distribute(floor, rooms, door, DevicesPerRoom(cell));
    }
    RankInRange(plan, PlanSlot(cell, f));
  }

  lemma Distribute(a: int, b: int, c: int, d: int)
    ensures (a * b + c) * d == a * b * d + c * d
  {
  }

  /** The device at a slot of the plan of a cell; the remaining fields are taken from `base`. */
  function DeviceAtSlot(cell: Cell, s: Slot, base: Fields): (f: Fields)
    requires WellFormedCell(cell) && HasSlot(CellPlan(cell), s)
    ensures IsLocalType(f.machine) && f.build == base.build && f.cell == base.cell && f.area == base.area
    ensures f == Canonical(f)
  {
    if s.block == 0 then base.(machine := CELL_DOOR_TYPE, floor := 0, door := 0, sub := s.offset)
    else
      DivisionBounds(s.copy, Rooms(cell), cell.floorEnd - cell.floorBegin + 1);
      var f := base.(floor := cell.floorBegin + s.copy / Rooms(cell), door := cell.roomBegin + s.copy % Rooms(cell));
      if s.offset <= cell.secondOutDoorCount then f.(machine := HOUSE_DOOR_TYPE, sub := s.offset)
      else f.(machine := ROOM_TYPE, sub := s.offset - cell.secondOutDoorCount)
  }

  lemma DeviceAtSlotFits(cell: Cell, s: Slot, base: Fields)
    requires WellFormedCell(cell) && HasSlot(CellPlan(cell), s)
    ensures var f := DeviceAtSlot(cell, s, base);
      PlanSlot(cell, f) == s && FitsCell(cell, f.(cell := cell.cellBegin))
  {
    if s.block != 0 {
      DivisionBounds(s.copy, Rooms(cell), cell.floorEnd - cell.floorBegin + 1);
      QuotientRemainder(s.copy, Rooms(cell));
    }
  }

  lemma QuotientRemainder(m: int, d: int)
    requires d > 0
    ensures m == m / d * d + m % d
  {
  }

  function DeviceInCell(cell: Cell, place: int, base: Fields): (f: Fields)
    requires WellFormedCell(cell) && 1 <= place <= CalculationCellMachineNumber(cell)
    ensures IsLocalType(f.machine) && f.build == base.build && f.cell == base.cell && f.area == base.area
    ensures f == Canonical(f)
  {
    PlanOfCell(cell);
    DeviceAtSlot(cell, Unrank(CellPlan(cell), place), base)
  }

  /** Two devices of a cell with the same slot are the same device. */
  lemma SlotIdentifies(cell: Cell, f: Fields, g: Fields)
    requires WellFormedCell(cell) && IsLocalType(f.machine) && IsLocalType(g.machine)
    requires FitsCell(cell, f) && FitsCell(cell, g) && PlanSlot(cell, f) == PlanSlot(cell, g)
    ensures f.machine == g.machine && f.sub == g.sub
    ensures f.machine != CELL_DOOR_TYPE ==> f.floor == g.floor && f.door == g.door
  {
    if f.machine != CELL_DOOR_TYPE {
      var rooms := Rooms(cell);
      var m := PlanSlot(cell, f).copy;
      DivisionUnique(m, rooms, f.floor - cell.floorBegin, f.door - cell.roomBegin);
      DivisionUnique(m, rooms, g.floor - cell.floorBegin, g.door - cell.roomBegin);
    }
  }

  // ---------- the whole community ----------

  lemma CellBlocksCountable(cells: seq<Cell>)
    requires WellFormedCells(cells)
    ensures Countable(CellBlocks(cells))
  {
    forall i | 0 <= i < |cells| ensures 0 <= CellBlocks(cells)[i].count && 0 <= CellBlocks(cells)[i].size {
      PlanOfCell(cells[i]);
      TotalNonNegative(CellPlan(cells[i]));
    }
  }

  lemma BuildBlocksCountable(area: Area, ipid: int)
    requires WellFormed(area)
    ensures Countable(BuildBlocks(area.builds, ipid))
  {
    forall i | 0 <= i < |area.builds|
      ensures 0 <= BuildBlocks(area.builds, ipid)[i].count && 0 <= BuildBlocks(area.builds, ipid)[i].size
    {
      CellBlocksCountable(area.builds[i].cells);
      TotalNonNegative(CellBlocks(area.builds[i].cells));
    }
  }

  ghost function CellSlot(area: Area, f: Fields, k: nat, j: nat): Slot
    requires Located(area, f, k, j)
  {
    var cell := area.builds[k].cells[j];
    Slot(j, f.cell - cell.cellBegin, PlaceInCell(cell, f))
  }

  ghost function BuildSlot(area: Area, f: Fields, k: nat, j: nat): Slot
    requires Located(area, f, k, j)
  {
    Slot(k, f.build - area.builds[k].buildBegin, Rank(CellBlocks(area.builds[k].cells), CellSlot(area, f, k, j)))
  }

  /** The position of a device among all devices of its network, by the two-level mixed-radix count. */
  ghost function Ordinal(area: Area, f: Fields, k: nat, j: nat): int
    requires Located(area, f, k, j)
  {
    Rank(BuildBlocks(area.builds, area.builds[k].ipid), BuildSlot(area, f, k, j))
  }

  lemma LocatedSlots(area: Area, f: Fields, k: nat, j: nat)
    requires WellFormed(area) && Located(area, f, k, j)
    ensures HasSlot(CellBlocks(area.builds[k].cells), CellSlot(area, f, k, j))
    ensures HasSlot(BuildBlocks(area.builds, area.builds[k].ipid), BuildSlot(area, f, k, j))
  {
    PlaceIsRank(area.builds[k].cells[j], f);
    CellBlocksCountable(area.builds[k].cells);
    RankInRange(CellBlocks(area.builds[k].cells), CellSlot(area, f, k, j));
  }

  // ---------- the searches of the code find the location ----------

  lemma {:induction false} FindBuildHits(builds: seq<Build>, i: nat, f: Fields, k: nat)
    requires i <= k < |builds|
    requires forall m, n :: 0 <= m < n < |builds| ==> builds[m].buildEnd < builds[n].buildBegin
    requires builds[k].buildBegin <= f.build <= builds[k].buildEnd && f.area <= builds[k].buildEnd
    ensures FindBuild(builds, i, f) == k
    decreases k - i
  {
    if i < k {
      FindBuildHits(builds, i + 1, f, k);
    }
  }

  lemma {:induction false} FindCellHits(cells: seq<Cell>, i: nat, f: Fields, j: nat)
    requires i <= j < |cells|
    requires forall m, n :: 0 <= m < n < |cells| ==> cells[m].cellEnd < cells[n].cellBegin
    requires cells[j].cellBegin <= f.cell <= cells[j].cellEnd
    ensures FindCell(cells, i, f) == j
    decreases j - i
  {
    if i < j {
      FindCellHits(cells, i + 1, f, j);
    }
  }

  lemma {:induction false} NetworkHits(builds: seq<Build>, i: nat, f: Fields, k: nat, before: int)
    requires i <= k < |builds|
    requires forall m, n :: 0 <= m < n < |builds| ==> builds[m].buildEnd < builds[n].buildBegin
    requires builds[k].buildBegin <= f.build <= builds[k].buildEnd && f.area <= builds[k].buildEnd
    ensures NetworkOf(builds, i, f, before) == builds[k].ipid
    decreases k - i
  {
    if i < k {
      NetworkHits(builds, i + 1, f, k, before);
    }
  }

  lemma AcceptedIsLocated(area: Area, f: Fields) returns (k: nat, j: nat)
    requires WellFormed(area) && IsLocalType(f.machine) && Accepts(area, f)
    ensures Located(area, f, k, j) && k == FindBuild(area.builds, 0, f)
  {
    k := FindBuild(area.builds, 0, f);
    j := FindCell(area.builds[k].cells, 0, f);
  }

  lemma LocatedIsAccepted(area: Area, f: Fields, k: nat, j: nat)
    requires WellFormed(area) && Located(area, f, k, j) && f.area <= area.builds[k].buildEnd
    ensures Accepts(area, f) && NetworkOf(area.builds, 0, f, 0) == area.builds[k].ipid
    ensures forall before :: NetworkOf(area.builds, 0, f, before) == area.builds[k].ipid
  {
    FindBuildHits(area.builds, 0, f, k);
    FindCellHits(area.builds[k].cells, 0, f, j);
    forall before ensures NetworkOf(area.builds, 0, f, before) == area.builds[k].ipid {
      NetworkHits(area.builds, 0, f, k, before);
    }
  }

  // ---------- the loops of the code compute the ordinal ----------

  lemma {:induction false} TallyCellsIsRank(t: Tally, cells: seq<Cell>, i: nat, f: Fields, j: nat)
    requires WellFormedCells(cells) && i <= j < |cells| && IsLocalType(f.machine) && FitsCell(cells[j], f)
    ensures TallyCells(t, cells, i, f)
            == Tally(t.machineNumber - Total(CellBlocks(cells)[..i])
                     + Rank(CellBlocks(cells), Slot(j, f.cell - cells[j].cellBegin, PlaceInCell(cells[j], f))),
                     CountInCell(cells[j], f), f.sub)
    decreases j - i
  {
    var bs := CellBlocks(cells);
    if i < j {
      CellBlocksCountable(cells);
      TotalSplit(bs, i);
      TallyCellsIsRank(t.(machineNumber := t.machineNumber
                          + (cells[i].cellEnd - cells[i].cellBegin + 1) * CalculationCellMachineNumber(cells[i])),
                       cells, i + 1, f, j);
    }
  }

  lemma {:induction false} TallyPastHit(t: Tally, builds: seq<Build>, i: nat, f: Fields, ipid: int)
    requires i <= |builds| && forall m :: i <= m < |builds| ==> f.build < builds[m].buildBegin <= builds[m].buildEnd
    ensures TallyBuilds(t, builds, i, f, ipid) == t
    decreases |builds| - i
  {
    if i < |builds| {
      TallyPastHit(t, builds, i + 1, f, ipid);
    }
  }

  /** Before the building of the device is reached, the loop adds the whole block of each building of the network. */
  lemma {:induction false} TallyBeforeHit(t: Tally, builds: seq<Build>, i: nat, f: Fields, k: nat, ipid: int)
    requires i <= k < |builds| && forall m :: i <= m < k ==> builds[m].buildEnd < f.build
    ensures var bs := BuildBlocks(builds, ipid);
      TallyBuilds(t, builds, i, f, ipid)
      == TallyBuilds(t.(machineNumber := t.machineNumber + Total(bs[..k]) - Total(bs[..i])), builds, k, f, ipid)
    decreases k - i
  {
    if i < k {
      var bs := BuildBlocks(builds, ipid);
      assert bs[..i + 1][..i] == bs[..i];
      BuildProduct(builds, ipid, i);
      TallyBeforeHit(TallyBuild(t, builds[i], f, ipid), builds, i + 1, f, k, ipid);
    }
  }

  /** Devices of the network in front of the copy of building k that f names. */
  ghost function BuildOffset(builds: seq<Build>, f: Fields, k: nat): int
    requires k < |builds|
  {
    Total(BuildBlocks(builds, builds[k].ipid)[..k]) + (f.build - builds[k].buildBegin) * Total(CellBlocks(builds[k].cells))
  }

  lemma TallyThrough(t: Tally, builds: seq<Build>, f: Fields, k: nat)
    requires k < |builds| && builds[k].buildBegin <= f.build <= builds[k].buildEnd && f.area <= builds[k].buildEnd
    requires forall m :: 0 <= m < k ==> builds[m].buildEnd < f.build
    requires forall m :: k < m < |builds| ==> f.build < builds[m].buildBegin <= builds[m].buildEnd
    ensures TallyBuilds(t, builds, 0, f, builds[k].ipid)
            == TallyCells(t.(machineNumber := t.machineNumber + BuildOffset(builds, f, k)), builds[k].cells, 0, f)
  {
    hide TallyBuilds, TallyBuild, TallyCells, Total, BuildBlocks, CellBlocks;
    var ipid := builds[k].ipid;
    var bs := BuildBlocks(builds, ipid);
    TallyBeforeHit(t, builds, 0, f, k, ipid);
    EmptyTotal(bs);
    var t1 := t.(machineNumber := t.machineNumber + Total(bs[..k]));
    assert t1 == t.(machineNumber := t.machineNumber + Total(bs[..k]) - Total(bs[..0]));
    TallyStep(t1, builds, k, f, ipid);
    TallyHit(t1, builds[k], f);
    var inside := (f.build - builds[k].buildBegin) * Total(CellBlocks(builds[k].cells));
    assert t1.(machineNumber := t1.machineNumber + inside) == t.(machineNumber := t.machineNumber + BuildOffset(builds, f, k));
    TallyPastHit(TallyBuild(t1, builds[k], f, ipid), builds, k + 1, f, ipid);
  }

  lemma EmptyTotal(bs: seq<Block>)
    ensures Total(bs[..0]) == 0
  {
  }

  lemma TallyStep(t: Tally, builds: seq<Build>, i: nat, f: Fields, ipid: int)
    requires i < |builds|
    ensures TallyBuilds(t, builds, i, f, ipid) == TallyBuilds(TallyBuild(t, builds[i], f, ipid), builds, i + 1, f, ipid)
  {
  }

  lemma TallyHit(t: Tally, build: Build, f: Fields)
    requires build.buildBegin <= f.build <= build.buildEnd && f.area <= build.buildEnd
    ensures TallyBuild(t, build, f, build.ipid)
            == TallyCells(t.(machineNumber := t.machineNumber + (f.build - build.buildBegin) * Total(CellBlocks(build.cells))),
                          build.cells, 0, f)
  {
    hide TallyCells, Total;
  }

  lemma BuildSize(builds: seq<Build>, k: nat)
    requires k < |builds|
    ensures BuildBlocks(builds, builds[k].ipid)[k].size == Total(CellBlocks(builds[k].cells))
  {
  }

  lemma TallyIsOrdinal(t: Tally, area: Area, f: Fields, k: nat, j: nat)
    requires WellFormed(area) && Located(area, f, k, j) && f.area <= area.builds[k].buildEnd
    ensures TallyBuilds(t, area.builds, 0, f, area.builds[k].ipid)
            == Tally(t.machineNumber + Ordinal(area, f, k, j), CountInCell(area.builds[k].cells[j], f), f.sub)
  {
    hide CalculationCellMachineNumber, PlaceInCell, TallyCells, TallyBuilds, BuildBlocks;
    var build := area.builds[k];
    TallyThrough(t, area.builds, f, k);
    assert CellBlocks(build.cells)[..0] == [];
    TallyCellsIsRank(t.(machineNumber := t.machineNumber + BuildOffset(area.builds, f, k)), build.cells, 0, f, j);
    assert BuildBlocks(area.builds, build.ipid)[k].size == Total(CellBlocks(build.cells)) by {
      BuildSize(area.builds, k);
    }
  }

  // ---------- the bijection ----------

  /** Number of devices of a network: building counts times building totals. */
  ghost function NetworkSize(area: Area, ipid: int): int
  {
    Total(BuildBlocks(area.builds, ipid))
  }

  /** The number initMachineInfo gives to a local device. */
  ghost function NumberOf(area: Area, f: Fields): int
  {
    TallyBuilds(Tally(0, 0, 0), area.builds, 0, f, NetworkOf(area.builds, 0, f, 0)).machineNumber
  }

  /** The device that carries number n on a network. */
  ghost function DeviceAt(area: Area, ipid: int, areaIndex: nat, n: int): (f: Fields)
    requires WellFormed(area) && 1 <= n <= NetworkSize(area, ipid)
  {
    BuildBlocksCountable(area, ipid);
    var s := Unrank(BuildBlocks(area.builds, ipid), n);
    var build := area.builds[s.block];
    CellBlocksCountable(build.cells);
    var r := Unrank(CellBlocks(build.cells), s.offset);
    var cell := build.cells[r.block];
    DeviceInCell(cell, r.offset, Fields(0, 0, 0, 0, cell.cellBegin + r.copy, build.buildBegin + s.copy, areaIndex))
  }

  lemma CellRoundTrip(cell: Cell, f: Fields, base: Fields)
    requires WellFormedCell(cell) && IsLocalType(f.machine) && FitsCell(cell, f)
    requires f.cell == base.cell && f.build == base.build && f.area == base.area
    ensures 1 <= PlaceInCell(cell, f) <= CalculationCellMachineNumber(cell)
    ensures DeviceInCell(cell, PlaceInCell(cell, f), base) == Canonical(f)
  {
    PlaceIsRank(cell, f);
    PlanOfCell(cell);
    UnrankRank(CellPlan(cell), PlanSlot(cell, f));
    var g := DeviceInCell(cell, PlaceInCell(cell, f), base);
    DeviceAtSlotFits(cell, PlanSlot(cell, f), base);
    SlotIdentifies(cell, f.(cell := cell.cellBegin), g.(cell := cell.cellBegin));
  }

  lemma OrdinalThenDevice(area: Area, f: Fields, k: nat, j: nat)
    requires WellFormed(area) && Located(area, f, k, j)
    ensures 1 <= Ordinal(area, f, k, j) <= NetworkSize(area, area.builds[k].ipid)
    ensures DeviceAt(area, area.builds[k].ipid, f.area, Ordinal(area, f, k, j)) == Canonical(f)
  {
    LocatedSlots(area, f, k, j);
    var ipid := area.builds[k].ipid;
    BuildBlocksCountable(area, ipid);
    UnrankRank(BuildBlocks(area.builds, ipid), BuildSlot(area, f, k, j));
    CellBlocksCountable(area.builds[k].cells);
    UnrankRank(CellBlocks(area.builds[k].cells), CellSlot(area, f, k, j));
    CellRoundTrip(area.builds[k].cells[j], f, Fields(0, 0, 0, 0, f.cell, f.build, f.area));
  }

  /** Every accepted device has a number in 1..N, and the number determines the device. */
  lemma NumberThenDevice(area: Area, f: Fields)
    requires WellFormed(area) && AreaIndexFits(area, f.area) && IsLocalType(f.machine) && Accepts(area, f)
    ensures var ipid := NetworkOf(area.builds, 0, f, 0);
      1 <= NumberOf(area, f) <= NetworkSize(area, ipid)
      && DeviceAt(area, ipid, f.area, NumberOf(area, f)) == Canonical(f)
  {
    var k, j := AcceptedIsLocated(area, f);
    LocatedNumber(area, f, k, j);
    OrdinalThenDevice(area, f, k, j);
  }

  lemma LocatedNumber(area: Area, f: Fields, k: nat, j: nat)
    requires WellFormed(area) && Located(area, f, k, j) && f.area <= area.builds[k].buildEnd
    ensures NetworkOf(area.builds, 0, f, 0) == area.builds[k].ipid && NumberOf(area, f) == Ordinal(area, f, k, j)
  {
    NetworkHits(area.builds, 0, f, k, 0);
    TallyIsOrdinal(Tally(0, 0, 0), area, f, k, j);
  }

  lemma DeviceThenOrdinal(area: Area, ipid: int, areaIndex: nat, n: int) returns (k: nat, j: nat)
    requires WellFormed(area) && 1 <= n <= NetworkSize(area, ipid)
    ensures var f := DeviceAt(area, ipid, areaIndex, n);
      f.area == areaIndex && f == Canonical(f) && Located(area, f, k, j)
      && area.builds[k].ipid == ipid && Ordinal(area, f, k, j) == n
  {
    hide CalculationCellMachineNumber, PlaceInCell, DeviceInCell, Unrank, Total;
    var f := DeviceAt(area, ipid, areaIndex, n);
    BuildBlocksCountable(area, ipid);
    var s := Unrank(BuildBlocks(area.builds, ipid), n);
    RankUnrank(BuildBlocks(area.builds, ipid), n);
    k := s.block;
    var cells := area.builds[k].cells;
    CellBlocksCountable(cells);
    var r := Unrank(CellBlocks(cells), s.offset);
    RankUnrank(CellBlocks(cells), s.offset);
    j := r.block;
    PlaceOfDevice(cells[j], r.offset, Fields(0, 0, 0, 0, cells[j].cellBegin + r.copy, area.builds[k].buildBegin + s.copy, areaIndex));
  }

  lemma PlaceOfDevice(cell: Cell, place: int, base: Fields)
    requires WellFormedCell(cell) && 1 <= place <= CalculationCellMachineNumber(cell)
    requires cell.cellBegin <= base.cell <= cell.cellEnd
    ensures var f := DeviceInCell(cell, place, base);
      FitsCell(cell, f) && PlaceInCell(cell, f) == place && f == Canonical(f)
  {
    PlanOfCell(cell);
    RankUnrank(CellPlan(cell), place);
    DeviceAtSlotFits(cell, Unrank(CellPlan(cell), place), base);
    PlaceIsRank(cell, DeviceInCell(cell, place, base));
  }

  /** Every number in 1..N is the number of an accepted device of the network. */
  lemma DeviceThenNumber(area: Area, ipid: int, areaIndex: nat, n: int)
    requires WellFormed(area) && AreaIndexFits(area, areaIndex) && 1 <= n <= NetworkSize(area, ipid)
    ensures var f := DeviceAt(area, ipid, areaIndex, n);
      f.area == areaIndex && f == Canonical(f) && IsLocalType(f.machine) && Accepts(area, f)
      && NetworkOf(area.builds, 0, f, 0) == ipid && NumberOf(area, f) == n
  {
    var f := DeviceAt(area, ipid, areaIndex, n);
    var k, j := DeviceThenOrdinal(area, ipid, areaIndex, n);
    LocatedIsAccepted(area, f, k, j);
    LocatedNumber(area, f, k, j);
  }

  /** What the area number does to a device that exists: it is numbered on its own network exactly when the area
      number does not exceed the end of the building's range, the comparison the search makes. */
  lemma AreaIndexCondition(area: Area, f: Fields, k: nat, j: nat, before: int)
    requires WellFormed(area) && Located(area, f, k, j)
    ensures (Accepts(area, f) && NetworkOf(area.builds, 0, f, before) == area.builds[k].ipid
             && TallyBuilds(Tally(0, 0, 0), area.builds, 0, f, area.builds[k].ipid).machineNumber == Ordinal(area, f, k, j))
            <==> f.area <= area.builds[k].buildEnd
  {
    if f.area <= area.builds[k].buildEnd {
      LocatedIsAccepted(area, f, k, j);
      TallyIsOrdinal(Tally(0, 0, 0), area, f, k, j);
    } else {
      AreaIndexTooLarge(area, f, k, j);
    }
  }

  /** The building is skipped, so only the blocks in front of it are counted. */
  lemma AreaIndexTooLarge(area: Area, f: Fields, k: nat, j: nat)
    requires WellFormed(area) && Located(area, f, k, j) && f.area > area.builds[k].buildEnd
    ensures TallyBuilds(Tally(0, 0, 0), area.builds, 0, f, area.builds[k].ipid).machineNumber < Ordinal(area, f, k, j)
  {
    var ipid := area.builds[k].ipid;
    TallySkips(area.builds, f, k, ipid);
    LocatedSlots(area, f, k, j);
    BuildBlocksCountable(area, ipid);
    RankInRange(BuildBlocks(area.builds, ipid), BuildSlot(area, f, k, j));
  }

  lemma TallySkips(builds: seq<Build>, f: Fields, k: nat, ipid: int)
    requires k < |builds| && f.build <= builds[k].buildEnd < f.area
    requires forall m :: 0 <= m < k ==> builds[m].buildEnd < f.build
    requires forall m :: k < m < |builds| ==> f.build < builds[m].buildBegin <= builds[m].buildEnd
    ensures TallyBuilds(Tally(0, 0, 0), builds, 0, f, ipid).machineNumber == Total(BuildBlocks(builds, ipid)[..k])
  {
    var bs := BuildBlocks(builds, ipid);
    TallyBeforeHit(Tally(0, 0, 0), builds, 0, f, k, ipid);
    assert bs[..0] == [];
    var t := Tally(Total(bs[..k]), 0, 0);
    assert TallyBuild(t, builds[k], f, ipid) == t;
    TallyPastHit(t, builds, k + 1, f, ipid);
  }
}
