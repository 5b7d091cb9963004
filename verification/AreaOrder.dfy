/** The order in which the devices of a network are numbered. */
module AreaOrder {
  import opened AreaBlocks
  import opened AreaModel
  import opened AreaNumbering

  /** Within one cell: the doors of the cell first, then floor by floor and room by room, and in a room the confirmation
      doors in front of the indoor stations; devices of one kind by index. */
  predicate BeforeInCell(f: Fields, g: Fields)
  {
    if f.machine == CELL_DOOR_TYPE || g.machine == CELL_DOOR_TYPE then
      f.machine == CELL_DOOR_TYPE && (g.machine != CELL_DOOR_TYPE || f.sub < g.sub)
    else if f.floor != g.floor then f.floor < g.floor
    else if f.door != g.door then f.door < g.door
    else if f.machine != g.machine then f.machine == HOUSE_DOOR_TYPE
    else f.sub < g.sub
  }

  /** Building by building, and in a building cell by cell. */
  predicate Before(f: Fields, g: Fields)
  {
    if f.build != g.build then f.build < g.build
    else if f.cell != g.cell then f.cell < g.cell
    else BeforeInCell(f, g)
  }

  // ---------- the order of slots ----------

  predicate SlotBefore(s: Slot, t: Slot)
  {
    if s.block != t.block then s.block < t.block
    else if s.copy != t.copy then s.copy < t.copy
    else s.offset < t.offset
  }

  lemma {:induction false} TotalGrows(bs: seq<Block>, i: nat, j: nat)
    requires Countable(bs) && i <= j <= |bs|
    ensures Total(bs[..i]) <= Total(bs[..j])
    decreases j - i
  {
    if i < j {
      TotalSplit(bs, i);
      assert 0 <= bs[i].count * bs[i].size by { ProductMonotone(0, bs[i].count, bs[i].size); }
      TotalGrows(bs, i + 1, j);
    }
  }

  lemma RankGrows(bs: seq<Block>, s: Slot, t: Slot)
    requires Countable(bs) && HasSlot(bs, s) && HasSlot(bs, t) && SlotBefore(s, t)
    ensures Rank(bs, s) < Rank(bs, t)
  {
    hide Total;
    RankInRange(bs, s);
    RankInRange(bs, t);
    if s.block < t.block {
      TotalGrows(bs, s.block + 1, t.block);
    } else if s.copy < t.copy {
      var size := bs[s.block].size;
      ProductMonotone(s.copy + 1, t.copy, size);
      assert (s.copy + 1) * size == s.copy * size + size;
    }
  }

  // ---------- from the cell to the network ----------

  lemma PlaceGrows(cell: Cell, f: Fields, g: Fields)
    requires WellFormedCell(cell) && IsLocalType(f.machine) && IsLocalType(g.machine) && FitsCell(cell, f) && FitsCell(cell, g)
    requires BeforeInCell(f, g)
    ensures PlaceInCell(cell, f) < PlaceInCell(cell, g)
  {
    PlanOfCell(cell);
    PlaceIsRank(cell, f);
    PlaceIsRank(cell, g);
    if f.machine != CELL_DOOR_TYPE && f.floor < g.floor {
      ProductMonotone(f.floor - cell.floorBegin + 1, g.floor - cell.floorBegin, Rooms(cell));
      assert (f.floor - cell.floorBegin + 1) * Rooms(cell) == (f.floor - cell.floorBegin) * Rooms(cell) + Rooms(cell);
    }
    RankGrows(CellPlan(cell), PlanSlot(cell, f), PlanSlot(cell, g));
  }

  lemma CellsGrow(area: Area, f: Fields, g: Fields, k: nat, i: nat, j: nat)
    requires WellFormed(area) && Located(area, f, k, i) && Located(area, g, k, j)
    requires f.build == g.build && Before(f, g)
    ensures Rank(CellBlocks(area.builds[k].cells), CellSlot(area, f, k, i))
            < Rank(CellBlocks(area.builds[k].cells), CellSlot(area, g, k, j))
  {
    var cells := area.builds[k].cells;
    LocatedSlots(area, f, k, i);
    LocatedSlots(area, g, k, j);
    CellBlocksCountable(cells);
    assert forall x, y :: 0 <= x < y < |cells| ==> cells[x].cellEnd < cells[y].cellBegin;
    if i == j && f.cell == g.cell {
      PlaceGrows(cells[i], f, g);
    }
    RankGrows(CellBlocks(cells), CellSlot(area, f, k, i), CellSlot(area, g, k, j));
  }

  lemma OrdinalGrows(area: Area, f: Fields, g: Fields, k: nat, i: nat, m: nat, j: nat)
    requires WellFormed(area) && Located(area, f, k, i) && Located(area, g, m, j)
    requires area.builds[k].ipid == area.builds[m].ipid && Before(f, g)
    ensures Ordinal(area, f, k, i) < Ordinal(area, g, m, j)
  {
    hide Rank, CellBlocks, Total;
    LocatedSlots(area, f, k, i);
    LocatedSlots(area, g, m, j);
    BuildBlocksCountable(area, area.builds[k].ipid);
    assert forall x, y :: 0 <= x < y < |area.builds| ==> area.builds[x].buildEnd < area.builds[y].buildBegin;
    if k == m && f.build == g.build {
      CellsGrow(area, f, g, k, i, j);
    }
    RankGrows(BuildBlocks(area.builds, area.builds[k].ipid), BuildSlot(area, f, k, i), BuildSlot(area, g, m, j));
  }

  /** On a network the numbers of local devices follow this order: together with the numbers being 1, 2, ..., N this
      leaves no other numbering. */
  lemma NumberingOrder(area: Area, f: Fields, g: Fields)
    requires WellFormed(area) && AreaIndexFits(area, f.area) && AreaIndexFits(area, g.area)
    requires IsLocalType(f.machine) && IsLocalType(g.machine) && Accepts(area, f) && Accepts(area, g)
    requires NetworkOf(area.builds, 0, f, 0) == NetworkOf(area.builds, 0, g, 0)
    ensures NumberOf(area, f) < NumberOf(area, g) <==> Before(f, g)
  {
    var k, i := AcceptedIsLocated(area, f);
    var m, j := AcceptedIsLocated(area, g);
    LocatedNumber(area, f, k, i);
    LocatedNumber(area, g, m, j);
    if Before(f, g) {
      OrdinalGrows(area, f, g, k, i, m, j);
    } else if Before(g, f) {
      OrdinalGrows(area, g, f, m, j, k, i);
    } else {
      SameOrdinal(area, f, g, k, i, m, j);
    }
  }

  lemma SameCell(area: Area, f: Fields, g: Fields, k: nat, i: nat, m: nat, j: nat)
    requires WellFormed(area) && Located(area, f, k, i) && Located(area, g, m, j)
    requires f.build == g.build && f.cell == g.cell
    ensures k == m && i == j
  {
    assert forall x, y :: 0 <= x < y < |area.builds| ==> area.builds[x].buildEnd < area.builds[y].buildBegin;
    var cells := area.builds[k].cells;
    assert forall x, y :: 0 <= x < y < |cells| ==> cells[x].cellEnd < cells[y].cellBegin;
  }

  lemma SamePlace(cell: Cell, f: Fields, g: Fields)
    requires IsLocalType(f.machine) && IsLocalType(g.machine) && FitsCell(cell, f) && FitsCell(cell, g)
    requires !BeforeInCell(f, g) && !BeforeInCell(g, f)
    ensures PlaceInCell(cell, f) == PlaceInCell(cell, g)
  {
  }

  lemma SameOrdinal(area: Area, f: Fields, g: Fields, k: nat, i: nat, m: nat, j: nat)
    requires WellFormed(area) && Located(area, f, k, i) && Located(area, g, m, j) && !Before(f, g) && !Before(g, f)
    ensures Ordinal(area, f, k, i) == Ordinal(area, g, m, j)
  {
    hide WellFormed, Rank, Total, CellBlocks, BuildBlocks, PlaceInCell, BeforeInCell;
    SameCell(area, f, g, k, i, m, j);
    SamePlace(area.builds[k].cells[i], f, g);
    assert CellSlot(area, f, k, i) == CellSlot(area, g, m, j);
  }

  // ---------- what else the record says ----------

  /** An accepted local device has index `sub`, and its siblings, that is the devices that differ in the index only, are
      those with the indexes from 1 to the count of the record. */
  lemma SiblingsCounted(area: Area, f: Fields, k: nat, j: nat, s: nat)
    requires WellFormed(area) && Located(area, f, k, j) && f.area <= area.builds[k].buildEnd
    ensures TallyBuilds(Tally(0, 0, 0), area.builds, 0, f, area.builds[k].ipid).index == f.sub
    ensures Accepts(area, f.(sub := s))
            <==> 1 <= s <= TallyBuilds(Tally(0, 0, 0), area.builds, 0, f, area.builds[k].ipid).number
  {
    TallyIsOrdinal(Tally(0, 0, 0), area, f, k, j);
    FindBuildHits(area.builds, 0, f.(sub := s), k);
    FindCellHits(area.builds[k].cells, 0, f.(sub := s), j);
  }

  /** The fields of a machine code side by side: area 07, building 006, cell 005, floor 04, room 03, index 02, kind 1. */
  lemma CodeExample()
    ensures GenerateMachineCode(Fields(1, 2, 3, 4, 5, 6, 7)) == 0x07_006_005_04_03_02_1
  {
  }
}
