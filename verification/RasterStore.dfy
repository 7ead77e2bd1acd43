/** The raster kind's version slots: every captured table has a counted slot, a freed slot
    is reused, and a paint adds a version without disturbing any other. A table lives
    while a slot, the base or a reader holds it, and its tiles with it. */
module RasterStore {
  import opened DamagePlanning
  import opened RasterPaint
  import opened RasterPyramid
  import opened TileBlobs
  import opened Wrappers

  type TableId = nat

  datatype Version = Version(table: Option<TableId>, refcount: nat)

  /** The free list holds each empty slot once, and nothing else. */
  ghost predicate FreeExact(versions: seq<Version>, free: seq<nat>)
  {
    && (forall i, j | 0 <= i < j < |free| :: free[i] != free[j])
    && (forall s: nat :: s in free <==> s < |versions| && versions[s].table.None?)
    && (forall s | 0 <= s < |versions| && versions[s].table.None? :: versions[s].refcount == 0)
  }

  function TableAt(versions: seq<Version>, handle: Option<nat>): Option<TableId>
  {
    if handle.Some? && handle.value < |versions| then versions[handle.value].table else None
  }

  predicate InSlot(versions: seq<Version>, id: TableId)
  {
    exists s :: 0 <= s < |versions| && versions[s].table == Some(id)
  }

  predicate Held(versions: seq<Version>, base: TableId, readers: multiset<TableId>, id: TableId)
  {
    id == base || id in readers || InSlot(versions, id)
  }

  /** Every table that is in both sets of tables is the same one, with the same pixels. */
  ghost predicate SurvivorsReadAlike(pool: Pool, tables: map<TableId, Table>, pool': Pool, tables': map<TableId, Table>)
  {
    forall id | id in tables && id in tables' :: tables'[id] == tables[id] && ReadsAlike(pool, pool', tables[id])
  }

  lemma UntouchedReadAlike(pool: Pool, pool': Pool, tables: map<TableId, Table>, tables': map<TableId, Table>, k: Arithmetic)
    requires Extends(pool, pool') && forall id | id in tables :: TableOk(pool, tables[id], k)
    requires forall id | id in tables && id in tables' :: tables'[id] == tables[id]
    ensures SurvivorsReadAlike(pool, tables, pool', tables')
  {
    forall id | id in tables && id in tables' ensures ReadsAlike(pool, pool', tables[id]) {
      TableStill(pool, pool', tables[id], k);
    }
  }

  class Store {
    const k: Arithmetic
    var blocks: Blocks
    /** The live table objects, and a name for the next. */
    var tables: map<TableId, Table>
    var nextTable: TableId
    var versions: seq<Version>
    var free: seq<nat>
    var base: TableId
    /** The tables readers have resolved and still hold. */
    var readers: multiset<TableId>

    ghost predicate Valid()
      reads this
    {
      && Counted(blocks, tables, k) && FreeExact(versions, free)
      && (forall id :: id in tables <==> Held(versions, base, readers, id))
      && (forall id | id in tables :: id < nextTable)
    }

    /** The table a handle names, if its slot is live. */
    function Resolve(handle: Option<nat>): Option<TableId>
      reads this
    {
      TableAt(versions, handle)
    }

    /** `build`: decode, decimate, pin as the base and intern. */
    constructor (grid: (nat, nat) -> Pixel, w: nat, h: nat, edge: nat, k: Arithmetic)
      requires edge > 0 && w > 0 && h > 0
      ensures Valid() && this.k == k && Resolve(Some(0)) == Some(base) && tables.Keys == {base} && readers == multiset{}
      ensures tables[base].edge == edge && tables[base].levels != []
      ensures tables[base].levels[0].width == w && tables[base].levels[0].height == h
      ensures forall x: nat, y: nat | x < w && y < h :: Texel(blocks.pool, tables[base].levels[0], edge, x, y) == grid(x, y)
    {
      hide Counted, Texel, FreeExact, Held;
      var counted, t := BuildTable(grid, w, h, edge, k);
      FirstSlot();
      this.k, blocks, tables, nextTable := k, counted, map[0 := t], 1;
      versions, free, base, readers := [Version(Some(0), 0)], [], 0, multiset{};
      new;
    }

    /** Put a newly built table in a slot: the last freed one, else a new one. Never a
        live one. */
    method Intern(pool': Pool, t: Table) returns (slot: nat)
      requires Valid() && Extends(blocks.pool, pool') && PoolOk(pool') && TableOk(pool', t, k)
      modifies this
      ensures Valid() && base == old(base) && readers == old(readers)
      ensures Extends(old(blocks.pool), blocks.pool) && ReadsAlike(pool', blocks.pool, t)
      ensures blocks.pool.next == pool'.next
      ensures old(nextTable) !in old(tables) && tables == old(tables)[old(nextTable) := t]
      ensures slot < |versions| && versions[slot] == Version(Some(old(nextTable)), 0)
      ensures slot >= |old(versions)| || old(versions)[slot].table.None?
      ensures |versions| >= |old(versions)|
      ensures forall s | 0 <= s < |old(versions)| && s != slot :: versions[s] == old(versions)[s]
    {
      hide Counted, FreeExact, Held, Extends, TableOk, ReadsAlike;
      var id := nextTable;
      blocks := AddTable(blocks, tables, pool', t, k, id);
      tables, nextTable := tables[id := t], id + 1;
      ghost var before := versions;
      versions, free, slot := TakeSlot(versions, free, id, base, readers);
    }

    method RetainVersion(handle: Option<nat>)
      requires Valid()
      modifies this`versions
      ensures Valid()
      ensures versions == if TableAt(old(versions), handle).None? then old(versions)
              else old(versions)[handle.value := old(versions)[handle.value].(refcount := old(versions)[handle.value].refcount + 1)]
    {
      if handle.Some? && handle.value < |versions| && versions[handle.value].table.Some? {
        hide Counted, FreeExact, Held;
        var v := versions[handle.value];
        ghost var before := versions;
        versions := versions[handle.value := v.(refcount := v.refcount + 1)];
        Recounted(before, versions, free, handle.value, base, readers);
      }
    }

    /** An owner of a table has let go of it: the last one takes the table and, with it, the
        tiles no other table stores. */
    method DropUnheld(id: TableId)
      requires Counted(blocks, tables, k) && FreeExact(versions, free) && id in tables
      requires forall other :: other in tables <==> other == id || Held(versions, base, readers, other)
      requires forall other | other in tables :: other < nextTable
      modifies this`blocks, this`tables
      ensures Valid()
      ensures tables == if Held(versions, base, readers, id) then old(tables) else old(tables) - {id}
      ensures SurvivorsReadAlike(old(blocks.pool), old(tables), blocks.pool, tables)
    {
      hide FreeExact, TableOk, ReadsAlike, Exact, InSlot;
      if Held(versions, base, readers, id) {
        UntouchedReadAlike(blocks.pool, blocks.pool, tables, tables, k);
        return;
      }
      blocks := RemoveTable(blocks, tables, tables[id], k, id);
      tables := tables - {id};
    }

    /** The last count of a slot goes. */
    method FreeSlot(slot: nat, id: TableId)
      requires Valid() && slot < |versions| && versions[slot] == Version(Some(id), 1)
      modifies this`versions, this`free, this`blocks, this`tables
      ensures Valid() && SurvivorsReadAlike(old(blocks.pool), old(tables), blocks.pool, tables)
      ensures versions == old(versions)[slot := Version(None, 0)] && free == old(free) + [slot]
      ensures tables == if Held(versions, base, readers, id) then old(tables) else old(tables) - {id}
    {
      hide Counted, FreeExact, Held, SurvivorsReadAlike;
      ghost var before := versions;
      versions := versions[slot := Version(None, 0)];
      PushFree(before, free, slot);
      free := free + [slot];
      HeldElse(before, versions, slot, base, readers, id);
      DropUnheld(id);
    }

    /** Drop one count; at zero the slot lets its table go and is free, exactly once. */
    method ReleaseVersion(handle: Option<nat>)
      requires Valid()
      modifies this`versions, this`free, this`blocks, this`tables
      ensures Valid() && SurvivorsReadAlike(old(blocks.pool), old(tables), blocks.pool, tables)
      ensures var v := if handle.Some? && handle.value < |old(versions)| then old(versions)[handle.value] else Version(None, 0);
              if v.refcount == 0 then versions == old(versions) && free == old(free) && tables == old(tables)
              else if v.refcount == 1 then
                && versions == old(versions)[handle.value := Version(None, 0)] && free == old(free) + [handle.value]
                && v.table.Some?
                && tables == if Held(versions, base, readers, v.table.value) then old(tables) else old(tables) - {v.table.value}
              else
                && versions == old(versions)[handle.value := v.(refcount := v.refcount - 1)]
                && free == old(free) && tables == old(tables)
    {
      AllReadAlike(blocks, tables, k);
      RefcountMeansLive(versions, free);
      hide Counted, FreeExact, Held, SurvivorsReadAlike;
      if handle.None? || handle.value >= |versions| || versions[handle.value].refcount == 0 {
        return;
      }
      var v := versions[handle.value];
      assert v.table.Some?;
      if v.refcount == 1 {
        FreeSlot(handle.value, v.table.value);
      } else {
        ghost var before := versions;
        versions := versions[handle.value := v.(refcount := v.refcount - 1)];
        Recounted(before, versions, free, handle.value, base, readers);
      }
    }

    /** A reader resolves a handle and holds the table until `LetGo`. */
    method Pin(handle: Option<nat>) returns (id: Option<TableId>)
      requires Valid()
      modifies this`readers
      ensures Valid() && id == Resolve(handle)
      ensures readers == if id.Some? then old(readers) + multiset{id.value} else old(readers)
    {
      id := Resolve(handle);
      if id.Some? {
        assert InSlot(versions, id.value);
        readers := readers + multiset{id.value};
      }
    }

    method LetGo(id: TableId)
      requires Valid() && id in readers
      modifies this`readers, this`blocks, this`tables
      ensures Valid() && readers == old(readers) - multiset{id}
      ensures tables == if Held(versions, base, readers, id) then old(tables) else old(tables) - {id}
      ensures SurvivorsReadAlike(old(blocks.pool), old(tables), blocks.pool, tables)
    {
      readers := readers - multiset{id};
      DropUnheld(id);
    }

    /** `set_base`, with a table its caller holds. */
    method SetBase(id: TableId)
      requires Valid() && id in readers
      modifies this`base, this`blocks, this`tables
      ensures Valid() && base == id
      ensures tables == if Held(versions, id, readers, old(base)) then old(tables) else old(tables) - {old(base)}
      ensures SurvivorsReadAlike(old(blocks.pool), old(tables), blocks.pool, tables)
    {
      var was := base;
      base := id;
      DropUnheld(was);
    }

    /** Paint on a version (or the base when it is gone) and intern the result.
        Every table that was live still is, with the same pixels. */
    method PaintVersion(handle: Option<nat>, r: Rect, color: Pixel, coverage: (nat, nat) -> Coverage)
      returns (slot: nat, touched: Option<Box>)
      requires Valid()
      modifies this
      ensures Valid() && Extends(old(blocks.pool), blocks.pool) && base == old(base) && readers == old(readers)
      ensures SurvivorsReadAlike(old(blocks.pool), old(tables), blocks.pool, tables)
      ensures slot < |versions| && versions[slot] == Version(Some(old(nextTable)), 0)
      ensures tables.Keys == old(tables).Keys + {old(nextTable)} && old(nextTable) !in old(tables)
      ensures var id := if old(Resolve(handle)).Some? then old(Resolve(handle)).value else old(base);
              && id in old(tables)
              && var from, t := old(tables)[id], tables[old(nextTable)];
              && from.levels != [] && from.edge > 0 && t.edge == from.edge && |t.levels| == |from.levels|
              && Painted(old(blocks.pool), from.levels[0], blocks.pool, t.levels[0], from.edge, k, r, color, coverage)
              && LeastAround(touched, TouchedTiles(from.levels[0], from.edge, r))
              && blocks.pool.next == old(blocks.pool.next) + PaintCost(from.levels, from.edge, r, touched)
      ensures forall s | 0 <= s < |old(versions)| && old(versions)[s].table.Some? ::
                s < |versions| && versions[s] == old(versions)[s] && s != slot
    {
      hide FreeExact, Exact, TableOk, Extends, Painted, SurvivorsReadAlike, LeastAround, TouchedTiles, PaintCost;
      var id := if Resolve(handle).Some? then Resolve(handle).value else base;
      assert Resolve(handle).Some? ==> InSlot(versions, id);
      ghost var was, before := blocks.pool, tables;
      var pool', t;
      pool', t, touched := PaintTable(blocks, tables[id], k, r, color, coverage);
      slot := Intern(pool', t);
      PaintedKept(was, before[id].levels[0], pool', t, blocks.pool, k, r, color, coverage);
      UntouchedReadAlike(was, blocks.pool, before, tables, k);
    }
  }

  lemma FirstSlot()
    ensures FreeExact([Version(Some(0), 0)], [])
    ensures forall id: TableId :: Held([Version(Some(0), 0)], 0, multiset{}, id) <==> id == 0
  {
    forall id: TableId ensures Held([Version(Some(0), 0)], 0, multiset{}, id) <==> id == 0 {
    }
  }

  /** `paint`, on one table. */
  method PaintTable(b: Blocks, from: Table, k: Arithmetic, r: Rect, color: Pixel, coverage: (nat, nat) -> Coverage)
    returns (pool': Pool, t: Table, touched: Option<Box>)
    requires Exact(b) && TableOk(b.pool, from, k)
    ensures PoolOk(pool') && Extends(b.pool, pool') && TableOk(pool', t, k)
    ensures from.levels != [] && from.edge > 0 && t.edge == from.edge && |t.levels| == |from.levels|
    ensures Painted(b.pool, from.levels[0], pool', t.levels[0], from.edge, k, r, color, coverage)
    ensures LeastAround(touched, TouchedTiles(from.levels[0], from.edge, r))
    ensures pool'.next == b.pool.next + PaintCost(from.levels, from.edge, r, touched)
  {
    hide Chain, Extends, Painted, LeastAround, SharesFarTiles, TileOverlaps, TouchedTiles, PaintCost;
    var levels;
    pool', levels, touched := Paint(b.pool, from.levels, from.edge, k, r, color, coverage);
    t := Table(from.edge, levels);
  }

  lemma PaintedKept(pool: Pool, lvl: Level, pool': Pool, t: Table, after: Pool, k: Arithmetic, r: Rect, color: Pixel,
                    coverage: (nat, nat) -> Coverage)
    requires t.edge > 0 && t.levels != [] && Painted(pool, lvl, pool', t.levels[0], t.edge, k, r, color, coverage)
    requires ReadsAlike(pool', after, t)
    ensures Painted(pool, lvl, after, t.levels[0], t.edge, k, r, color, coverage)
  {
    hide Texel, CenterInside;
    assert SamePixels(pool', t.levels[0], after, t.levels[0], t.edge);
  }

  method BuildTable(grid: (nat, nat) -> Pixel, w: nat, h: nat, edge: nat, k: Arithmetic) returns (b: Blocks, t: Table)
    requires edge > 0 && w > 0 && h > 0
    ensures Counted(b, map[0 := t], k)
    ensures t.edge == edge && t.levels != [] && t.levels[0].width == w && t.levels[0].height == h
    ensures forall x: nat, y: nat | x < w && y < h :: Texel(b.pool, t.levels[0], edge, x, y) == grid(x, y)
  {
    hide Counted, IsPyramid, Extends, Texel;
    var empty := Blocks(Pool(map[], 0), multiset{});
    NoTables(empty, k);
    var pool', levels := Build(empty.pool, grid, w, h, edge, k);
    t := Table(edge, levels);
    b := AddTable(empty, map[], pool', t, k, 0);
    assert map[][0 := t] == map[0 := t];
    assert SamePixels(pool', t.levels[0], b.pool, t.levels[0], edge);
  }

  method TakeSlot(versions: seq<Version>, free: seq<nat>, id: TableId, ghost base: TableId, ghost readers: multiset<TableId>)
    returns (versions': seq<Version>, free': seq<nat>, slot: nat)
    requires FreeExact(versions, free)
    ensures FreeExact(versions', free')
    ensures slot < |versions'| && |versions'| >= |versions| && versions'[slot] == Version(Some(id), 0)
    ensures slot >= |versions| || versions[slot].table.None?
    ensures forall s | 0 <= s < |versions| && s != slot :: versions'[s] == versions[s]
    ensures forall other :: Held(versions', base, readers, other) <==> other == id || Held(versions, base, readers, other)
  {
    if free != [] {
      slot := free[|free| - 1];
      assert slot in free;
      PopFree(versions, free, id);
      free' := free[..|free| - 1];
      versions' := versions[slot := Version(Some(id), 0)];
    } else {
      slot, free' := |versions|, free;
      versions' := versions + [Version(Some(id), 0)];
    }
    HeldToo(versions, versions', slot, base, readers, id);
  }

  lemma NoTables(b: Blocks, k: Arithmetic)
    requires b == Blocks(Pool(map[], 0), multiset{})
    ensures Counted(b, map[], k)
  {
  }

  /** A table put in a slot that held none is held, and nothing else changes hands. */
  lemma HeldToo(before: seq<Version>, after: seq<Version>, slot: nat, base: TableId, readers: multiset<TableId>, id: TableId)
    requires slot < |after| && |before| <= |after| <= |before| + 1 && after[slot].table == Some(id)
    requires |after| > |before| ==> slot == |before|
    requires slot < |before| ==> before[slot].table.None?
    requires forall s | 0 <= s < |before| && s != slot :: after[s] == before[s]
    ensures forall other: TableId :: Held(after, base, readers, other) <==> other == id || Held(before, base, readers, other)
  {
    assert InSlot(after, id);
    forall other: TableId | other != id ensures InSlot(after, other) <==> InSlot(before, other) {
      if InSlot(before, other) {
        var s :| 0 <= s < |before| && before[s].table == Some(other);
        assert after[s].table == Some(other);
      }
    }
  }

  /** A slot emptied of `id` may have held it last. */
  lemma HeldElse(before: seq<Version>, after: seq<Version>, slot: nat, base: TableId, readers: multiset<TableId>, id: TableId)
    requires slot < |before| && before[slot].table == Some(id) && after == before[slot := Version(None, 0)]
    ensures forall other: TableId :: Held(before, base, readers, other) <==> other == id || Held(after, base, readers, other)
  {
    assert InSlot(before, id);
    forall other: TableId | other != id ensures InSlot(after, other) <==> InSlot(before, other) {
      if InSlot(before, other) {
        var s :| 0 <= s < |before| && before[s].table == Some(other);
        assert after[s].table == Some(other);
      }
    }
  }

  lemma AllReadAlike(b: Blocks, tables: map<TableId, Table>, k: Arithmetic)
    requires Counted(b, tables, k)
    ensures SurvivorsReadAlike(b.pool, tables, b.pool, tables)
  {
    UntouchedReadAlike(b.pool, b.pool, tables, tables, k);
  }

  lemma RefcountMeansLive(versions: seq<Version>, free: seq<nat>)
    requires FreeExact(versions, free)
    ensures forall s | 0 <= s < |versions| && versions[s].refcount > 0 :: versions[s].table.Some?
  {
  }

  /** A slot's count moves: nothing is held that was not, and no slot comes free. */
  lemma Recounted(before: seq<Version>, after: seq<Version>, free: seq<nat>, slot: nat, base: TableId,
                  readers: multiset<TableId>)
    requires FreeExact(before, free) && slot < |before| && before[slot].table.Some?
    requires exists n: nat :: after == before[slot := before[slot].(refcount := n)]
    ensures FreeExact(after, free)
    ensures forall id: TableId :: Held(after, base, readers, id) <==> Held(before, base, readers, id)
  {
    forall id: TableId ensures InSlot(after, id) <==> InSlot(before, id) {
      if InSlot(before, id) {
        var s :| 0 <= s < |before| && before[s].table == Some(id);
        assert after[s].table == Some(id);
      }
    }
  }

  lemma PushFree(versions: seq<Version>, free: seq<nat>, slot: nat)
    requires FreeExact(versions, free) && slot < |versions| && versions[slot].table.Some?
    ensures FreeExact(versions[slot := Version(None, 0)], free + [slot])
  {
  }

  lemma PopFree(versions: seq<Version>, free: seq<nat>, id: TableId)
    requires FreeExact(versions, free) && free != []
    ensures var slot := free[|free| - 1];
            slot < |versions| && FreeExact(versions[slot := Version(Some(id), 0)], free[..|free| - 1])
  {
    var last := |free| - 1;
    var slot, rest := free[last], free[..last];
    assert slot in free;
    forall s: nat ensures s in rest <==> s in free && s != slot {
      if s in rest {
        var i :| 0 <= i < last && rest[i] == s;
        assert free[i] == s;
      }
      if s in free && s != slot {
        var i :| 0 <= i <= last && free[i] == s;
        assert rest[i] == s;
      }
    }
  }
}
