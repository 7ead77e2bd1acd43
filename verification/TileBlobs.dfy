/** The reference counts on tile blobs. A live table holds one count on every tile it
    stores; tables share tiles, and a blob goes with its last count. */
module TileBlobs {
  import opened RasterPaint
  import opened RasterPyramid

  /** The block pool with its counts. */
  datatype Blocks = Blocks(pool: Pool, counts: multiset<Ref>)

  /** A blob is in the pool exactly while somebody holds a count on it. */
  ghost predicate Exact(b: Blocks)
  {
    PoolOk(b.pool) && forall r :: r in b.pool.blobs <==> r in b.counts
  }

  function Retained(b: Blocks, r: Ref): Blocks
  {
    b.(counts := b.counts[r := b.counts[r] + 1])
  }

  /** One count less; the last takes the blob with it. */
  function Released(b: Blocks, r: Ref): Blocks
    requires r in b.counts
  {
    var counts := b.counts[r := b.counts[r] - 1];
    if r in counts then b.(counts := counts)
    else Blocks(b.pool.(blobs := b.pool.blobs - {r}), counts)
  }

  // ---- What a table holds ----------------------------------------------------------------

  ghost function RowRefs(rows: seq<seq<Ref>>): multiset<Ref>
  {
    if rows == [] then multiset{} else RowRefs(rows[..|rows| - 1]) + multiset(rows[|rows| - 1])
  }

  /** One count for every tile of every level. */
  ghost function Refs(levels: seq<Level>): multiset<Ref>
  {
    if levels == [] then multiset{} else Refs(levels[..|levels| - 1]) + RowRefs(levels[|levels| - 1].tiles)
  }

  lemma RowsStep(rows: seq<seq<Ref>>, i: nat)
    requires i < |rows|
    ensures RowRefs(rows[..i + 1]) == RowRefs(rows[..i]) + multiset(rows[i])
  {
    assert rows[..i + 1][..i] == rows[..i];
  }

  lemma LevelsStep(levels: seq<Level>, i: nat)
    requires i < |levels|
    ensures Refs(levels[..i + 1]) == Refs(levels[..i]) + RowRefs(levels[i].tiles)
  {
    assert levels[..i + 1][..i] == levels[..i];
  }

  lemma RowStep(row: seq<Ref>, i: nat)
    requires i < |row|
    ensures multiset(row[..i + 1]) == multiset(row[..i]) + multiset{row[i]}
  {
    assert row[..i + 1] == row[..i] + [row[i]];
  }

  lemma {:induction false} RowAmong(rows: seq<seq<Ref>>, ty: nat, r: Ref)
    requires ty < |rows| && r in rows[ty]
    ensures r in RowRefs(rows)
  {
    if ty < |rows| - 1 {
      RowAmong(rows[..|rows| - 1], ty, r);
    }
  }

  lemma {:induction false} TileAmong(levels: seq<Level>, l: nat, ty: nat, tx: nat)
    requires l < |levels| && ty < |levels[l].tiles| && tx < |levels[l].tiles[ty]|
    ensures levels[l].tiles[ty][tx] in Refs(levels)
  {
    if l < |levels| - 1 {
      TileAmong(levels[..|levels| - 1], l, ty, tx);
    } else {
      RowAmong(levels[l].tiles, ty, levels[l].tiles[ty][tx]);
    }
  }

  lemma {:induction false} RowMeans(rows: seq<seq<Ref>>, r: Ref)
    requires r in RowRefs(rows)
    ensures exists ty, tx :: 0 <= ty < |rows| && 0 <= tx < |rows[ty]| && rows[ty][tx] == r
  {
    var last := |rows| - 1;
    if r in multiset(rows[last]) {
      var tx :| 0 <= tx < |rows[last]| && rows[last][tx] == r;
    } else {
      RowMeans(rows[..last], r);
      var ty, tx :| 0 <= ty < last && 0 <= tx < |rows[..last][ty]| && rows[..last][ty][tx] == r;
      assert rows[ty] == rows[..last][ty];
    }
  }

  ghost predicate Stores(levels: seq<Level>, r: Ref)
  {
    exists l, ty, tx ::
      0 <= l < |levels| && 0 <= ty < |levels[l].tiles| && 0 <= tx < |levels[l].tiles[ty]| && levels[l].tiles[ty][tx] == r
  }

  /** A table holds counts on the tiles it stores and on nothing else. */
  lemma {:induction false} RefsAreStored(levels: seq<Level>, r: Ref)
    ensures r in Refs(levels) <==> Stores(levels, r)
  {
    if Stores(levels, r) {
      var l: nat, ty: nat, tx: nat :|
        l < |levels| && ty < |levels[l].tiles| && tx < |levels[l].tiles[ty]| && levels[l].tiles[ty][tx] == r;
      TileAmong(levels, l, ty, tx);
    }
    if r in Refs(levels) {
      var last := |levels| - 1;
      if r in RowRefs(levels[last].tiles) {
        RowMeans(levels[last].tiles, r);
      } else {
        RefsAreStored(levels[..last], r);
        var l, ty, tx :| 0 <= l < last && 0 <= ty < |levels[..last][l].tiles| && 0 <= tx < |levels[..last][l].tiles[ty]|
                         && levels[..last][l].tiles[ty][tx] == r;
        assert levels[l] == levels[..last][l];
      }
    }
  }

  lemma {:induction false} LevelsPrefix(levels: seq<Level>, l: nat)
    requires l <= |levels|
    ensures Refs(levels[..l]) <= Refs(levels)
  {
    if l < |levels| {
      LevelsPrefix(levels[..|levels| - 1], l);
      assert levels[..|levels| - 1][..l] == levels[..l];
    } else {
      assert levels[..l] == levels;
    }
  }

  lemma {:induction false} RowsPrefix(rows: seq<seq<Ref>>, ty: nat)
    requires ty <= |rows|
    ensures RowRefs(rows[..ty]) <= RowRefs(rows)
  {
    if ty < |rows| {
      RowsPrefix(rows[..|rows| - 1], ty);
      assert rows[..|rows| - 1][..ty] == rows[..ty];
    } else {
      assert rows[..ty] == rows;
    }
  }

  // ---- A table's constructor and destructor ------------------------------------------------------

  /** `TileTable`'s constructor: retain every tile. */
  method RetainTiles(b: Blocks, levels: seq<Level>) returns (b': Blocks)
    ensures b' == b.(counts := b.counts + Refs(levels))
  {
    b' := b;
    for l := 0 to |levels|
      invariant b' == b.(counts := b.counts + Refs(levels[..l]))
    {
      b' := RetainRows(b', levels[l].tiles);
      LevelsStep(levels, l);
    }
    assert levels[..|levels|] == levels;
  }

  method RetainRows(b: Blocks, rows: seq<seq<Ref>>) returns (b': Blocks)
    ensures b' == b.(counts := b.counts + RowRefs(rows))
  {
    b' := b;
    for ty := 0 to |rows|
      invariant b' == b.(counts := b.counts + RowRefs(rows[..ty]))
    {
      b' := RetainRow(b', rows[ty]);
      RowsStep(rows, ty);
    }
    assert rows[..|rows|] == rows;
  }

  method RetainRow(b: Blocks, row: seq<Ref>) returns (b': Blocks)
    ensures b' == b.(counts := b.counts + multiset(row))
  {
    b' := b;
    hide Retained;
    assert b.counts + multiset(row[..0]) == b.counts;
    for tx := 0 to |row|
      invariant b' == b.(counts := b.counts + multiset(row[..tx]))
    {
      OneMoreRetained(b, row, tx);
      b' := Retained(b', row[tx]);
    }
    assert row[..|row|] == row;
  }

  lemma OneMoreRetained(b: Blocks, row: seq<Ref>, tx: nat)
    requires tx < |row|
    ensures Retained(b.(counts := b.counts + multiset(row[..tx])), row[tx]) == b.(counts := b.counts + multiset(row[..tx + 1]))
  {
    RowStep(row, tx);
    assert b.counts + multiset(row[..tx + 1]) == b.counts + multiset(row[..tx]) + multiset{row[tx]};
  }

  /** What is left of a pool once `counts` are all that is held. */
  ghost predicate Kept(b: Blocks, b': Blocks, counts: multiset<Ref>)
  {
    && Exact(b') && b'.counts == counts && b'.pool.next == b.pool.next && Extends(b'.pool, b.pool)
  }

  lemma StartKept(b: Blocks)
    requires Exact(b)
    ensures Kept(b, b, b.counts)
  {
  }

  lemma KeptOn(b: Blocks, b1: Blocks, b2: Blocks, counts: multiset<Ref>, less: multiset<Ref>)
    requires Kept(b, b1, counts) && Kept(b1, b2, less)
    ensures Kept(b, b2, less)
  {
  }

  lemma ReleasedKeeps(b: Blocks, b': Blocks, counts: multiset<Ref>, r: Ref)
    requires Kept(b, b', counts) && r in counts
    ensures r in b'.counts && Kept(b, Released(b', r), counts - multiset{r})
  {
    var next := Released(b', r);
    assert next.counts == counts - multiset{r};
  }

  /** `TileTable`'s destructor: release every tile. */
  method ReleaseTiles(b: Blocks, levels: seq<Level>) returns (b': Blocks)
    requires Exact(b) && Refs(levels) <= b.counts
    ensures Kept(b, b', b.counts - Refs(levels))
  {
    b' := b;
    StartKept(b);
    hide Exact, Kept, Refs, RowRefs;
    assert levels[..0] == [];
    NoRefs(b.counts);
    for l := 0 to |levels|
      invariant Kept(b, b', b.counts - Refs(levels[..l]))
    {
      OneMoreLevel(b.counts, levels, l);
      KeptIsExact(b, b', b.counts - Refs(levels[..l]));
      var next := ReleaseRows(b', levels[l].tiles);
      KeptOn(b, b', next, b'.counts, b'.counts - RowRefs(levels[l].tiles));
      b' := next;
    }
    assert levels[..|levels|] == levels;
  }

  lemma NoRefs(counts: multiset<Ref>)
    ensures counts - Refs([]) == counts && counts - RowRefs([]) == counts
  {
  }

  lemma OneMoreLevel(counts: multiset<Ref>, levels: seq<Level>, l: nat)
    requires Refs(levels) <= counts && l < |levels|
    ensures RowRefs(levels[l].tiles) <= counts - Refs(levels[..l])
    ensures counts - Refs(levels[..l]) - RowRefs(levels[l].tiles) == counts - Refs(levels[..l + 1])
  {
    hide Refs, RowRefs;
    LevelsStep(levels, l);
    LevelsPrefix(levels, l + 1);
  }

  lemma OneMoreRow(counts: multiset<Ref>, rows: seq<seq<Ref>>, ty: nat)
    requires RowRefs(rows) <= counts && ty < |rows|
    ensures multiset(rows[ty]) <= counts - RowRefs(rows[..ty])
    ensures counts - RowRefs(rows[..ty]) - multiset(rows[ty]) == counts - RowRefs(rows[..ty + 1])
  {
    hide RowRefs;
    RowsStep(rows, ty);
    RowsPrefix(rows, ty + 1);
  }

  method ReleaseRows(b: Blocks, rows: seq<seq<Ref>>) returns (b': Blocks)
    requires Exact(b) && RowRefs(rows) <= b.counts
    ensures Exact(b') && Kept(b, b', b.counts - RowRefs(rows))
  {
    b' := b;
    StartKept(b);
    hide Exact, Kept, RowRefs;
    assert rows[..0] == [];
    NoRefs(b.counts);
    for ty := 0 to |rows|
      invariant Kept(b, b', b.counts - RowRefs(rows[..ty]))
    {
      OneMoreRow(b.counts, rows, ty);
      KeptIsExact(b, b', b.counts - RowRefs(rows[..ty]));
      var next := ReleaseRow(b', rows[ty]);
      KeptOn(b, b', next, b'.counts, b'.counts - multiset(rows[ty]));
      b' := next;
    }
    assert rows[..|rows|] == rows;
    KeptIsExact(b, b', b.counts - RowRefs(rows));
  }

  method ReleaseRow(b: Blocks, row: seq<Ref>) returns (b': Blocks)
    requires Exact(b) && multiset(row) <= b.counts
    ensures Exact(b') && Kept(b, b', b.counts - multiset(row))
  {
    b' := b;
    StartKept(b);
    hide Exact, Released, Kept;
    assert b.counts - multiset(row[..0]) == b.counts;
    for tx := 0 to |row|
      invariant Kept(b, b', b.counts - multiset(row[..tx]))
    {
      OneMoreReleased(b.counts, row, tx);
      ReleasedKeeps(b, b', b.counts - multiset(row[..tx]), row[tx]);
      b' := Released(b', row[tx]);
    }
    assert row[..|row|] == row;
    KeptIsExact(b, b', b.counts - multiset(row));
  }

  lemma OneMoreReleased(counts: multiset<Ref>, row: seq<Ref>, tx: nat)
    requires multiset(row) <= counts && tx < |row|
    ensures row[tx] in counts - multiset(row[..tx])
    ensures counts - multiset(row[..tx]) - multiset{row[tx]} == counts - multiset(row[..tx + 1])
  {
    RowStep(row, tx);
    assert row == row[..tx + 1] + row[tx + 1..];
    assert multiset(row) == multiset(row[..tx + 1]) + multiset(row[tx + 1..]);
  }

  lemma KeptIsExact(b: Blocks, b': Blocks, counts: multiset<Ref>)
    requires Kept(b, b', counts)
    ensures Exact(b') && b'.counts == counts
  {
  }

  // ---- Tables that share a pool --------------------------------------------------------------

  datatype Table = Table(edge: nat, levels: seq<Level>)

  ghost predicate TableOk(pool: Pool, t: Table, k: Arithmetic)
  {
    t.edge > 0 && IsPyramid(pool, t.levels, t.edge, k)
  }

  /** The two pools show the table's levels with the same pixels. */
  ghost predicate ReadsAlike(pool: Pool, pool': Pool, t: Table)
  {
    t.edge > 0 && forall l | 0 <= l < |t.levels| :: SamePixels(pool, t.levels[l], pool', t.levels[l], t.edge)
  }

  /** In a pool that only grew the table is what it was. */
  lemma TableStill(pool: Pool, pool': Pool, t: Table, k: Arithmetic)
    requires TableOk(pool, t, k) && Extends(pool, pool')
    ensures TableOk(pool', t, k) && ReadsAlike(pool, pool', t)
  {
    ChainStill(pool, pool', t.levels, t.edge, k);
    forall l | 0 <= l < |t.levels| ensures SamePixels(pool, t.levels[l], pool', t.levels[l], t.edge) {
      ExtendedReads(pool, pool', t.levels[l], t.edge);
    }
  }

  /** And in a pool that lost blobs, as long as none was one of its tiles. */
  lemma TableKept(pool: Pool, pool': Pool, t: Table, k: Arithmetic)
    requires TableOk(pool, t, k) && Extends(pool', pool) && forall r | r in Refs(t.levels) :: r in pool'.blobs
    ensures TableOk(pool', t, k) && ReadsAlike(pool, pool', t)
  {
    forall l: nat | l < |t.levels|
      ensures LevelOk(pool', t.levels[l], t.edge) && SamePixels(pool', t.levels[l], pool, t.levels[l], t.edge)
    {
      LevelKept(pool, pool', t.levels, l, t.edge);
    }
    forall i, j | 0 <= i && j == i + 1 < |t.levels|
      ensures Halved(t.levels[i], t.levels[j]) && Decimated(pool', t.levels[i], t.levels[j], t.edge, k)
    {
      DecimatedKept(pool, pool', t.levels[i], t.levels[j], t.edge, k);
    }
  }

  lemma LevelKept(pool: Pool, pool': Pool, levels: seq<Level>, l: nat, edge: nat)
    requires l < |levels| && LevelOk(pool, levels[l], edge) && Extends(pool', pool)
    requires forall r | r in Refs(levels) :: r in pool'.blobs
    ensures LevelOk(pool', levels[l], edge) && SamePixels(pool', levels[l], pool, levels[l], edge)
  {
    var lvl := levels[l];
    forall tx, ty | 0 <= ty < lvl.tilesY && 0 <= tx < lvl.tilesX ensures TileOk(pool', lvl, edge, tx, ty) {
      assert TileOk(pool, lvl, edge, tx, ty);
      TileAmong(levels, l, ty, tx);
    }
    ExtendedReads(pool', pool, lvl, edge);
  }

  lemma DecimatedKept(pool: Pool, pool': Pool, child: Level, up: Level, edge: nat, k: Arithmetic)
    requires edge > 0 && child.width > 0 && child.height > 0 && Halved(child, up) && Decimated(pool, child, up, edge, k)
    requires SamePixels(pool', child, pool, child, edge) && SamePixels(pool', up, pool, up, edge)
    ensures Decimated(pool', child, up, edge, k)
  {
    forall x, y | InLevel(up, x, y) ensures Texel(pool', up, edge, x, y) == Decimate(pool', child, edge, k, x, y) {
      ParentsAreInside(child, up, x, y);
      DecimateIsLocal(pool', child, pool, child, edge, k, x, y);
    }
  }

  // ---- All live tables --------------------------------------------------------------------------

  /** What the live tables hold together. */
  ghost function AllRefs(tables: map<nat, Table>): multiset<Ref>
  {
    if tables == map[] then multiset{} else
    var id :| id in tables;
    Refs(tables[id].levels) + AllRefs(tables - {id})
  }

  lemma {:induction false} AllRefsSplits(tables: map<nat, Table>, id: nat)
    requires id in tables
    ensures AllRefs(tables) == Refs(tables[id].levels) + AllRefs(tables - {id})
    decreases tables
  {
    hide Refs;
    var m :| m in tables && AllRefs(tables) == Refs(tables[m].levels) + AllRefs(tables - {m});
    if m != id {
      AllRefsSplits(tables - {m}, id);
      AllRefsSplits(tables - {id}, m);
      assert tables - {m} - {id} == tables - {id} - {m};
    }
  }

  lemma {:induction false} AllRefsMean(tables: map<nat, Table>, r: Ref)
    ensures r in AllRefs(tables) <==> exists id :: id in tables && r in Refs(tables[id].levels)
    decreases tables
  {
    if tables != map[] {
      var m :| m in tables && AllRefs(tables) == Refs(tables[m].levels) + AllRefs(tables - {m});
      AllRefsMean(tables - {m}, r);
      if id :| id in tables && r in Refs(tables[id].levels) && id != m {
        assert id in tables - {m};
      }
    }
  }

  /** The counts are exactly what the live tables hold, and every table is whole. */
  ghost predicate Counted(b: Blocks, tables: map<nat, Table>, k: Arithmetic)
  {
    && Exact(b) && b.counts == AllRefs(tables)
    && forall id | id in tables :: TableOk(b.pool, tables[id], k)
  }

  /** So a blob is in the pool exactly while some live table stores it. */
  lemma BlobsAreStored(b: Blocks, tables: map<nat, Table>, k: Arithmetic, r: Ref)
    requires Counted(b, tables, k)
    ensures r in b.pool.blobs <==> exists id :: id in tables && Stores(tables[id].levels, r)
  {
    AllRefsMean(tables, r);
    forall id | id in tables ensures r in Refs(tables[id].levels) <==> Stores(tables[id].levels, r) {
      RefsAreStored(tables[id].levels, r);
    }
  }

  /** A new table over what was built in the pool: it retains its tiles, and then the
      counts the fresh blobs were allocated with are given back. */
  method AddTable(b: Blocks, ghost tables: map<nat, Table>, pool': Pool, t: Table, ghost k: Arithmetic, ghost id: nat)
    returns (b': Blocks)
    requires Counted(b, tables, k) && Extends(b.pool, pool') && PoolOk(pool') && TableOk(pool', t, k) && id !in tables
    ensures Counted(b', tables[id := t], k)
    ensures Extends(b.pool, b'.pool) && Extends(b'.pool, pool') && ReadsAlike(pool', b'.pool, t)
    ensures b'.pool.next == pool'.next
  {
    var keep := pool'.blobs.Keys - b.pool.blobs.Keys;
    var grown := Blocks(pool', b.counts + multiset(keep));
    var held := RetainTiles(grown, t.levels);
    GrownIsExact(b, grown, held, keep, t, k);
    b' := ReleaseSet(held, keep);
    assert b'.counts == b.counts + Refs(t.levels);
    AddedIsCounted(b, tables, pool', b', t, k, id);
  }

  lemma GrownIsExact(b: Blocks, grown: Blocks, held: Blocks, keep: set<Ref>, t: Table, k: Arithmetic)
    requires Exact(b) && Extends(b.pool, grown.pool) && PoolOk(grown.pool) && TableOk(grown.pool, t, k)
    requires keep == grown.pool.blobs.Keys - b.pool.blobs.Keys && grown.counts == b.counts + multiset(keep)
    requires held == grown.(counts := grown.counts + Refs(t.levels))
    ensures Exact(held) && multiset(keep) <= held.counts
  {
    forall r | r in Refs(t.levels) ensures r in grown.pool.blobs {
      RefsAreStored(t.levels, r);
      var l: nat, ty: nat, tx: nat :| l < |t.levels| && ty < |t.levels[l].tiles| && tx < |t.levels[l].tiles[ty]|
                                      && t.levels[l].tiles[ty][tx] == r;
      assert LevelOk(grown.pool, t.levels[l], t.edge);
      assert TileOk(grown.pool, t.levels[l], t.edge, tx, ty);
    }
  }

  lemma AddedIsCounted(b: Blocks, tables: map<nat, Table>, pool': Pool, b': Blocks, t: Table, k: Arithmetic, id: nat)
    requires Counted(b, tables, k) && Extends(b.pool, pool') && TableOk(pool', t, k) && id !in tables
    requires Exact(b') && Extends(b'.pool, pool') && b'.counts == b.counts + Refs(t.levels)
    ensures Counted(b', tables[id := t], k) && Extends(b.pool, b'.pool) && ReadsAlike(pool', b'.pool, t)
  {
    hide TableOk, ReadsAlike, Refs, AllRefs, Exact, Extends;
    var tables' := tables[id := t];
    AllRefsSplits(tables', id);
    assert tables' - {id} == tables;
    OlderBlobsStay(b, pool', b', Refs(t.levels));
    TableKept(pool', b'.pool, t, k);
    forall other | other in tables ensures TableOk(b'.pool, tables[other], k) {
      TableStill(b.pool, b'.pool, tables[other], k);
    }
  }

  lemma OlderBlobsStay(b: Blocks, pool': Pool, b': Blocks, more: multiset<Ref>)
    requires Exact(b) && Exact(b') && Extends(b.pool, pool') && Extends(b'.pool, pool') && b'.counts == b.counts + more
    ensures Extends(b.pool, b'.pool) && forall r | r in more :: r in b'.pool.blobs
  {
    forall r | r in b.pool.blobs ensures r in b'.pool.blobs {
      assert r in b.counts;
    }
  }

  /** Drop a vector of owned blobs. */
  method ReleaseSet(b: Blocks, refs: set<Ref>) returns (b': Blocks)
    requires Exact(b) && multiset(refs) <= b.counts
    ensures Kept(b, b', b.counts - multiset(refs))
  {
    b' := b;
    StartKept(b);
    hide Exact, Released, Kept;
    var done := {};
    assert b.counts - multiset(done) == b.counts;
    while done != refs
      invariant done <= refs && Kept(b, b', b.counts - multiset(done))
      decreases |refs - done|
    {
      var r :| r in refs - done;
      OneOfTheSet(b.counts, refs, done, r);
      ReleasedKeeps(b, b', b.counts - multiset(done), r);
      b', done := Released(b', r), done + {r};
    }
  }

  lemma OneOfTheSet(counts: multiset<Ref>, refs: set<Ref>, done: set<Ref>, r: Ref)
    requires multiset(refs) <= counts && done <= refs && r in refs - done
    ensures r in counts - multiset(done) && counts - multiset(done) - multiset{r} == counts - multiset(done + {r})
    ensures done + {r} <= refs && |refs - (done + {r})| < |refs - done|
  {
    assert multiset(refs)[r] == 1 && multiset(done)[r] == 0;
    assert refs - done == (refs - (done + {r})) + {r};
  }

  /** A table goes: its tiles that no other table stores leave the pool, the others and
      the pixels of every other table stay. */
  method RemoveTable(b: Blocks, ghost tables: map<nat, Table>, t: Table, ghost k: Arithmetic, ghost id: nat)
    returns (b': Blocks)
    requires Counted(b, tables, k) && id in tables && tables[id] == t
    ensures Counted(b', tables - {id}, k) && Extends(b'.pool, b.pool)
    ensures forall other | other in tables - {id} :: ReadsAlike(b.pool, b'.pool, tables[other])
  {
    AllRefsSplits(tables, id);
    b' := ReleaseTiles(b, t.levels);
    RemovedIsCounted(b, tables, b', k, id);
  }

  lemma RemovedIsCounted(b: Blocks, tables: map<nat, Table>, b': Blocks, k: Arithmetic, id: nat)
    requires Counted(b, tables, k) && id in tables && Kept(b, b', b.counts - Refs(tables[id].levels))
    ensures Counted(b', tables - {id}, k)
    ensures forall other | other in tables - {id} :: TableOk(b.pool, tables[other], k) && ReadsAlike(b.pool, b'.pool, tables[other])
  {
    hide TableOk, ReadsAlike, Refs, AllRefs;
    AllRefsSplits(tables, id);
    var rest := tables - {id};
    assert b'.counts == AllRefs(rest);
    forall other | other in rest
      ensures TableOk(b.pool, tables[other], k) && TableOk(b'.pool, rest[other], k)
      ensures ReadsAlike(b.pool, b'.pool, tables[other])
    {
      AllRefsSplits(rest, other);
      TableKept(b.pool, b'.pool, rest[other], k);
    }
  }
}
