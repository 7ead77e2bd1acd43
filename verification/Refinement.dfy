/** The refinement queue: renders that did not answer in their frame, the operators
    waiting on them, and the poll that turns arrivals into cache entries and damage.
    Workers settle and the deadline sweep cancels at any moment between steps. */
module Refinement {
  import opened Wrappers

  datatype TileKey = TileKey(content: nat, revision: nat, rung: int, x: int, y: int, time: Option<int>)

  type Pixels = int

  /** A cached tile: whether its render was exact, and whether it was achieved at its
      rung's own scale. */
  datatype Tile = Tile(pixels: Pixels, exact: bool, atRung: bool)

  /** A completion: unsettled, settled with a result, settled by failure, or taken. */
  datatype Completion = Running | Succeeded(tile: Tile) | Failed | Taken

  /** Cancelling is advice: a cancelled render may still settle either way. */
  datatype PendingTile = PendingTile(key: TileKey, done: Completion, cancelled: bool)

  datatype Wait = Wait(output: TileKey, unmet: seq<TileKey>)

  /** Content-local damage over the arrived tile's own cell, at its own instant, or at zero for a
      clock-invariant tile. */
  datatype Damage = Damage(content: nat, rung: int, x: int, y: int, time: int)

  function DamageOf(key: TileKey): Damage
  {
    Damage(key.content, key.rung, key.x, key.y, if key.time.Some? then key.time.value else 0)
  }

  // ---- The gates' questions --------------------------------------------------------------

  predicate Live(t: PendingTile)
  {
    t.done == Running && !t.cancelled
  }

  /** Somebody is certain to deliver this tile: a live render, or a finished one
      whose pixels the next poll will insert. */
  ghost predicate InFlight(tiles: seq<PendingTile>, key: TileKey)
  {
    exists i :: 0 <= i < |tiles| && tiles[i].key == key && (Live(tiles[i]) || tiles[i].done.Succeeded?)
  }

  ghost predicate Queued(tiles: seq<PendingTile>, key: TileKey)
  {
    exists i :: 0 <= i < |tiles| && tiles[i].key == key
  }

  ghost predicate WavePending(tiles: seq<PendingTile>, waits: seq<Wait>, output: TileKey)
  {
    exists w, u :: 0 <= w < |waits| && waits[w].output == output && 0 <= u < |waits[w].unmet| && Queued(tiles, waits[w].unmet[u])
  }

  /** At most one live render per key. */
  ghost predicate OneLivePerKey(tiles: seq<PendingTile>)
  {
    forall i, j | 0 <= i < j < |tiles| && Live(tiles[i]) && Live(tiles[j]) :: tiles[i].key != tiles[j].key
  }

  ghost predicate OneWaitPerOutput(waits: seq<Wait>)
  {
    && (forall i, j | 0 <= i < j < |waits| :: waits[i].output != waits[j].output)
    && (forall i | 0 <= i < |waits| :: waits[i].unmet != [])
  }

  /** `tile_in_flight`. */
  method TileInFlight(tiles: seq<PendingTile>, key: TileKey) returns (r: bool)
    ensures r <==> InFlight(tiles, key)
  {
    for i := 0 to |tiles|
      invariant forall j | 0 <= j < i && tiles[j].key == key :: !Live(tiles[j]) && !tiles[j].done.Succeeded?
    {
      if tiles[i].key != key {
        continue;
      }
      if tiles[i].done.Succeeded? {
        return true;
      }
      if tiles[i].done != Running {
        continue;
      }
      if !tiles[i].cancelled {
        return true;
      }
    }
    return false;
  }

  /** `input_pending`: presence in the queue, and nothing else. */
  method InputPending(tiles: seq<PendingTile>, key: TileKey) returns (r: bool)
    ensures r <==> Queued(tiles, key)
  {
    for i := 0 to |tiles|
      invariant forall j | 0 <= j < i :: tiles[j].key != key
    {
      if tiles[i].key == key {
        return true;
      }
    }
    return false;
  }

  /** `operator_wave_unmet`: the members of the output's unmet set still queued, in
      order; the wave is pending exactly when there are some. */
  method OperatorWaveUnmet(tiles: seq<PendingTile>, waits: seq<Wait>, output: TileKey) returns (still: seq<TileKey>)
    ensures forall k | k in still :: Queued(tiles, k)
    ensures still != [] <==> WavePending(tiles, waits, output)
    ensures forall w, u | 0 <= w < |waits| && waits[w].output == output && 0 <= u < |waits[w].unmet| ::
              Queued(tiles, waits[w].unmet[u]) ==> waits[w].unmet[u] in still
    ensures forall k | k in still :: exists w :: 0 <= w < |waits| && waits[w].output == output && k in waits[w].unmet
  {
    still := [];
    for w := 0 to |waits|
      invariant forall k | k in still :: Queued(tiles, k)
      invariant forall k | k in still :: exists v :: 0 <= v < w && waits[v].output == output && k in waits[v].unmet
      invariant forall v, u | 0 <= v < w && waits[v].output == output && 0 <= u < |waits[v].unmet| ::
                  Queued(tiles, waits[v].unmet[u]) ==> waits[v].unmet[u] in still
    {
      if waits[w].output != output {
        continue;
      }
      for u := 0 to |waits[w].unmet|
        invariant forall k | k in still :: Queued(tiles, k)
        invariant forall k | k in still :: exists v :: 0 <= v <= w && waits[v].output == output && k in waits[v].unmet
        invariant forall v, j | 0 <= v < w && waits[v].output == output && 0 <= j < |waits[v].unmet| ::
                    Queued(tiles, waits[v].unmet[j]) ==> waits[v].unmet[j] in still
        invariant forall j | 0 <= j < u :: Queued(tiles, waits[w].unmet[j]) ==> waits[w].unmet[j] in still
      {
        var key := waits[w].unmet[u];
        var pending := InputPending(tiles, key);
        if pending {
          assert key in waits[w].unmet;
          still := still + [key];
        }
      }
    }
    if still != [] {
      assert still[0] in still;
      var w :| 0 <= w < |waits| && waits[w].output == output && still[0] in waits[w].unmet;
      var u :| 0 <= u < |waits[w].unmet| && waits[w].unmet[u] == still[0];
    }
  }

  /** `record_operator_wait`: nothing unmet is no wave; a re-render replaces. */
  method RecordOperatorWait(waits: seq<Wait>, output: TileKey, unmet: seq<TileKey>) returns (waits': seq<Wait>)
    requires OneWaitPerOutput(waits)
    ensures OneWaitPerOutput(waits')
    ensures unmet == [] ==> waits' == waits
    ensures unmet != [] ==> Wait(output, unmet) in waits'
    ensures forall w | w in waits' :: w in waits || (w == Wait(output, unmet) && unmet != [])
    ensures forall w | w in waits && w.output != output :: w in waits'
  {
    if unmet == [] {
      return waits;
    }
    for i := 0 to |waits|
      invariant forall j | 0 <= j < i :: waits[j].output != output
    {
      if waits[i].output == output {
        waits' := waits[i := waits[i].(unmet := unmet)];
        forall w | w in waits && w.output != output ensures w in waits' {
          var j :| 0 <= j < |waits| && waits[j] == w;
          assert waits'[j] == w;
        }
        assert waits'[i] == Wait(output, unmet);
        return;
      }
    }
    return waits + [Wait(output, unmet)];
  }

  // ---- The deadline sweep ------------------------------------------------------------------

  /** The frame shows or pulls the tile, or an operator whose output it shows still waits
      for it. */
  ghost predicate Wanted(wanted: set<TileKey>, waits: seq<Wait>, key: TileKey)
  {
    || key in wanted
    || exists w :: 0 <= w < |waits| && waits[w].output in wanted && key in waits[w].unmet
  }

  /** `tile_wanted`. */
  method TileWanted(waits: seq<Wait>, wanted: set<TileKey>, key: TileKey) returns (r: bool)
    ensures r <==> Wanted(wanted, waits, key)
  {
    if key in wanted {
      return true;
    }
    for w := 0 to |waits|
      invariant forall v | 0 <= v < w && waits[v].output in wanted :: key !in waits[v].unmet
    {
      if waits[w].output !in wanted {
        continue;
      }
      for u := 0 to |waits[w].unmet|
        invariant forall j | 0 <= j < u :: waits[w].unmet[j] != key
      {
        if waits[w].unmet[u] == key {
          return true;
        }
      }
    }
    return false;
  }

  ghost predicate Abandoned(t: PendingTile, waits: seq<Wait>, wanted: set<TileKey>)
  {
    t.done == Running && !Wanted(wanted, waits, t.key)
  }

  /** What the sweep leaves: the abandoned renders are told to stop, the rest is as it was. */
  ghost predicate Swept(tiles: seq<PendingTile>, tiles': seq<PendingTile>, waits: seq<Wait>, wanted: set<TileKey>)
  {
    && |tiles'| == |tiles|
    && forall i | 0 <= i < |tiles| ::
         tiles'[i] == if Abandoned(tiles[i], waits, wanted) then tiles[i].(cancelled := true) else tiles[i]
  }

  ghost function AbandonedIn(tiles: seq<PendingTile>, waits: seq<Wait>, wanted: set<TileKey>): seq<PendingTile>
  {
    if tiles == [] then []
    else
      var front, last := AbandonedIn(tiles[..|tiles| - 1], waits, wanted), tiles[|tiles| - 1];
      if Abandoned(last, waits, wanted) then front + [last] else front
  }

  /** The sweep at an expired deadline. Its two counters split the unsettled renders. */
  method SweepTiles(tiles: seq<PendingTile>, waits: seq<Wait>, wanted: set<TileKey>)
    returns (tiles': seq<PendingTile>, retained: nat, cancelled: nat)
    ensures Swept(tiles, tiles', waits, wanted)
    ensures cancelled == |AbandonedIn(tiles, waits, wanted)| && retained + cancelled == |Unsettled(tiles)|
  {
    tiles', retained, cancelled := tiles, 0, 0;
    assert tiles[..0] == [];
    for i := 0 to |tiles|
      invariant |tiles'| == |tiles| && tiles'[i..] == tiles[i..]
      invariant forall j | 0 <= j < i ::
                  tiles'[j] == if Abandoned(tiles[j], waits, wanted) then tiles[j].(cancelled := true) else tiles[j]
      invariant cancelled == |AbandonedIn(tiles[..i], waits, wanted)| && retained + cancelled == |Unsettled(tiles[..i])|
    {
      SweepStep(tiles, i, waits, wanted);
      assert tiles'[i] == tiles'[i..][0] && tiles[i] == tiles[i..][0];
      assert tiles'[i..][1..] == tiles'[i + 1..] && tiles[i..][1..] == tiles[i + 1..];
      if tiles'[i].done != Running {
        continue;
      }
      var keep := TileWanted(waits, wanted, tiles'[i].key);
      if keep {
        retained := retained + 1;
        continue;
      }
      tiles' := tiles'[i := tiles'[i].(cancelled := true)];
      cancelled := cancelled + 1;
    }
    assert tiles[..|tiles|] == tiles;
  }

  lemma SweepStep(tiles: seq<PendingTile>, i: nat, waits: seq<Wait>, wanted: set<TileKey>)
    requires i < |tiles|
    ensures |Unsettled(tiles[..i + 1])| == |Unsettled(tiles[..i])| + if tiles[i].done == Running then 1 else 0
    ensures |AbandonedIn(tiles[..i + 1], waits, wanted)|
         == |AbandonedIn(tiles[..i], waits, wanted)| + if Abandoned(tiles[i], waits, wanted) then 1 else 0
  {
    assert tiles[..i + 1][..i] == tiles[..i];
  }

  // ---- The poll ----------------------------------------------------------------------------

  /** What stays queued: what has not settled. */
  ghost function Unsettled(tiles: seq<PendingTile>): seq<PendingTile>
  {
    if tiles == [] then []
    else
      var front, last := Unsettled(tiles[..|tiles| - 1]), tiles[|tiles| - 1];
      if last.done == Running then front + [last] else front
  }

  /** What arrived: every success, in queue order. */
  ghost function Arrivals(tiles: seq<PendingTile>): seq<PendingTile>
  {
    if tiles == [] then []
    else
      var front, last := Arrivals(tiles[..|tiles| - 1]), tiles[|tiles| - 1];
      if last.done.Succeeded? then front + [last] else front
  }

  ghost predicate AllSucceeded(arrivals: seq<PendingTile>)
  {
    forall i | 0 <= i < |arrivals| :: arrivals[i].done.Succeeded?
  }

  /** The cache after inserting the arrivals in order. */
  ghost function Inserted(cache: map<TileKey, Tile>, arrivals: seq<PendingTile>): map<TileKey, Tile>
    requires AllSucceeded(arrivals)
  {
    if arrivals == [] then cache
    else
      var last := arrivals[|arrivals| - 1];
      Inserted(cache, arrivals[..|arrivals| - 1])[last.key := last.done.tile]
  }

  ghost function Damages(arrivals: seq<PendingTile>): seq<Damage>
  {
    if arrivals == [] then [] else Damages(arrivals[..|arrivals| - 1]) + [DamageOf(arrivals[|arrivals| - 1].key)]
  }

  ghost predicate NamesQueued(w: Wait, tiles: seq<PendingTile>)
  {
    exists u :: 0 <= u < |w.unmet| && Queued(tiles, w.unmet[u])
  }

  /** The waits whose wave has not ended. */
  ghost function Surviving(waits: seq<Wait>, tiles: seq<PendingTile>): seq<Wait>
  {
    if waits == [] then []
    else
      var front, last := Surviving(waits[..|waits| - 1], tiles), waits[|waits| - 1];
      if NamesQueued(last, tiles) then front + [last] else front
  }

  lemma {:induction false} ArrivalsSucceeded(tiles: seq<PendingTile>)
    ensures AllSucceeded(Arrivals(tiles))
    ensures forall t :: t in Arrivals(tiles) <==> t in tiles && t.done.Succeeded?
    ensures forall t :: t in Unsettled(tiles) <==> t in tiles && t.done == Running
  {
    if tiles != [] {
      var last := |tiles| - 1;
      ArrivalsSucceeded(tiles[..last]);
      assert tiles == tiles[..last] + [tiles[last]];
    }
  }

  lemma NoArrivals(cache: map<TileKey, Tile>)
    ensures Unsettled([]) == [] && Arrivals([]) == [] && Damages([]) == [] && Inserted(cache, []) == cache
  {
  }

  /** One entry more. */
  lemma PollStep(tiles: seq<PendingTile>, i: nat)
    requires i < |tiles|
    ensures AllSucceeded(Arrivals(tiles[..i])) && AllSucceeded(Arrivals(tiles[..i + 1]))
    ensures var before := Unsettled(tiles[..i]);
            Unsettled(tiles[..i + 1]) == if tiles[i].done == Running then before + [tiles[i]] else before
    ensures var before := Arrivals(tiles[..i]);
            Arrivals(tiles[..i + 1]) == if tiles[i].done.Succeeded? then before + [tiles[i]] else before
  {
    assert tiles[..i + 1][..i] == tiles[..i];
    ArrivalsSucceeded(tiles[..i]);
    ArrivalsSucceeded(tiles[..i + 1]);
  }

  /** One arrival more. */
  lemma ArrivalStep(cache: map<TileKey, Tile>, arrivals: seq<PendingTile>, t: PendingTile)
    requires AllSucceeded(arrivals) && t.done.Succeeded?
    ensures AllSucceeded(arrivals + [t]) && Inserted(cache, arrivals + [t]) == Inserted(cache, arrivals)[t.key := t.done.tile]
    ensures Damages(arrivals + [t]) == Damages(arrivals) + [DamageOf(t.key)]
  {
    assert (arrivals + [t])[..|arrivals|] == arrivals;
  }

  /** `poll_refinements`. */
  method Poll(tiles: seq<PendingTile>, waits: seq<Wait>, cache: map<TileKey, Tile>)
    returns (tiles': seq<PendingTile>, waits': seq<Wait>, cache': map<TileKey, Tile>, damage: seq<Damage>)
    ensures tiles' == Unsettled(tiles) && AllSucceeded(Arrivals(tiles))
    ensures cache' == Inserted(cache, Arrivals(tiles)) && damage == Damages(Arrivals(tiles))
    ensures waits' == Surviving(waits, tiles')
  {
    tiles', cache', damage := [], cache, [];
    assert tiles[..0] == [];
    ArrivalsSucceeded([]);
    NoArrivals(cache);
    hide Unsettled, Arrivals, Inserted, Damages, AllSucceeded, Surviving;
    for i := 0 to |tiles|
      invariant AllSucceeded(Arrivals(tiles[..i]))
      invariant tiles' == Unsettled(tiles[..i])
      invariant cache' == Inserted(cache, Arrivals(tiles[..i])) && damage == Damages(Arrivals(tiles[..i]))
    {
      var pending := tiles[i];
      PollStep(tiles, i);
      if pending.done == Running {
        tiles' := tiles' + [pending];
        continue;
      }
      if pending.done.Succeeded? {
        ArrivalStep(cache, Arrivals(tiles[..i]), pending);
        cache' := cache'[pending.key := pending.done.tile];
        damage := damage + [DamageOf(pending.key)];
      }
    }
    assert tiles[..|tiles|] == tiles;
    waits' := Prune(waits, tiles');
  }

  method Prune(waits: seq<Wait>, tiles: seq<PendingTile>) returns (waits': seq<Wait>)
    ensures waits' == Surviving(waits, tiles)
  {
    waits' := [];
    for w := 0 to |waits|
      invariant waits' == Surviving(waits[..w], tiles)
    {
      assert waits[..w + 1][..w] == waits[..w];
      var u, keep := 0, false;
      while u < |waits[w].unmet| && !keep
        invariant 0 <= u <= |waits[w].unmet|
        invariant if keep then NamesQueued(waits[w], tiles) else forall j | 0 <= j < u :: !Queued(tiles, waits[w].unmet[j])
        decreases |waits[w].unmet| - u, if keep then 0 else 1
      {
        keep := InputPending(tiles, waits[w].unmet[u]);
        if !keep {
          u := u + 1;
        }
      }
      if keep {
        waits' := waits' + [waits[w]];
      }
    }
    assert waits[..|waits|] == waits;
  }

  // ---- What a poll promises -------------------------------------------------------------------

  ghost predicate Arrived(arrivals: seq<PendingTile>, key: TileKey)
  {
    exists i :: 0 <= i < |arrivals| && arrivals[i].key == key
  }

  ghost predicate LastFor(arrivals: seq<PendingTile>, key: TileKey, i: int)
  {
    0 <= i < |arrivals| && arrivals[i].key == key && forall j | i < j < |arrivals| :: arrivals[j].key != key
  }

  /** Every settled success becomes a cache entry (the last one for its key), and
      every other entry of the cache is as it was. */
  lemma {:induction false} InsertedIs(cache: map<TileKey, Tile>, arrivals: seq<PendingTile>, key: TileKey)
    requires AllSucceeded(arrivals)
    ensures Arrived(arrivals, key) ==> key in Inserted(cache, arrivals) && exists i :: LastFor(arrivals, key, i)
    ensures forall i | LastFor(arrivals, key, i) :: key in Inserted(cache, arrivals) && Inserted(cache, arrivals)[key] == arrivals[i].done.tile
    ensures !Arrived(arrivals, key) ==>
              (key in Inserted(cache, arrivals) <==> key in cache) && (key in cache ==> Inserted(cache, arrivals)[key] == cache[key])
  {
    if arrivals != [] {
      var last := |arrivals| - 1;
      var front := arrivals[..last];
      InsertedIs(cache, front, key);
      if arrivals[last].key == key {
        assert LastFor(arrivals, key, last);
        assert forall i | LastFor(arrivals, key, i) :: i == last;
      } else {
        assert Arrived(arrivals, key) <==> Arrived(front, key) by {
          forall i | 0 <= i < last ensures front[i] == arrivals[i] {}
        }
        forall i ensures LastFor(arrivals, key, i) <==> LastFor(front, key, i) {
          LastOfFront(arrivals, key, i);
        }
      }
    }
  }

  lemma LastOfFront(arrivals: seq<PendingTile>, key: TileKey, i: int)
    requires arrivals != [] && arrivals[|arrivals| - 1].key != key
    ensures LastFor(arrivals, key, i) <==> LastFor(arrivals[..|arrivals| - 1], key, i)
  {
    var front := arrivals[..|arrivals| - 1];
    if LastFor(front, key, i) {
      forall j | i < j < |arrivals| ensures arrivals[j].key != key {
        if j < |front| {
          assert front[j] == arrivals[j];
        }
      }
    }
  }

  /** One damage record per success, at its own cell, and none for a failure. */
  lemma {:induction false} DamagesAre(arrivals: seq<PendingTile>)
    ensures |Damages(arrivals)| == |arrivals|
    ensures forall i | 0 <= i < |arrivals| ::
              var d, key := Damages(arrivals)[i], arrivals[i].key;
              && d.content == key.content && d.rung == key.rung && d.x == key.x && d.y == key.y
              && (key.time.None? ==> d.time == 0) && (key.time.Some? ==> d.time == key.time.value)
  {
    if arrivals != [] {
      DamagesAre(arrivals[..|arrivals| - 1]);
    }
  }

  /** What settled without a result, or whose result was taken before. */
  ghost function Lost(tiles: seq<PendingTile>): seq<PendingTile>
  {
    if tiles == [] then []
    else
      var front, last := Lost(tiles[..|tiles| - 1]), tiles[|tiles| - 1];
      if last.done == Failed || last.done == Taken then front + [last] else front
  }

  /** A poll accounts for every entry once: still queued, arrived with its damage, or
      dropped. */
  lemma {:induction false} PollAccountsForEach(tiles: seq<PendingTile>)
    ensures multiset(tiles) == multiset(Unsettled(tiles)) + multiset(Arrivals(tiles)) + multiset(Lost(tiles))
  {
    if tiles != [] {
      var last := |tiles| - 1;
      PollAccountsForEach(tiles[..last]);
      assert tiles == tiles[..last] + [tiles[last]];
    }
  }

  lemma {:induction false} SurvivingAre(waits: seq<Wait>, tiles: seq<PendingTile>)
    ensures forall w :: w in Surviving(waits, tiles) <==> w in waits && NamesQueued(w, tiles)
    ensures OneWaitPerOutput(waits) ==> OneWaitPerOutput(Surviving(waits, tiles))
  {
    if waits != [] {
      var last := |waits| - 1;
      SurvivingAre(waits[..last], tiles);
      assert waits == waits[..last] + [waits[last]];
      var front := Surviving(waits[..last], tiles);
      assert Surviving(waits, tiles) == if NamesQueued(waits[last], tiles) then front + [waits[last]] else front;
      hide Surviving, NamesQueued;
      if OneWaitPerOutput(waits) {
        OneMoreWait(waits[..last], front, waits[last]);
      }
    }
  }

  lemma OneMoreWait(waits: seq<Wait>, front: seq<Wait>, w: Wait)
    requires OneWaitPerOutput(waits + [w]) && (OneWaitPerOutput(waits) ==> OneWaitPerOutput(front))
    requires forall x | x in front :: x in waits
    ensures OneWaitPerOutput(front) && OneWaitPerOutput(front + [w])
  {
    var all := waits + [w];
    assert all[..|waits|] == waits && all[|waits|] == w;
    forall x | x in front ensures x.output != w.output {
      var i :| 0 <= i < |waits| && waits[i] == x;
      assert all[i] == x;
    }
    forall i | 0 <= i < |front| ensures front[i].output != w.output {
      assert front[i] in front;
    }
  }

  /** The waves the drain ended are exactly those with nothing left in the queue, so
      an emptied queue leaves no operator gated. */
  lemma EmptyQueueOpensEveryGate(tiles: seq<PendingTile>, waits: seq<Wait>, output: TileKey)
    requires Unsettled(tiles) == []
    ensures Surviving(waits, Unsettled(tiles)) == [] && !WavePending(Unsettled(tiles), waits, output)
  {
    SurvivingAre(waits, []);
    if Surviving(waits, []) != [] {
      var w := Surviving(waits, [])[0];
      assert w in Surviving(waits, []);
    }
  }

  /** Pruning is bookkeeping: it moves no gate. */
  lemma PruneMovesNoGate(waits: seq<Wait>, tiles: seq<PendingTile>, output: TileKey)
    ensures WavePending(tiles, Surviving(waits, tiles), output) <==> WavePending(tiles, waits, output)
  {
    SurvivingAre(waits, tiles);
    var kept := Surviving(waits, tiles);
    if WavePending(tiles, waits, output) {
      var w, u :| 0 <= w < |waits| && waits[w].output == output && 0 <= u < |waits[w].unmet| && Queued(tiles, waits[w].unmet[u]);
      assert waits[w] in waits && NamesQueued(waits[w], tiles);
      var v :| 0 <= v < |kept| && kept[v] == waits[w];
      assert Queued(tiles, kept[v].unmet[u]);
    }
    if WavePending(tiles, kept, output) {
      var w, u :| 0 <= w < |kept| && kept[w].output == output && 0 <= u < |kept[w].unmet| && Queued(tiles, kept[w].unmet[u]);
      assert kept[w] in kept;
      var v :| 0 <= v < |waits| && waits[v] == kept[w];
      assert Queued(tiles, waits[v].unmet[u]);
    }
  }

  /** A suppressed tile is never stranded: if the gate holds a dispatch back, then
      after the next poll the tile is in the cache, or a live render of it is still
      queued. */
  lemma SuppressedTileArrives(tiles: seq<PendingTile>, cache: map<TileKey, Tile>, key: TileKey)
    requires InFlight(tiles, key)
    ensures AllSucceeded(Arrivals(tiles))
    ensures key in Inserted(cache, Arrivals(tiles)) || exists t :: t in Unsettled(tiles) && t.key == key && Live(t)
  {
    ArrivalsSucceeded(tiles);
    var i :| 0 <= i < |tiles| && tiles[i].key == key && (Live(tiles[i]) || tiles[i].done.Succeeded?);
    assert tiles[i] in tiles;
    if tiles[i].done.Succeeded? {
      var arrivals := Arrivals(tiles);
      assert tiles[i] in arrivals;
      var k :| 0 <= k < |arrivals| && arrivals[k] == tiles[i];
      assert Arrived(arrivals, key);
      InsertedIs(cache, arrivals, key);
    } else {
      assert tiles[i] in Unsettled(tiles);
    }
  }

  /** ... and a key with nothing but dead entries is dispatched again. */
  lemma DeadRendersDoNotSuppress(tiles: seq<PendingTile>, key: TileKey)
    ensures !InFlight(tiles, key) <==>
              forall i | 0 <= i < |tiles| && tiles[i].key == key ::
                tiles[i].done == Failed || tiles[i].done == Taken || (tiles[i].done == Running && tiles[i].cancelled)
  {
  }

  // ---- What the sweep promises -----------------------------------------------------------------

  /** It cancels exactly the unsettled renders of tiles nobody wants: none the frame shows,
      and none that a shown operator's wave still owes. It opens and closes no wave's gate,
      and a wanted tile is in flight after it exactly when it was before. */
  lemma SweepSparesWhatIsOwed(tiles: seq<PendingTile>, tiles': seq<PendingTile>, waits: seq<Wait>, wanted: set<TileKey>)
    requires Swept(tiles, tiles', waits, wanted)
    ensures forall i | 0 <= i < |tiles| :: tiles'[i].key == tiles[i].key && tiles'[i].done == tiles[i].done
    ensures forall i | 0 <= i < |tiles| ::
              tiles'[i].cancelled <==> tiles[i].cancelled || (tiles[i].done == Running && !Wanted(wanted, waits, tiles[i].key))
    ensures forall w, i | 0 <= w < |waits| && waits[w].output in wanted && 0 <= i < |tiles| && tiles[i].key in waits[w].unmet ::
              tiles'[i] == tiles[i]
    ensures forall output: TileKey :: WavePending(tiles', waits, output) <==> WavePending(tiles, waits, output)
    ensures forall key: TileKey | Wanted(wanted, waits, key) :: InFlight(tiles', key) <==> InFlight(tiles, key)
  {
    forall key: TileKey ensures Queued(tiles', key) <==> Queued(tiles, key) {
      SweptQueued(tiles, tiles', waits, wanted, key);
    }
    forall key: TileKey | Wanted(wanted, waits, key) ensures InFlight(tiles', key) <==> InFlight(tiles, key) {
      SweptInFlight(tiles, tiles', waits, wanted, key);
    }
    hide Queued, InFlight;
    forall w, i | 0 <= w < |waits| && waits[w].output in wanted && 0 <= i < |tiles| && tiles[i].key in waits[w].unmet
      ensures tiles'[i] == tiles[i]
    {
      assert Wanted(wanted, waits, tiles[i].key);
    }
  }

  lemma SweptQueued(tiles: seq<PendingTile>, tiles': seq<PendingTile>, waits: seq<Wait>, wanted: set<TileKey>, key: TileKey)
    requires Swept(tiles, tiles', waits, wanted)
    ensures Queued(tiles', key) <==> Queued(tiles, key)
  {
    hide Wanted;
    if Queued(tiles, key) {
      var i :| 0 <= i < |tiles| && tiles[i].key == key;
      assert tiles'[i].key == key;
    }
  }

  lemma SweptInFlight(tiles: seq<PendingTile>, tiles': seq<PendingTile>, waits: seq<Wait>, wanted: set<TileKey>, key: TileKey)
    requires Swept(tiles, tiles', waits, wanted) && Wanted(wanted, waits, key)
    ensures InFlight(tiles', key) <==> InFlight(tiles, key)
  {
    hide Wanted;
    if InFlight(tiles, key) {
      var i :| 0 <= i < |tiles| && tiles[i].key == key && (Live(tiles[i]) || tiles[i].done.Succeeded?);
      assert tiles'[i] == tiles[i];
    }
  }

  /** So what a shown operator waits for, once in flight, is cached or still in flight after
      an expired deadline and the poll that follows it. */
  lemma OwedInputArrives(tiles: seq<PendingTile>, tiles': seq<PendingTile>, waits: seq<Wait>, wanted: set<TileKey>,
                         cache: map<TileKey, Tile>, w: nat, key: TileKey)
    requires Swept(tiles, tiles', waits, wanted) && InFlight(tiles, key)
    requires w < |waits| && waits[w].output in wanted && key in waits[w].unmet
    ensures AllSucceeded(Arrivals(tiles'))
    ensures key in Inserted(cache, Arrivals(tiles')) || exists t :: t in Unsettled(tiles') && t.key == key && Live(t)
  {
    assert Wanted(wanted, waits, key);
    SweptInFlight(tiles, tiles', waits, wanted, key);
    SuppressedTileArrives(tiles', cache, key);
  }

  /** The queue and the waits between two steps of the loop or of a worker. */
  datatype Pending = Pending(tiles: seq<PendingTile>, waits: seq<Wait>)

  /** A worker settles a render, a dispatch site queues one, an operator other than `output`
      records its wait, an expired frame that shows `output` sweeps, or a frame polls. */
  ghost predicate LoopStep(p: Pending, p': Pending, output: TileKey)
  {
    || (exists i, result :: 0 <= i < |p.tiles| && p.tiles[i].done == Running && result != Running
          && p' == p.(tiles := p.tiles[i := p.tiles[i].(done := result)]))
    || (exists key :: p' == p.(tiles := p.tiles + [PendingTile(key, Running, false)]))
    || (p'.tiles == p.tiles && forall w | w in p'.waits && w.output == output :: w in p.waits)
    || (exists wanted :: output in wanted && Swept(p.tiles, p'.tiles, p.waits, wanted) && p'.waits == p.waits)
    || (p'.tiles == Unsettled(p.tiles) && p'.waits == Surviving(p.waits, p'.tiles))
  }

  /** No unsettled render of `key` has been told to stop. */
  ghost predicate NotCancelled(tiles: seq<PendingTile>, key: TileKey)
  {
    forall t | t in tiles && t.key == key && t.done == Running :: !t.cancelled
  }

  /** Whatever the workers do and however many deadlines expire, as long as the frames show
      the operator's output nothing cancels the renders its wait names. */
  lemma {:induction false} WaveNeverCancelled(run: seq<Pending>, i: nat, wait: Wait, key: TileKey)
    requires i < |run| && wait in run[i].waits && key in wait.unmet
    requires forall j, k | 0 <= j && k == j + 1 < |run| :: LoopStep(run[j], run[k], wait.output)
    requires NotCancelled(run[0].tiles, key)
    ensures NotCancelled(run[i].tiles, key)
  {
    if i > 0 {
      assert LoopStep(run[i - 1], run[i], wait.output);
      WaitWasThere(run[i - 1], run[i], wait);
      WaveNeverCancelled(run, i - 1, wait, key);
      StepCancelsNoOwed(run[i - 1], run[i], wait, key);
    }
  }

  lemma WaitWasThere(p: Pending, p': Pending, wait: Wait)
    requires LoopStep(p, p', wait.output) && wait in p'.waits
    ensures wait in p.waits
  {
    SurvivingAre(p.waits, p'.tiles);
  }

  lemma StepCancelsNoOwed(p: Pending, p': Pending, wait: Wait, key: TileKey)
    requires LoopStep(p, p', wait.output) && wait in p.waits && key in wait.unmet && NotCancelled(p.tiles, key)
    ensures NotCancelled(p'.tiles, key)
  {
    ArrivalsSucceeded(p.tiles);
    forall t | t in p'.tiles && t.key == key && t.done == Running ensures !t.cancelled {
      if t !in p.tiles && t != PendingTile(key, Running, false) {
        var wanted :| wait.output in wanted && Swept(p.tiles, p'.tiles, p.waits, wanted);
        SweptOwed(p.tiles, p'.tiles, p.waits, wanted, wait, t);
      }
    }
  }

  lemma SweptOwed(tiles: seq<PendingTile>, tiles': seq<PendingTile>, waits: seq<Wait>, wanted: set<TileKey>, wait: Wait,
                  t: PendingTile)
    requires Swept(tiles, tiles', waits, wanted) && wait in waits && wait.output in wanted
    requires t in tiles' && t.key in wait.unmet
    ensures t in tiles
  {
    assert Wanted(wanted, waits, t.key);
  }

  lemma {:induction false} UnsettledKeepsOneLive(tiles: seq<PendingTile>)
    requires OneLivePerKey(tiles)
    ensures OneLivePerKey(Unsettled(tiles))
  {
    if tiles != [] {
      var last := |tiles| - 1;
      UnsettledKeepsOneLive(tiles[..last]);
      ArrivalsSucceeded(tiles[..last]);
      var front := Unsettled(tiles[..last]);
      forall i | 0 <= i < |front| && Live(front[i]) && Live(tiles[last]) ensures front[i].key != tiles[last].key {
        assert front[i] in front;
        var j :| 0 <= j < last && tiles[..last][j] == front[i];
        assert tiles[j] == front[i];
      }
    }
  }

  lemma SweptKeepsOneLive(tiles: seq<PendingTile>, tiles': seq<PendingTile>, waits: seq<Wait>, wanted: set<TileKey>)
    requires OneLivePerKey(tiles) && Swept(tiles, tiles', waits, wanted)
    ensures OneLivePerKey(tiles')
  {
    hide Wanted;
    forall i | 0 <= i < |tiles| ensures tiles'[i].key == tiles[i].key && (Live(tiles'[i]) ==> Live(tiles[i])) {}
  }

  // ---- The frame loop ---------------------------------------------------------------------------

  /** A resident tile that needs no render: exact, at its own rung's scale. */
  predicate Fresh(cache: map<TileKey, Tile>, key: TileKey)
  {
    key in cache && cache[key].exact && cache[key].atRung
  }

  /** What a dispatch site does with a tile it needs. */
  datatype Action = Deliver(tile: Tile) | Join | Defer(placeholder: Tile, still: seq<TileKey>) | Render

  /** The runtime's frame-to-frame state. */
  class FrameLoop {
    var tiles: seq<PendingTile>
    var waits: seq<Wait>
    var cache: map<TileKey, Tile>
    /** Deadlines that expired, and what their sweeps kept and cancelled. */
    var expiries: nat
    var retained: nat
    var cancelled: nat

    ghost predicate Valid()
      reads this
    {
      OneLivePerKey(tiles) && OneWaitPerOutput(waits)
    }

    constructor ()
      ensures Valid() && tiles == [] && waits == [] && cache == map[] && expiries == retained == cancelled == 0
    {
      tiles, waits, cache := [], [], map[];
      expiries, retained, cancelled := 0, 0, 0;
    }

    /** The driver's gate: a miss is rendered unless its render is in flight or its
        wave is still running. */
    method PlanGate(key: TileKey, isMiss: bool) returns (render: bool)
      requires Valid()
      ensures render <==> isMiss && !InFlight(tiles, key) && !WavePending(tiles, waits, key)
    {
      var inFlight := TileInFlight(tiles, key);
      var still := OperatorWaveUnmet(tiles, waits, key);
      render := isMiss && !inFlight && still == [];
    }

    /** The pull service's gates, in order: an exact resident tile, a render in
        flight, a running wave with a placeholder to show, else render. Whatever it
        reports unmet is really in the queue. */
    method PullGate(key: TileKey) returns (action: Action, unmet: seq<TileKey>)
      requires Valid()
      ensures action.Deliver? <==> Fresh(cache, key)
      ensures action.Deliver? ==> action.tile == cache[key]
      ensures action == Join <==> !Fresh(cache, key) && InFlight(tiles, key)
      ensures action.Defer? <==>
                key in cache && cache[key].atRung && !cache[key].exact && !InFlight(tiles, key) && WavePending(tiles, waits, key)
      ensures action.Defer? ==> action.placeholder == cache[key] && action.still == unmet != []
      ensures forall k | k in unmet :: Queued(tiles, k)
    {
      if Fresh(cache, key) {
        return Deliver(cache[key]), [];
      }
      var inFlight := TileInFlight(tiles, key);
      if inFlight {
        var i :| 0 <= i < |tiles| && tiles[i].key == key;
        return Join, [key];
      }
      var still := OperatorWaveUnmet(tiles, waits, key);
      if still != [] && key in cache && cache[key].atRung {
        return Defer(cache[key], still), still;
      }
      return Render, [];
    }

    /** A gated dispatch whose render did not answer inline. */
    method Dispatch(key: TileKey)
      requires Valid() && !InFlight(tiles, key)
      modifies this`tiles
      ensures Valid() && tiles == old(tiles) + [PendingTile(key, Running, false)]
    {
      forall i | 0 <= i < |tiles| && tiles[i].key == key ensures !Live(tiles[i]) {}
      tiles := tiles + [PendingTile(key, Running, false)];
    }

    /** A gated dispatch that answered inline; an inexact answer records its wave. */
    method AnswerInline(key: TileKey, tile: Tile, unmet: seq<TileKey>)
      requires Valid() && !InFlight(tiles, key)
      modifies this`cache, this`waits
      ensures Valid() && cache == old(cache)[key := tile]
      ensures tile.exact ==> waits == old(waits)
      ensures !tile.exact && unmet != [] ==> Wait(key, unmet) in waits
      ensures forall w | w in waits :: w in old(waits) || (w == Wait(key, unmet) && unmet != [] && !tile.exact)
      ensures forall w | w in old(waits) && w.output != key :: w in waits
    {
      cache := cache[key := tile];
      if !tile.exact {
        waits := RecordOperatorWait(waits, key, unmet);
      }
    }

    /** A worker finishes entry `i`, with a result or a failure. */
    method Settle(i: nat, result: Completion)
      requires Valid() && i < |tiles| && tiles[i].done == Running && (result.Succeeded? || result == Failed)
      modifies this`tiles
      ensures Valid() && tiles == old(tiles)[i := old(tiles)[i].(done := result)]
    {
      tiles := tiles[i := tiles[i].(done := result)];
    }

    /** Enforcing the deadline: a frame whose park ended with every render settled leaves
        the queue alone, an expired one sweeps it. */
    method EnforceDeadline(expired: bool, wanted: set<TileKey>)
      requires Valid()
      modifies this`tiles, this`expiries, this`retained, this`cancelled
      ensures Valid()
      ensures !expired ==> tiles == old(tiles) && expiries == old(expiries)
      ensures !expired ==> retained == old(retained) && cancelled == old(cancelled)
      ensures expired ==> Swept(old(tiles), tiles, waits, wanted) && expiries == old(expiries) + 1
      ensures expired ==> cancelled == old(cancelled) + |AbandonedIn(old(tiles), waits, wanted)|
      ensures expired ==> retained + cancelled == old(retained) + old(cancelled) + |Unsettled(old(tiles))|
    {
      if expired {
        expiries := expiries + 1;
        var swept, kept, dropped := SweepTiles(tiles, waits, wanted);
        SweptKeepsOneLive(tiles, swept, waits, wanted);
        tiles, retained, cancelled := swept, retained + kept, cancelled + dropped;
      }
    }

    /** The unconditional drain of every frame. */
    method PollFrame() returns (damage: seq<Damage>)
      requires Valid()
      modifies this
      ensures Valid() && AllSucceeded(Arrivals(old(tiles)))
      ensures tiles == Unsettled(old(tiles)) && cache == Inserted(old(cache), Arrivals(old(tiles)))
      ensures damage == Damages(Arrivals(old(tiles))) && waits == Surviving(old(waits), tiles)
      ensures forall w | w in waits :: NamesQueued(w, tiles)
    {
      UnsettledKeepsOneLive(tiles);
      SurvivingAre(waits, Unsettled(tiles));
      var tiles', waits', cache';
      tiles', waits', cache', damage := Poll(tiles, waits, cache);
      tiles, waits, cache := tiles', waits', cache';
    }
  }
}
