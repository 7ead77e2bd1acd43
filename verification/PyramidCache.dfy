/** The decoded-image cache: one entry per resolved URI, an owned pyramid that a byte
    budget may drop and the retained encoded bytes may rebuild, and residency pins. */
module PyramidCache {
  import opened Wrappers

  type Uri = string

  type Bytes = seq<nat>

  /** A decoded pyramid: its pixels, and the bytes all its levels occupy. */
  datatype Pyramid = Pyramid(pixels: int, size: nat)

  /** The decoder, a function of the encoded bytes. */
  type Decoder = Bytes -> Option<Pyramid>

  datatype Entry = Entry(encoded: Bytes, resident: Option<Pyramid>, size: nat, pins: nat, recency: nat)

  type Entries = map<Uri, Entry>

  // ---- What the cache holds --------------------------------------------------------------------

  /** The bytes first admitted for each URI: all a reader's answers depend on. */
  ghost function Admitted(entries: Entries): map<Uri, Bytes>
  {
    map u | u in entries :: entries[u].encoded
  }

  /** The sizes of the resident pyramids, added up. */
  ghost function ResidentSize(entries: Entries): nat
  {
    if entries == map[] then 0 else
    var u :| u in entries;
    entries[u].size + ResidentSize(entries - {u})
  }

  predicate Evictable(e: Entry)
  {
    e.resident.Some? && e.pins == 0
  }

  ghost predicate EntryOk(decode: Decoder, e: Entry)
  {
    && decode(e.encoded).Some?
    && (e.resident.Some? ==> e.resident == decode(e.encoded) && e.size == e.resident.value.size)
    && (e.resident.None? ==> e.size == 0 && e.pins == 0)
  }

  /** Every entry is sound, no two were used at the same tick. */
  ghost predicate Sound(decode: Decoder, entries: Entries, tick: nat)
  {
    && (forall u | u in entries :: EntryOk(decode, entries[u]) && entries[u].recency <= tick)
    && (forall u, v | u in entries && v in entries && u != v :: entries[u].recency != entries[v].recency)
  }

  /** Within the budget, or nothing left that may be dropped. */
  ghost predicate Fits(entries: Entries, budget: nat)
  {
    ResidentSize(entries) <= budget || forall u | u in entries :: !Evictable(entries[u])
  }

  lemma {:induction false} SizeSplits(entries: Entries, u: Uri)
    requires u in entries
    ensures ResidentSize(entries) == entries[u].size + ResidentSize(entries - {u})
    decreases |entries|
  {
    var v :| v in entries && ResidentSize(entries) == entries[v].size + ResidentSize(entries - {v});
    if v != u {
      Fewer(entries, v);
      Fewer(entries, u);
      SizeSplits(entries - {v}, u);
      SizeSplits(entries - {u}, v);
      assert entries - {v} - {u} == entries - {u} - {v};
    }
  }

  lemma Fewer(entries: Entries, u: Uri)
    requires u in entries
    ensures |entries - {u}| < |entries|
  {
    assert (entries - {u}).Keys == entries.Keys - {u};
    assert |entries.Keys - {u}| == |entries.Keys| - 1;
  }

  /** Replacing or adding one entry changes the total by that entry alone. */
  lemma SizeOfUpdate(entries: Entries, u: Uri, e: Entry)
    ensures ResidentSize(entries[u := e]) == ResidentSize(entries - {u}) + e.size
    ensures u in entries ==> ResidentSize(entries) == ResidentSize(entries - {u}) + entries[u].size
    ensures u !in entries ==> entries - {u} == entries
  {
    SizeSplits(entries[u := e], u);
    assert entries[u := e] - {u} == entries - {u};
    if u in entries {
      SizeSplits(entries, u);
    } else {
      assert entries - {u} == entries;
    }
  }

  // ---- Eviction --------------------------------------------------------------------------------

  /** `pick_victim_locked`: the least recently used entry that may be dropped, whatever
      order the table is walked in. */
  method PickVictim(entries: Entries) returns (victim: Option<Uri>)
    ensures victim.None? <==> forall u | u in entries :: !Evictable(entries[u])
    ensures victim.Some? ==>
              && victim.value in entries && Evictable(entries[victim.value])
              && forall u | u in entries && Evictable(entries[u]) :: entries[victim.value].recency <= entries[u].recency
  {
    victim := None;
    var left := entries.Keys;
    while left != {}
      invariant left <= entries.Keys
      invariant victim.None? <==> forall u | u in entries.Keys - left :: !Evictable(entries[u])
      invariant victim.Some? ==>
                  && victim.value in entries && Evictable(entries[victim.value])
                  && forall u | u in entries.Keys - left && Evictable(entries[u]) :: entries[victim.value].recency <= entries[u].recency
      decreases |left|
    {
      var u :| u in left;
      left := left - {u};
      if Evictable(entries[u]) && (victim.None? || entries[u].recency < entries[victim.value].recency) {
        victim := Some(u);
      }
    }
  }

  function Dropped(e: Entry): Entry
  {
    e.(resident := None, size := 0)
  }

  /** `after` is `before` with some unpinned pyramids dropped. */
  ghost predicate SomeDropped(before: Entries, after: Entries)
  {
    && before.Keys == after.Keys
    && forall u | u in before :: after[u] == before[u] || (Evictable(before[u]) && after[u] == Dropped(before[u]))
  }

  ghost predicate WasDropped(before: Entries, after: Entries, u: Uri)
  {
    u in before && u in after && Evictable(before[u]) && after[u].resident.None?
  }

  /** What was dropped is older than every unpinned pyramid that was kept. */
  ghost predicate OldestFirst(before: Entries, after: Entries)
  {
    forall u, v | WasDropped(before, after, u) && v in after && Evictable(after[v]) :: before[u].recency < after[v].recency
  }

  /** Keeping the newest of the dropped would have been over the budget. */
  ghost predicate NoneInVain(before: Entries, after: Entries, budget: nat)
  {
    forall u | WasDropped(before, after, u) && (forall v | WasDropped(before, after, v) :: before[v].recency <= before[u].recency) ::
      ResidentSize(after) + before[u].size > budget
  }

  /** The outcome of trimming to a budget. */
  ghost predicate Trimmed(before: Entries, after: Entries, budget: nat)
  {
    SomeDropped(before, after) && Fits(after, budget) && OldestFirst(before, after) && NoneInVain(before, after, budget)
  }

  ghost function EvictableSet(entries: Entries): set<Uri>
  {
    set u | u in entries && Evictable(entries[u])
  }

  /** `evict_to_fit_locked`. The pinned set is never trimmed; what is dropped is the
      shortest run of least recently used pyramids that brings the total under budget,
      or all of the unpinned when that cannot. */
  method EvictToFit(decode: Decoder, entries: Entries, resident: nat, budget: nat, tick: nat)
    returns (entries': Entries, resident': nat)
    requires Sound(decode, entries, tick) && resident == ResidentSize(entries)
    ensures Sound(decode, entries', tick) && resident' == ResidentSize(entries')
    ensures Trimmed(entries, entries', budget)
  {
    entries', resident' := entries, resident;
    while resident' > budget
      invariant Sound(decode, entries', tick) && resident' == ResidentSize(entries')
      invariant SomeDropped(entries, entries')
      invariant OldestFirst(entries, entries') && NoneInVain(entries, entries', budget)
      decreases |EvictableSet(entries')|
    {
      var victim := PickVictim(entries');
      if victim.None? {
        return;
      }
      var u := victim.value;
      SizeOfUpdate(entries', u, Dropped(entries'[u]));
      DropOne(decode, entries, entries', u, budget, tick);
      resident' := resident' - entries'[u].size;
      entries' := entries'[u := Dropped(entries'[u])];
    }
  }

  lemma DropOne(decode: Decoder, before: Entries, now: Entries, u: Uri, budget: nat, tick: nat)
    requires Sound(decode, now, tick) && SomeDropped(before, now) && OldestFirst(before, now)
    requires ResidentSize(now) > budget && u in now && Evictable(now[u])
    requires forall v | v in now && Evictable(now[v]) :: now[u].recency <= now[v].recency
    ensures var next := now[u := Dropped(now[u])];
            && Sound(decode, next, tick) && SomeDropped(before, next) && OldestFirst(before, next)
            && NoneInVain(before, next, budget) && |EvictableSet(next)| < |EvictableSet(now)|
  {
    hide ResidentSize;
    var next := now[u := Dropped(now[u])];
    Replaced(decode, now, tick, u, next[u], tick);
    OneMoreDropped(before, now, u);
    hide Sound, OldestFirst, NoneInVain, SomeDropped, EvictableSet;
    DropOneKeepsOrder(decode, before, now, u, tick);
    SizeOfUpdate(now, u, next[u]);
    DropOneNotInVain(decode, before, now, u, budget, tick);
  }

  lemma OneMoreDropped(before: Entries, now: Entries, u: Uri)
    requires SomeDropped(before, now) && u in now && Evictable(now[u])
    ensures var next := now[u := Dropped(now[u])];
            SomeDropped(before, next) && now[u] == before[u] && |EvictableSet(next)| < |EvictableSet(now)|
  {
    assert EvictableSet(now) == EvictableSet(now[u := Dropped(now[u])]) + {u};
  }

  lemma DropOneKeepsOrder(decode: Decoder, before: Entries, now: Entries, u: Uri, tick: nat)
    requires Sound(decode, now, tick) && SomeDropped(before, now) && OldestFirst(before, now)
    requires u in now && Evictable(now[u])
    requires forall v | v in now && Evictable(now[v]) :: now[u].recency <= now[v].recency
    ensures OldestFirst(before, now[u := Dropped(now[u])])
    ensures forall v :: WasDropped(before, now[u := Dropped(now[u])], v) <==> WasDropped(before, now, v) || v == u
    ensures forall v | WasDropped(before, now, v) :: before[v].recency < before[u].recency
  {
  }

  lemma DropOneNotInVain(decode: Decoder, before: Entries, now: Entries, u: Uri, budget: nat, tick: nat)
    requires SomeDropped(before, now) && ResidentSize(now) > budget && u in now && Evictable(now[u])
    requires var next := now[u := Dropped(now[u])];
             && ResidentSize(now) == ResidentSize(next) + now[u].size
             && forall v :: WasDropped(before, next, v) <==> WasDropped(before, now, v) || v == u
    requires forall v | WasDropped(before, now, v) :: before[v].recency < before[u].recency
    ensures NoneInVain(before, now[u := Dropped(now[u])], budget)
  {
    hide ResidentSize;
    var next := now[u := Dropped(now[u])];
    assert WasDropped(before, next, u);
    forall w | WasDropped(before, next, w) && (forall v | WasDropped(before, next, v) :: before[v].recency <= before[w].recency)
      ensures ResidentSize(next) + before[w].size > budget
    {
      assert before[u].recency <= before[w].recency;
      assert w == u;
    }
  }

  /** Replacing or adding one sound entry, with a new tick or the one it had. */
  lemma Replaced(decode: Decoder, entries: Entries, tick: nat, u: Uri, e: Entry, tick': nat)
    requires Sound(decode, entries, tick) && EntryOk(decode, e) && tick <= tick' && e.recency <= tick'
    requires e.recency > tick || (u in entries && e.recency == entries[u].recency)
    ensures Sound(decode, entries[u := e], tick')
  {
  }

  lemma EntryIsOk(decode: Decoder, entries: Entries, tick: nat, u: Uri)
    requires Sound(decode, entries, tick) && u in entries
    ensures EntryOk(decode, entries[u]) && entries[u].recency <= tick
  {
  }

  /** Dropping more leaves less. */
  lemma {:induction false} LessRemains(a: Entries, b: Entries)
    requires a.Keys == b.Keys && forall u | u in a :: b[u].size <= a[u].size
    ensures ResidentSize(b) <= ResidentSize(a)
    decreases |a|
  {
    if a == map[] {
      assert b == map[];
    } else {
      var u :| u in a;
      SizeSplits(a, u);
      SizeSplits(b, u);
      Fewer(a, u);
      LessRemains(a - {u}, b - {u});
    }
  }

  /** An entry dropped on one side only makes at least its size of difference. */
  lemma LessByOne(a: Entries, b: Entries, u: Uri)
    requires a.Keys == b.Keys && u in a && b[u].size == 0 && forall v | v in a :: b[v].size <= a[v].size
    ensures ResidentSize(b) + a[u].size <= ResidentSize(a)
  {
    SizeSplits(a, u);
    SizeSplits(b, u);
    LessRemains(a - {u}, b - {u});
  }

  lemma Differs(before: Entries, after: Entries, u: Uri)
    requires SomeDropped(before, after) && u in before
    ensures after[u] == if WasDropped(before, after, u) then Dropped(before[u]) else before[u]
  {
  }

  ghost function Newer(entries: Entries, u: Uri): set<Uri>
    requires u in entries
  {
    set v | v in entries && entries[v].recency > entries[u].recency
  }

  /** The last one dropped. */
  lemma {:induction false} Newest(before: Entries, after: Entries, u: Uri) returns (newest: Uri)
    requires WasDropped(before, after, u)
    ensures WasDropped(before, after, newest) && before[u].recency <= before[newest].recency
    ensures forall v | WasDropped(before, after, v) :: before[v].recency <= before[newest].recency
    decreases Newer(before, u)
  {
    newest := u;
    if v :| WasDropped(before, after, v) && before[v].recency > before[u].recency {
      assert v in Newer(before, u) && v !in Newer(before, v) && Newer(before, v) <= Newer(before, u);
      newest := Newest(before, after, v);
    }
  }

  /** If `more` drops an entry that `fewer` keeps, it also drops a newest one that `fewer`
      keeps, and `fewer` is larger by at least that one. */
  lemma DropsMore(before: Entries, fewer: Entries, more: Entries, u: Uri) returns (newest: Uri)
    requires SomeDropped(before, fewer) && SomeDropped(before, more) && OldestFirst(before, fewer) && OldestFirst(before, more)
    requires WasDropped(before, more, u) && !WasDropped(before, fewer, u)
    ensures WasDropped(before, more, newest) && newest in fewer && Evictable(fewer[newest])
    ensures forall v | WasDropped(before, more, v) :: before[v].recency <= before[newest].recency
    ensures ResidentSize(more) + before[newest].size <= ResidentSize(fewer)
  {
    hide ResidentSize;
    newest := Newest(before, more, u);
    Differs(before, fewer, u);
    Differs(before, fewer, newest);
    forall v | v in before ensures more[v].size <= fewer[v].size {
      Differs(before, more, v);
      Differs(before, fewer, v);
    }
    LessByOne(fewer, more, newest);
  }

  /** ... which the budget rules out. */
  lemma DropsNoMore(before: Entries, fewer: Entries, more: Entries, budget: nat, u: Uri)
    requires SomeDropped(before, fewer) && SomeDropped(before, more) && OldestFirst(before, fewer) && OldestFirst(before, more)
    requires Fits(fewer, budget) && NoneInVain(before, more, budget)
    ensures WasDropped(before, more, u) ==> WasDropped(before, fewer, u)
  {
    hide ResidentSize, OldestFirst, SomeDropped;
    if WasDropped(before, more, u) && !WasDropped(before, fewer, u) {
      var newest := DropsMore(before, fewer, more, u);
    }
  }

  /** What the budget asks for and what least-recently-used means leave no choice: two
      outcomes that both keep the rules drop the same entries. */
  lemma EvictionIsDetermined(before: Entries, a: Entries, b: Entries, budget: nat)
    requires Trimmed(before, a, budget) && Trimmed(before, b, budget)
    ensures a == b
  {
    hide ResidentSize, OldestFirst, NoneInVain, Fits, WasDropped;
    forall u | u in before ensures a[u] == b[u] {
      DropsNoMore(before, a, b, budget, u);
      DropsNoMore(before, b, a, budget, u);
      Differs(before, a, u);
      Differs(before, b, u);
    }
  }

  // ---- Recency ---------------------------------------------------------------------------------

  /** `u` is now the entry used last; the others' last uses are as they were. */
  ghost predicate MostRecent(before: Entries, after: Entries, u: Uri)
  {
    && u in after && (forall v | v in after && v != u :: after[v].recency < after[u].recency)
    && (forall v | v in before && v != u :: v in after && after[v].recency == before[v].recency)
    && (forall v | v in after && v != u :: v in before)
  }

  /** The pyramid of `u` went, or was not even kept. */
  ghost predicate Gone(before: Entries, after: Entries, u: Uri)
  {
    u in after && after[u].resident.None? && (u in before ==> before[u].resident.Some?)
  }

  /** What went was used longer ago than every unpinned pyramid still there. */
  ghost predicate OldestGone(before: Entries, after: Entries)
  {
    forall u, v | Gone(before, after, u) && v in after && Evictable(after[v]) :: after[u].recency < after[v].recency
  }

  /** Using one entry at a new tick and then trimming. */
  lemma UseIsRecent(decode: Decoder, before: Entries, tick: nat, u: Uri, used: Entry, after: Entries, budget: nat)
    requires Sound(decode, before, tick) && used.recency == tick + 1 && used.resident.Some?
    requires Trimmed(before[u := used], after, budget)
    ensures MostRecent(before, after, u) && OldestGone(before, after)
  {
    hide NoneInVain, Fits;
    var now := before[u := used];
    UsesStay(now, after);
    hide EntryOk;
    GoneWasDropped(before, u, used, after);
    forall v, w | Gone(before, after, v) && w in after && Evictable(after[w]) ensures after[v].recency < after[w].recency {
      assert WasDropped(now, after, v);
    }
  }

  lemma UsesStay(before: Entries, after: Entries)
    requires SomeDropped(before, after)
    ensures after.Keys == before.Keys && forall v | v in before :: after[v].recency == before[v].recency
  {
  }

  lemma GoneWasDropped(before: Entries, u: Uri, used: Entry, after: Entries)
    requires SomeDropped(before[u := used], after) && used.resident.Some?
    ensures forall v | Gone(before, after, v) :: WasDropped(before[u := used], after, v)
  {
    forall v | Gone(before, after, v) ensures WasDropped(before[u := used], after, v) {
      assert before[u := used][v].resident.Some?;
    }
  }

  /** One pin on `u` is given up, if there is one; nothing counts as a use. */
  ghost predicate OnePinLess(before: Entries, after: Entries, u: Uri)
  {
    && after.Keys == before.Keys && (forall v | v in before :: after[v].recency == before[v].recency)
    && (forall v | v in before && v != u :: after[v].pins == before[v].pins)
    && (u in before ==> if before[u].pins > 0 then after[u].pins + 1 == before[u].pins else after[u].pins == 0)
  }

  lemma UnpinnedIsLighter(before: Entries, after: Entries, u: Uri, budget: nat)
    requires u in before && Trimmed(before[u := Unpinned(before[u])], after, budget)
    ensures OnePinLess(before, after, u)
  {
    hide Fits, OldestFirst, NoneInVain;
    var now := before[u := Unpinned(before[u])];
    assert now.Keys == before.Keys;
    assert forall v | v in now :: after[v].recency == now[v].recency && after[v].pins == now[v].pins;
  }

  lemma TouchIsRecent(decode: Decoder, before: Entries, tick: nat, u: Uri, used: Entry)
    requires Sound(decode, before, tick) && used.recency == tick + 1
    ensures MostRecent(before, before[u := used], u)
  {
  }

  // ---- The cache ---------------------------------------------------------------------------------

  /** What a reader is answered: a function of the admitted bytes alone. */
  function Decoded(decode: Decoder, admitted: map<Uri, Bytes>, uri: Uri): Option<Pyramid>
  {
    if uri in admitted then decode(admitted[uri]) else None
  }

  /** What `resolve` adds to the admitted bytes: the first bytes for a URI that decode. */
  function Admit(decode: Decoder, admitted: map<Uri, Bytes>, uri: Uri, encoded: Bytes): map<Uri, Bytes>
  {
    if uri == "" || encoded == [] || uri in admitted || decode(encoded).None? then admitted else admitted[uri := encoded]
  }

  function Unpinned(e: Entry): Entry
  {
    if e.pins > 0 then e.(pins := e.pins - 1) else e
  }

  /** The entry after a use: resident, most recent, with so many pins more. */
  function Used(e: Entry, pyramid: Pyramid, pins: nat, tick: nat): Entry
  {
    Entry(e.encoded, Some(pyramid), pyramid.size, e.pins + pins, tick)
  }

  class Cache {
    const decode: Decoder
    var entries: Entries
    var resident: nat
    var budget: nat
    var tick: nat

    ghost predicate Valid()
      reads this
    {
      Sound(decode, entries, tick) && resident == ResidentSize(entries) && Fits(entries, budget) && "" !in entries
    }

    ghost function Sources(): map<Uri, Bytes>
      reads this
    {
      Admitted(entries)
    }

    constructor (decode: Decoder, budget: nat)
      ensures Valid() && this.decode == decode && this.budget == budget && Sources() == map[]
    {
      this.decode, this.budget, entries, resident, tick := decode, budget, map[], 0, 0;
      new;
      assert Sources() == map[];
    }

    /** `refill_locked` of one entry, which also marks it used and takes `pins` pins: the
        retained bytes always decode again. */
    method Touch(uri: Uri, pins: nat) returns (pyramid: Pyramid)
      requires Valid() && uri in entries
      modifies this`entries, this`resident, this`tick
      ensures Some(pyramid) == decode(old(entries)[uri].encoded)
      ensures tick == old(tick) + 1 && Sound(decode, entries, tick) && resident == ResidentSize(entries)
      ensures entries == old(entries)[uri := Used(old(entries)[uri], pyramid, pins, tick)]
      ensures MostRecent(old(entries), entries, uri)
    {
      hide Sound, ResidentSize, Fits, MostRecent;
      EntryIsOk(decode, entries, tick, uri);
      var e := entries[uri];
      pyramid := if e.resident.Some? then e.resident.value else decode(e.encoded).value;
      var used := Used(e, pyramid, pins, tick + 1);
      SizeOfUpdate(entries, uri, used);
      Replaced(decode, entries, tick, uri, used, tick + 1);
      TouchIsRecent(decode, entries, tick, uri, used);
      tick := tick + 1;
      resident := resident - e.size + pyramid.size;
      entries := entries[uri := used];
    }

    method Trim()
      requires Sound(decode, entries, tick) && resident == ResidentSize(entries) && "" !in entries
      modifies this`entries, this`resident
      ensures Valid() && Trimmed(old(entries), entries, budget) && Sources() == Admitted(old(entries))
      ensures forall u | u in old(entries) :: u in entries && entries[u].pins == old(entries)[u].pins
      ensures forall u | u in old(entries) && old(entries)[u].pins > 0 :: entries[u] == old(entries)[u]
    {
      hide Sound, ResidentSize, Fits, SomeDropped, OldestFirst, NoneInVain, Trimmed, Admitted;
      var trimmed, size := EvictToFit(decode, entries, resident, budget, tick);
      TrimmedMeans(entries, trimmed, budget);
      DroppingKeepsSources(entries, trimmed);
      entries, resident := trimmed, size;
    }

    /** `resolve`: absence (no URI, no bytes) is never answered from the cache; a known
        URI answers with its own first bytes; an unknown one is admitted if it decodes. */
    method Resolve(uri: Uri, encoded: Bytes) returns (r: Option<Pyramid>)
      requires Valid()
      modifies this`entries, this`resident, this`tick
      ensures Valid() && Sources() == Admit(decode, old(Sources()), uri, encoded)
      ensures r == if uri == "" || encoded == [] then None else Decoded(decode, Sources(), uri)
      ensures r.None? ==> entries == old(entries) && tick == old(tick)
      ensures r.Some? ==>
                var was := if uri in old(entries) then old(entries)[uri] else Entry(encoded, None, 0, 0, 0);
                tick == old(tick) + 1 && Trimmed(old(entries)[uri := Used(was, r.value, 0, tick)], entries, budget)
      ensures r.Some? ==> MostRecent(old(entries), entries, uri) && OldestGone(old(entries), entries)
    {
      hide Sound, ResidentSize, Fits, SomeDropped, OldestFirst, NoneInVain, Trimmed, Admitted, MostRecent, OldestGone;
      SourcesOfUpdate(entries, uri, Entry(encoded, None, 0, 0, 0));
      if uri == "" || encoded == [] {
        return None;
      }
      if uri in entries {
        var pyramid := Touch(uri, 0);
        SourcesOfUpdate(old(entries), uri, entries[uri]);
        ghost var used := entries[uri];
        Trim();
        UseIsRecent(decode, old(entries), old(tick), uri, used, entries, budget);
        return Some(pyramid);
      }
      r := decode(encoded);
      if r.None? {
        return;
      }
      var e := Entry(encoded, r, r.value.size, 0, tick + 1);
      SizeOfUpdate(entries, uri, e);
      SourcesOfUpdate(entries, uri, e);
      Replaced(decode, entries, tick, uri, e, tick + 1);
      tick := tick + 1;
      resident := resident + r.value.size;
      entries := entries[uri := e];
      Trim();
      UseIsRecent(decode, old(entries), old(tick), uri, e, entries, budget);
    }

    /** `pin`: the pin is taken before trimming, so the pyramid handed out is resident
        when the call returns, whatever the budget. */
    method Pin(uri: Uri) returns (r: Option<Pyramid>)
      requires Valid()
      modifies this`entries, this`resident, this`tick
      ensures Valid() && Sources() == old(Sources())
      ensures r == Decoded(decode, Sources(), uri)
      ensures r.None? ==> entries == old(entries) && tick == old(tick)
      ensures r.Some? ==>
                && uri in old(entries) && tick == old(tick) + 1
                && Trimmed(old(entries)[uri := Used(old(entries)[uri], r.value, 1, tick)], entries, budget)
      ensures r.Some? ==> uri in entries && entries[uri].resident == r && entries[uri].pins == old(entries)[uri].pins + 1
      ensures r.Some? ==> MostRecent(old(entries), entries, uri) && OldestGone(old(entries), entries)
    {
      hide Sound, ResidentSize, Fits, SomeDropped, OldestFirst, NoneInVain, Trimmed, Admitted, MostRecent, OldestGone;
      if uri == "" || uri !in entries {
        SourcesOfUpdate(entries, uri, Entry([], None, 0, 0, 0));
        return None;
      }
      var pyramid := Touch(uri, 1);
      SourcesOfUpdate(old(entries), uri, entries[uri]);
      ghost var used := entries[uri];
      Trim();
      UseIsRecent(decode, old(entries), old(tick), uri, used, entries, budget);
      return Some(pyramid);
    }

    /** `unpin`: the last pin to go makes the entry a candidate at once. */
    method Unpin(uri: Uri)
      requires Valid() && uri in entries
      modifies this`entries, this`resident
      ensures Valid() && Sources() == old(Sources())
      ensures Trimmed(old(entries)[uri := Unpinned(old(entries)[uri])], entries, budget)
      ensures OnePinLess(old(entries), entries, uri)
    {
      hide Sound, ResidentSize, Fits, SomeDropped, OldestFirst, NoneInVain, Trimmed, Admitted, OnePinLess;
      var e := entries[uri];
      if e.pins > 0 {
        EntryIsOk(decode, entries, tick, uri);
        var lighter := Unpinned(e);
        SizeOfUpdate(entries, uri, lighter);
        SourcesOfUpdate(entries, uri, lighter);
        Replaced(decode, entries, tick, uri, lighter, tick);
        if lighter.pins > 0 {
          StillFits(entries, uri, lighter, budget);
          NothingDropped(entries[uri := lighter], budget);
        }
        entries := entries[uri := lighter];
      }
      assert entries == old(entries)[uri := Unpinned(e)];
      if entries[uri].pins == 0 {
        Trim();
      }
      UnpinnedIsLighter(old(entries), entries, uri, budget);
    }

    /** `set_byte_budget`. */
    method SetByteBudget(bytes: nat)
      requires Valid()
      modifies this`entries, this`resident, this`budget
      ensures Valid() && budget == bytes && Sources() == old(Sources())
      ensures Trimmed(old(entries), entries, bytes)
    {
      budget := bytes;
      Trim();
    }
  }

  /** An entry that is pinned still frees no room for the others' sake. */
  lemma StillFits(entries: Entries, u: Uri, e: Entry, budget: nat)
    requires Fits(entries, budget) && ResidentSize(entries[u := e]) == ResidentSize(entries) && !Evictable(e)
    ensures Fits(entries[u := e], budget)
  {
    hide ResidentSize;
  }

  lemma TrimmedMeans(before: Entries, after: Entries, budget: nat)
    requires Trimmed(before, after, budget)
    ensures SomeDropped(before, after) && Fits(after, budget)
  {
  }

  lemma NothingDropped(entries: Entries, budget: nat)
    requires Fits(entries, budget)
    ensures Trimmed(entries, entries, budget)
  {
    hide ResidentSize;
  }

  /** Dropping touches neither the sources nor the pins. */
  lemma DroppingKeepsSources(before: Entries, after: Entries)
    requires SomeDropped(before, after)
    ensures Admitted(after) == Admitted(before) && after.Keys == before.Keys
    ensures forall u | u in before :: after[u].pins == before[u].pins && (before[u].pins > 0 ==> after[u] == before[u])
  {
  }

  lemma SourcesOfUpdate(entries: Entries, u: Uri, e: Entry)
    ensures Admitted(entries[u := e]) == Admitted(entries)[u := e.encoded]
    ensures u in entries && entries[u].encoded == e.encoded ==> Admitted(entries[u := e]) == Admitted(entries)
    ensures Admitted(entries).Keys == entries.Keys
    ensures u in entries ==> Admitted(entries)[u] == entries[u].encoded
  {
  }

  /** A pinned pyramid is resident: an entry without pixels has no pins. */
  lemma PinnedStaysResident(decode: Decoder, entries: Entries, tick: nat, uri: Uri)
    requires Sound(decode, entries, tick) && uri in entries && entries[uri].pins > 0
    ensures entries[uri].resident == decode(entries[uri].encoded)
  {
  }

  // ---- Transparency ---------------------------------------------------------------------------------

  /** One admission of a history. */
  datatype Offer = Offer(uri: Uri, encoded: Bytes)

  ghost function AdmittedBy(decode: Decoder, offers: seq<Offer>): map<Uri, Bytes>
  {
    if offers == [] then map[]
    else
      var last := offers[|offers| - 1];
      Admit(decode, AdmittedBy(decode, offers[..|offers| - 1]), last.uri, last.encoded)
  }

  predicate Accepted(decode: Decoder, o: Offer)
  {
    o.uri != "" && o.encoded != [] && decode(o.encoded).Some?
  }

  /** Offer `i` is the first acceptable one for its URI. */
  ghost predicate FirstFor(decode: Decoder, offers: seq<Offer>, uri: Uri, i: int)
  {
    0 <= i < |offers| && offers[i].uri == uri && Accepted(decode, offers[i])
    && forall j | 0 <= j < i && offers[j].uri == uri :: !Accepted(decode, offers[j])
  }

  /** After any history of admissions, whatever was pinned, dropped or re-budgeted in
      between, a URI is answered by decoding the first acceptable bytes offered for it,
      and one never acceptably offered is not answered. */
  lemma {:induction false} FirstBytesWin(decode: Decoder, offers: seq<Offer>, uri: Uri)
    ensures uri in AdmittedBy(decode, offers) <==> exists i :: FirstFor(decode, offers, uri, i)
    ensures forall i | FirstFor(decode, offers, uri, i) ::
              uri in AdmittedBy(decode, offers) && Decoded(decode, AdmittedBy(decode, offers), uri) == decode(offers[i].encoded)
  {
    if offers != [] {
      var last := |offers| - 1;
      var front := offers[..last];
      FirstBytesWin(decode, front, uri);
      forall i | 0 <= i < last ensures FirstFor(decode, offers, uri, i) <==> FirstFor(decode, front, uri, i) {
        forall j | 0 <= j < last ensures front[j] == offers[j] {}
      }
      if uri in AdmittedBy(decode, front) {
        var i :| FirstFor(decode, front, uri, i);
        assert front[i] == offers[i];
        assert FirstFor(decode, offers, uri, i);
        assert forall k | FirstFor(decode, offers, uri, k) :: k == i;
      } else {
        forall j | 0 <= j < last && offers[j].uri == uri ensures !Accepted(decode, offers[j]) {
          NoFirstNoneAccepted(decode, front, uri, j);
        }
        if offers[last].uri == uri && Accepted(decode, offers[last]) {
          assert FirstFor(decode, offers, uri, last);
        }
      }
    }
  }

  lemma {:induction false} NoFirstNoneAccepted(decode: Decoder, offers: seq<Offer>, uri: Uri, j: nat)
    requires !exists i :: FirstFor(decode, offers, uri, i)
    requires j < |offers| && offers[j].uri == uri
    ensures !Accepted(decode, offers[j])
  {
    forall k | 0 <= k < j && offers[k].uri == uri ensures !Accepted(decode, offers[k]) {
      NoFirstNoneAccepted(decode, offers, uri, k);
    }
    assert !FirstFor(decode, offers, uri, j);
  }
}
