/** The undo journal: a stream of entries with a cursor, coalescing at the tip, and
    a byte budget that trims from the front. */
module Journaling {
  import M = Membership
  import opened ChunkChains
  import opened ChunkOwners
  import opened Document
  import opened Numbers
  import opened Records
  import opened Wrappers

  datatype Stored = Stored(entry: Entry, cost: nat)

  // ---- Costs ------------------------------------------------------------------------

  function EdgeCost(r: Option<Record>, recordSize: nat): nat
  {
    if r.Some? then recordSize else 0
  }

  ghost function ObjectsCost(edits: seq<Edit<Option<Record>>>, recordSize: nat): nat
  {
    if edits == [] then 0
    else
      var e := edits[|edits| - 1];
      ObjectsCost(edits[..|edits| - 1], recordSize) + EdgeCost(e.before, recordSize) + EdgeCost(e.after, recordSize)
  }

  ghost function ContentsCost(edits: seq<Edit<Handle>>, coster: (Id, Handle) -> nat): nat
  {
    if edits == [] then 0
    else
      var e := edits[|edits| - 1];
      ContentsCost(edits[..|edits| - 1], coster) + coster(e.subject, e.before) + coster(e.subject, e.after)
  }

  /** One record for each edge the entry keeps alive, plus each handle's own cost. */
  ghost function CostOf(e: Entry, recordSize: nat, coster: (Id, Handle) -> nat): nat
  {
    ObjectsCost(e.objects, recordSize) + ContentsCost(e.contents, coster)
  }

  method EntryCost(e: Entry, recordSize: nat, coster: (Id, Handle) -> nat) returns (cost: nat)
    ensures cost == CostOf(e, recordSize, coster)
  {
    cost := 0;
    for i := 0 to |e.objects|
      invariant cost == ObjectsCost(e.objects[..i], recordSize)
    {
      assert e.objects[..i + 1][..i] == e.objects[..i];
      cost := cost + EdgeCost(e.objects[i].before, recordSize) + EdgeCost(e.objects[i].after, recordSize);
    }
    assert e.objects[..|e.objects|] == e.objects;
    var objects := cost;
    for i := 0 to |e.contents|
      invariant cost == objects + ContentsCost(e.contents[..i], coster)
    {
      assert e.contents[..i + 1][..i] == e.contents[..i];
      cost := cost + coster(e.contents[i].subject, e.contents[i].before)
                   + coster(e.contents[i].subject, e.contents[i].after);
    }
    assert e.contents[..|e.contents|] == e.contents;
  }

  ghost function Total(entries: seq<Stored>): nat
  {
    if entries == [] then 0 else entries[0].cost + Total(entries[1..])
  }

  lemma {:induction false} TotalSplits(a: seq<Stored>, b: seq<Stored>)
    ensures Total(a + b) == Total(a) + Total(b)
  {
    if a == [] {
      assert a + b == b;
    } else {
      TotalSplits(a[1..], b);
      assert (a + b)[1..] == a[1..] + b;
    }
  }

  lemma TotalOfLast(entries: seq<Stored>)
    requires entries != []
    ensures Total(entries) == Total(entries[..|entries| - 1]) + entries[|entries| - 1].cost
  {
    var last := entries[|entries| - 1];
    assert entries == entries[..|entries| - 1] + [last];
    TotalSplits(entries[..|entries| - 1], [last]);
    assert [last][1..] == [];
  }

  lemma TotalWithOne(entries: seq<Stored>, s: Stored)
    ensures Total(entries + [s]) == Total(entries) + s.cost
  {
    TotalSplits(entries, [s]);
    assert [s][1..] == [];
  }

  lemma TotalFromFront(entries: seq<Stored>, i: nat)
    requires i < |entries|
    ensures Total(entries[i..]) == entries[i].cost + Total(entries[i + 1..])
  {
    assert entries[i..][1..] == entries[i + 1..];
  }

  // ---- The chain of documents ---------------------------------------------------------

  ghost predicate EditSeen(e: Edit<Option<Record>>, seen: set<Record>)
  {
    && (e.before.Some? ==> e.before.value in seen && e.before.value.id == e.subject)
    && (e.after.Some? ==> e.after.value in seen && e.after.value.id == e.subject)
  }

  /** Every record an undo or redo of these edits may bring back was published. */
  ghost predicate EditsSeen(edits: seq<Edit<Option<Record>>>, seen: set<Record>)
  {
    forall j | 0 <= j < |edits| :: EditSeen(edits[j], seen)
  }

  /** The stored entry names each object once, costs what it holds, and holds published
      records. */
  ghost predicate Sound(s: Stored, seen: set<Record>, recordSize: nat, coster: (Id, Handle) -> nat)
  {
    && DistinctObjects(s.entry.objects) && DistinctObjects(s.entry.contents)
    && s.cost == CostOf(s.entry, recordSize, coster)
    && EditsSeen(s.entry.objects, seen)
  }

  /** The accounts: every entry is sound and the costs add up. */
  ghost predicate Accounts(entries: seq<Stored>, total: nat, seen: set<Record>, recordSize: nat, coster: (Id, Handle) -> nat)
  {
    && total == Total(entries)
    && forall i | 0 <= i < |entries| :: Sound(entries[i], seen, recordSize, coster)
  }

  /** The document chain: entry i turns document i into document i + 1. */
  ghost predicate Chained(entries: seq<Stored>, docs: seq<Doc>)
  {
    && |docs| == |entries| + 1
    && forall i | 0 <= i < |entries| :: EditsMap(entries[i].entry.objects, docs[i], docs[i + 1])
  }

  /** How many entries the budget drops: pop the front while more than one is left
      and the rest is over budget. */
  function Dropped(entries: seq<Stored>, total: nat, budget: nat): (n: nat)
    ensures entries != [] ==> n < |entries|
    ensures entries == [] ==> n == 0
    decreases |entries|
  {
    if |entries| > 1 && total > budget && total >= entries[0].cost
    then 1 + Dropped(entries[1..], total - entries[0].cost, budget) else 0
  }

  /** The budget's meaning: the least number of pops after which one entry is left
      or the rest fits. */
  lemma {:induction false} DroppedIsLeast(entries: seq<Stored>, total: nat, budget: nat)
    requires total == Total(entries)
    ensures var n := Dropped(entries, total, budget);
            && n <= |entries| && (Fits(entries, n, budget) || |entries| - n <= 1)
            && forall m | 0 <= m < n :: !Fits(entries, m, budget)
  {
    assert entries[0..] == entries;
    if |entries| > 1 && total > budget {
      var rest, left := entries[1..], total - entries[0].cost;
      assert !Fits(entries, 0, budget);
      var n := Dropped(rest, left, budget);
      assert Dropped(entries, total, budget) == n + 1;
      hide Fits, Dropped, Total;
      DroppedIsLeast(rest, left, budget);
      FitsRest(entries, n, budget);
      forall m | 0 <= m < n + 1 ensures !Fits(entries, m, budget) {
        if m > 0 {
          FitsRest(entries, m - 1, budget);
        }
      }
    }
  }

  /** What is left after `m` pops is within budget. */
  ghost predicate Fits(entries: seq<Stored>, m: nat, budget: nat)
  {
    m <= |entries| ==> Total(entries[m..]) <= budget
  }

  lemma FitsRest(entries: seq<Stored>, m: nat, budget: nat)
    requires entries != [] && m < |entries|
    ensures Fits(entries, m + 1, budget) <==> Fits(entries[1..], m, budget)
  {
    assert entries[m + 1..] == entries[1..][m..];
  }

  lemma NoMorePops(entries: seq<Stored>, total: nat, budget: nat)
    requires |entries| <= 1 || total <= budget
    ensures Dropped(entries, total, budget) == 0
  {
  }

  /** The trim loop after `n` pops: what is left costs `total`, and the pops still to come
      are those the budget asks for. */
  ghost predicate Popped(all: seq<Stored>, n: nat, total: nat, budget: nat)
  {
    n <= |all| && total == Total(all[n..]) && Dropped(all, Total(all), budget) == n + Dropped(all[n..], total, budget)
  }

  lemma NothingPopped(all: seq<Stored>, budget: nat)
    ensures Popped(all, 0, Total(all), budget)
  {
    assert all[0..] == all;
  }

  lemma PopFront(all: seq<Stored>, n: nat, total: nat, budget: nat)
    requires n + 1 < |all| && total > budget && Popped(all, n, total, budget)
    ensures total >= all[n].cost && Popped(all, n + 1, total - all[n].cost, budget)
  {
    TotalFromFront(all, n);
    Behind(all, n);
  }

  lemma LastPop(all: seq<Stored>, n: nat, total: nat, budget: nat)
    requires Popped(all, n, total, budget) && (|all| - n <= 1 || total <= budget)
    ensures n == Dropped(all, Total(all), budget) && total == Total(all[n..])
  {
    NoMorePops(all[n..], total, budget);
  }

  lemma Behind<T>(all: seq<T>, n: nat)
    requires n < |all|
    ensures all[n..] != [] && all[n..][0] == all[n] && all[n..][1..] == all[n + 1..]
  {
  }

  /** The loop of `trim`. */
  method PopFronts(entries: seq<Stored>, cursor: nat, total: nat, budget: nat)
    returns (entries': seq<Stored>, cursor': nat, total': nat, ghost n: nat)
    requires total == Total(entries)
    ensures n == Dropped(entries, total, budget) <= |entries| && entries' == entries[n..] && total' == Total(entries')
    ensures cursor' == if cursor >= n then cursor - n else 0
  {
    hide Popped;
    entries', cursor', total', n := entries, cursor, total, 0;
    NothingPopped(entries, budget);
    while |entries'| > 1 && total' > budget
      invariant n <= |entries| && entries' == entries[n..] && Popped(entries, n, total', budget)
      invariant cursor' == if cursor >= n then cursor - n else 0
      decreases |entries'|
    {
      PopFront(entries, n, total', budget);
      Behind(entries, n);
      total' := total' - entries'[0].cost;
      entries', n := entries'[1..], n + 1;
      if cursor' > 0 {
        cursor' := cursor' - 1;
      }
    }
    LastPop(entries, n, total', budget);
  }

  lemma AccountsSuffix(entries: seq<Stored>, seen: set<Record>, recordSize: nat, coster: (Id, Handle) -> nat, n: nat)
    requires Accounts(entries, Total(entries), seen, recordSize, coster) && n <= |entries|
    ensures Accounts(entries[n..], Total(entries[n..]), seen, recordSize, coster)
  {
    hide Sound, Total;
  }

  lemma AccountsPrefix(entries: seq<Stored>, seen: set<Record>, recordSize: nat, coster: (Id, Handle) -> nat, n: nat)
    requires Accounts(entries, Total(entries), seen, recordSize, coster) && n <= |entries|
    ensures Accounts(entries[..n], Total(entries[..n]), seen, recordSize, coster)
  {
    hide Sound, Total;
  }

  lemma SoundEntry(s: Stored, seen: set<Record>, recordSize: nat, coster: (Id, Handle) -> nat)
    requires DistinctObjects(s.entry.objects) && DistinctObjects(s.entry.contents) && EditsSeen(s.entry.objects, seen)
    requires s.cost == CostOf(s.entry, recordSize, coster)
    ensures Sound(s, seen, recordSize, coster)
  {
  }

  lemma AccountsAppend(entries: seq<Stored>, seen: set<Record>, recordSize: nat, coster: (Id, Handle) -> nat, s: Stored)
    requires Accounts(entries, Total(entries), seen, recordSize, coster) && Sound(s, seen, recordSize, coster)
    ensures Accounts(entries + [s], Total(entries) + s.cost, seen, recordSize, coster)
  {
    TotalWithOne(entries, s);
    hide Sound, Total;
    var more := entries + [s];
    assert more[|entries|] == s && forall i | 0 <= i < |entries| :: more[i] == entries[i];
  }

  lemma SoundFold(base: Stored, seen: set<Record>, recordSize: nat, coster: (Id, Handle) -> nat, entry: Entry, tip: Stored)
    requires Sound(base, seen, recordSize, coster) && EditsSeen(entry.objects, seen)
    requires IsMerge(tip.entry.objects, base.entry.objects, entry.objects)
    requires IsMerge(tip.entry.contents, base.entry.contents, entry.contents)
    requires tip.cost == CostOf(tip.entry, recordSize, coster)
    ensures Sound(tip, seen, recordSize, coster)
  {
    MergedEditsSeen(tip.entry.objects, base.entry.objects, entry.objects, seen);
  }

  /** The accounts with the tip replaced by its merge with a follow-up commit. */
  lemma AccountsFold(entries: seq<Stored>, seen: set<Record>, recordSize: nat, coster: (Id, Handle) -> nat,
                     entry: Entry, tip: Stored)
    requires Accounts(entries, Total(entries), seen, recordSize, coster) && entries != []
    requires EditsSeen(entry.objects, seen)
    requires IsMerge(tip.entry.objects, entries[|entries| - 1].entry.objects, entry.objects)
    requires IsMerge(tip.entry.contents, entries[|entries| - 1].entry.contents, entry.contents)
    requires tip.cost == CostOf(tip.entry, recordSize, coster)
    ensures Total(entries) >= entries[|entries| - 1].cost
    ensures Accounts(entries[..|entries| - 1] + [tip], Total(entries) - entries[|entries| - 1].cost + tip.cost, seen, recordSize, coster)
  {
    hide Sound, Accounts, IsMerge, EditsSeen, Total, CostOf;
    var last := |entries| - 1;
    TotalOfLast(entries);
    AccountsPrefix(entries, seen, recordSize, coster, last);
    AccountsAt(entries, Total(entries), seen, recordSize, coster, last);
    SoundFold(entries[last], seen, recordSize, coster, entry, tip);
    AccountsAppend(entries[..last], seen, recordSize, coster, tip);
  }

  lemma AccountsMore(entries: seq<Stored>, total: nat, seen: set<Record>, more: set<Record>, recordSize: nat,
                     coster: (Id, Handle) -> nat)
    requires Accounts(entries, total, seen, recordSize, coster) && seen <= more
    ensures Accounts(entries, total, more, recordSize, coster)
  {
    forall i | 0 <= i < |entries| ensures Sound(entries[i], more, recordSize, coster) {
      var edits := entries[i].entry.objects;
      assert Sound(entries[i], seen, recordSize, coster);
      forall j | 0 <= j < |edits| ensures EditSeen(edits[j], more) {
        assert EditSeen(edits[j], seen);
      }
    }
  }

  lemma AccountsAt(entries: seq<Stored>, total: nat, seen: set<Record>, recordSize: nat, coster: (Id, Handle) -> nat, i: nat)
    requires Accounts(entries, total, seen, recordSize, coster)
    ensures total == Total(entries) && (i < |entries| ==> Sound(entries[i], seen, recordSize, coster))
  {
  }

  lemma ChainedPart(entries: seq<Stored>, docs: seq<Doc>, m: nat, n: nat)
    requires Chained(entries, docs) && m <= n <= |entries|
    ensures Chained(entries[m..n], docs[m..n + 1])
  {
    hide EditsMap;
    forall i | 0 <= i < n - m
      ensures EditsMap(entries[m..n][i].entry.objects, docs[m..n + 1][i], docs[m..n + 1][i + 1])
    {
      assert EditsMap(entries[m + i].entry.objects, docs[m + i], docs[m + i + 1]);
    }
  }

  lemma ChainedNone(docs: seq<Doc>)
    requires |docs| == 1
    ensures Chained([], docs)
  {
  }

  lemma ChainedSuffix(entries: seq<Stored>, docs: seq<Doc>, n: nat)
    requires n <= |entries| && |docs| == |entries| + 1
    ensures Chained(entries, docs) ==> Chained(entries[n..], docs[n..])
  {
    if Chained(entries, docs) {
      ChainedPart(entries, docs, n, |entries|);
      assert entries[n..|entries|] == entries[n..] && docs[n..|entries| + 1] == docs[n..];
    }
  }

  lemma ChainedPrefix(entries: seq<Stored>, docs: seq<Doc>, n: nat)
    requires n <= |entries| && |docs| == |entries| + 1
    ensures Chained(entries, docs) ==> Chained(entries[..n], docs[..n + 1])
  {
    if Chained(entries, docs) {
      ChainedPart(entries, docs, 0, n);
      assert entries[0..n] == entries[..n] && docs[0..n + 1] == docs[..n + 1];
    }
  }

  lemma ChainedAppend(entries: seq<Stored>, docs: seq<Doc>, s: Stored, doc: Doc)
    requires Chained(entries, docs) && EditsMap(s.entry.objects, docs[|entries|], doc)
    ensures Chained(entries + [s], docs + [doc])
  {
    hide EditsMap;
    var more, after := entries + [s], docs + [doc];
    forall i | 0 <= i < |more| ensures EditsMap(more[i].entry.objects, after[i], after[i + 1]) {
      if i < |entries| {
        assert EditsMap(entries[i].entry.objects, docs[i], docs[i + 1]);
      }
    }
  }

  lemma ChainedFold(entries: seq<Stored>, docs: seq<Doc>, entry: Entry, tip: Stored, doc: Doc)
    requires Chained(entries, docs) && entries != []
    requires EditsMap(entry.objects, docs[|entries|], doc)
    requires IsMerge(tip.entry.objects, entries[|entries| - 1].entry.objects, entry.objects)
    ensures Chained(entries[..|entries| - 1] + [tip], docs[..|entries|] + [doc])
  {
    var last := |entries| - 1;
    ChainedPrefix(entries, docs, last);
    MergedEditsMap(tip.entry.objects, entries[last].entry.objects, entry.objects, docs[last], docs[last + 1], doc);
    hide EditsMap, IsMerge;
    ChainedAppend(entries[..last], docs[..last + 1], tip, doc);
  }

  // ---- Where the entries lead ---------------------------------------------------------------

  /** There are documents the entries step through, ending at `doc`. */
  ghost predicate EndsAt(entries: seq<Stored>, doc: Doc)
  {
    exists docs :: Chained(entries, docs) && docs[|entries|] == doc
  }

  /** A commit's own entry never breaks the chain: with it the applied entries end at the
      new document exactly when without it they ended at the old one. */
  lemma CommitKeepsTheChainExactly(applied: seq<Stored>, tip: Stored, before: Doc, now: Doc)
    requires EditsMap(tip.entry.objects, before, now)
    ensures EndsAt(applied + [tip], now) <==> EndsAt(applied, before)
  {
    if docs :| Chained(applied, docs) && docs[|applied|] == before {
      ChainedAppend(applied, docs, tip, now);
      assert (docs + [now])[|applied + [tip]|] == now;
    }
    if docs :| Chained(applied + [tip], docs) && docs[|applied + [tip]|] == now {
      var n := |applied|;
      ChainedPrefix(applied + [tip], docs, n);
      assert (applied + [tip])[..n] == applied;
      assert EditsMap((applied + [tip])[n].entry.objects, docs[n], docs[n + 1]);
      OneSideFixesTheOther(tip.entry.objects, docs[n], before, now);
      assert docs[..n + 1][n] == before;
    }
  }

  lemma OneSideFixesTheOther(edits: seq<Edit<Option<Record>>>, one: Doc, two: Doc, after: Doc)
    requires EditsMap(edits, one, after) && EditsMap(edits, two, after)
    ensures one == two
  {
    forall id: Id ensures Get(one, id) == Get(two, id) {
      MapAt(edits, one, after, id);
      MapAt(edits, two, after, id);
    }
    SameGets(one, two);
  }

  /** Some documents lead through all the entries. */
  ghost predicate Chainable(entries: seq<Stored>)
  {
    exists docs :: Chained(entries, docs)
  }

  /** The entries lead on from one another, and the applied ones lead to `doc`. */
  ghost predicate Leads(entries: seq<Stored>, cursor: nat, doc: Doc)
  {
    cursor <= |entries| && Chainable(entries) && EndsAt(entries[..cursor], doc)
  }

  lemma NothingLeads(doc: Doc)
    ensures Leads([], 0, doc)
  {
    ChainedNone([doc]);
    var none: seq<Stored> := [];
    assert none[..0] == none;
  }

  lemma AppliedChain(entries: seq<Stored>, cursor: nat, doc: Doc) returns (docs: seq<Doc>)
    requires Leads(entries, cursor, doc)
    ensures cursor <= |entries| && Chained(entries[..cursor], docs) && docs[cursor] == doc
  {
    hide EditsMap;
    docs :| Chained(entries[..cursor], docs) && docs[|entries[..cursor]|] == doc;
  }

  lemma LeadsFrom(entries: seq<Stored>, cursor: nat, doc: Doc, n: nat)
    requires Leads(entries, cursor, doc) && n <= |entries|
    ensures Leads(entries[n..], if cursor >= n then cursor - n else 0, doc)
  {
    var all :| Chained(entries, all);
    ChainedSuffix(entries, all, n);
    if cursor >= n {
      var docs := AppliedChain(entries, cursor, doc);
      ChainedSuffix(entries[..cursor], docs, n);
      assert entries[n..][..cursor - n] == entries[..cursor][n..];
      assert docs[n..][cursor - n] == doc;
    } else {
      NothingLeads(doc);
      assert entries[n..][..0] == [];
    }
  }

  lemma LeadsToTip(entries: seq<Stored>, doc: Doc)
    ensures Leads(entries, |entries|, doc) <==> EndsAt(entries, doc)
  {
    hide Chained;
    assert entries[..|entries|] == entries;
  }

  lemma LeadsAppend(entries: seq<Stored>, tip: Stored, before: Doc, now: Doc)
    requires Leads(entries, |entries|, before) && EditsMap(tip.entry.objects, before, now)
    ensures Leads(entries + [tip], |entries| + 1, now)
  {
    hide Leads, EndsAt, EditsMap;
    LeadsToTip(entries, before);
    CommitKeepsTheChainExactly(entries, tip, before, now);
    LeadsToTip(entries + [tip], now);
  }

  lemma LeadsFold(entries: seq<Stored>, entry: Entry, tip: Stored, before: Doc, now: Doc)
    requires Leads(entries, |entries|, before) && entries != [] && EditsMap(entry.objects, before, now)
    requires IsMerge(tip.entry.objects, entries[|entries| - 1].entry.objects, entry.objects)
    ensures Leads(entries[..|entries| - 1] + [tip], |entries|, now)
  {
    hide EditsMap, IsMerge;
    var docs := AppliedChain(entries, |entries|, before);
    assert entries[..|entries|] == entries;
    ChainedFold(entries, docs, entry, tip, now);
    var merged := entries[..|entries| - 1] + [tip];
    assert (docs[..|entries|] + [now])[|merged|] == now;
    hide Chained;
    LeadsToTip(merged, now);
  }

  /** Undoing an applied entry, from wherever: the entry leads from the document published
      back to the one it was undone on. */
  lemma LeadsBack(entries: seq<Stored>, cursor: nat, doc: Doc, doc': Doc)
    requires Leads(entries, cursor, doc) && cursor > 0
    requires Rebound(entries[cursor - 1].entry.objects, ToBefore, doc, doc')
    ensures Leads(entries, cursor - 1, doc') && EditsMap(entries[cursor - 1].entry.objects, doc', doc)
  {
    hide EditsMap, Rebound;
    var docs := AppliedChain(entries, cursor, doc);
    assert EditsMap(entries[..cursor][cursor - 1].entry.objects, docs[cursor - 1], docs[cursor]);
    NavigationInverts(entries[cursor - 1].entry.objects, docs[cursor - 1], doc, ToBefore, doc');
    ChainedPrefix(entries[..cursor], docs, cursor - 1);
    assert entries[..cursor][..cursor - 1] == entries[..cursor - 1];
  }

  ghost predicate TouchedIn(entries: seq<Stored>, id: Id)
  {
    exists i :: 0 <= i < |entries| && Touches(entries[i].entry.objects, id)
  }

  /** Two chains through the same entries end alike on every object the entries touch. */
  lemma {:induction false} ChainsEndAlike(entries: seq<Stored>, a: seq<Doc>, b: seq<Doc>, id: Id)
    requires Chained(entries, a) && Chained(entries, b) && TouchedIn(entries, id)
    ensures Get(a[|entries|], id) == Get(b[|entries|], id)
  {
    var last := |entries| - 1;
    MapAt(entries[last].entry.objects, a[last], a[last + 1], id);
    MapAt(entries[last].entry.objects, b[last], b[last + 1], id);
    hide EditsMap;
    if !Touches(entries[last].entry.objects, id) {
      var i :| 0 <= i < |entries| && Touches(entries[i].entry.objects, id);
      assert entries[..last][i] == entries[i];
      ChainedPrefix(entries, a, last);
      ChainedPrefix(entries, b, last);
      ChainsEndAlike(entries[..last], a[..last + 1], b[..last + 1], id);
    }
  }

  /** `inner` on the objects the entries touch, `outer` on all others. */
  ghost function Mixed(entries: seq<Stored>, inner: Doc, outer: Doc): Doc
  {
    map id | id in inner.Keys + outer.Keys && (if TouchedIn(entries, id) then id in inner else id in outer) ::
      if TouchedIn(entries, id) then inner[id] else outer[id]
  }

  lemma MixedAt(entries: seq<Stored>, inner: Doc, outer: Doc, id: Id)
    ensures Get(Mixed(entries, inner, outer), id) == if TouchedIn(entries, id) then Get(inner, id) else Get(outer, id)
  {
    hide TouchedIn;
  }

  lemma MixedStep(entries: seq<Stored>, i: nat, before: Doc, after: Doc, outer: Doc)
    requires i < |entries| && EditsMap(entries[i].entry.objects, before, after)
    ensures EditsMap(entries[i].entry.objects, Mixed(entries, before, outer), Mixed(entries, after, outer))
  {
    var edits, one, two := entries[i].entry.objects, Mixed(entries, before, outer), Mixed(entries, after, outer);
    forall id: Id | Touches(edits, id) ensures Get(one, id) == Get(before, id) && Get(two, id) == Get(after, id) {
      MixedAt(entries, before, outer, id);
      MixedAt(entries, after, outer, id);
    }
    forall id: Id | !Touches(edits, id) ensures Get(one, id) == Get(two, id) {
      MixedAt(entries, before, outer, id);
      MixedAt(entries, after, outer, id);
    }
    hide Mixed, TouchedIn;
    forall k | 0 <= k < |edits| ensures Touches(edits, edits[k].subject) {
    }
  }

  /** Mixed with any document, a chain is a chain. */
  lemma MixedChain(entries: seq<Stored>, docs: seq<Doc>, outer: Doc) returns (mixed: seq<Doc>)
    requires Chained(entries, docs)
    ensures Chained(entries, mixed) && forall i | 0 <= i < |mixed| :: mixed[i] == Mixed(entries, docs[i], outer)
  {
    hide EditsMap, Mixed, TouchedIn;
    mixed := seq(|docs|, i requires 0 <= i < |docs| => Mixed(entries, docs[i], outer));
    forall i | 0 <= i < |entries| ensures EditsMap(entries[i].entry.objects, mixed[i], mixed[i + 1]) {
      MixedStep(entries, i, docs[i], docs[i + 1], outer);
    }
  }

  /** Redoing the next entry, from wherever: the applied entries lead to what is published. */
  lemma LeadsOn(entries: seq<Stored>, cursor: nat, doc: Doc, doc': Doc)
    requires Leads(entries, cursor, doc) && cursor < |entries|
    requires Rebound(entries[cursor].entry.objects, ToAfter, doc, doc')
    ensures Leads(entries, cursor + 1, doc')
  {
    var all :| Chained(entries, all);
    ChainedPrefix(entries, all, cursor + 1);
    var applied, more := entries[..cursor], entries[..cursor + 1];
    var docs := MixedChain(more, all[..cursor + 2], doc');
    forall id: Id ensures Get(docs[cursor + 1], id) == Get(doc', id) {
      RedoneAt(entries, cursor, all, doc, doc', id);
      MixedAt(more, all[cursor + 1], doc', id);
    }
    SameGets(docs[cursor + 1], doc');
  }

  lemma RedoneAt(entries: seq<Stored>, cursor: nat, all: seq<Doc>, doc: Doc, doc': Doc, id: Id)
    requires Leads(entries, cursor, doc) && cursor < |entries| && Chained(entries, all)
    requires Rebound(entries[cursor].entry.objects, ToAfter, doc, doc')
    ensures TouchedIn(entries[..cursor + 1], id) ==> Get(all[cursor + 1], id) == Get(doc', id)
  {
    var edits := entries[cursor].entry.objects;
    MapAt(edits, all[cursor], all[cursor + 1], id);
    hide EditsMap;
    if Touches(edits, id) {
      var e := EditAt(edits, id).value;
      assert Get(doc', e.subject) == e.after;
    } else if TouchedIn(entries[..cursor + 1], id) {
      var i :| 0 <= i < |entries[..cursor + 1]| && Touches(entries[..cursor + 1][i].entry.objects, id);
      assert entries[..cursor][i] == entries[i];
      var docs := AppliedChain(entries, cursor, doc);
      ChainedPrefix(entries, all, cursor);
      ChainsEndAlike(entries[..cursor], docs, all[..cursor + 1], id);
    }
  }

  // ---- What a redo meets --------------------------------------------------------------------

  /** Some documents lead through all the entries, with `doc` where the cursor is. */
  ghost predicate Threads(entries: seq<Stored>, cursor: nat, doc: Doc)
  {
    exists docs :: Chained(entries, docs) && cursor < |docs| && docs[cursor] == doc
  }

  /** Entry `i` is the first to touch the object. */
  predicate FirstToTouch(entries: seq<Stored>, i: nat, id: Id)
    requires i < |entries|
  {
    Touches(entries[i].entry.objects, id) && forall k | 0 <= k < i :: !Touches(entries[k].entry.objects, id)
  }

  /** The document holds, for every object the entries touch, the record the first entry that
      touches it names as the one before. */
  predicate MeetsFirst(entries: seq<Stored>, doc: Doc)
  {
    forall i | 0 <= i < |entries| ::
      forall e | e in entries[i].entry.objects && FirstToTouch(entries, i, e.subject) :: e.before == Get(doc, e.subject)
  }

  /** The document holds what the next `k` entries first expect. */
  predicate MeetsNext(entries: seq<Stored>, cursor: nat, k: nat, doc: Doc)
    requires cursor + k <= |entries|
  {
    MeetsFirst(entries[cursor..cursor + k], doc)
  }

  /** An object no entry has touched yet is as it was at first. */
  lemma {:induction false} UntouchedSoFar(entries: seq<Stored>, docs: seq<Doc>, n: nat, id: Id)
    requires Chained(entries, docs) && n <= |entries|
    requires forall k | 0 <= k < n :: !Touches(entries[k].entry.objects, id)
    ensures Get(docs[n], id) == Get(docs[0], id)
  {
    if n > 0 {
      UntouchedSoFar(entries, docs, n - 1, id);
      MapAt(entries[n - 1].entry.objects, docs[n - 1], docs[n], id);
    }
  }

  lemma ChainMeetsFirst(entries: seq<Stored>, docs: seq<Doc>)
    requires Chained(entries, docs)
    ensures MeetsFirst(entries, docs[0])
  {
    forall i, e | 0 <= i < |entries| && e in entries[i].entry.objects && FirstToTouch(entries, i, e.subject)
      ensures e.before == Get(docs[0], e.subject)
    {
      UntouchedSoFar(entries, docs, i, e.subject);
      var edits := entries[i].entry.objects;
      var j :| 0 <= j < |edits| && edits[j] == e;
      assert EditsMap(edits, docs[i], docs[i + 1]);
    }
  }

  /** The first entry that touches an object. */
  lemma {:induction false} FirstTouch(entries: seq<Stored>, n: nat, id: Id) returns (i: nat)
    requires n < |entries| && Touches(entries[n].entry.objects, id)
    ensures i <= n && FirstToTouch(entries, i, id)
    decreases n
  {
    if k :| 0 <= k < n && Touches(entries[k].entry.objects, id) {
      i := FirstTouch(entries, k, id);
    } else {
      i := n;
    }
  }

  lemma TouchedByPrefix(entries: seq<Stored>, cursor: nat, n: nat, id: Id)
    requires n < cursor <= |entries| && Touches(entries[n].entry.objects, id)
    ensures TouchedIn(entries[..cursor], id)
  {
    assert entries[..cursor][n] == entries[n];
  }

  /** A chain's document at the cursor, against one that meets what comes and ends what went. */
  lemma ThreadedAt(entries: seq<Stored>, cursor: nat, all: seq<Doc>, doc: Doc, id: Id)
    requires Leads(entries, cursor, doc) && Chained(entries, all) && MeetsFirst(entries[cursor..], doc)
    requires TouchedIn(entries, id)
    ensures Get(all[cursor], id) == Get(doc, id)
  {
    hide EditsMap, MeetsFirst;
    if TouchedIn(entries[..cursor], id) {
      var docs := AppliedChain(entries, cursor, doc);
      ChainedPrefix(entries, all, cursor);
      ChainsEndAlike(entries[..cursor], docs, all[..cursor + 1], id);
    } else {
      var n :| 0 <= n < |entries| && Touches(entries[n].entry.objects, id);
      if n < cursor {
        TouchedByPrefix(entries, cursor, n, id);
        assert false;
      }
      ChainedSuffix(entries, all, cursor);
      MetAt(entries[cursor..], all[cursor..], n - cursor, doc, id);
    }
  }

  lemma MetAt(entries: seq<Stored>, docs: seq<Doc>, n: nat, doc: Doc, id: Id)
    requires Chained(entries, docs) && MeetsFirst(entries, doc)
    requires n < |entries| && Touches(entries[n].entry.objects, id)
    ensures Get(docs[0], id) == Get(doc, id)
  {
    var i := FirstTouch(entries, n, id);
    UntouchedSoFar(entries, docs, i, id);
    MapAt(entries[i].entry.objects, docs[i], docs[i + 1], id);
    var e := EditAt(entries[i].entry.objects, id).value;
    assert e in entries[i].entry.objects && e.subject == id;
  }

  /** Wherever the applied entries lead to the document, the rest leads on from it exactly
      when it holds what they first expect, object by object. */
  lemma ThreadsExactly(entries: seq<Stored>, cursor: nat, doc: Doc)
    requires Leads(entries, cursor, doc)
    ensures Threads(entries, cursor, doc) <==> MeetsFirst(entries[cursor..], doc)
  {
    hide MeetsFirst;
    if docs :| Chained(entries, docs) && cursor < |docs| && docs[cursor] == doc {
      ChainedSuffix(entries, docs, cursor);
      ChainMeetsFirst(entries[cursor..], docs[cursor..]);
    }
    if MeetsFirst(entries[cursor..], doc) {
      var all :| Chained(entries, all);
      var docs := MixedChain(entries, all, doc);
      forall id: Id ensures Get(docs[cursor], id) == Get(doc, id) {
        MixedAt(entries, all[cursor], doc, id);
        if TouchedIn(entries, id) {
          ThreadedAt(entries, cursor, all, doc, id);
        }
      }
      SameGets(docs[cursor], doc);
    }
  }

  lemma LeadsWithin(entries: seq<Stored>, cursor: nat, doc: Doc, n: nat)
    requires Leads(entries, cursor, doc) && cursor <= n <= |entries|
    ensures Leads(entries[..n], cursor, doc)
  {
    hide EditsMap;
    var all :| Chained(entries, all);
    ChainedPrefix(entries, all, n);
    assert entries[..n][..cursor] == entries[..cursor];
  }

  lemma ThreadsFrom(entries: seq<Stored>, cursor: nat, doc: Doc, n: nat)
    requires Threads(entries, cursor, doc) && n <= cursor <= |entries|
    ensures Threads(entries[n..], cursor - n, doc)
  {
    hide EditsMap;
    var docs :| Chained(entries, docs) && cursor < |docs| && docs[cursor] == doc;
    ChainedSuffix(entries, docs, n);
    assert docs[n..][cursor - n] == doc;
  }

  lemma ThreadsAtTip(entries: seq<Stored>, doc: Doc)
    requires Leads(entries, |entries|, doc)
    ensures EndsAt(entries, doc) && Threads(entries, |entries|, doc)
  {
    hide EditsMap;
    var docs := AppliedChain(entries, |entries|, doc);
    assert entries[..|entries|] == entries;
  }

  /** A navigation along a chain arrives at its next document. */
  lemma StepAlong(entries: seq<Stored>, docs: seq<Doc>, i: nat, dir: Direction, doc: Doc, doc': Doc)
    requires Chained(entries, docs) && i < |entries| && Rebound(entries[i].entry.objects, dir, doc, doc')
    requires doc == docs[if dir == ToBefore then i + 1 else i]
    ensures doc' == docs[if dir == ToBefore then i else i + 1]
  {
    hide Rebound;
    NavigationInverts(entries[i].entry.objects, docs[i], docs[i + 1], dir, doc');
  }

  /** One step, wherever the history stands. */
  lemma StepLeads(entries: seq<Stored>, cursor: nat, dir: Direction, doc: Doc, doc': Doc)
    requires Leads(entries, cursor, doc) && (if dir == ToBefore then cursor > 0 else cursor < |entries|)
    requires Rebound(entries[if dir == ToBefore then cursor - 1 else cursor].entry.objects, dir, doc, doc')
    ensures Leads(entries, if dir == ToBefore then cursor - 1 else cursor + 1, doc')
    ensures dir == ToBefore ==> EditsMap(entries[cursor - 1].entry.objects, doc', doc)
    ensures Threads(entries, cursor, doc) ==> Threads(entries, if dir == ToBefore then cursor - 1 else cursor + 1, doc')
  {
    hide EditsMap, Rebound;
    if docs :| Chained(entries, docs) && cursor < |docs| && docs[cursor] == doc {
      StepAlong(entries, docs, if dir == ToBefore then cursor - 1 else cursor, dir, doc, doc');
    }
    hide Leads, Threads, Chained;
    if dir == ToBefore {
      LeadsBack(entries, cursor, doc, doc');
    } else {
      LeadsOn(entries, cursor, doc, doc');
    }
  }

  /** Chains through the same entries that end alike are alike all the way back. */
  lemma {:induction false} SameBackwards(entries: seq<Stored>, a: seq<Doc>, b: seq<Doc>, i: nat)
    requires Chained(entries, a) && Chained(entries, b) && i <= |entries| && a[|entries|] == b[|entries|]
    ensures a[i] == b[i]
    decreases |entries| - i
  {
    hide EditsMap;
    if i < |entries| {
      SameBackwards(entries, a, b, i + 1);
      OneSideFixesTheOther(entries[i].entry.objects, a[i], b[i], a[i + 1]);
    }
  }

  /** A chain through the applied entries and the next `k` that passes the document, when
      there is one. */
  lemma ChainAhead(entries: seq<Stored>, cursor: nat, k: nat, doc: Doc) returns (docs: seq<Doc>)
    requires Leads(entries, cursor, doc) && cursor + k <= |entries|
    ensures MeetsNext(entries, cursor, k, doc) ==> Follows(entries, cursor + k, docs, cursor, doc)
  {
    hide EditsMap, MeetsFirst;
    var part := entries[..cursor + k];
    docs := [];
    assert part[cursor..] == entries[cursor..cursor + k];
    if MeetsNext(entries, cursor, k, doc) {
      LeadsWithin(entries, cursor, doc, cursor + k);
      ThreadsExactly(part, cursor, doc);
      docs :| Chained(part, docs) && cursor < |docs| && docs[cursor] == doc;
    }
  }

  /** The first `top` entries step through `docs`, and the cursor stands at `doc` in it. */
  ghost predicate Follows(entries: seq<Stored>, top: nat, docs: seq<Doc>, cursor: nat, doc: Doc)
  {
    cursor <= top <= |entries| && Chained(entries[..top], docs) && doc == docs[cursor]
  }

  lemma FollowsOn(entries: seq<Stored>, top: nat, docs: seq<Doc>, cursor: nat, dir: Direction, doc: Doc, doc': Doc)
    requires Follows(entries, top, docs, cursor, doc) && (if dir == ToBefore then cursor > 0 else cursor < top)
    requires Rebound(entries[if dir == ToBefore then cursor - 1 else cursor].entry.objects, dir, doc, doc')
    ensures Follows(entries, top, docs, if dir == ToBefore then cursor - 1 else cursor + 1, doc')
  {
    hide EditsMap, Rebound;
    var i := if dir == ToBefore then cursor - 1 else cursor;
    assert entries[..top][i] == entries[i];
    StepAlong(entries[..top], docs, i, dir, doc, doc');
  }

  lemma FollowsWhole(entries: seq<Stored>, docs: seq<Doc>, cursor: nat, doc: Doc)
    ensures Follows(entries, |entries|, docs, cursor, doc) <==> Chained(entries, docs) && cursor < |docs| && doc == docs[cursor]
  {
    hide EditsMap;
    assert entries[..|entries|] == entries;
  }

  /** A chain through the applied entries. */
  lemma ChainBehind(entries: seq<Stored>, cursor: nat, doc: Doc) returns (docs: seq<Doc>)
    requires Leads(entries, cursor, doc)
    ensures Follows(entries, cursor, docs, cursor, doc)
  {
    docs := AppliedChain(entries, cursor, doc);
  }

  /** Where `k` undos end after `k` redos that lead from `doc` to `there`. */
  lemma ReturnsExactly(entries: seq<Stored>, cursor: nat, k: nat, doc: Doc, there: Doc, end: Doc, ahead: seq<Doc>, back: seq<Doc>)
    requires Follows(entries, cursor + k, back, cursor, end) && Follows(entries, cursor + k, back, cursor + k, there)
    requires MeetsNext(entries, cursor, k, doc) ==>
               && Follows(entries, cursor + k, ahead, cursor, doc)
               && Follows(entries, cursor + k, ahead, cursor + k, there)
    ensures end == doc <==> MeetsNext(entries, cursor, k, doc)
  {
    hide EditsMap, MeetsFirst;
    var part := entries[..cursor + k];
    assert part[cursor..] == entries[cursor..cursor + k];
    assert |back| == |part| + 1;
    ChainedSuffix(part, back, cursor);
    ChainMeetsFirst(part[cursor..], back[cursor..]);
    if MeetsNext(entries, cursor, k, doc) {
      SameBackwards(part, ahead, back, cursor);
    }
  }

  lemma SamePlace(entries: seq<Stored>, top: nat, docs: seq<Doc>, cursor: nat, one: Doc, two: Doc)
    requires Follows(entries, top, docs, cursor, one) && Follows(entries, top, docs, cursor, two)
    ensures one == two
  {
    hide Chained;
  }

  /** The pool grants the copies of any single entry. */
  predicate Granted(entries: seq<Stored>, grants: nat)
  {
    forall i | 0 <= i < |entries| :: |entries[i].entry.objects| <= grants
  }

  /** What was published before can be published again. */
  lemma PublishedBefore(doc: Doc, seen: set<Record>, revision: nat)
    requires doc.Values <= seen && UniqueStamps(seen) && StampedUpTo(seen, revision)
    ensures seen + doc.Values == seen && StampedUpTo(doc.Values, revision + 1)
  {
  }

  /** The step's document: what the entry leads to on its other side. */
  method NavigateEntry(entries: seq<Stored>, cursor: nat, dir: Direction, doc: Doc, grants: nat, ghost docs: seq<Doc>,
                       ghost seen: set<Record>) returns (next: Option<Doc>)
    requires Leads(entries, cursor, doc) && (if dir == ToBefore then cursor > 0 else cursor < |entries|)
    requires var objects := entries[if dir == ToBefore then cursor - 1 else cursor].entry.objects;
             DistinctObjects(objects) && EditsSeen(objects, seen)
    requires doc.Values <= seen && WellNamed(doc)
    ensures var objects := entries[if dir == ToBefore then cursor - 1 else cursor].entry.objects;
            && (next.Some? <==> grants >= |objects|)
            && (next.Some? ==> Rebound(objects, dir, doc, next.value))
            && (next.Some? && dir == ToBefore ==> EditsMap(objects, next.value, doc))
    ensures next.Some? ==>
              var moved := if dir == ToBefore then cursor - 1 else cursor + 1;
              && next.value.Values <= seen && WellNamed(next.value) && Leads(entries, moved, next.value)
              && (Threads(entries, cursor, doc) ==> Threads(entries, moved, next.value))
              && (Follows(entries, |entries|, docs, cursor, doc) ==> Follows(entries, |entries|, docs, moved, next.value))
  {
    hide EndsAt, Chainable, Threads, Follows, Chained, EditsMap, Rebound, EditsSeen;
    var objects := entries[if dir == ToBefore then cursor - 1 else cursor].entry.objects;
    next := Navigate(objects, dir, doc, grants);
    if next.Some? {
      StepLeads(entries, cursor, dir, doc, next.value);
      ReboundSeen(objects, dir, doc, next.value, seen);
      if Follows(entries, |entries|, docs, cursor, doc) {
        FollowsOn(entries, |entries|, docs, cursor, dir, doc, next.value);
      }
    }
  }

  lemma CommittedEditsSeen(edits: seq<Edit<Option<Record>>>, before: Doc, after: Doc, seen: set<Record>)
    requires EditsMap(edits, before, after) && before.Values <= seen && after.Values <= seen
    requires WellNamed(before) && WellNamed(after)
    ensures DistinctObjects(edits) && EditsSeen(edits, seen)
  {
    forall j | 0 <= j < |edits| ensures EditSeen(edits[j], seen) {
      assert edits[j].before == Get(before, edits[j].subject);
      assert edits[j].after == Get(after, edits[j].subject);
    }
  }

  lemma MergedEditsSeen(merged: seq<Edit<Option<Record>>>, base: seq<Edit<Option<Record>>>,
                        follow: seq<Edit<Option<Record>>>, seen: set<Record>)
    requires IsMerge(merged, base, follow) && EditsSeen(base, seen) && EditsSeen(follow, seen)
    ensures EditsSeen(merged, seen)
  {
    forall j | 0 <= j < |merged| ensures EditSeen(merged[j], seen) {
      var id := merged[j].subject;
      OnlyEdit(merged, j);
      assert EditAt(merged, id) == Joined(EditAt(base, id), EditAt(follow, id));
      assert EditAt(base, id).Some? ==> EditSeen(EditAt(base, id).value, seen);
      assert EditAt(follow, id).Some? ==> EditSeen(EditAt(follow, id).value, seen);
    }
  }

  /** A navigation only brings back published records, each under its own id. */
  lemma ReboundSeen(edits: seq<Edit<Option<Record>>>, dir: Direction, doc: Doc, doc': Doc, seen: set<Record>)
    requires Rebound(edits, dir, doc, doc') && doc.Values <= seen && WellNamed(doc)
    requires EditsSeen(edits, seen)
    ensures doc'.Values <= seen && WellNamed(doc')
  {
    forall id | id in doc' ensures doc'[id] in seen && doc'[id].id == id {
      if Touches(edits, id) {
        var i :| 0 <= i < |edits| && edits[i].subject == id;
        assert Get(doc', id) == Target(edits[i], dir);
        assert EditSeen(edits[i], seen);
      } else {
        assert Get(doc', id) == Get(doc, id);
        assert doc[id] in doc.Values;
      }
    }
  }

  lemma TotalAround(entries: seq<Stored>, n: nat)
    requires n <= |entries|
    ensures Total(entries) == Total(entries[..n]) + Total(entries[n..]) && Total(entries[|entries|..]) == 0
  {
    TotalSplits(entries[..n], entries[n..]);
    assert entries[..n] + entries[n..] == entries;
  }

  /** Give back the cost of every entry from `cursor` on. */
  method CostWithoutTail(entries: seq<Stored>, total: nat, cursor: nat) returns (left: nat)
    requires total == Total(entries) && cursor <= |entries|
    ensures left == Total(entries[..cursor])
  {
    hide Total;
    left := total;
    TotalAround(entries, cursor);
    for i := cursor to |entries|
      invariant left == Total(entries[..cursor]) + Total(entries[i..])
    {
      TotalFromFront(entries, i);
      left := left - entries[i].cost;
    }
  }

  /** Whether a commit with this key folds into the tip entry. */
  predicate FoldsIntoTip(entries: seq<Stored>, cursor: nat, key: nat)
  {
    key != NO_COALESCE && cursor == |entries| && entries != [] && entries[|entries| - 1].entry.key == key
  }

  /** The history after a commit: the tip replaced by its merge with the commit, or the
      redo tail replaced by the commit; then the least prefix gone that the budget asks
      for. `docs` is the chain of documents the entries step through. */
  ghost predicate Journaled(entries: seq<Stored>, docs: seq<Doc>, cursor: nat, entry: Entry, tip: Stored,
                            entries': seq<Stored>, docs': seq<Doc>, before: Doc, now: Doc, budget: nat)
  {
    && cursor <= |entries| && |docs| == |entries| + 1
    && if FoldsIntoTip(entries, cursor, entry.key) then
         var last := cursor - 1;
         var whole := entries[..last] + [tip];
         var n := Dropped(whole, Total(whole), budget);
         && entries' == whole[n..] && docs' == (docs[..cursor] + [now])[n..]
         && IsMerge(tip.entry.objects, entries[last].entry.objects, entry.objects)
         && IsMerge(tip.entry.contents, entries[last].entry.contents, entry.contents)
         && tip.entry.key == entry.key
       else
         var whole := entries[..cursor] + [tip];
         var n := Dropped(whole, Total(whole), budget);
         && entries' == whole[n..] && tip.entry == entry
         && docs' == ((if cursor == 0 then [before] else docs[..cursor + 1]) + [now])[n..]
  }

  /** The kept entries with the new tip behind them, less what the budget took from the front:
      nothing, when they fit, and never the tip. */
  ghost predicate TrimmedTo(kept: seq<Stored>, tip: Stored, left: seq<Stored>, budget: nat)
  {
    && 0 < |left| <= |kept| + 1 && left[|left| - 1] == tip && left == (kept + [tip])[|kept| + 1 - |left|..]
    && (Total(kept) + tip.cost <= budget ==> left == kept + [tip])
  }

  /** When a commit coalesces, and what it leaves: into the tip exactly when it repeats the
      tip's non-zero key with the cursor at the tip, and then there is no entry more; otherwise
      it comes after the applied ones. */
  lemma CoalescesExactly(entries: seq<Stored>, docs: seq<Doc>, cursor: nat, entry: Entry, tip: Stored, entries': seq<Stored>,
                         docs': seq<Doc>, before: Doc, now: Doc, budget: nat)
    requires Journaled(entries, docs, cursor, entry, tip, entries', docs', before, now, budget)
    ensures if cursor == |entries| > 0 && entry.key != 0 && entries[|entries| - 1].entry.key == entry.key then
              && TrimmedTo(entries[..cursor - 1], tip, entries', budget)
              && IsMerge(tip.entry.objects, entries[cursor - 1].entry.objects, entry.objects) && tip.entry.key == entry.key
            else
              TrimmedTo(entries[..cursor], tip, entries', budget) && tip.entry == entry
  {
    hide IsMerge, Total, Dropped, Journaled, TrimmedTo;
    if cursor == |entries| > 0 && entry.key != 0 && entries[|entries| - 1].entry.key == entry.key {
      JournaledFold(entries, docs, cursor, entry, tip, entries', docs', before, now, budget);
      WhatIsLeft(entries[..cursor - 1], tip, entries', budget);
    } else {
      JournaledAppend(entries, docs, cursor, entry, tip, entries', docs', before, now, budget);
      WhatIsLeft(entries[..cursor], tip, entries', budget);
    }
  }

  lemma JournaledFold(entries: seq<Stored>, docs: seq<Doc>, cursor: nat, entry: Entry, tip: Stored, entries': seq<Stored>,
                      docs': seq<Doc>, before: Doc, now: Doc, budget: nat)
    requires Journaled(entries, docs, cursor, entry, tip, entries', docs', before, now, budget)
    requires FoldsIntoTip(entries, cursor, entry.key)
    ensures var whole := entries[..cursor - 1] + [tip]; entries' == whole[Dropped(whole, Total(whole), budget)..]
    ensures IsMerge(tip.entry.objects, entries[cursor - 1].entry.objects, entry.objects) && tip.entry.key == entry.key
  {
    hide IsMerge, Total, Dropped;
  }

  lemma JournaledAppend(entries: seq<Stored>, docs: seq<Doc>, cursor: nat, entry: Entry, tip: Stored, entries': seq<Stored>,
                        docs': seq<Doc>, before: Doc, now: Doc, budget: nat)
    requires Journaled(entries, docs, cursor, entry, tip, entries', docs', before, now, budget)
    requires !FoldsIntoTip(entries, cursor, entry.key)
    ensures cursor <= |entries| && tip.entry == entry
    ensures var whole := entries[..cursor] + [tip]; entries' == whole[Dropped(whole, Total(whole), budget)..]
  {
    hide IsMerge, Total, Dropped;
  }

  lemma WhatIsLeft(kept: seq<Stored>, tip: Stored, left: seq<Stored>, budget: nat)
    requires left == (kept + [tip])[Dropped(kept + [tip], Total(kept + [tip]), budget)..]
    ensures TrimmedTo(kept, tip, left, budget)
  {
    hide Total, Dropped;
    var whole := kept + [tip];
    TipStays(left, whole, Dropped(whole, Total(whole), budget));
    TotalWithOne(kept, tip);
    if Total(whole) <= budget {
      NoMorePops(whole, Total(whole), budget);
      assert whole[0..] == whole;
    }
  }

  // ---- The journal ----------------------------------------------------------------------

  class Journal {
    const model: Model
    const recordSize: nat
    const coster: (Id, Handle) -> nat
    var entries: seq<Stored>
    var cursor: nat
    var totalCost: nat
    var budget: nat
    /** The document before the first entry, and after each one, as committed. */
    ghost var docs: seq<Doc>

    /** The accounts are right, and some documents lead through the applied entries to `doc`. */
    ghost predicate ValidAt(doc: Doc)
      reads this, model
    {
      && model.Valid()
      && cursor <= |entries| && |docs| == |entries| + 1
      && Accounts(entries, totalCost, model.seen, recordSize, coster)
      && Leads(entries, cursor, doc)
    }

    ghost predicate Valid()
      reads this, model
    {
      ValidAt(model.current)
    }

    /** The redo tail, too, leads on from the current document. */
    ghost predicate Threaded()
      reads this, model
    {
      Threads(entries, cursor, model.current)
    }

    /** The entries step through `docs`, and the cursor stands at `doc` in it. */
    ghost predicate AnchoredAt(doc: Doc)
      reads this
    {
      Chained(entries, docs) && cursor < |docs| && doc == docs[cursor]
    }

    ghost predicate Anchored()
      reads this, model
    {
      AnchoredAt(model.current)
    }

    lemma AnchoredFollows()
      requires cursor <= |entries|
      ensures Anchored() <==> Follows(entries, |entries|, docs, cursor, model.current)
    {
      hide Chained;
      FollowsWhole(entries, docs, cursor, model.current);
    }

    constructor (model: Model, budget: nat, recordSize: nat, coster: (Id, Handle) -> nat)
      requires model.Valid()
      ensures Valid() && Anchored() && fresh(this)
      ensures this.model == model && entries == [] && cursor == totalCost == 0 && this.budget == budget
      ensures this.recordSize == recordSize && this.coster == coster
    {
      this.model, this.budget, this.recordSize, this.coster := model, budget, recordSize, coster;
      entries, cursor, totalCost := [], 0, 0;
      docs := [model.current];
      NothingLeads(model.current);
    }

    /** Pop from the front until within budget, never below one entry. */
    method Trim()
      requires Valid()
      modifies this
      ensures Valid() && budget == old(budget)
      ensures var n := Dropped(old(entries), Total(old(entries)), budget);
              && entries == old(entries)[n..] && docs == old(docs)[n..]
              && cursor == if old(cursor) >= n then old(cursor) - n else 0
      ensures old(Chained(entries, docs)) ==> Chained(entries, docs)
    {
      hide UniqueStamps, StampedUpTo, StrictlyIncreasing;
      hide Accounts, Chained, Leads, Total, Dropped;
      AccountsAt(entries, totalCost, model.seen, recordSize, coster, 0);
      LeadsFrom(entries, cursor, model.current, Dropped(entries, Total(entries), budget));
      ghost var n;
      AccountsSuffix(entries, model.seen, recordSize, coster, Dropped(entries, Total(entries), budget));
      ChainedSuffix(entries, docs, Dropped(entries, Total(entries), budget));
      entries, cursor, totalCost, n := PopFronts(entries, cursor, totalCost, budget);
      docs := docs[n..];
    }

    lemma SoundTip(doc: Doc)
      requires ValidAt(doc)
      ensures totalCost == Total(entries)
      ensures entries != [] ==>
                && DistinctObjects(entries[|entries| - 1].entry.objects)
                && DistinctObjects(entries[|entries| - 1].entry.contents)
    {
      if entries != [] {
        AccountsAt(entries, totalCost, model.seen, recordSize, coster, |entries| - 1);
      }
    }

    /** Fold the commit into the tip, recosting it: still one undoable step. */
    method FoldIntoTip(entry: Entry, ghost before: Doc) returns (ghost tip: Stored)
      requires ValidAt(before) && FoldsIntoTip(entries, cursor, entry.key)
      requires EditsMap(entry.objects, before, model.current)
      requires DistinctObjects(entry.objects) && DistinctObjects(entry.contents) && EditsSeen(entry.objects, model.seen)
      modifies this
      ensures Valid() && budget == old(budget) && cursor == |entries| == |old(entries)|
      ensures old(AnchoredAt(before)) ==> Anchored()
      ensures entries == old(entries)[..cursor - 1] + [tip]
      ensures docs == old(docs)[..cursor] + [model.current]
      ensures tip.entry.key == entry.key
      ensures IsMerge(tip.entry.objects, old(entries)[cursor - 1].entry.objects, entry.objects)
      ensures IsMerge(tip.entry.contents, old(entries)[cursor - 1].entry.contents, entry.contents)
    {
      hide UniqueStamps, StampedUpTo, StrictlyIncreasing;
      hide Accounts, Chained, Leads, EditsMap, IsMerge, EditsSeen, Total, CostOf;
      var last := |entries| - 1;
      SoundTip(before);
      var merged := CoalesceEntries(entries[last].entry, entry);
      var cost := EntryCost(merged, recordSize, coster);
      tip := Stored(merged, cost);
      AccountsFold(entries, model.seen, recordSize, coster, entry, tip);
      LeadsFold(entries, entry, tip, before, model.current);
      if AnchoredAt(before) {
        ChainedFold(entries, docs, entry, tip, model.current);
      }
      totalCost := totalCost - entries[last].cost + cost;
      entries, docs := entries[..last] + [Stored(merged, cost)], docs[..last + 1] + [model.current];
    }

    /** Append the commit as a new tip and move the cursor there. */
    method Append(entry: Entry, ghost before: Doc) returns (ghost tip: Stored)
      requires ValidAt(before) && cursor == |entries| && EditsMap(entry.objects, before, model.current)
      requires DistinctObjects(entry.objects) && DistinctObjects(entry.contents) && EditsSeen(entry.objects, model.seen)
      modifies this
      ensures Valid() && budget == old(budget) && cursor == |entries|
      ensures old(cursor) == 0 || old(AnchoredAt(before)) ==> Anchored()
      ensures entries == old(entries) + [tip] && tip.entry == entry
      ensures docs == (if old(cursor) == 0 then [before] else old(docs)) + [model.current]
    {
      hide UniqueStamps, StampedUpTo, StrictlyIncreasing;
      hide Accounts, Chained, Leads, EditsMap, EditsSeen, Total, CostOf;
      SoundTip(before);
      if cursor == 0 {
        docs := [before];
        ChainedNone(docs);
      }
      var cost := EntryCost(entry, recordSize, coster);
      tip := Stored(entry, cost);
      SoundEntry(tip, model.seen, recordSize, coster);
      AccountsAppend(entries, model.seen, recordSize, coster, tip);
      LeadsAppend(entries, tip, before, model.current);
      if AnchoredAt(before) {
        ChainedAppend(entries, docs, tip, model.current);
      }
      entries, docs := entries + [Stored(entry, cost)], docs + [model.current];
      totalCost := totalCost + cost;
      cursor := |entries|;
    }

    /** `on_commit`, called once with the entry of the version just published.
        With the cursor at the tip and the same non-zero key the tip absorbs the
        entry; otherwise the redo tail goes and the entry is appended. Then trim. */
    method OnCommit(entry: Entry, ghost before: Doc) returns (ghost tip: Stored)
      requires ValidAt(before) && DistinctObjects(entry.contents)
      requires EditsMap(entry.objects, before, model.current)
      requires before.Values <= model.seen && WellNamed(before)
      modifies this
      ensures Valid() && budget == old(budget) && cursor == |entries|
      ensures EndsAt(entries, model.current) && Threaded()
      ensures old(cursor) == 0 || old(AnchoredAt(before)) ==> Anchored()
      ensures Journaled(old(entries), old(docs), old(cursor), entry, tip, entries, docs, before, model.current, budget)
    {
      hide UniqueStamps, StampedUpTo, StrictlyIncreasing, Anchored, AnchoredAt;
      hide Accounts, Chained, Leads, EditsMap, EditsSeen, IsMerge, Total, Dropped, EndsAt, Threads;
      CommittedEditsSeen(entry.objects, before, model.current, model.seen);
      if FoldsIntoTip(entries, cursor, entry.key) {
        tip := FoldIntoTip(entry, before);
      } else {
        DropRedoTail(before);
        tip := Append(entry, before);
      }
      TrimAtTip();
      ThreadsAtTip(entries, model.current);
    }

    /** A trim with the cursor at the tip keeps it there. */
    method TrimAtTip()
      requires Valid() && cursor == |entries| && entries != []
      modifies this
      ensures Valid() && budget == old(budget) && cursor == |entries|
      ensures old(Anchored()) ==> Anchored()
      ensures var n := Dropped(old(entries), Total(old(entries)), budget);
              && entries == old(entries)[n..] && docs == old(docs)[n..]
    {
      Trim();
    }

    /** Erase every entry past the cursor. */
    method DropRedoTail(ghost doc: Doc)
      requires ValidAt(doc)
      modifies this
      ensures ValidAt(doc) && budget == old(budget) && cursor == old(cursor)
      ensures entries == old(entries)[..cursor] && docs == old(docs)[..cursor + 1]
      ensures old(AnchoredAt(doc)) ==> AnchoredAt(doc)
    {
      AccountsAt(entries, totalCost, model.seen, recordSize, coster, 0);
      AccountsPrefix(entries, model.seen, recordSize, coster, cursor);
      LeadsWithin(entries, cursor, doc, cursor);
      hide UniqueStamps, StampedUpTo, StrictlyIncreasing;
      hide Accounts, Chained, Leads, Total;
      ChainedPrefix(entries, docs, cursor);
      totalCost := CostWithoutTail(entries, totalCost, cursor);
      entries, docs := entries[..cursor], docs[..cursor + 1];
    }

    /** A transaction commit and its journaling, as the model's commit sink sees it. */
    method Commit(txn: Transaction, retains: bool) returns (ok: bool, ghost entry: Entry, ghost tip: Stored)
      requires Valid() && txn.Valid()
      requires txn.open ==> txn.base == model.current && txn.publishRevision == model.revision + 1
      modifies this, model, txn
      ensures Valid() && budget == old(budget)
      ensures ok <==> old(txn.open) && old(txn.status).None? && retains
      ensures ok ==> cursor == |entries| && model.current == old(txn.root)
      ensures ok ==> EndsAt(entries, model.current) && Threaded()
      ensures !ok && old(Threaded()) ==> Threaded()
      ensures ok && (old(cursor) == 0 || old(Anchored())) ==> Anchored()
      ensures !ok && old(Anchored()) ==> Anchored()
      ensures ok ==> model.revision == old(model.revision) + 1
      ensures ok ==>
                && entry.key == txn.key && entry.contents == old(txn.contents)
                && EditsMap(entry.objects, old(model.current), model.current) && Subjects(entry.objects) == old(txn.touched)
                && Journaled(old(entries), old(docs), old(cursor), entry, tip, entries, docs, old(model.current), model.current, budget)
      ensures !ok ==>
                && model.current == old(model.current) && model.revision == old(model.revision)
                && entries == old(entries) && cursor == old(cursor) && docs == old(docs)
    {
      ghost var before := model.current;
      ghost var seen := model.seen;
      var r := txn.Commit(model, retains);
      AccountsMore(entries, totalCost, seen, model.seen, recordSize, coster);
      hide Accounts, Chained, Leads, EditsMap, Total, Dropped, Journaled, EndsAt, Threads;
      ok := r.Success? && r.value.Some?;
      if ok {
        entry := r.value.value;
        tip := OnCommit(r.value.value, before);
      } else {
        entry, tip := Entry(NO_COALESCE, [], []), Stored(Entry(NO_COALESCE, [], []), 0);
      }
    }

    /** The atomic publish of a step, and the cursor after it. */
    method MoveTo(doc: Doc, dir: Direction)
      requires Valid() && (dir == ToBefore ==> cursor > 0) && (dir == ToAfter ==> cursor < |entries|)
      requires doc.Values <= model.seen && WellNamed(doc)
      requires Leads(entries, if dir == ToBefore then cursor - 1 else cursor + 1, doc)
      modifies `cursor, model
      ensures Valid() && model.current == doc && model.revision == old(model.revision) + 1 && model.seen == old(model.seen)
      ensures cursor == if dir == ToBefore then old(cursor) - 1 else old(cursor) + 1
    {
      hide Accounts, Leads, UniqueStamps, StampedUpTo, WellNamed;
      PublishedBefore(doc, model.seen, model.revision);
      model.Publish(doc);
      cursor := if dir == ToBefore then cursor - 1 else cursor + 1;
    }

    /** Step one entry in `dir`: an ordinary publish of the document on its other
        side. The pool grants `grants` path copies; refused, nothing moves. */
    method Step(dir: Direction, grants: nat) returns (ok: bool)
      requires Valid() && (dir == ToBefore ==> cursor > 0) && (dir == ToAfter ==> cursor < |entries|)
      modifies `cursor, model
      ensures Valid()
      ensures var e := old(entries)[if dir == ToBefore then old(cursor) - 1 else old(cursor)].entry;
              && (ok <==> grants >= |e.objects|)
              && (ok ==> Rebound(e.objects, dir, old(model.current), model.current))
              && (ok && dir == ToBefore ==> EditsMap(e.objects, model.current, old(model.current)))
      ensures ok ==>
                && cursor == (if dir == ToBefore then old(cursor) - 1 else old(cursor) + 1)
                && model.revision == old(model.revision) + 1 && model.seen == old(model.seen)
      ensures !ok ==> cursor == old(cursor) && model.current == old(model.current) && model.revision == old(model.revision)
      ensures ok && old(Anchored()) ==> Anchored()
      ensures !ok && old(Anchored()) ==> Anchored()
      ensures old(Threaded()) ==> Threaded()
    {
      AccountsAt(entries, totalCost, model.seen, recordSize, coster, if dir == ToBefore then cursor - 1 else cursor);
      AnchoredFollows();
      hide Accounts, Chained, Leads, Threads, Follows, EditsMap, Rebound, EditsSeen, Total;
      hide UniqueStamps, StampedUpTo, StrictlyIncreasing, Anchored, AnchoredAt;
      var next := NavigateEntry(entries, cursor, dir, model.current, grants, docs, model.seen);
      if next.None? {
        return false;
      }
      MoveTo(next.value, dir);
      AnchoredFollows();
      return true;
    }

    method Undo(grants: nat) returns (ok: bool)
      requires Valid()
      modifies `cursor, model
      ensures Valid()
      ensures ok <==> old(cursor) > 0 && grants >= |old(entries)[old(cursor) - 1].entry.objects|
      ensures ok ==> Rebound(old(entries)[old(cursor) - 1].entry.objects, ToBefore, old(model.current), model.current)
      ensures ok ==> EditsMap(old(entries)[old(cursor) - 1].entry.objects, model.current, old(model.current))
      ensures ok ==> cursor == old(cursor) - 1 && model.revision == old(model.revision) + 1
      ensures !ok ==> cursor == old(cursor) && model.current == old(model.current) && model.revision == old(model.revision)
      ensures old(Anchored()) ==> Anchored()
      ensures old(Threaded()) ==> Threaded()
    {
      hide Accounts, Chained, Leads, Threads, EditsMap, Rebound, Anchored, AnchoredAt;
      hide UniqueStamps, StampedUpTo, StrictlyIncreasing, WellNamed;
      if cursor == 0 {
        return false;
      }
      ok := Step(ToBefore, grants);
    }

    method Redo(grants: nat) returns (ok: bool)
      requires Valid()
      modifies `cursor, model
      ensures Valid()
      ensures ok <==> old(cursor) < |old(entries)| && grants >= |old(entries)[old(cursor)].entry.objects|
      ensures ok ==> Rebound(old(entries)[old(cursor)].entry.objects, ToAfter, old(model.current), model.current)
      ensures ok ==> cursor == old(cursor) + 1 && model.revision == old(model.revision) + 1
      ensures !ok ==> cursor == old(cursor) && model.current == old(model.current) && model.revision == old(model.revision)
      ensures old(Anchored()) ==> Anchored()
      ensures old(Threaded()) ==> Threaded()
    {
      hide Accounts, Chained, Leads, Threads, EditsMap, Rebound, Anchored, AnchoredAt;
      hide UniqueStamps, StampedUpTo, StrictlyIncreasing, WellNamed;
      if cursor >= |entries| {
        return false;
      }
      ok := Step(ToAfter, grants);
    }

    /** In any state, the redo tail leads on from the current document exactly when that
        holds the record each object's first entry there names as the one before. */
    lemma ThreadedExactly()
      requires Valid()
      ensures Threaded() <==> MeetsFirst(entries[cursor..], model.current)
    {
      hide Chained, Accounts;
      ThreadsExactly(entries, cursor, model.current);
    }

    /** Re-budget, which trims at once. The history stays anchored when no more entries are
        dropped than are applied. A trim past the cursor leaves a redo tail that leads on
        from the current document exactly when the document meets its first edges. */
    method SetByteBudget(bytes: nat)
      requires Valid()
      modifies this
      ensures Valid() && budget == bytes
      ensures var n := Dropped(old(entries), Total(old(entries)), bytes);
              && entries == old(entries)[n..] && docs == old(docs)[n..]
              && cursor == (if old(cursor) >= n then old(cursor) - n else 0)
              && (old(Anchored()) && n <= old(cursor) ==> Anchored())
              && (old(Threaded()) && n <= old(cursor) ==> Threaded())
              && (old(Anchored()) && n > old(cursor) ==>
                    cursor == 0 && (Anchored() <==> old(docs)[old(cursor)] == old(docs)[n]))
      ensures Threaded() <==> MeetsFirst(entries[cursor..], model.current)
    {
      hide UniqueStamps, StampedUpTo, StrictlyIncreasing;
      hide Accounts, Leads, EditsMap, Threads, Total, Dropped, MeetsFirst;
      ghost var n := Dropped(entries, Total(entries), bytes);
      ghost var threaded := Threaded();
      if threaded && n <= cursor {
        ThreadsFrom(entries, cursor, model.current, n);
      }
      budget := bytes;
      Trim();
      ThreadedExactly();
    }

    /** `k` undos, each granted its copies: along any chain of documents the applied entries
        step through, `k` documents back. */
    method Undos(k: nat, grants: nat, ghost top: nat, ghost chain: seq<Doc>)
      requires Valid() && k <= cursor && Granted(entries, grants)
      requires Follows(entries, top, chain, cursor, model.current)
      modifies `cursor, model
      ensures Valid()
      ensures cursor == old(cursor) - k && model.revision == old(model.revision) + k
      ensures Follows(entries, top, chain, cursor, model.current)
      ensures (old(Anchored()) ==> Anchored()) && (old(Threaded()) ==> Threaded())
    {
      hide Accounts, Chained, Leads, Threads, Follows, EditsMap, Rebound, Anchored, AnchoredAt;
      hide UniqueStamps, StampedUpTo, StrictlyIncreasing, WellNamed;
      for i := 0 to k
        invariant Valid() && cursor == old(cursor) - i && model.revision == old(model.revision) + i
        invariant Follows(entries, top, chain, cursor, model.current)
        invariant (old(Anchored()) ==> Anchored()) && (old(Threaded()) ==> Threaded())
      {
        ghost var before := model.current;
        var ok := Undo(grants);
        FollowsOn(entries, top, chain, cursor + 1, ToBefore, before, model.current);
      }
    }

    /** `k` redos, each granted its copies: `k` documents on, along any chain that passes
        the current document. */
    method Redos(k: nat, grants: nat, ghost top: nat, ghost chain: seq<Doc>)
      requires Valid() && cursor + k <= |entries| && Granted(entries, grants)
      modifies `cursor, model
      ensures Valid()
      ensures cursor == old(cursor) + k && model.revision == old(model.revision) + k
      ensures cursor <= top && Follows(entries, top, chain, old(cursor), old(model.current)) ==>
                Follows(entries, top, chain, cursor, model.current)
      ensures (old(Anchored()) ==> Anchored()) && (old(Threaded()) ==> Threaded())
    {
      hide Accounts, Chained, Leads, Threads, Follows, EditsMap, Rebound, Anchored, AnchoredAt;
      hide UniqueStamps, StampedUpTo, StrictlyIncreasing, WellNamed;
      ghost var follows := cursor + k <= top && Follows(entries, top, chain, cursor, model.current);
      for i := 0 to k
        invariant Valid() && cursor == old(cursor) + i && model.revision == old(model.revision) + i
        invariant follows ==> Follows(entries, top, chain, cursor, model.current)
        invariant (old(Anchored()) ==> Anchored()) && (old(Threaded()) ==> Threaded())
      {
        ghost var before := model.current;
        var ok := Redo(grants);
        if follows {
          FollowsOn(entries, top, chain, cursor - 1, ToAfter, before, model.current);
        }
      }
    }

    /** k undos and then k redos restore the identical document, whatever the budget has
        dropped before. */
    method UndoRedo(k: nat, grants: nat)
      requires Valid() && k <= cursor && Granted(entries, grants)
      modifies `cursor, model
      ensures Valid() && model.current == old(model.current)
      ensures (old(Anchored()) ==> Anchored()) && (old(Threaded()) ==> Threaded())
      ensures cursor == old(cursor)
      ensures model.revision == old(model.revision) + 2 * k
    {
      hide Accounts, Chained, Leads, Threads, EditsMap, Granted, Follows, Anchored, AnchoredAt;
      hide UniqueStamps, StampedUpTo, StrictlyIncreasing, WellNamed;
      ghost var start, top := model.current, cursor;
      ghost var chain := ChainBehind(entries, cursor, model.current);
      Undos(k, grants, top, chain);
      Redos(k, grants, top, chain);
      SamePlace(entries, top, chain, top, start, model.current);
    }

    /** k redos and then k undos restore the identical document exactly when, for every
        object they touch, it held the record the first of the entries names as the one
        before. */
    method RedoUndo(k: nat, grants: nat)
      requires Valid() && cursor + k <= |entries| && Granted(entries, grants)
      modifies `cursor, model
      ensures Valid() && cursor == old(cursor)
      ensures model.current == old(model.current) <==> MeetsNext(entries, cursor, k, old(model.current))
      ensures old(Threaded()) ==> Threaded() && model.current == old(model.current)
      ensures model.revision == old(model.revision) + 2 * k
    {
      hide Accounts, Chained, Leads, Threads, EditsMap, MeetsNext, MeetsFirst, Granted, Follows, Anchored, AnchoredAt;
      hide UniqueStamps, StampedUpTo, StrictlyIncreasing, WellNamed;
      ghost var start, first, top := model.current, cursor, cursor + k;
      ghost var ahead := ChainAhead(entries, cursor, k, start);
      if Threaded() {
        ThreadedMeets(entries, cursor, k, start);
      }
      Redos(k, grants, top, ahead);
      ghost var back := ChainBehind(entries, cursor, model.current);
      ghost var there := model.current;
      Undos(k, grants, top, back);
      ReturnsExactly(entries, first, k, start, there, model.current, ahead, back);
    }
  }

  /** A chain through all the entries meets what any run of them first expects. */
  lemma ThreadedMeets(entries: seq<Stored>, cursor: nat, k: nat, doc: Doc)
    requires Threads(entries, cursor, doc) && cursor + k <= |entries|
    ensures MeetsNext(entries, cursor, k, doc)
  {
    hide EditsMap, MeetsFirst;
    var docs :| Chained(entries, docs) && cursor < |docs| && docs[cursor] == doc;
    ChainedPart(entries, docs, cursor, cursor + k);
    ChainMeetsFirst(entries[cursor..cursor + k], docs[cursor..cursor + k + 1]);
  }

  // ---- A list edit, undone and redone -----------------------------------------------------------

  /** The newest entry is the commit's own, whatever was trimmed. */
  lemma CommittedTip(entries: seq<Stored>, docs: seq<Doc>, cursor: nat, entry: Entry, tip: Stored, entries': seq<Stored>,
                     docs': seq<Doc>, before: Doc, now: Doc, budget: nat)
    requires Journaled(entries, docs, cursor, entry, tip, entries', docs', before, now, budget) && entry.key == NO_COALESCE
    ensures entries' != [] && entries'[|entries'| - 1].entry == entry
  {
    hide IsMerge, Total, Dropped;
    var whole := entries[..cursor] + [tip];
    TipStays(entries', whole, Dropped(whole, Total(whole), budget));
  }

  method CommitAttach(journal: Journal, comp: Id, layer: Id, at: nat, ghost layouts: Layouts, nextId: Id, grants: nat)
    returns (ghost layouts': Layouts)
    requires journal.Valid()
    requires Organized(journal.model.current, layouts) && Fresh(journal.model.current, nextId)
    requires IsComposition(layouts, comp) && layer in journal.model.current
    requires grants > |layouts[comp].ids| + CeilDiv(|layouts[comp].order| + 1, OrderChunk)
    modifies journal, journal.model
    ensures journal.Valid() && journal.cursor == |journal.entries| >= 1
    ensures old(journal.Anchored()) ==> journal.Anchored()
    ensures EditsMap(journal.entries[journal.cursor - 1].entry.objects, old(journal.model.current), journal.model.current)
    ensures Organized(journal.model.current, layouts') && IsComposition(layouts', comp)
    ensures layouts'[comp].order == M.InsertAt(layouts[comp].order, Min(at, |layouts[comp].order|), layer)
  {
    hide Organized, OwnerEdited, Accounts, Chained, Leads, EditsMap, Rebound, Total, Dropped, Journaled, LaidOut, EndsAt, Threads;
    hide UniqueStamps, StampedUpTo, StrictlyIncreasing;
    var model := journal.model;
    ghost var entries, docs, cursor, before := journal.entries, journal.docs, journal.cursor, model.current;
    var txn := new Transaction(model.current, model.revision + 1, NO_COALESCE);
    ghost var w := txn.Work();
    var next;
    layouts', next := txn.AttachLayer(comp, layer, at, layouts, nextId, grants);
    OwnerEditedKeeps(w, txn.Work(), comp, layouts, layouts', next);
    var ok;
    ghost var entry, tip;
    ok, entry, tip := journal.Commit(txn, true);
    CommittedTip(entries, docs, cursor, entry, tip, journal.entries, journal.docs, before, model.current, journal.budget);
  }

  /** Attach a layer, commit, undo and redo: the order reads back as it was, and then as it
      was with the layer in it, however the list is stored and whatever was trimmed, then or
      before. */
  method AttachUndoRedo(journal: Journal, comp: Id, layer: Id, at: nat, ghost layouts: Layouts, nextId: Id, grants: nat)
    returns (undone: seq<Id>, redone: seq<Id>)
    requires journal.Valid()
    requires Organized(journal.model.current, layouts) && Fresh(journal.model.current, nextId)
    requires IsComposition(layouts, comp) && layer in journal.model.current
    requires grants > |layouts[comp].ids| + CeilDiv(|layouts[comp].order| + 1, OrderChunk)
    modifies journal, journal.model
    ensures journal.Valid() && (old(journal.Anchored()) ==> journal.Anchored())
    ensures undone == layouts[comp].order
    ensures redone == M.InsertAt(layouts[comp].order, Min(at, |layouts[comp].order|), layer)
  {
    hide Organized, Accounts, Chained, Leads, EditsMap, Rebound, Threads;
    ghost var before := journal.model.current;
    ghost var layouts' := CommitAttach(journal, comp, layer, at, layouts, nextId, grants);
    ghost var now, edits := journal.model.current, journal.entries[journal.cursor - 1].entry.objects;
    var copies := |journal.entries[journal.cursor - 1].entry.objects|;
    var ok := journal.Undo(copies);
    NavigationInverts(edits, before, now, ToBefore, journal.model.current);
    undone := ReadOrder(journal.model.current, comp, layouts);
    ok := journal.Redo(copies);
    NavigationInverts(edits, before, now, ToAfter, journal.model.current);
    redone := ReadOrder(journal.model.current, comp, layouts');
  }

  method ReadOrder(doc: Doc, comp: Id, ghost layouts: Layouts) returns (order: seq<Id>)
    requires Organized(doc, layouts) && IsComposition(layouts, comp)
    ensures order == layouts[comp].order
  {
    OwnersAreLaidOut(doc, layouts, comp);
    var chunkIds;
    order, chunkIds := M.ReadLayerOrder(doc, comp, layouts[comp].order, layouts[comp].ids);
  }

  // ---- Where the anchor is lost -------------------------------------------------------------

  function NoHandleCost(id: Id, handle: Handle): nat { 0 }

  const FIRST := Record(1, 1, Layer(0))
  const SECOND := Record(1, 2, Layer(1))

  lemma CostOfOne(s: Stored, seen: set<Record>, before: Doc, after: Doc)
    requires Sound(s, seen, 1, NoHandleCost) && s.entry.contents == [] && Subjects(s.entry.objects) == [1]
    requires EditsMap(s.entry.objects, before, after)
    ensures s.cost == EdgeCost(Get(before, 1), 1) + EdgeCost(Get(after, 1), 1)
  {
    var e := s.entry.objects;
    assert |e| == |Subjects(e)| && e[0].subject == Subjects(e)[0];
    assert e[..|e| - 1] == [] && ObjectsCost([], 1) == 0;
    assert ContentsCost(s.entry.contents, NoHandleCost) == 0;
  }

  /** A first or second write of object 1, journaled with no trim. */
  lemma Untrimmed(entries: seq<Stored>, docs: seq<Doc>, tip: Stored, entries': seq<Stored>, docs': seq<Doc>, total': nat,
                  seen: set<Record>, before: Doc, now: Doc, budget: nat)
    requires Journaled(entries, docs, |entries|, tip.entry, tip, entries', docs', before, now, budget)
    requires tip.entry.key == NO_COALESCE && tip.entry.contents == [] && Subjects(tip.entry.objects) == [1]
    requires EditsMap(tip.entry.objects, before, now) && docs[|entries|] == before
    requires Accounts(entries', total', seen, 1, NoHandleCost) && Total(entries) + 2 <= budget
    ensures entries' == entries + [tip] && docs' == docs + [now] && total' == Total(entries) + tip.cost
    ensures tip.cost == EdgeCost(Get(before, 1), 1) + EdgeCost(Get(now, 1), 1)
  {
    hide Accounts, Sound, EditsMap, IsMerge, Subjects, Total, Dropped;
    var whole := entries[..|entries|] + [tip];
    assert whole == entries + [tip];
    TipStays(entries', whole, Dropped(whole, Total(whole), budget));
    AccountsAt(entries', total', seen, 1, NoHandleCost, |entries'| - 1);
    CostOfOne(tip, seen, before, now);
    TotalWithOne(entries, tip);
    NoMorePops(whole, Total(whole), budget);
    assert whole[0..] == whole;
    assert docs[..|entries| + 1] == docs;
  }

  lemma TipStays(rest: seq<Stored>, whole: seq<Stored>, n: nat)
    requires n < |whole| && rest == whole[n..]
    ensures rest != [] && rest[|rest| - 1] == whole[|whole| - 1]
  {
  }

  method CommitOne(journal: Journal, rest: int) returns (ghost tip: Stored)
    requires journal.Valid() && journal.Anchored() && journal.cursor == |journal.entries|
    requires journal.recordSize == 1 && journal.coster == NoHandleCost && journal.totalCost + 2 <= journal.budget
    modifies journal, journal.model
    ensures journal.Valid() && journal.Anchored() && journal.cursor == |journal.entries|
    ensures journal.budget == old(journal.budget)
    ensures journal.model.revision == old(journal.model.revision) + 1
    ensures journal.model.current == old(journal.model.current)[1 := Record(1, journal.model.revision, Layer(rest))]
    ensures journal.entries == old(journal.entries) + [tip] && journal.docs == old(journal.docs) + [journal.model.current]
    ensures Subjects(tip.entry.objects) == [1] && EditsMap(tip.entry.objects, old(journal.model.current), journal.model.current)
    ensures tip.cost == EdgeCost(Get(old(journal.model.current), 1), 1) + 1
    ensures journal.totalCost == old(journal.totalCost) + tip.cost
  {
    var model := journal.model;
    ghost var entries, docs, before := journal.entries, journal.docs, model.current;
    var txn := new Transaction(model.current, model.revision + 1, NO_COALESCE);
    txn.Put(1, Layer(rest), true);
    hide Accounts, Chained, Leads, Threads, EndsAt, EditsMap, Journaled, Total;
    journal.SoundTip(journal.model.current);
    var ok;
    ghost var entry;
    ok, entry, tip := journal.Commit(txn, true);
    KeepsItsEntry(entries, docs, entry, tip, journal.entries, journal.docs, before, model.current, journal.budget);
    Untrimmed(entries, docs, tip, journal.entries, journal.docs, journal.totalCost, model.seen, before, model.current, journal.budget);
  }

  lemma KeepsItsEntry(entries: seq<Stored>, docs: seq<Doc>, entry: Entry, tip: Stored, entries': seq<Stored>, docs': seq<Doc>,
                      before: Doc, now: Doc, budget: nat)
    requires Journaled(entries, docs, |entries|, entry, tip, entries', docs', before, now, budget) && entry.key == NO_COALESCE
    ensures tip.entry == entry
  {
  }

  /** Navigating edits of object 1 alone. */
  lemma OnlyOneMoves(edits: seq<Edit<Option<Record>>>, before: Doc, after: Doc, dir: Direction, doc: Doc, doc': Doc)
    requires EditsMap(edits, before, after) && Subjects(edits) == [1] && Rebound(edits, dir, doc, doc')
    ensures doc' == Bind(doc, 1, Get(if dir == ToBefore then before else after, 1))
  {
    assert |edits| == |Subjects(edits)| && edits[0].subject == Subjects(edits)[0];
    var goal := Bind(doc, 1, Get(if dir == ToBefore then before else after, 1));
    forall id: Id ensures Get(doc', id) == Get(goal, id) {
      if id != 1 {
        assert !Touches(edits, id);
      }
    }
    SameGets(doc', goal);
  }

  lemma DropsTheFirst(add: Stored, edit: Stored)
    requires add.cost == 1 && edit.cost == 2
    ensures Dropped([add, edit], Total([add, edit]), 1) == 1
  {
    assert [add, edit][1..] == [edit] && [edit][1..] == [];
  }

  /** Add an object, edit it, and undo both. */
  method AddEditUndoBoth() returns (journal: Journal, ghost add: Stored, ghost edit: Stored)
    ensures fresh(journal) && fresh(journal.model) && journal.Valid() && journal.Anchored()
    ensures journal.entries == [add, edit] && journal.cursor == 0 && add.cost == 1 && edit.cost == 2
    ensures journal.model.current == map[]
    ensures Subjects(edit.entry.objects) == [1] && EditsMap(edit.entry.objects, map[1 := FIRST], map[1 := SECOND])
  {
    hide Accounts, Chained, Leads, Threads, EditsMap, Rebound, Total, Dropped;
    var model := new Model();
    journal := new Journal(model, 5, 1, NoHandleCost);
    add := CommitOne(journal, 0);
    assert model.current == map[1 := FIRST];
    edit := CommitOne(journal, 1);
    assert model.current == map[1 := SECOND];
    assert journal.docs == [map[], map[1 := FIRST], map[1 := SECOND]];
    assert |add.entry.objects| == |Subjects(add.entry.objects)| && |edit.entry.objects| == |Subjects(edit.entry.objects)|;
    var ok := journal.Undo(1);
    ok := journal.Undo(1);
  }

  /** Then set a budget of one record: the entry that added the object is dropped although
      it is not applied. Redo binds the edited object, and undo does not return to the
      empty document. */
  method TrimBelowTheCursorLosesTheAnchor() returns (start: Doc, redone: Doc, undone: Doc)
    ensures start == map[] && redone == map[1 := SECOND] && undone == map[1 := FIRST]
  {
    hide Accounts, Chained, Leads, Threads, MeetsFirst, EditsMap, Rebound, Total, Dropped, Journal.Anchored, Journal.AnchoredAt;
    hide UniqueStamps, StampedUpTo, StrictlyIncreasing;
    var journal: Journal;
    ghost var add, edit;
    journal, add, edit := AddEditUndoBoth();
    start := journal.model.current;
    DropsTheFirst(add, edit);
    journal.SetByteBudget(1);
    assert |edit.entry.objects| == |Subjects(edit.entry.objects)|;
    var ok := journal.Redo(1);
    redone := journal.model.current;
    OnlyOneMoves(edit.entry.objects, map[1 := FIRST], map[1 := SECOND], ToAfter, start, redone);
    ok := journal.Undo(1);
    undone := journal.model.current;
    OnlyOneMoves(edit.entry.objects, map[1 := FIRST], map[1 := SECOND], ToBefore, redone, undone);
  }
}
