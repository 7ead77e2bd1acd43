/** Opening a workspace: counts are never trusted from the file. One walk from the
    durable root rebuilds them, visiting each slot once and counting every edge. */
module HamtRecovery {
  import opened Numbers
  import opened Wrappers
  import opened HamtTrie
  import opened HamtStore
  import opened HamtVersions

  /** What the walk reads off a record: its object id, its revision stamp, and for a content
      its kind and the handle of its captured state, 0 when inert or for another kind of
      record. */
  datatype Stamp = Stamp(id: nat, revision: nat, kind: nat, state: nat)

  /** A captured state for its kind to walk: the content's id, its kind and the handle. */
  datatype ContentState = ContentState(id: nat, kind: nat, state: nat)

  datatype Recovered = Recovered(
    nodeCounts: Counts, recordCounts: Counts,
    nodes: seq<Slot>, records: seq<Slot>,
    maxId: nat, maxRevision: nat, states: seq<ContentState>)

  const NOTHING := Recovered(map[], map[], [], [], 0, 0, [])

  /** The mapped file: every edge of a node lands on a node or a record of the file. */
  ghost predicate FileOk(nodes: NodeMap, stamps: map<Slot, Stamp>)
  {
    && (forall p, d | p in nodes && nodes[p].Branch? && d in nodes[p].kids :: nodes[p].kids[d] in nodes)
    && (forall p | p in nodes && nodes[p].Leaf? :: nodes[p].record in stamps)
  }

  /** The part of the file the slots of `s` make up. */
  ghost function Part(nodes: NodeMap, s: set<Slot>): NodeMap
  {
    map p | p in s && p in nodes :: nodes[p]
  }

  function CountOf(counts: Counts, s: Slot): nat
  {
    if s in counts then counts[s] else 0
  }

  /** The walk's bookkeeping: `seen` has a count for each of its members, the edges
      counted so far are those of `g`, and they stay within `seen`. */
  ghost predicate Tallied(g: NodeMap, seen: set<Slot>, root: Slot, out: Recovered)
  {
    && out.nodeCounts.Keys == seen
    && (forall s {:trigger InDegree(g, s)} | s in seen :: out.nodeCounts[s] == InDegree(g, s) + if s == root then 1 else 0)
    && (forall s {:trigger InDegree(g, s)} | s !in seen :: InDegree(g, s) == 0)
    && (forall r {:trigger LeafDegree(g, r)} :: CountOf(out.recordCounts, r) == LeafDegree(g, r))
    && (forall r | r in out.recordCounts :: out.recordCounts[r] > 0)
  }

  /** The listed slots are exactly the counted ones, each once. */
  ghost predicate Listed(out: Recovered)
  {
    && EachOnce(out.nodes, out.nodeCounts.Keys)
    && EachOnce(out.records, out.recordCounts.Keys)
  }

  ghost predicate EachOnce(s: seq<Slot>, members: set<Slot>)
  {
    && (forall x :: x in s <==> x in members)
    && (forall i, j | 0 <= i < j < |s| :: s[i] != s[j])
  }

  function StateOf(stamp: Stamp): seq<ContentState>
  {
    if stamp.state != 0 then [ContentState(stamp.id, stamp.kind, stamp.state)] else []
  }

  /** Record `r` holds a captured state, namely `s`. */
  ghost predicate Holds(r: Slot, stamps: map<Slot, Stamp>, s: ContentState)
  {
    r in stamps && stamps[r].state != 0 && s.id == stamps[r].id && s.kind == stamps[r].kind && s.state == stamps[r].state
  }

  /** Which of the listed records hold a captured state. */
  ghost function Holders(records: seq<Slot>, stamps: map<Slot, Stamp>): set<nat>
  {
    set i: nat | i < |records| && records[i] in stamps && stamps[records[i]].state != 0
  }

  /** The states are those the listed records hold, one for each of them and in their order:
      a record's state comes after as many as records before it hold one. */
  ghost predicate Captured(states: seq<ContentState>, records: seq<Slot>, stamps: map<Slot, Stamp>)
  {
    && |states| == |Holders(records, stamps)|
    && (forall i: nat | i in Holders(records, stamps) ::
          |Holders(records[..i], stamps)| < |states| && Holds(records[i], stamps, states[|Holders(records[..i], stamps)|]))
    && (forall s :: s in states <==> exists r :: r in records && Holds(r, stamps, s))
  }

  /** `m` is the greatest id of the listed records, 0 when there are none. */
  ghost predicate GreatestId(records: seq<Slot>, stamps: map<Slot, Stamp>, m: nat)
  {
    && (forall r | r in records && r in stamps :: stamps[r].id <= m)
    && (m > 0 ==> exists r :: r in records && r in stamps && stamps[r].id == m)
  }

  ghost predicate GreatestRevision(records: seq<Slot>, stamps: map<Slot, Stamp>, m: nat)
  {
    && (forall r | r in records && r in stamps :: stamps[r].revision <= m)
    && (m > 0 ==> exists r :: r in records && r in stamps && stamps[r].revision == m)
  }

  /** The maxima and the states are those of the records listed so far. */
  ghost predicate Summarized(out: Recovered, stamps: map<Slot, Stamp>)
  {
    && GreatestId(out.records, stamps, out.maxId) && GreatestRevision(out.records, stamps, out.maxRevision)
    && Captured(out.states, out.records, stamps)
  }

  /** Count the record edge of a leaf; list the record on first sight. */
  function CountRecord(out: Recovered, r: Slot, stamp: Stamp): Recovered
  {
    var counted := out.(recordCounts := out.recordCounts[r := CountOf(out.recordCounts, r) + 1]);
    if r in out.recordCounts then counted
    else counted.(records := out.records + [r],
                  maxId := Max(out.maxId, stamp.id), maxRevision := Max(out.maxRevision, stamp.revision),
                  states := out.states + StateOf(stamp))
  }

  lemma CountRecordKeeps(g: NodeMap, seen: set<Slot>, root: Slot, out: Recovered, p: Slot, key: Key, r: Slot,
                         stamps: map<Slot, Stamp>)
    requires Tallied(g, seen, root, out) && Listed(out) && Summarized(out, stamps)
    requires p !in g && r in stamps
    ensures var out' := CountRecord(out, r, stamps[r]);
            Tallied(g[p := Leaf(key, r)], seen, root, out') && Listed(out') && Summarized(out', stamps)
  {
    var out' := CountRecord(out, r, stamps[r]);
    assert Tallied(g[p := Leaf(key, r)], seen, root, out') by {
      CountRecordTallied(g, seen, root, out, p, key, r, stamps[r]);
    }
    assert Listed(out') by {
      hide Tallied, Summarized;
      CountRecordLists(out, r, stamps[r]);
    }
    assert Summarized(out', stamps) by {
      CountRecordSummarizes(out, r, stamps);
    }
  }

  lemma CountRecordTallied(g: NodeMap, seen: set<Slot>, root: Slot, out: Recovered, p: Slot, key: Key, r: Slot,
                           stamp: Stamp)
    requires Tallied(g, seen, root, out) && p !in g
    ensures Tallied(g[p := Leaf(key, r)], seen, root, CountRecord(out, r, stamp))
  {
    ChildlessNodeHasNoEdges(g, p);
    AddedLeaf(g[p := Branch(map[])], p, key, r);
    assert g[p := Branch(map[])][p := Leaf(key, r)] == g[p := Leaf(key, r)];
    assert CountOf(out.recordCounts, r) == LeafDegree(g, r);
  }

  lemma ListOneMore(s: seq<Slot>, members: set<Slot>, x: Slot)
    requires EachOnce(s, members) && x !in members
    ensures EachOnce(s + [x], members + {x})
  {
    assert forall y :: y in s + [x] <==> y in s || y == x;
  }

  lemma CountRecordLists(out: Recovered, r: Slot, stamp: Stamp)
    requires Listed(out)
    ensures Listed(CountRecord(out, r, stamp))
  {
    hide EachOnce;
    assert CountRecord(out, r, stamp).recordCounts.Keys == out.recordCounts.Keys + {r};
    if r in out.recordCounts {
      assert out.recordCounts.Keys + {r} == out.recordCounts.Keys;
    } else {
      ListOneMore(out.records, out.recordCounts.Keys, r);
    }
  }

  lemma CountRecordSummarizes(out: Recovered, r: Slot, stamps: map<Slot, Stamp>)
    requires Summarized(out, stamps) && r in stamps
    ensures Summarized(CountRecord(out, r, stamps[r]), stamps)
  {
    hide GreatestId, GreatestRevision, Captured, StateOf;
    if r !in out.recordCounts {
      GreatestIdOneMore(out.records, r, stamps, out.maxId);
      GreatestRevisionOneMore(out.records, r, stamps, out.maxRevision);
      CapturedOneMore(out.states, out.records, r, stamps);
    }
  }

  lemma GreatestIdOneMore(records: seq<Slot>, r: Slot, stamps: map<Slot, Stamp>, m: nat)
    requires GreatestId(records, stamps, m) && r in stamps
    ensures GreatestId(records + [r], stamps, Max(m, stamps[r].id))
  {
    assert forall x :: x in records + [r] <==> x in records || x == r;
  }

  lemma GreatestRevisionOneMore(records: seq<Slot>, r: Slot, stamps: map<Slot, Stamp>, m: nat)
    requires GreatestRevision(records, stamps, m) && r in stamps
    ensures GreatestRevision(records + [r], stamps, Max(m, stamps[r].revision))
  {
    assert forall x :: x in records + [r] <==> x in records || x == r;
  }

  lemma CapturedOneMore(states: seq<ContentState>, records: seq<Slot>, r: Slot, stamps: map<Slot, Stamp>)
    requires Captured(states, records, stamps) && r in stamps
    ensures Captured(states + StateOf(stamps[r]), records + [r], stamps)
  {
    var more, n := records + [r], |records|;
    HoldersOneMore(records, r, stamps);
    CapturedMembers(states, records, r, stamps);
    forall i: nat | i in Holders(more, stamps)
      ensures |Holders(more[..i], stamps)| < |states + StateOf(stamps[r])|
      ensures Holds(more[i], stamps, (states + StateOf(stamps[r]))[|Holders(more[..i], stamps)|])
    {
      if i < n {
        assert more[..i] == records[..i] && i in Holders(records, stamps);
      } else {
        assert more[..i] == records;
      }
    }
  }

  lemma HoldersOneMore(records: seq<Slot>, r: Slot, stamps: map<Slot, Stamp>)
    requires r in stamps
    ensures Holders(records + [r], stamps) == Holders(records, stamps) + if stamps[r].state != 0 then {|records|} else {}
    ensures |Holders(records + [r], stamps)| == |Holders(records, stamps)| + |StateOf(stamps[r])|
  {
    var more, n := records + [r], |records|;
    assert Holders(more, stamps) == Holders(records, stamps) + if stamps[r].state != 0 then {n} else {} by {
      forall i: nat | i < n ensures more[i] == records[i] {}
    }
    assert n !in Holders(records, stamps);
  }

  lemma CapturedMembers(states: seq<ContentState>, records: seq<Slot>, r: Slot, stamps: map<Slot, Stamp>)
    requires r in stamps && forall s :: s in states <==> exists q :: q in records && Holds(q, stamps, s)
    ensures forall s :: s in states + StateOf(stamps[r]) <==> exists q :: q in records + [r] && Holds(q, stamps, s)
  {
    forall s ensures s in states + StateOf(stamps[r]) <==> exists q :: q in records + [r] && Holds(q, stamps, s) {
      assert s in StateOf(stamps[r]) <==> Holds(r, stamps, s);
      if s in states {
        var q :| q in records && Holds(q, stamps, s);
        assert q in records + [r];
      }
      assert r in records + [r];
    }
  }

  /** Count one child edge; list the child on first sight. */
  function CountChild(out: Recovered, c: Slot): Recovered
  {
    var counted := out.(nodeCounts := out.nodeCounts[c := CountOf(out.nodeCounts, c) + 1]);
    if c in out.nodeCounts then counted else counted.(nodes := out.nodes + [c])
  }

  lemma CountChildKeeps(g: NodeMap, seen: set<Slot>, root: Slot, out: Recovered, p: Slot, d: Digit, c: Slot)
    requires Tallied(g, seen, root, out) && Listed(out) && root in seen
    requires p in g && g[p].Branch? && d !in g[p].kids
    ensures Tallied(g[p := Branch(g[p].kids[d := c])], seen + {c}, root, CountChild(out, c))
    ensures Listed(CountChild(out, c))
  {
    AddedEdge(g, p, d, c);
    assert c !in seen ==> InDegree(g, c) == 0;
    assert c in seen ==> out.nodeCounts[c] == InDegree(g, c) + if c == root then 1 else 0;
  }

  ghost function BelowDigit(kids: map<Digit, Slot>, i: nat): map<Digit, Slot>
  {
    map d | d in kids && d < i :: kids[d]
  }

  /** Every edge out of an expanded slot has been counted. */
  ghost predicate EdgesInside(nodes: NodeMap, done: set<Slot>, seen: set<Slot>, records: set<Slot>)
  {
    && (forall p, d | p in done && p in nodes && nodes[p].Branch? && d in nodes[p].kids :: nodes[p].kids[d] in seen)
    && (forall p | p in done && p in nodes && nodes[p].Leaf? :: nodes[p].record in records)
  }

  /** Every reached slot lies in every closed set that holds the root. */
  ghost predicate NothingExtra(nodes: NodeMap, root: Slot, seen: set<Slot>)
  {
    forall all: set<Slot> | ClosedFrom(nodes, multiset{root}, all) :: seen <= all
  }

  /** What the walk knows between two pops: the expanded slots are those seen and
      not on the stack, and nothing was reached that some closed set could miss. */
  ghost predicate WalkState(nodes: NodeMap, root: Slot, done: set<Slot>, stack: seq<Slot>, out: Recovered)
  {
    && Tallied(Part(nodes, done), out.nodeCounts.Keys, root, out) && Listed(out)
    && root in out.nodeCounts && out.nodeCounts.Keys <= nodes.Keys
    && (forall s :: s in out.nodeCounts <==> s in done || s in stack)
    && (forall s | s in stack :: s !in done)
    && (forall i, j | 0 <= i < j < |stack| :: stack[i] != stack[j])
    && EdgesInside(nodes, done, out.nodeCounts.Keys, out.recordCounts.Keys)
    && NothingExtra(nodes, root, out.nodeCounts.Keys)
  }

  /** `WalkState` behind a seal, opened one step at a time. */
  ghost predicate Walking(nodes: NodeMap, root: Slot, done: set<Slot>, stack: seq<Slot>, out: Recovered)
  {
    forall t {:trigger Opened(t)} :: Opened(t) ==> WalkState(nodes, root, done, stack, out)
  }

  lemma OpenWalk(nodes: NodeMap, root: Slot, done: set<Slot>, stack: seq<Slot>, out: Recovered)
    requires Walking(nodes, root, done, stack, out)
    ensures WalkState(nodes, root, done, stack, out)
  {
    assert Opened(0);
  }

  lemma TopOfStack(nodes: NodeMap, root: Slot, done: set<Slot>, stack: seq<Slot>, index: Slot, out: Recovered)
    requires Walking(nodes, root, done, stack + [index], out)
    ensures index in nodes && index !in done
    ensures forall s :: s in out.nodeCounts <==> s == index || s in done || s in stack
    ensures forall s | s in stack :: s !in done && s != index
    ensures forall i, j | 0 <= i < j < |stack| :: stack[i] != stack[j]
  {
    OpenWalk(nodes, root, done, stack + [index], out);
    var whole := stack + [index];
    assert whole[|stack|] == index;
    assert forall i | 0 <= i < |stack| :: whole[i] == stack[i];
    assert forall s :: s in whole <==> s in stack || s == index;
  }

  /** The stack holds, once each, the seen slots that are neither `done` nor `index`. */
  ghost predicate Queued(seen: set<Slot>, done: set<Slot>, index: Slot, stack: seq<Slot>)
  {
    && (forall s :: s in seen <==> s == index || s in done || s in stack)
    && (forall s | s in stack :: s !in done && s != index)
    && (forall j, k | 0 <= j < k < |stack| :: stack[j] != stack[k])
  }

  lemma QueueOneMore(seen: set<Slot>, done: set<Slot>, index: Slot, stack: seq<Slot>, child: Slot)
    requires Queued(seen, done, index, stack)
    ensures Queued(seen + {child}, done, index, if child in seen then stack else stack + [child])
  {
    if child in seen {
      assert seen + {child} == seen;
    } else {
      var more := stack + [child];
      assert forall s :: s in more <==> s in stack || s == child;
    }
  }

  lemma MoreSeen(nodes: NodeMap, done: set<Slot>, seen: set<Slot>, child: Slot, records: set<Slot>)
    requires EdgesInside(nodes, done, seen, records)
    ensures EdgesInside(nodes, done, seen + {child}, records)
  {
  }

  lemma ChildNotExtra(nodes: NodeMap, root: Slot, seen: set<Slot>, index: Slot, d: Digit)
    requires NothingExtra(nodes, root, seen) && index in seen
    requires index in nodes && nodes[index].Branch? && d in nodes[index].kids
    ensures NothingExtra(nodes, root, seen + {nodes[index].kids[d]})
  {
  }

  /** The walk in the middle of branch `index`: its digits below `i` are counted. */
  ghost predicate ExpandState(nodes: NodeMap, root: Slot, done: set<Slot>, index: Slot, kids: map<Digit, Slot>, i: nat,
                              stack: seq<Slot>, out: Recovered)
  {
    && Tallied(Part(nodes, done)[index := Branch(BelowDigit(kids, i))], out.nodeCounts.Keys, root, out) && Listed(out)
    && root in out.nodeCounts && out.nodeCounts.Keys <= nodes.Keys && index in out.nodeCounts
    && Queued(out.nodeCounts.Keys, done, index, stack)
    && (forall d | d in kids && d < i :: kids[d] in out.nodeCounts)
    && EdgesInside(nodes, done, out.nodeCounts.Keys, out.recordCounts.Keys)
    && NothingExtra(nodes, root, out.nodeCounts.Keys)
  }

  ghost predicate Expanding(nodes: NodeMap, root: Slot, done: set<Slot>, index: Slot, kids: map<Digit, Slot>, i: nat,
                            stack: seq<Slot>, out: Recovered)
  {
    forall t {:trigger Opened(t)} :: Opened(t) ==> ExpandState(nodes, root, done, index, kids, i, stack, out)
  }

  lemma OpenExpand(nodes: NodeMap, root: Slot, done: set<Slot>, index: Slot, kids: map<Digit, Slot>, i: nat,
                   stack: seq<Slot>, out: Recovered)
    requires Expanding(nodes, root, done, index, kids, i, stack, out)
    ensures ExpandState(nodes, root, done, index, kids, i, stack, out)
  {
    assert Opened(0);
  }

  lemma ExpandStarts(nodes: NodeMap, root: Slot, done: set<Slot>, index: Slot, stack: seq<Slot>, out: Recovered)
    requires Walking(nodes, root, done, stack + [index], out) && index in nodes && nodes[index].Branch?
    ensures Expanding(nodes, root, done, index, nodes[index].kids, 0, stack, out)
  {
    TopOfStack(nodes, root, done, stack, index, out);
    OpenWalk(nodes, root, done, stack + [index], out);
    var g := Part(nodes, done);
    ChildlessNodeHasNoEdges(g, index);
    assert BelowDigit(nodes[index].kids, 0) == map[];
    SameDegreesTallied(g, g[index := Branch(map[])], out.nodeCounts.Keys, root, out);
    assert Queued(out.nodeCounts.Keys, done, index, stack);
  }

  lemma SameDegreesTallied(g: NodeMap, g': NodeMap, seen: set<Slot>, root: Slot, out: Recovered)
    requires Tallied(g, seen, root, out)
    requires forall s :: InDegree(g', s) == InDegree(g, s)
    requires forall r :: LeafDegree(g', r) == LeafDegree(g, r)
    ensures Tallied(g', seen, root, out)
  {
  }

  lemma BelowNext(kids: map<Digit, Slot>, i: nat)
    ensures BelowDigit(kids, i + 1) == if i in kids then BelowDigit(kids, i)[i := kids[i]] else BelowDigit(kids, i)
  {
  }

  lemma ChildTallied(nodes: NodeMap, root: Slot, done: set<Slot>, index: Slot, kids: map<Digit, Slot>, i: nat, out: Recovered)
    requires i in kids && root in out.nodeCounts && Listed(out)
    requires Tallied(Part(nodes, done)[index := Branch(BelowDigit(kids, i))], out.nodeCounts.Keys, root, out)
    ensures Tallied(Part(nodes, done)[index := Branch(BelowDigit(kids, i + 1))], out.nodeCounts.Keys + {kids[i]}, root,
                    CountChild(out, kids[i]))
    ensures Listed(CountChild(out, kids[i]))
  {
    var before := Part(nodes, done)[index := Branch(BelowDigit(kids, i))];
    CountChildKeeps(before, out.nodeCounts.Keys, root, out, index, i, kids[i]);
    BelowNext(kids, i);
    assert before[index := Branch(before[index].kids[i := kids[i]])]
        == Part(nodes, done)[index := Branch(BelowDigit(kids, i + 1))];
  }

  /** One child edge: bump its count, queue the child when it was not seen before. */
  lemma ExpandStep(nodes: NodeMap, root: Slot, done: set<Slot>, index: Slot, i: nat, stack: seq<Slot>, out: Recovered)
    requires index in nodes && nodes[index].Branch? && i in nodes[index].kids && nodes[index].kids[i] in nodes
    requires Expanding(nodes, root, done, index, nodes[index].kids, i, stack, out)
    ensures var child := nodes[index].kids[i];
            Expanding(nodes, root, done, index, nodes[index].kids, i + 1,
                      if child in out.nodeCounts then stack else stack + [child], CountChild(out, child))
  {
    var kids := nodes[index].kids;
    hide Tallied, Listed, NothingExtra;
    OpenExpand(nodes, root, done, index, kids, i, stack, out);
    ChildTallied(nodes, root, done, index, kids, i, out);
    var out' := CountChild(out, kids[i]);
    assert out'.nodeCounts.Keys == out.nodeCounts.Keys + {kids[i]} && out'.recordCounts == out.recordCounts;
    hide CountChild;
    QueueOneMore(out.nodeCounts.Keys, done, index, stack, kids[i]);
    ChildNotExtra(nodes, root, out.nodeCounts.Keys, index, i);
    MoreSeen(nodes, done, out.nodeCounts.Keys, kids[i], out.recordCounts.Keys);
    hide Queued, EdgesInside;
  }

  lemma ExpandSkip(nodes: NodeMap, root: Slot, done: set<Slot>, index: Slot, kids: map<Digit, Slot>, i: nat,
                   stack: seq<Slot>, out: Recovered)
    requires Expanding(nodes, root, done, index, kids, i, stack, out) && i !in kids
    ensures Expanding(nodes, root, done, index, kids, i + 1, stack, out)
  {
    OpenExpand(nodes, root, done, index, kids, i, stack, out);
    BelowNext(kids, i);
    assert forall d | d in kids && d < i + 1 :: d < i;
  }

  lemma ExpandEnds(nodes: NodeMap, root: Slot, done: set<Slot>, index: Slot, stack: seq<Slot>, out: Recovered)
    requires index in nodes && nodes[index].Branch?
    requires Expanding(nodes, root, done, index, nodes[index].kids, ARITY, stack, out)
    ensures Walking(nodes, root, done + {index}, stack, out)
  {
    var kids := nodes[index].kids;
    OpenExpand(nodes, root, done, index, kids, ARITY, stack, out);
    assert BelowDigit(kids, ARITY) == kids;
    assert Part(nodes, done)[index := Branch(kids)] == Part(nodes, done + {index});
  }

  /** Expand one branch: bump each child's count, queue the children not seen before. */
  method ExpandBranch(nodes: NodeMap, stamps: map<Slot, Stamp>, root: Slot, index: Slot, ghost done: set<Slot>,
                      stack: seq<Slot>, out: Recovered)
    returns (stack': seq<Slot>, out': Recovered)
    requires FileOk(nodes, stamps) && Walking(nodes, root, done, stack + [index], out) && Summarized(out, stamps)
    requires index in nodes && nodes[index].Branch?
    ensures Walking(nodes, root, done + {index}, stack', out') && Summarized(out', stamps)
  {
    hide Expanding;
    stack', out' := stack, out;
    ExpandStarts(nodes, root, done, index, stack, out);
    var kids := nodes[index].kids;
    var i: nat := 0;
    while i < ARITY
      invariant i <= ARITY && Expanding(nodes, root, done, index, kids, i, stack', out')
      invariant Summarized(out', stamps)
    {
      if i in kids {
        var child := kids[i];
        ExpandStep(nodes, root, done, index, i, stack', out');
        if child !in out'.nodeCounts {
          stack' := stack' + [child];
        }
        out' := CountChild(out', child);
      } else {
        ExpandSkip(nodes, root, done, index, kids, i, stack', out');
      }
      i := i + 1;
    }
    ExpandEnds(nodes, root, done, index, stack', out');
  }

  /** `Model::rebuild_counts`. */
  method RebuildCounts(nodes: NodeMap, stamps: map<Slot, Stamp>, root: Root) returns (out: Recovered)
    requires FileOk(nodes, stamps) && (root.Some? ==> root.value in nodes)
    ensures root.None? ==> out == NOTHING
    ensures root.Some? ==> Rebuilt(nodes, stamps, root.value, out)
  {
    if root.None? {
      return NOTHING;
    }
    out := Recovered(map[root.value := 1], map[], [root.value], [], 0, 0, []);
    hide Summarized, Captured, FileOk;
    StartSummarized(out, stamps);
    var stack := [root.value];
    ghost var done: set<Slot> := {};
    StartWalking(nodes, root.value);
    while stack != []
      invariant Walking(nodes, root.value, done, stack, out) && Summarized(out, stamps)
      invariant done <= nodes.Keys
      decreases |nodes.Keys - done|
    {
      var index := stack[|stack| - 1];
      assert stack == stack[..|stack| - 1] + [index];
      TopOfStack(nodes, root.value, done, stack[..|stack| - 1], index, out);
      ShrinkBy(nodes.Keys - done, nodes.Keys - (done + {index}), index);
      if nodes[index].Leaf? {
        LeafStep(nodes, stamps, root.value, done, stack[..|stack| - 1], index, out);
        out := CountRecord(out, nodes[index].record, stamps[nodes[index].record]);
        stack := stack[..|stack| - 1];
      } else {
        stack, out := ExpandBranch(nodes, stamps, root.value, index, done, stack[..|stack| - 1], out);
      }
      done := done + {index};
    }
    WalkedAll(nodes, stamps, root.value, done, out);
  }

  lemma StartSummarized(out: Recovered, stamps: map<Slot, Stamp>)
    requires out.records == [] && out.states == [] && out.maxId == out.maxRevision == 0
    ensures Summarized(out, stamps)
  {
    assert Holders([], stamps) == {};
  }

  /** The counts are the in-degrees among reachable edges plus the version handle;
      the listed slots are the reachable ones, each once. */
  ghost predicate Rebuilt(nodes: NodeMap, stamps: map<Slot, Stamp>, root: Slot, out: Recovered)
  {
    var live := out.nodeCounts.Keys;
    && live <= nodes.Keys
    && ClosedFrom(nodes, multiset{root}, live)
    && NothingExtra(nodes, root, live)
    && NodeCountsExact(Part(nodes, live), out.nodeCounts, multiset{root})
    && RecordCountsExact(Part(nodes, live), out.recordCounts, multiset{})
    && (forall r :: r in out.recordCounts <==> LeafDegree(Part(nodes, live), r) > 0)
    && Listed(out) && Summarized(out, stamps)
  }

  lemma ShrinkBy(a: set<Slot>, b: set<Slot>, x: Slot)
    requires x in a && b == a - {x}
    ensures |b| < |a|
  {
  }

  lemma StartWalking(nodes: NodeMap, root: Slot)
    requires root in nodes
    ensures Walking(nodes, root, {}, [root], Recovered(map[root := 1], map[], [root], [], 0, 0, []))
  {
    var g := Part(nodes, {});
    assert g == map[];
    forall s ensures InDegree(g, s) == 0 && LeafDegree(g, s) == 0 {
      assert InEdges(g, s) == {} && LeafEdges(g, s) == {};
    }
  }

  lemma LeafStep(nodes: NodeMap, stamps: map<Slot, Stamp>, root: Slot, done: set<Slot>, stack: seq<Slot>, index: Slot,
                 out: Recovered)
    requires FileOk(nodes, stamps) && Walking(nodes, root, done, stack + [index], out) && Summarized(out, stamps)
    requires index in nodes && nodes[index].Leaf?
    ensures nodes[index].record in stamps
    ensures var out' := CountRecord(out, nodes[index].record, stamps[nodes[index].record]);
            Walking(nodes, root, done + {index}, stack, out') && Summarized(out', stamps)
  {
    hide Tallied, Listed, Summarized, NothingExtra;
    TopOfStack(nodes, root, done, stack, index, out);
    OpenWalk(nodes, root, done, stack + [index], out);
    var g := Part(nodes, done);
    CountRecordKeeps(g, out.nodeCounts.Keys, root, out, index, nodes[index].key, nodes[index].record, stamps);
    assert g[index := nodes[index]] == Part(nodes, done + {index});
  }

  lemma WalkedAll(nodes: NodeMap, stamps: map<Slot, Stamp>, root: Slot, done: set<Slot>, out: Recovered)
    requires FileOk(nodes, stamps) && Walking(nodes, root, done, [], out) && Summarized(out, stamps)
    ensures Rebuilt(nodes, stamps, root, out)
  {
    OpenWalk(nodes, root, done, [], out);
    var live := out.nodeCounts.Keys;
    assert live == done;
    var g := Part(nodes, live);
    assert multiset{root}[root] == 1;
    forall r ensures r in out.recordCounts <==> LeafDegree(g, r) > 0 {
      assert CountOf(out.recordCounts, r) == LeafDegree(g, r);
    }
  }

  // ---- The partner: reopening a quiescent document restores its own counts ------------

  lemma ReopenFindsEverySlot(st: Stores, stamps: map<Slot, Stamp>, root: Slot, out: Recovered)
    requires Balanced(st, multiset{root}, multiset{}) && Quiescent(st)
    requires Rebuilt(st.nodes, stamps, root, out)
    ensures out.nodeCounts.Keys == st.nodes.Keys && Part(st.nodes, st.nodes.Keys) == st.nodes
  {
    hide Summarized, Listed, NothingExtra, Balanced, Quiescent, ClosedFrom, NodeCountsExact, RecordCountsExact;
    var live := out.nodeCounts.Keys;
    forall n | n in st.nodes ensures n in live {
      NothingLeaks(st, multiset{root}, multiset{}, live, n);
    }
  }

  lemma ReopenRestoresNodeCounts(st: Stores, root: Slot, counts: Counts)
    requires Balanced(st, multiset{root}, multiset{}) && counts.Keys == st.nodes.Keys
    requires NodeCountsExact(st.nodes, counts, multiset{root})
    ensures counts == st.nodeCounts
  {
    Open(st, multiset{root}, multiset{});
    hide RecordCountsExact, InDegree, LeafDegree, EdgesOk;
    forall s | s in st.nodes ensures counts[s] == st.nodeCounts[s] {
      assert st.nodeCounts[s] == InDegree(st.nodes, s) + multiset{root}[s];
    }
  }

  lemma ReopenRestoresRecordCounts(st: Stores, root: Slot, counts: Counts)
    requires Balanced(st, multiset{root}, multiset{}) && Quiescent(st)
    requires RecordCountsExact(st.nodes, counts, multiset{})
    requires forall r :: r in counts <==> LeafDegree(st.nodes, r) > 0
    ensures counts == st.recordCounts
  {
    Open(st, multiset{root}, multiset{});
    hide NodeCountsExact, InDegree, LeafDegree;
    forall r ensures r in counts <==> r in st.recordCounts {
      if r in st.recordCounts {
        assert st.recordCounts[r] == LeafDegree(st.nodes, r) + 0;
        assert r !in st.pendingRecords;
      } else {
        NothingPointsOutside(st.nodes, st.recordCounts, r);
      }
    }
    forall r | r in st.recordCounts ensures counts[r] == st.recordCounts[r] {
      assert st.recordCounts[r] == LeafDegree(st.nodes, r);
    }
  }

  /** A document whose only handle is its root, drained and then reopened, gets back
      exactly the counts it had and exactly its slots. */
  lemma ReopenRestoresCounts(st: Stores, stamps: map<Slot, Stamp>, root: Slot, out: Recovered)
    requires Balanced(st, multiset{root}, multiset{}) && Quiescent(st)
    requires Rebuilt(st.nodes, stamps, root, out)
    ensures out.nodeCounts == st.nodeCounts && out.recordCounts == st.recordCounts
  {
    hide Balanced, Quiescent, Summarized, Listed, NothingExtra, ClosedFrom, NodeCountsExact, RecordCountsExact;
    ReopenFindsEverySlot(st, stamps, root, out);
    ReopenRestoresNodeCounts(st, root, out.nodeCounts);
    ReopenRestoresRecordCounts(st, root, out.recordCounts);
  }

  // ---- Where the reopened document resumes ----------------------------------------------

  /** The id counter resumes past every id, and a document with a root above every stamp;
      without one it stays the empty document of a new model. */
  method Resume(nodes: NodeMap, stamps: map<Slot, Stamp>, root: Root)
    returns (out: Recovered, nextId: nat, revision: nat)
    requires FileOk(nodes, stamps) && ValidRoot(nodes, root)
    ensures if root.Some? then Rebuilt(nodes, stamps, root.value, out)
            else out == NOTHING && nextId == 1 && revision == 0
    ensures root.Some? ==> nextId == out.maxId + 1 && revision == out.maxRevision + 1
    ensures forall k | k in Bindings(nodes, root) ::
              var r := Bindings(nodes, root)[k];
              r in stamps && stamps[r].id < nextId && stamps[r].revision < revision
  {
    out := RebuildCounts(nodes, stamps, root);
    nextId, revision := out.maxId + 1, 0;
    if root.Some? {
      revision := out.maxRevision + 1;
      BindingsAreFinds(nodes, root);
      forall k | k in Bindings(nodes, root)
        ensures var r := Bindings(nodes, root)[k];
                r in stamps && stamps[r].id < nextId && stamps[r].revision < revision
      {
        BoundRecordIsListed(nodes, stamps, root.value, out, root.value, [], k);
      }
    }
  }

  lemma ReachedChildIsListed(nodes: NodeMap, stamps: map<Slot, Stamp>, root: Slot, out: Recovered, slot: Slot, d: Digit)
    requires Rebuilt(nodes, stamps, root, out) && slot in out.nodeCounts
    requires slot in nodes && nodes[slot].Branch? && d in nodes[slot].kids
    ensures nodes[slot].kids[d] in out.nodeCounts
  {
    hide Listed, Summarized, NothingExtra, NodeCountsExact, RecordCountsExact;
  }

  lemma ReachedRecordIsListed(nodes: NodeMap, stamps: map<Slot, Stamp>, root: Slot, out: Recovered, slot: Slot)
    requires Rebuilt(nodes, stamps, root, out) && slot in out.nodeCounts && slot in nodes && nodes[slot].Leaf?
    ensures nodes[slot].record in out.records
  {
    hide Summarized, NothingExtra, NodeCountsExact, RecordCountsExact, ClosedFrom;
    var live, r := Part(nodes, out.nodeCounts.Keys), nodes[slot].record;
    assert slot in LeafEdges(live, r);
    assert r in out.recordCounts <==> LeafDegree(live, r) > 0;
  }

  /** What a lookup finds below a reached node is a listed record. */
  lemma {:induction false} BoundRecordIsListed(nodes: NodeMap, stamps: map<Slot, Stamp>, root: Slot, out: Recovered,
                                               slot: Slot, path: seq<Digit>, key: Key)
    requires FileOk(nodes, stamps) && Rebuilt(nodes, stamps, root, out)
    requires Trie(nodes, slot, path) && slot in out.nodeCounts && Lookup(nodes, slot, key, |path|).Some?
    ensures var r := Lookup(nodes, slot, key, |path|).value; r in out.records && r in stamps
    decreases DEPTH + 1 - |path|
  {
    hide Rebuilt;
    match nodes[slot]
    case Leaf(_, r) =>
      ReachedRecordIsListed(nodes, stamps, root, out, slot);
    case Branch(kids) =>
      var d := DigitAt(key, |path|);
      ReachedChildIsListed(nodes, stamps, root, out, slot, d);
      BoundRecordIsListed(nodes, stamps, root, out, kids[d], path + [d], key);
  }
}
