/** Damage on a content mapped up to the output of every operator that reads it,
    through a memoized walk that treats a node on its own descent as contributing
    nothing. */
module DamageRouting {
  import opened Numbers
  import opened RevisionFold
  import opened Wrappers

  datatype Rect = Rect(x0: int, y0: int, x1: int, y1: int)

  predicate Empty(r: Rect)
  {
    !(r.x0 < r.x1 && r.y0 < r.y1)
  }

  predicate Holds(r: Rect, x: int, y: int)
  {
    r.x0 <= x < r.x1 && r.y0 <= y < r.y1
  }

  /** `rect_union`: an empty rectangle is the identity. */
  function Union(a: Rect, b: Rect): Rect
  {
    if Empty(a) then b
    else if Empty(b) then a
    else Rect(Min(a.x0, b.x0), Min(a.y0, b.y0), Max(a.x1, b.x1), Max(a.y1, b.y1))
  }

  function Joined(a: Option<Rect>, b: Rect): Option<Rect>
  {
    if a.None? then Some(b) else Some(Union(a.value, b))
  }

  ghost predicate Covers(a: Rect, b: Rect)
  {
    forall x, y :: Holds(b, x, y) ==> Holds(a, x, y)
  }

  /** One routing question. `forward(n, i, r)` is what damage `r` on input `i` of `n`
      does to `n`'s own output. */
  datatype Query = Query(g: Graph, damaged: nat, rect: Rect, maxDepth: nat, forward: (nat, nat, Rect) -> Rect)

  type Memo = map<nat, Option<Rect>>

  datatype Walk = Walk(result: Option<Rect>, memo: Memo)

  function Emplaced(memo: Memo, n: nat, result: Option<Rect>): Memo
  {
    if n in memo then memo else memo[n := result]
  }

  // ---- The walk -----------------------------------------------------------------------------

  /** What `map_damage_up` computes at a node, with the memo it leaves behind. */
  ghost function Up(q: Query, n: nat, memo: Memo, onStack: set<nat>, depth: nat): Walk
    requires Closed(q.g) && n in q.g && onStack <= q.g.Keys
    decreases |q.g.Keys - onStack|, 0, 0
  {
    if n == q.damaged then Walk(Some(q.rect), memo)
    else if n in memo then Walk(memo[n], memo)
    else if depth >= q.maxDepth || n in onStack then Walk(None, memo)
    else
      Descends(q.g, onStack, n);
      var after := UpInputs(q, n, |q.g[n]|, memo, onStack + {n}, depth);
      Walk(after.result, Emplaced(after.memo, n, after.result))
  }

  /** ... over its first `count` inputs. */
  ghost function UpInputs(q: Query, n: nat, count: nat, memo: Memo, onStack: set<nat>, depth: nat): Walk
    requires Closed(q.g) && n in q.g && onStack <= q.g.Keys && count <= |q.g[n]|
    decreases |q.g.Keys - onStack|, 1, count
  {
    if count == 0 then Walk(None, memo)
    else
      var before := UpInputs(q, n, count - 1, memo, onStack, depth);
      match q.g[n][count - 1]
      case None => before
      case Some(input) =>
        var sub := Up(q, input, before.memo, onStack, depth + 1);
        if sub.result.None? then Walk(before.result, sub.memo)
        else Walk(Joined(before.result, q.forward(n, count - 1, sub.result.value)), sub.memo)
  }

  lemma Descends(g: Graph, onStack: set<nat>, n: nat)
    requires n in g && n !in onStack
    ensures |g.Keys - (onStack + {n})| < |g.Keys - onStack|
  {
    assert g.Keys - onStack == (g.Keys - (onStack + {n})) + {n};
  }

  /** `map_damage_up`. It terminates on every graph: a node is never entered twice on
      one descent. */
  method MapDamageUp(q: Query, n: nat, memo: Memo, onStack: set<nat>, depth: nat) returns (result: Option<Rect>, memo': Memo)
    requires Closed(q.g) && n in q.g && onStack <= q.g.Keys
    ensures Walk(result, memo') == Up(q, n, memo, onStack, depth)
    decreases |q.g.Keys - onStack|
  {
    if n == q.damaged {
      return Some(q.rect), memo;
    }
    if n in memo {
      return memo[n], memo;
    }
    if depth >= q.maxDepth || n in onStack {
      return None, memo;
    }
    Descends(q.g, onStack, n);
    result, memo' := None, memo;
    for i := 0 to |q.g[n]|
      invariant Walk(result, memo') == UpInputs(q, n, i, memo, onStack + {n}, depth)
    {
      if q.g[n][i].Some? {
        var sub, next := MapDamageUp(q, q.g[n][i].value, memo', onStack + {n}, depth + 1);
        memo' := next;
        if sub.Some? {
          result := Joined(result, q.forward(n, i, sub.value));
        }
      }
    }
    memo' := Emplaced(memo', n, result);
  }

  // ---- Sets of damages ---------------------------------------------------------------------------

  /** Half-open, and empty unless it ends after it starts. */
  datatype Range = Range(start: int, end: int)

  function RangeUnion(a: Range, b: Range): Range
  {
    if a.end <= a.start then b else if b.end <= b.start then a else Range(Min(a.start, b.start), Max(a.end, b.end))
  }

  predicate Within(r: Range, t: int)
  {
    r.start <= t < r.end
  }

  ghost predicate Spans(a: Range, b: Range)
  {
    forall t :: Within(b, t) ==> Within(a, t)
  }

  datatype Damage = Damage(subject: nat, rect: Rect, range: Range)

  function Merge(a: Damage, b: Damage): Damage
  {
    Damage(a.subject, Union(a.rect, b.rect), RangeUnion(a.range, b.range))
  }

  ghost predicate OncePerObject(damages: seq<Damage>)
  {
    forall i, j | 0 <= i < j < |damages| :: damages[i].subject != damages[j].subject
  }

  /** All the damages of one object, merged in order. */
  ghost function MergedAt(damages: seq<Damage>, id: nat): Option<Damage>
  {
    if damages == [] then None
    else
      var before, d := MergedAt(damages[..|damages| - 1], id), damages[|damages| - 1];
      if d.subject != id then before else if before.None? then Some(d) else Some(Merge(before.value, d))
  }

  ghost predicate Bounds(rect: Rect, range: Range, damages: seq<Damage>, id: nat)
  {
    forall i | 0 <= i < |damages| && damages[i].subject == id :: Covers(rect, damages[i].rect) && Spans(range, damages[i].range)
  }

  /** The least rectangle and the least range around the object's damages, present exactly
      when it has any. */
  lemma {:induction false} MergedIsLeast(damages: seq<Damage>, id: nat)
    ensures MergedAt(damages, id).Some? <==> exists i :: 0 <= i < |damages| && damages[i].subject == id
    ensures MergedAt(damages, id).Some? ==>
              var d := MergedAt(damages, id).value;
              && d.subject == id && Bounds(d.rect, d.range, damages, id)
              && forall rect, range | Bounds(rect, range, damages, id) :: Covers(rect, d.rect) && Spans(range, d.range)
  {
    if damages != [] {
      var front, last := damages[..|damages| - 1], damages[|damages| - 1];
      MergedIsLeast(front, id);
      assert forall i | 0 <= i < |front| :: front[i] == damages[i];
      if last.subject == id {
        MergedWithLast(damages, id);
      }
    }
  }

  lemma MergedWithLast(damages: seq<Damage>, id: nat)
    requires damages != [] && damages[|damages| - 1].subject == id
    requires var front := damages[..|damages| - 1];
             MergedAt(front, id).Some? ==>
               var d := MergedAt(front, id).value;
               && d.subject == id && Bounds(d.rect, d.range, front, id)
               && forall rect, range | Bounds(rect, range, front, id) :: Covers(rect, d.rect) && Spans(range, d.range)
    requires MergedAt(damages[..|damages| - 1], id).None? ==> forall i | 0 <= i < |damages| - 1 :: damages[i].subject != id
    ensures var d := MergedAt(damages, id).value;
            && d.subject == id && Bounds(d.rect, d.range, damages, id)
            && forall rect, range | Bounds(rect, range, damages, id) :: Covers(rect, d.rect) && Spans(range, d.range)
  {
    var front, last := damages[..|damages| - 1], damages[|damages| - 1];
    var d := MergedAt(damages, id).value;
    assert damages[|damages| - 1] == last;
    if MergedAt(front, id).Some? {
      var before := MergedAt(front, id).value;
      UnionCovers(before.rect, last.rect);
      forall i | 0 <= i < |damages| && damages[i].subject == id
        ensures Covers(d.rect, damages[i].rect) && Spans(d.range, damages[i].range)
      {
        if i < |front| {
          assert front[i] == damages[i];
          CoversTransitively(d.rect, before.rect, damages[i].rect);
        }
      }
      forall rect, range | Bounds(rect, range, damages, id) ensures Covers(rect, d.rect) && Spans(range, d.range) {
        assert Bounds(rect, range, front, id);
        UnionIsLeast(rect, before.rect, last.rect);
        RangeUnionIsLeast(range, before.range, last.range);
      }
    }
  }

  lemma RangeUnionIsLeast(r: Range, a: Range, b: Range)
    requires Spans(r, a) && Spans(r, b)
    ensures Spans(r, RangeUnion(a, b))
  {
    if a.start < a.end && b.start < b.end {
      assert Within(a, a.start) && Within(a, a.end - 1) && Within(b, b.start) && Within(b, b.end - 1);
    }
  }

  /** `damage_add`: union into the object's damage, or append it. */
  method DamageAdd(damages: seq<Damage>, d: Damage, ghost all: seq<Damage>) returns (damages': seq<Damage>)
    requires OncePerObject(damages) && forall id :: MergedAt(damages, id) == MergedAt(all, id)
    ensures OncePerObject(damages') && forall id :: MergedAt(damages', id) == MergedAt(all + [d], id)
  {
    assert (all + [d])[..|all|] == all;
    for i := 0 to |damages|
      invariant forall j | 0 <= j < i :: damages[j].subject != d.subject
    {
      if damages[i].subject == d.subject {
        damages' := damages[i := Merge(damages[i], d)];
        forall id ensures MergedAt(damages', id) == MergedAt(all + [d], id) {
          if id == d.subject {
            MergedIsListed(damages, i);
            MergedIsListed(damages', i);
          } else {
            MergedElsewhere(damages, damages', i, id);
          }
        }
        return;
      }
    }
    damages' := damages + [d];
    assert damages'[..|damages|] == damages;
    NotMerged(damages, d.subject);
  }

  lemma {:induction false} NotMerged(damages: seq<Damage>, id: nat)
    requires forall i | 0 <= i < |damages| :: damages[i].subject != id
    ensures MergedAt(damages, id) == None
  {
    if damages != [] {
      NotMerged(damages[..|damages| - 1], id);
    }
  }

  /** Listed once, an object's damage is the one listed. */
  lemma {:induction false} MergedIsListed(damages: seq<Damage>, i: nat)
    requires OncePerObject(damages) && i < |damages|
    ensures MergedAt(damages, damages[i].subject) == Some(damages[i])
  {
    if i < |damages| - 1 {
      MergedIsListed(damages[..|damages| - 1], i);
    } else {
      NotMerged(damages[..|damages| - 1], damages[i].subject);
    }
  }

  lemma {:induction false} MergedElsewhere(a: seq<Damage>, b: seq<Damage>, i: nat, id: nat)
    requires |a| == |b| && i < |a| && a[i].subject != id && b[i].subject != id
    requires forall j | 0 <= j < |a| && j != i :: a[j] == b[j]
    ensures MergedAt(a, id) == MergedAt(b, id)
  {
    var last := |a| - 1;
    if i < last {
      MergedElsewhere(a[..last], b[..last], i, id);
    } else {
      assert a[..last] == b[..last];
    }
  }

  /** `route_operator_damage`: each operator but the damaged content itself, asked with a
      memo of its own; what they answer, merged by the object that shows them. */
  method RouteOperatorDamage(q: Query, operators: seq<(nat, nat)>, range: Range) returns (routed: seq<Damage>)
    requires Closed(q.g) && forall i | 0 <= i < |operators| :: operators[i].0 in q.g
    ensures OncePerObject(routed) && forall id :: MergedAt(routed, id) == MergedAt(Answers(q, operators, range), id)
  {
    routed := [];
    for i := 0 to |operators|
      invariant OncePerObject(routed) && forall id :: MergedAt(routed, id) == MergedAt(Answers(q, operators[..i], range), id)
    {
      assert operators[..i + 1][..i] == operators[..i];
      if operators[i].0 == q.damaged {
        continue;
      }
      var mapped, memo := MapDamageUp(q, operators[i].0, map[], {}, 0);
      if mapped.Some? {
        routed := DamageAdd(routed, Damage(operators[i].1, mapped.value, range), Answers(q, operators[..i], range));
      }
    }
    assert operators[..|operators|] == operators;
  }

  /** What each operator answers, one damage for each that does. An operator is a content
      and the object that shows it. */
  ghost function Answers(q: Query, operators: seq<(nat, nat)>, range: Range): seq<Damage>
    requires Closed(q.g) && forall i | 0 <= i < |operators| :: operators[i].0 in q.g
  {
    if operators == [] then []
    else
      var front, last := Answers(q, operators[..|operators| - 1], range), operators[|operators| - 1];
      if last.0 == q.damaged then front
      else
        match Up(q, last.0, map[], {}, 0).result
        case None => front
        case Some(r) => front + [Damage(last.1, r, range)]
  }

  // ---- Chains of inputs ------------------------------------------------------------------------

  /** The content a chain of input indices leads to; no chain goes past the damaged one. */
  ghost function NodeAfter(g: Graph, damaged: nat, n: nat, chain: seq<nat>): Option<nat>
    requires Closed(g) && n in g
    ensures NodeAfter(g, damaged, n, chain).Some? ==> NodeAfter(g, damaged, n, chain).value in g
    decreases |chain|
  {
    if chain == [] then Some(n)
    else if n == damaged || chain[0] >= |g[n]| || g[n][chain[0]].None? then None
    else NodeAfter(g, damaged, g[n][chain[0]].value, chain[1..])
  }

  ghost predicate Leads(g: Graph, damaged: nat, n: nat, chain: seq<nat>, m: nat)
    requires Closed(g) && n in g
  {
    NodeAfter(g, damaged, n, chain) == Some(m)
  }

  /** The damage a chain carries from the damaged content to its start. */
  ghost function Along(q: Query, n: nat, chain: seq<nat>): Rect
    requires Closed(q.g) && n in q.g && Leads(q.g, q.damaged, n, chain, q.damaged)
    decreases |chain|
  {
    if chain == [] then q.rect else q.forward(n, chain[0], Along(q, q.g[n][chain[0]].value, chain[1..]))
  }

  // ---- Never too much --------------------------------------------------------------------------

  lemma UnionCovers(a: Rect, b: Rect)
    ensures Covers(Union(a, b), a) && Covers(Union(a, b), b)
  {
  }

  /** The union is the least rectangle over both. */
  lemma UnionIsLeast(r: Rect, a: Rect, b: Rect)
    requires Covers(r, a) && Covers(r, b)
    ensures Covers(r, Union(a, b))
  {
    if !Empty(a) && !Empty(b) {
      assert Holds(a, a.x0, a.y0) && Holds(a, a.x1 - 1, a.y1 - 1);
      assert Holds(b, b.x0, b.y0) && Holds(b, b.x1 - 1, b.y1 - 1);
      assert Holds(r, a.x0, a.y0) && Holds(r, a.x1 - 1, a.y1 - 1);
      assert Holds(r, b.x0, b.y0) && Holds(r, b.x1 - 1, b.y1 - 1);
    }
  }

  lemma CoversTransitively(a: Rect, b: Rect, c: Rect)
    requires Covers(a, b) && Covers(b, c)
    ensures Covers(a, c)
  {
  }

  /** A larger damage on an input never does less. */
  ghost predicate Monotone(forward: (nat, nat, Rect) -> Rect)
  {
    forall n, i, a, b | Covers(a, b) :: Covers(forward(n, i, a), forward(n, i, b))
  }

  /** Every content's rectangle covers what its inputs' rectangles do to it. */
  ghost predicate Consistent(q: Query, whole: nat -> Rect)
  {
    && Covers(whole(q.damaged), q.rect)
    && forall n, i | n in q.g && n != q.damaged && 0 <= i < |q.g[n]| && q.g[n][i].Some? ::
         Covers(whole(n), q.forward(n, i, whole(q.g[n][i].value)))
  }

  ghost predicate AtMost(result: Option<Rect>, whole: Rect)
  {
    result.Some? ==> Covers(whole, result.value)
  }

  /** On any graph, cyclic or not: a consistent assignment covers every answer. */
  lemma {:induction false} NeverTooMuch(q: Query, whole: nat -> Rect, n: nat, memo: Memo, onStack: set<nat>, depth: nat)
    requires Closed(q.g) && n in q.g && onStack <= q.g.Keys && Monotone(q.forward) && Consistent(q, whole)
    requires forall m | m in memo :: AtMost(memo[m], whole(m))
    ensures var w := Up(q, n, memo, onStack, depth);
            AtMost(w.result, whole(n)) && forall m | m in w.memo :: AtMost(w.memo[m], whole(m))
    decreases |q.g.Keys - onStack|, 0, 0
  {
    if n != q.damaged && n !in memo && depth < q.maxDepth && n !in onStack {
      Descends(q.g, onStack, n);
      InputsNeverTooMuch(q, whole, n, |q.g[n]|, memo, onStack + {n}, depth);
    }
  }

  lemma {:induction false} InputsNeverTooMuch(q: Query, whole: nat -> Rect, n: nat, count: nat, memo: Memo,
                                              onStack: set<nat>, depth: nat)
    requires Closed(q.g) && n in q.g && n != q.damaged && onStack <= q.g.Keys && count <= |q.g[n]|
    requires Monotone(q.forward) && Consistent(q, whole) && forall m | m in memo :: AtMost(memo[m], whole(m))
    ensures var w := UpInputs(q, n, count, memo, onStack, depth);
            AtMost(w.result, whole(n)) && forall m | m in w.memo :: AtMost(w.memo[m], whole(m))
    decreases |q.g.Keys - onStack|, 1, count
  {
    if count > 0 {
      InputsNeverTooMuch(q, whole, n, count - 1, memo, onStack, depth);
      if q.g[n][count - 1].Some? {
        var input, before := q.g[n][count - 1].value, UpInputs(q, n, count - 1, memo, onStack, depth);
        NeverTooMuch(q, whole, input, before.memo, onStack, depth + 1);
        var sub := Up(q, input, before.memo, onStack, depth + 1).result;
        if sub.Some? {
          var mapped := q.forward(n, count - 1, sub.value);
          CoversTransitively(whole(n), q.forward(n, count - 1, whole(input)), mapped);
          if before.result.Some? {
            UnionIsLeast(whole(n), before.result.value, mapped);
          }
        }
      }
    }
  }

  // ---- Never out of nothing ----------------------------------------------------------------------

  ghost predicate Reads(g: Graph, damaged: nat, n: nat)
    requires Closed(g) && n in g
  {
    exists chain :: Leads(g, damaged, n, chain, damaged)
  }

  ghost predicate OnlyReaders(q: Query, memo: Memo)
    requires Closed(q.g)
  {
    forall m | m in memo :: m in q.g && (memo[m].Some? ==> Reads(q.g, q.damaged, m))
  }

  /** On any graph: an answer means that some chain of inputs reaches the damage. */
  lemma {:induction false} AnswersComeAlongChains(q: Query, n: nat, memo: Memo, onStack: set<nat>, depth: nat)
    requires Closed(q.g) && n in q.g && onStack <= q.g.Keys && OnlyReaders(q, memo)
    ensures var w := Up(q, n, memo, onStack, depth);
            (w.result.Some? ==> Reads(q.g, q.damaged, n)) && OnlyReaders(q, w.memo)
    decreases |q.g.Keys - onStack|, 0, 0
  {
    if n == q.damaged {
      assert Leads(q.g, q.damaged, n, [], q.damaged);
    } else if n !in memo && depth < q.maxDepth && n !in onStack {
      Descends(q.g, onStack, n);
      InputsComeAlongChains(q, n, |q.g[n]|, memo, onStack + {n}, depth);
    }
  }

  lemma {:induction false} InputsComeAlongChains(q: Query, n: nat, count: nat, memo: Memo, onStack: set<nat>, depth: nat)
    requires Closed(q.g) && n in q.g && n != q.damaged && onStack <= q.g.Keys && count <= |q.g[n]| && OnlyReaders(q, memo)
    ensures var w := UpInputs(q, n, count, memo, onStack, depth);
            (w.result.Some? ==> Reads(q.g, q.damaged, n)) && OnlyReaders(q, w.memo)
    decreases |q.g.Keys - onStack|, 1, count
  {
    if count > 0 {
      InputsComeAlongChains(q, n, count - 1, memo, onStack, depth);
      if q.g[n][count - 1].Some? {
        var input, before := q.g[n][count - 1].value, UpInputs(q, n, count - 1, memo, onStack, depth);
        AnswersComeAlongChains(q, input, before.memo, onStack, depth + 1);
        if Up(q, input, before.memo, onStack, depth + 1).result.Some? {
          var rest :| Leads(q.g, q.damaged, input, rest, q.damaged);
          ReadsThrough(q.g, q.damaged, n, count - 1, rest);
        }
      }
    }
  }

  lemma ReadsThrough(g: Graph, damaged: nat, n: nat, i: nat, rest: seq<nat>)
    requires Closed(g) && n in g && n != damaged && i < |g[n]| && g[n][i].Some?
    requires Leads(g, damaged, g[n][i].value, rest, damaged)
    ensures Leads(g, damaged, n, [i] + rest, damaged) && Reads(g, damaged, n)
  {
    assert ([i] + rest)[1..] == rest;
    assert Leads(g, damaged, n, [i] + rest, damaged);
  }

  // ---- What the memo loses -----------------------------------------------------------------------------

  /** Content 0 reads 1 and 2; 1 reads 2 and the damaged 3; 2 reads 1. */
  function Tangle(): Graph
  {
    map[0 := [Some(1), Some(2)], 1 := [Some(2), Some(3)], 2 := [Some(1)], 3 := []]
  }

  /** Damage arriving through input 1 of content 0 shows ten to the right. */
  function Shifted(n: nat, i: nat, r: Rect): Rect
  {
    if n == 0 && i == 1 then Rect(r.x0 + 10, r.y0, r.x1 + 10, r.y1) else r
  }

  /** On a cycle the memo loses damage. Content 2 is first met while 1 is on the
      descent, remembers that nothing reaches it, and is then believed where 0 reads it
      directly: the chain 0 - 2 - 1 - 3 repeats no content, but its damage is missing. */
  lemma MemoLosesDamageOnACycle(maxDepth: nat)
    requires maxDepth >= 4
    ensures var q := Query(Tangle(), 3, Rect(0, 0, 1, 1), maxDepth, Shifted);
            && Closed(q.g)
            && Leads(q.g, 3, 0, [1, 0, 1], 3) && Along(q, 0, [1, 0, 1]) == Rect(10, 0, 11, 1)
            && Up(q, 0, map[], {}, 0).result == Some(Rect(0, 0, 1, 1))
  {
    var q := Query(Tangle(), 3, Rect(0, 0, 1, 1), maxDepth, Shifted);
    assert [1, 0, 1][1..] == [0, 1] && [0, 1][1..] == [1] && [1][1..] == [];
    assert Leads(q.g, 3, 1, [1], 3) && Along(q, 1, [1]) == q.rect;
    assert Leads(q.g, 3, 2, [0, 1], 3) && Along(q, 2, [0, 1]) == q.rect;
    // 2, met below 1.
    var two := {0} + {1} + {2};
    assert Up(q, 1, map[], two, 3) == Walk(None, map[]);
    assert UpInputs(q, 2, 0, map[], two, 2) == Walk(None, map[]);
    assert UpInputs(q, 2, 1, map[], two, 2) == Walk(None, map[]);
    assert Up(q, 2, map[], {0} + {1}, 2) == Walk(None, map[2 := None]);
    // 1, which still finds 3 by itself.
    var one := {0} + {1};
    assert UpInputs(q, 1, 0, map[], one, 1) == Walk(None, map[]);
    assert UpInputs(q, 1, 1, map[], one, 1) == Walk(None, map[2 := None]);
    assert UpInputs(q, 1, 2, map[], one, 1) == Walk(Some(q.rect), map[2 := None]);
    var both := map[2 := None][1 := Some(q.rect)];
    assert Up(q, 1, map[], {0}, 1) == Walk(Some(q.rect), both);
    // 0, which believes the memo about 2.
    assert UpInputs(q, 0, 0, map[], {0}, 0) == Walk(None, map[]);
    assert UpInputs(q, 0, 1, map[], {0}, 0) == Walk(Some(q.rect), both);
    assert UpInputs(q, 0, 2, map[], {0}, 0) == Walk(Some(q.rect), both);
    assert {} + {0} == {0};
  }

  /** Content 0 reads 1 and 4; 1 reads 2; 2 reads 4; 4 reads 5; 5 reads the damaged 3. */
  function Steps(): Graph
  {
    map[0 := [Some(1), Some(4)], 1 := [Some(2)], 2 := [Some(4)], 4 := [Some(5)], 5 := [Some(3)], 3 := []]
  }

  function Unmoved(n: nat, i: nat, r: Rect): Rect
  {
    r
  }

  /** With no cycle at all the budget does the same. Content 4 is first met at depth 3,
      where 5 is the last that may be entered and 3 one step too far; it remembers that
      nothing reaches it, and the chain 0 - 4 - 5 - 3, well within the budget, is lost. */
  lemma MemoLosesDamageAtTheBudget()
    ensures var q := Query(Steps(), 3, Rect(0, 0, 1, 1), 4, Unmoved);
            && Closed(q.g)
            && Leads(q.g, 3, 0, [1, 0, 0], 3) && Along(q, 0, [1, 0, 0]) == Rect(0, 0, 1, 1)
            && Up(q, 0, map[], {}, 0).result == None
  {
    var q := Query(Steps(), 3, Rect(0, 0, 1, 1), 4, Unmoved);
    assert [1, 0, 0][1..] == [0, 0] && [0, 0][1..] == [0] && [0][1..] == [];
    assert Leads(q.g, 3, 5, [0], 3) && Along(q, 5, [0]) == q.rect;
    assert Leads(q.g, 3, 4, [0, 0], 3) && Along(q, 4, [0, 0]) == q.rect;
    var two := {0} + {1} + {2};
    // 4, met three steps down, may not enter 5.
    assert Up(q, 5, map[], two + {4}, 4) == Walk(None, map[]);
    assert UpInputs(q, 4, 0, map[], two + {4}, 3) == Walk(None, map[]);
    assert UpInputs(q, 4, 1, map[], two + {4}, 3) == Walk(None, map[]);
    assert Up(q, 4, map[], two, 3) == Walk(None, map[4 := None]);
    // 2 and 1 above it.
    assert UpInputs(q, 2, 0, map[], two, 2) == Walk(None, map[]);
    assert UpInputs(q, 2, 1, map[], two, 2) == Walk(None, map[4 := None]);
    var memo2 := map[4 := None][2 := None];
    assert Up(q, 2, map[], {0} + {1}, 2) == Walk(None, memo2);
    assert UpInputs(q, 1, 0, map[], {0} + {1}, 1) == Walk(None, map[]);
    assert UpInputs(q, 1, 1, map[], {0} + {1}, 1) == Walk(None, memo2);
    var memo1 := memo2[1 := None];
    assert Up(q, 1, map[], {0}, 1) == Walk(None, memo1);
    // 0, which believes the memo about 4.
    assert UpInputs(q, 0, 0, map[], {0}, 0) == Walk(None, map[]);
    assert UpInputs(q, 0, 1, map[], {0}, 0) == Walk(None, memo1);
    assert UpInputs(q, 0, 2, map[], {0}, 0) == Walk(None, memo1);
    assert {} + {0} == {0};
  }
}
