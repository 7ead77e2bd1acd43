/** Which damage the memoized walk is sure to find. The memo remembers an answer computed
    under one descent and gives it under another, so what is found depends on how the
    descents of the graph meet, not on the order of anybody's inputs. */
module DamagePaths {
  import opened DamageRouting
  import opened RevisionFold
  import opened Sequences
  import opened Wrappers

  // ---- Routes ---------------------------------------------------------------------------------

  /** Contents each reading the next, from `n`, with the damaged one last if at all. */
  ghost predicate Route(g: Graph, damaged: nat, n: nat, w: seq<nat>)
  {
    IsPath(g, w) && w[0] == n && forall i | 0 <= i < |w| - 1 :: w[i] != damaged
  }

  ghost predicate ToDamage(g: Graph, damaged: nat, n: nat, w: seq<nat>)
  {
    Route(g, damaged, n, w) && w[|w| - 1] == damaged
  }

  /** The same inputs, each content's in any order. */
  ghost predicate Reordered(g: Graph, h: Graph)
  {
    h.Keys == g.Keys && forall n | n in g :: multiset(h[n]) == multiset(g[n])
  }

  lemma ReorderedEdges(g: Graph, h: Graph, n: nat, m: nat)
    requires Reordered(g, h)
    ensures HasEdge(h, n, m) <==> HasEdge(g, n, m)
  {
    if n in g {
      assert Some(m) in h[n] <==> Some(m) in multiset(h[n]);
      assert Some(m) in g[n] <==> Some(m) in multiset(g[n]);
    }
  }

  /** A route does not depend on the order of the inputs, only on what they are. */
  lemma ReorderedRoute(g: Graph, h: Graph, damaged: nat, n: nat, w: seq<nat>)
    requires Reordered(g, h)
    ensures Route(h, damaged, n, w) <==> Route(g, damaged, n, w)
  {
    forall i | 0 <= i < |w| - 1 ensures HasEdge(h, w[i], w[i + 1]) <==> HasEdge(g, w[i], w[i + 1]) {
      ReorderedEdges(g, h, w[i], w[i + 1]);
    }
  }

  lemma ReorderedCloses(g: Graph, h: Graph)
    requires Reordered(g, h) && Closed(g)
    ensures Closed(h)
  {
    forall n, i | n in h && 0 <= i < |h[n]| && h[n][i].Some? ensures h[n][i].value in h {
      assert HasEdge(h, n, h[n][i].value);
      ReorderedEdges(g, h, n, h[n][i].value);
    }
  }

  lemma RouteFrom(g: Graph, damaged: nat, n: nat, w: seq<nat>, i: nat)
    requires Closed(g) && Route(g, damaged, n, w) && i < |w|
    ensures w[i] in g && Route(g, damaged, w[i], w[i..])
  {
    assert i > 0 ==> HasEdge(g, w[i - 1], w[i - 1 + 1]);
    forall k | 0 <= k < |w[i..]| - 1 ensures HasEdge(g, w[i..][k], w[i..][k + 1]) {
      assert HasEdge(g, w[i + k], w[i + k + 1]);
    }
  }

  /** Two routes through one content make a third. */
  lemma RoutesJoin(g: Graph, damaged: nat, n: nat, p: seq<nat>, w: seq<nat>)
    requires w != [] && Route(g, damaged, n, p + [w[0]]) && Route(g, damaged, w[0], w)
    ensures Route(g, damaged, n, p + w)
  {
    var one := p + [w[0]];
    forall k | 0 <= k < |p + w| - 1 ensures HasEdge(g, (p + w)[k], (p + w)[k + 1]) && (p + w)[k] != damaged {
      if k < |p| {
        assert (p + w)[k] == one[k] && (p + w)[k + 1] == one[k + 1];
      } else {
        assert (p + w)[k] == w[k - |p|] && (p + w)[k + 1] == w[k - |p| + 1];
      }
    }
    assert (p + w)[0] == one[0];
  }

  // ---- Routes and chains of inputs ---------------------------------------------------------------

  /** The contents a chain of input indices visits. */
  ghost function Visits(g: Graph, damaged: nat, n: nat, chain: seq<nat>): (w: seq<nat>)
    requires Closed(g) && n in g && NodeAfter(g, damaged, n, chain).Some?
    ensures |w| == |chain| + 1 && w[0] == n
    decreases |chain|
  {
    if chain == [] then [n] else [n] + Visits(g, damaged, g[n][chain[0]].value, chain[1..])
  }

  lemma {:induction false} VisitsRoute(g: Graph, damaged: nat, n: nat, chain: seq<nat>)
    requires Closed(g) && n in g && NodeAfter(g, damaged, n, chain).Some?
    ensures var w := Visits(g, damaged, n, chain); Route(g, damaged, n, w) && w[|chain|] == NodeAfter(g, damaged, n, chain).value
    decreases |chain|
  {
    if chain != [] {
      var m := g[n][chain[0]].value;
      VisitsRoute(g, damaged, m, chain[1..]);
      assert HasEdge(g, n, m);
      assert [n] + [m] == [n, m];
      RoutesJoin(g, damaged, n, [n], Visits(g, damaged, m, chain[1..]));
    }
  }

  /** The first input that is `m`. */
  function IndexOf(inputs: seq<Option<nat>>, m: nat): (k: nat)
    ensures k <= |inputs| && Some(m) !in inputs[..k]
    ensures Some(m) in inputs ==> k < |inputs| && inputs[k] == Some(m)
  {
    if inputs == [] || inputs[0] == Some(m) then 0
    else
      var k := IndexOf(inputs[1..], m);
      assert inputs[..k + 1] == [inputs[0]] + inputs[1..][..k];
      k + 1
  }

  /** The chain of input indices along a route. */
  ghost function ChainOf(g: Graph, damaged: nat, w: seq<nat>): (chain: seq<nat>)
    requires Closed(g) && w != [] && Route(g, damaged, w[0], w)
    ensures |chain| == |w| - 1
    decreases |w|
  {
    if |w| == 1 then []
    else
      RouteFrom(g, damaged, w[0], w, 1);
      [IndexOf(g[w[0]], w[1])] + ChainOf(g, damaged, w[1..])
  }

  lemma {:induction false} ChainLeads(g: Graph, damaged: nat, w: seq<nat>)
    requires Closed(g) && w != [] && Route(g, damaged, w[0], w)
    ensures var chain := ChainOf(g, damaged, w);
            Leads(g, damaged, w[0], chain, w[|w| - 1]) && Visits(g, damaged, w[0], chain) == w
    decreases |w|
  {
    if |w| > 1 {
      RouteFrom(g, damaged, w[0], w, 1);
      ChainLeads(g, damaged, w[1..]);
      assert HasEdge(g, w[0], w[0 + 1]);
      var chain := ChainOf(g, damaged, w);
      assert chain[1..] == ChainOf(g, damaged, w[1..]);
      assert w == [w[0]] + w[1..];
    }
  }

  // ---- What the walk owes ----------------------------------------------------------------------

  /** A descent along `p` and the rest of a route fit the budget, and meet nowhere. */
  ghost predicate Fits(maxDepth: nat, p: seq<nat>, rest: seq<nat>)
  {
    Distinct(p + rest) && |p| + |rest| - 1 <= maxDepth
  }

  /** A descent `p` that enters a content of the route `c` to the damage. */
  ghost predicate Crosses(g: Graph, damaged: nat, operator: nat, maxDepth: nat, p: seq<nat>, c: seq<nat>, b: nat)
  {
    && ToDamage(g, damaged, operator, c) && Distinct(c) && b < |c|
    && Route(g, damaged, operator, p + [c[b]]) && Distinct(p + [c[b]])
    && (p == [] || |p| < maxDepth)
  }

  /** Wherever a descent enters a route to the damage, the rest of the route fits below it. */
  ghost predicate CrossingsFit(g: Graph, damaged: nat, operator: nat, maxDepth: nat)
  {
    forall p, c, b | Crosses(g, damaged, operator, maxDepth, p, c, b) :: Fits(maxDepth, p, c[b..])
  }

  /** `rest` ends a route from the operator to the damage that repeats nothing. */
  ghost predicate Tail(g: Graph, damaged: nat, operator: nat, n: nat, rest: seq<nat>)
    requires Closed(g) && n in g
  {
    && Leads(g, damaged, n, rest, damaged)
    && exists pre :: TailOf(g, damaged, operator, n, rest, pre)
  }

  ghost predicate TailOf(g: Graph, damaged: nat, operator: nat, n: nat, rest: seq<nat>, pre: seq<nat>)
    requires Closed(g) && n in g && Leads(g, damaged, n, rest, damaged)
  {
    var c := pre + Visits(g, damaged, n, rest);
    ToDamage(g, damaged, operator, c) && Distinct(c)
  }

  /** What an answer about `n` remembered for later has to cover. */
  ghost predicate CoversTails(q: Query, operator: nat, n: nat, result: Option<Rect>)
    requires Closed(q.g) && n in q.g
  {
    forall rest | Tail(q.g, q.damaged, operator, n, rest) :: result.Some? && Covers(result.value, Along(q, n, rest))
  }

  ghost predicate GoodMemo(q: Query, operator: nat, memo: Memo)
    requires Closed(q.g)
  {
    forall m | m in memo :: m in q.g && CoversTails(q, operator, m, memo[m])
  }

  ghost predicate Owed(q: Query, operator: nat, p: seq<nat>, n: nat, rest: seq<nat>)
    requires Closed(q.g) && n in q.g
  {
    Tail(q.g, q.damaged, operator, n, rest) && Fits(q.maxDepth, p, Visits(q.g, q.damaged, n, rest))
  }

  /** What an answer about `n` given below the descent `p` has to cover. */
  ghost predicate CoversOwed(q: Query, operator: nat, p: seq<nat>, n: nat, result: Option<Rect>)
    requires Closed(q.g) && n in q.g
  {
    forall rest | Owed(q, operator, p, n, rest) :: result.Some? && Covers(result.value, Along(q, n, rest))
  }

  /** ... and what it has to cover once `count` inputs have been taken in. */
  ghost predicate CoversThrough(q: Query, operator: nat, p: seq<nat>, n: nat, count: nat, result: Option<Rect>)
    requires Closed(q.g) && n in q.g && count <= |q.g[n]|
  {
    forall i, rest | 0 <= i < count && q.g[n][i].Some? && Owed(q, operator, p + [n], q.g[n][i].value, rest) ::
      result.Some? && Covers(result.value, q.forward(n, i, Along(q, q.g[n][i].value, rest)))
  }

  /** The contents on the stack, outermost first, each reading the next and the last one `n`. */
  ghost predicate Descent(g: Graph, damaged: nat, operator: nat, p: seq<nat>, n: nat)
  {
    Distinct(p) && Route(g, damaged, operator, p + [n])
  }

  lemma StackGrows(g: Graph, damaged: nat, operator: nat, p: seq<nat>, n: nat)
    requires n in g && Descent(g, damaged, operator, p, n)
    ensures Elements(p) <= g.Keys && Elements(p + [n]) == Elements(p) + {n} && (n in Elements(p) <==> n in p)
  {
    forall m | m in p ensures m in g {
      var i :| 0 <= i < |p| && p[i] == m;
      assert HasEdge(g, (p + [n])[i], (p + [n])[i + 1]);
    }
  }

  lemma DescentOn(g: Graph, damaged: nat, operator: nat, p: seq<nat>, n: nat, i: nat)
    requires Closed(g) && n in g && Descent(g, damaged, operator, p, n) && n !in p
    requires n != damaged && i < |g[n]| && g[n][i].Some?
    ensures Descent(g, damaged, operator, p + [n], g[n][i].value)
  {
    var m := g[n][i].value;
    assert HasEdge(g, n, m);
    assert Route(g, damaged, n, [n, m]);
    RoutesJoin(g, damaged, operator, p, [n, m]);
    assert p + [n] + [m] == p + [n, m];
  }

  /** Below a content just entered nothing is in the way of any tail. */
  lemma TailsFit(q: Query, operator: nat, p: seq<nat>, n: nat, rest: seq<nat>)
    requires Closed(q.g) && n in q.g && CrossingsFit(q.g, q.damaged, operator, q.maxDepth)
    requires Descent(q.g, q.damaged, operator, p, n) && n !in p && (p == [] || |p| < q.maxDepth)
    requires Tail(q.g, q.damaged, operator, n, rest)
    ensures Owed(q, operator, p, n, rest)
  {
    var pre :| TailOf(q.g, q.damaged, operator, n, rest, pre);
    var w := Visits(q.g, q.damaged, n, rest);
    var c := pre + w;
    assert c[|pre|] == n && c[|pre|..] == w;
    assert Crosses(q.g, q.damaged, operator, q.maxDepth, p, c, |pre|);
  }

  /** A tail that goes on through an input is a tail of the input. */
  lemma OwedBelow(q: Query, operator: nat, p: seq<nat>, n: nat, rest: seq<nat>)
    requires Closed(q.g) && n in q.g && n != q.damaged && Owed(q, operator, p, n, rest)
    ensures rest != [] && rest[0] < |q.g[n]| && q.g[n][rest[0]].Some?
    ensures Owed(q, operator, p + [n], q.g[n][rest[0]].value, rest[1..])
  {
    var m := q.g[n][rest[0]].value;
    var pre :| TailOf(q.g, q.damaged, operator, n, rest, pre);
    var w := Visits(q.g, q.damaged, m, rest[1..]);
    assert Visits(q.g, q.damaged, n, rest) == [n] + w;
    assert pre + ([n] + w) == pre + [n] + w && p + ([n] + w) == p + [n] + w;
    assert TailOf(q.g, q.damaged, operator, m, rest[1..], pre + [n]);
  }

  // ---- Nothing owed is missed --------------------------------------------------------------------

  /** Where the walk does not go down. */
  lemma UpStops(q: Query, n: nat, memo: Memo, onStack: set<nat>, depth: nat)
    requires Closed(q.g) && n in q.g && onStack <= q.g.Keys
    ensures n == q.damaged ==> Up(q, n, memo, onStack, depth) == Walk(Some(q.rect), memo)
    ensures n != q.damaged && n in memo ==> Up(q, n, memo, onStack, depth) == Walk(memo[n], memo)
    ensures n != q.damaged && n !in memo && (depth >= q.maxDepth || n in onStack) ==>
              Up(q, n, memo, onStack, depth) == Walk(None, memo)
  {
    hide UpInputs;
  }

  /** One level of the walk, when it goes on down. */
  lemma UpDescends(q: Query, n: nat, memo: Memo, onStack: set<nat>, depth: nat)
    requires Closed(q.g) && n in q.g && onStack <= q.g.Keys
    requires n != q.damaged && n !in memo && depth < q.maxDepth && n !in onStack
    ensures |q.g.Keys - (onStack + {n})| < |q.g.Keys - onStack|
    ensures var after := UpInputs(q, n, |q.g[n]|, memo, onStack + {n}, depth);
            Up(q, n, memo, onStack, depth) == Walk(after.result, Emplaced(after.memo, n, after.result))
  {
    Descends(q.g, onStack, n);
    hide UpInputs;
  }

  lemma {:induction false} PaysWhatIsOwed(q: Query, operator: nat, p: seq<nat>, n: nat, memo: Memo)
    requires Closed(q.g) && n in q.g && Monotone(q.forward) && CrossingsFit(q.g, q.damaged, operator, q.maxDepth)
    requires Descent(q.g, q.damaged, operator, p, n) && Elements(p) <= q.g.Keys && GoodMemo(q, operator, memo)
    ensures var w := Up(q, n, memo, Elements(p), |p|); CoversOwed(q, operator, p, n, w.result) && GoodMemo(q, operator, w.memo)
    decreases |q.g.Keys - Elements(p)|, 0, 0
  {
    hide Monotone, CrossingsFit, Descent, Tail;
    StackGrows(q.g, q.damaged, operator, p, n);
    UpStops(q, n, memo, Elements(p), |p|);
    hide Up, UpInputs;
    if n == q.damaged {
      forall rest | Owed(q, operator, p, n, rest) ensures rest == [] {
        TailLeads(q.g, q.damaged, operator, n, rest);
      }
    } else if n in memo {
    } else if |p| >= q.maxDepth || n in p {
      NothingOwed(q, operator, p, n);
    } else {
      UpDescends(q, n, memo, Elements(p), |p|);
      PaysInputs(q, operator, p, n, |q.g[n]|, memo);
      var after := UpInputs(q, n, |q.g[n]|, memo, Elements(p) + {n}, |p|);
      hide CoversThrough, CoversOwed;
      ByInput(q, operator, p, n, after.result);
      PaysTails(q, operator, p, n, after.result);
    }
  }

  lemma TailLeads(g: Graph, damaged: nat, operator: nat, n: nat, rest: seq<nat>)
    requires Closed(g) && n in g && Tail(g, damaged, operator, n, rest)
    ensures Leads(g, damaged, n, rest, damaged)
  {
  }

  /** At the end of the budget, and on a content met again, nothing fits. */
  lemma NothingOwed(q: Query, operator: nat, p: seq<nat>, n: nat)
    requires Closed(q.g) && n in q.g && n != q.damaged && (|p| >= q.maxDepth || n in p)
    ensures CoversOwed(q, operator, p, n, None)
  {
    forall rest | Tail(q.g, q.damaged, operator, n, rest)
      ensures !Fits(q.maxDepth, p, Visits(q.g, q.damaged, n, rest))
    {
      var w := Visits(q.g, q.damaged, n, rest);
      assert rest != [];
      if n in p {
        var i :| 0 <= i < |p| && p[i] == n;
        assert (p + w)[i] == (p + w)[|p|];
      }
    }
  }

  lemma ByInput(q: Query, operator: nat, p: seq<nat>, n: nat, result: Option<Rect>)
    requires Closed(q.g) && n in q.g && n != q.damaged && CoversThrough(q, operator, p, n, |q.g[n]|, result)
    ensures CoversOwed(q, operator, p, n, result)
  {
    forall rest | Owed(q, operator, p, n, rest) ensures result.Some? && Covers(result.value, Along(q, n, rest)) {
      OwedBelow(q, operator, p, n, rest);
    }
  }

  /** So the answer may be remembered, whatever descent asks for it next. */
  lemma PaysTails(q: Query, operator: nat, p: seq<nat>, n: nat, result: Option<Rect>)
    requires Closed(q.g) && n in q.g && CrossingsFit(q.g, q.damaged, operator, q.maxDepth)
    requires Descent(q.g, q.damaged, operator, p, n) && n !in p && (p == [] || |p| < q.maxDepth)
    requires CoversOwed(q, operator, p, n, result)
    ensures CoversTails(q, operator, n, result)
  {
    forall rest | Tail(q.g, q.damaged, operator, n, rest) ensures Owed(q, operator, p, n, rest) {
      TailsFit(q, operator, p, n, rest);
    }
  }

  /** An absent input owes nothing. */
  lemma NoInput(q: Query, operator: nat, p: seq<nat>, n: nat, count: nat)
    requires Closed(q.g) && n in q.g && 0 < count <= |q.g[n]|
    ensures forall result | q.g[n][count - 1].None? && CoversThrough(q, operator, p, n, count - 1, result) ::
              CoversThrough(q, operator, p, n, count, result)
  {
    hide Owed;
  }

  /** One input more. */
  lemma NextInput(q: Query, n: nat, count: nat, memo: Memo, onStack: set<nat>, depth: nat)
    requires Closed(q.g) && n in q.g && onStack <= q.g.Keys && 0 < count <= |q.g[n]|
    ensures var before := UpInputs(q, n, count - 1, memo, onStack, depth);
            UpInputs(q, n, count, memo, onStack, depth) ==
            match q.g[n][count - 1]
            case None => before
            case Some(input) =>
              var sub := Up(q, input, before.memo, onStack, depth + 1);
              if sub.result.None? then Walk(before.result, sub.memo)
              else Walk(Joined(before.result, q.forward(n, count - 1, sub.result.value)), sub.memo)
  {
    hide Up;
  }

  lemma {:induction false} PaysInputs(q: Query, operator: nat, p: seq<nat>, n: nat, count: nat, memo: Memo)
    requires Closed(q.g) && n in q.g && n != q.damaged && count <= |q.g[n]|
    requires Monotone(q.forward) && CrossingsFit(q.g, q.damaged, operator, q.maxDepth)
    requires Descent(q.g, q.damaged, operator, p, n) && n !in p && Elements(p) <= q.g.Keys && GoodMemo(q, operator, memo)
    ensures var w := UpInputs(q, n, count, memo, Elements(p) + {n}, |p|);
            CoversThrough(q, operator, p, n, count, w.result) && GoodMemo(q, operator, w.memo)
    decreases |q.g.Keys - (Elements(p) + {n})|, 1, count
  {
    hide Monotone, CrossingsFit, Descent, CoversOwed, Owed, CoversTails, Joined, Up;
    if count > 0 {
      NextInput(q, n, count, memo, Elements(p) + {n}, |p|);
      NoInput(q, operator, p, n, count);
      hide UpInputs, CoversThrough, GoodMemo;
      PaysInputs(q, operator, p, n, count - 1, memo);
      var before := UpInputs(q, n, count - 1, memo, Elements(p) + {n}, |p|);
      if q.g[n][count - 1].Some? {
        var input := q.g[n][count - 1].value;
        StackGrows(q.g, q.damaged, operator, p, n);
        DescentOn(q.g, q.damaged, operator, p, n, count - 1);
        PaysWhatIsOwed(q, operator, p + [n], input, before.memo);
        OneInputMore(q, operator, p, n, count, before.result, Up(q, input, before.memo, Elements(p) + {n}, |p| + 1).result);
      }
    }
  }

  lemma OneInputMore(q: Query, operator: nat, p: seq<nat>, n: nat, count: nat, before: Option<Rect>, sub: Option<Rect>)
    requires Closed(q.g) && n in q.g && 0 < count <= |q.g[n]| && q.g[n][count - 1].Some? && Monotone(q.forward)
    requires CoversThrough(q, operator, p, n, count - 1, before)
    requires CoversOwed(q, operator, p + [n], q.g[n][count - 1].value, sub)
    ensures CoversThrough(q, operator, p, n, count, if sub.None? then before else Joined(before, q.forward(n, count - 1, sub.value)))
  {
    hide Fits;
    var after := if sub.None? then before else Joined(before, q.forward(n, count - 1, sub.value));
    forall i, rest | 0 <= i < count && q.g[n][i].Some? && Owed(q, operator, p + [n], q.g[n][i].value, rest)
      ensures after.Some? && Covers(after.value, q.forward(n, i, Along(q, q.g[n][i].value, rest)))
    {
      var part := q.forward(n, i, Along(q, q.g[n][i].value, rest));
      if i < count - 1 {
        if sub.Some? {
          UnionCovers(before.value, q.forward(n, count - 1, sub.value));
          CoversTransitively(after.value, before.value, part);
        }
      } else {
        var mapped := q.forward(n, i, sub.value);
        assert Covers(mapped, part);
        if before.Some? {
          UnionCovers(before.value, mapped);
          CoversTransitively(after.value, mapped, part);
        }
      }
    }
  }

  // ---- What does not fit is lost in some order ---------------------------------------------------

  /** What `w` visits next after its first visit to `n`. */
  function After(w: seq<nat>, n: nat): (m: Option<nat>)
    ensures m.Some? ==> |w| >= 2 && n in w[..|w| - 1] && m.value in w
  {
    if |w| < 2 then None
    else if w[0] == n then Some(w[1])
    else
      assert w[..|w| - 1] == [w[0]] + w[1..][..|w| - 2];
      After(w[1..], n)
  }

  lemma {:induction false} AfterAt(w: seq<nat>, i: nat)
    requires i < |w| - 1 && w[i] !in w[..i]
    ensures After(w, w[i]) == Some(w[i + 1])
  {
    if i > 0 {
      assert w[0] == w[..i][0];
      assert w[1..][..i - 1] == w[..i][1..];
      AfterAt(w[1..], i - 1);
    }
  }

  lemma {:induction false} AfterIsEdge(g: Graph, damaged: nat, w: seq<nat>, n: nat)
    requires Closed(g) && w != [] && Route(g, damaged, w[0], w) && After(w, n).Some?
    ensures HasEdge(g, n, After(w, n).value)
    decreases |w|
  {
    if w[0] == n {
      assert HasEdge(g, w[0], w[0 + 1]);
    } else {
      RouteFrom(g, damaged, w[0], w, 1);
      AfterIsEdge(g, damaged, w[1..], n);
    }
  }

  /** The same inputs with the first that is `m` moved to the front. */
  function ToFront(inputs: seq<Option<nat>>, m: nat): (r: seq<Option<nat>>)
    requires Some(m) in inputs
    ensures multiset(r) == multiset(inputs) && r != [] && r[0] == Some(m)
  {
    var k := IndexOf(inputs, m);
    assert inputs == inputs[..k] + [Some(m)] + inputs[k + 1..];
    [Some(m)] + inputs[..k] + inputs[k + 1..]
  }

  /** Every content that `d` visits reads first what `d` visits next. */
  ghost predicate Fronted(g: Graph, d: seq<nat>)
  {
    forall n | n in g && After(d, n).Some? :: g[n] != [] && g[n][0] == After(d, n)
  }

  lemma FrontAlong(g: Graph, damaged: nat, d: seq<nat>) returns (h: Graph)
    requires Closed(g) && d != [] && Route(g, damaged, d[0], d)
    ensures Reordered(g, h) && Fronted(h, d)
  {
    forall n | n in g && After(d, n).Some? ensures Some(After(d, n).value) in g[n] {
      AfterIsEdge(g, damaged, d, n);
    }
    h := map n | n in g :: if After(d, n).Some? then ToFront(g[n], After(d, n).value) else g[n];
  }

  /** The input of `n` that `c` goes through. */
  ghost predicate Carries(g: Graph, c: seq<nat>, n: nat, i: nat)
  {
    n in g && After(c, n).Some? && i == IndexOf(g[n], After(c, n).value)
  }

  const UNIT := Rect(0, 0, 1, 1)
  const NOTHING := Rect(0, 0, 0, 0)

  /** A mapping that shows damage unchanged along `c`, and through no other input. */
  ghost function Only(g: Graph, c: seq<nat>): (nat, nat, Rect) -> Rect
  {
    (n: nat, i: nat, r: Rect) => if Carries(g, c, n, i) then r else NOTHING
  }

  ghost predicate Blank(result: Option<Rect>)
  {
    result.Some? ==> Empty(result.value)
  }

  /** A question about the route `c`, whose content number `b` is not the damaged one. */
  ghost predicate Asks(q: Query, c: seq<nat>, b: nat)
  {
    && Closed(q.g) && b < |c| - 1 && Distinct(c) && Route(q.g, q.damaged, c[0], c)
    && q.rect == UNIT && q.forward == Only(q.g, c)
  }

  /** Nothing is remembered for the contents of `c` down to number `b`. */
  ghost predicate DeadMemo(c: seq<nat>, b: nat, memo: Memo)
    requires b < |c|
  {
    forall m | m in memo && m in c[..b + 1] :: Blank(memo[m])
  }

  /** Once content number `b` cannot be entered, `c` carries nothing to those before it. */
  lemma {:induction false} StaysBlank(q: Query, c: seq<nat>, b: nat, n: nat, memo: Memo, onStack: set<nat>, depth: nat)
    requires Asks(q, c, b) && n in q.g && onStack <= q.g.Keys
    requires DeadMemo(c, b, memo) && (c[b] in memo || c[b] in onStack)
    ensures var w := Up(q, n, memo, onStack, depth);
            && DeadMemo(c, b, w.memo) && memo.Keys <= w.memo.Keys
            && (n in c[..b + 1] ==> Blank(w.result))
    decreases |q.g.Keys - onStack|, 0, 0
  {
    hide Carries;
    if n == q.damaged {
      assert forall i | 0 <= i < |c[..b + 1]| :: c[..b + 1][i] == c[i];
    } else if n !in memo && depth < q.maxDepth && n !in onStack {
      Descends(q.g, onStack, n);
      InputsStayBlank(q, c, b, n, 0, |q.g[n]|, memo, onStack + {n}, depth);
    }
  }

  /** ... of inputs numbers `from` to `count`, of which `c` goes through none unless `n`
      comes before number `b`. */
  lemma {:induction false} InputsStayBlank(q: Query, c: seq<nat>, b: nat, n: nat, from: nat, count: nat, memo: Memo,
                                           onStack: set<nat>, depth: nat)
    requires Asks(q, c, b) && n in q.g && n != q.damaged && onStack <= q.g.Keys && from <= count <= |q.g[n]|
    requires var w := UpInputs(q, n, from, memo, onStack, depth);
             DeadMemo(c, b, w.memo) && (c[b] in w.memo || c[b] in onStack)
    ensures var v, w := UpInputs(q, n, from, memo, onStack, depth), UpInputs(q, n, count, memo, onStack, depth);
            && DeadMemo(c, b, w.memo) && v.memo.Keys <= w.memo.Keys
            && (Blank(v.result) && (n in c[..b] || forall i: nat | from <= i :: !Carries(q.g, c, n, i)) ==> Blank(w.result))
    decreases |q.g.Keys - onStack|, 1, count
  {
    hide Carries;
    if count > from {
      InputsStayBlank(q, c, b, n, from, count - 1, memo, onStack, depth);
      if q.g[n][count - 1].Some? {
        var input, before := q.g[n][count - 1].value, UpInputs(q, n, count - 1, memo, onStack, depth);
        StaysBlank(q, c, b, input, before.memo, onStack, depth + 1);
        if n in c[..b] && Carries(q.g, c, n, count - 1) {
          CarriesOn(q.g, q.damaged, c, b, n, count - 1);
        }
      }
    }
  }

  /** What `c` carries to a content before number `b` comes from one up to number `b`. */
  lemma CarriesOn(g: Graph, damaged: nat, c: seq<nat>, b: nat, n: nat, i: nat)
    requires Closed(g) && b < |c| - 1 && Distinct(c) && Route(g, damaged, c[0], c)
    requires n in c[..b] && Carries(g, c, n, i)
    ensures i < |g[n]| && g[n][i].Some? && g[n][i].value in c[..b + 1]
  {
    var j :| 0 <= j < b && c[..b][j] == n;
    AfterAt(c, j);
    AfterIsEdge(g, damaged, c, n);
    assert c[..b + 1][j + 1] == c[j + 1];
  }

  /** A descent `d` along which every content reads first what `d` visits next, that
      enters number `b` of `c` at depth `k`, and that does not fit. */
  ghost predicate Straight(q: Query, c: seq<nat>, b: nat, d: seq<nat>, k: nat)
  {
    && Asks(q, c, b) && Fronted(q.g, d)
    && k < q.maxDepth && |d| == k + |c| - b && d[k..] == c[b..]
    && Route(q.g, q.damaged, d[0], d) && d[|d| - 1] == q.damaged
    && Distinct(d[..k + 1]) && !Fits(q.maxDepth, [], d)
  }

  lemma NewAt(d: seq<nat>, k: nat, i: nat)
    requires i <= k < |d| && Distinct(d[..k + 1])
    ensures d[i] !in d[..i]
  {
    forall j | 0 <= j < i ensures d[..i][j] != d[i] {
      assert d[..k + 1][j] == d[j] && d[..k + 1][i] == d[i];
    }
  }

  lemma AtTheEnd(g: Graph, damaged: nat, maxDepth: nat, d: seq<nat>)
    requires d != [] && Route(g, damaged, d[0], d) && d[|d| - 1] == damaged
    requires Distinct(d[..|d| - 1]) && |d| - 1 <= maxDepth
    ensures Fits(maxDepth, [], d)
  {
    hide IsPath;
    assert [] + d == d;
    var front := d[..|d| - 1];
    forall i, j | 0 <= i < j < |d| ensures d[i] != d[j] {
      assert d[i] == front[i];
      if j < |d| - 1 {
        assert d[j] == front[j];
      }
    }
  }

  lemma NotThereYet(q: Query, c: seq<nat>, b: nat, d: seq<nat>, k: nat, i: nat)
    requires Straight(q, c, b, d, k) && i < |d| && i <= q.maxDepth && Distinct(d[..i])
    ensures Asks(q, c, b) && Closed(q.g) && b < |c| && (i == k ==> d[i] == c[b])
    ensures d[i] != q.damaged && i < |d| - 1 && (i <= k ==> i < q.maxDepth && d[i] !in d[..i])
  {
    hide Fits;
    assert d[k..][0] == c[b..][0];
    if i == |d| - 1 {
      AtTheEnd(q.g, q.damaged, q.maxDepth, d);
    }
    if i <= k {
      NewAt(d, k, i);
    }
  }

  lemma FirstInput(q: Query, c: seq<nat>, b: nat, d: seq<nat>, k: nat, i: nat)
    requires Straight(q, c, b, d, k) && i < |d| - 1 && d[i] in q.g && d[i] !in d[..i]
    ensures q.g[d[i]] != [] && q.g[d[i]][0] == Some(d[i + 1])
    ensures i >= k ==> forall j: nat | Carries(q.g, c, d[i], j) :: j == 0
  {
    AfterAt(d, i);
    if i >= k {
      assert d[k..][i - k] == c[b..][i - k] && d[k..][i + 1 - k] == c[b..][i + 1 - k];
      AfterAt(c, b + i - k);
    }
  }

  lemma OneInput(q: Query, n: nat, m: nat, onStack: set<nat>, depth: nat)
    requires Closed(q.g) && n in q.g && onStack <= q.g.Keys && q.g[n] != [] && q.g[n][0] == Some(m)
    ensures var sub := Up(q, m, map[], onStack, depth + 1);
            UpInputs(q, n, 1, map[], onStack, depth)
            == Walk(if sub.result.None? then None else Some(q.forward(n, 0, sub.result.value)), sub.memo)
  {
    assert UpInputs(q, n, 0, map[], onStack, depth) == Walk(None, map[]);
  }

  /** The walk goes straight down `d` with an empty memo until it meets its own stack or
      the end of the budget, and brings back nothing. */
  lemma EmplaceDead(c: seq<nat>, b: nat, memo: Memo, n: nat, result: Option<Rect>)
    requires b < |c| && DeadMemo(c, b, memo) && (n in c[..b + 1] ==> Blank(result))
    ensures DeadMemo(c, b, Emplaced(memo, n, result))
    ensures memo.Keys <= Emplaced(memo, n, result).Keys && n in Emplaced(memo, n, result)
  {
  }

  lemma {:induction false} GoesStraight(q: Query, c: seq<nat>, b: nat, d: seq<nat>, k: nat, i: nat)
    requires Straight(q, c, b, d, k) && i < |d| && d[i] in q.g && i <= q.maxDepth
    requires Distinct(d[..i]) && Elements(d[..i]) <= q.g.Keys
    ensures var w := Up(q, d[i], map[], Elements(d[..i]), i);
            && DeadMemo(c, b, w.memo)
            && (i <= k ==> c[b] in w.memo)
            && (i >= k || d[i] in c[..b + 1] ==> Blank(w.result))
    decreases |d| - i
  {
    hide Carries, Fronted, Fits, Closed, Route, Distinct, Asks, Straight;
    NotThereYet(q, c, b, d, k, i);
    if i < q.maxDepth && d[i] !in d[..i] {
      FirstInput(q, c, b, d, k, i);
      OneDeeper(q, c, b, d, k, i);
      UpDescends(q, d[i], map[], Elements(d[..i]), i);
      GoesStraight(q, c, b, d, k, i + 1);
      hide Up, UpInputs, Blank, DeadMemo, Elements, Emplaced;
      if i >= k {
        StillOnStack(q, c, b, d, k, i);
      } else if d[i] in c[..b + 1] {
        EarlierOnC(q, c, b, d, k, i);
      }
      FirstThenRest(q, c, b, d[i], d[i + 1], Elements(d[..i + 1]), i, i >= k);
      var after := UpInputs(q, d[i], |q.g[d[i]]|, map[], Elements(d[..i + 1]), i);
      EmplaceDead(c, b, after.memo, d[i], after.result);
    }
  }

  /** The inputs of a content whose first input brings back nothing of `c`. */
  lemma FirstThenRest(q: Query, c: seq<nat>, b: nat, n: nat, m: nat, onStack: set<nat>, depth: nat, past: bool)
    requires Asks(q, c, b) && n in q.g && n != q.damaged && onStack <= q.g.Keys && q.g[n] != [] && q.g[n][0] == Some(m)
    requires var sub := Up(q, m, map[], onStack, depth + 1);
             && DeadMemo(c, b, sub.memo) && (c[b] in sub.memo || c[b] in onStack)
             && (past || m in c[..b + 1] ==> Blank(sub.result))
    requires past ==> forall j: nat | Carries(q.g, c, n, j) :: j == 0
    ensures var sub, w := Up(q, m, map[], onStack, depth + 1), UpInputs(q, n, |q.g[n]|, map[], onStack, depth);
            && DeadMemo(c, b, w.memo) && sub.memo.Keys <= w.memo.Keys
            && (past || n in c[..b] ==> Blank(w.result))
  {
    hide Carries;
    OneInput(q, n, m, onStack, depth);
    if n in c[..b] && Carries(q.g, c, n, 0) {
      CarriesOn(q.g, q.damaged, c, b, n, 0);
    }
    InputsStayBlank(q, c, b, n, 1, |q.g[n]|, map[], onStack, depth);
  }

  lemma OneDeeper(q: Query, c: seq<nat>, b: nat, d: seq<nat>, k: nat, i: nat)
    requires Straight(q, c, b, d, k) && i < |d| - 1 && Distinct(d[..i]) && d[i] !in d[..i]
    ensures d[i] in q.g && d[i + 1] in q.g && Distinct(d[..i + 1]) && Elements(d[..i + 1]) == Elements(d[..i]) + {d[i]}
  {
    RouteFrom(q.g, q.damaged, d[0], d, i);
    RouteFrom(q.g, q.damaged, d[0], d, i + 1);
    assert d[..i + 1] == d[..i] + [d[i]];
  }

  lemma EarlierOnC(q: Query, c: seq<nat>, b: nat, d: seq<nat>, k: nat, i: nat)
    requires Straight(q, c, b, d, k) && i < k && d[i] in c[..b + 1]
    ensures d[i] in c[..b]
  {
    assert d[..k + 1][i] == d[i] && d[..k + 1][k] == d[k] == d[k..][0] == c[b..][0] == c[b];
    var j :| 0 <= j < b + 1 && c[..b + 1][j] == d[i];
    assert c[..b][j] == d[i];
  }

  lemma StillOnStack(q: Query, c: seq<nat>, b: nat, d: seq<nat>, k: nat, i: nat)
    requires Straight(q, c, b, d, k) && k <= i < |d|
    ensures c[b] in Elements(d[..i + 1])
  {
    assert d[..i + 1][k] == d[k] == d[k..][0] == c[b..][0];
  }

  // ---- Exactly when ----------------------------------------------------------------------------

  /** The answer covers what every chain that visits nothing twice carries. */
  ghost predicate MissesNoRoute(g: Graph, damaged: nat, operator: nat, maxDepth: nat, rect: Rect,
                                forward: (nat, nat, Rect) -> Rect)
    requires Closed(g) && operator in g
  {
    var q := Query(g, damaged, rect, maxDepth, forward);
    var result := Up(q, operator, map[], {}, 0).result;
    forall chain | Leads(g, damaged, operator, chain, damaged) && Distinct(Visits(g, damaged, operator, chain)) ::
      result.Some? && Covers(result.value, Along(q, operator, chain))
  }

  ghost predicate MissesNoRouteInAnyOrder(g: Graph, damaged: nat, operator: nat, maxDepth: nat)
    requires Closed(g) && operator in g
  {
    forall h, rect, forward | Reordered(g, h) && Closed(h) && operator in h && Monotone(forward) ::
      MissesNoRoute(h, damaged, operator, maxDepth, rect, forward)
  }

  lemma CrossingsFitReordered(g: Graph, h: Graph, damaged: nat, operator: nat, maxDepth: nat)
    requires Reordered(g, h) && CrossingsFit(g, damaged, operator, maxDepth)
    ensures CrossingsFit(h, damaged, operator, maxDepth)
  {
    forall p, c, b | Crosses(h, damaged, operator, maxDepth, p, c, b) ensures Fits(maxDepth, p, c[b..]) {
      ReorderedRoute(g, h, damaged, operator, c);
      ReorderedRoute(g, h, damaged, operator, p + [c[b]]);
      assert Crosses(g, damaged, operator, maxDepth, p, c, b);
    }
  }

  lemma FittingMissesNoRoute(g: Graph, damaged: nat, operator: nat, maxDepth: nat, rect: Rect,
                             forward: (nat, nat, Rect) -> Rect)
    requires Closed(g) && operator in g && CrossingsFit(g, damaged, operator, maxDepth) && Monotone(forward)
    ensures MissesNoRoute(g, damaged, operator, maxDepth, rect, forward)
  {
    hide Monotone, CrossingsFit;
    var q := Query(g, damaged, rect, maxDepth, forward);
    assert [] + [operator] == [operator] && Elements<nat>([]) == {};
    PaysWhatIsOwed(q, operator, [], operator, map[]);
    forall rest | Leads(g, damaged, operator, rest, damaged) && Distinct(Visits(g, damaged, operator, rest))
      ensures Owed(q, operator, [], operator, rest)
    {
      VisitsRoute(g, damaged, operator, rest);
      assert [] + Visits(g, damaged, operator, rest) == Visits(g, damaged, operator, rest);
      assert TailOf(g, damaged, operator, operator, rest, []);
      TailsFit(q, operator, [], operator, rest);
    }
  }

  lemma OnlyIsMonotone(g: Graph, c: seq<nat>)
    ensures Monotone(Only(g, c))
  {
  }

  lemma {:induction false} AlongOnly(q: Query, c: seq<nat>, j: nat)
    requires Closed(q.g) && j < |c| && Distinct(c) && ToDamage(q.g, q.damaged, c[0], c)
    requires q.rect == UNIT && q.forward == Only(q.g, c)
    requires c[j] in q.g && Route(q.g, q.damaged, c[j], c[j..])
    requires Leads(q.g, q.damaged, c[j], ChainOf(q.g, q.damaged, c[j..]), q.damaged)
    ensures Along(q, c[j], ChainOf(q.g, q.damaged, c[j..])) == UNIT
    decreases |c| - j
  {
    if j < |c| - 1 {
      AfterAt(c, j);
      RouteFrom(q.g, q.damaged, c[0], c, j + 1);
      ChainLeads(q.g, q.damaged, c[j + 1..]);
      assert c[j..][1..] == c[j + 1..];
      AlongOnly(q, c, j + 1);
      var chain := ChainOf(q.g, q.damaged, c[j..]);
      assert chain[1..] == ChainOf(q.g, q.damaged, c[j + 1..]);
      assert Carries(q.g, c, c[j], chain[0]);
    }
  }

  /** A blank answer about a mapping that shows only `c` misses it. */
  lemma BlankMisses(g: Graph, damaged: nat, operator: nat, maxDepth: nat, c: seq<nat>)
    requires Closed(g) && operator in g && ToDamage(g, damaged, operator, c) && Distinct(c)
    requires Blank(Up(Query(g, damaged, UNIT, maxDepth, Only(g, c)), operator, map[], {}, 0).result)
    ensures !MissesNoRoute(g, damaged, operator, maxDepth, UNIT, Only(g, c))
  {
    var q := Query(g, damaged, UNIT, maxDepth, Only(g, c));
    assert c[0..] == c;
    ChainLeads(g, damaged, c);
    AlongOnly(q, c, 0);
    assert Holds(UNIT, 0, 0);
  }

  /** The damaged content itself always fits. */
  lemma LastFits(g: Graph, damaged: nat, operator: nat, maxDepth: nat, p: seq<nat>, c: seq<nat>, b: nat)
    requires Crosses(g, damaged, operator, maxDepth, p, c, b) && b == |c| - 1
    ensures Fits(maxDepth, p, c[b..])
  {
    assert c[b..] == [c[b]];
  }

  lemma StraightDown(h: Graph, damaged: nat, operator: nat, maxDepth: nat, p: seq<nat>, c: seq<nat>, b: nat)
    requires Closed(h) && maxDepth > 0 && Crosses(h, damaged, operator, maxDepth, p, c, b) && !Fits(maxDepth, p, c[b..])
    requires Route(h, damaged, operator, p + c[b..]) && Fronted(h, p + c[b..])
    ensures Straight(Query(h, damaged, UNIT, maxDepth, Only(h, c)), c, b, p + c[b..], |p|)
  {
    hide IsPath, Fronted, Only, Closed, Distinct, Fits;
    Spliced(p, c, b);
    if b == |c| - 1 {
      LastFits(h, damaged, operator, maxDepth, p, c, b);
    }
    FitsTogether(maxDepth, p, c[b..]);
  }

  lemma Spliced(p: seq<nat>, c: seq<nat>, b: nat)
    requires b < |c|
    ensures var d := p + c[b..];
            && d[..|p| + 1] == p + [c[b]] && d[|p|..] == c[b..] && d[|d| - 1] == c[|c| - 1] && d[0] == (p + [c[b]])[0]
  {
  }

  lemma FitsTogether(maxDepth: nat, p: seq<nat>, rest: seq<nat>)
    ensures Fits(maxDepth, [], p + rest) <==> Fits(maxDepth, p, rest)
  {
    assert [] + (p + rest) == p + rest;
  }

  /** Followed straight down, with the one mapping that keeps only its own damage, a crossing
      that does not fit brings back nothing. */
  lemma StraightCrossing(h: Graph, damaged: nat, operator: nat, maxDepth: nat, p: seq<nat>, c: seq<nat>, b: nat)
    requires Closed(h) && operator in h && maxDepth > 0
    requires Crosses(h, damaged, operator, maxDepth, p, c, b) && !Fits(maxDepth, p, c[b..])
    requires Route(h, damaged, operator, p + c[b..]) && Fronted(h, p + c[b..])
    ensures !MissesNoRoute(h, damaged, operator, maxDepth, UNIT, Only(h, c))
  {
    hide Fits, Fronted, MissesNoRoute;
    var q, d := Query(h, damaged, UNIT, maxDepth, Only(h, c)), p + c[b..];
    StraightDown(h, damaged, operator, maxDepth, p, c, b);
    assert d[0] == operator;
    assert d[..0] == [] && Elements<nat>([]) == {};
    hide Straight, Route, Only;
    GoesStraight(q, c, b, d, |p|, 0);
    BlankMisses(h, damaged, operator, maxDepth, c);
  }

  /** A crossing that does not fit: some order of the inputs loses the whole route. */
  lemma CrossingLost(g: Graph, damaged: nat, operator: nat, maxDepth: nat, p: seq<nat>, c: seq<nat>, b: nat)
    requires Closed(g) && operator in g && Crosses(g, damaged, operator, maxDepth, p, c, b) && !Fits(maxDepth, p, c[b..])
    ensures !MissesNoRouteInAnyOrder(g, damaged, operator, maxDepth)
  {
    if maxDepth == 0 {
      BlankMisses(g, damaged, operator, 0, c);
      OnlyIsMonotone(g, c);
      assert Reordered(g, g);
    } else {
      var d := p + c[b..];
      RouteFrom(g, damaged, operator, c, b);
      RoutesJoin(g, damaged, operator, p, c[b..]);
      var h := FrontAlong(g, damaged, d);
      ReorderedCloses(g, h);
      ReorderedRoute(g, h, damaged, operator, c);
      ReorderedRoute(g, h, damaged, operator, p + [c[b]]);
      ReorderedRoute(g, h, damaged, operator, d);
      StraightCrossing(h, damaged, operator, maxDepth, p, c, b);
      OnlyIsMonotone(h, c);
    }
  }

  /** Whatever the order of every content's inputs, the damage and the kinds' mappings,
      no chain that visits nothing twice is missed: exactly when every descent within the
      budget that enters such a chain leaves room for the rest of it. */
  lemma NoRouteMissedIffCrossingsFit(g: Graph, damaged: nat, operator: nat, maxDepth: nat)
    requires Closed(g) && operator in g
    ensures MissesNoRouteInAnyOrder(g, damaged, operator, maxDepth) <==> CrossingsFit(g, damaged, operator, maxDepth)
  {
    if CrossingsFit(g, damaged, operator, maxDepth) {
      forall h, rect, forward | Reordered(g, h) && Closed(h) && operator in h && Monotone(forward)
        ensures MissesNoRoute(h, damaged, operator, maxDepth, rect, forward)
      {
        CrossingsFitReordered(g, h, damaged, operator, maxDepth);
        FittingMissesNoRoute(h, damaged, operator, maxDepth, rect, forward);
      }
    } else {
      var p, c, b :| Crosses(g, damaged, operator, maxDepth, p, c, b) && !Fits(maxDepth, p, c[b..]);
      CrossingLost(g, damaged, operator, maxDepth, p, c, b);
    }
  }

  // ---- Every chain, repeating or not -------------------------------------------------------------

  /** No chain from the operator to the damage is longer than the budget. */
  ghost predicate WithinBudget(g: Graph, damaged: nat, operator: nat, maxDepth: nat)
  {
    forall w | ToDamage(g, damaged, operator, w) :: |w| - 1 <= maxDepth
  }

  ghost predicate RoutesEverything(g: Graph, damaged: nat, operator: nat, maxDepth: nat, rect: Rect,
                                   forward: (nat, nat, Rect) -> Rect)
    requires Closed(g) && operator in g
  {
    var q := Query(g, damaged, rect, maxDepth, forward);
    CoversChains(q, operator, Up(q, operator, map[], {}, 0).result)
  }

  ghost predicate CoversChains(q: Query, n: nat, result: Option<Rect>)
    requires Closed(q.g) && n in q.g
  {
    forall chain | Leads(q.g, q.damaged, n, chain, q.damaged) :: result.Some? && Covers(result.value, Along(q, n, chain))
  }

  ghost predicate RoutesEverythingInAnyOrder(g: Graph, damaged: nat, operator: nat, maxDepth: nat)
    requires Closed(g) && operator in g
  {
    forall h, rect, forward | Reordered(g, h) && Closed(h) && operator in h && Monotone(forward) ::
      RoutesEverything(h, damaged, operator, maxDepth, rect, forward)
  }

  /** Round the loop once more. */
  lemma AroundAgain(g: Graph, damaged: nat, operator: nat, w: seq<nat>, i: nat, j: nat)
    requires Closed(g) && ToDamage(g, damaged, operator, w) && i < j < |w| && w[i] == w[j]
    ensures var v := w[..j] + w[i..]; ToDamage(g, damaged, operator, v) && v[i] == v[j] && |v| > |w|
  {
    RouteFrom(g, damaged, operator, w, i);
    var front := w[..j] + [w[i..][0]];
    assert front == w[..j + 1];
    forall k | 0 <= k < |front| - 1 ensures HasEdge(g, front[k], front[k + 1]) {
      assert HasEdge(g, w[k], w[k + 1]);
    }
    RoutesJoin(g, damaged, operator, w[..j], w[i..]);
  }

  lemma {:induction false} LongRoute(g: Graph, damaged: nat, operator: nat, w: seq<nat>, i: nat, j: nat, k: nat)
    returns (v: seq<nat>)
    requires Closed(g) && ToDamage(g, damaged, operator, w) && i < j < |w| && w[i] == w[j]
    ensures ToDamage(g, damaged, operator, v) && |v| > k
    decreases k - |w|
  {
    if |w| > k {
      v := w;
    } else {
      AroundAgain(g, damaged, operator, w, i, j);
      v := LongRoute(g, damaged, operator, w[..j] + w[i..], i, j, k);
    }
  }

  /** Chains that never outgrow the budget repeat nothing ... */
  lemma WithinRepeatsNothing(g: Graph, damaged: nat, operator: nat, maxDepth: nat, w: seq<nat>)
    requires Closed(g) && WithinBudget(g, damaged, operator, maxDepth) && ToDamage(g, damaged, operator, w)
    ensures Distinct(w)
  {
    if i, j :| 0 <= i < j < |w| && w[i] == w[j] {
      var v := LongRoute(g, damaged, operator, w, i, j, maxDepth + 1);
    }
  }

  /** ... and a budget no smaller than the graph is outgrown by no others. */
  lemma AmpleBudget(g: Graph, damaged: nat, operator: nat, maxDepth: nat)
    requires Closed(g) && operator in g && maxDepth + 1 >= |g|
    ensures WithinBudget(g, damaged, operator, maxDepth) <==> forall w: seq<nat> | ToDamage(g, damaged, operator, w) :: Distinct(w)
  {
    forall w: seq<nat> | WithinBudget(g, damaged, operator, maxDepth) && ToDamage(g, damaged, operator, w) ensures Distinct(w) {
      WithinRepeatsNothing(g, damaged, operator, maxDepth, w);
    }
    forall w: seq<nat> | ToDamage(g, damaged, operator, w) && Distinct(w) ensures |w| <= |g| {
      forall m | m in w ensures m in g {
        var i :| 0 <= i < |w| && w[i] == m;
        RouteFrom(g, damaged, operator, w, i);
      }
      DistinctCount(w);
      Smaller(Elements(w), g.Keys);
    }
  }

  lemma {:induction false} DistinctCount(w: seq<nat>)
    requires Distinct(w)
    ensures |Elements(w)| == |w|
  {
    if w != [] {
      var front, last := w[..|w| - 1], w[|w| - 1];
      DistinctCount(front);
      assert w == front + [last];
      assert Elements(w) == Elements(front) + {last};
      assert last !in front;
    } else {
      assert Elements(w) == {};
    }
  }

  lemma WithinFits(g: Graph, damaged: nat, operator: nat, maxDepth: nat)
    requires Closed(g) && WithinBudget(g, damaged, operator, maxDepth)
    ensures CrossingsFit(g, damaged, operator, maxDepth)
  {
    forall p, c, b | Crosses(g, damaged, operator, maxDepth, p, c, b) ensures Fits(maxDepth, p, c[b..]) {
      RouteFrom(g, damaged, operator, c, b);
      RoutesJoin(g, damaged, operator, p, c[b..]);
      WithinRepeatsNothing(g, damaged, operator, maxDepth, p + c[b..]);
    }
  }

  /** A mapping by which every input shows one pixel further to the right. */
  function ShiftRight(n: nat, i: nat, r: Rect): Rect
  {
    Rect(r.x0 + 1, r.y0, r.x1 + 1, r.y1)
  }

  lemma ShiftIsMonotone()
    ensures Monotone(ShiftRight)
  {
    forall n: nat, i: nat, a, b | Covers(a, b) ensures Covers(ShiftRight(n, i, a), ShiftRight(n, i, b)) {
      forall x, y | Holds(ShiftRight(n, i, b), x, y) ensures Holds(ShiftRight(n, i, a), x, y) {
        assert Holds(b, x - 1, y);
      }
    }
  }

  lemma {:induction false} AlongShifts(q: Query, n: nat, chain: seq<nat>)
    requires Closed(q.g) && n in q.g && Leads(q.g, q.damaged, n, chain, q.damaged) && q.forward == ShiftRight
    ensures Along(q, n, chain) == Rect(q.rect.x0 + |chain|, q.rect.y0, q.rect.x1 + |chain|, q.rect.y1)
    decreases |chain|
  {
    if chain != [] {
      AlongShifts(q, q.g[n][chain[0]].value, chain[1..]);
    }
  }

  /** With a repeating chain no rectangle at all covers every chain of such a mapping. */
  lemma RepetitionOutgrowsEveryAnswer(g: Graph, damaged: nat, operator: nat, maxDepth: nat, w: seq<nat>, result: Option<Rect>)
    requires Closed(g) && operator in g && ToDamage(g, damaged, operator, w) && !Distinct(w)
    ensures !CoversChains(Query(g, damaged, UNIT, maxDepth, ShiftRight), operator, result)
  {
    var q := Query(g, damaged, UNIT, maxDepth, ShiftRight);
    var i, j :| 0 <= i < j < |w| && w[i] == w[j];
    var reach := if result.Some? && result.value.x1 > 0 then result.value.x1 else 0;
    var v := LongRoute(g, damaged, operator, w, i, j, reach + 1);
    ChainLeads(g, damaged, v);
    var chain := ChainOf(g, damaged, v);
    AlongShifts(q, operator, chain);
    assert Holds(Along(q, operator, chain), |chain|, 0);
  }

  lemma WithinRoutesEverything(g: Graph, damaged: nat, operator: nat, maxDepth: nat, rect: Rect,
                               forward: (nat, nat, Rect) -> Rect)
    requires Closed(g) && operator in g && WithinBudget(g, damaged, operator, maxDepth) && Monotone(forward)
    ensures RoutesEverything(g, damaged, operator, maxDepth, rect, forward)
  {
    hide Monotone;
    WithinFits(g, damaged, operator, maxDepth);
    FittingMissesNoRoute(g, damaged, operator, maxDepth, rect, forward);
    forall chain | Leads(g, damaged, operator, chain, damaged) ensures Distinct(Visits(g, damaged, operator, chain)) {
      VisitsRoute(g, damaged, operator, chain);
      WithinRepeatsNothing(g, damaged, operator, maxDepth, Visits(g, damaged, operator, chain));
    }
  }

  /** A chain longer than the budget: it repeats a content, or it is lost in some order. */
  lemma TooLongIsMissed(g: Graph, damaged: nat, operator: nat, maxDepth: nat, w: seq<nat>)
    requires Closed(g) && operator in g && ToDamage(g, damaged, operator, w) && |w| - 1 > maxDepth
    ensures !RoutesEverythingInAnyOrder(g, damaged, operator, maxDepth)
  {
    if Distinct(w) {
      assert [] + [w[0]] == [operator] && w[0..] == w;
      assert Crosses(g, damaged, operator, maxDepth, [], w, 0);
      CrossingLost(g, damaged, operator, maxDepth, [], w, 0);
      EverythingIsEveryRoute(g, damaged, operator, maxDepth);
    } else {
      ShiftIsMonotone();
      var q := Query(g, damaged, UNIT, maxDepth, ShiftRight);
      RepetitionOutgrowsEveryAnswer(g, damaged, operator, maxDepth, w, Up(q, operator, map[], {}, 0).result);
      assert Reordered(g, g);
      assert !RoutesEverything(g, damaged, operator, maxDepth, UNIT, ShiftRight);
    }
  }

  lemma EverythingIsEveryRoute(g: Graph, damaged: nat, operator: nat, maxDepth: nat)
    requires Closed(g) && operator in g
    ensures RoutesEverythingInAnyOrder(g, damaged, operator, maxDepth) ==> MissesNoRouteInAnyOrder(g, damaged, operator, maxDepth)
  {
    forall h, rect, forward |
      RoutesEverythingInAnyOrder(g, damaged, operator, maxDepth)
      && Reordered(g, h) && Closed(h) && operator in h && Monotone(forward)
      ensures MissesNoRoute(h, damaged, operator, maxDepth, rect, forward)
    {
      assert RoutesEverything(h, damaged, operator, maxDepth, rect, forward);
    }
  }

  /** Whatever the order of the inputs, the damage and the mappings, no chain at all is
      missed exactly when none is longer than the budget. */
  lemma RoutesEverythingIffWithinBudget(g: Graph, damaged: nat, operator: nat, maxDepth: nat)
    requires Closed(g) && operator in g
    ensures RoutesEverythingInAnyOrder(g, damaged, operator, maxDepth) <==> WithinBudget(g, damaged, operator, maxDepth)
  {
    if WithinBudget(g, damaged, operator, maxDepth) {
      forall h, rect, forward | Reordered(g, h) && Closed(h) && operator in h && Monotone(forward)
        ensures RoutesEverything(h, damaged, operator, maxDepth, rect, forward)
      {
        forall w | ToDamage(h, damaged, operator, w) ensures ToDamage(g, damaged, operator, w) {
          ReorderedRoute(g, h, damaged, operator, w);
        }
        WithinRoutesEverything(h, damaged, operator, maxDepth, rect, forward);
      }
    } else {
      var w :| ToDamage(g, damaged, operator, w) && |w| - 1 > maxDepth;
      TooLongIsMissed(g, damaged, operator, maxDepth, w);
    }
  }
}
