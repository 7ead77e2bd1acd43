/** The revision fold over an operator graph: a depth-first worklist that visits each
    reachable content once and sums a bijective mix of its contribution modulo 2^64. */
module RevisionFold {
  import opened Mixer
  import opened Wrappers

  // ---- The graph ------------------------------------------------------------------------------

  /** Each content's inputs; an edge may be unbound. Cycles and sharing are allowed. */
  type Graph = map<nat, seq<Option<nat>>>

  ghost predicate Closed(g: Graph)
  {
    forall n, i | n in g && 0 <= i < |g[n]| && g[n][i].Some? :: g[n][i].value in g
  }

  predicate HasEdge(g: Graph, n: nat, m: nat)
  {
    n in g && Some(m) in g[n]
  }

  ghost predicate IsPath(g: Graph, path: seq<nat>)
  {
    && path != [] && path[0] in g
    && forall i | 0 <= i < |path| - 1 :: HasEdge(g, path[i], path[i + 1])
  }

  ghost predicate PathTo(g: Graph, root: nat, n: nat, path: seq<nat>)
  {
    IsPath(g, path) && path[0] == root && path[|path| - 1] == n
  }

  ghost predicate Reaches(g: Graph, root: nat, n: nat)
  {
    exists path :: PathTo(g, root, n, path)
  }

  ghost function Reachable(g: Graph, root: nat): set<nat>
  {
    set n | n in g && Reaches(g, root, n)
  }

  lemma ReachesStep(g: Graph, root: nat, n: nat, m: nat)
    requires Reaches(g, root, n) && HasEdge(g, n, m)
    ensures Reaches(g, root, m)
  {
    var path :| PathTo(g, root, n, path);
    assert PathTo(g, root, m, path + [m]);
  }

  /** A set that holds the root and is closed under edges holds everything reachable. */
  lemma {:induction false} ClosedSetHoldsPath(g: Graph, held: set<nat>, path: seq<nat>)
    requires IsPath(g, path) && path[0] in held
    requires forall n, m | n in held && HasEdge(g, n, m) :: m in held
    ensures path[|path| - 1] in held
  {
    if |path| > 1 {
      var front := path[..|path| - 1];
      forall i | 0 <= i < |front| - 1 ensures HasEdge(g, front[i], front[i + 1]) {
        assert front[i] == path[i] && front[i + 1] == path[i + 1];
      }
      ClosedSetHoldsPath(g, held, front);
      assert HasEdge(g, path[|path| - 2], path[|path| - 2 + 1]);
    }
  }

  // ---- Sums over sets ------------------------------------------------------------------------

  ghost predicate Words(g: Graph, contribution: nat -> nat)
  {
    forall n | n in g :: IsWord(contribution(n))
  }

  /** The sum of the mixed contributions of a set. */
  ghost function MixedSum(s: set<nat>, contribution: nat -> nat): nat
  {
    if s == {} then 0 else
    var n :| n in s;
    Mix64(contribution(n)) + MixedSum(s - {n}, contribution)
  }

  lemma {:induction false} SumSplits(s: set<nat>, contribution: nat -> nat, n: nat)
    requires n in s
    ensures MixedSum(s, contribution) == Mix64(contribution(n)) + MixedSum(s - {n}, contribution)
    decreases s
  {
    hide Mix64;
    var m :| m in s && MixedSum(s, contribution) == Mix64(contribution(m)) + MixedSum(s - {m}, contribution);
    if m != n {
      SumSplits(s - {m}, contribution, n);
      SumSplits(s - {n}, contribution, m);
      assert s - {m} - {n} == s - {n} - {m};
    }
  }

  lemma {:induction false} SumCongruent(s: set<nat>, one: nat -> nat, two: nat -> nat)
    requires forall n | n in s :: one(n) == two(n)
    ensures MixedSum(s, one) == MixedSum(s, two)
    decreases s
  {
    hide Mix64;
    if s != {} {
      var n :| n in s;
      SumSplits(s, one, n);
      SumSplits(s, two, n);
      SumCongruent(s - {n}, one, two);
    }
  }

  // ---- The fold --------------------------------------------------------------------------------

  /** The walk's state: everything stacked has been marked, nothing is stacked twice. */
  ghost predicate Walking(g: Graph, root: nat, stack: seq<nat>, visited: set<nat>)
  {
    && root in visited && visited <= g.Keys
    && (forall i | 0 <= i < |stack| :: stack[i] in visited)
    && (forall i, j | 0 <= i < j < |stack| :: stack[i] != stack[j])
    && (forall n | n in visited :: Reaches(g, root, n))
    && (forall n, m | n in visited && n !in stack && HasEdge(g, n, m) :: m in visited)
  }

  /** Mark and stack the bound inputs not seen yet. */
  method PushInputs(inputs: seq<Option<nat>>, stack: seq<nat>, visited: set<nat>) returns (stack': seq<nat>, visited': set<nat>)
    requires forall i | 0 <= i < |stack| :: stack[i] in visited
    requires forall i, j | 0 <= i < j < |stack| :: stack[i] != stack[j]
    ensures visited <= visited' && stack <= stack'
    ensures forall i, j | 0 <= i < j < |stack'| :: stack'[i] != stack'[j]
    ensures forall n :: n in visited' <==> n in visited || Some(n) in inputs
    ensures forall n :: n in stack' <==> n in stack || (n in visited' && n !in visited)
    ensures visited' == visited ==> stack' == stack
  {
    stack', visited' := stack, visited;
    for i := 0 to |inputs|
      invariant visited <= visited' && stack <= stack'
      invariant forall j | 0 <= j < |stack'| :: stack'[j] in visited'
      invariant forall j, k | 0 <= j < k < |stack'| :: stack'[j] != stack'[k]
      invariant forall n :: n in visited' <==> n in visited || Some(n) in inputs[..i]
      invariant forall n :: n in stack' <==> n in stack || (n in visited' && n !in visited)
      invariant visited' == visited ==> stack' == stack
    {
      assert inputs[..i + 1] == inputs[..i] + [inputs[i]];
      if inputs[i].Some? && inputs[i].value !in visited' {
        visited' := visited' + {inputs[i].value};
        stack' := stack' + [inputs[i].value];
      }
    }
    assert inputs[..|inputs|] == inputs;
  }

  lemma PoppedKeepsWalking(g: Graph, root: nat, stack: seq<nat>, visited: set<nat>, stack': seq<nat>, visited': set<nat>)
    requires Closed(g) && Walking(g, root, stack, visited) && stack != []
    requires var n := stack[|stack| - 1];
             && (forall m :: m in visited' <==> m in visited || Some(m) in g[n])
             && (forall m :: m in stack' <==> m in stack[..|stack| - 1] || (m in visited' && m !in visited))
    requires forall i, j | 0 <= i < j < |stack'| :: stack'[i] != stack'[j]
    ensures Walking(g, root, stack', visited')
  {
    var n := stack[|stack| - 1];
    assert n in visited;
    forall m | m in visited' ensures m in g && Reaches(g, root, m) {
      if m !in visited {
        var i :| 0 <= i < |g[n]| && g[n][i] == Some(m);
        ReachesStep(g, root, n, m);
      }
    }
    forall i | 0 <= i < |stack'| ensures stack'[i] in visited' {
      assert stack'[i] in stack';
      if stack'[i] in stack[..|stack| - 1] {
        var j :| 0 <= j < |stack| - 1 && stack[j] == stack'[i];
      }
    }
    forall p, q | p in visited' && p !in stack' && HasEdge(g, p, q) ensures q in visited' {
      assert p in visited;
      if p != n {
        assert stack == stack[..|stack| - 1] + [n];
        assert p !in stack;
      }
    }
  }

  /** `aggregate_revision`. It terminates on every graph, and what it sums is each
      reachable content once. */
  method AggregateRevision(g: Graph, root: Option<nat>, contribution: nat -> nat) returns (acc: nat)
    requires Closed(g) && (root.Some? ==> root.value in g)
    ensures root.None? ==> acc == 0
    ensures root.Some? ==> acc == MixedSum(Reachable(g, root.value), contribution) % WORDS
  {
    hide Mix64, Walking, HasEdge, MixedSum, Reachable, Reaches, Closed;
    if root.None? {
      return 0;
    }
    var stack, visited := [root.value], {root.value};
    acc := 0;
    ghost var folded: set<nat> := {};
    Begin(g, root.value, contribution);
    while stack != []
      invariant Walking(g, root.value, stack, visited)
      invariant forall i, j | 0 <= i < j < |stack| :: stack[i] != stack[j]
      invariant forall i | 0 <= i < |stack| :: stack[i] in visited
      invariant visited <= g.Keys && folded == visited - (set n | n in stack)
      invariant acc == MixedSum(folded, contribution) % WORDS
      decreases |g.Keys - visited|, |stack|
    {
      var n := stack[|stack| - 1];
      assert n in visited;
      acc := (acc + Mix64(contribution(n))) % WORDS;
      ghost var before, marked := stack, visited;
      stack, visited := PushInputs(g[n], stack[..|stack| - 1], visited);
      PoppedKeepsWalking(g, root.value, before, marked, stack, visited);
      WalkingMeans(g, root.value, stack, visited);
      FoldOne(before, marked, stack, visited, folded, contribution);
      folded := folded + {n};
      Progress(g, marked, visited);
    }
    Finished(g, root.value, visited);
  }

  lemma Begin(g: Graph, root: nat, contribution: nat -> nat)
    requires root in g
    ensures Walking(g, root, [root], {root}) && MixedSum({}, contribution) == 0
    ensures {root} - (set n | n in [root]) == {}
  {
    assert PathTo(g, root, root, [root]);
  }

  lemma WalkingMeans(g: Graph, root: nat, stack: seq<nat>, visited: set<nat>)
    requires Walking(g, root, stack, visited)
    ensures visited <= g.Keys
    ensures forall i | 0 <= i < |stack| :: stack[i] in visited
    ensures forall i, j | 0 <= i < j < |stack| :: stack[i] != stack[j]
  {
  }

  lemma FoldOne(before: seq<nat>, marked: set<nat>, stack: seq<nat>, visited: set<nat>, folded: set<nat>,
                contribution: nat -> nat)
    requires before != [] && before[|before| - 1] in marked
    requires forall i, j | 0 <= i < j < |before| :: before[i] != before[j]
    requires folded == marked - (set n | n in before)
    requires marked <= visited
    requires forall m :: m in stack <==> m in before[..|before| - 1] || (m in visited && m !in marked)
    ensures var n := before[|before| - 1];
            && folded + {n} == visited - (set m | m in stack)
            && (MixedSum(folded, contribution) % WORDS + Mix64(contribution(n))) % WORDS == MixedSum(folded + {n}, contribution) % WORDS
  {
    hide Mix64, MixedSum;
    var n := before[|before| - 1];
    assert n in before;
    assert forall m :: m in before <==> m in before[..|before| - 1] || m == n by {
      assert before == before[..|before| - 1] + [n];
    }
    assert n !in before[..|before| - 1];
    assert folded + {n} == visited - (set m | m in stack);
    SumSplits(folded + {n}, contribution, n);
    assert folded + {n} - {n} == folded;
  }

  lemma Progress(g: Graph, marked: set<nat>, visited: set<nat>)
    requires marked <= visited <= g.Keys
    ensures visited != marked ==> |g.Keys - visited| < |g.Keys - marked|
  {
    if visited != marked {
      var n :| n in visited && n !in marked;
      assert g.Keys - visited <= g.Keys - marked - {n};
      Smaller(g.Keys - visited, g.Keys - marked - {n});
    }
  }

  lemma {:induction false} Smaller(a: set<nat>, b: set<nat>)
    requires a <= b
    ensures |a| <= |b|
  {
    if a != {} {
      var n :| n in a;
      Smaller(a - {n}, b - {n});
    }
  }

  /** An exhausted walk has marked exactly what is reachable. */
  lemma Finished(g: Graph, root: nat, visited: set<nat>)
    requires Walking(g, root, [], visited)
    ensures visited == Reachable(g, root) && visited - (set n | n in []) == visited
  {
    forall n | n in Reachable(g, root) ensures n in visited {
      var path :| PathTo(g, root, n, path);
      ClosedSetHoldsPath(g, visited, path);
    }
  }

  // ---- What the fold promises ----------------------------------------------------------------

  /** The same edges in another order, repeated, or beside unbound ones. */
  ghost predicate SameEdges(g: Graph, h: Graph)
  {
    g.Keys == h.Keys && forall n, m :: HasEdge(g, n, m) <==> HasEdge(h, n, m)
  }

  /** The revision does not depend on the order or the repetition of edges. */
  lemma EdgeOrderIsIrrelevant(g: Graph, h: Graph, root: nat, contribution: nat -> nat)
    requires SameEdges(g, h)
    ensures MixedSum(Reachable(g, root), contribution) == MixedSum(Reachable(h, root), contribution)
  {
    forall n ensures Reaches(g, root, n) <==> Reaches(h, root, n) {
      if Reaches(g, root, n) {
        var path :| PathTo(g, root, n, path);
        assert PathTo(h, root, n, path);
      }
      if Reaches(h, root, n) {
        var path :| PathTo(h, root, n, path);
        assert PathTo(g, root, n, path);
      }
    }
    assert Reachable(g, root) == Reachable(h, root);
  }

  /** When one content's contribution changes and no other does, the revision changes
      exactly if that content is reachable. */
  lemma OneChangeAlwaysShows(g: Graph, root: nat, one: nat -> nat, two: nat -> nat, n: nat)
    requires n in g && Words(g, one) && Words(g, two)
    requires one(n) != two(n) && forall m | m in g && m != n :: one(m) == two(m)
    ensures MixedSum(Reachable(g, root), one) % WORDS != MixedSum(Reachable(g, root), two) % WORDS <==> n in Reachable(g, root)
  {
    hide Mix64, Unmix64, Reaches, MixedSum;
    var s := Reachable(g, root);
    if n in s {
      SumSplits(s, one, n);
      SumSplits(s, two, n);
      SumCongruent(s - {n}, one, two);
      MixIsBijective(one(n));
      MixIsBijective(two(n));
      SumsDiffer(Mix64(one(n)), Mix64(two(n)), MixedSum(s - {n}, one));
    } else {
      SumCongruent(s, one, two);
    }
  }

  lemma SumsDiffer(a: nat, b: nat, c: nat)
    requires IsWord(a) && IsWord(b) && a != b
    ensures (a + c) % WORDS != (b + c) % WORDS
  {
  }
}
