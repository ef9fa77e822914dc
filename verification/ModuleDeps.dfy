/**
 Load order of kernel modules (src/init/kmod.rs): a depth-limited depth-first
 walk of the `modules.dep` map that lists a module after its dependencies.
 */
module ModuleDeps {

  const MAX_DEP_RECURSION_DEPTH: nat := 64

  /** The file of a module and the names of the modules it depends on. */
  datatype Entry = Entry(path: string, deps: seq<string>)

  type DepMap = map<string, Entry>

  /** Module names are compared with `_` read as `-`. */
  function Normalize(name: string): (r: string) {
    seq(|name|, i requires 0 <= i < |name| => if name[i] == '_' then '-' else name[i])
  }

  predicate IsDash(c: char) {
    c == '-' || c == '_'
  }

  /** Names count as one exactly if they differ at most in their dashes, and stand for themselves if they have no `_`. */
  lemma {:induction false} NormalizeIff(a: string, b: string)
    ensures Normalize(a) == Normalize(b) <==>
            |a| == |b| && forall i | 0 <= i < |a| :: a[i] == b[i] || (IsDash(a[i]) && IsDash(b[i]))
    ensures Normalize(a) == a <==> '_' !in a
    ensures '_' !in Normalize(a)
  {
    var x, y := Normalize(a), Normalize(b);
    assert |x| == |a| && |y| == |b|;
    if x == y {
      forall i | 0 <= i < |a|
        ensures a[i] == b[i] || (IsDash(a[i]) && IsDash(b[i]))
      {
        assert x[i] == y[i];
      }
    }
    if '_' in a {
      var i :| 0 <= i < |a| && a[i] == '_';
      assert x[i] != a[i];
    }
  }

  function Dep(m: DepMap, a: string, i: nat): string
    requires a in m && i < |m[a].deps|
  {
    Normalize(m[a].deps[i])
  }

  ghost predicate DependsOn(m: DepMap, a: string, b: string) {
    a in m && exists i: nat | i < |m[a].deps| :: Dep(m, a, i) == b
  }

  /** A nonempty chain of known modules, each depending on the next. */
  ghost predicate Chain(m: DepMap, c: seq<string>) {
    && c != []
    && (forall i | 0 <= i < |c| :: c[i] in m)
    && (forall i | 0 < i < |c| :: DependsOn(m, c[i - 1], c[i]))
  }

  ghost predicate ChainFromTo(m: DepMap, c: seq<string>, a: string, b: string) {
    Chain(m, c) && c[0] == a && c[|c| - 1] == b
  }

  /** A chain of at most `nodes` modules leads from `a` to `b`. */
  ghost predicate ReachableWithin(m: DepMap, a: string, b: string, nodes: nat) {
    exists c | ChainFromTo(m, c, a, b) :: |c| <= nodes
  }

  ghost predicate Reachable(m: DepMap, a: string, b: string) {
    exists c :: ChainFromTo(m, c, a, b)
  }

  /** No chain from `a` has more than `edges` edges; in particular none is cyclic. */
  ghost predicate ChainsAtMost(m: DepMap, a: string, edges: nat) {
    forall c | Chain(m, c) && c[0] == a :: |c| <= edges + 1
  }

  /** The same bound, by recursion over the dependencies. */
  ghost predicate Bounded(m: DepMap, a: string, edges: nat)
    decreases edges
  {
    a in m ==>
      forall i: nat | i < |m[a].deps| ::
        Dep(m, a, i) in m ==> edges > 0 && Bounded(m, Dep(m, a, i), edges - 1)
  }

  lemma ExtendChain(m: DepMap, a: string, c: seq<string>)
    requires Chain(m, c) && DependsOn(m, a, c[0])
    ensures Chain(m, [a] + c) && ([a] + c)[|c|] == c[|c| - 1]
  {
  }

  lemma {:induction false} ShortChainsAreBounded(m: DepMap, a: string, edges: nat)
    requires ChainsAtMost(m, a, edges)
    ensures Bounded(m, a, edges)
    decreases edges
  {
    if a in m {
      forall i: nat | i < |m[a].deps| && Dep(m, a, i) in m
        ensures edges > 0 && Bounded(m, Dep(m, a, i), edges - 1)
      {
        var b := Dep(m, a, i);
        assert DependsOn(m, a, b);
        assert Chain(m, [a, b]);
        assert |[a, b]| <= edges + 1;
        forall c | Chain(m, c) && c[0] == b
          ensures |c| <= edges
        {
          ExtendChain(m, a, c);
          assert |[a] + c| <= edges + 1;
        }
        ShortChainsAreBounded(m, b, edges - 1);
      }
    }
  }

  // Walking along a chain uses up the bound, one edge at a time.
  lemma {:induction false} BoundedAlong(m: DepMap, c: seq<string>, edges: nat)
    requires Chain(m, c) && Bounded(m, c[0], edges)
    ensures |c| - 1 <= edges && Bounded(m, c[|c| - 1], edges - (|c| - 1))
    decreases |c|
  {
    if |c| > 1 {
      assert DependsOn(m, c[0], c[1]);
      var i: nat :| i < |m[c[0]].deps| && Dep(m, c[0], i) == c[1];
      var tail := c[1..];
      assert Chain(m, tail) by {
        forall k | 0 < k < |tail| ensures DependsOn(m, tail[k - 1], tail[k]) {
          assert DependsOn(m, c[k], c[k + 1]);
        }
      }
      BoundedAlong(m, tail, edges - 1);
    }
  }

  // A bounded module lies on no cycle: going round would use up any bound.
  lemma {:induction false} BoundedIsAcyclic(m: DepMap, c: seq<string>, edges: nat)
    requires Chain(m, c) && |c| > 1 && Bounded(m, c[0], edges)
    ensures c[0] != c[|c| - 1]
    decreases edges
  {
    BoundedAlong(m, c, edges);
    if c[0] == c[|c| - 1] {
      BoundedIsAcyclic(m, c, edges - (|c| - 1));
    }
  }

  /** The modules listed so far, in load order, and all names looked at. */
  datatype Walk = Walk(order: seq<string>, visited: set<string>)

  ghost function Visit(m: DepMap, name: string, w: Walk, depth: nat): Walk
    requires depth <= MAX_DEP_RECURSION_DEPTH + 1
    decreases MAX_DEP_RECURSION_DEPTH + 1 - depth, 0
  {
    var n := Normalize(name);
    if depth > MAX_DEP_RECURSION_DEPTH || n in w.visited then
      w
    else if n !in m then
      w.(visited := w.visited + {n})
    else
      var w' := VisitDeps(m, n, 0, w.(visited := w.visited + {n}), depth + 1);
      w'.(order := w'.order + [n])
  }

  /** Visits the dependencies of `a` from the `i`-th on. */
  ghost function VisitDeps(m: DepMap, a: string, i: nat, w: Walk, depth: nat): Walk
    requires a in m && i <= |m[a].deps| && depth <= MAX_DEP_RECURSION_DEPTH + 1
    decreases MAX_DEP_RECURSION_DEPTH + 1 - depth, 1 + |m[a].deps| - i
  {
    if i == |m[a].deps| then w else VisitDeps(m, a, i + 1, Visit(m, m[a].deps[i], w, depth), depth)
  }

  ghost predicate Distinct(order: seq<string>) {
    forall i, j | 0 <= i < j < |order| :: order[i] != order[j]
  }

  /** Known modules only, each once and each marked as visited. */
  ghost predicate WellListed(m: DepMap, w: Walk) {
    Distinct(w.order) && forall x | x in w.order :: x in m && x in w.visited
  }

  /** `w'` continues `w`, listing only modules within `nodes` of `a` that `w` had not visited. */
  ghost predicate Continues(m: DepMap, w: Walk, w': Walk, a: string, nodes: nat) {
    && WellListed(m, w')
    && w.order <= w'.order && w.visited <= w'.visited
    && forall i | |w.order| <= i < |w'.order| ::
         w'.order[i] !in w.visited && ReachableWithin(m, a, w'.order[i], nodes)
  }

  lemma ReachableOneMore(m: DepMap, a: string, i: nat, x: string, nodes: nat)
    requires a in m && i < |m[a].deps|
    requires ReachableWithin(m, Dep(m, a, i), x, nodes)
    ensures ReachableWithin(m, a, x, nodes + 1)
  {
    var b := Dep(m, a, i);
    var c :| ChainFromTo(m, c, b, x) && |c| <= nodes;
    assert DependsOn(m, a, b);
    ExtendChain(m, a, c);
    assert ChainFromTo(m, [a] + c, a, x);
  }

  // Whatever the map, a visit only lists modules not visited before, each once and within its depth.
  lemma {:induction false} VisitContinues(m: DepMap, name: string, w: Walk, depth: nat)
    requires depth <= MAX_DEP_RECURSION_DEPTH + 1 && WellListed(m, w)
    ensures Continues(m, w, Visit(m, name, w, depth), Normalize(name), MAX_DEP_RECURSION_DEPTH + 1 - depth)
    decreases MAX_DEP_RECURSION_DEPTH + 1 - depth, 0
  {
    var n := Normalize(name);
    if depth <= MAX_DEP_RECURSION_DEPTH && n !in w.visited && n in m {
      VisitDepsContinues(m, n, 0, w.(visited := w.visited + {n}), depth + 1);
      assert ChainFromTo(m, [n], n, n);
    }
  }

  lemma {:induction false} VisitDepsContinues(m: DepMap, a: string, i: nat, w: Walk, depth: nat)
    requires a in m && i <= |m[a].deps| && 1 <= depth <= MAX_DEP_RECURSION_DEPTH + 1 && WellListed(m, w)
    ensures Continues(m, w, VisitDeps(m, a, i, w, depth), a, MAX_DEP_RECURSION_DEPTH + 2 - depth)
    decreases MAX_DEP_RECURSION_DEPTH + 1 - depth, 1 + |m[a].deps| - i
  {
    if i < |m[a].deps| {
      var w1 := Visit(m, m[a].deps[i], w, depth);
      VisitContinues(m, m[a].deps[i], w, depth);
      forall k | |w.order| <= k < |w1.order|
        ensures ReachableWithin(m, a, w1.order[k], MAX_DEP_RECURSION_DEPTH + 2 - depth)
      {
        ReachableOneMore(m, a, i, w1.order[k], MAX_DEP_RECURSION_DEPTH + 1 - depth);
      }
      VisitDepsContinues(m, a, i + 1, w1, depth);
    }
  }

  /** Every known dependency of a listed module is listed before it. */
  ghost predicate DepsFirst(m: DepMap, order: seq<string>) {
    forall i | 0 <= i < |order| && order[i] in m :: DepsIn(m, order[i], |m[order[i]].deps|, order[..i])
  }

  /** The known ones of the first `n` dependencies of `a` are among `listed`. */
  ghost predicate DepsIn(m: DepMap, a: string, n: nat, listed: seq<string>)
    requires a in m && n <= |m[a].deps|
  {
    forall k: nat | k < n && Dep(m, a, k) in m :: Dep(m, a, k) in listed
  }

  /** No module being worked on can be reached from `a`. */
  ghost predicate ClearOf(m: DepMap, a: string, open: set<string>) {
    forall c | Chain(m, c) && c[0] == a :: c[|c| - 1] !in open
  }

  /** Dependencies first, and every known visited module is listed or still being worked on. */
  ghost predicate Settled(m: DepMap, w: Walk, open: set<string>) {
    DepsFirst(m, w.order) && forall v | v in w.visited && v in m :: v in w.order || v in open
  }

  // The dependencies of a module are bounded by one edge less, and none leads back to it.
  lemma DependencyBounded(m: DepMap, a: string, i: nat, edges: nat, open: set<string>)
    requires a in m && i < |m[a].deps| && Dep(m, a, i) in m
    requires Bounded(m, a, edges) && ClearOf(m, a, open)
    ensures edges > 0 && Bounded(m, Dep(m, a, i), edges - 1)
    ensures ClearOf(m, Dep(m, a, i), open + {a})
  {
    var b := Dep(m, a, i);
    assert DependsOn(m, a, b);
    forall c | Chain(m, c) && c[0] == b
      ensures c[|c| - 1] !in open + {a}
    {
      ExtendChain(m, a, c);
      BoundedIsAcyclic(m, [a] + c, edges);
    }
  }

  lemma PushKeepsDepsFirst(m: DepMap, order: seq<string>, a: string)
    requires a in m && DepsFirst(m, order) && DepsIn(m, a, |m[a].deps|, order)
    ensures DepsFirst(m, order + [a])
  {
    var longer := order + [a];
    forall i | 0 <= i < |longer| && longer[i] in m
      ensures DepsIn(m, longer[i], |m[longer[i]].deps|, longer[..i])
    {
      assert longer[..i] == order[..i];
      assert order[..|order|] == order;
    }
  }

  // With every chain inside the depth limit a visit lists the module, after all it depends on.
  lemma {:induction false} VisitSettles(m: DepMap, name: string, w: Walk, depth: nat, open: set<string>)
    requires depth <= MAX_DEP_RECURSION_DEPTH && WellListed(m, w)
    requires Bounded(m, Normalize(name), MAX_DEP_RECURSION_DEPTH - depth)
    requires Normalize(name) in m && ClearOf(m, Normalize(name), open) && Settled(m, w, open)
    ensures Settled(m, Visit(m, name, w, depth), open)
    ensures Normalize(name) in Visit(m, name, w, depth).order
    decreases MAX_DEP_RECURSION_DEPTH + 1 - depth, 0
  {
    var n := Normalize(name);
    assert Chain(m, [n]) && [n][0] == n;
    assert [n][|[n]| - 1] !in open;
    if n !in w.visited {
      var w1 := w.(visited := w.visited + {n});
      var w2 := VisitDeps(m, n, 0, w1, depth + 1);
      VisitDepsSettles(m, n, 0, w1, depth + 1, open);
      PushKeepsDepsFirst(m, w2.order, n);
      assert Visit(m, name, w, depth) == w2.(order := w2.order + [n]);
    }
  }

  lemma {:induction false} VisitDepsSettles(m: DepMap, a: string, i: nat, w: Walk, depth: nat, open: set<string>)
    requires a in m && i <= |m[a].deps| && 1 <= depth <= MAX_DEP_RECURSION_DEPTH + 1 && WellListed(m, w)
    requires Bounded(m, a, MAX_DEP_RECURSION_DEPTH + 1 - depth) && ClearOf(m, a, open)
    requires Settled(m, w, open + {a}) && DepsIn(m, a, i, w.order)
    ensures Settled(m, VisitDeps(m, a, i, w, depth), open + {a})
    ensures DepsIn(m, a, |m[a].deps|, VisitDeps(m, a, i, w, depth).order)
    decreases MAX_DEP_RECURSION_DEPTH + 1 - depth, 1 + |m[a].deps| - i
  {
    if i < |m[a].deps| {
      var w1 := Visit(m, m[a].deps[i], w, depth);
      VisitContinues(m, m[a].deps[i], w, depth);
      if Dep(m, a, i) in m {
        DependencyBounded(m, a, i, MAX_DEP_RECURSION_DEPTH + 1 - depth, open);
        VisitSettles(m, m[a].deps[i], w, depth, open + {a});
      }
      VisitDepsSettles(m, a, i + 1, w1, depth, open);
    }
  }

  // A list that is closed under dependencies holds everything its members reach.
  lemma {:induction false} ClosedUnderReach(m: DepMap, order: seq<string>, c: seq<string>)
    requires Chain(m, c) && c[0] in order && DepsFirst(m, order)
    ensures c[|c| - 1] in order
    decreases |c|
  {
    if |c| > 1 {
      var init := c[..|c| - 1];
      assert Chain(m, init) by {
        forall k | 0 < k < |init| ensures DependsOn(m, init[k - 1], init[k]) {
          assert DependsOn(m, c[k - 1], c[k]);
        }
      }
      ClosedUnderReach(m, order, init);
      assert DependsOn(m, c[|c| - 2], c[|c| - 1]);
      var i :| 0 <= i < |order| && order[i] == init[|init| - 1];
      assert DepsIn(m, order[i], |m[order[i]].deps|, order[..i]);
    }
  }

  // Only an acyclic part of the map can be listed dependencies first.
  lemma {:induction false} DepsFirstIsAcyclic(m: DepMap, order: seq<string>, c: seq<string>, i: nat) returns (j: nat)
    requires Distinct(order) && DepsFirst(m, order)
    requires Chain(m, c) && |c| > 1 && i < |order| && order[i] == c[0]
    ensures j < i && order[j] == c[|c| - 1] && c[0] != c[|c| - 1]
    decreases |c|
  {
    assert DependsOn(m, c[0], c[1]);
    assert DepsIn(m, order[i], |m[order[i]].deps|, order[..i]);
    assert c[1] in order[..i];
    j :| 0 <= j < i && order[j] == c[1];
    if |c| > 2 {
      var tail := c[1..];
      assert Chain(m, tail) by {
        forall k | 0 < k < |tail| ensures DependsOn(m, tail[k - 1], tail[k]) {
          assert DependsOn(m, c[k], c[k + 1]);
        }
      }
      j := DepsFirstIsAcyclic(m, order, tail, j);
    }
  }

  /** The files of the modules in `order`. */
  ghost function Files(m: DepMap, order: seq<string>): seq<string> {
    seq(|order|, i requires 0 <= i < |order| => if order[i] in m then m[order[i]].path else "")
  }

  /** The recursive walk itself; `order` names the modules whose files are in `resolved`. */
  method ResolveInternal(name: string, m: DepMap, resolved: seq<string>, visited: set<string>, depth: nat,
                         ghost order: seq<string>)
    returns (resolved': seq<string>, visited': set<string>)
    requires depth <= MAX_DEP_RECURSION_DEPTH + 1
    requires resolved == Files(m, order)
    ensures resolved' == Files(m, Visit(m, name, Walk(order, visited), depth).order)
    ensures visited' == Visit(m, name, Walk(order, visited), depth).visited
    decreases MAX_DEP_RECURSION_DEPTH + 1 - depth
  {
    resolved', visited' := resolved, visited;
    if depth > MAX_DEP_RECURSION_DEPTH {
      return;
    }
    var normalized := Normalize(name);
    if normalized in visited {
      return;
    }
    visited' := visited' + {normalized};
    if normalized in m {
      var deps := m[normalized].deps;
      ghost var w := Walk(order, visited');
      ghost var goal := VisitDeps(m, normalized, 0, w, depth + 1);
      var i := 0;
      while i < |deps|
        invariant 0 <= i <= |deps|
        invariant resolved' == Files(m, w.order) && visited' == w.visited
        invariant VisitDeps(m, normalized, i, w, depth + 1) == goal
      {
        resolved', visited' := ResolveInternal(deps[i], m, resolved', visited', depth + 1, w.order);
        w := Visit(m, deps[i], w, depth + 1);
        i := i + 1;
      }
      resolved' := resolved' + [m[normalized].path];
    }
  }

  /** The modules to load for `name`, in order: a walk that starts from nothing. */
  ghost function LoadOrder(m: DepMap, name: string): seq<string> {
    Visit(m, name, Walk([], {}), 0).order
  }

  method ResolveDeps(name: string, m: DepMap) returns (resolved: seq<string>)
    ensures resolved == Files(m, LoadOrder(m, name))
  {
    var visited;
    resolved, visited := ResolveInternal(name, m, [], {}, 0, []);
  }

  /** On any map, cyclic or not: known modules only, each once, each within 64 edges of the root. */
  lemma LoadOrderIsSound(m: DepMap, name: string)
    ensures Distinct(LoadOrder(m, name))
    ensures forall x | x in LoadOrder(m, name) ::
              x in m && ReachableWithin(m, Normalize(name), x, 65)
  {
    VisitContinues(m, name, Walk([], {}), 0);
  }

  /**
   If no chain from the root has more than 64 edges, the list is exactly what
   the root reaches, each module after all its known dependencies.
   */
  lemma LoadOrderIsComplete(m: DepMap, name: string)
    requires ChainsAtMost(m, Normalize(name), 64)
    ensures DepsFirst(m, LoadOrder(m, name))
    ensures forall x :: x in LoadOrder(m, name) <==> Reachable(m, Normalize(name), x)
  {
    var root, order := Normalize(name), LoadOrder(m, name);
    LoadOrderIsSound(m, name);
    ShortChainsAreBounded(m, root, MAX_DEP_RECURSION_DEPTH);
    if root in m {
      VisitSettles(m, name, Walk([], {}), 0, {});
    }
    forall x
      ensures x in order <==> Reachable(m, root, x)
    {
      if x in order {
        var c :| ChainFromTo(m, c, root, x) && |c| <= MAX_DEP_RECURSION_DEPTH + 1;
      } else if Reachable(m, root, x) {
        var c :| ChainFromTo(m, c, root, x);
        assert c[0] in m;
        ClosedUnderReach(m, order, c);
      }
    }
  }

  /**
   Conversely a list that is complete and in dependency order shows that no
   reachable module lies on a cycle and that each is within 64 edges.
   */
  lemma CompleteOrderNeeds(m: DepMap, name: string, c: seq<string>)
    requires DepsFirst(m, LoadOrder(m, name))
    requires forall x | Reachable(m, Normalize(name), x) :: x in LoadOrder(m, name)
    requires Chain(m, c) && Reachable(m, Normalize(name), c[0])
    ensures |c| > 1 ==> c[0] != c[|c| - 1]
    ensures ReachableWithin(m, Normalize(name), c[0], 65)
  {
    var order := LoadOrder(m, name);
    LoadOrderIsSound(m, name);
    if |c| > 1 {
      var i: nat :| i < |order| && order[i] == c[0];
      var j := DepsFirstIsAcyclic(m, order, c, i);
    }
  }
}
