/** The dependency graph of a universe and the specification of the
    manager's depth-first `Sort`: an assembly depends on every assembly that
    one of its dependency names finds in the universe (other names are
    ignored). `Visit` is the memoised post-order visit of one node,
    `VisitDeps` its loop over the dependency names, `SortSpec` the visit of
    every input node with one shared `seen` set and output list. */
module DependencyGraph {
  import opened Seqs
  import opened Assemblies

  type Node = AssemblyInformation

  /** `_universe.TryGetValue(name, out info)`. */
  function Find(u: seq<Node>, name: string): (r: Option<Node>)
    ensures r.Some? ==> r.value in u && r.value.Name == name
    ensures r.None? ==> forall i :: 0 <= i < |u| ==> u[i].Name != name
  {
    if u == [] then None
    else if u[0].Name == name then Some(u[0])
    else Find(u[1..], name)
  }

  ghost function NodeSet(u: seq<Node>): set<Node> {
    set n | n in u
  }

  /** `x` has a dependency name that resolves to `d`. */
  ghost predicate DependsOn(u: seq<Node>, x: Node, d: Node) {
    exists k :: 0 <= k < |x.Dependencies| && Find(u, x.Dependencies[k]) == Some(d)
  }

  /** A walk along resolved dependencies, given by positions in the universe. */
  ghost predicate IsPath(u: seq<Node>, p: seq<nat>) {
    && |p| > 0
    && (forall i :: 0 <= i < |p| ==> p[i] < |u|)
    && (forall i :: 0 <= i < |p| - 1 ==> DependsOn(u, u[p[i]], u[p[i + 1]]))
  }

  /** `n` is one of `roots` or is reached from one of them through resolved dependencies. */
  ghost predicate Reachable(u: seq<Node>, roots: seq<Node>, n: Node) {
    exists p :: IsPath(u, p) && u[p[0]] in roots && u[p[|p| - 1]] == n
  }

  /** `b` is reached from `a` in one or more dependency steps. */
  ghost predicate Reaches(u: seq<Node>, a: Node, b: Node) {
    exists p :: IsPath(u, p) && |p| >= 2 && u[p[0]] == a && u[p[|p| - 1]] == b
  }

  /** No assembly of the universe depends, directly or transitively, on itself. */
  ghost predicate Acyclic(u: seq<Node>) {
    forall a :: a in u ==> !Reaches(u, a, a)
  }

  /** Every resolved dependency of an element occurs before that element. */
  ghost predicate TopoOrdered(u: seq<Node>, s: seq<Node>) {
    forall j, d :: 0 <= j < |s| && d in u && DependsOn(u, s[j], d) ==> d in s[..j]
  }

  /** The `output` list and `seen` set shared by one sort. */
  datatype State = State(output: seq<Node>, seen: set<Node>)

  /** `Sort(node, output, seen)`. */
  ghost function Visit(u: seq<Node>, node: Node, st: State): (r: State)
    requires node in u
    ensures st.seen <= r.seen && node in r.seen
    decreases NodeSet(u) - st.seen, 0
  {
    if node in st.seen then st
    else
      assert node in NodeSet(u);
      var inner := VisitDeps(u, node.Dependencies, State(st.output, st.seen + {node}));
      if node in inner.output then inner else State(inner.output + [node], inner.seen)
  }

  /** The `foreach` over the node's dependency names. */
  ghost function VisitDeps(u: seq<Node>, deps: seq<string>, st: State): (r: State)
    ensures st.seen <= r.seen
    decreases NodeSet(u) - st.seen, 1, |deps|
  {
    if deps == [] then st
    else
      var next := match Find(u, deps[0]) {
        case Some(d) => Visit(u, d, st)
        case None => st
      };
      VisitDeps(u, deps[1..], next)
  }

  /** The `foreach` over the input nodes of `Sort(input)`. */
  ghost function SortAll(u: seq<Node>, input: seq<Node>, st: State): State
    requires forall i :: 0 <= i < |input| ==> input[i] in u
  {
    if input == [] then st else SortAll(u, input[1..], Visit(u, input[0], st))
  }

  /** `Sort(input)`: the output list of one sort over `input`. */
  ghost function SortSpec(u: seq<Node>, input: seq<Node>): seq<Node>
    requires forall i :: 0 <= i < |input| ==> input[i] in u
  {
    SortAll(u, input, State([], {})).output
  }

  /** `Sort(new[] { a }).Except(new[] { a }).ToList()`. */
  ghost function ClosureSpec(u: seq<Node>, a: Node): seq<Node>
    requires a in u
  {
    Except(SortSpec(u, [a]), [a])
  }

  // ---------------------------------------------------------------------
  // Invariants of one sort

  /** Visited but not yet appended: the nodes whose visit is in progress. */
  ghost predicate Pending(st: State, x: Node) {
    x in st.seen && x !in st.output
  }

  /** What holds between any two steps of a sort started from `roots`. */
  ghost predicate Inv(u: seq<Node>, roots: seq<Node>, st: State) {
    && NoDup(st.output)
    && (forall i :: 0 <= i < |st.output| ==> st.output[i] in st.seen)
    && (forall x :: x in st.seen ==> x in u && Reachable(u, roots, x))
    && (forall x, d :: x in st.output && d in u && DependsOn(u, x, d) ==> d in st.seen)
  }

  lemma DependsOnInUniverse(u: seq<Node>, x: Node, d: Node)
    requires DependsOn(u, x, d)
    ensures d in u
  {
    var k :| 0 <= k < |x.Dependencies| && Find(u, x.Dependencies[k]) == Some(d);
  }

  lemma ReachStep(u: seq<Node>, roots: seq<Node>, x: Node, d: Node)
    requires Reachable(u, roots, x) && DependsOn(u, x, d)
    ensures Reachable(u, roots, d)
  {
    DependsOnInUniverse(u, x, d);
    var p :| IsPath(u, p) && u[p[0]] in roots && u[p[|p| - 1]] == x;
    var q := p + [IndexOf(u, d)];
    assert IsPath(u, q) by {
      forall i | 0 <= i < |q| - 1 ensures DependsOn(u, u[q[i]], u[q[i + 1]]) {
        if i < |p| - 1 { assert q[i] == p[i] && q[i + 1] == p[i + 1]; }
      }
    }
  }

  lemma RootReachable(u: seq<Node>, roots: seq<Node>, x: Node)
    requires x in roots && x in u
    ensures Reachable(u, roots, x)
  {
    assert IsPath(u, [IndexOf(u, x)]);
  }

  lemma ReachesEdge(u: seq<Node>, a: Node, d: Node)
    requires a in u && DependsOn(u, a, d)
    ensures Reaches(u, a, d)
  {
    DependsOnInUniverse(u, a, d);
    assert IsPath(u, [IndexOf(u, a), IndexOf(u, d)]);
  }

  lemma ReachesExtend(u: seq<Node>, a: Node, b: Node, c: Node)
    requires Reaches(u, a, b) && DependsOn(u, b, c)
    ensures Reaches(u, a, c)
  {
    DependsOnInUniverse(u, b, c);
    var p :| IsPath(u, p) && |p| >= 2 && u[p[0]] == a && u[p[|p| - 1]] == b;
    var q := p + [IndexOf(u, c)];
    assert IsPath(u, q) by {
      forall i | 0 <= i < |q| - 1 ensures DependsOn(u, u[q[i]], u[q[i + 1]]) {
        if i < |p| - 1 { assert q[i] == p[i] && q[i + 1] == p[i + 1]; }
      }
    }
  }

  lemma TopoAppend(u: seq<Node>, s: seq<Node>, x: Node)
    requires TopoOrdered(u, s)
    requires forall d :: d in u && DependsOn(u, x, d) ==> d in s
    ensures TopoOrdered(u, s + [x])
  {
    var t := s + [x];
    forall j, d | 0 <= j < |t| && d in u && DependsOn(u, t[j], d) ensures d in t[..j] {
      if j < |s| {
        assert t[j] == s[j] && t[..j] == s[..j];
      } else {
        assert t[..j] == s;
      }
    }
  }

  /** A dependency of `node` that is still in progress would close a cycle:
      every node in progress leads to `node`. */
  lemma PendingDependencyClosesCycle(u: seq<Node>, st: State, node: Node, d: Node)
    requires node in u && DependsOn(u, node, d)
    requires forall s :: Pending(st, s) ==> Reaches(u, s, node)
    ensures (d == node || Pending(st, d)) ==> Reaches(u, d, d)
  {
    if d == node {
      ReachesEdge(u, node, d);
    } else if Pending(st, d) {
      ReachesExtend(u, d, node, d);
    }
  }

  /** One visit keeps the invariant, only appends to the output and leaves the
      set of in-progress nodes as it was. On an acyclic graph, where every
      node in progress leads to the visited one, it keeps the output in
      dependency order. A node seen for the first time ends the output. */
  lemma {:induction false} VisitCorrect(u: seq<Node>, roots: seq<Node>, node: Node, st: State)
    requires node in u && Inv(u, roots, st) && Reachable(u, roots, node)
    requires Acyclic(u) ==> TopoOrdered(u, st.output) && forall s :: Pending(st, s) ==> Reaches(u, s, node)
    ensures var r := Visit(u, node, st);
            && Inv(u, roots, r)
            && st.output <= r.output
            && (forall x :: Pending(r, x) <==> Pending(st, x))
            && (Acyclic(u) ==> TopoOrdered(u, r.output))
            && (node !in st.seen ==> |r.output| > 0 && r.output[|r.output| - 1] == node)
    decreases NodeSet(u) - st.seen, 0
  {
    if node !in st.seen {
      assert node in NodeSet(u);
      var st1 := State(st.output, st.seen + {node});
      assert Inv(u, roots, st1);
      assert node.Dependencies[0..] == node.Dependencies;
      VisitDepsCorrect(u, roots, node, 0, st1);
      var inner := VisitDeps(u, node.Dependencies, st1);
      assert Pending(inner, node);
      var r := State(inner.output + [node], inner.seen);
      assert Visit(u, node, st) == r;
      forall d | d in u && DependsOn(u, node, d) ensures d in inner.seen {
        var k :| 0 <= k < |node.Dependencies| && Find(u, node.Dependencies[k]) == Some(d);
      }
      FinishKeepsInv(u, roots, inner, node);
      forall x ensures Pending(r, x) <==> Pending(st, x) {
        assert Pending(inner, x) <==> Pending(st1, x);
      }
      if Acyclic(u) {
        forall d | d in u && DependsOn(u, node, d) ensures d in inner.output {
          PendingDependencyClosesCycle(u, st, node, d);
        }
        TopoAppend(u, inner.output, node);
      }
    }
  }

  /** Appending a pending node whose dependencies have all been seen keeps
      the invariant. */
  lemma FinishKeepsInv(u: seq<Node>, roots: seq<Node>, st: State, node: Node)
    requires Inv(u, roots, st) && Pending(st, node)
    requires forall d :: d in u && DependsOn(u, node, d) ==> d in st.seen
    ensures Inv(u, roots, State(st.output + [node], st.seen))
  {
    var r := State(st.output + [node], st.seen);
    assert NoDup(r.output) by {
      forall i, j | 0 <= i < j < |r.output| ensures r.output[i] != r.output[j] {
        if j == |st.output| { assert r.output[i] == st.output[i]; }
        else { assert r.output[i] == st.output[i] && r.output[j] == st.output[j]; }
      }
    }
    forall i | 0 <= i < |r.output| ensures r.output[i] in r.seen {
      if i < |st.output| { assert r.output[i] == st.output[i]; }
    }
  }

  /** The loop over `parent`'s dependency names from index `j` on: as for
      `VisitCorrect`, and every name visited that resolves has been seen. */
  lemma {:induction false} VisitDepsCorrect(u: seq<Node>, roots: seq<Node>, parent: Node, j: nat, st: State)
    requires parent in u && j <= |parent.Dependencies|
    requires Inv(u, roots, st) && Reachable(u, roots, parent) && Pending(st, parent)
    requires Acyclic(u) ==>
               TopoOrdered(u, st.output) && forall s :: Pending(st, s) ==> s == parent || Reaches(u, s, parent)
    ensures var r := VisitDeps(u, parent.Dependencies[j..], st);
            && Inv(u, roots, r)
            && st.output <= r.output
            && (forall x :: Pending(r, x) <==> Pending(st, x))
            && (Acyclic(u) ==> TopoOrdered(u, r.output))
            && (forall k :: j <= k < |parent.Dependencies| && Find(u, parent.Dependencies[k]).Some? ==>
                  Find(u, parent.Dependencies[k]).value in r.seen)
    decreases NodeSet(u) - st.seen, 1, |parent.Dependencies| - j
  {
    var deps := parent.Dependencies[j..];
    if j < |parent.Dependencies| {
      assert deps[0] == parent.Dependencies[j];
      assert deps[1..] == parent.Dependencies[j + 1..];
      var next := st;
      match Find(u, deps[0]) {
        case Some(d) =>
          assert DependsOn(u, parent, d);
          ReachStep(u, roots, parent, d);
          if Acyclic(u) {
            forall s | Pending(st, s) ensures Reaches(u, s, d) {
              if s == parent { ReachesEdge(u, parent, d); } else { ReachesExtend(u, s, parent, d); }
            }
          }
          VisitCorrect(u, roots, d, st);
          next := Visit(u, d, st);
        case None =>
      }
      VisitDepsCorrect(u, roots, parent, j + 1, next);
    }
  }

  /** The outer loop of `Sort(input)` over `rest`, a part of the roots. */
  lemma {:induction false} SortAllCorrect(u: seq<Node>, roots: seq<Node>, rest: seq<Node>, st: State)
    requires forall i :: 0 <= i < |rest| ==> rest[i] in u && rest[i] in roots
    requires Inv(u, roots, st) && forall x :: !Pending(st, x)
    requires Acyclic(u) ==> TopoOrdered(u, st.output)
    ensures var r := SortAll(u, rest, st);
            && Inv(u, roots, r)
            && (forall x :: !Pending(r, x))
            && (Acyclic(u) ==> TopoOrdered(u, r.output))
            && st.seen <= r.seen
            && (forall i :: 0 <= i < |rest| ==> rest[i] in r.seen)
  {
    if rest != [] {
      RootReachable(u, roots, rest[0]);
      VisitCorrect(u, roots, rest[0], st);
      SortAllCorrect(u, roots, rest[1..], Visit(u, rest[0], st));
      forall i | 0 <= i < |rest| ensures rest[i] in SortAll(u, rest, st).seen {
        if i > 0 { assert rest[i] == rest[1..][i - 1]; }
      }
    }
  }

  /** Following resolved dependencies never leaves a set closed under them. */
  lemma {:induction false} ClosedContainsPath(u: seq<Node>, s: seq<Node>, p: seq<nat>)
    requires forall x, d :: x in s && d in u && DependsOn(u, x, d) ==> d in s
    requires IsPath(u, p) && u[p[0]] in s
    ensures u[p[|p| - 1]] in s
  {
    if |p| > 1 {
      assert DependsOn(u, u[p[0]], u[p[1]]);
      var q := p[1..];
      assert IsPath(u, q) by {
        forall i | 0 <= i < |q| - 1 ensures DependsOn(u, u[q[i]], u[q[i + 1]]) {
          assert q[i] == p[i + 1] && q[i + 1] == p[i + 2];
        }
      }
      ClosedContainsPath(u, s, q);
    }
  }

  /** The sort is memoised and complete: its output holds no node twice, and
      holds exactly the input nodes and every node reachable from them through
      dependency names found in the universe. On an acyclic graph every
      dependency precedes the node that depends on it. */
  lemma SortSpecCorrect(u: seq<Node>, input: seq<Node>)
    requires forall i :: 0 <= i < |input| ==> input[i] in u
    ensures NoDup(SortSpec(u, input))
    ensures forall n :: n in SortSpec(u, input) <==> Reachable(u, input, n)
    ensures Acyclic(u) ==> TopoOrdered(u, SortSpec(u, input))
    ensures forall i :: 0 <= i < |SortSpec(u, input)| ==> SortSpec(u, input)[i] in u
  {
    var st := State([], {});
    SortAllCorrect(u, input, input, st);
    var r := SortAll(u, input, st);
    FinishedStateClosed(u, input, r);
    ClosedContainsReachable(u, input, r.output);
    forall n | n in r.output ensures Reachable(u, input, n) {
      var i :| 0 <= i < |r.output| && r.output[i] == n;
    }
  }

  /** Once nothing is pending, every node seen is in the output and the
      output is closed under dependency. */
  lemma FinishedStateClosed(u: seq<Node>, roots: seq<Node>, st: State)
    requires Inv(u, roots, st) && forall x :: !Pending(st, x)
    ensures forall x :: x in st.seen ==> x in st.output
    ensures forall x, d :: x in st.output && d in u && DependsOn(u, x, d) ==> d in st.output
  {
    forall x | x in st.seen ensures x in st.output {
      assert !Pending(st, x);
    }
  }

  /** A dependency-closed sequence holding every root holds every node
      reachable from them. */
  lemma ClosedContainsReachable(u: seq<Node>, roots: seq<Node>, s: seq<Node>)
    requires forall i :: 0 <= i < |roots| ==> roots[i] in s
    requires forall x, d :: x in s && d in u && DependsOn(u, x, d) ==> d in s
    ensures forall n :: Reachable(u, roots, n) ==> n in s
  {
    forall n | Reachable(u, roots, n) ensures n in s {
      var p :| IsPath(u, p) && u[p[0]] in roots && u[p[|p| - 1]] == n;
      var i :| 0 <= i < |roots| && roots[i] == u[p[0]];
      ClosedContainsPath(u, s, p);
    }
  }

  /** The global order `Sort(_universe.Values)` lists every universe node
      exactly once. */
  lemma GlobalOrderCoversUniverse(u: seq<Node>)
    ensures NoDup(SortSpec(u, u))
    ensures forall n :: n in SortSpec(u, u) <==> n in u
  {
    SortSpecCorrect(u, u);
    forall n | n in u ensures n in SortSpec(u, u) {
      RootReachable(u, u, n);
    }
  }

  /** In an order listing every dependency before its dependent, a dependency
      comes strictly earlier. */
  lemma EdgeMovesEarlier(u: seq<Node>, out: seq<Node>, x: Node, d: Node)
    requires TopoOrdered(u, out) && x in out && d in u && DependsOn(u, x, d)
    ensures IndexOf(out, d) < IndexOf(out, x)
  {
    var j := IndexOf(out, x);
    assert out[j] == x;
    assert d in out[..j];
    var i :| 0 <= i < j && out[i] == d;
  }

  lemma {:induction false} PositionDecreasesAlongPath(u: seq<Node>, out: seq<Node>, p: seq<nat>)
    requires TopoOrdered(u, out) && forall i :: 0 <= i < |u| ==> u[i] in out
    requires IsPath(u, p) && |p| >= 2
    ensures IndexOf(out, u[p[|p| - 1]]) < IndexOf(out, u[p[0]])
  {
    assert DependsOn(u, u[p[0]], u[p[1]]);
    EdgeMovesEarlier(u, out, u[p[0]], u[p[1]]);
    if |p| > 2 {
      var q := p[1..];
      assert IsPath(u, q) by {
        forall i | 0 <= i < |q| - 1 ensures DependsOn(u, u[q[i]], u[q[i + 1]]) {
          assert q[i] == p[i + 1] && q[i + 1] == p[i + 2];
        }
      }
      PositionDecreasesAlongPath(u, out, q);
    }
  }

  /** In such an order covering the universe, whatever a node leads to comes earlier. */
  lemma ReachesMovesEarlier(u: seq<Node>, out: seq<Node>, a: Node, b: Node)
    requires TopoOrdered(u, out) && forall i :: 0 <= i < |u| ==> u[i] in out
    ensures Reaches(u, a, b) ==> IndexOf(out, b) < IndexOf(out, a)
  {
    if Reaches(u, a, b) {
      var p :| IsPath(u, p) && |p| >= 2 && u[p[0]] == a && u[p[|p| - 1]] == b;
      PositionDecreasesAlongPath(u, out, p);
    }
  }

  /** The global order lists every dependency before its dependent exactly
      when no assembly depends on itself through a chain of dependency names. */
  lemma GlobalOrderTopologicalIffAcyclic(u: seq<Node>)
    ensures TopoOrdered(u, SortSpec(u, u)) <==> Acyclic(u)
  {
    var out := SortSpec(u, u);
    SortSpecCorrect(u, u);
    GlobalOrderCoversUniverse(u);
    if TopoOrdered(u, out) {
      forall a | a in u ensures !Reaches(u, a, a) {
        ReachesMovesEarlier(u, out, a, a);
      }
    }
  }

  /** The visit from a single node ends with that node. */
  lemma SingleSortEndsWithRoot(u: seq<Node>, a: Node)
    requires a in u
    ensures |SortSpec(u, [a])| > 0 && SortSpec(u, [a])[|SortSpec(u, [a])| - 1] == a
  {
    RootReachable(u, [a], a);
    VisitCorrect(u, [a], a, State([], {}));
    assert SortAll(u, [a], State([], {})) == SortAll(u, [], Visit(u, a, State([], {})));
  }

  /** Each assembly's closure is its own sort with the assembly itself
      removed from the end, in the same order. */
  lemma ClosureIsSortWithoutRoot(u: seq<Node>, a: Node)
    requires a in u
    ensures SortSpec(u, [a]) == ClosureSpec(u, a) + [a]
  {
    var s := SortSpec(u, [a]);
    SortSpecCorrect(u, [a]);
    SingleSortEndsWithRoot(u, a);
    var t := s[..|s| - 1];
    assert s == t + [a];
    assert NoDup(t) by {
      forall i, j | 0 <= i < j < |t| ensures t[i] != t[j] { assert t[i] == s[i] && t[j] == s[j]; }
    }
    assert forall x :: x in t ==> x !in {a} by {
      forall x | x in t ensures x != a {
        var i :| 0 <= i < |t| && t[i] == x;
        assert s[i] == x && s[|s| - 1] == a;
      }
    }
    assert (set x | x in [a]) == {a};
    ExceptDropsLast(t, a, {a});
  }

  /** The closure never contains the assembly, holds no node twice, holds
      exactly the nodes reachable from the assembly, and is in dependency
      order on an acyclic graph. */
  lemma ClosureCorrect(u: seq<Node>, a: Node)
    requires a in u
    ensures a !in ClosureSpec(u, a)
    ensures NoDup(ClosureSpec(u, a))
    ensures forall n :: n in ClosureSpec(u, a) <==> n != a && Reachable(u, [a], n)
    ensures Acyclic(u) ==> TopoOrdered(u, ClosureSpec(u, a))
  {
    ClosureMembers(u, a);
    if Acyclic(u) {
      ClosureOrdered(u, a);
    }
  }

  lemma ClosureMembers(u: seq<Node>, a: Node)
    requires a in u
    ensures forall n :: n in ClosureSpec(u, a) <==> n != a && Reachable(u, [a], n)
  {
    var s := SortSpec(u, [a]);
    var t := ClosureSpec(u, a);
    SortSpecCorrect(u, [a]);
    ClosureIsSortWithoutRoot(u, a);
    forall n ensures n in t <==> n != a && Reachable(u, [a], n) {
      assert n in s <==> n in t || n == a;
    }
  }

  lemma ClosureOrdered(u: seq<Node>, a: Node)
    requires a in u && Acyclic(u)
    ensures TopoOrdered(u, ClosureSpec(u, a))
  {
    SortSpecCorrect(u, [a]);
    ClosureIsSortWithoutRoot(u, a);
    TopoPrefix(u, ClosureSpec(u, a), [a]);
  }

  /** A prefix of a dependency-ordered sequence is dependency-ordered. */
  lemma TopoPrefix(u: seq<Node>, t: seq<Node>, rest: seq<Node>)
    requires TopoOrdered(u, t + rest)
    ensures TopoOrdered(u, t)
  {
    var s := t + rest;
    forall j, d | 0 <= j < |t| && d in u && DependsOn(u, t[j], d) ensures d in t[..j] {
      assert t[j] == s[j] && t[..j] == s[..j];
    }
  }

  /** On an acyclic graph every member of an assembly's closure comes before
      the assembly in the global order. */
  lemma ClosurePrecedesInGlobalOrder(u: seq<Node>, a: Node, c: Node)
    requires a in u && Acyclic(u) && c in ClosureSpec(u, a)
    ensures IndexOf(SortSpec(u, u), c) < IndexOf(SortSpec(u, u), a)
  {
    ClosureMemberReached(u, a, c);
    GlobalOrderTopologicalIffAcyclic(u);
    GlobalOrderListsUniverse(u);
    ReachesMovesEarlier(u, SortSpec(u, u), a, c);
  }

  /** A closure member is reached from the assembly in one or more steps. */
  lemma ClosureMemberReached(u: seq<Node>, a: Node, c: Node)
    requires a in u && c in ClosureSpec(u, a)
    ensures Reaches(u, a, c)
  {
    ClosureMembers(u, a);
    var p :| IsPath(u, p) && u[p[0]] in [a] && u[p[|p| - 1]] == c;
    assert |p| >= 2;
  }

  /** Every universe position's node is in the global order. */
  lemma GlobalOrderListsUniverse(u: seq<Node>)
    ensures forall i :: 0 <= i < |u| ==> u[i] in SortSpec(u, u)
  {
    GlobalOrderCoversUniverse(u);
    forall i | 0 <= i < |u| ensures u[i] in SortSpec(u, u) {
      assert u[i] in u;
    }
  }
}
