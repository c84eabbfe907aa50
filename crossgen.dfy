/** The crossgen manager: it builds the universe of assemblies, computes each
    assembly's dependency closure with the depth-first `Sort`, and launches
    the native-image generator once per assembly in the global dependency
    order, skipping an assembly whose closure is not fully generated and
    stopping after the first failure.

    Launching the generator is modelled by appending an `Invocation` to the
    manager's `invocations` log; its exit code is the oracle `exitCode`. */
module CrossGen {
  import opened Seqs
  import opened Strings
  import opened Universe
  import opened Assemblies
  import opened DependencyGraph

  /** One launch of the generator: `ProcessStartInfo.FileName` and `.Arguments`. */
  datatype Invocation = Invocation(fileName: string, arguments: string)

  /** `Closure.Select(d => d.NativeImagePath)`. */
  function NativeImagePaths(closure: seq<Node>): (r: seq<string>)
    ensures |r| == |closure|
    ensures forall i :: 0 <= i < |closure| ==> r[i] == closure[i].NativeImagePath
  {
    if closure == [] then [] else [closure[0].NativeImagePath] + NativeImagePaths(closure[1..])
  }

  /** The `/Trusted_Platform_Assemblies` value: `mscorlib` (any case) trusts only
      its own image, every other assembly its closure's native images followed
      by its own IL image, separated by `;`. */
  function TrustedPlatformAssemblies(name: string, assemblyPath: string, closureImages: seq<string>): string {
    if EqualsIgnoreCase(name, "mscorlib") then assemblyPath
    else Join(';', closureImages + [assemblyPath])
  }

  /** `String.Format(crossgenArgsTemplate, in, out, tpa)`. */
  function CrossgenArguments(inPath: string, outPath: string, tpa: string): string {
    "/in" + " " + inPath + " " + "/out" + " " + outPath + " " + "/MissingDependenciesOK" + " "
    + "/Trusted_Platform_Assemblies" + " " + tpa
  }

  /** The command line for assembly `a` given its closure. */
  function Arguments(a: Node, closure: seq<Node>): string {
    CrossgenArguments(a.AssemblyPath, a.NativeImagePath,
                      TrustedPlatformAssemblies(a.Name, a.AssemblyPath, NativeImagePaths(closure)))
  }

  /** `Closure.Any(a => !a.Generated)`. */
  predicate AnyNotGenerated(closure: seq<Node>)
    reads closure
  {
    exists i :: 0 <= i < |closure| && !closure[i].Generated
  }

  /** The assemblies of `u` whose native image has been generated. */
  ghost function GeneratedSet(u: seq<Node>): set<Node>
    reads u
  {
    set a | a in u && a.Generated
  }

  // ---------------------------------------------------------------------
  // The generation run over values

  /** What a run has produced so far: the generated assemblies, the `success`
      accumulator, and the launches. */
  datatype RunState = RunState(generated: set<Node>, success: bool, launched: seq<Invocation>)

  /** What the driver loop consults about an assembly: its closure and the
      launch it would make. */
  datatype Plan = Plan(closure: Node -> seq<Node>, launch: Node -> Invocation)

  /** The launch for `a` once its closure has been assigned. */
  ghost function Planned(u: seq<Node>, path: string, a: Node): Invocation
    requires a in u
  {
    Invocation(path, Arguments(a, ClosureSpec(u, a)))
  }

  /** The manager's plan: closures from the sort, launches over them. */
  ghost function ManagerPlan(u: seq<Node>, path: string): Plan {
    Plan((a: Node) => if a in u then ClosureSpec(u, a) else [],
         (a: Node) => if a in u then Planned(u, path, a) else Invocation(path, ""))
  }

  /** Every member of `closure` is already generated. */
  ghost predicate Ready(closure: seq<Node>, generated: set<Node>) {
    forall i :: 0 <= i < |closure| ==> closure[i] in generated
  }

  /** One turn of the driver loop: `success = success && GenerateNativeImage(a)`. */
  ghost function Step(plan: Plan, exitCode: Invocation -> int, st: RunState, a: Node): RunState {
    if !st.success then st
    else if !Ready(plan.closure(a), st.generated) then RunState(st.generated, false, st.launched)
    else
      var inv := plan.launch(a);
      if exitCode(inv) == 0 then RunState(st.generated + {a}, true, st.launched + [inv])
      else RunState(st.generated, false, st.launched + [inv])
  }

  /** The driver loop over `order`, turn by turn. */
  ghost function Run(plan: Plan, exitCode: Invocation -> int, order: seq<Node>, st: RunState): RunState {
    if order == [] then st
    else Step(plan, exitCode, Run(plan, exitCode, order[..|order| - 1], st), order[|order| - 1])
  }

  /** `Sort(_universe.Values)`. */
  ghost function GlobalOrder(u: seq<Node>): (r: seq<Node>)
    ensures NoDup(r)
    ensures forall i :: 0 <= i < |r| ==> r[i] in u
    ensures forall i :: 0 <= i < |u| ==> u[i] in r
  {
    assert forall i :: 0 <= i < |u| ==> u[i] in u;
    GlobalOrderCoversUniverse(u);
    SortSpecCorrect(u, u);
    SortSpec(u, u)
  }

  class CrossgenManager {
    /** `_universe.Values`, in insertion order. */
    const universe: seq<AssemblyInformation>
    /** `_options.CrossgenPath`. */
    const crossgenPath: string
    /** Every launch of the generator so far. */
    var invocations: seq<Invocation>

    /** `new CrossgenManager(options)`: one fresh descriptor per entry of `BuildUniverse`. */
    constructor (runtimeFiles: seq<ImageFile>, inputDirectories: seq<seq<ImageFile>>,
                 isValidImage: string -> bool, crossgenPath: string)
      ensures var records := BuildUniverse(runtimeFiles, inputDirectories, isValidImage);
              && |universe| == |records|
              && forall j :: 0 <= j < |records| ==> universe[j].Fresh(records[j]) && fresh(universe[j])
      ensures NoDup(universe)
      ensures this.crossgenPath == crossgenPath && invocations == []
    {
      var records := BuildUniverse(runtimeFiles, inputDirectories, isValidImage);
      var nodes: seq<AssemblyInformation> := [];
      for i := 0 to |records|
        invariant |nodes| == i
        invariant forall j :: 0 <= j < i ==> nodes[j].Fresh(records[j]) && fresh(nodes[j])
        invariant NoDup(nodes)
      {
        var info := new AssemblyInformation(records[i]);
        nodes := nodes + [info];
      }
      universe := nodes;
      this.crossgenPath := crossgenPath;
      invocations := [];
    }

    /** `Sort(node, output, seen)`: the lists are threaded through as values. */
    method SortFrom(node: AssemblyInformation, output: seq<AssemblyInformation>, seen: set<AssemblyInformation>)
      returns (newOutput: seq<AssemblyInformation>, newSeen: set<AssemblyInformation>)
      requires node in universe
      ensures State(newOutput, newSeen) == Visit(universe, node, State(output, seen))
      decreases NodeSet(universe) - seen, 0
    {
      if node in seen {
        return output, seen;
      }
      assert node in NodeSet(universe);
      newOutput, newSeen := output, seen + {node};
      var deps := node.Dependencies;
      var i := 0;
      while i < |deps|
        invariant 0 <= i <= |deps|
        invariant seen + {node} <= newSeen
        invariant VisitDeps(universe, deps[i..], State(newOutput, newSeen))
               == VisitDeps(universe, deps, State(output, seen + {node}))
      {
        assert deps[i..][0] == deps[i] && deps[i..][1..] == deps[i + 1..];
        match Find(universe, deps[i]) {
          case Some(d) =>
            newOutput, newSeen := SortFrom(d, newOutput, newSeen);
          case None =>
        }
        i := i + 1;
      }
      assert deps[i..] == [];
      if node !in newOutput {
        newOutput := newOutput + [node];
      }
    }

    /** `Sort(input)`. */
    method Sort(input: seq<AssemblyInformation>) returns (output: seq<AssemblyInformation>)
      requires forall i :: 0 <= i < |input| ==> input[i] in universe
      ensures output == SortSpec(universe, input)
    {
      output := [];
      var seen: set<AssemblyInformation> := {};
      for i := 0 to |input|
        invariant SortAll(universe, input[i..], State(output, seen)) == SortAll(universe, input, State([], {}))
      {
        assert input[i..][0] == input[i] && input[i..][1..] == input[i + 1..];
        output, seen := SortFrom(input[i], output, seen);
      }
      assert input[|input|..] == [];
    }

    /** `GenerateNativeImage(assemblyInfo)`: skips without launching when a
        closure member is not generated; otherwise launches the generator and
        marks the assembly generated on exit code 0. */
    method GenerateNativeImage(info: AssemblyInformation, exitCode: Invocation -> int) returns (ok: bool)
      modifies info`Generated, this`invocations
      ensures old(AnyNotGenerated(info.Closure)) ==>
                !ok && invocations == old(invocations) && info.Generated == old(info.Generated)
      ensures !old(AnyNotGenerated(info.Closure)) ==>
                var inv := Invocation(crossgenPath, Arguments(info, info.Closure));
                && invocations == old(invocations) + [inv]
                && ok == (exitCode(inv) == 0)
                && info.Generated == (old(info.Generated) || ok)
    {
      if AnyNotGenerated(info.Closure) {
        return false;
      }
      var inv := Invocation(crossgenPath, Arguments(info, info.Closure));
      invocations := invocations + [inv];
      if exitCode(inv) == 0 {
        info.Generated := true;
        return true;
      }
      return false;
    }

    /** `GenerateNativeImages()`: assigns every closure, then runs the driver
        loop over the global order. */
    method GenerateNativeImages(exitCode: Invocation -> int) returns (success: bool)
      modifies universe, this`invocations
      ensures forall j :: 0 <= j < |universe| ==> universe[j].Closure == ClosureSpec(universe, universe[j])
      ensures var r := Run(ManagerPlan(universe, crossgenPath), exitCode, GlobalOrder(universe),
                           RunState(old(GeneratedSet(universe)), true, old(invocations)));
              && success == r.success
              && GeneratedSet(universe) == r.generated
              && invocations == r.launched
    {
      AssignClosures();
      assert forall i :: 0 <= i < |universe| ==> universe[i] in universe;
      var order := Sort(universe);
      assert order == GlobalOrder(universe);
      success := GenerateInOrder(order, exitCode);
    }

    /** The first loop of `GenerateNativeImages`: `Closure` of every assembly
        becomes its sort without itself. */
    method AssignClosures()
      modifies universe
      ensures forall j :: 0 <= j < |universe| ==> universe[j].Closure == ClosureSpec(universe, universe[j])
      ensures forall j :: 0 <= j < |universe| ==> universe[j].Generated == old(universe[j].Generated)
      ensures GeneratedSet(universe) == old(GeneratedSet(universe))
    {
      for i := 0 to |universe|
        invariant forall j :: 0 <= j < i ==> universe[j].Closure == ClosureSpec(universe, universe[j])
        invariant forall j :: 0 <= j < |universe| ==> universe[j].Generated == old(universe[j].Generated)
      {
        var a := universe[i];
        var sorted := Sort([a]);
        a.Closure := Except(sorted, [a]);
      }
    }

    /** The second loop of `GenerateNativeImages`, over `order`. */
    method GenerateInOrder(order: seq<AssemblyInformation>, exitCode: Invocation -> int) returns (success: bool)
      requires forall i :: 0 <= i < |order| ==> order[i] in universe
      requires forall j :: 0 <= j < |universe| ==> universe[j].Closure == ClosureSpec(universe, universe[j])
      modifies universe, this`invocations
      ensures forall j :: 0 <= j < |universe| ==> universe[j].Closure == ClosureSpec(universe, universe[j])
      ensures var r := Run(ManagerPlan(universe, crossgenPath), exitCode, order,
                           RunState(old(GeneratedSet(universe)), true, old(invocations)));
              && success == r.success
              && GeneratedSet(universe) == r.generated
              && invocations == r.launched
    {
      success := true;
      ghost var st0 := RunState(GeneratedSet(universe), true, invocations);
      for i := 0 to |order|
        invariant forall j :: 0 <= j < |universe| ==> universe[j].Closure == ClosureSpec(universe, universe[j])
        invariant RunState(GeneratedSet(universe), success, invocations)
               == Run(ManagerPlan(universe, crossgenPath), exitCode, order[..i], st0)
      {
        assert order[..i + 1][..i] == order[..i];
        if success {
          success := GenerateStep(order[i], exitCode);
        }
      }
      assert order[..|order|] == order;
    }

    /** One successful turn of the driver loop, stated over `GeneratedSet`. */
    method GenerateStep(a: AssemblyInformation, exitCode: Invocation -> int) returns (ok: bool)
      requires a in universe
      requires forall j :: 0 <= j < |universe| ==> universe[j].Closure == ClosureSpec(universe, universe[j])
      modifies a`Generated, this`invocations
      ensures forall j :: 0 <= j < |universe| ==> universe[j].Closure == ClosureSpec(universe, universe[j])
      ensures RunState(GeneratedSet(universe), ok, invocations)
           == Step(ManagerPlan(universe, crossgenPath), exitCode,
                   RunState(old(GeneratedSet(universe)), true, old(invocations)), a)
    {
      ghost var before := GeneratedSet(universe);
      GeneratedSetMembers(universe);
      AssignedPlan(universe, crossgenPath, a);
      ok := GenerateNativeImage(a, exitCode);
      GeneratedSetAfterTurn(universe, a, before, ok);
    }
  }

  /** Once the closures are assigned, the manager's plan for `a` is what its
      fields say: its closure, the launch over that closure, and it is ready
      exactly when no closure member is ungenerated. */
  lemma AssignedPlan(u: seq<Node>, path: string, a: Node)
    requires a in u
    requires forall j :: 0 <= j < |u| ==> u[j].Closure == ClosureSpec(u, u[j])
    ensures ManagerPlan(u, path).closure(a) == a.Closure
    ensures ManagerPlan(u, path).launch(a) == Invocation(path, Arguments(a, a.Closure))
    ensures AnyNotGenerated(a.Closure) <==> !Ready(a.Closure, GeneratedSet(u))
  {
    var k := IndexOf(u, a);
    assert u[k] == a;
    ClosureInUniverse(u, a);
  }

  /** An assembly of `u` is in the generated set exactly when it is generated. */
  lemma GeneratedSetMembers(u: seq<Node>)
    ensures GeneratedSet(u) <= NodeSet(u)
    ensures forall i :: 0 <= i < |u| ==> (u[i].Generated <==> u[i] in GeneratedSet(u))
  {
  }

  /** When only `a` may have become generated, and only on success, the
      generated set gains `a` exactly on success. */
  lemma GeneratedSetAfterTurn(u: seq<Node>, a: Node, before: set<Node>, ok: bool)
    requires a in u && before <= NodeSet(u)
    requires forall i :: 0 <= i < |u| && u[i] != a ==> (u[i].Generated <==> u[i] in before)
    requires a.Generated <==> a in before || ok
    ensures GeneratedSet(u) == if ok then before + {a} else before
  {
    forall x | x in GeneratedSet(u) ensures x in (if ok then before + {a} else before) {
      var i :| 0 <= i < |u| && u[i] == x;
    }
    forall x | x in (if ok then before + {a} else before) ensures x in GeneratedSet(u) {
      assert x in NodeSet(u) || x == a;
      var i :| 0 <= i < |u| && u[i] == x;
    }
  }

  /** Every member of a closure belongs to the universe. */
  lemma ClosureInUniverse(u: seq<Node>, a: Node)
    requires a in u
    ensures forall i :: 0 <= i < |ClosureSpec(u, a)| ==> ClosureSpec(u, a)[i] in u
  {
    ClosureCorrect(u, a);
    forall i | 0 <= i < |ClosureSpec(u, a)| ensures ClosureSpec(u, a)[i] in u {
      var n := ClosureSpec(u, a)[i];
      assert Reachable(u, [a], n);
      var p :| IsPath(u, p) && u[p[0]] in [a] && u[p[|p| - 1]] == n;
    }
  }

  // ---------------------------------------------------------------------
  // The command line

  /** The trusted-assembly list names exactly the intended images, in order:
      for `mscorlib` its own IL image, for any other assembly its closure's
      native images followed by its own IL image. */
  lemma TrustedPlatformAssembliesLists(name: string, assemblyPath: string, closureImages: seq<string>)
    requires ';' !in assemblyPath
    requires forall k :: 0 <= k < |closureImages| ==> ';' !in closureImages[k]
    ensures Split(';', TrustedPlatformAssemblies(name, assemblyPath, closureImages))
         == if EqualsIgnoreCase(name, "mscorlib") then [assemblyPath] else closureImages + [assemblyPath]
  {
    if !EqualsIgnoreCase(name, "mscorlib") {
      var parts := closureImages + [assemblyPath];
      assert forall k :: 0 <= k < |parts| ==> ';' !in parts[k] by {
        forall k | 0 <= k < |parts| ensures ';' !in parts[k] {
          if k < |closureImages| { assert parts[k] == closureImages[k]; }
        }
      }
      SplitJoin(';', parts);
    }
  }

  /** The words of the generator's command line. */
  function ArgumentWords(inPath: string, outPath: string, tpa: string): seq<string> {
    ["/in", inPath, "/out", outPath, "/MissingDependenciesOK", "/Trusted_Platform_Assemblies", tpa]
  }

  /** The command line is its seven words separated by single spaces. */
  lemma CrossgenArgumentsJoinsWords(inPath: string, outPath: string, tpa: string)
    ensures CrossgenArguments(inPath, outPath, tpa) == Join(' ', ArgumentWords(inPath, outPath, tpa))
  {
    var w := ArgumentWords(inPath, outPath, tpa);
    assert w[..1] == ["/in"];
    assert w == w[..6] + [tpa];
    assert w[..6] == w[..5] + ["/Trusted_Platform_Assemblies"];
    assert w[..5] == w[..4] + ["/MissingDependenciesOK"];
    assert w[..4] == w[..3] + [outPath] && w[..3] == w[..2] + ["/out"];
    assert w[..2] == w[..1] + [inPath];
    JoinSnoc(' ', w[..1], inPath);
    JoinSnoc(' ', w[..2], "/out");
    JoinSnoc(' ', w[..3], outPath);
    JoinSnoc(' ', w[..4], "/MissingDependenciesOK");
    JoinSnoc(' ', w[..5], "/Trusted_Platform_Assemblies");
    JoinSnoc(' ', w[..6], tpa);
  }

  /** So it splits back into its words when no path holds a space. */
  lemma CrossgenArgumentsSplit(inPath: string, outPath: string, tpa: string)
    requires ' ' !in inPath && ' ' !in outPath && ' ' !in tpa
    ensures Split(' ', CrossgenArguments(inPath, outPath, tpa)) == ArgumentWords(inPath, outPath, tpa)
  {
    var w := ArgumentWords(inPath, outPath, tpa);
    CrossgenArgumentsJoinsWords(inPath, outPath, tpa);
    assert forall k :: 0 <= k < |w| ==> ' ' !in w[k];
    SplitJoin(' ', w);
  }

  // ---------------------------------------------------------------------
  // Properties of the generation run

  ghost function Elems(s: seq<Node>): set<Node> {
    set x | x in s
  }

  /** The launches of `s`, in order. */
  ghost function PlannedAll(plan: Plan, s: seq<Node>): (r: seq<Invocation>)
    ensures |r| == |s|
    ensures forall i :: 0 <= i < |s| ==> r[i] == plan.launch(s[i])
  {
    if s == [] then [] else PlannedAll(plan, s[..|s| - 1]) + [plan.launch(s[|s| - 1])]
  }

  /** Turn `i` of a run over `order` that has succeeded so far succeeds: the
      assembly's closure lies in what was generated before the run or earlier
      in the order, and the generator exits with 0. */
  ghost predicate TurnSucceeds(plan: Plan, exitCode: Invocation -> int, generated: set<Node>, order: seq<Node>, i: nat)
    requires i < |order|
  {
    Ready(plan.closure(order[i]), generated + Elems(order[..i])) && exitCode(plan.launch(order[i])) == 0
  }

  /** Once `success` is false, the remaining turns change nothing. */
  lemma {:induction false} RunAfterFailure(plan: Plan, exitCode: Invocation -> int, order: seq<Node>, st: RunState)
    requires !st.success
    ensures Run(plan, exitCode, order, st) == st
  {
    if order != [] {
      RunAfterFailure(plan, exitCode, order[..|order| - 1], st);
    }
  }

  /** A run never takes an assembly out of the generated set, and never
      turns a failure into a success. */
  lemma {:induction false} RunGeneratedGrows(plan: Plan, exitCode: Invocation -> int, order: seq<Node>, st: RunState)
    ensures st.generated <= Run(plan, exitCode, order, st).generated
    ensures Run(plan, exitCode, order, st).success ==> st.success
  {
    if order != [] {
      RunGeneratedGrows(plan, exitCode, order[..|order| - 1], st);
    }
  }

  /** Turn `f` is the first turn of a fresh run over `order` that fails, and
      `r` is what the run leaves: what came before `f` was generated and
      launched, `f` was launched only if its closure was ready, and nothing
      after `f` was attempted. */
  ghost predicate FailsFirstAt(plan: Plan, exitCode: Invocation -> int, generated: set<Node>,
                               launched: seq<Invocation>, order: seq<Node>, f: nat, r: RunState)
    requires f < |order|
  {
    && (forall i :: 0 <= i < f ==> TurnSucceeds(plan, exitCode, generated, order, i))
    && !TurnSucceeds(plan, exitCode, generated, order, f)
    && r.generated == generated + Elems(order[..f])
    && r.launched == launched + PlannedAll(plan, order[..f])
                     + (if Ready(plan.closure(order[f]), generated + Elems(order[..f])) then [plan.launch(order[f])] else [])
  }

  /** Whether a turn succeeds does not depend on the turns after it. */
  lemma TurnSucceedsPrefix(plan: Plan, exitCode: Invocation -> int, g: set<Node>, order: seq<Node>, n: nat, i: nat)
    requires i < n <= |order|
    ensures TurnSucceeds(plan, exitCode, g, order[..n], i) == TurnSucceeds(plan, exitCode, g, order, i)
  {
    assert order[..n][..i] == order[..i];
  }

  /** A first failure before the last turn stays the first failure. */
  lemma FailsFirstAtExtends(plan: Plan, exitCode: Invocation -> int, g: set<Node>, l: seq<Invocation>,
                            order: seq<Node>, f: nat, r: RunState)
    requires f < |order| - 1
    requires FailsFirstAt(plan, exitCode, g, l, order[..|order| - 1], f, r)
    ensures FailsFirstAt(plan, exitCode, g, l, order, f, r)
  {
    var init := order[..|order| - 1];
    assert init[..f] == order[..f];
    forall i | 0 <= i <= f
      ensures TurnSucceeds(plan, exitCode, g, init, i) == TurnSucceeds(plan, exitCode, g, order, i)
    {
      TurnSucceedsPrefix(plan, exitCode, g, order, |order| - 1, i);
    }
  }

  /** The last turn after a successful prefix. */
  lemma LastTurn(plan: Plan, exitCode: Invocation -> int, g: set<Node>, l: seq<Invocation>, order: seq<Node>, prev: RunState)
    requires |order| > 0
    requires prev.success
    requires prev.generated == g + Elems(order[..|order| - 1])
    requires prev.launched == l + PlannedAll(plan, order[..|order| - 1])
    ensures var r := Step(plan, exitCode, prev, order[|order| - 1]);
            && (r.success <==> TurnSucceeds(plan, exitCode, g, order, |order| - 1))
            && (r.success ==> r.generated == g + Elems(order) && r.launched == l + PlannedAll(plan, order))
            && (!r.success ==>
                  && r.generated == g + Elems(order[..|order| - 1])
                  && r.launched == l + PlannedAll(plan, order[..|order| - 1])
                       + (if Ready(plan.closure(order[|order| - 1]), g + Elems(order[..|order| - 1]))
                          then [plan.launch(order[|order| - 1])] else []))
  {
    var init := order[..|order| - 1];
    var a := order[|order| - 1];
    assert TurnSucceeds(plan, exitCode, g, order, |order| - 1)
        == (Ready(plan.closure(a), prev.generated) && exitCode(plan.launch(a)) == 0);
    if Ready(plan.closure(a), prev.generated) && exitCode(plan.launch(a)) == 0 {
      LastTurnSucceeds(plan, g, l, order, prev);
    }
  }

  lemma LastTurnSucceeds(plan: Plan, g: set<Node>, l: seq<Invocation>, order: seq<Node>, prev: RunState)
    requires |order| > 0
    requires prev.generated == g + Elems(order[..|order| - 1])
    requires prev.launched == l + PlannedAll(plan, order[..|order| - 1])
    ensures prev.generated + {order[|order| - 1]} == g + Elems(order)
    ensures prev.launched + [plan.launch(order[|order| - 1])] == l + PlannedAll(plan, order)
  {
    ElemsSnoc(order);
    PlannedAllSnoc(plan, l, order);
  }

  lemma PlannedAllSnoc(plan: Plan, l: seq<Invocation>, s: seq<Node>)
    requires |s| > 0
    ensures l + PlannedAll(plan, s[..|s| - 1]) + [plan.launch(s[|s| - 1])] == l + PlannedAll(plan, s)
  {
    var p := PlannedAll(plan, s[..|s| - 1]);
    assert PlannedAll(plan, s) == p + [plan.launch(s[|s| - 1])];
    AppendAssoc(l, p, [plan.launch(s[|s| - 1])]);
  }

  lemma ElemsSnoc(s: seq<Node>)
    requires |s| > 0
    ensures Elems(s) == Elems(s[..|s| - 1]) + {s[|s| - 1]}
  {
    assert s == s[..|s| - 1] + [s[|s| - 1]];
  }

  /** A run that starts with `success` true succeeds exactly when every turn
      succeeds, and then has generated and launched every assembly of the
      order, in order; otherwise it stops at a first failing turn. */
  lemma {:induction false} RunOutcome(plan: Plan, exitCode: Invocation -> int,
                                      order: seq<Node>, g: set<Node>, l: seq<Invocation>)
    ensures var r := Run(plan, exitCode, order, RunState(g, true, l));
            && (r.success <==> forall i :: 0 <= i < |order| ==> TurnSucceeds(plan, exitCode, g, order, i))
            && (r.success ==> r.generated == g + Elems(order) && r.launched == l + PlannedAll(plan, order))
            && (!r.success ==> exists f :: 0 <= f < |order| && FailsFirstAt(plan, exitCode, g, l, order, f, r))
  {
    var st := RunState(g, true, l);
    if order == [] {
      assert Elems(order) == {};
      assert l + PlannedAll(plan, order) == l;
    } else {
      var n := |order|;
      var init := order[..n - 1];
      RunOutcome(plan, exitCode, init, g, l);
      var prev := Run(plan, exitCode, init, st);
      var r := Run(plan, exitCode, order, st);
      assert r == Step(plan, exitCode, prev, order[n - 1]);
      forall i | 0 <= i < n - 1
        ensures TurnSucceeds(plan, exitCode, g, init, i) == TurnSucceeds(plan, exitCode, g, order, i)
      {
        TurnSucceedsPrefix(plan, exitCode, g, order, n - 1, i);
      }
      if prev.success {
        LastTurn(plan, exitCode, g, l, order, prev);
        if !r.success {
          assert FailsFirstAt(plan, exitCode, g, l, order, n - 1, r);
        }
      } else {
        var f :| 0 <= f < n - 1 && FailsFirstAt(plan, exitCode, g, l, init, f, prev);
        FailsFirstAtExtends(plan, exitCode, g, l, order, f, r);
      }
    }
  }

  /** On an acyclic graph every closure member of the assembly at position
      `i` of the global order is already generated when turn `i` comes, so a
      run over the global order never skips an assembly. */
  lemma GlobalOrderAlwaysReady(u: seq<Node>, path: string, g: set<Node>, i: nat)
    requires Acyclic(u) && i < |GlobalOrder(u)|
    ensures Ready(ManagerPlan(u, path).closure(GlobalOrder(u)[i]), g + Elems(GlobalOrder(u)[..i]))
  {
    var order := GlobalOrder(u);
    var a := order[i];
    assert IndexOf(order, a) == i;
    assert ManagerPlan(u, path).closure(a) == ClosureSpec(u, a);
    forall k | 0 <= k < |ClosureSpec(u, a)| ensures ClosureSpec(u, a)[k] in g + Elems(order[..i]) {
      var c := ClosureSpec(u, a)[k];
      ClosurePrecedesInGlobalOrder(u, a, c);
      var j := IndexOf(order, c);
      assert order[..i][j] == c;
    }
  }

  /** A fresh run over `order` is decided by the generator's exit codes
      alone: it succeeds exactly when every exit code is 0, and then has
      generated and launched every assembly in order; otherwise it has
      launched the assemblies up to and including the first whose exit code
      is not 0, and generated exactly those before it. */
  ghost predicate ExitCodesDecide(plan: Plan, exitCode: Invocation -> int, order: seq<Node>, g: set<Node>, l: seq<Invocation>) {
    var r := Run(plan, exitCode, order, RunState(g, true, l));
    && (r.success <==> forall i :: 0 <= i < |order| ==> exitCode(plan.launch(order[i])) == 0)
    && (r.success ==> r.generated == g + Elems(order) && r.launched == l + PlannedAll(plan, order))
    && (!r.success ==>
          exists f :: 0 <= f < |order|
            && exitCode(plan.launch(order[f])) != 0
            && (forall i :: 0 <= i < f ==> exitCode(plan.launch(order[i])) == 0)
            && r.generated == g + Elems(order[..f])
            && r.launched == l + PlannedAll(plan, order[..f + 1]))
  }

  /** A run in which every assembly's closure is ready when its turn comes
      is decided by the exit codes alone. */
  lemma ReadyRunOutcome(plan: Plan, exitCode: Invocation -> int, order: seq<Node>, g: set<Node>, l: seq<Invocation>)
    requires forall i :: 0 <= i < |order| ==> Ready(plan.closure(order[i]), g + Elems(order[..i]))
    ensures ExitCodesDecide(plan, exitCode, order, g, l)
  {
    var r := Run(plan, exitCode, order, RunState(g, true, l));
    RunOutcome(plan, exitCode, order, g, l);
    forall i | 0 <= i < |order|
      ensures TurnSucceeds(plan, exitCode, g, order, i) <==> exitCode(plan.launch(order[i])) == 0
    {
    }
    if !r.success {
      var f :| 0 <= f < |order| && FailsFirstAt(plan, exitCode, g, l, order, f, r);
      ReadyFailure(plan, exitCode, order, g, l, f, r);
    }
  }

  /** The first failing turn of a run whose closures are all ready is the
      first non-zero exit code, and that turn was launched. */
  lemma ReadyFailure(plan: Plan, exitCode: Invocation -> int, order: seq<Node>, g: set<Node>, l: seq<Invocation>,
                     f: nat, r: RunState)
    requires f < |order|
    requires Ready(plan.closure(order[f]), g + Elems(order[..f]))
    requires FailsFirstAt(plan, exitCode, g, l, order, f, r)
    ensures exitCode(plan.launch(order[f])) != 0
    ensures r.launched == l + PlannedAll(plan, order[..f + 1])
  {
    assert order[..f + 1][..f] == order[..f];
    assert PlannedAll(plan, order[..f + 1]) == PlannedAll(plan, order[..f]) + [plan.launch(order[f])];
  }

  /** So on an acyclic graph the run over the global order is decided by the
      generator's exit codes alone: no assembly is skipped. */
  lemma AcyclicRunOutcome(u: seq<Node>, path: string, exitCode: Invocation -> int, g: set<Node>, l: seq<Invocation>)
    requires Acyclic(u)
    ensures ExitCodesDecide(ManagerPlan(u, path), exitCode, GlobalOrder(u), g, l)
  {
    var plan := ManagerPlan(u, path);
    var order := GlobalOrder(u);
    forall i | 0 <= i < |order| ensures Ready(plan.closure(order[i]), g + Elems(order[..i])) {
      GlobalOrderAlwaysReady(u, path, g, i);
    }
    ReadyRunOutcome(plan, exitCode, order, g, l);
  }
}
