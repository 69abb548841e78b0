/** scripts/check_module_layering.py: from import statements to the module
    graph and the verdict of the gate. */
module ModuleGraph {
  import opened Wrappers
  import opened Graphs
  import opened ModuleLayering

  const ROOT_MODULE := "_root"
  const PACKAGE_NAME := "brain_v42"

  /** `import a.b, c` lists dotted names; `from ..m import x` has a level and the parts of m. */
  datatype ImportStatement =
    | Import(names: seq<seq<string>>)
    | FromImport(level: nat, parts: seq<string>)

  /** A source file: its path below the package root and its import statements. */
  datatype SourceFile = SourceFile(path: seq<string>, imports: seq<ImportStatement>)

  // ---- What the import statements mean ------------------------------------

  /** The node that holds the file at this path: the outermost directory on it,
      or the root when the file lies in none. */
  ghost predicate HeldBy(path: seq<string>, m: string) {
    (exists rest :: rest != [] && path == [m] + rest) || (m == ROOT_MODULE && |path| <= 1)
  }

  /** The dotted name lies below sub-package m, or below the package and no sub-package. */
  ghost predicate LeadsTo(dotted: seq<string>, packages: set<string>, m: string) {
    || (m in packages && [PACKAGE_NAME, m] <= dotted)
    || (m == ROOT_MODULE && [PACKAGE_NAME] <= dotted && forall q :: q in packages ==> !([PACKAGE_NAME, q] <= dotted))
  }

  /** The dotted name of the package the file is a module of. */
  ghost predicate ModuleIn(path: seq<string>, dir: seq<string>) {
    if path == [] then dir == [PACKAGE_NAME] else exists name :: [PACKAGE_NAME] + path == dir + [name]
  }

  /** n levels up from dir; a climb past its outermost component has no meaning,
      and the script takes some of them for a climb from twice the depth. */
  ghost predicate Up(dir: seq<string>, n: nat, base: seq<string>) {
    base != [] && base <= dir && |base| + n == if n <= |dir| then |dir| else 2 * |dir|
  }

  ghost predicate UpFrom(path: seq<string>, n: nat, base: seq<string>) {
    exists dir :: ModuleIn(path, dir) && Up(dir, n, base)
  }

  /** The statement, in the file at this path, refers to the absolute dotted name. */
  ghost predicate Refers(path: seq<string>, statement: ImportStatement, dotted: seq<string>) {
    match statement
    case Import(names) => dotted in names
    case FromImport(level, parts) =>
      if level == 0 then dotted == parts
      else exists base :: UpFrom(path, level - 1, base) && dotted == base + parts
  }

  /** The file imports something that module m holds. */
  ghost predicate FileImports(file: SourceFile, packages: set<string>, m: string) {
    exists i, dotted :: 0 <= i < |file.imports| && Refers(file.path, file.imports[i], dotted) && LeadsTo(dotted, packages, m)
  }

  /** The climbs the script refuses, by the depth of the file. */
  ghost predicate FileRefused(file: SourceFile) {
    exists i :: 0 <= i < |file.imports| && Refuses(file.path, file.imports[i])
  }

  predicate Refuses(path: seq<string>, statement: ImportStatement) {
    var depth := if path == [] then 1 else |path|;
    statement.FromImport? && statement.level > 0 && (statement.level - 1 == depth || statement.level - 1 >= 2 * depth)
  }

  // ---- The code as written ------------------------------------------------

  function Resolve(dotted: seq<string>, packages: set<string>): Option<string> {
    if dotted == [] || dotted[0] != PACKAGE_NAME then None
    else if |dotted| < 2 then Some(ROOT_MODULE)
    else if dotted[1] in packages then Some(dotted[1])
    else Some(ROOT_MODULE)
  }

  function ModuleOf(path: seq<string>): string {
    if |path| > 1 then path[0] else ROOT_MODULE
  }

  function OwnPackage(path: seq<string>): seq<string> {
    [PACKAGE_NAME] + if path == [] then [] else path[..|path| - 1]
  }

  /** Python's `s[:k]`: a negative bound counts from the end. */
  function SliceTo<T>(s: seq<T>, k: int): seq<T> {
    if k > |s| then s else if k >= 0 then s[..k] else if |s| + k >= 0 then s[..|s| + k] else []
  }

  function RelativeBase(own: seq<string>, level: nat): seq<string> {
    SliceTo(own, |own| - (level - 1))
  }

  /** The import the script refuses: its relative base came out empty. */
  predicate Refused(own: seq<string>, statement: ImportStatement) {
    statement.FromImport? && statement.level > 0 && RelativeBase(own, statement.level) == []
  }

  /** The dotted names a statement refers to. */
  function Dotted(own: seq<string>, statement: ImportStatement): seq<seq<string>> {
    match statement
    case Import(names) => names
    case FromImport(level, parts) => [if level > 0 then RelativeBase(own, level) + parts else parts]
  }

  /** An import leaves the package when it climbs past its outermost component.
      The script notices the climb of exactly that many levels and every climb
      of twice as many, but a bound in between is negative and wraps to a
      non-empty base. */
  lemma EscapeRefusedExactly(own: seq<string>, level: nat, parts: seq<string>)
    requires own != [] && level > 0
    ensures Refused(own, FromImport(level, parts)) <==> level - 1 == |own| || level - 1 >= 2 * |own|
    ensures level - 1 < |own| ==>
      !Refused(own, FromImport(level, parts)) && RelativeBase(own, level) == own[..|own| - (level - 1)]
  {
  }

  /** The import `from ....m import x` in `brain_v42/search/index.py` climbs one
      level beyond the refused climb and is taken for `brain_v42.m`. */
  lemma EscapeMissed()
    ensures RelativeBase([PACKAGE_NAME, "search"], 4) == [PACKAGE_NAME]
    ensures !Refused([PACKAGE_NAME, "search"], FromImport(4, ["m"]))
  {
  }

  // ---- The code computes what the statements mean -------------------------

  lemma HeldByIs(path: seq<string>, m: string)
    ensures HeldBy(path, m) <==> m == ModuleOf(path)
  {
    if |path| > 1 { assert path == [path[0]] + path[1..]; }
  }

  lemma ResolveLeads(dotted: seq<string>, packages: set<string>, m: string)
    ensures LeadsTo(dotted, packages, m) <==> Resolve(dotted, packages) == Some(m)
  {
    forall q ensures [PACKAGE_NAME, q] <= dotted <==> |dotted| >= 2 && dotted[0] == PACKAGE_NAME && dotted[1] == q {
      if |dotted| >= 2 { assert dotted[..2] == [dotted[0], dotted[1]]; }
    }
  }

  lemma OwnPackageIs(path: seq<string>, dir: seq<string>)
    ensures ModuleIn(path, dir) <==> dir == OwnPackage(path)
  {
    if path != [] {
      var k := |path| - 1;
      assert [PACKAGE_NAME] + path == [PACKAGE_NAME] + path[..k] + [path[k]];
      if name :| [PACKAGE_NAME] + path == dir + [name] {
        assert dir == ([PACKAGE_NAME] + path)[..|path|] == [PACKAGE_NAME] + path[..k];
      }
    }
  }

  lemma RelativeBaseUp(own: seq<string>, level: nat, base: seq<string>)
    requires own != [] && level > 0
    ensures Up(own, level - 1, base) <==> base != [] && base == RelativeBase(own, level)
  {
    if base <= own { assert base == own[..|base|]; }
  }

  lemma RefersIs(path: seq<string>, statement: ImportStatement, dotted: seq<string>)
    ensures Refuses(path, statement) <==> Refused(OwnPackage(path), statement)
    ensures !Refuses(path, statement) ==>
      (Refers(path, statement, dotted) <==> dotted in Dotted(OwnPackage(path), statement))
  {
    if statement.FromImport? && statement.level > 0 {
      var own, level, n := OwnPackage(path), statement.level, statement.level - 1;
      EscapeRefusedExactly(own, level, statement.parts);
      OwnPackageIs(path, own);
      RelativeBaseUp(own, level, RelativeBase(own, level));
      forall base ensures UpFrom(path, n, base) <==> base != [] && base == RelativeBase(own, level) {
        if dir :| ModuleIn(path, dir) && Up(dir, n, base) { OwnPackageIs(path, dir); }
        RelativeBaseUp(own, level, base);
      }
    }
  }

  lemma ImportsMeans(path: seq<string>, packages: set<string>, statement: ImportStatement, m: string)
    requires !Refuses(path, statement)
    ensures Imports(OwnPackage(path), packages, statement, m)
      <==> exists dotted :: Refers(path, statement, dotted) && LeadsTo(dotted, packages, m)
  {
    hide Refuses, Dotted, OwnPackage, Resolve, LeadsTo, Refers;
    forall dotted
      ensures Refers(path, statement, dotted) <==> dotted in Dotted(OwnPackage(path), statement)
      ensures LeadsTo(dotted, packages, m) <==> Resolve(dotted, packages) == Some(m)
    {
      RefersIs(path, statement, dotted);
      ResolveLeads(dotted, packages, m);
    }
  }

  ghost predicate Imports(own: seq<string>, packages: set<string>, statement: ImportStatement, target: string) {
    exists dotted :: dotted in Dotted(own, statement) && Resolve(dotted, packages) == Some(target)
  }

  method ImportedModules(own: seq<string>, statements: seq<ImportStatement>, packages: set<string>)
      returns (resolved: Option<set<string>>)
    ensures resolved.None? <==> exists i :: 0 <= i < |statements| && Refused(own, statements[i])
    ensures resolved.Some? ==> forall t :: t in resolved.value <==>
      exists i :: 0 <= i < |statements| && Imports(own, packages, statements[i], t)
  {
    var targets: set<string> := {};
    for k := 0 to |statements|
      invariant forall i :: 0 <= i < k ==> !Refused(own, statements[i])
      invariant forall t :: t in targets <==> exists i :: 0 <= i < k && Imports(own, packages, statements[i], t)
    {
      if Refused(own, statements[k]) {
        return None;
      }
      ghost var before := targets;
      var names := Dotted(own, statements[k]);
      for j := 0 to |names|
        invariant forall t :: t in targets <==>
          t in before || exists i :: 0 <= i < j && Resolve(names[i], packages) == Some(t)
      {
        var target := Resolve(names[j], packages);
        if target.Some? {
          targets := targets + {target.value};
        }
      }
      forall t ensures t in targets <==> t in before || Imports(own, packages, statements[k], t) {
        if Imports(own, packages, statements[k], t) {
          var dotted :| dotted in names && Resolve(dotted, packages) == Some(t);
          var i :| 0 <= i < |names| && names[i] == dotted;
        }
        if t in targets && t !in before {
          var i :| 0 <= i < |names| && Resolve(names[i], packages) == Some(t);
          assert names[i] in names;
        }
      }
    }
    resolved := Some(targets);
  }

  /** One file: the modules its statements mean, unless one of them is refused. */
  method FileTargets(file: SourceFile, packages: set<string>) returns (targets: Option<set<string>>)
    ensures targets.None? <==> FileRefused(file)
    ensures targets.Some? ==> forall m :: m in targets.value <==> FileImports(file, packages, m)
  {
    targets := ImportedModules(OwnPackage(file.path), file.imports, packages);
    forall i | 0 <= i < |file.imports|
      ensures Refuses(file.path, file.imports[i]) <==> Refused(OwnPackage(file.path), file.imports[i])
    {
      RefersIs(file.path, file.imports[i], []);
    }
    if targets.Some? {
      hide Refers, LeadsTo, Refused, Refuses, OwnPackage, Imports;
      forall i, m | 0 <= i < |file.imports|
        ensures Imports(OwnPackage(file.path), packages, file.imports[i], m)
          <==> exists dotted :: Refers(file.path, file.imports[i], dotted) && LeadsTo(dotted, packages, m)
      {
        ImportsMeans(file.path, packages, file.imports[i], m);
      }
    }
  }

  /** The file lies in module u and imports something module v holds. */
  ghost predicate Contributes(file: SourceFile, packages: set<string>, u: string, v: string) {
    HeldBy(file.path, u) && FileImports(file, packages, v)
  }

  /** There is an edge exactly where some file of one module imports another
      module; every sub-package and the root module are nodes. */
  ghost predicate IsModuleGraph(files: seq<SourceFile>, packages: set<string>, g: Graph) {
    && (forall m :: m in g <==> m in packages || m == ROOT_MODULE || exists f :: f in files && HeldBy(f.path, m))
    && (forall u, v :: v in Succ(g, u) <==> v != u && exists f :: f in files && Contributes(f, packages, u, v))
  }

  /** Every module is a node, with or without imports. */
  method WithModules(built: Graph, modules: set<string>) returns (edges: Graph)
    ensures edges.Keys == built.Keys + modules && forall u :: Succ(edges, u) == Succ(built, u)
  {
    edges := built;
    var rest := modules;
    while rest != {}
      invariant rest <= modules
      invariant edges.Keys == built.Keys + (modules - rest)
      invariant forall u :: Succ(edges, u) == Succ(built, u)
      decreases rest
    {
      var m :| m in rest;
      rest := rest - {m};
      if m !in edges {
        edges := edges[m := {}];
      }
    }
  }

  lemma EdgesAdded(edges: Graph, file: SourceFile, packages: set<string>, targets: set<string>)
    requires forall v :: v in targets <==> FileImports(file, packages, v)
    ensures var m := ModuleOf(file.path); var after := edges[m := Succ(edges, m) + (targets - {m})];
      forall u, v :: v in Succ(after, u) <==> v in Succ(edges, u) || (v != u && Contributes(file, packages, u, v))
  {
    hide ModuleOf, FileImports, HeldBy;
    forall u ensures HeldBy(file.path, u) <==> u == ModuleOf(file.path) { HeldByIs(file.path, u); }
  }

  method BuildModuleGraph(files: seq<SourceFile>, packages: set<string>) returns (graph: Option<Graph>)
    ensures graph.None? <==> exists f :: f in files && FileRefused(f)
    ensures graph.Some? ==> IsModuleGraph(files, packages, graph.value)
  {
    hide FileRefused, FileImports, HeldBy;
    var edges: Graph := map[];
    for k := 0 to |files|
      invariant forall i :: 0 <= i < k ==> !FileRefused(files[i])
      invariant forall m :: m in edges <==> exists i :: 0 <= i < k && HeldBy(files[i].path, m)
      invariant forall u, v :: v in Succ(edges, u) <==>
        v != u && exists i :: 0 <= i < k && Contributes(files[i], packages, u, v)
    {
      var importer := ModuleOf(files[k].path);
      var targets := FileTargets(files[k], packages);
      if targets.None? {
        assert FileRefused(files[k]) && files[k] in files;
        return None;
      }
      forall m ensures HeldBy(files[k].path, m) <==> m == importer { HeldByIs(files[k].path, m); }
      EdgesAdded(edges, files[k], packages, targets.value);
      edges := edges[importer := Succ(edges, importer) + (targets.value - {importer})];
    }
    edges := WithModules(edges, packages + {ROOT_MODULE});
    forall f | f in files ensures exists i :: 0 <= i < |files| && files[i] == f {}
    assert forall i :: 0 <= i < |files| ==> files[i] in files;
    graph := Some(edges);
  }

  /** The gate accepts exactly when no import was refused and the module graph
      has no cycle, which is when every component is a single module. */
  method ValidateModuleLayering(files: seq<SourceFile>, packages: set<string>)
      returns (accepted: bool, graph: Option<Graph>)
    ensures graph.None? <==> exists f :: f in files && FileRefused(f)
    ensures graph.Some? ==> IsModuleGraph(files, packages, graph.value)
    ensures accepted <==> graph.Some? && Acyclic(graph.value)
    ensures graph.Some? ==> (accepted <==> forall c :: IsScc(graph.value, c) ==> |c| == 1)
  {
    graph := BuildModuleGraph(files, packages);
    if graph.None? {
      return false, graph;
    }
    var cycles, _, _, _ := FindCycles(graph.value);
    accepted := cycles == [];
    ReportEmptyIffAcyclic(graph.value, cycles);
    NoSelfEdges(files, packages, graph.value);
    NothingReportedIffSingletons(graph.value, cycles);
  }

  lemma NoSelfEdges(files: seq<SourceFile>, packages: set<string>, g: Graph)
    requires IsModuleGraph(files, packages, g)
    ensures WithoutSelfEdges(g) == g
  {
    forall u | u in g ensures g[u] - {u} == g[u] { assert u !in Succ(g, u); }
  }

  lemma NothingReportedIffSingletons(g: Graph, cycles: seq<set<Node>>)
    requires CycleReport(g, cycles)
    ensures cycles == [] <==> forall c :: IsScc(g, c) ==> |c| == 1
  {
    assert cycles[..] == [] || cycles[0] in cycles;
    forall c | IsScc(g, c) ensures |c| > 0 { var u :| u in c; }
  }

  // ---- Paths and dotted names ---------------------------------------------

  /** Importing a file by its own dotted name leads to the node that holds it. */
  lemma OwnNameLeadsHome(path: seq<string>, packages: set<string>)
    requires path != [] && (|path| > 1 <==> path[0] in packages)
    ensures forall m :: HeldBy(path, m) <==> LeadsTo([PACKAGE_NAME] + path, packages, m)
  {
    forall m ensures HeldBy(path, m) <==> LeadsTo([PACKAGE_NAME] + path, packages, m) {
      HeldByIs(path, m);
      ResolveLeads([PACKAGE_NAME] + path, packages, m);
    }
  }

  /** Two files share a node exactly when they lie in the same outermost
      directory or both in none; only a directory called like the root node is confused with it. */
  lemma SameNodeIff(p: seq<string>, q: seq<string>)
    ensures (exists m :: HeldBy(p, m) && HeldBy(q, m)) <==>
      || (|p| > 1 && |q| > 1 && p[0] == q[0])
      || (|p| <= 1 && |q| <= 1)
      || (|p| > 1 && |q| <= 1 && p[0] == ROOT_MODULE)
      || (|q| > 1 && |p| <= 1 && q[0] == ROOT_MODULE)
  {
    HeldByIs(p, ModuleOf(p));
    HeldByIs(q, ModuleOf(p));
    forall m | HeldBy(p, m) && HeldBy(q, m) ensures m == ModuleOf(p) { HeldByIs(p, m); }
  }

  /** A file of sub-package a imports a dotted name below sub-package b. */
  ghost predicate ImportsBelow(files: seq<SourceFile>, a: string, b: string) {
    exists f, i, dotted :: f in files && |f.path| > 1 && f.path[0] == a && 0 <= i < |f.imports|
      && Refers(f.path, f.imports[i], dotted) && [PACKAGE_NAME, b] <= dotted
  }

  lemma BelowIsEdge(files: seq<SourceFile>, packages: set<string>, g: Graph, a: string, b: string)
    requires IsModuleGraph(files, packages, g) && b in packages && a != b && ImportsBelow(files, a, b)
    ensures b in Succ(g, a)
  {
    var f, i, dotted :| f in files && |f.path| > 1 && f.path[0] == a && 0 <= i < |f.imports|
      && Refers(f.path, f.imports[i], dotted) && [PACKAGE_NAME, b] <= dotted;
    HeldByIs(f.path, a);
    assert LeadsTo(dotted, packages, b);
    assert FileImports(f, packages, b);
  }

  /** Each sub-package of the round imports below the next, and the last below the first. */
  ghost predicate ImportRound(files: seq<SourceFile>, packages: set<string>, round: seq<string>) {
    && |round| > 1 && round[0] != round[1]
    && (forall m :: m in round ==> m in packages)
    && (forall i :: 0 <= i < |round| ==> Linked(files, round[i], Next(round, i)))
  }

  function Next(round: seq<string>, i: nat): string
    requires i < |round|
  {
    if i + 1 == |round| then round[0] else round[i + 1]
  }

  ghost predicate Linked(files: seq<SourceFile>, a: string, b: string) { a == b || ImportsBelow(files, a, b) }

  lemma {:induction false} AlongRound(files: seq<SourceFile>, packages: set<string>, g: Graph, round: seq<string>, i: nat)
    requires IsModuleGraph(files, packages, g) && ImportRound(files, packages, round) && 1 <= i < |round|
    ensures Reach(g, round[i], round[0])
    decreases |round| - i
  {
    hide IsModuleGraph, ImportRound, Reach;
    RoundStep(files, packages, g, round, i);
    if i + 1 < |round| {
      AlongRound(files, packages, g, round, i + 1);
      ReachTrans(g, round[i], round[i + 1], round[0]);
    }
  }

  lemma RoundStep(files: seq<SourceFile>, packages: set<string>, g: Graph, round: seq<string>, i: nat)
    requires IsModuleGraph(files, packages, g) && ImportRound(files, packages, round) && i < |round|
    ensures Reach(g, round[i], Next(round, i))
  {
    hide IsModuleGraph, ImportsBelow, Reach;
    var a, b := round[i], Next(round, i);
    assert Linked(files, a, b) && b in round;
    if a == b { ReachRefl(g, a); } else { BelowIsEdge(files, packages, g, a, b); ReachEdge(g, a, b); }
  }

  /** No round of imports among two or more sub-packages is ever accepted. */
  lemma ImportRoundRefused(files: seq<SourceFile>, packages: set<string>, g: Graph, round: seq<string>)
    requires IsModuleGraph(files, packages, g) && ImportRound(files, packages, round)
    ensures !Acyclic(g)
  {
    AlongRound(files, packages, g, round, 1);
    RoundStep(files, packages, g, round, 0);
    NoSelfEdges(files, packages, g);
    AcyclicIffNoMutualPair(g);
    hide IsModuleGraph, ImportRound, Reach, Acyclic;
    assert Mutual(g, round[0], round[1]);
  }

  /** In particular two sub-packages that import below each other. */
  lemma MutualImportsRefused(files: seq<SourceFile>, packages: set<string>, g: Graph, a: string, b: string)
    requires IsModuleGraph(files, packages, g) && a != b && a in packages && b in packages
    requires ImportsBelow(files, a, b) && ImportsBelow(files, b, a)
    ensures !Acyclic(g)
  {
    hide ImportsBelow, IsModuleGraph;
    ImportRoundRefused(files, packages, g, [a, b]);
  }
}
